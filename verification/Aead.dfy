/** ChaCha20-Poly1305 as an authenticated cipher (section 2.8 of RFC 8439), in the
    single-buffer and the multi-buffer form of the library. */
module Aead {
  import opened Num
  import opened Bits
  import opened ChaCha20
  import opened ChaChaLaws
  import opened Poly1305

  function Padding(n: nat): bytes
  {
    if n % 16 == 0 then [] else Zeros(16 - n % 16)
  }

  /** What the authenticator sees. */
  function MacData(ad: bytes, c: bytes): bytes
  {
    ad + Padding(|ad|) + c + Padding(|c|) + LeBytes(|ad|, 8) + LeBytes(|c|, 8)
  }

  /** Ciphertext followed by its tag, from a key stream and a one-time authenticator key. */
  function Seal(ks: KeyStream, pk: bytes, ad: bytes, m: bytes): bytes
    requires |pk| == 64
  {
    var c := Crypt(ks, 0, m);
    c + Tag(MacData(ad, c), pk)
  }

  datatype Opened = Opened(text: bytes, authentic: bool)

  function Open(ks: KeyStream, pk: bytes, ad: bytes, s: bytes): Opened
    requires |pk| == 64 && |s| >= 16
  {
    var c := s[..|s| - 16];
    Opened(Crypt(ks, 0, c), Tag(MacData(ad, c), pk) == s[|s| - 16..])
  }

  /** What was sealed opens as authentic, to the same text. */
  lemma OpenOfSeal(ks: KeyStream, pk: bytes, ad: bytes, m: bytes)
    requires |pk| == 64
    ensures |Seal(ks, pk, ad, m)| == |m| + 16
    ensures Open(ks, pk, ad, Seal(ks, pk, ad, m)) == Opened(m, true)
  {
    var c := Crypt(ks, 0, m);
    var t := Tag(MacData(ad, c), pk);
    var s := c + t;
    assert s[..|s| - 16] == c && s[|s| - 16..] == t;
    CryptTwice(ks, 0, m);
  }

  /** The one-time key is the first key block, made by encrypting zeros at counter 0. */
  function OneTimeKey(key: bytes, nonce: bytes): (pk: bytes)
    requires |key| == 32 && |nonce| == 12
    ensures |pk| == 64
  {
    Crypt(Stream(KeyBlocks(InitWords(key, nonce, 0))), 0, Zeros(64))
  }

  /** Messages are encrypted from counter 1. */
  function MessageStream(key: bytes, nonce: bytes): KeyStream
    requires |key| == 32 && |nonce| == 12
  {
    Stream(KeyBlocks(InitWords(key, nonce, 1)))
  }

  //
  // Laws
  //

  /** Padding fills the last sixteen bytes, with fewer than sixteen zeros. */
  lemma PaddingFills(n: nat)
    ensures (n + |Padding(n)|) % 16 == 0 && |Padding(n)| < 16 && Padding(n) == Zeros(|Padding(n)|)
  {
  }

  /** Lengths are written in 64 bits. */
  const LENGTHS: nat := 0x1_0000_0000_0000_0000

  /** What is authenticated tells associated data and ciphertext apart. */
  lemma MacDataInjective(ad: bytes, c: bytes, ad': bytes, c': bytes)
    requires |ad| < LENGTHS && |c| < LENGTHS && |ad'| < LENGTHS && |c'| < LENGTHS
    requires MacData(ad, c) == MacData(ad', c')
    ensures ad == ad' && c == c'
  {
    MacDataRead(ad, c);
    MacDataRead(ad', c');
  }

  lemma MacDataRead(ad: bytes, c: bytes)
    requires |ad| < LENGTHS && |c| < LENGTHS
    ensures var s, k := MacData(ad, c), |ad| + |Padding(|ad|)|;
      && |s| >= 16 && Le(s[|s| - 16..|s| - 8]) == |ad| && Le(s[|s| - 8..]) == |c|
      && k + |c| <= |s| && s[..|ad|] == ad && s[k..k + |c|] == c
  {
    var s, k := MacData(ad, c), |ad| + |Padding(|ad|)|;
    LengthRead(|ad|, 8);
    LengthRead(|c|, 8);
    assert s[|s| - 16..|s| - 8] == LeBytes(|ad|, 8) && s[|s| - 8..] == LeBytes(|c|, 8);
    assert s[..|ad|] == ad && s[k..k + |c|] == c;
  }

  lemma LengthRead(n: nat, w: nat)
    requires w == 8 && n < LENGTHS
    ensures Le(LeBytes(n, w)) == n
  {
    var two, four := 2, 4;
    assert Pow(256, two) == 0x1_0000;
    PowAdd(256, two, two);
    PowAdd(256, four, four);
    LeOfLeBytes(n, w);
    ModUnique(n, LENGTHS, 0, n);
  }

  lemma ZerosCrypted(kb: nat -> block64)
    ensures Crypt(Stream(kb), 0, Zeros(64)) == kb(0)
  {
    var pk, b := Crypt(Stream(kb), 0, Zeros(64)), kb(0);
    forall j | 0 <= j < 64
      ensures pk[j] == b[j]
    {
      XorZeroByte(b[j]);
    }
  }

  /** The first key block is that of the state itself. */
  lemma FirstBlock(x: seq<word>)
    requires |x| == 16
    ensures KeyBlocks(x)(0) == BlockBytes(x)
  {
    assert CounterAt(x, 0) == x;
  }

  /** The one-time key is the block of counter 0. */
  lemma OneTimeKeyIs(key: bytes, nonce: bytes)
    requires |key| == 32 && |nonce| == 12
    ensures OneTimeKey(key, nonce) == BlockBytes(InitWords(key, nonce, 0))
  {
    FirstBlock(InitWords(key, nonce, 0));
    ZerosCrypted(KeyBlocks(InitWords(key, nonce, 0)));
  }

  lemma XorZeroByte(b: byte)
    ensures XorByte(0, b) == b
  {
    XorComm(0, b);
    XorZero(b);
  }

  /** A sealed message is the text combined with the blocks from counter 1 on, and the tag of the
      padded data and their lengths under the block of counter 0. */
  lemma SealedBytes(key: bytes, nonce: bytes, ad: bytes, m: bytes, s: bytes)
    requires |key| == 32 && |nonce| == 12
    requires s == Seal(MessageStream(key, nonce), OneTimeKey(key, nonce), ad, m)
    ensures |s| == |m| + 16
    ensures forall j, n: word :: 0 <= j < |m| && n == (1 + j / 64) % 0x1_0000_0000 ==>
      s[j] == XorByte(m[j], BlockBytes(InitWords(key, nonce, n))[j % 64])
    ensures s[|m|..] == Tag(MacData(ad, s[..|m|]), BlockBytes(InitWords(key, nonce, 0)))
  {
    var c := Crypt(MessageStream(key, nonce), 0, m);
    OneTimeKeyIs(key, nonce);
    assert s[..|m|] == c;
    forall j, n: word | 0 <= j < |m| && n == (1 + j / 64) % 0x1_0000_0000
      ensures s[j] == XorByte(m[j], BlockBytes(InitWords(key, nonce, n))[j % 64])
    {
      StreamBlocks(key, nonce, 1, m, j, n);
      assert s[j] == c[j];
    }
  }

  /** For a given ciphertext and associated data only one tag is authentic. */
  lemma OneAuthentic(ks: KeyStream, pk: bytes, ad: bytes, s: bytes, s': bytes)
    requires |pk| == 64 && |s| >= 16 && |s'| == |s| && s[..|s| - 16] == s'[..|s| - 16]
    requires Open(ks, pk, ad, s).authentic && Open(ks, pk, ad, s').authentic
    ensures s == s'
  {
    assert s == s[..|s| - 16] + s[|s| - 16..];
    assert s' == s'[..|s| - 16] + s'[|s| - 16..];
  }

  lemma NextCounter(key: bytes, nonce: bytes)
    requires |key| == 32 && |nonce| == 12
    ensures InitWords(key, nonce, 0)[12 := 1] == InitWords(key, nonce, 1)
  {
  }

  /** The shared beginning of both forms: the one-time key, and a cipher at counter 1. */
  method Setup(key: bytes, nonce: bytes) returns (state: Cipher, pk: bytes)
    requires |key| == 32 && |nonce| == 12
    ensures fresh(state) && fresh(state.data) && fresh(state.block) && state.Valid()
    ensures Stream(state.kb) == MessageStream(key, nonce) && state.pos == 0
    ensures pk == OneTimeKey(key, nonce)
  {
    state := new Cipher(key, nonce, 0);
    var polyKey := new byte[64](_ => 0);
    assert polyKey[..] == polyKey[0..64] == Zeros(64);
    state.Encrypt(polyKey, 0, 64);
    pk := polyKey[..];
    NextCounter(key, nonce);
    state.SetCounter(1);
  }

  /** The authenticator after the associated data and its padding. */
  method StartHash(pk: bytes, ad: bytes) returns (hash: Authenticator)
    requires |pk| == 64
    ensures fresh(hash) && fresh(hash.h) && fresh(hash.msg) && fresh(hash.hr) && fresh(hash.buffer)
    ensures fresh(hash.r) && fresh(hash.pad)
    ensures hash.Valid() && hash.key == pk && hash.Contents() == ad + Padding(|ad|)
  {
    hash := new Authenticator(pk);
    hash.Update(ad);
    var rem := |ad| % 16;
    if rem != 0 { hash.Update(Zeros(16 - rem)); }
  }

  /** Padding, the two lengths and the tag. */
  method FinishHash(hash: Authenticator, adLen: nat, len: nat) returns (tag: bytes)
    requires hash.Valid()
    modifies hash, hash.h, hash.msg, hash.hr, hash.buffer
    ensures tag == Tag(old(hash.Contents()) + Padding(len) + LeBytes(adLen, 8) + LeBytes(len, 8), hash.key)
  {
    ghost var c := hash.Contents();
    var rem := len % 16;
    if rem != 0 { hash.Update(Zeros(16 - rem)); }
    hash.Update(LeBytes(adLen, 8) + LeBytes(len, 8));
    assert hash.Contents() == c + Padding(len) + LeBytes(adLen, 8) + LeBytes(len, 8);
    tag := hash.Finish();
  }

  /** `memcpy (buf, msg, msgLen)` when the buffers differ. */
  method CopyMessage(msg: array<byte>, buf: array<byte>, n: nat)
    requires n <= msg.Length && n <= buf.Length
    modifies buf
    ensures buf[..] == old(msg[..n]) + old(buf[n..])
  {
    if buf != msg {
      forall i | 0 <= i < n { buf[i] := msg[i]; }
    }
  }

  lemma MacDataParts(ad: bytes, c: bytes)
    ensures ((ad + Padding(|ad|)) + c) + Padding(|c|) + LeBytes(|ad|, 8) + LeBytes(|c|, 8) == MacData(ad, c)
  {
  }

  lemma MacDataNoAd(c: bytes)
    ensures c + Padding(|c|) + LeBytes(0, 8) + LeBytes(|c|, 8) == MacData([], c)
  {
    assert [] + Padding(0) + c == c;
  }

  /** The calls that `AEADChaCha20Poly1305` makes on its authenticator, over ciphertext c. */
  method ComputeTag(pk: bytes, ad: bytes, c: bytes) returns (tag: bytes)
    requires |pk| == 64
    ensures tag == Tag(MacData(ad, c), pk)
  {
    var hash := StartHash(pk, ad);
    hash.Update(c);
    MacDataParts(ad, c);
    tag := FinishHash(hash, |ad|, |c|);
  }

  /** The encrypting branch of `AEADChaCha20Poly1305`: encrypt, then authenticate. */
  method EncryptInto(state: Cipher, pk: bytes, ghost ks: KeyStream, msg: array<byte>, n: nat, ad: bytes,
                     buf: array<byte>)
    requires state.Valid() && state.pos == 0 && Stream(state.kb) == ks && |pk| == 64
    requires n <= msg.Length && n + 16 <= buf.Length && buf != state.block && msg != state.block
    modifies state, state.data, state.block, buf
    ensures buf[..] == Seal(ks, pk, ad, old(msg[..n])) + old(buf[n + 16..])
  {
    ghost var m, b := msg[..n], buf[..];
    CopyMessage(msg, buf, n);
    assert buf[0..n] == m && buf[n..] == b[n..];
    state.Encrypt(buf, 0, n);
    ghost var c := Crypt(ks, 0, m);
    assert buf[..n] == c && buf[n..] == b[n..];
    var tag := ComputeTag(pk, ad, buf[..n]);
    StoreTag(buf, n, tag);
    assert buf[n + 16..] == b[n + 16..];
  }

  method StoreTag(buf: array<byte>, n: nat, tag: bytes)
    requires |tag| == 16 && n + 16 <= buf.Length
    modifies buf
    ensures buf[..] == old(buf[..n]) + tag + old(buf[n..])[16..]
  {
    forall i | 0 <= i < 16 { buf[n + i] := tag[i]; }
  }

  /** The decrypting branch: authenticate the ciphertext, then decrypt it. */
  method DecryptInto(state: Cipher, pk: bytes, ghost ks: KeyStream, msg: array<byte>, n: nat, ad: bytes,
                     buf: array<byte>)
    returns (ret: bool)
    requires state.Valid() && state.pos == 0 && Stream(state.kb) == ks && |pk| == 64
    requires n + 16 <= msg.Length && n <= buf.Length && buf != state.block && msg != state.block
    modifies state, state.data, state.block, buf
    ensures ret == Open(ks, pk, ad, old(msg[..n + 16])).authentic
    ensures buf[..] == Open(ks, pk, ad, old(msg[..n + 16])).text + old(buf[n..])
  {
    ghost var s, c, b := msg[..n + 16], msg[..n], buf[..];
    var want := msg[n..n + 16];
    assert s[..n] == c && s[n..] == want;
    CopyMessage(msg, buf, n);
    assert buf[0..n] == buf[..n] == c && buf[n..] == b[n..];
    var tag := ComputeTag(pk, ad, buf[..n]);
    ret := tag == want;
    state.Encrypt(buf, 0, n);
  }

  /** `AEADChaCha20Poly1305`. A buffer too short for the message, or for the message and a tag
      when encrypting, is refused untouched. `msg` and `buf` may be the same buffer. */
  method AeadSingle(msg: array<byte>, msgLen: nat, ad: bytes, key: bytes, nonce: bytes,
                    buf: array<byte>, len: nat, encrypt: bool)
    returns (ret: bool)
    requires |key| == 32 && |nonce| == 12
    requires msgLen <= msg.Length && len <= buf.Length
    requires !encrypt ==> msgLen + 16 <= msg.Length
    modifies buf
    ensures len < msgLen || (encrypt && len < msgLen + 16) ==> !ret && buf[..] == old(buf[..])
    ensures encrypt && msgLen + 16 <= len ==>
      && ret
      && buf[..] == Seal(MessageStream(key, nonce), OneTimeKey(key, nonce), ad, old(msg[..msgLen]))
        + old(buf[msgLen + 16..])
    ensures !encrypt && msgLen <= len ==>
      var o := Open(MessageStream(key, nonce), OneTimeKey(key, nonce), ad, old(msg[..msgLen + 16]));
      ret == o.authentic && buf[..] == o.text + old(buf[msgLen..])
  {
    if len < msgLen { return false; }
    if encrypt && len < msgLen + 16 { return false; }
    var state, pk := Setup(key, nonce);
    if encrypt {
      EncryptInto(state, pk, MessageStream(key, nonce), msg, msgLen, ad, buf);
      ret := true;
    } else {
      ret := DecryptInto(state, pk, MessageStream(key, nonce), msg, msgLen, ad, buf);
    }
  }

  ghost function Contents(bufs: seq<array<byte>>): (c: seq<bytes>)
    reads bufs
    ensures |c| == |bufs|
    ensures forall i :: 0 <= i < |bufs| ==> c[i] == bufs[i][..]
  {
    seq(|bufs|, i requires 0 <= i < |bufs| reads bufs => bufs[i][..])
  }

  ghost predicate Distinct(bufs: seq<array<byte>>)
  {
    forall i, j :: 0 <= i < j < |bufs| ==> bufs[i] != bufs[j]
  }

  /** The cipher and authenticator own buffers of their own. */
  ghost predicate Separate(state: Cipher, hash: Authenticator, bufs: seq<array<byte>>)
    reads state, hash
  {
    && state.block !in bufs && hash.h !in bufs && hash.msg !in bufs && hash.buffer !in bufs
    && hash.r !in bufs && hash.pad !in bufs
    && state.block != hash.h && state.block != hash.msg && state.block != hash.buffer
    && state.block != hash.r && state.block != hash.pad
  }

  /** Chunk i of a chunked encryption continues where the first i chunks stopped. */
  lemma {:induction false} CryptEachAt(ks: KeyStream, o: seq<bytes>, i: nat)
    requires i < |o|
    ensures CryptEach(ks, 0, o)[i] == Crypt(ks, |Join(o[..i])|, o[i])
    ensures CryptEach(ks, 0, o)[..i] == CryptEach(ks, 0, o[..i])
    ensures CryptEach(ks, 0, o[..i + 1]) == CryptEach(ks, 0, o[..i]) + [CryptEach(ks, 0, o)[i]]
  {
    var n := |o| - 1;
    if i < n {
      CryptEachAt(ks, o[..n], i);
      assert o[..n][..i] == o[..i] && o[..n][..i + 1] == o[..i + 1];
    } else {
      assert o[..i + 1] == o;
    }
  }

  lemma ChunkStep(ks: KeyStream, o: seq<bytes>, e: seq<bytes>, i: nat)
    requires i < |o| && e == CryptEach(ks, 0, o)
    ensures e[i] == Crypt(ks, |Join(o[..i])|, o[i])
    ensures Join(e[..i + 1]) == Join(e[..i]) + e[i]
    ensures |Join(o[..i + 1])| == |Join(o[..i])| + |o[i]|
  {
    CryptEachAt(ks, o, i);
    assert o[..i + 1][..i] == o[..i] && e[..i + 1][..i] == e[..i];
  }

  lemma ReplaceNext(o: seq<bytes>, e: seq<bytes>, i: nat)
    requires i < |o| == |e|
    ensures (e[..i] + o[i..])[i := e[i]] == e[..i + 1] + o[i + 1..]
  {
  }

  /** The encryption of one buffer of several leaves the others alone. */
  method EncryptAt(state: Cipher, bufs: seq<array<byte>>, i: nat)
    requires state.Valid() && i < |bufs| && Distinct(bufs) && state.block !in bufs
    modifies state`offset, state`pos, state.data, state.block, bufs[i]
    ensures state.Valid() && state.pos == old(state.pos) + bufs[i].Length
    ensures Contents(bufs) == old(Contents(bufs))[i := Crypt(Stream(state.kb), old(state.pos), old(bufs[i][..]))]
  {
    ghost var c, p, buf := Contents(bufs), state.pos, bufs[i];
    assert buf[0..buf.Length] == buf[..] == c[i] && buf in bufs;
    state.Encrypt(bufs[i], 0, bufs[i].Length);
    assert buf[..] == Crypt(Stream(state.kb), p, c[i]);
    forall k | 0 <= k < |bufs| && k != i ensures bufs[k][..] == c[k] {
      assert bufs[k] != buf && bufs[k] in bufs;
    }
  }

  /** One turn of the loop of `AEADChaCha20Poly1305Encrypt`. */
  method EncryptOne(state: Cipher, hash: Authenticator, bufs: seq<array<byte>>, i: nat)
    requires state.Valid() && hash.Valid() && Separate(state, hash, bufs) && Distinct(bufs) && i < |bufs|
    modifies state`offset, state`pos, state.data, state.block, bufs[i]
    modifies hash`leftover, hash`done, hash.h, hash.msg, hash.hr, hash.buffer
    ensures state.Valid() && hash.Valid()
    ensures state.pos == old(state.pos) + bufs[i].Length
    ensures Contents(bufs) == old(Contents(bufs))[i := Crypt(Stream(state.kb), old(state.pos), old(bufs[i][..]))]
    ensures hash.Contents() == old(hash.Contents()) + bufs[i][..]
  {
    ghost var c := hash.Contents();
    assert bufs[i] in bufs;
    EncryptAt(state, bufs, i);
    assert hash.Valid() && hash.Contents() == c;
    ghost var e := Contents(bufs);
    hash.Update(bufs[i][..]);
    assert Contents(bufs) == e by {
      assert forall k :: 0 <= k < |bufs| ==> bufs[k] in bufs;
    }
  }

  /** The first i buffers are encrypted and authenticated, the others untouched. */
  ghost predicate Progress(state: Cipher, hash: Authenticator, ks: KeyStream, bufs: seq<array<byte>>,
                           o: seq<bytes>, e: seq<bytes>, i: nat)
    reads state, state.data, state.block, hash, hash.h, hash.r, hash.pad, hash.buffer, bufs
  {
    && state.Valid() && hash.Valid() && Stream(state.kb) == ks
    && i <= |bufs| == |o| && e == CryptEach(ks, 0, o)
    && Contents(bufs) == e[..i] + o[i..]
    && state.pos == |Join(o[..i])| && hash.Contents() == Join(e[..i])
  }

  method Turn(state: Cipher, hash: Authenticator, ghost ks: KeyStream, bufs: seq<array<byte>>,
              ghost o: seq<bytes>, ghost e: seq<bytes>, i: nat)
    requires Progress(state, hash, ks, bufs, o, e, i) && i < |bufs|
    requires Separate(state, hash, bufs) && Distinct(bufs)
    modifies state`offset, state`pos, state.data, state.block, bufs[i]
    modifies hash`leftover, hash`done, hash.h, hash.msg, hash.hr, hash.buffer
    ensures Progress(state, hash, ks, bufs, o, e, i + 1) && state.pos == old(state.pos) + bufs[i].Length
  {
    ChunkStep(ks, o, e, i);
    assert bufs[i][..] == Contents(bufs)[i] == o[i];
    assert bufs[i].Length == |o[i]|;
    EncryptOne(state, hash, bufs, i);
    assert bufs[i][..] == Contents(bufs)[i] == e[i];
    ReplaceNext(o, e, i);
  }

  /** The loop of `AEADChaCha20Poly1305Encrypt` over all buffers. */
  method EncryptAll(state: Cipher, hash: Authenticator, ghost ks: KeyStream, bufs: seq<array<byte>>) returns (size: nat)
    requires state.Valid() && hash.Valid() && Separate(state, hash, bufs) && Distinct(bufs)
    requires state.pos == 0 && Stream(state.kb) == ks && hash.Contents() == []
    modifies state`offset, state`pos, state.data, state.block, bufs
    modifies hash`leftover, hash`done, hash.h, hash.msg, hash.hr, hash.buffer
    ensures state.Valid() && hash.Valid()
    ensures Contents(bufs) == CryptEach(ks, 0, old(Contents(bufs)))
    ensures hash.Contents() == Join(Contents(bufs)) && size == |Join(Contents(bufs))|
  {
    ghost var o := Contents(bufs);
    ghost var e := CryptEach(ks, 0, o);
    assert e[..0] + o[0..] == o && o[..0] == [] && e[..0] == [];
    size := EncryptEach(state, hash, ks, bufs, o, e);
    AllReplaced(o, e);
    CryptChunks(ks, 0, o);
  }

  lemma AllReplaced(o: seq<bytes>, e: seq<bytes>)
    requires |e| == |o|
    ensures e[..|o|] + o[|o|..] == e && e[..|o|] == e && o[..|o|] == o
  {
  }

  method EncryptEach(state: Cipher, hash: Authenticator, ghost ks: KeyStream, bufs: seq<array<byte>>,
                     ghost o: seq<bytes>, ghost e: seq<bytes>) returns (size: nat)
    requires Progress(state, hash, ks, bufs, o, e, 0) && Separate(state, hash, bufs) && Distinct(bufs)
    modifies state`offset, state`pos, state.data, state.block, bufs
    modifies hash`leftover, hash`done, hash.h, hash.msg, hash.hr, hash.buffer
    ensures Progress(state, hash, ks, bufs, o, e, |bufs|) && size == state.pos
  {
    size := 0;
    assert o[..0] == [];
    for i := 0 to |bufs|
      invariant Progress(state, hash, ks, bufs, o, e, i) && size == state.pos
    {
      assert bufs[i] in bufs;
      Turn(state, hash, ks, bufs, o, e, i);
      size := size + bufs[i].Length;
    }
  }

  /** `AEADChaCha20Poly1305Encrypt`: buffer by buffer, with the same ciphertext and tag as the
      single-buffer form with no associated data gives on the concatenation. */
  method AeadMulti(bufs: seq<array<byte>>, key: bytes, nonce: bytes) returns (mac: bytes)
    requires |key| == 32 && |nonce| == 12 && Distinct(bufs)
    modifies bufs
    ensures bufs == [] ==> mac == []
    ensures bufs != [] ==>
      Join(Contents(bufs)) + mac ==
      Seal(MessageStream(key, nonce), OneTimeKey(key, nonce), [], Join(old(Contents(bufs))))
    ensures forall i :: 0 <= i < |bufs| ==> |Contents(bufs)[i]| == old(|Contents(bufs)[i]|)
  {
    if bufs == [] { return []; }
    var state, pk := Setup(key, nonce);
    mac := SealAll(state, pk, MessageStream(key, nonce), bufs);
  }

  method SealAll(state: Cipher, pk: bytes, ghost ks: KeyStream, bufs: seq<array<byte>>) returns (mac: bytes)
    requires state.Valid() && state.pos == 0 && Stream(state.kb) == ks && |pk| == 64
    requires Distinct(bufs) && state.block !in bufs
    modifies state, state.data, state.block, bufs
    ensures Join(Contents(bufs)) + mac == Seal(ks, pk, [], Join(old(Contents(bufs))))
  {
    ghost var o := Contents(bufs);
    var hash := new Authenticator(pk);
    var size := EncryptAll(state, hash, ks, bufs);
    ghost var c := Join(Contents(bufs));
    CryptChunks(ks, 0, o);
    MacDataNoAd(c);
    mac := FinishBeside(hash, size, bufs);
  }

  method FinishBeside(hash: Authenticator, len: nat, ghost bufs: seq<array<byte>>) returns (tag: bytes)
    requires hash.Valid() && hash.h !in bufs && hash.msg !in bufs && hash.buffer !in bufs
    modifies hash, hash.h, hash.msg, hash.hr, hash.buffer
    ensures tag == Tag(old(hash.Contents()) + Padding(len) + LeBytes(0, 8) + LeBytes(len, 8), hash.key)
    ensures Contents(bufs) == old(Contents(bufs))
  {
    ghost var c := Contents(bufs);
    tag := FinishHash(hash, 0, len);
    forall k | 0 <= k < |bufs| ensures bufs[k][..] == c[k] {
      assert bufs[k] in bufs;
    }
  }
}
