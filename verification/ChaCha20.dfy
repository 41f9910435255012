/** The streaming ChaCha20 cipher: a state that remembers a half-used key block. The block
    function is that of section 2.3 of RFC 8439, the cipher that of section 2.4. */
module ChaCha20 {
  import opened Num
  import opened Bits

  const ROUNDS: nat := 20
  const QUARTERS: nat := 8

  type word = x: int | 0 <= x < 0x1_0000_0000

  function Add32(a: word, b: word): word
  {
    (a + b) % 0x1_0000_0000
  }

  function Xor32(a: word, b: word): (c: word)
    ensures Xor(c, b) == a
  {
    Pow2Literals();
    XorBound(a, b, 32);
    XorUndo(a, b);
    Xor(a, b)
  }

  /** Rotation left by n, where hi = 2^n and lo = 2^(32 - n). */
  function Rotl(x: word, hi: nat, lo: nat): word
    requires hi > 0 && hi * lo == 0x1_0000_0000
  {
    RotlBound(x, hi, lo);
    (x % lo) * hi + x / lo
  }

  /** `rotl32`: the shifted words share no bit, so that Or adds them. */
  lemma RotlIsShifts(x: word, n: nat, hi: nat, lo: nat)
    requires n <= 32 && hi == Pow(2, n) && lo == Pow(2, 32 - n)
    ensures hi * lo == 0x1_0000_0000 && x * hi >= 0 && x / lo >= 0
    ensures Rotl(x, hi, lo) == Or((x * hi) % 0x1_0000_0000, x / lo)
  {
    PowAdd(2, n, 32 - n);
    Pow2Literals();
    var q, r := ShiftParts(x, hi, lo);
    OrDisjoint(r, q, n, hi);
  }

  lemma ShiftParts(x: nat, hi: nat, lo: nat) returns (q: nat, r: nat)
    requires hi > 0 && lo > 0 && hi * lo == 0x1_0000_0000 && x < 0x1_0000_0000
    ensures q == x / lo && r == x % lo && q < hi && x * hi >= 0 && (x * hi) % 0x1_0000_0000 == hi * r
  {
    q, r := x / lo, x % lo;
    assert x == lo * q + r;
    if q >= hi {
      MulMono(hi, q, lo);
      assert false;
    }
    MulMono(r, lo - 1, hi);
    assert x * hi == (hi * lo) * q + hi * r;
    ModUnique(x * hi, 0x1_0000_0000, q, hi * r);
  }

  lemma RotlBound(x: word, hi: nat, lo: nat)
    requires hi > 0 && hi * lo == 0x1_0000_0000
    ensures lo > 0 && 0 <= (x % lo) * hi + x / lo < 0x1_0000_0000
  {
    var q, r := x / lo, x % lo;
    assert x == lo * q + r;
    if q >= hi {
      MulMono(hi, q, lo);
      assert false;
    }
    MulMono(r, lo - 1, hi);
    assert (lo - 1) * hi == lo * hi - hi;
  }

  datatype Four = Four(a: word, b: word, c: word, d: word)

  /** Half of a line of the quarter round: a += b; d ^= a; d <<<= n. */
  function Mix(a: word, b: word, d: word, hi: nat, lo: nat): (word, word)
    requires hi > 0 && hi * lo == 0x1_0000_0000
  {
    (Add32(a, b), Rotl(Xor32(d, Add32(a, b)), hi, lo))
  }

  /** The quarter round of section 2.1 of RFC 8439, on four words. */
  function Quarter(q: Four): Four
  {
    var (a1, d1) := Mix(q.a, q.b, q.d, 0x1_0000, 0x1_0000);
    var (c1, b1) := Mix(q.c, d1, q.b, 0x1000, 0x10_0000);
    var (a2, d2) := Mix(a1, b1, d1, 0x100, 0x100_0000);
    var (c2, b2) := Mix(c1, d2, b1, 0x80, 0x200_0000);
    Four(a2, b2, c2, d2)
  }

  /** Rotating back. */
  lemma RotlUndo(x: word, hi: nat, lo: nat)
    requires hi > 0 && lo > 0 && hi * lo == 0x1_0000_0000
    ensures Rotl(Rotl(x, hi, lo), lo, hi) == x
  {
    var q, r := x / lo, x % lo;
    assert x == lo * q + r;
    if q >= hi {
      MulMono(hi, q, lo);
      assert false;
    }
    ModUnique(r * hi + q, hi, r, q);
  }

  function Sub32(a: word, b: word): word
  {
    (a - b) % 0x1_0000_0000
  }

  function Unmix(a: word, b: word, d: word, hi: nat, lo: nat): (word, word)
    requires lo > 0 && hi * lo == 0x1_0000_0000
  {
    (Sub32(a, b), Xor32(Rotl(d, lo, hi), a))
  }

  lemma MixUndo(a: word, b: word, d: word, hi: nat, lo: nat)
    requires hi > 0 && lo > 0 && hi * lo == 0x1_0000_0000
    ensures var m := Mix(a, b, d, hi, lo); Unmix(m.0, b, m.1, hi, lo) == (a, d)
  {
    var s := Add32(a, b);
    AddUndo(a, b);
    XorRotlUndo(d, s, hi, lo);
  }

  lemma AddUndo(a: word, b: word)
    ensures Sub32(Add32(a, b), b) == a
  {
  }

  lemma XorRotlUndo(d: word, s: word, hi: nat, lo: nat)
    requires hi > 0 && lo > 0 && hi * lo == 0x1_0000_0000
    ensures Xor32(Rotl(Rotl(Xor32(d, s), hi, lo), lo, hi), s) == d
  {
    RotlUndo(Xor32(d, s), hi, lo);
  }

  /** The quarter round backwards. */
  function Unquarter(q: Four): Four
  {
    var (c1, b1) := Unmix(q.c, q.d, q.b, 0x80, 0x200_0000);
    var (a1, d1) := Unmix(q.a, b1, q.d, 0x100, 0x100_0000);
    var (c, b) := Unmix(c1, d1, b1, 0x1000, 0x10_0000);
    var (a, d) := Unmix(a1, b, d1, 0x1_0000, 0x1_0000);
    Four(a, b, c, d)
  }

  /** The quarter round loses nothing. */
  lemma QuarterUndo(q: Four)
    ensures Unquarter(Quarter(q)) == q
  {
    var (a1, d1) := Mix(q.a, q.b, q.d, 0x1_0000, 0x1_0000);
    var (c1, b1) := Mix(q.c, d1, q.b, 0x1000, 0x10_0000);
    var (a2, d2) := Mix(a1, b1, d1, 0x100, 0x100_0000);
    MixUndo(q.a, q.b, q.d, 0x1_0000, 0x1_0000);
    MixUndo(q.c, d1, q.b, 0x1000, 0x10_0000);
    MixUndo(a1, b1, d1, 0x100, 0x100_0000);
    MixUndo(c1, d2, b1, 0x80, 0x200_0000);
  }

  function QuarterAt(x: seq<word>, a: nat, b: nat, c: nat, d: nat): (y: seq<word>)
    requires |x| == 16 && a < 16 && b < 16 && c < 16 && d < 16
    ensures |y| == 16
  {
    var q := Quarter(Four(x[a], x[b], x[c], x[d]));
    x[a := q.a][b := q.b][c := q.c][d := q.d]
  }

  /** `quarterround` */
  method QuarterRound(x: array<word>, a: nat, b: nat, c: nat, d: nat)
    requires x.Length == 16 && a < 16 && b < 16 && c < 16 && d < 16
    requires a != b && a != c && a != d && b != c && b != d && c != d
    modifies x
    ensures x[..] == QuarterAt(old(x[..]), a, b, c, d)
  {
    x[a] := Add32(x[a], x[b]); x[d] := Rotl(Xor32(x[d], x[a]), 0x1_0000, 0x1_0000);
    x[c] := Add32(x[c], x[d]); x[b] := Rotl(Xor32(x[b], x[c]), 0x1000, 0x10_0000);
    x[a] := Add32(x[a], x[b]); x[d] := Rotl(Xor32(x[d], x[a]), 0x100, 0x100_0000);
    x[c] := Add32(x[c], x[d]); x[b] := Rotl(Xor32(x[b], x[c]), 0x80, 0x200_0000);
  }

  datatype Index = Index(a: nat, b: nat, c: nat, d: nat)

  /** The eight quarter rounds of a double round: four columns, then four diagonals. */
  function Schedule(k: nat): (q: Index)
    requires k < QUARTERS
    ensures q.a < 4 <= q.b < 8 <= q.c < 12 <= q.d < 16
  {
    match k
    case 0 => Index(0, 4, 8, 12)
    case 1 => Index(1, 5, 9, 13)
    case 2 => Index(2, 6, 10, 14)
    case 3 => Index(3, 7, 11, 15)
    case 4 => Index(0, 5, 10, 15)
    case 5 => Index(1, 6, 11, 12)
    case 6 => Index(2, 7, 8, 13)
    case _ => Index(3, 4, 9, 14)
  }

  /** The first k quarter rounds of a double round. */
  function Sweep(x: seq<word>, k: nat): (y: seq<word>)
    requires |x| == 16 && k <= QUARTERS
    ensures |y| == 16
  {
    if k == 0 then x
    else var q := Schedule(k - 1); QuarterAt(Sweep(x, k - 1), q.a, q.b, q.c, q.d)
  }

  function Rounds(x: seq<word>, n: nat): (y: seq<word>)
    requires |x| == 16
    ensures |y| == 16
  {
    if n == 0 then x else Sweep(Rounds(x, n - 1), QUARTERS)
  }

  /** Little-endian serialisation of words. */
  function Serial(x: seq<word>): (s: bytes)
    ensures |s| == 4 * |x|
  {
    if x == [] then [] else Serial(x[..|x| - 1]) + LeBytes(x[|x| - 1], 4)
  }

  function SumWords(x: seq<word>, y: seq<word>): (z: seq<word>)
    requires |x| == 16 && |y| == 16
    ensures |z| == 16
  {
    seq(16, i requires 0 <= i < 16 => Add32(x[i], y[i]))
  }

  /** The ChaCha20 block function: twenty rounds, then the input words are added back. */
  function BlockBytes(x: seq<word>): (s: bytes)
    requires |x| == 16
    ensures |s| == 64
  {
    Serial(SumWords(Rounds(x, ROUNDS / 2), x))
  }

  /** The round loop of `block`. */
  method RunRounds(x: array<word>)
    requires x.Length == 16
    modifies x
    ensures x[..] == Rounds(old(x[..]), ROUNDS / 2)
  {
    ghost var d := x[..];
    for i := 0 to ROUNDS / 2
      invariant x[..] == Rounds(d, i)
    {
      ghost var y := x[..];
      assert x[..] == Sweep(y, 0);
      QuarterRound(x, 0, 4, 8, 12);
      assert x[..] == Sweep(y, 1);
      QuarterRound(x, 1, 5, 9, 13);
      assert x[..] == Sweep(y, 2);
      QuarterRound(x, 2, 6, 10, 14);
      assert x[..] == Sweep(y, 3);
      QuarterRound(x, 3, 7, 11, 15);
      assert x[..] == Sweep(y, 4);
      QuarterRound(x, 0, 5, 10, 15);
      assert x[..] == Sweep(y, 5);
      QuarterRound(x, 1, 6, 11, 12);
      assert x[..] == Sweep(y, 6);
      QuarterRound(x, 2, 7, 8, 13);
      assert x[..] == Sweep(y, 7);
      QuarterRound(x, 3, 4, 9, 14);
      assert x[..] == Sweep(y, 8);
    }
  }

  /** `Chacha20State::operator +=` */
  method AddWords(x: array<word>, y: array<word>)
    requires x.Length == 16 && y.Length == 16 && x != y
    modifies x
    ensures x[..] == SumWords(old(x[..]), y[..])
  {
    ghost var z := x[..];
    for i := 0 to 16
      invariant forall k :: 0 <= k < 16 ==> x[k] == if k < i then Add32(z[k], y[k]) else z[k]
    {
      x[i] := Add32(x[i], y[i]);
    }
  }

  /** The initial state of section 2.3 of RFC 8439. */
  function InitWords(key: bytes, nonce: bytes, counter: word): (x: seq<word>)
    requires |key| == 32 && |nonce| == 12
    ensures |x| == 16
  {
    [0x61707865, 0x3320646e, 0x79622d32, 0x6b206574] + LoadWords(key, 8) + [counter] + LoadWords(nonce, 3)
  }

  function LoadWords(s: bytes, n: nat): (x: seq<word>)
    requires |s| == 4 * n
    ensures |x| == n
  {
    seq(n, i requires 0 <= i < n => LoadWord(s[4 * i..4 * i + 4]))
  }

  /** `u8t32le` */
  function LoadWord(p: bytes): (w: word)
    requires |p| == 4
    ensures w == Le(p)
  {
    assert p == [p[0], p[1], p[2], p[3]] + [];
    LeWord(p[0], p[1], p[2], p[3], []);
    var b0, b1, b2, b3: int := p[0], p[1], p[2], p[3];
    ((b3 * 256 + b2) * 256 + b1) * 256 + b0
  }

  /** A byte shifted in below v. */
  function ShiftIn(v: nat, b: nat): nat
  {
    Or(256 * v, b)
  }

  lemma LoadWordIsShifts(p: bytes)
    requires |p| == 4
    ensures LoadWord(p) == ShiftIn(ShiftIn(ShiftIn(p[3], p[2]), p[1]), p[0])
  {
    var b0: nat, b1: nat, b2: nat, b3: nat := p[0], p[1], p[2], p[3];
    Pow2Literals();
    OrDisjoint(b3, b2, 8, 256);
    OrDisjoint(256 * b3 + b2, b1, 8, 256);
    OrDisjoint(256 * (256 * b3 + b2) + b1, b0, 8, 256);
  }

  //
  // The key stream
  //

  type KeyStream = nat -> byte

  /** The block counter i blocks on. */
  function Counter(start: seq<word>, i: nat): word
    requires |start| == 16
  {
    var c: int := start[12];
    (c + i) % 0x1_0000_0000
  }

  /** The state words with the counter advanced by i blocks. */
  function CounterAt(start: seq<word>, i: nat): (x: seq<word>)
    requires |start| == 16
    ensures |x| == 16
  {
    start[12 := Counter(start, i)]
  }

  type block64 = s: bytes | |s| == 64 witness Zeros(64)

  /** The key blocks of a state: the block function at every value of the wrapping counter. */
  ghost predicate IsKeyBlocks(kb: nat -> block64, start: seq<word>)
    requires |start| == 16
  {
    forall i: nat {:trigger CounterAt(start, i)} :: kb(i) == BlockBytes(CounterAt(start, i))
  }

  function KeyBlocks(start: seq<word>): (kb: nat -> block64)
    requires |start| == 16
    ensures IsKeyBlocks(kb, start)
  {
    (i: nat) => BlockBytes(CounterAt(start, i))
  }

  /** Byte n of the stream is byte n % 64 of block n / 64. */
  function Stream(kb: nat -> block64): KeyStream
  {
    (n: nat) => kb(n / 64)[n % 64]
  }

  /** Encryption, and equally decryption, of m from position pos of a key stream. */
  function Crypt(ks: KeyStream, pos: nat, m: bytes): (c: bytes)
    ensures |c| == |m|
    ensures forall i :: 0 <= i < |m| ==> c[i] == XorByte(m[i], ks(pos + i))
  {
    seq(|m|, i requires 0 <= i < |m| => XorByte(m[i], ks(pos + i)))
  }

  /** v is o with the bytes lo..hi encrypted from position p, and nothing else changed. */
  ghost predicate Crypted(ks: KeyStream, p: nat, o: bytes, v: bytes, lo: nat, hi: nat)
  {
    && |v| == |o|
    && forall k :: 0 <= k < |o| ==> v[k] == if lo <= k < hi then XorByte(o[k], ks(p + (k - lo))) else o[k]
  }

  lemma CryptedIsCrypt(ks: KeyStream, p: nat, o: bytes, v: bytes, lo: nat, hi: nat)
    requires lo <= hi <= |o| && Crypted(ks, p, o, v, lo, hi)
    ensures v == o[..lo] + Crypt(ks, p, o[lo..hi]) + o[hi..]
  {
    var w := o[..lo] + Crypt(ks, p, o[lo..hi]) + o[hi..];
    forall k | 0 <= k < |o| ensures v[k] == w[k] {
      if lo <= k < hi { assert w[k] == Crypt(ks, p, o[lo..hi])[k - lo]; }
    }
  }

  lemma CryptedExtend(ks: KeyStream, p: nat, o: bytes, w: bytes, v: bytes, lo: nat, i: nat, j: nat)
    requires lo <= i <= j <= |o|
    requires Crypted(ks, p, o, w, lo, i) && Crypted(ks, p + (i - lo), w, v, i, j)
    ensures Crypted(ks, p, o, v, lo, j)
  {
    forall k | 0 <= k < |o| ensures v[k] == if lo <= k < j then XorByte(o[k], ks(p + (k - lo))) else o[k] {
      assert w[k] == if lo <= k < i then XorByte(o[k], ks(p + (k - lo))) else o[k];
      if i <= k < j { assert p + (i - lo) + (k - i) == p + (k - lo); }
    }
  }

  /** Within one block the stream is that block. */
  lemma CryptedBlock(kb: nat -> block64, p: nat, b: block64, o: bytes, v: bytes, at: nat, n: nat)
    requires p % 64 + n <= 64 && b == kb(p / 64) && |v| == |o|
    requires forall k :: 0 <= k < |o| ==> v[k] == if at <= k < at + n then XorByte(o[k], b[p % 64 + (k - at)]) else o[k]
    ensures Crypted(Stream(kb), p, o, v, at, at + n)
  {
    var ks := Stream(kb);
    forall k | at <= k < at + n && k < |o|
      ensures XorByte(o[k], ks(p + (k - at))) == XorByte(o[k], b[p % 64 + (k - at)])
    {
      SameBlock(p, k - at);
    }
  }

  lemma BlockEnd(pos: nat, n: nat)
    requires 0 < pos % 64 && pos % 64 + n <= 64
    ensures (pos + n + 63) / 64 == (pos + 63) / 64
    ensures pos % 64 + n < 64 ==> (pos + n) / 64 == pos / 64 && (pos + n) % 64 == pos % 64 + n
    ensures pos % 64 + n == 64 ==> (pos + n) % 64 == 0
  {
  }

  lemma FreshEnd(pos: nat, n: nat)
    requires pos % 64 == 0 && 0 < n <= 64
    ensures (pos + 63) / 64 == pos / 64 && (pos + n + 63) / 64 == pos / 64 + 1
    ensures n < 64 ==> (pos + n) / 64 == pos / 64 && (pos + n) % 64 == n
    ensures n == 64 ==> (pos + n) % 64 == 0
  {
  }

  lemma KeyState(d: seq<word>, start: seq<word>, i: nat)
    requires |d| == 16 && |start| == 16
    requires forall k :: 0 <= k < 16 && k != 12 ==> d[k] == start[k]
    requires d[12] == Counter(start, i)
    ensures d == CounterAt(start, i)
    ensures Add32(d[12], 1) == Counter(start, i + 1)
  {
  }

  lemma SameBlock(pos: nat, i: nat)
    requires pos % 64 + i < 64
    ensures (pos + i) / 64 == pos / 64 && (pos + i) % 64 == pos % 64 + i
  {
  }

  /** Splitting a message anywhere changes nothing. */
  lemma CryptConcat(ks: KeyStream, pos: nat, a: bytes, b: bytes)
    ensures Crypt(ks, pos, a + b) == Crypt(ks, pos, a) + Crypt(ks, pos + |a|, b)
  {
    var c, d, e := Crypt(ks, pos, a + b), Crypt(ks, pos, a), Crypt(ks, pos + |a|, b);
    forall i | 0 <= i < |a + b| ensures c[i] == (d + e)[i] {
      if i >= |a| {
        assert (d + e)[i] == e[i - |a|] == XorByte(b[i - |a|], ks(pos + |a| + (i - |a|)));
      }
    }
  }

  /** Chunk after chunk, each from where the previous one stopped. */
  function CryptEach(ks: KeyStream, pos: nat, chunks: seq<bytes>): (r: seq<bytes>)
    ensures |r| == |chunks|
  {
    if chunks == [] then []
    else
      var n := |chunks| - 1;
      CryptEach(ks, pos, chunks[..n]) + [Crypt(ks, pos + |Join(chunks[..n])|, chunks[n])]
  }

  lemma {:induction false} CryptChunks(ks: KeyStream, pos: nat, chunks: seq<bytes>)
    ensures Join(CryptEach(ks, pos, chunks)) == Crypt(ks, pos, Join(chunks))
  {
    if chunks == [] {
      assert Crypt(ks, pos, []) == [];
    } else {
      var n := |chunks| - 1;
      CryptChunks(ks, pos, chunks[..n]);
      CryptLast(ks, pos, chunks, n);
      CryptConcat(ks, pos, Join(chunks[..n]), chunks[n]);
    }
  }

  lemma CryptLast(ks: KeyStream, pos: nat, chunks: seq<bytes>, n: nat)
    requires |chunks| == n + 1
    ensures Join(chunks) == Join(chunks[..n]) + chunks[n]
    ensures Join(CryptEach(ks, pos, chunks))
      == Join(CryptEach(ks, pos, chunks[..n])) + Crypt(ks, pos + |Join(chunks[..n])|, chunks[n])
  {
    JoinPush(CryptEach(ks, pos, chunks[..n]), Crypt(ks, pos + |Join(chunks[..n])|, chunks[n]));
  }

  lemma JoinPush(cs: seq<bytes>, c: bytes)
    ensures Join(cs + [c]) == Join(cs) + c
  {
    assert (cs + [c])[..|cs|] == cs;
  }

  /** A second pass from the same position restores the message. */
  lemma CryptTwice(ks: KeyStream, pos: nat, m: bytes)
    ensures Crypt(ks, pos, Crypt(ks, pos, m)) == m
  {
    var c := Crypt(ks, pos, m);
    var d := Crypt(ks, pos, c);
    forall i | 0 <= i < |m| ensures d[i] == m[i] {
      XorUndo(m[i], ks(pos + i));
    }
  }

  //
  // The streaming object
  //

  class Cipher {
    const data: array<word>
    const block: array<byte>
    var offset: nat
    ghost var start: seq<word>
    ghost var kb: nat -> block64
    ghost var pos: nat

    /** The words are those of the start, n blocks on. */
    ghost predicate At(n: nat)
      reads this, data
    {
      && data.Length == 16 && block.Length == 64 && |start| == 16
      && IsKeyBlocks(kb, start)
      && (forall i :: 0 <= i < 16 && i != 12 ==> data[i] == start[i])
      && data[12] == Counter(start, n)
    }

    /** The state after consuming pos bytes of the stream that began at start: the counter
        counts started blocks, and the last of them is kept while bytes of it remain. */
    ghost predicate Valid()
      reads this, data, block
    {
      && At((pos + 63) / 64)
      && offset == pos % 64
      && (offset > 0 ==> block[..] == kb(pos / 64))
    }

    /** `Chacha20Init` */
    constructor (key: bytes, nonce: bytes, counter: word)
      requires |key| == 32 && |nonce| == 12
      ensures Valid() && start == InitWords(key, nonce, counter) && kb == KeyBlocks(start) && pos == 0
      ensures fresh(data) && fresh(block)
    {
      var words := InitWords(key, nonce, counter);
      data := new word[16](i requires 0 <= i < 16 => words[i]);
      block := new byte[64](_ => 0);
      offset := 0;
      start, kb, pos := words, KeyBlocks(words), 0;
    }

    /** `Chacha20SetCounter` */
    method SetCounter(counter: word)
      requires Valid()
      modifies this`offset, this`start, this`kb, this`pos, data
      ensures Valid() && start == old(start)[12 := counter] && kb == KeyBlocks(start) && pos == 0
    {
      data[12] := counter;
      offset := 0;
      start, pos := start[12 := counter], 0;
      kb := KeyBlocks(start);
    }

    /** Xor of n bytes of buf at `at` with the key block from byte `from`. */
    method XorBlock(buf: array<byte>, at: nat, from: nat, n: nat)
      requires block.Length == 64 && buf != block
      requires at + n <= buf.Length && from + n <= 64
      modifies buf
      ensures forall k :: 0 <= k < buf.Length ==>
        buf[k] == if at <= k < at + n then XorByte(old(buf[k]), block[from + (k - at)]) else old(buf[k])
    {
      for i := 0 to n
        invariant forall k :: at <= k < at + i ==> buf[k] == XorByte(old(buf[k]), block[from + (k - at)])
        invariant forall k :: 0 <= k < at || at + i <= k < buf.Length ==> buf[k] == old(buf[k])
      {
        buf[at + i] := XorByte(buf[at + i], block[from + i]);
      }
    }

    /** Consuming n bytes of the current key block. */
    method Consume(buf: array<byte>, at: nat, n: nat)
      requires Valid() && buf != block && at + n <= buf.Length
      requires offset > 0 && offset + n <= 64
      modifies this`offset, this`pos, buf
      ensures Valid() && pos == old(pos) + n
      ensures Crypted(Stream(kb), old(pos), old(buf[..]), buf[..], at, at + n)
    {
      ghost var b, o := block[..], buf[..];
      XorBlock(buf, at, offset, n);
      assert block[..] == b;
      CryptedBlock(kb, pos, b, o, buf[..], at, n);
      Advance(n);
    }

    /** The offset after n bytes of the current key block. */
    method Advance(n: nat)
      requires Valid() && offset > 0 && offset + n <= 64
      modifies this`offset, this`pos
      ensures Valid() && pos == old(pos) + n
    {
      BlockEnd(pos, n);
      offset := offset + n;
      if offset >= 64 { offset := 0; }
      pos := pos + n;
    }

    /** The next key block, with the counter left one further. */
    method Refill(ghost n: nat)
      requires At(n)
      modifies data, block
      ensures At(n + 1) && block[..] == kb(n)
    {
      KeyState(data[..], start, n);
      ghost var d := data[..];
      assert d == CounterAt(start, n);
      NextBlock();
      assert data[12] == data[..][12];
      assert forall i :: 0 <= i < 16 && i != 12 ==> data[i] == data[..][i] == d[i];
    }

    /** One turn of the block loop of `Chacha20Encrypt`: a new key block, of which n bytes are
        used; a block not used up is remembered by its offset. */
    method FreshBlock(buf: array<byte>, at: nat, n: nat)
      requires Valid() && buf != block && at + n <= buf.Length
      requires offset == 0 && 0 < n <= 64
      modifies this`offset, this`pos, data, block, buf
      ensures Valid() && pos == old(pos) + n && (n == 64 ==> offset == 0)
      ensures Crypted(Stream(kb), old(pos), old(buf[..]), buf[..], at, at + n)
    {
      ghost var o := buf[..];
      FreshEnd(pos, n);
      Refill(pos / 64);
      assert buf[..] == o;
      ghost var d, b := data[..], block[..];
      XorBlock(buf, at, 0, n);
      assert data[..] == d && block[..] == b;
      CryptedBlock(kb, pos, b, o, buf[..], at, n);
      if n < 64 { offset := n; }
      pos := pos + n;
    }

    /** The block loop of `Chacha20Encrypt` */
    method EncryptBlocks(buf: array<byte>, lo: nat, hi: nat)
      requires Valid() && buf != block && lo <= hi <= buf.Length
      requires offset == 0 || lo == hi
      modifies this`offset, this`pos, data, block, buf
      ensures Valid() && pos == old(pos) + (hi - lo)
      ensures Crypted(Stream(kb), old(pos), old(buf[..]), buf[..], lo, hi)
    {
      ghost var o, p, ks := buf[..], pos, Stream(kb);
      var i := lo;
      while i < hi
        invariant lo <= i <= hi && Valid() && pos == p + (i - lo)
        invariant i < hi ==> offset == 0
        invariant Crypted(ks, p, o, buf[..], lo, i)
      {
        var n := if hi - i < 64 then hi - i else 64;
        ghost var w := buf[..];
        FreshBlock(buf, i, n);
        CryptedExtend(ks, p, o, w, buf[..], lo, i, i + n);
        i := i + n;
      }
    }

    /** What is left of the current key block is used first. */
    method UseLeftover(buf: array<byte>, lo: nat, hi: nat) returns (i: nat)
      requires Valid() && buf != block && lo <= hi <= buf.Length
      modifies this`offset, this`pos, buf
      ensures Valid() && lo <= i <= hi && pos == old(pos) + (i - lo) && (i < hi ==> offset == 0)
      ensures Crypted(Stream(kb), old(pos), old(buf[..]), buf[..], lo, i)
    {
      i := lo;
      if offset > 0 {
        var s := 64 - offset;
        if hi - lo < s { s := hi - lo; }
        Consume(buf, lo, s);
        i := lo + s;
      }
    }

    /** `Chacha20Encrypt` of buf[lo..hi] */
    method Encrypt(buf: array<byte>, lo: nat, hi: nat)
      requires Valid() && buf != block && lo <= hi <= buf.Length
      modifies this`offset, this`pos, data, block, buf
      ensures Valid() && pos == old(pos) + (hi - lo)
      ensures buf[..] == old(buf[..lo]) + Crypt(Stream(kb), old(pos), old(buf[lo..hi])) + old(buf[hi..])
    {
      ghost var o, p := buf[..], pos;
      var i := UseLeftover(buf, lo, hi);
      ghost var w := buf[..];
      EncryptBlocks(buf, i, hi);
      CryptedExtend(Stream(kb), p, o, w, buf[..], lo, i, hi);
      CryptedIsCrypt(Stream(kb), p, o, buf[..], lo, hi);
    }

    /** `block` followed by the increment of the counter. */
    method NextBlock()
      requires data.Length == 16 && block.Length == 64
      modifies data, block
      ensures block[..] == BlockBytes(old(data[..]))
      ensures data[..] == old(data[..])[12 := Add32(old(data[12]), 1)]
    {
      ghost var d := data[..];
      var x := new word[16](i requires 0 <= i < data.Length reads data => data[i]);
      assert x[..] == d;
      RunRounds(x);
      AddWords(x, data);
      WriteWords(x);
      assert data[..] == d;
      data[12] := Add32(data[12], 1);
    }

    /** `Chacha20Block::operator <<` */
    method WriteWords(x: array<word>)
      requires block.Length == 64 && x.Length == 16
      modifies block
      ensures block[..] == Serial(x[..])
    {
      ghost var z := x[..];
      for i := 0 to 16
        invariant block[..4 * i] == Serial(z[..i]) && x[..] == z
      {
        ghost var b := block[..4 * i];
        StoreWord(x[i], 4 * i);
        assert z[..i + 1][..i] == z[..i];
        assert block[..4 * (i + 1)] == b + block[4 * i..4 * i + 4];
      }
      assert z[..16] == z && block[..64] == block[..];
    }

    /** `u32t8le` */
    method StoreWord(v: word, at: nat)
      requires block.Length == 64 && at + 4 <= 64
      modifies block
      ensures block[..at] == old(block[..at])
      ensures block[at..at + 4] == LeBytes(v, 4)
    {
      block[at] := v % 256;
      block[at + 1] := (v / 0x100) % 256;
      block[at + 2] := (v / 0x1_0000) % 256;
      block[at + 3] := (v / 0x100_0000) % 256;
      FourBytes(v);
    }
  }

  /** The bytes are cut off by masks. */
  lemma StoreWordIsMasks(v: word)
    ensures LeBytes(v, 4) == [And(v, 0xFF), And(v / 0x100, 0xFF), And(v / 0x1_0000, 0xFF), And(v / 0x100_0000, 0xFF)]
  {
    FourBytes(v);
    LowMasks(v);
    LowMasks(v / 0x100);
    LowMasks(v / 0x1_0000);
    LowMasks(v / 0x100_0000);
  }

  lemma FourBytes(v: word)
    ensures LeBytes(v, 4) == [v % 256, (v / 0x100) % 256, (v / 0x1_0000) % 256, (v / 0x100_0000) % 256]
  {
    var a, b, c: nat := v / 256, v / 0x1_0000, v / 0x100_0000;
    assert LeBytes(v, 4) == [v % 256] + LeBytes(a, 3);
    assert LeBytes(a, 3) == [a % 256] + LeBytes(b, 2);
    assert LeBytes(b, 2) == [b % 256] + LeBytes(c, 1);
    assert LeBytes(c, 1) == [c % 256] + LeBytes(c / 256, 0);
  }
}
