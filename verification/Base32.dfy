/** Base32 (lib/libi2pd/Base.cpp): both directions regroup one bit string, read through a
    32-bit accumulator that keeps overflowing. */
module Base32 {
  import opened Num
  import opened Bits
  import opened BigEndian
  import opened BitStrings

  //
  // The alphabet
  //

  function Letter(d: nat): (c: byte)
    requires d < 32
    ensures Known(c)
  {
    if d < 26 then 97 + d else 50 + (d - 26)
  }

  /** `a` to `z` and `2` to `7`. */
  predicate Known(c: byte)
  {
    50 <= c <= 55 || 97 <= c <= 122
  }

  function Index(c: byte): (d: nat)
    requires Known(c)
    ensures d < 32 && Letter(d) == c
  {
    if c <= 55 then c - 50 + 26 else c - 97
  }

  lemma IndexOfLetter(d: nat)
    requires d < 32
    ensures Index(Letter(d)) == d
  {
  }

  function Letters(ds: seq<nat>): (s: bytes)
    requires forall i :: 0 <= i < |ds| ==> ds[i] < 32
    ensures |s| == |ds|
    ensures forall i :: 0 <= i < |ds| ==> s[i] == Letter(ds[i])
  {
    seq(|ds|, i requires 0 <= i < |ds| => Letter(ds[i]))
  }

  predicate AllKnown(s: bytes)
  {
    forall i :: 0 <= i < |s| ==> Known(s[i])
  }

  function Indices(s: bytes): (ds: seq<nat>)
    requires AllKnown(s)
    ensures |ds| == |s| && forall i :: 0 <= i < |s| ==> ds[i] == Index(s[i])
  {
    seq(|s|, i requires 0 <= i < |s| => Index(s[i]))
  }

  //
  // The accumulator
  //

  const WRAP: nat := 0x1_0000_0000

  /** What a 32-bit signed integer keeps of x. */
  function Wrap(x: int): int
  {
    (x + 0x8000_0000) % 0x1_0000_0000 - 0x8000_0000
  }

  lemma WrapOf(x: int) returns (k: int)
    ensures Wrap(x) == x + WRAP * k
  {
    k := -((x + 0x8000_0000) / 0x1_0000_0000);
  }

  lemma WrapShift(x: int, k: int)
    ensures Wrap(x + WRAP * k) == Wrap(x)
  {
    ModShift(x + 0x8000_0000, WRAP, k);
  }

  function ShiftLeft(tmp: int, p: nat): int
  {
    Wrap(tmp * p)
  }

  function OrInto(tmp: int, x: nat): int
  {
    Wrap(Or(tmp % 0x1_0000_0000, x))
  }

  /** Shifting the wrapped value left is wrapping the shifted value. */
  lemma ShiftLeftWraps(x: nat, p: nat)
    ensures ShiftLeft(Wrap(x), p) == Wrap(x * p)
  {
    var k := WrapOf(x);
    assert (x + WRAP * k) * p == x * p + WRAP * (k * p) by {
      MulDistRight(x, WRAP * k, p);
      MulAssoc(WRAP, k, p);
    }
    WrapShift(x * p, k * p);
  }

  /** Or into bits that are free adds, whatever was lost above. */
  lemma OrWraps(x: nat, d: nat, n: nat, p: nat)
    requires p == Pow(2, n) && n <= 32 && d < p
    ensures x * p >= 0 && OrInto(Wrap(x * p), d) == Wrap(x * p + d)
  {
    var q := Pow(2, 32 - n);
    PowAdd(2, n, 32 - n);
    Pow2Literals();
    var a, j := LowMultiple(x, p, q);
    OrIntoLow(Wrap(x * p), a, d, n, p);
    WrapShift(x * p + d, j);
  }

  lemma OrIntoLow(tmp: int, a: nat, d: nat, n: nat, p: nat)
    requires p == Pow(2, n) && d < p && tmp % WRAP == p * a
    ensures OrInto(tmp, d) == Wrap(p * a + d)
  {
    OrDisjoint(a, d, n, p);
  }

  /** The low 32 bits of a multiple of p are a multiple of p. */
  lemma LowMultiple(x: nat, p: nat, q: nat) returns (a: nat, j: int)
    requires p * q == WRAP && p > 0
    ensures x * p >= 0 && Wrap(x * p) % WRAP == p * a == x * p + WRAP * j
  {
    var k := WrapOf(x * p);
    ModShift(x * p, WRAP, k);
    j := -(x * p / WRAP);
    MulAssoc(p, q, j);
    MulDist(p, x, q * j);
    assert (x * p) % WRAP == p * (x + q * j);
    MulSign(p, x + q * j);
    a := x + q * j;
  }

  lemma LoadByte(x: nat, b: byte)
    ensures OrInto(ShiftLeft(Wrap(x), 256), b) == Wrap(x * 256 + b)
  {
    ShiftLeftWraps(x, 256);
    Pow2Literals();
    OrWraps(x, b, 8, 256);
  }

  /** The bits above the lowest n are read as if nothing had been lost. */
  lemma ReadWraps(x: nat, n: nat, p: nat, w: nat, m: nat)
    requires p == Pow(2, n) && m == Pow(2, w) && n + w <= 32
    ensures (Wrap(x) / p) % m == (x / p) % m
  {
    var e := Pow(2, 32 - n - w);
    PowAdd(2, n, w);
    PowAdd(2, n + w, 32 - n - w);
    Pow2Literals();
    var k := WrapOf(x);
    MulAssoc(p, m, e);
    MulAssoc(p, m * e, k);
    MulAssoc(m, e, k);
    DivShift(x, p, m * (e * k));
    ModShift(x / p, m, e * k);
  }

  //
  // Encoding
  //

  function Size(n: nat): nat
  {
    (8 * n + 4) / 5
  }

  /** The first r letters. */
  function Encoded(s: bytes, r: nat): (t: bytes)
    ensures |t| == r
  {
    Letters(Digits(Lead(Be(s), 8 * |s|, 5 * r), 32, r))
  }

  /** How the loop's variables stand: `bits` bits of the accumulator are still to be emitted. */
  ghost predicate Loaded(s: bytes, ret: nat, pos: nat, bits: nat, tmp: int)
  {
    && pos <= |s| && bits <= 12
    && (5 * ret + bits == 8 * pos || (pos == |s| && (bits == 0 || bits == 5) && 8 * |s| < 5 * ret + bits < 8 * |s| + 5))
    && tmp == Wrap(Lead(Be(s), 8 * |s|, 5 * ret + bits))
  }

  method Load(s: bytes, ghost ret: nat, pos: nat, bits: nat, tmp: int) returns (pos': nat, bits': nat, tmp': int)
    requires Loaded(s, ret, pos, bits, tmp) && (bits > 0 || pos < |s|) && bits <= 8
    ensures Loaded(s, ret, pos', bits', tmp') && 5 <= bits'
  {
    pos', bits', tmp' := pos, bits, tmp;
    if bits < 5 {
      if pos < |s| {
        LeadByte(s, pos);
        LoadByte(Lead(Be(s), 8 * |s|, 8 * pos), s[pos]);
        tmp' := OrInto(ShiftLeft(tmp, 256), s[pos]);
        pos' := pos + 1;
        bits' := bits + 8;
      } else {
        var p := Pow(2, 5 - bits);
        LeadBeyond(Be(s), 8 * |s|, 5 * ret + bits, 5 - bits);
        ShiftLeftWraps(Lead(Be(s), 8 * |s|, 5 * ret + bits), p);
        tmp' := ShiftLeft(tmp, p);
        bits' := 5;
      }
    }
  }

  method Emit(s: bytes, ghost ret: nat, ghost pos: nat, bits: nat, tmp: int, ghost ds: seq<nat>) returns (d: nat)
    requires Loaded(s, ret, pos, bits + 5, tmp) && bits <= 7
    requires |ds| == ret && Value(ds, 32) == Lead(Be(s), 8 * |s|, 5 * ret)
    ensures d < 32 && Value(ds + [d], 32) == Lead(Be(s), 8 * |s|, 5 * (ret + 1))
    ensures Loaded(s, ret + 1, pos, bits, tmp)
  {
    ghost var v, m := Be(s), 8 * |s|;
    var p := Pow(2, bits);
    var q := tmp / p;
    d := And(q % 0x1_0000_0000, 31);
    ThirtyTwo();
    AndOnes(q % WRAP, 5, 32);
    ModOfMod(q, 32, 0x800_0000);
    ReadWraps(Lead(v, m, 5 * ret + (bits + 5)), bits, p, 5, 32);
    LeadStep(v, m, 5 * (ret + 1), bits);
    LeadStep(v, m, 5 * ret, 5);
    ValuePush(ds, d, 32);
  }

  lemma ThirtyTwo()
    ensures Pow(2, 5) == 32 && Pow(2, 3) == 8
  {
  }

  /** How the loop's variables stand, with the letters of ds written. */
  ghost predicate Writing(s: bytes, ds: seq<nat>, pos: nat, bits: nat, tmp: int)
  {
    && Loaded(s, |ds|, pos, bits, tmp) && bits <= 8
    && (forall i :: 0 <= i < |ds| ==> ds[i] < 32)
    && Value(ds, 32) == Lead(Be(s), 8 * |s|, 5 * |ds|)
  }

  method Next(s: bytes, ghost ds: seq<nat>, pos: nat, bits: nat, tmp: int)
    returns (pos': nat, bits': nat, tmp': int, d: nat)
    requires Writing(s, ds, pos, bits, tmp) && (bits > 0 || pos < |s|)
    ensures d < 32 && Writing(s, ds + [d], pos', bits', tmp')
  {
    pos', bits', tmp' := Load(s, |ds|, pos, bits, tmp);
    bits' := bits' - 5;
    d := Emit(s, |ds|, pos', bits', tmp', ds);
  }

  lemma StartWriting(s: bytes)
    requires |s| > 0
    ensures Writing(s, [], 1, 8, s[0])
  {
    LeadByte(s, 0);
    LeadNone(s);
  }

  lemma FinishWriting(s: bytes, ds: seq<nat>, pos: nat, bits: nat, tmp: int)
    requires Writing(s, ds, pos, bits, tmp)
    ensures Letters(ds) == Encoded(s, |ds|)
    ensures bits == 0 && pos == |s| ==> |ds| == Size(|s|)
    ensures bits > 0 || pos < |s| ==> |ds| < Size(|s|)
  {
    DigitsOfValue(ds, 32);
  }

  /** The letters written are those of ds, with nothing left out; more are to come or not. */
  ghost predicate Written(s: bytes, ds: seq<nat>, pos: nat, bits: nat, tmp: int, w: bytes)
  {
    && Writing(s, ds, pos, bits, tmp) && w == Letters(ds)
    && w == Encoded(s, |ds|) && |ds| <= Size(|s|)
    && (|ds| < Size(|s|) <==> bits > 0 || pos < |s|)
  }

  method Turn(s: bytes, out: array<byte>, ret: nat, ghost ds: seq<nat>, pos: nat, bits: nat, tmp: int)
    returns (ghost ds': seq<nat>, pos': nat, bits': nat, tmp': int)
    requires ret < out.Length && (bits > 0 || pos < |s|) && |ds| == ret && Written(s, ds, pos, bits, tmp, out[..ret])
    modifies out
    ensures |ds'| == ret + 1 && Written(s, ds', pos', bits', tmp', out[..ret + 1])
    ensures out[ret + 1..] == old(out[ret + 1..])
  {
    ghost var w := out[..ret];
    var d;
    pos', bits', tmp', d := Next(s, ds, pos, bits, tmp);
    ds' := ds + [d];
    out[ret] := Letter(d);
    assert out[..ret + 1] == w + [Letter(d)];
    FinishWriting(s, ds', pos', bits', tmp');
  }

  /** What is encoded: the first byte is read before the length is looked at, and where the input
      is empty it is whatever lies beyond it. */
  function Input(s: bytes, beyond: byte): (t: bytes)
    ensures t != []
  {
    if s == [] then [beyond] else s
  }

  /** `ByteStreamToBase32`. */
  method Encode(inBuf: bytes, beyond: byte, out: array<byte>, outLen: nat) returns (ret: nat)
    requires outLen <= out.Length
    modifies out
    ensures var n := Size(|Input(inBuf, beyond)|); ret == if outLen < n then outLen else n
    ensures out[..ret] == Encoded(Input(inBuf, beyond), ret) && out[ret..] == old(out[ret..])
  {
    var s := Input(inBuf, beyond);
    ret := 0;
    var pos: nat, bits: nat, tmp: int := 1, 8, s[0];
    ghost var ds: seq<nat> := [];
    StartWriting(s);
    FinishWriting(s, ds, pos, bits, tmp);
    while ret < outLen && (bits > 0 || pos < |inBuf|)
      invariant pos >= 1 && |ds| == ret <= outLen && Written(s, ds, pos, bits, tmp, out[..ret])
      invariant out[ret..] == old(out[ret..])
      decreases outLen - ret
    {
      ghost var was := out[ret..];
      ds, pos, bits, tmp := Turn(s, out, ret, ds, pos, bits, tmp);
      ret := ret + 1;
      assert out[ret..] == was[1..];
    }
  }

  //
  // Decoding
  //

  /** How many letters are read before the output is full. */
  function Scanned(len: nat, outLen: nat): nat
  {
    if 5 * len < 8 * (outLen + 1) then len else (8 * (outLen + 1) + 4) / 5
  }

  /** As many bytes as the bits of the letters fill. */
  function Decoded(ds: seq<nat>, ret: nat): (s: bytes)
    requires 8 * ret <= 5 * |ds|
    ensures |s| == ret
  {
    BeBytes(Lead(Value(ds, 32), 5 * |ds|, 8 * ret), ret)
  }

  /** The value of the letters read, and the bits of it already written. */
  ghost predicate Unloaded(ds: seq<nat>, ret: nat, bits: nat, written: nat)
  {
    5 * |ds| == 8 * ret + bits && written == Lead(Value(ds, 32), 5 * |ds|, 8 * ret)
  }

  lemma TakeLetter(ds: seq<nat>, d: nat, ret: nat, bits: nat, written: nat)
    requires Unloaded(ds, ret, bits, written) && d < 32
    ensures Unloaded(ds + [d], ret, bits + 5, written)
  {
    var v := Value(ds, 32);
    ValuePush(ds, d, 32);
    ThirtyTwo();
    PowAdd(2, 5, bits);
    DivDiv(32 * v + d, 32, Pow(2, bits));
    assert (32 * v + d) / 32 == v;
    LeadWithin(v, 8 * ret, bits);
    LeadWithin(32 * v + d, 8 * ret, bits + 5);
  }

  lemma GiveByte(ds: seq<nat>, ret: nat, bits: nat, written: nat)
    requires Unloaded(ds, ret, bits + 8, written)
    ensures Value(ds, 32) / Pow(2, bits) >= 0
    ensures var x := (Value(ds, 32) / Pow(2, bits)) % 256; Unloaded(ds, ret + 1, bits, 256 * written + x)
  {
    var v, p := Value(ds, 32), Pow(2, bits);
    Pow256();
    LeadWithin(v, 8 * (ret + 1), bits);
    LeadStep(v, 5 * |ds|, 8 * ret, 8);
  }

  /** One letter: a byte is written when eight bits are there, unless the output is full. */
  method Take(ghost ds: seq<nat>, d: nat, bits: nat, tmp: int, ghost ret: nat, ghost written: nat)
    returns (tmp': int, bits': nat, x: Option<byte>)
    requires Unloaded(ds, ret, bits, written) && bits < 8 && d < 32 && tmp == Wrap(Value(ds, 32) * 32)
    ensures tmp' == Wrap(Value(ds + [d], 32)) && (x.Some? <==> bits + 5 >= 8)
    ensures Unloaded(ds + [d], ret, bits + 5, written) && (x == None ==> bits' == bits + 5)
    ensures x.Some? ==> bits' == bits - 3 && Unloaded(ds + [d], ret + 1, bits', 256 * written + x.value)
  {
    ThirtyTwo();
    OrWraps(Value(ds, 32), d, 5, 32);
    ValuePush(ds, d, 32);
    tmp' := OrInto(tmp, d);
    bits' := bits + 5;
    x := None;
    TakeLetter(ds, d, ret, bits, written);
    if bits' >= 8 {
      bits' := bits' - 8;
      GiveByte(ds + [d], ret, bits', written);
      Pow256();
      ReadWraps(Value(ds + [d], 32), bits', Pow(2, bits'), 8, 256);
      x := Some((tmp' / Pow(2, bits')) % 256);
    }
  }

  lemma FinishDecode(ds: seq<nat>, ret: nat, bits: nat, s: bytes)
    requires Unloaded(ds, ret, bits, Value(s, 256)) && |s| == ret
    ensures s == Decoded(ds, ret)
  {
    BeBytesOfBe(s);
  }

  /** How the loop's variables stand after i letters, with w written. */
  ghost predicate Reading(s: bytes, i: nat, bits: nat, tmp: int, w: bytes)
  {
    && i <= |s| && bits < 8 && AllKnown(s[..i])
    && tmp == Wrap(Value(Indices(s[..i]), 32) * 32)
    && Unloaded(Indices(s[..i]), |w|, bits, Be(w))
  }

  method Read(s: bytes, i: nat, bits: nat, tmp: int, ghost w: bytes) returns (tmp': int, bits': nat, x: Option<byte>)
    requires Reading(s, i, bits, tmp, w) && i < |s| && Known(s[i])
    ensures AllKnown(s[..i + 1]) && bits' <= bits + 5
    ensures x == None ==> Reading(s, i + 1, bits', tmp', w)
    ensures x.Some? ==> Reading(s, i + 1, bits', tmp', w + [x.value])
    ensures x.Some? ==> 8 * (|w| + 1) <= 5 * (i + 1) && w == Decoded(Indices(s[..i + 1]), |w|)
  {
    ghost var ds := Indices(s[..i]);
    assert s[..i + 1] == s[..i] + [s[i]];
    assert Indices(s[..i + 1]) == ds + [Index(s[i])];
    tmp', bits', x := Take(ds, Index(s[i]), bits, tmp, |w|, Be(w));
    ShiftLeftWraps(Value(Indices(s[..i + 1]), 32), 32);
    tmp' := ShiftLeft(tmp', 32);
    if x.Some? {
      ValuePush(w, x.value, 256);
      FinishDecode(ds + [Index(s[i])], |w|, bits + 5, w);
    }
  }

  /** How many letters come before the first byte outside the alphabet. */
  function KnownPrefix(t: bytes): (n: nat)
    ensures n <= |t| && AllKnown(t[..n])
  {
    if t == [] || !Known(t[0]) then 0
    else
      var n := 1 + KnownPrefix(t[1..]);
      assert t[..n] == [t[0]] + t[1..][..n - 1];
      n
  }

  lemma {:induction false} KnownPrefixIs(t: bytes, n: nat)
    requires n <= |t| && AllKnown(t[..n]) && (n < |t| ==> !Known(t[n]))
    ensures KnownPrefix(t) == n
  {
    if n > 0 {
      assert t[..n][0] == t[0] && t[1..][..n - 1] == t[..n][1..];
      KnownPrefixIs(t[1..], n - 1);
    }
  }

  /** The letters that are taken in. */
  function Taken(s: bytes, outLen: nat): (t: bytes)
    ensures AllKnown(t)
  {
    var t := s[..Scanned(|s|, outLen)];
    t[..KnownPrefix(t)]
  }

  /** How many bytes are written. */
  function Filled(s: bytes, outLen: nat): (n: nat)
    ensures n <= outLen && 8 * n <= 5 * |Taken(s, outLen)|
  {
    var n := 5 * |Taken(s, outLen)| / 8;
    if outLen < n then outLen else n
  }

  /** What decoding s into outLen bytes gives: w is written, and counted unless one of the bytes
      read was outside the alphabet. */
  ghost predicate Result(s: bytes, outLen: nat, ret: nat, w: bytes)
  {
    && |w| == Filled(s, outLen) && w == Decoded(Indices(Taken(s, outLen)), |w|)
    && ret == if |Taken(s, outLen)| == Scanned(|s|, outLen) then |w| else 0
  }

  lemma TakenIs(s: bytes, outLen: nat, n: nat)
    requires n <= Scanned(|s|, outLen) && AllKnown(s[..n]) && (n < Scanned(|s|, outLen) ==> !Known(s[n]))
    ensures Taken(s, outLen) == s[..n]
  {
    var t := s[..Scanned(|s|, outLen)];
    assert t[..n] == s[..n];
    KnownPrefixIs(t, n);
  }

  lemma ResultUnknown(s: bytes, outLen: nat, i: nat, bits: nat, tmp: int, w: bytes)
    requires Reading(s, i, bits, tmp, w) && |w| <= outLen && i < |s| && !Known(s[i])
    ensures Result(s, outLen, 0, w)
  {
    assert i < Scanned(|s|, outLen);
    TakenIs(s, outLen, i);
    FinishDecode(Indices(s[..i]), |w|, bits, w);
  }

  lemma ResultFull(s: bytes, i: nat, w: bytes)
    requires i < |s| && AllKnown(s[..i + 1]) && 5 * i < 8 * (|w| + 1) <= 5 * (i + 1)
    requires w == Decoded(Indices(s[..i + 1]), |w|)
    ensures Result(s, |w|, |w|, w)
  {
    assert Scanned(|s|, |w|) == i + 1;
    TakenIs(s, |w|, i + 1);
  }

  lemma ResultAll(s: bytes, outLen: nat, bits: nat, tmp: int, w: bytes)
    requires Reading(s, |s|, bits, tmp, w) && |w| <= outLen
    ensures Result(s, outLen, |w|, w)
  {
    assert Scanned(|s|, outLen) == |s|;
    TakenIs(s, outLen, |s|);
    FinishDecode(Indices(s[..|s|]), |w|, bits, w);
  }

  /** `Base32ToByteStream`. */
  method Decode(s: bytes, out: array<byte>, outLen: nat) returns (ret: nat)
    requires outLen <= out.Length
    modifies out
    ensures ret <= outLen && Result(s, outLen, ret, out[..Filled(s, outLen)])
    ensures out[Filled(s, outLen)..] == old(out[Filled(s, outLen)..])
  {
    ret := 0;
    var tmp: int, bits: nat := 0, 0;
    assert Indices(s[..0]) == [] && Wrap(0) == 0;
    for i := 0 to |s|
      invariant ret <= outLen && Reading(s, i, bits, tmp, out[..ret])
      invariant out[ret..] == old(out[ret..])
    {
      ghost var w := out[..ret];
      if !Known(s[i]) {
        ResultUnknown(s, outLen, i, bits, tmp, w);
        return 0;
      }
      var x;
      tmp, bits, x := Read(s, i, bits, tmp, w);
      if x.Some? {
        if ret >= outLen {
          ResultFull(s, i, w);
          return ret;
        }
        ghost var rest := out[ret..];
        out[ret] := x.value;
        ret := ret + 1;
        assert out[..ret] == w + [x.value] && out[ret..] == rest[1..];
      }
    }
    ResultAll(s, outLen, bits, tmp, out[..ret]);
  }

  lemma IndicesOfEncoded(s: bytes, m: nat)
    ensures var t := Encoded(s, m);
      AllKnown(t) && Indices(t) == Digits(Lead(Be(s), 8 * |s|, 5 * m), 32, m)
  {
    var ds, t := Digits(Lead(Be(s), 8 * |s|, 5 * m), 32, m), Encoded(s, m);
    forall i | 0 <= i < m
      ensures Known(t[i]) && Index(t[i]) == ds[i]
    {
      IndexOfLetter(ds[i]);
    }
  }

  /** Decoding all the letters of an encoding, with room for the bytes, restores them. */
  lemma DecodeOfEncode(s: bytes)
    ensures var t := Encoded(s, Size(|s|));
      AllKnown(t) && 5 * |t| / 8 == |s| && Decoded(Indices(t), |s|) == s
  {
    var n, m := |s|, Size(|s|);
    IndicesOfEncoded(s, m);
    EncodedFits(s);
    ValueOfDigits(Lead(Be(s), 8 * n, 5 * m), 32, m);
    LeadBack(Be(s), 8 * n, 5 * m - 8 * n);
    BeBytesOfBe(s);
  }

  /** The alphabet. */
  lemma Alphabet(d: nat)
    requires d < 32
    ensures Letter(d) == "abcdefghijklmnopqrstuvwxyz234567"[d] as int
  {
  }

  /** The letters of a whole encoding are the numeral, in base 32, of the input followed by zero bits. */
  lemma EncodedNumber(s: bytes)
    ensures var t := Encoded(s, Size(|s|));
      && AllKnown(t) && 8 * |s| <= 5 * |t| < 8 * |s| + 5
      && Value(Indices(t), 32) == Be(s) * Pow(2, 5 * |t| - 8 * |s|)
  {
    var n, m := |s|, Size(|s|);
    IndicesOfEncoded(s, m);
    EncodedFits(s);
    ValueOfDigits(Lead(Be(s), 8 * n, 5 * m), 32, m);
    LeadMultiple(Be(s), 8 * n, 5 * m - 8 * n);
  }

  /** Whatever the room beyond |s|, decoding the encoding of s gives s. */
  lemma RoundTrip(s: bytes, outLen: nat, ret: nat, w: bytes)
    requires |s| <= outLen && Result(Encoded(s, Size(|s|)), outLen, ret, w)
    ensures ret == |s| && w == s
  {
    var t := Encoded(s, Size(|s|));
    DecodeOfEncode(s);
    assert t[..|t|] == t && Scanned(|t|, outLen) == |t|;
    TakenIs(t, outLen, |t|);
  }

  /** What is encoded comes back, and this is the input exactly if that is not empty. */
  lemma RoundTripIff(s: bytes, beyond: byte, outLen: nat, ret: nat, w: bytes)
    requires var t := Input(s, beyond); |t| <= outLen && Result(Encoded(t, Size(|t|)), outLen, ret, w)
    ensures ret == |w| && w == Input(s, beyond) && (w == s <==> s != [])
  {
    RoundTrip(Input(s, beyond), outLen, ret, w);
  }

  lemma EncodedFits(s: bytes)
    ensures Lead(Be(s), 8 * |s|, 5 * Size(|s|)) < Pow(32, Size(|s|))
  {
    var n, m := |s|, Size(|s|);
    LeadMultiple(Be(s), 8 * n, 5 * m - 8 * n);
    BeBound(s);
    PowerOfTwoPower(8, 256, n);
    PowerOfTwoPower(5, 32, m);
    PowAdd(2, 8 * n, 5 * m - 8 * n);
    MulStrict(Be(s), Pow(256, n), Pow(2, 5 * m - 8 * n));
  }
}
