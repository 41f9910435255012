/** Base64 with the I2P alphabet (lib/libi2pd/Base.cpp). */
module Base64 {
  import opened Num
  import opened Bits
  import opened BigEndian
  import opened BitStrings

  //
  // The alphabet
  //

  const PAD: byte := 61

  /** `T64`: `A` to `Z`, `a` to `z`, `0` to `9`, `-` and `~`. */
  function Letter(d: nat): (c: byte)
    requires d < 64
    ensures c != PAD
  {
    if d < 26 then 65 + d else if d < 52 then 97 + (d - 26) else if d < 62 then 48 + (d - 52)
    else if d == 62 then 45 else 126
  }

  /** The digit of a letter, with zero for the padding sign. */
  function Index(c: byte): (d: Option<nat>)
    ensures d.Some? ==> d.value < 64 && (c == PAD || Letter(d.value) == c)
  {
    if 65 <= c <= 90 then Some(c - 65)
    else if 97 <= c <= 122 then Some(c - 97 + 26)
    else if 48 <= c <= 57 then Some(c - 48 + 52)
    else if c == 45 then Some(62) else if c == 126 then Some(63)
    else if c == PAD then Some(0) else None
  }

  lemma IndexOfLetter(d: nat)
    requires d < 64
    ensures Index(Letter(d)) == Some(d)
  {
  }

  function Letters(ds: seq<nat>): (s: bytes)
    requires forall i :: 0 <= i < |ds| ==> ds[i] < 64
    ensures |s| == |ds|
    ensures forall i :: 0 <= i < |ds| ==> s[i] == Letter(ds[i])
  {
    seq(|ds|, i requires 0 <= i < |ds| => Letter(ds[i]))
  }

  predicate AllKnown(s: bytes)
  {
    forall i :: 0 <= i < |s| ==> Index(s[i]).Some?
  }

  function Indices(s: bytes): (ds: seq<nat>)
    requires AllKnown(s)
    ensures |ds| == |s| && forall i :: 0 <= i < |s| ==> ds[i] == Index(s[i]).value
  {
    seq(|s|, i requires 0 <= i < |s| => Index(s[i]).value)
  }

  /** `iT64`, built at the first use. */
  class ReverseTable {
    const iT64: array<byte>
    var isFirstTime: bool

    ghost predicate Built()
      reads iT64
    {
      && iT64.Length == 256
      && forall c: byte :: iT64[c] == if Index(c).Some? then Index(c).value else 255
    }

    ghost predicate Valid()
      reads this, iT64
    {
      iT64.Length == 256 && (!isFirstTime ==> Built())
    }

    constructor ()
      ensures Valid() && isFirstTime && fresh(iT64)
    {
      iT64 := new byte[256](_ => 0);
      isFirstTime := true;
    }

    /** `iT64Build`. */
    method Build()
      requires Valid()
      modifies this, iT64
      ensures Valid() && !isFirstTime
    {
      isFirstTime := false;
      for i := 0 to 256
        modifies iT64
        invariant forall c :: 0 <= c < i ==> iT64[c] == 255
      {
        iT64[i] := 255;
      }
      for i := 0 to 64
        modifies iT64
        invariant forall c: byte :: iT64[c] == if Before(c, i) then Index(c).value else 255
      {
        IndexOfLetter(i);
        iT64[Letter(i)] := i;
      }
      iT64[PAD] := 0;
    }

    /** c is one of the first n letters. */
    ghost predicate Before(c: byte, n: nat)
    {
      c != PAD && Index(c).Some? && Index(c).value < n
    }

    method Ready()
      requires Valid()
      modifies this, iT64
      ensures Valid() && Built()
    {
      if isFirstTime { Build(); }
    }
  }

  //
  // Encoding
  //

  /** The letters that carry bits. */
  function Size(n: nat): nat
  {
    (8 * n + 5) / 6
  }

  /** `Base64EncodingBufferSize`, and the count `ByteStreamToBase64` starts with. */
  function BufferSize(n: nat): (r: nat)
    ensures r % 4 == 0 && Size(n) <= r < Size(n) + 3
  {
    4 * (if n % 3 == 0 then n / 3 else n / 3 + 1)
  }

  function Pads(n: nat): bytes
  {
    seq(n, _ => PAD)
  }

  function Encoded(s: bytes): (t: bytes)
    ensures |t| == BufferSize(|s|)
  {
    Letters(EncodedDigits(s)) + Pads(BufferSize(|s|) - Size(|s|))
  }

  /** The bits of s, six at a time, with zeros after them. */
  function EncodedDigits(s: bytes): (ds: seq<nat>)
    ensures |ds| == Size(|s|) && forall i :: 0 <= i < |ds| ==> ds[i] < 64
  {
    Digits(Lead(Be(s), 8 * |s|, 6 * Size(|s|)), 64, Size(|s|))
  }

  lemma MaskLow(x: nat)
    ensures And(x, 0x0f) == x % 16 && And(x, 0x3f) == x % 64
  {
    assert Pow(2, 4) == 16 && Pow(2, 6) == 64;
    AndOnes(x, 4, 16);
    AndOnes(x, 6, 64);
  }

  lemma MaskHigh(x: nat)
    ensures And(16 * x, 0x30) == 16 * (x % 4)
  {
    assert Pow(2, 2) == 4 && Pow(2, 4) == 16;
    AndOnes(x, 2, 4);
    var zero, three := 0, 3;
    AndSplit(zero, x, zero, three, 4, 16);
  }

  lemma Masks(x: nat)
    ensures And(16 * x, 0x30) == 16 * (x % 4) && And(16 * x, 0x3f) == 16 * (x % 4)
    ensures And(x, 0x0f) == x % 16 && And(x, 0x3f) == x % 64
  {
    var y := 16 * x;
    MaskLow(x);
    MaskLow(y);
    MaskHigh(x);
    ModUnique(y, 64, x / 4, 16 * (x % 4));
  }

  /** Bytes, and digits, read together. */
  function Octets(x: nat, y: nat, z: nat): nat
  {
    256 * (256 * x + y) + z
  }

  function Sextets(a: nat, b: nat, c: nat, d: nat): nat
  {
    64 * (64 * (64 * a + b) + c) + d
  }

  lemma OrParts(a: nat, b: nat)
    ensures b < 16 ==> Or(16 * a, b) == 16 * a + b
    ensures b < 4 ==> Or(4 * a, b) == 4 * a + b
    ensures b < 64 ==> Or(64 * a, b) == 64 * a + b
  {
    assert Pow(2, 2) == 4 && Pow(2, 4) == 16 && Pow(2, 6) == 64;
    if b < 16 { OrDisjoint(a, b, 4, 16); }
    if b < 4 { OrDisjoint(a, b, 2, 4); }
    if b < 64 { OrDisjoint(a, b, 6, 64); }
  }

  /** Three bytes become four digits. */
  method Group(x: byte, y: byte, z: byte) returns (a: nat, b: nat, c: nat, d: nat)
    ensures a < 64 && b < 64 && c < 64 && d < 64
    ensures Sextets(a, b, c, d) == Octets(x, y, z)
  {
    Masks(x);
    Masks(y);
    Masks(z);
    var acc1: nat, acc2: nat := x, And(16 * x, 0x30);
    acc1 := acc1 / 4;
    a := acc1;
    acc1 := y;
    OrParts(x % 4, acc1 / 16);
    acc2 := Or(acc2, acc1 / 16);
    b := acc2;
    acc1 := And(acc1, 0x0f);
    acc1 := 4 * acc1;
    acc2 := z;
    OrParts(y % 16, acc2 / 64);
    acc1 := Or(acc1, acc2 / 64);
    c := acc1;
    acc2 := And(acc2, 0x3f);
    d := acc2;
  }

  /** The last byte alone. */
  method GroupOfOne(x: byte) returns (a: nat, b: nat)
    ensures a < 64 && b < 64 && Sextets(0, 0, a, b) == 16 * Octets(0, 0, x)
  {
    Masks(x);
    b := And(16 * x, 0x3f);
    a := x / 4;
  }

  /** The last two bytes. */
  method GroupOfTwo(x: byte, y: byte) returns (a: nat, b: nat, c: nat)
    ensures a < 64 && b < 64 && c < 64 && Sextets(0, a, b, c) == 4 * Octets(0, x, y)
  {
    Masks(x);
    Masks(y);
    b := And(16 * x, 0x3f);
    a := x / 4;
    OrParts(x % 4, y / 16);
    b := Or(b, y / 16);
    c := And(y, 0x0f);
    c := 4 * c;
  }

  /** The digits of the first 3i bytes. */
  ghost predicate Writing(s: bytes, i: nat, ds: seq<nat>)
  {
    && |ds| == 4 * i && 3 * i <= |s|
    && (forall j :: 0 <= j < |ds| ==> ds[j] < 64)
    && Value(ds, 64) == Be(s[..3 * i])
  }

  lemma WriteGroup(s: bytes, i: nat, ds: seq<nat>, a: nat, b: nat, c: nat, d: nat)
    requires Writing(s, i, ds) && 3 * (i + 1) <= |s| && a < 64 && b < 64 && c < 64 && d < 64
    requires Sextets(a, b, c, d) == Octets(s[3 * i], s[3 * i + 1], s[3 * i + 2])
    ensures Writing(s, i + 1, ds + [a, b, c, d])
  {
    assert ds + [a, b, c, d] == ds + [a] + [b] + [c] + [d];
    ValuePush(ds, a, 64);
    ValuePush(ds + [a], b, 64);
    ValuePush(ds + [a] + [b], c, 64);
    ValuePush(ds + [a] + [b] + [c], d, 64);
    BeStep(s, 3 * i);
    BeStep(s, 3 * i + 1);
    BeStep(s, 3 * i + 2);
  }

  /** Digits with the value of s and zeros after it are the encoding. */
  lemma Finish(s: bytes, ds: seq<nat>)
    requires |ds| == Size(|s|) && (forall j :: 0 <= j < |ds| ==> ds[j] < 64)
    requires Value(ds, 64) == Lead(Be(s), 8 * |s|, 6 * |ds|)
    ensures Letters(ds) + Pads(BufferSize(|s|) - |ds|) == Encoded(s)
  {
    DigitsOfValue(ds, 64);
  }

  lemma FinishWhole(s: bytes, i: nat, ds: seq<nat>)
    requires Writing(s, i, ds) && |s| == 3 * i
    ensures Letters(ds) == Encoded(s)
  {
    assert s[..3 * i] == s;
    Finish(s, ds);
    assert Letters(ds) + Pads(0) == Letters(ds);
  }

  lemma FinishOne(s: bytes, i: nat, ds: seq<nat>, a: nat, b: nat)
    requires Writing(s, i, ds) && |s| == 3 * i + 1 && a < 64 && b < 64
    requires Sextets(0, 0, a, b) == 16 * Octets(0, 0, s[3 * i])
    ensures Letters(ds) + [Letter(a), Letter(b), PAD, PAD] == Encoded(s)
  {
    var e := ds + [a] + [b];
    ValuePush(ds, a, 64);
    ValuePush(ds + [a], b, 64);
    BeStep(s, 3 * i);
    assert s[..3 * i + 1] == s;
    assert Pow(2, 4) == 16;
    LeadMultiple(Be(s), 8 * |s|, 4);
    Finish(s, e);
    assert Letters(e) + Pads(2) == Letters(ds) + [Letter(a), Letter(b), PAD, PAD];
  }

  lemma PushThree(s: bytes, i: nat, ds: seq<nat>, a: nat, b: nat, c: nat)
    requires Writing(s, i, ds) && |s| == 3 * i + 2
    requires Sextets(0, a, b, c) == 4 * Octets(0, s[3 * i], s[3 * i + 1])
    ensures Value(ds + [a] + [b] + [c], 64) == Lead(Be(s), 8 * |s|, 8 * |s| + 2)
  {
    ValuePush(ds, a, 64);
    ValuePush(ds + [a], b, 64);
    ValuePush(ds + [a] + [b], c, 64);
    LastTwo(s, i);
    ThreeDigits(Be(s[..3 * i]), a, b, c, Octets(0, s[3 * i], s[3 * i + 1]));
    TwoZeros(Be(s), 8 * |s|, 2);
  }

  lemma ThreeDigits(v: nat, a: nat, b: nat, c: nat, o: nat)
    requires Sextets(0, a, b, c) == 4 * o
    ensures 64 * (64 * (64 * v + a) + b) + c == 4 * (0x1_0000 * v + o)
  {
  }

  lemma TwoZeros(v: nat, m: nat, two: nat)
    requires two == 2
    ensures Lead(v, m, m + two) == 4 * v
  {
    assert Pow(2, two) == 4;
    LeadMultiple(v, m, two);
  }

  lemma LastTwo(s: bytes, i: nat)
    requires |s| == 3 * i + 2
    ensures Be(s) == 0x1_0000 * Be(s[..3 * i]) + Octets(0, s[3 * i], s[3 * i + 1])
  {
    BeStep(s, 3 * i);
    BeStep(s, 3 * i + 1);
    assert s[..3 * i + 2] == s;
  }

  lemma FinishTwo(s: bytes, i: nat, ds: seq<nat>, a: nat, b: nat, c: nat)
    requires Writing(s, i, ds) && |s| == 3 * i + 2 && a < 64 && b < 64 && c < 64
    requires Sextets(0, a, b, c) == 4 * Octets(0, s[3 * i], s[3 * i + 1])
    ensures Letters(ds) + [Letter(a), Letter(b), Letter(c), PAD] == Encoded(s)
  {
    var e := ds + [a] + [b] + [c];
    PushThree(s, i, ds, a, b, c);
    Finish(s, e);
    assert Letters(e) + Pads(1) == Letters(ds) + [Letter(a), Letter(b), Letter(c), PAD];
  }

  method Put(out: array<byte>, at: nat, a: byte, b: byte, c: byte, d: byte)
    requires at + 4 <= out.Length
    modifies out
    ensures out[..at + 4] == old(out[..at]) + [a, b, c, d] && out[at + 4..] == old(out[at + 4..])
  {
    out[at], out[at + 1], out[at + 2], out[at + 3] := a, b, c, d;
  }

  /** Four letters for every three bytes so far. */
  ghost predicate Written(s: bytes, i: nat, ds: seq<nat>, w: bytes)
  {
    Writing(s, i, ds) && w == Letters(ds)
  }

  method WriteWhole(s: bytes, i: nat, out: array<byte>, ghost ds: seq<nat>) returns (ghost ds': seq<nat>)
    requires 3 * (i + 1) <= |s| && 4 * (i + 1) <= out.Length && Written(s, i, ds, out[..4 * i])
    modifies out
    ensures Written(s, i + 1, ds', out[..4 * (i + 1)]) && out[4 * (i + 1)..] == old(out[4 * (i + 1)..])
  {
    var a, b, c, d := Group(s[3 * i], s[3 * i + 1], s[3 * i + 2]);
    Put(out, 4 * i, Letter(a), Letter(b), Letter(c), Letter(d));
    WriteGroup(s, i, ds, a, b, c, d);
    ds' := ds + [a, b, c, d];
    assert Letters(ds') == Letters(ds) + [Letter(a), Letter(b), Letter(c), Letter(d)];
  }

  /** The bytes after the last whole group. */
  method WriteRest(s: bytes, n: nat, out: array<byte>, ghost ds: seq<nat>)
    requires n == |s| / 3 && BufferSize(|s|) <= out.Length && Written(s, n, ds, out[..4 * n])
    modifies out
    ensures out[..BufferSize(|s|)] == Encoded(s) && out[BufferSize(|s|)..] == old(out[BufferSize(|s|)..])
  {
    var m := |s| % 3;
    if m == 1 {
      var a, b := GroupOfOne(s[3 * n]);
      Put(out, 4 * n, Letter(a), Letter(b), PAD, PAD);
      FinishOne(s, n, ds, a, b);
    } else if m == 2 {
      var a, b, c := GroupOfTwo(s[3 * n], s[3 * n + 1]);
      Put(out, 4 * n, Letter(a), Letter(b), Letter(c), PAD);
      FinishTwo(s, n, ds, a, b, c);
    } else {
      FinishWhole(s, n, ds);
    }
  }

  method WriteGroups(s: bytes, n: nat, out: array<byte>) returns (ghost ds: seq<nat>)
    requires 3 * n <= |s| && 4 * n <= out.Length
    modifies out
    ensures Written(s, n, ds, out[..4 * n]) && out[4 * n..] == old(out[4 * n..])
  {
    ds := [];
    assert s[..0] == [];
    for i := 0 to n
      invariant Written(s, i, ds, out[..4 * i]) && out[4 * i..] == old(out[4 * i..])
    {
      ghost var was := out[4 * i..];
      ds := WriteWhole(s, i, out, ds);
      assert out[4 * (i + 1)..] == was[4..];
    }
  }

  /** `ByteStreamToBase64`. */
  method Encode(s: bytes, out: array<byte>, len: nat) returns (count: nat)
    requires len <= out.Length
    modifies out
    ensures count == if BufferSize(|s|) <= len then BufferSize(|s|) else 0
    ensures out[..count] == (if BufferSize(|s|) <= len then Encoded(s) else []) && out[count..] == old(out[count..])
  {
    count := BufferSize(|s|);
    if count > len {
      return 0;
    }
    var n := |s| / 3;
    ghost var was := out[4 * n..];
    ghost var ds := WriteGroups(s, n, out);
    assert out[count..] == was[count - 4 * n..];
    WriteRest(s, n, out, ds);
  }

  //
  // Decoding
  //

  function TrailingPads(s: bytes): (p: nat)
    ensures p <= |s|
  {
    if s == [] || s[|s| - 1] != PAD then 0 else 1 + TrailingPads(s[..|s| - 1])
  }

  /** The count of bytes in a whole number of groups, if it fits; a count below zero wraps to
      one that no buffer holds. */
  function Count(s: bytes, len: nat): (c: Option<nat>)
    ensures c.Some? ==> |s| > 0 && |s| % 4 == 0 && 4 * c.value <= 3 * |s| && c.value <= len
  {
    var c := 3 * (|s| / 4) - TrailingPads(s);
    if |s| == 0 || |s| % 4 != 0 || c < 0 || c > len then None else Some(c)
  }

  /** The first k bytes of the digits' bits. */
  function Goal(ds: seq<nat>, k: nat): nat
  {
    Lead(Value(ds, 64), 6 * |ds|, 8 * k)
  }

  function Decoded(ds: seq<nat>, c: nat): (s: bytes)
    ensures |s| == c
  {
    BeBytes(Goal(ds, c), c)
  }

  function First(a: byte, b: byte): byte
  {
    OrByte((4 * a) % 256, b / 16)
  }

  function Second(b: byte, c: byte): byte
  {
    OrByte((16 * b) % 256, c / 4)
  }

  function Third(c: byte, d: byte): byte
  {
    OrByte(d, (64 * c) % 256)
  }

  lemma FirstBits(a: nat, b: nat)
    requires a < 64 && b < 64
    ensures First(a, b) == 4 * a + b / 16
  {
    var y := b / 16;
    ModUnique(4 * a, 256, 0, 4 * a);
    OrParts(a, y);
  }

  lemma SecondBits(b: nat, c: nat)
    requires b < 64 && c < 64
    ensures Second(b, c) == 16 * (b % 16) + c / 4
  {
    var x := b % 16;
    ModUnique(16 * b, 256, b / 16, 16 * x);
    OrParts(x, c / 4);
  }

  lemma ThirdBits(c: nat, d: nat)
    requires c < 64 && d < 64
    ensures Third(c, d) == 64 * (c % 4) + d
  {
    var x := c % 4;
    ModUnique(64 * c, 256, c / 4, 64 * x);
    OrComm(d, 64 * x);
    OrParts(x, d);
  }

  lemma Combined(a: nat, b: nat, c: nat, d: nat)
    requires a < 64 && b < 64 && c < 64 && d < 64
    ensures Octets(First(a, b), Second(b, c), Third(c, d)) == Sextets(a, b, c, d)
  {
    FirstBits(a, b);
    SecondBits(b, c);
    ThirdBits(c, d);
    CombinedArithmetic(4 * a + b / 16, 16 * (b % 16) + c / 4, 64 * (c % 4) + d, a, b, c, d);
  }

  lemma CombinedArithmetic(x: nat, y: nat, z: nat, a: nat, b: nat, c: nat, d: nat)
    requires x == 4 * a + b / 16 && y == 16 * (b % 16) + c / 4 && z == 64 * (c % 4) + d
    ensures Octets(x, y, z) == Sextets(a, b, c, d)
  {
  }

  lemma FourDigits(ds: seq<nat>, i: nat)
    requires 4 * (i + 1) <= |ds|
    ensures Value(ds[..4 * (i + 1)], 64) ==
      0x100_0000 * Value(ds[..4 * i], 64) + Sextets(ds[4 * i], ds[4 * i + 1], ds[4 * i + 2], ds[4 * i + 3])
  {
    var p, a, b, c, d := ds[..4 * i], ds[4 * i], ds[4 * i + 1], ds[4 * i + 2], ds[4 * i + 3];
    assert ds[..4 * (i + 1)] == p + [a] + [b] + [c] + [d];
    ValuePush(p, a, 64);
    ValuePush(p + [a], b, 64);
    ValuePush(p + [a] + [b], c, 64);
    ValuePush(p + [a] + [b] + [c], d, 64);
  }

  /** The entry of the reverse table: 255 outside the alphabet. */
  function Digit(c: byte): byte
  {
    if Index(c).Some? then Index(c).value else 255
  }

  /** The three bytes of group i, whatever its signs. */
  function GroupBytes(s: bytes, i: nat): (w: bytes)
    requires 4 * (i + 1) <= |s|
    ensures |w| == 3
  {
    var a, b, c, d := Digit(s[4 * i]), Digit(s[4 * i + 1]), Digit(s[4 * i + 2]), Digit(s[4 * i + 3]);
    [First(a, b), Second(b, c), Third(c, d)]
  }

  /** The bytes of all groups, one group after the other. */
  function Groups(s: bytes): (gs: seq<bytes>)
    ensures |gs| == |s| / 4
  {
    seq(|s| / 4, i requires 0 <= i < |s| / 4 => GroupBytes(s, i))
  }

  function ReadBytes(s: bytes, n: nat): (w: bytes)
    requires 4 * n <= 3 * |s| && |s| % 4 == 0
    ensures |w| == n
  {
    GroupsAre(s);
    JoinTriples(Groups(s));
    Join(Groups(s))[..n]
  }

  /** Instances of `AreGroups` are named explicitly. */
  ghost predicate At(i: int)
  {
    true
  }

  ghost predicate AreGroups(s: bytes, gs: seq<bytes>)
  {
    |gs| == |s| / 4 && Triples(gs) && forall i {:trigger At(i)} :: 0 <= i < |gs| ==> gs[i] == GroupBytes(s, i)
  }

  ghost predicate Triples(gs: seq<bytes>)
  {
    forall i :: 0 <= i < |gs| ==> |gs[i]| == 3
  }

  lemma GroupsAre(s: bytes)
    ensures AreGroups(s, Groups(s))
  {
  }

  lemma {:induction false} JoinTriples(gs: seq<bytes>)
    requires Triples(gs)
    ensures |Join(gs)| == 3 * |gs|
  {
    if gs != [] { JoinTriples(gs[..|gs| - 1]); }
  }

  lemma JoinNext(gs: seq<bytes>, i: nat)
    requires i < |gs|
    ensures Join(gs[..i + 1]) == Join(gs[..i]) + gs[i]
  {
    assert gs[..i + 1][..i] == gs[..i];
  }

  /** The bytes of all groups begin with those of the first. */
  lemma {:induction false} JoinPrefix(gs: seq<bytes>, i: nat)
    requires i <= |gs|
    ensures Join(gs[..i]) <= Join(gs)
    decreases |gs| - i
  {
    if i < |gs| {
      JoinPrefix(gs, i + 1);
      JoinNext(gs, i);
    } else {
      assert gs[..i] == gs;
    }
  }

  /** The bytes up to one inside group i, or at its end. */
  lemma ReadInside(gs: seq<bytes>, i: nat, r: nat)
    requires Triples(gs) && i < |gs| && r <= 3
    ensures |Join(gs)| == 3 * |gs| && Join(gs)[..3 * i + r] == Join(gs[..i]) + gs[i][..r]
  {
    JoinTriples(gs);
    JoinTriples(gs[..i]);
    JoinPrefix(gs, i + 1);
    JoinNext(gs, i);
  }

  lemma GroupValue(s: bytes, gs: seq<bytes>, i: nat)
    requires AllKnown(s) && AreGroups(s, gs) && i < |gs|
    ensures var ds := Indices(s);
      Octets(gs[i][0], gs[i][1], gs[i][2]) == Sextets(ds[4 * i], ds[4 * i + 1], ds[4 * i + 2], ds[4 * i + 3])
  {
    assert At(i);
    Combined(Digit(s[4 * i]), Digit(s[4 * i + 1]), Digit(s[4 * i + 2]), Digit(s[4 * i + 3]));
  }

  lemma ThreeBytes(w: bytes, t: bytes)
    requires |t| == 3
    ensures Be(w + t) == 0x100_0000 * Be(w) + Octets(t[0], t[1], t[2])
  {
    ValuePush(w, t[0], 256);
    ValuePush(w + [t[0]], t[1], 256);
    ValuePush(w + [t[0]] + [t[1]], t[2], 256);
    assert w + t == w + [t[0]] + [t[1]] + [t[2]];
  }

  /** Within the alphabet, the bytes of the groups have the value of their digits. */
  lemma {:induction false} GroupsValue(s: bytes, gs: seq<bytes>, i: nat)
    requires AllKnown(s) && AreGroups(s, gs) && i <= |gs|
    ensures Be(Join(gs[..i])) == Value(Indices(s)[..4 * i], 64)
  {
    if i > 0 {
      GroupsValue(s, gs, i - 1);
      NextGroup(s, gs, i - 1, Be(Join(gs[..i - 1])));
    }
  }

  lemma NextGroup(s: bytes, gs: seq<bytes>, i: nat, v: nat)
    requires AllKnown(s) && AreGroups(s, gs) && i < |gs|
    requires Be(Join(gs[..i])) == v && Value(Indices(s)[..4 * i], 64) == v
    ensures Be(Join(gs[..i + 1])) == Value(Indices(s)[..4 * (i + 1)], 64)
  {
    JoinNext(gs, i);
    ThreeBytes(Join(gs[..i]), gs[i]);
    FourDigits(Indices(s), i);
    GroupValue(s, gs, i);
  }

  /** Within the alphabet, what is read is the leading bits of the digits. */
  lemma ReadDecodes(s: bytes, n: nat)
    requires AllKnown(s) && |s| % 4 == 0 && 4 * n <= 3 * |s|
    ensures ReadBytes(s, n) == Decoded(Indices(s), n)
  {
    GroupsAre(s);
    JoinTriples(Groups(s));
    WholeValue(s, Groups(s));
    LeadingBytes(Join(Groups(s)), n, Indices(s));
  }

  lemma LeadingBytes(w: bytes, n: nat, ds: seq<nat>)
    requires n <= |w| && 8 * |w| == 6 * |ds| && Be(w) == Value(ds, 64)
    ensures w[..n] == Decoded(ds, n)
  {
    LeadPrefix(w, n);
    BeBytesOfBe(w[..n]);
  }

  lemma WholeValue(s: bytes, gs: seq<bytes>)
    requires AllKnown(s) && AreGroups(s, gs) && |s| % 4 == 0
    ensures Be(Join(gs)) == Value(Indices(s), 64)
  {
    GroupsValue(s, gs, |gs|);
    assert gs[..|gs|] == gs && Indices(s)[..4 * |gs|] == Indices(s);
  }

  /** The padding makes the result end with a group, before the last group. */
  predicate Overruns(s: bytes)
  {
    TrailingPads(s) > 0 && TrailingPads(s) % 3 == 0
  }

  /** How many bytes are written: one more than the result if it ends with a group too early,
      since the end is not looked for after the third byte of a group. */
  function Touched(s: bytes, len: nat): (n: nat)
    ensures 4 * n <= 3 * |s|
  {
    match Count(s, len)
    case None => 0
    case Some(c) => if Overruns(s) then c + 1 else c
  }

  /** A buffer of len bytes is overrun exactly if the result fills it and the padding is a
      non-zero multiple of three; and then by one byte. */
  lemma TouchesPast(s: bytes, len: nat)
    ensures Touched(s, len) > len <==> Count(s, len) == Some(len) && Overruns(s)
    ensures Touched(s, len) <= len + 1
    ensures Touched(s, len) > len <==>
      |s| % 4 == 0 && Overruns(s) && 3 * (|s| / 4) == len + TrailingPads(s)
  {
  }

  /** `A===` decodes to nothing and writes a byte. */
  lemma TouchesPastExample()
    ensures Count([65, PAD, PAD, PAD], 0) == Some(0) && Touched([65, PAD, PAD, PAD], 0) == 1
  {
    var s: bytes := [65];
    PadsAtEnd(s, 3);
    assert s + Pads(3) == [65, PAD, PAD, PAD];
  }

  /** The scan from the end, into the memory before the buffer if need be. */
  method CountPads(memory: bytes) returns (p: nat)
    ensures p == TrailingPads(memory)
  {
    p := 0;
    assert memory[..|memory|] == memory;
    while p < |memory| && memory[|memory| - 1 - p] == PAD
      invariant p <= |memory| && TrailingPads(memory) == p + TrailingPads(memory[..|memory| - p])
    {
      assert memory[..|memory| - p][..|memory| - p - 1] == memory[..|memory| - (p + 1)];
      p := p + 1;
    }
  }

  /** What lies before the buffer matters only if the buffer is all padding. */
  lemma {:induction false} PadsBefore(before: bytes, s: bytes)
    ensures TrailingPads(s) < |s| ==> TrailingPads(before + s) == TrailingPads(s)
    ensures TrailingPads(s) == |s| ==> TrailingPads(before + s) >= |s|
  {
    if s != [] && s[|s| - 1] == PAD {
      PadsBefore(before, s[..|s| - 1]);
      assert (before + s)[..|before + s| - 1] == before + s[..|s| - 1];
    }
  }

  const SIZE_T: nat := 0x1_0000_0000_0000_0000

  /** The count before it wraps: with more padding before the buffer it is below zero anyway. */
  lemma CountBefore(before: bytes, s: bytes, len: nat)
    requires |s| > 0 && |s| % 4 == 0
    ensures var d := 3 * (|s| / 4) - TrailingPads(before + s);
      Count(s, len) == if d < 0 || d > len then None else Some(d)
  {
    PadsBefore(before, s);
  }

  /** A count below zero wraps to one that no buffer has. */
  lemma CountWraps(before: bytes, s: bytes, len: nat)
    requires |s| > 0 && |s| % 4 == 0 && |before| + |s| + len < SIZE_T
    ensures var c := (3 * (|s| / 4) - TrailingPads(before + s)) % SIZE_T;
      Count(s, len) == if c > len then None else Some(c)
  {
    CountBefore(before, s, len);
    WrapDown(3 * (|s| / 4) - TrailingPads(before + s), len);
  }

  lemma WrapDown(d: int, len: nat)
    requires len < d + SIZE_T && d < SIZE_T
    ensures d < 0 ==> d % SIZE_T > len
    ensures d >= 0 ==> d % SIZE_T == d
  {
    if d >= 0 { ModUnique(d, SIZE_T, 0, d); } else { ModUnique(d, SIZE_T, -1, d + SIZE_T); }
  }

  method ReadGroup(table: ReverseTable, s: bytes, i: nat, ghost gs: seq<bytes>) returns (x: byte, y: byte, z: byte)
    requires table.Built() && 4 * (i + 1) <= |s| && AreGroups(s, gs)
    ensures [x, y, z] == gs[i]
  {
    var a, b := table.iT64[s[4 * i]], table.iT64[s[4 * i + 1]];
    var c, d := table.iT64[s[4 * i + 2]], table.iT64[s[4 * i + 3]];
    x, y, z := First(a, b), Second(b, c), Third(c, d);
    assert At(i);
  }

  /** The first bytes are w, the others are those of o. */
  ghost predicate Filled(out: array<byte>, w: bytes, o: bytes)
    reads out
  {
    |w| <= out.Length == |o| && out[..|w|] == w && out[|w|..] == o[|w|..]
  }

  method Append(out: array<byte>, at: nat, x: byte, ghost w: bytes, ghost o: bytes)
    requires Filled(out, w, o) && at == |w| < out.Length
    modifies out
    ensures Filled(out, w + [x], o)
  {
    out[at] := x;
    assert out[..at + 1] == w + [x];
  }

  /** One group: true if the end was seen. */
  method WriteGroupBytes(table: ReverseTable, s: bytes, out: array<byte>, c: nat, i: nat, ghost gs: seq<bytes>,
                         ghost o: bytes)
    returns (done: bool)
    requires table.Built() && table.iT64 != out && AreGroups(s, gs) && i < |gs|
    requires 3 * i <= c && Filled(out, Join(gs[..i]), o) && |Join(gs[..i])| == 3 * i && 3 * i < out.Length
    requires c <= out.Length
    modifies out
    ensures done <==> c <= 3 * i + 2
    ensures done && c == 3 * i + 2 ==> Filled(out, Join(gs[..i]) + gs[i][..2], o)
    ensures done && c < 3 * i + 2 ==> Filled(out, Join(gs[..i]) + gs[i][..1], o)
    ensures !done ==> Filled(out, Join(gs[..i + 1]), o)
  {
    ghost var w := Join(gs[..i]);
    JoinNext(gs, i);
    var x, y, z := ReadGroup(table, s, i, gs);
    Append(out, 3 * i, x, w, o);
    assert gs[i][..1] == [x] && gs[i][..2] == [x] + [y] && gs[i] == [x] + [y] + [z];
    if 3 * i + 1 >= c {
      return true;
    }
    Append(out, 3 * i + 1, y, w + [x], o);
    assert w + [x] + [y] == w + gs[i][..2];
    if 3 * i + 2 >= c {
      return true;
    }
    Append(out, 3 * i + 2, z, w + [x] + [y], o);
    assert w + [x] + [y] + [z] == w + gs[i];
    return false;
  }

  /** What is written for a count c. */
  ghost function WrittenFor(s: bytes, c: nat): nat
  {
    c + if 4 * c < 3 * |s| && c % 3 == 0 then 1 else 0
  }

  /** The loop over groups, for a count c. */
  method ReadGroups(table: ReverseTable, s: bytes, out: array<byte>, c: nat, ghost gs: seq<bytes>)
    requires table.Built() && table.iT64 != out && |s| % 4 == 0 && |s| > 0 && 4 * c <= 3 * |s|
    requires WrittenFor(s, c) <= out.Length && AreGroups(s, gs)
    modifies out
    ensures |Join(gs)| == 3 * |gs| && Filled(out, Join(gs)[..WrittenFor(s, c)], old(out[..]))
  {
    ghost var o := out[..];
    JoinTriples(gs);
    assert gs[..|gs|] == gs;
    var n := |s| / 4;
    for i := 0 to n
      invariant 3 * i <= c && Filled(out, Join(gs[..i]), o)
    {
      JoinTriples(gs[..i]);
      ReadInside(gs, i, 1);
      ReadInside(gs, i, 2);
      var done := WriteGroupBytes(table, s, out, c, i, gs, o);
      if done {
        break;
      }
    }
  }

  /** `Base64ToByteStream`; `before` is the memory in front of the input. */
  method Decode(table: ReverseTable, before: bytes, s: bytes, out: array<byte>, len: nat) returns (count: nat)
    requires table.Valid() && table.iT64 != out && |before| + |s| + len < SIZE_T
    requires Touched(s, len) <= out.Length
    modifies table, table.iT64, out
    ensures table.Valid() && table.Built()
    ensures count == match Count(s, len) case Some(c) => c case None => 0
    ensures Count(s, len).Some? ==> out[..Touched(s, len)] == ReadBytes(s, Touched(s, len))
    ensures Count(s, len).Some? && AllKnown(s) ==> out[..count] == Decoded(Indices(s), count)
    ensures out[Touched(s, len)..] == old(out[Touched(s, len)..])
  {
    table.Ready();
    var n, m := |s| / 4, |s| % 4;
    if |s| == 0 || m != 0 {
      return 0;
    }
    var pads := CountPads(before + s);
    CountWraps(before, s, len);
    count := (3 * n - pads) % 0x1_0000_0000_0000_0000;
    if count > len {
      return 0;
    }
    WriteAll(table, s, out, len, count);
  }

  method WriteAll(table: ReverseTable, s: bytes, out: array<byte>, ghost len: nat, count: nat)
    requires table.Built() && table.iT64 != out && Count(s, len) == Some(count) && Touched(s, len) <= out.Length
    modifies out
    ensures out[..Touched(s, len)] == ReadBytes(s, Touched(s, len))
    ensures AllKnown(s) ==> out[..count] == Decoded(Indices(s), count)
    ensures out[Touched(s, len)..] == old(out[Touched(s, len)..])
  {
    ghost var n := Touched(s, len);
    TouchedIs(s, len, count);
    ghost var gs := GroupsOf(s, n);
    ReadGroups(table, s, out, count, gs);
    Prefix(s, n, count);
    assert out[..count] == out[..n][..count];
  }

  lemma TouchedIs(s: bytes, len: nat, c: nat)
    requires Count(s, len) == Some(c)
    ensures Touched(s, len) == WrittenFor(s, c)
  {
    PadsModThree(|s| / 4, TrailingPads(s));
  }

  lemma PadsModThree(n: nat, p: nat)
    requires 3 * n >= p
    ensures (3 * n - p) % 3 == 0 <==> p % 3 == 0
  {
  }

  lemma GroupsOf(s: bytes, n: nat) returns (gs: seq<bytes>)
    requires |s| % 4 == 0 && 4 * n <= 3 * |s|
    ensures AreGroups(s, gs) && |Join(gs)| == 3 * |gs| && ReadBytes(s, n) == Join(gs)[..n]
  {
    GroupsAre(s);
    JoinTriples(Groups(s));
    gs := Groups(s);
  }

  lemma Prefix(s: bytes, n: nat, c: nat)
    requires |s| % 4 == 0 && 4 * n <= 3 * |s| && c <= n
    ensures AllKnown(s) ==> ReadBytes(s, n)[..c] == Decoded(Indices(s), c)
  {
    if AllKnown(s) {
      ReadDecodes(s, c);
      ReadLess(s, n, c);
    }
  }

  lemma ReadLess(s: bytes, n: nat, c: nat)
    requires |s| % 4 == 0 && 4 * n <= 3 * |s| && c <= n
    ensures ReadBytes(s, n)[..c] == ReadBytes(s, c)
  {
    GroupsAre(s);
    JoinTriples(Groups(s));
    var w := Join(Groups(s));
    assert w[..n][..c] == w[..c];
  }

  //
  // Round trip
  //

  function ZeroDigits(n: nat): seq<nat>
  {
    seq(n, _ => 0)
  }

  lemma {:induction false} PadsAtEnd(s: bytes, p: nat)
    requires s == [] || s[|s| - 1] != PAD
    ensures TrailingPads(s + Pads(p)) == p
  {
    if p == 0 {
      assert s + Pads(0) == s;
    } else {
      PadsAtEnd(s, p - 1);
      assert (s + Pads(p))[..|s| + p - 1] == s + Pads(p - 1);
    }
  }

  lemma EncodedFits(s: bytes)
    ensures Lead(Be(s), 8 * |s|, 6 * Size(|s|)) < Pow(64, Size(|s|))
  {
    var n, m := |s|, Size(|s|);
    LeadMultiple(Be(s), 8 * n, 6 * m - 8 * n);
    BeBound(s);
    PowerOfTwoPower(8, 256, n);
    PowerOfTwoPower(6, 64, m);
    PowAdd(2, 8 * n, 6 * m - 8 * n);
    MulStrict(Be(s), Pow(256, n), Pow(2, 6 * m - 8 * n));
  }

  lemma IndicesOfLetters(ds: seq<nat>, p: nat, t: bytes)
    requires (forall i :: 0 <= i < |ds| ==> ds[i] < 64) && t == Letters(ds) + Pads(p)
    ensures AllKnown(t) && Indices(t) == ds + ZeroDigits(p)
  {
    forall i | 0 <= i < |t|
      ensures Index(t[i]) == Some(if i < |ds| then ds[i] else 0)
    {
      if i < |ds| { IndexOfLetter(ds[i]); }
    }
  }

  lemma EncodedKnown(s: bytes)
    ensures AllKnown(Encoded(s))
    ensures Indices(Encoded(s)) == EncodedDigits(s) + ZeroDigits(BufferSize(|s|) - Size(|s|))
  {
    IndicesOfLetters(EncodedDigits(s), BufferSize(|s|) - Size(|s|), Encoded(s));
  }

  lemma Sizes(n: nat)
    ensures 8 * n <= 6 * Size(n) && Size(n) <= BufferSize(n)
  {
  }

  /** Digits that spell the leading bits of v go on spelling them with zeros appended. */
  lemma PaddedDigits(v: nat, n: nat, ds: seq<nat>)
    requires Lead(v, 8 * n, 6 * Size(n)) < Pow(64, Size(n)) && ds == Digits(Lead(v, 8 * n, 6 * Size(n)), 64, Size(n))
    ensures Value(ds + ZeroDigits(BufferSize(n) - Size(n)), 64) == Lead(v, 8 * n, 6 * BufferSize(n))
  {
    ValueOfDigits(Lead(v, 8 * n, 6 * Size(n)), 64, Size(n));
    Sizes(n);
    PaddedValue(v, 8 * n, ds, Size(n), BufferSize(n));
  }

  /** The signs of an encoding, read back as digits, are the bits of s with zeros after them. */
  lemma EncodedValue(s: bytes)
    ensures AllKnown(Encoded(s)) && Value(Indices(Encoded(s)), 64) == Lead(Be(s), 8 * |s|, 6 * BufferSize(|s|))
  {
    EncodedKnown(s);
    EncodedFits(s);
    PaddedDigits(Be(s), |s|, EncodedDigits(s));
  }

  lemma DecodedValue(s: bytes)
    ensures AllKnown(Encoded(s)) && Goal(Indices(Encoded(s)), |s|) == Be(s)
  {
    EncodedValue(s);
    LeadBack(Be(s), 8 * |s|, 6 * BufferSize(|s|) - 8 * |s|);
  }

  /** Zero digits go on reading the zeros past the end. */
  lemma {:induction false} PaddedValue(v: nat, k: nat, ds: seq<nat>, m: nat, e: nat)
    requires |ds| == m <= e && k <= 6 * m && Value(ds, 64) == Lead(v, k, 6 * m)
    ensures Value(ds + ZeroDigits(e - m), 64) == Lead(v, k, 6 * e)
    decreases e
  {
    if e == m {
      assert ds + ZeroDigits(0) == ds;
    } else {
      PaddedValue(v, k, ds, m, e - 1);
      assert ds + ZeroDigits(e - m) == (ds + ZeroDigits(e - 1 - m)) + [0];
      ValuePush(ds + ZeroDigits(e - 1 - m), 0, 64);
      SixZeros(v, k, 6 * (e - 1));
    }
  }

  lemma SixZeros(v: nat, k: nat, a: nat)
    requires k <= a
    ensures Lead(v, k, a + 6) == 64 * Lead(v, k, a)
  {
    assert Pow(2, 6) == 64;
    LeadBeyond(v, k, a, 6);
  }

  lemma CountOfEncoded(s: bytes, len: nat)
    requires |s| <= len && s != []
    ensures Count(Encoded(s), len) == Some(|s|) && !Overruns(Encoded(s))
  {
    PadsAtEnd(Letters(EncodedDigits(s)), BufferSize(|s|) - Size(|s|));
  }

  /** Decoding the encoding of s, with room for it, gives s and its length. */
  lemma RoundTrip(s: bytes, len: nat)
    requires |s| <= len && s != []
    ensures Count(Encoded(s), len) == Some(|s|) && AllKnown(Encoded(s)) && Decoded(Indices(Encoded(s)), |s|) == s
  {
    CountOfEncoded(s, len);
    DecodedValue(s);
    BeBytesOfBe(s);
  }

  /** The alphabet. */
  lemma Alphabet(d: nat)
    requires d < 64
    ensures d < 26 ==> Letter(d) == "ABCDEFGHIJKLMNOPQRSTUVWXYZ"[d] as int
    ensures 26 <= d < 52 ==> Letter(d) == "abcdefghijklmnopqrstuvwxyz"[d - 26] as int
    ensures 52 <= d ==> Letter(d) == "0123456789-~"[d - 52] as int
    ensures PAD == '=' as int
  {
  }

  /** The letters and padding signs of an encoding are the numeral, in base 64, of the input followed by
      zero bits. */
  lemma EncodedNumber(s: bytes)
    ensures var t := Encoded(s);
      && |t| % 4 == 0 && 3 * |t| / 4 >= |s| && AllKnown(t)
      && Value(Indices(t), 64) == Be(s) * Pow(2, 6 * |t| - 8 * |s|)
  {
    EncodedValue(s);
    LeadMultiple(Be(s), 8 * |s|, 6 * BufferSize(|s|) - 8 * |s|);
  }
}
