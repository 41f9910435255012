/** The byte-limb Poly1305 authenticator: 17 radix-256 limbs, lazy reduction modulo
    2^130 - 5, a branch-free final reduction and a buffer for partial blocks. Its
    specification is the integer arithmetic of section 2.5 of RFC 8439. */
module Poly1305 {
  import opened Num
  import opened Bits

  /** `unsigned short`, and the narrowest `unsigned long`: every assignment to a variable
      of these types is checked to stay in range. */
  type u16 = x: int | 0 <= x < 0x1_0000
  type u32 = x: int | 0 <= x < 0x1_0000_0000

  const P: nat := 0x3_FFFF_FFFF_FFFF_FFFF_FFFF_FFFF_FFFF_FFFB
  const TWO_128: nat := 0x1_0000_0000_0000_0000_0000_0000_0000_0000
  const TWO_130: nat := 0x4_0000_0000_0000_0000_0000_0000_0000_0000
  const TWO_136: nat := 0x100_0000_0000_0000_0000_0000_0000_0000_0000

  /** The largest sum of limb products: 17 products of two bytes, each scaled by 320. */
  const MAX_ROW: nat := 353_736_000

  lemma Powers()
    ensures Pow(256, 16) == TWO_128
    ensures Pow(256, 17) == TWO_136 == 64 * P + 320
  {
    assert Pow(256, 2) == 65536;
    PowAdd(256, 2, 2);
    PowAdd(256, 4, 4);
    PowAdd(256, 8, 8);
    PowAdd(256, 16, 1);
  }

  //
  // Carry propagation
  //

  /** One step of a carry chain: digit d and carry c replace the column sum v. A pending
      carry counts as one more limb. */
  lemma CarryStep(done: seq<nat>, d: nat, c: nat, v: nat)
    requires v == d + 256 * c
    ensures Le((done + [d]) + [c]) == Le(done + [v])
  {
    LePush(done + [d], c);
    LePush(done, d);
    LePush(done, v);
    CarryArithmetic(d, c, v, Pow(256, |done|));
  }

  lemma CarryArithmetic(d: nat, c: nat, v: nat, p: nat)
    requires v == d + 256 * c
    ensures d * p + c * (256 * p) == v * p
  {
  }

  /** Adding limb |done| of o to a pending carry adds that limb of o to the value. */
  lemma PushColumn(done: seq<nat>, o: seq<nat>, u: nat, v: nat)
    requires |done| < |o| && v == u + o[|done|]
    ensures Le(done + [v]) == Le(done + [u]) + Le(o[..|done| + 1]) - Le(o[..|done|])
  {
    RaiseLast(done, u, o[|done|], v);
    LeTake(o, |done|);
  }

  lemma RaiseLast(done: seq<nat>, u: nat, x: nat, v: nat)
    requires v == u + x
    ensures Le(done + [v]) == Le(done + [u]) + x * Pow(256, |done|)
  {
    LePush(done, v);
    LePush(done, u);
    RaiseArithmetic(u, x, v, Pow(256, |done|));
  }

  lemma RaiseArithmetic(u: nat, x: nat, v: nat, p: nat)
    requires v == u + x
    ensures v * p == u * p + x * p
  {
  }

  lemma CarryOne(done: seq<nat>, o: seq<nat>, u: nat, d: nat, c: nat, k: nat)
    requires |done| < |o| && u + o[|done|] == d + 256 * c
    requires Le(done + [u]) == Le(o[..|done|]) + k
    ensures Le((done + [d]) + [c]) == Le(o[..|done| + 1]) + k
  {
    var v := u + o[|done|];
    CarryStep(done, d, c, v);
    PushColumn(done, o, u, v);
  }

  lemma CarryTwo(done: seq<nat>, o: seq<nat>, w: seq<nat>, u: nat, d: nat, c: nat)
    requires |done| < |o| == |w| && u + o[|done|] + w[|done|] == d + 256 * c
    requires Le(done + [u]) == Le(o[..|done|]) + Le(w[..|done|])
    ensures Le((done + [d]) + [c]) == Le(o[..|done| + 1]) + Le(w[..|done| + 1])
  {
    var v := u + o[|done|];
    var v' := v + w[|done|];
    CarryStep(done, d, c, v');
    PushColumn(done, o, u, v);
    PushColumn(done, w, v, v');
  }

  lemma PushTop(s: seq<nat>, u: nat)
    ensures |s| == 16 ==> Le(s + [u]) == Le(s) + u * TWO_128
    ensures |s| == 17 ==> Le(s + [u]) == Le(s) + u * TWO_136
  {
    LePush(s, u);
    Powers();
  }

  lemma LeTake(s: seq<nat>, i: nat)
    requires i < |s|
    ensures Le(s[..i + 1]) == Le(s[..i]) + s[i] * Pow(256, i)
  {
    assert s[..i + 1] == s[..i] + [s[i]];
    LePush(s[..i], s[i]);
  }

  /** The value of 17 limbs, split into the low sixteen and the top one. */
  lemma LeTop(s: bytes)
    requires |s| == 17
    ensures Le(s) == Le(s[..16]) + s[16] * TWO_128
    ensures Le(s[..16]) < TWO_128
  {
    Powers();
    assert s[..17] == s;
    LeTake(s, 16);
    LeBound(s[..16]);
  }

  //
  // Block operations
  //

  /** `Block::operator +=` */
  method AddTo(a: array<byte>, b: array<byte>)
    requires a.Length == 17 && b.Length == 17 && a != b
    modifies a
    ensures Le(a[..]) == (old(Le(a[..])) + Le(b[..])) % TWO_136
  {
    ghost var o, w := a[..], b[..];
    var u: u16 := 0;
    var i := 0;
    while i < 17
      invariant 0 <= i <= 17 && u <= 1
      invariant (forall j :: i <= j < 17 ==> a[j] == o[j]) && b[..] == w
      invariant Le(a[..i] + [u]) == Le(o[..i]) + Le(w[..i])
    {
      ghost var done := a[..i];
      ghost var v := u;
      u := u + a[i] + b[i];
      a[i] := u % 256;
      u := u / 256;
      assert a[..i + 1] == done + [a[i]];
      CarryTwo(done, o, w, v, a[i], u);
      i := i + 1;
    }
    assert a[..17] == a[..] && o[..17] == o && w[..17] == w;
    DropCarry(a[..], u, Le(o) + Le(w));
  }

  lemma DropCarry(s: bytes, u: nat, v: nat)
    requires |s| == 17 && Le(s + [u]) == v
    ensures Le(s) == v % TWO_136
  {
    PushTop(s, u);
    Powers();
    LeBound(s);
    ModUnique(v, TWO_136, u, Le(s));
  }

  /** The first carry pass of `Block::operator %=`, over the sixteen low limbs. */
  method CarryPass(a: array<byte>, hr: array<u32>) returns (u: u32)
    requires a.Length == 17 && hr.Length == 17
    requires forall i :: 0 <= i < 17 ==> hr[i] <= MAX_ROW
    modifies a
    ensures u <= 1_400_000
    ensures Le(a[..16]) + u * TWO_128 == Le(hr[..16])
  {
    ghost var t := hr[..];
    u := 0;
    var i := 0;
    while i < 16
      invariant 0 <= i <= 16 && u <= 1_400_000
      invariant Le(a[..i] + [u]) == Le(t[..i])
    {
      ghost var done := a[..i];
      ghost var v := u;
      u := u + hr[i];
      a[i] := u % 256;
      u := u / 256;
      assert a[..i + 1] == done + [a[i]];
      CarryOne(done, t, v, a[i], u, 0);
      i := i + 1;
    }
    PushTop(a[..16], u);
  }

  /** The second pass of `Block::operator %=`: a value is added into the sixteen low limbs. */
  method AddPass(a: array<byte>, x: u32) returns (u: u32)
    requires a.Length == 17 && x <= 444_000_000
    modifies a
    ensures u <= 1 && a[16] == old(a[16])
    ensures Le(a[..16]) + u * TWO_128 == old(Le(a[..16])) + x
  {
    ghost var low := a[..16];
    u := x;
    var i := 0;
    while i < 16
      invariant 0 <= i <= 16
      invariant u <= 444_000_000 && (i >= 1 ==> u <= 1_740_000) && (i >= 2 ==> u <= 7000)
      invariant (i >= 3 ==> u <= 100) && (i >= 4 ==> u <= 1)
      invariant (forall k :: i <= k < 16 ==> a[k] == low[k]) && a[16] == old(a[16])
      invariant Le(a[..i] + [u]) == Le(low[..i]) + x
    {
      ghost var done := a[..i];
      ghost var v := u;
      u := u + a[i];
      a[i] := u % 256;
      u := u / 256;
      assert a[..i + 1] == done + [a[i]];
      CarryOne(done, low, v, a[i], u, x);
      i := i + 1;
    }
    assert low[..16] == low;
    PushTop(a[..16], u);
  }

  /** `Block::operator %=`: what lies above bit 130 comes back five times. */
  method Reduce(a: array<byte>, hr: array<u32>)
    requires a.Length == 17 && hr.Length == 17
    requires forall i :: 0 <= i < 17 ==> hr[i] <= MAX_ROW
    modifies a
    ensures Le(a[..]) == Le(hr[..]) % TWO_130 + 5 * (Le(hr[..]) / TWO_130)
    ensures Le(a[..]) < TWO_130 + 0x2_0000_0000
  {
    ghost var t := hr[..];
    var u := CarryPass(a, hr);
    assert t[..17] == t;
    LeTake(t, 16);
    Powers();
    u := u + hr[16];
    ghost var top, low := u, a[..16];
    a[16] := u % 4;
    assert a[..16] == low;
    u := u / 4;
    u := u + u * 4;
    u := AddPass(a, u);
    ghost var low' := a[..16];
    a[16] := a[16] + u;
    assert a[..16] == low';
    ReduceValue(a[..], low, u, top, Le(t));
  }

  lemma ReduceValue(a: bytes, low: bytes, u: nat, top: nat, t: nat)
    requires |a| == 17 && |low| == 16
    requires top < 400_000_000
    requires t == Le(low) + top * TWO_128
    requires a[16] == top % 4 + u
    requires Le(a[..16]) + u * TWO_128 == Le(low) + 5 * (top / 4)
    ensures Le(a) == t % TWO_130 + 5 * (t / TWO_130)
    ensures Le(a) < TWO_130 + 0x2_0000_0000
  {
    Powers();
    LeTop(a);
    LeBound(low);
    ModUnique(t, TWO_130, top / 4, Le(low) + (top % 4) * TWO_128);
  }

  /** `Block::operator ~`: adding 2^136 - p leaves the top bit clear exactly when the value
      was at least p; the mask then selects the difference or the original limbs. */
  method Freeze(a: array<byte>)
    requires a.Length == 17 && Le(a[..]) < 2 * P
    modifies a
    ensures Le(a[..]) == old(Le(a[..])) % P
  {
    ghost var o := a[..];
    var orig := new byte[17](i requires 0 <= i < a.Length reads a => a[i]);
    assert orig[..] == o;
    AddMinusP(a);
    assert orig[..] == o;
    Frozen(o, a[..]);
    Select(a, orig, NegatedSign(a[16]));
  }

  method AddMinusP(a: array<byte>)
    requires a.Length == 17
    modifies a
    ensures Le(a[..]) == (old(Le(a[..])) + (TWO_136 - P)) % TWO_136
  {
    var minusp := new byte[17](i => if i == 0 then 0x05 else if i == 16 then 0xfc else 0x00);
    MinusPValue(minusp[..]);
    AddTo(a, minusp);
  }

  /** `-(h[16] >> 7)` as a byte. */
  function NegatedSign(top: byte): (neg: byte)
    ensures neg == if top >= 128 then 255 else 0
  {
    var sign: int := top / 128;
    (256 - sign) % 256
  }

  lemma Frozen(o: bytes, s: bytes)
    requires |s| == 17 && Le(o) < 2 * P && Le(s) == (Le(o) + (TWO_136 - P)) % TWO_136
    ensures Le(if s[16] >= 128 then o else s) == Le(o) % P
  {
    LeTop(s);
    FreezeValue(Le(o), Le(s), Le(s[..16]), s[16]);
  }

  /** The masked selection of `Block::operator ~`. */
  method Select(a: array<byte>, orig: array<byte>, neg: byte)
    requires a.Length == 17 && orig.Length == 17 && a != orig
    requires neg == 0 || neg == 255
    modifies a
    ensures a[..] == if neg == 255 then orig[..] else old(a[..])
  {
    ghost var s := a[..];
    var i := 0;
    while i < 17
      invariant 0 <= i <= 17
      invariant forall j :: 0 <= j < i ==> a[j] == if neg == 255 then orig[j] else s[j]
      invariant forall j :: i <= j < 17 ==> a[j] == s[j]
    {
      SelectByMask(s[i], orig[i], neg);
      a[i] := XorByte(a[i], AndByte(neg, XorByte(orig[i], a[i])));
      i := i + 1;
    }
  }

  /** The limbs of `minusp` are those of 2^136 - p. */
  lemma MinusPValue(s: bytes)
    requires |s| == 17 && s[0] == 5 && s[16] == 0xfc && forall i :: 1 <= i < 16 ==> s[i] == 0
    ensures Le(s) == TWO_136 - P
  {
    var low: bytes := [5];
    assert s == (low + Zeros(15)) + [0xfc];
    PushTop(low + Zeros(15), 0xfc);
    LeZeros(low, 15);
    LeFront(5, []);
    assert low == [5] + [];
  }

  lemma SelectByMask(d: byte, o: byte, neg: byte)
    requires neg == 0 || neg == 255
    ensures XorByte(d, AndByte(neg, XorByte(o, d))) == if neg == 255 then o else d
  {
    if neg == 0 {
      XorZero(d);
    } else {
      AllOnes(XorByte(o, d), neg);
      XorComm(d, XorByte(o, d));
    }
  }

  lemma AllOnes(x: byte, m: nat)
    requires m == 255
    ensures And(m, x) == x
  {
    Pow2Literals();
    AndOnes(x, 8, m + 1);
    AndComm(x, m);
  }

  lemma FreezeValue(v: nat, s: nat, low: nat, top: byte)
    requires v < 2 * P && low < TWO_128
    requires s == (v + (TWO_136 - P)) % TWO_136 && s == low + top * TWO_128
    ensures (if top >= 128 then v else s) == v % P
  {
    if v < P {
      ModUnique(v + (TWO_136 - P), TWO_136, 0, v + (TWO_136 - P));
    } else {
      ModUnique(v + (TWO_136 - P), TWO_136, 1, v - P);
      ModUnique(v, P, 1, v - P);
    }
  }

  //
  // Limb multiplication
  //

  /** The contribution of limb j of h to limb i of the product: a product that overflows
      limb 16 comes back 17 limbs lower scaled by 320, since 2^136 = 320 modulo p. */
  function Term(h: bytes, r: bytes, i: nat, j: nat): (t: nat)
    requires |h| == 17 && |r| == 17 && i < 17 && j < 17
    ensures t <= 20_808_000
  {
    if j <= i then Mul8(h[j], r[i - j]) else 320 * Mul8(h[j], r[i + 17 - j])
  }

  function Mul8(x: byte, y: byte): (z: nat)
    ensures z == x * y && z <= 65025
  {
    MulMono(x, 255, y);
    x * y
  }

  function Row(h: bytes, r: bytes, i: nat, m: nat): (s: nat)
    requires |h| == 17 && |r| == 17 && i < 17 && m <= 17
    ensures s <= m * 20_808_000
  {
    if m == 0 then 0 else Row(h, r, i, m - 1) + Term(h, r, i, m - 1)
  }

  function Rows(h: bytes, r: bytes, m: nat): (s: seq<nat>)
    requires |h| == 17 && |r| == 17 && m <= 17
    ensures |s| == 17
  {
    seq(17, i requires 0 <= i < 17 => Row(h, r, i, m))
  }

  /** The nested limb loops of `Poly1305::Blocks`. */
  method MulRows(h: array<byte>, r: array<byte>, hr: array<u32>)
    requires h.Length == 17 && r.Length == 17 && hr.Length == 17
    modifies hr
    ensures hr[..] == Rows(h[..], r[..], 17)
    ensures forall i :: 0 <= i < 17 ==> hr[i] <= MAX_ROW
  {
    ghost var hs, rs := h[..], r[..];
    var i := 0;
    while i < 17
      invariant 0 <= i <= 17
      invariant forall k :: 0 <= k < i ==> hr[k] == Row(hs, rs, k, 17)
    {
      var u: u32 := 0;
      var j := 0;
      while j <= i
        invariant 0 <= j <= i + 1
        invariant u == Row(hs, rs, i, j)
      {
        u := u + Mul8(h[j], r[i - j]);
        j := j + 1;
      }
      while j < 17
        invariant i + 1 <= j <= 17
        invariant u == Row(hs, rs, i, j)
      {
        var v: u32 := Mul8(h[j], r[i + 17 - j]);
        v := v * 256 + v * 64;
        u := u + v;
        j := j + 1;
      }
      hr[i] := u;
      i := i + 1;
    }
  }

  lemma {:induction false} LeSum(s: seq<nat>, t: seq<nat>, w: seq<nat>)
    requires |s| == |t| == |w|
    requires forall i :: 0 <= i < |s| ==> w[i] == s[i] + t[i]
    ensures Le(w) == Le(s) + Le(t)
  {
    if s != [] { LeSum(s[1..], t[1..], w[1..]); }
  }

  lemma {:induction false} LeScale(s: seq<nat>, k: nat, w: seq<nat>)
    requires |s| == |w|
    requires forall i :: 0 <= i < |s| ==> w[i] == k * s[i]
    ensures Le(w) == k * Le(s)
  {
    if s != [] {
      LeScale(s[1..], k, w[1..]);
      MulDist(k, s[0], 256 * Le(s[1..]));
      MulAssoc(k, 256, Le(s[1..]));
    }
  }

  /** The column of all contributions of limb m of h. */
  function Column(h: bytes, r: bytes, m: nat): (s: seq<nat>)
    requires |h| == 17 && |r| == 17 && m < 17
    ensures |s| == 17
  {
    seq(17, i requires 0 <= i < 17 => Term(h, r, i, m))
  }

  /** The part of a column that wraps around past limb 16 comes back times 320. */
  lemma ColumnParts(h: bytes, r: bytes, m: nat)
    requires |h| == 17 && |r| == 17 && m < 17
    ensures Le(Column(h, r, m)) == (320 * h[m]) * Le(r[17 - m..]) + Pow(256, m) * (h[m] * Le(r[..17 - m]))
  {
    var c, lo, hi := Column(h, r, m), r[..17 - m], r[17 - m..];
    var x: nat := h[m];
    assert c == c[..m] + c[m..];
    LeConcat(c[..m], c[m..]);
    forall i | 0 <= i < m ensures c[i] == (320 * x) * hi[i] {
      MulAssoc(320, x, hi[i]);
    }
    LeScale(hi, 320 * x, c[..m]);
    LeScale(lo, x, c[m..]);
  }

  lemma ColumnValue(h: bytes, r: bytes, m: nat) returns (q: nat)
    requires |h| == 17 && |r| == 17 && m < 17
    ensures Le(Column(h, r, m)) + P * q == h[m] * Pow(256, m) * Le(r)
  {
    var x: nat, lo: nat, hi: nat := h[m], Le(r[..17 - m]), Le(r[17 - m..]);
    ColumnParts(h, r, m);
    assert r == r[..17 - m] + r[17 - m..];
    LeConcat(r[..17 - m], r[17 - m..]);
    PowAdd(256, m, 17 - m);
    Powers();
    q := ColumnArithmetic(Le(Column(h, r, m)), x, lo, hi, Pow(256, m), Pow(256, 17 - m), Le(r));
  }

  lemma ColumnArithmetic(c: nat, x: nat, lo: nat, hi: nat, p: nat, p': nat, r: nat) returns (q: nat)
    requires p * p' == 64 * P + 320 && c == (320 * x) * hi + p * (x * lo) && r == lo + p' * hi
    ensures c + P * q == x * p * r
  {
    var y: nat := x * hi;
    q := 64 * y;
    MulAssoc(320, x, hi);
    calc {
      x * p * (lo + p' * hi);
      { MulDist(x * p, lo, p' * hi); }
      x * p * lo + x * p * (p' * hi);
      { assert x * p * lo == p * (x * lo); assert x * p * (p' * hi) == (p * p') * y; }
      p * (x * lo) + (64 * P + 320) * y;
    }
  }

  lemma RowsArithmetic(w: nat, q0: nat, x: nat, c: nat, q1: nat, b: nat, p: nat, r: nat)
    requires w + P * q0 == x * r && c + P * q1 == b * p * r
    ensures (w + c) + P * (q0 + q1) == (x + b * p) * r
  {
    assert (x + b * p) * r == x * r + b * p * r;
  }

  /** Multiplying the limbs row by row multiplies the values modulo p. */
  lemma {:induction false} RowsValue(h: bytes, r: bytes, m: nat) returns (q: nat)
    requires |h| == 17 && |r| == 17 && m <= 17
    ensures Le(Rows(h, r, m)) + P * q == Le(h[..m]) * Le(r)
  {
    if m == 0 {
      assert Rows(h, r, 0) == [] + Zeros(17);
      LeZeros([], 17);
      q := 0;
    } else {
      var q0 := RowsValue(h, r, m - 1);
      q := RowStep(h, r, m - 1, q0);
    }
  }

  lemma RowStep(h: bytes, r: bytes, m: nat, q0: nat) returns (q: nat)
    requires |h| == 17 && |r| == 17 && m < 17
    requires Le(Rows(h, r, m)) + P * q0 == Le(h[..m]) * Le(r)
    ensures Le(Rows(h, r, m + 1)) + P * q == Le(h[..m + 1]) * Le(r)
  {
    var q1 := ColumnValue(h, r, m);
    LeSum(Rows(h, r, m), Column(h, r, m), Rows(h, r, m + 1));
    LeTake(h, m);
    q := q0 + q1;
    var b: nat := h[m];
    RowsArithmetic(Le(Rows(h, r, m)), q0, Le(h[..m]), Le(Column(h, r, m)), q1, b, Pow(256, m), Le(r));
  }

  lemma RowsWhole(h: bytes, r: bytes) returns (q: nat)
    requires |h| == 17 && |r| == 17
    ensures Le(Rows(h, r, 17)) + P * q == Le(h) * Le(r)
  {
    q := RowsValue(h, r, 17);
    assert h[..17] == h;
  }

  //
  // Specification
  //

  /** The accumulator of section 2.5.1 of RFC 8439: sixteen bytes at a time, each block read
      as a little-endian number with one more byte 0x01 on top. */
  function Accumulate(m: bytes, r: nat): nat
  {
    if m == [] then 0
    else
      var k := 16 * ((|m| - 1) / 16);
      Step(Accumulate(m[..k], r), Le(m[k..] + [1]), r)
  }

  /** One block: add, then multiply modulo p. */
  function Step(acc: nat, block: nat, r: nat): nat
  {
    ((acc + block) * r) % P
  }

  const CLAMP: nat := 0x0ffffffc_0ffffffc_0ffffffc_0fffffff

  function Tag(m: bytes, key: bytes): bytes
    requires |key| >= 32
  {
    LeBytes(Accumulate(m, And(Le(key[..16]), CLAMP)) + Le(key[16..32]), 16)
  }

  function ClampMask(): (s: bytes)
    ensures |s| == 16
  {
    [0xff, 0xff, 0xff, 0x0f, 0xfc, 0xff, 0xff, 0x0f, 0xfc, 0xff, 0xff, 0x0f, 0xfc, 0xff, 0xff, 0x0f]
  }

  lemma ClampMaskValue()
    ensures Le(ClampMask()) == CLAMP
  {
    var w: bytes := [0xfc, 0xff, 0xff, 0x0f];
    ClampWord([]);
    assert w + [] == w;
    ClampWord(w);
    ClampWord(w + w);
    LeWord(0xff, 0xff, 0xff, 0x0f, w + (w + w));
    assert ClampMask() == [0xff, 0xff, 0xff, 0x0f] + (w + (w + w));
  }

  lemma ClampWord(t: bytes)
    ensures Le([0xfc, 0xff, 0xff, 0x0f] + t) == 0x0fff_fffc + 0x1_0000_0000 * Le(t)
  {
    LeWord(0xfc, 0xff, 0xff, 0x0f, t);
  }

  lemma StepResidue(a: nat, c: nat, r: nat)
    ensures Step(a, c, r) == Step(a % P, c, r)
  {
    var b, k := a % P, a / P;
    assert (a + c) * r == (b + c) * r + P * (k * r);
    ModShift((b + c) * r, P, k * r);
  }

  lemma LastBlock(n: nat)
    requires n > 0
    ensures var k := 16 * ((n - 1) / 16); k % 16 == 0 && 1 <= n - k <= 16 && 0 <= k < n
  {
  }

  lemma WholePart(n: nat)
    ensures (n - n % 16) % 16 == 0
  {
  }

  lemma WholeSum(a: nat, b: nat)
    requires a % 16 == 0 && b % 16 == 0
    ensures (a + b) % 16 == 0
  {
  }

  lemma MessageBound(b: bytes, hi: byte)
    requires |b| == 16 && hi <= 1
    ensures Le(b + [hi]) < 2 * TWO_128
  {
    PushTop(b, hi);
    LeBound(b);
    Powers();
  }

  lemma BlockValue(v: nat, m: nat, hs: bytes, rs: bytes, t: nat, h: nat)
    requires |hs| == 17 && |rs| == 17
    requires v + m < TWO_136 && Le(hs) == (v + m) % TWO_136
    requires t == Le(Rows(hs, rs, 17)) && h == t % TWO_130 + 5 * (t / TWO_130)
    ensures h % P == Step(v, m, Le(rs))
  {
    ModUnique(v + m, TWO_136, 0, v + m);
    var q := RowsWhole(hs, rs);
    StepValue(v, m, Le(hs), Le(rs), t, q, h);
  }

  lemma StepValue(v: nat, m: nat, x: nat, r: nat, t: nat, q: nat, h: nat)
    requires x == v + m && t + P * q == x * r
    requires h == t % TWO_130 + 5 * (t / TWO_130)
    ensures h % P == Step(v, m, r)
  {
    assert t == h + P * (t / TWO_130);
    ModShift(h, P, t / TWO_130);
    ModShift(t, P, q);
  }

  /** `Block::PutKey`: the mask bytes clear what the 128-bit clamp of the standard clears. */
  function ClampKey(k: bytes): (s: bytes)
    requires |k| >= 32
    ensures |s| == 17
    ensures Le(s) == And(Le(k[..16]), CLAMP)
  {
    var low := AndBytes(k[..16], ClampMask());
    PushTop(low, 0);
    AndBytesValue(k[..16], ClampMask());
    ClampMaskValue();
    low + [0]
  }

  /** `Block::Put` of the second half of the key. */
  function PadKey(k: bytes): (s: bytes)
    requires |k| >= 32
    ensures |s| == 17
    ensures Le(s) == Le(k[16..32])
  {
    PushTop(k[16..32], 0);
    k[16..32] + [0]
  }

  /** One turn of the loop in `Blocks`: h = (h + block) * r, partially reduced. */
  method AbsorbBlock(h: array<byte>, r: array<byte>, msg: array<byte>, hr: array<u32>, b: bytes, hi: byte)
    requires h.Length == 17 && r.Length == 17 && msg.Length == 17 && hr.Length == 17
    requires h != r && h != msg && r != msg
    requires |b| == 16 && hi <= 1
    requires Le(h[..]) < TWO_130 + 0x2_0000_0000
    modifies h, msg, hr
    ensures Le(h[..]) < TWO_130 + 0x2_0000_0000
    ensures Le(h[..]) % P == Step(old(Le(h[..])), Le(b + [hi]), Le(r[..]))
  {
    ghost var h0, rs := h[..], r[..];
    forall i | 0 <= i < 17 { msg[i] := if i < 16 then b[i] else hi; }
    assert msg[..] == b + [hi] && h[..] == h0;
    MessageBound(b, hi);
    AddTo(h, msg);
    ghost var hs := h[..];
    MulRows(h, r, hr);
    assert h[..] == hs && r[..] == rs;
    ghost var t := Le(hr[..]);
    Reduce(h, hr);
    assert r[..] == rs;
    BlockValue(Le(h0), Le(b + [hi]), hs, rs, t, Le(h[..]));
  }

  /** A whole block appended to whole blocks is one more step of the accumulator. */
  lemma AccumulateBlock(m: bytes, b: bytes, r: nat)
    requires |m| % 16 == 0 && 1 <= |b| <= 16
    ensures Accumulate(m + b, r) == Step(Accumulate(m, r), Le(b + [1]), r)
  {
    var w := m + b;
    var k := 16 * ((|w| - 1) / 16);
    assert k == |m|;
    assert w[..k] == m && w[k..] == b;
    assert Accumulate(w, r) == Step(Accumulate(w[..k], r), Le(w[k..] + [1]), r);
  }

  function BlockCount(m: bytes): nat
  {
    (|m| + 15) / 16
  }

  /** The message polynomial: block i of q contributes its value times r^(q - i). */
  function Polynomial(m: bytes, r: nat): nat
  {
    if m == [] then 0
    else
      var n := if |m| < 16 then |m| else 16;
      Le(m[..n] + [1]) * Pow(r, BlockCount(m)) + Polynomial(m[n..], r)
  }

  lemma {:induction false} PolynomialBlock(m: bytes, b: bytes, r: nat)
    requires |m| % 16 == 0 && 1 <= |b| <= 16
    ensures Polynomial(m + b, r) == (Polynomial(m, r) + Le(b + [1])) * r
  {
    if m == [] {
      assert m + b == b && b[..|b|] == b && b[|b|..] == [];
      assert BlockCount(b) == 1 && Pow(r, 1) == r * Pow(r, 0);
    } else {
      PolynomialBlock(m[16..], b, r);
      PolynomialFront(m, b, r);
      PolynomialArithmetic(Le(m[..16] + [1]), Pow(r, BlockCount(m)), Polynomial(m[16..], r), Le(b + [1]), r);
    }
  }

  lemma PolynomialFront(m: bytes, b: bytes, r: nat)
    requires |m| % 16 == 0 && m != [] && 1 <= |b| <= 16
    ensures Polynomial(m + b, r) == Le(m[..16] + [1]) * (r * Pow(r, BlockCount(m))) + Polynomial(m[16..] + b, r)
  {
    var w := m + b;
    assert w[..16] == m[..16] && w[16..] == m[16..] + b;
    assert BlockCount(w) == BlockCount(m) + 1;
  }

  lemma PolynomialArithmetic(c: nat, p: nat, t: nat, b: nat, r: nat)
    ensures c * (r * p) + (t + b) * r == ((c * p + t) + b) * r
  {
    assert c * (r * p) == (c * p) * r;
    MulDistRight(c * p, t + b, r);
  }

  /** Reducing after every block, or once at the end of the polynomial, is the same. */
  lemma {:induction false} AccumulateIsPolynomial(m: bytes, r: nat)
    ensures Accumulate(m, r) == Polynomial(m, r) % P
  {
    if m != [] {
      var k := 16 * ((|m| - 1) / 16);
      LastBlock(|m|);
      AccumulateIsPolynomial(m[..k], r);
      assert m == m[..k] + m[k..];
      PolynomialBlock(m[..k], m[k..], r);
      StepOfResidue(Polynomial(m[..k], r), Polynomial(m, r), Le(m[k..] + [1]), r);
    }
  }

  /** What the clamp keeps of byte i of the key: four bits of bytes 3, 7, 11 and 15, all but two of
      bytes 4, 8 and 12, and the others whole. */
  function KeptBits(b: byte, i: nat): byte
  {
    if i % 4 == 3 then b % 16 else if i % 4 == 0 && i > 0 then b - b % 4 else b
  }

  ghost predicate IsMultiplier(r: bytes, key: bytes)
    requires |key| >= 16
  {
    |r| == 16 && forall i :: 0 <= i < 16 ==> r[i] == KeptBits(key[i], i)
  }

  /** The tag is the polynomial of the message modulo 2^130 - 5 plus the second half of the key, modulo
      2^128. */
  lemma TagValue(m: bytes, key: bytes, r: bytes)
    requires |key| >= 32 && IsMultiplier(r, key)
    ensures |Tag(m, key)| == 16
    ensures Le(Tag(m, key)) == (Polynomial(m, Le(r)) % P + Le(key[16..32])) % TWO_128
  {
    var a, n := Accumulate(m, Le(r)), 16;
    assert Tag(m, key) == LeBytes(a + Le(key[16..32]), n) by { Multiplier(key, r); }
    AccumulateIsPolynomial(m, Le(r));
    TruncatedTag(a + Le(key[16..32]), n);
  }

  lemma TruncatedTag(v: nat, n: nat)
    requires n == 16
    ensures |LeBytes(v, n)| == n && Le(LeBytes(v, n)) == v % TWO_128
  {
    Powers();
    LeOfLeBytes(v, n);
  }

  lemma TagPowers()
    ensures TWO_128 == Pow(2, 128) && P == Pow(2, 130) - 5
  {
    Pow2Literals();
    PowAdd(2, 32, 32);
    PowAdd(2, 64, 64);
    var two := 2;
    PowAdd(2, 128, two);
    assert Pow(2, two) == 4;
  }

  lemma Multiplier(key: bytes, r: bytes)
    requires |key| >= 32 && IsMultiplier(r, key)
    ensures Le(r) == And(Le(key[..16]), CLAMP)
  {
    var mask := SomeMask();
    MaskedBytes(key[..16], mask, r);
  }

  /** The clamp mask by its bytes. */
  lemma SomeMask() returns (mask: bytes)
    ensures |mask| == 16 && Le(mask) == CLAMP && forall i: nat :: i < 16 ==> mask[i] == MaskByte(i)
  {
    mask := ClampMask();
    ClampMaskValue();
    forall i: nat | i < 16
      ensures mask[i] == MaskByte(i)
    {
      MaskAt(i);
    }
  }

  function MaskByte(i: nat): byte
  {
    if i % 4 == 3 then 0x0f else if i % 4 == 0 && i > 0 then 0xfc else 0xff
  }

  lemma MaskAt(i: nat)
    requires i < 16
    ensures ClampMask()[i] == MaskByte(i)
  {
  }

  lemma MaskedBytes(k: bytes, mask: bytes, r: bytes)
    requires |k| == 16 && |mask| == 16 && IsMultiplier(r, k) && forall i: nat :: i < 16 ==> mask[i] == MaskByte(i)
    ensures Le(r) == And(Le(k), Le(mask))
  {
    forall i: nat | i < 16
      ensures r[i] == And(k[i], mask[i])
    {
      KeptByMask(k[i], i);
    }
    AndOfBytes(k, mask, r);
  }

  lemma KeptByMask(b: byte, i: nat)
    ensures And(b, MaskByte(i)) == KeptBits(b, i)
  {
    if i % 4 == 3 { MaskHalf(b); } else if i % 4 == 0 && i > 0 { MaskTwo(b); } else { MaskNone(b); }
  }

  lemma MaskNone(b: byte)
    ensures And(b, 0xff) == b
  {
    var eight := 8;
    Pow2Literals();
    AllOnesKeep(b, eight, 256);
  }

  lemma MaskHalf(b: byte)
    ensures And(b, 0x0f) == b % 16
  {
    var four := 4;
    assert Pow(2, four) == 16;
    AndOnes(b, four, 16);
  }

  lemma MaskTwo(b: byte)
    ensures And(b, 0xfc) == b - b % 4
  {
    var two, zero, ones := 2, 0, 0x3f;
    assert Pow(2, two) == 4;
    AndSplit(b % 4, b / 4, zero, ones, two, 4);
    AndNone(b % 4);
    SixBits(b / 4);
  }

  lemma SixBits(h: nat)
    requires h < 64
    ensures And(h, 0x3f) == h
  {
    var six := 6;
    assert Pow(2, six) == 64;
    AllOnesKeep(h, six, 64);
  }

  /** One more block of the data. */
  lemma AbsorbNext(acc: nat, data: bytes, r: nat, hi: byte, n: nat, v: nat, w: nat)
    requires 16 * (n + 1) <= |data| && v % P == AbsorbTo(acc, data, r, hi, n)
    requires w % P == Step(v, Le(data[16 * n..16 * n + 16] + [hi]), r)
    ensures w % P == AbsorbTo(acc, data, r, hi, n + 1)
  {
    StepResidue(v, Le(data[16 * n..16 * n + 16] + [hi]), r);
  }

  lemma StepOfResidue(before: nat, after: nat, c: nat, r: nat)
    requires after == (before + c) * r
    ensures Step(before % P, c, r) == after % P
  {
    StepResidue(before, c, r);
  }

  /** The accumulator after n whole blocks of data, each under the byte hi. */
  function AbsorbTo(acc: nat, data: bytes, r: nat, hi: byte, n: nat): nat
    requires 16 * n <= |data|
  {
    if n == 0 then acc
    else Step(AbsorbTo(acc, data, r, hi, n - 1), Le(data[16 * (n - 1)..16 * n] + [hi]), r)
  }

  lemma AccumulateNext(m: bytes, data: bytes, r: nat, i: nat)
    requires |m| % 16 == 0 && i % 16 == 0 && i + 16 <= |data|
    ensures Accumulate(m + data[..i + 16], r) == Step(Accumulate(m + data[..i], r), Le(data[i..i + 16] + [1]), r)
  {
    WholeSum(|m|, i);
    AccumulateBlock(m + data[..i], data[i..i + 16], r);
    assert (m + data[..i]) + data[i..i + 16] == m + data[..i + 16];
  }

  lemma AbsorbStep(acc: nat, data: bytes, r: nat, hi: byte, n: nat)
    requires 16 * (n + 1) <= |data|
    ensures AbsorbTo(acc, data, r, hi, n + 1) ==
      Step(AbsorbTo(acc, data, r, hi, n), Le(data[16 * n..16 * n + 16] + [hi]), r)
  {
    assert 16 * n + 16 == 16 * (n + 1);
  }

  lemma {:induction false} AbsorbIsAccumulate(m: bytes, data: bytes, r: nat, n: nat)
    requires |m| % 16 == 0 && 16 * n <= |data|
    ensures AbsorbTo(Accumulate(m, r), data, r, 1, n) == Accumulate(m + data[..16 * n], r)
  {
    if n == 0 {
      assert m + data[..0] == m;
    } else {
      var i := 16 * (n - 1);
      ModUnique(i, 16, n - 1, 0);
      AbsorbIsAccumulate(m, data, r, n - 1);
      AccumulateNext(m, data, r, i);
      AbsorbStep(Accumulate(m, r), data, r, 1, n - 1);
    }
  }

  lemma AbsorbAll(m: bytes, data: bytes, r: nat)
    requires |m| % 16 == 0 && |data| % 16 == 0
    ensures AbsorbTo(Accumulate(m, r), data, r, 1, |data| / 16) == Accumulate(m + data, r) && |m + data| % 16 == 0
  {
    AbsorbIsAccumulate(m, data, r, |data| / 16);
    assert data[..16 * (|data| / 16)] == data;
    WholeSum(|m|, |data|);
  }

  /** The high byte `m_Final ^ 1`. */
  lemma HighByte(final: byte)
    requires final <= 1
    ensures Xor(final, 1) == 1 - final
  {
    var zero := 0;
    assert Xor(zero, zero) == 0;
    XorParts(final, 1);
  }

  //
  // The streaming object
  //

  class Authenticator {
    const h: array<byte>
    const r: array<byte>
    const pad: array<byte>
    const msg: array<byte>
    const buffer: array<byte>
    const hr: array<u32>
    var leftover: nat
    var final: byte
    ghost const key: bytes
    ghost var done: bytes

    ghost predicate Shape()
      reads this
    {
      && h.Length == 17 && r.Length == 17 && pad.Length == 17 && msg.Length == 17
      && buffer.Length == 16 && hr.Length == 17
      && h != r && h != pad && h != msg && h != buffer && r != pad && r != msg && r != buffer
      && pad != msg && pad != buffer && msg != buffer
      && |key| >= 32
    }

    /** The accumulator stands, partially reduced, for the blocks of m. */
    ghost predicate Holds(m: bytes)
      reads this, h, r
    {
      && h.Length == 17 && r.Length == 17
      && Le(h[..]) < TWO_130 + 0x2_0000_0000
      && Le(h[..]) % P == Accumulate(m, Le(r[..]))
    }

    ghost predicate Core()
      reads this, h, r, pad
    {
      && Shape()
      && Le(r[..]) == And(Le(key[..16]), CLAMP) && Le(pad[..]) == Le(key[16..32])
      && final == 0 && |done| % 16 == 0 && Holds(done)
    }

    ghost predicate Valid()
      reads this, h, r, pad
    {
      Core() && leftover < 16
    }

    /** Everything fed so far: whole blocks already absorbed, then the buffered rest. */
    ghost function Contents(): bytes
      requires Valid()
      reads this, h, r, pad, buffer
    {
      done + buffer[..leftover]
    }

    /** `PutKey` clamps the first half of the key, `Put` copies the second. */
    constructor (k: bytes)
      requires |k| >= 32
      ensures Valid() && key == k && Contents() == []
      ensures fresh(h) && fresh(r) && fresh(pad) && fresh(msg) && fresh(buffer) && fresh(hr)
    {
      var clamped, copied := ClampKey(k), PadKey(k);
      h := new byte[17](_ => 0);
      r := new byte[17](i requires 0 <= i < 17 => clamped[i]);
      pad := new byte[17](i requires 0 <= i < 17 => copied[i]);
      msg := new byte[17](_ => 0);
      buffer := new byte[16](_ => 0);
      hr := new u32[17](_ => 0);
      leftover, final := 0, 0;
      key, done := k, [];
      new;
      assert h[..] == [] + Zeros(17) && r[..] == clamped && pad[..] == copied;
      LeZeros([], 17);
    }

    /** `Blocks` */
    method Blocks(data: bytes)
      requires Shape() && final <= 1
      requires Le(h[..]) < TWO_130 + 0x2_0000_0000
      modifies h, msg, hr
      ensures Le(h[..]) < TWO_130 + 0x2_0000_0000
      ensures Le(h[..]) % P == AbsorbTo(old(Le(h[..])) % P, data, Le(r[..]), 1 - final, |data| / 16)
    {
      ghost var rs, acc := r[..], Le(h[..]) % P;
      var hi := 1 - final;
      ghost var n := 0;
      var i := 0;
      while |data| - i >= 16
        invariant 0 <= i <= |data| && i == 16 * n && r[..] == rs
        invariant Le(h[..]) < TWO_130 + 0x2_0000_0000
        invariant Le(h[..]) % P == AbsorbTo(acc, data, Le(rs), hi, n)
      {
        ghost var v := Le(h[..]);
        var b := data[i..i + 16];
        AbsorbBlock(h, r, msg, hr, b, hi);
        assert r[..] == rs;
        AbsorbNext(acc, data, Le(rs), hi, n, v, Le(h[..]));
        i, n := i + 16, n + 1;
      }
      assert n == |data| / 16;
    }

    /** Absorbing whole blocks on top of what the accumulator already holds. */
    method Absorb(data: bytes)
      requires Core() && |data| % 16 == 0
      modifies this`done, h, msg, hr
      ensures Core() && done == old(done) + data
    {
      ghost var rs, ps := r[..], pad[..];
      Blocks(data);
      assert r[..] == rs && pad[..] == ps;
      AbsorbAll(done, data, Le(rs));
      done := done + data;
    }

    /** Copying bytes behind the leftover ones. */
    method Keep(b: bytes)
      requires Core() && leftover + |b| <= 16
      modifies this`leftover, buffer
      ensures Core() && leftover == old(leftover) + |b|
      ensures buffer[..leftover] == old(buffer[..leftover]) + b
    {
      ghost var tail := buffer[..leftover];
      ghost var rs, ps, hs := r[..], pad[..], h[..];
      forall i | 0 <= i < |b| { buffer[leftover + i] := b[i]; }
      assert buffer[..leftover + |b|] == tail + b;
      assert r[..] == rs && pad[..] == ps && h[..] == hs;
      leftover := leftover + |b|;
    }

    /** The first part of `Update`: top up a partial block and absorb it once full. */
    method TopUp(buf: bytes) returns (rest: bytes)
      requires Valid() && leftover != 0
      modifies this`leftover, this`done, h, msg, hr, buffer
      ensures Valid() && Contents() + rest == old(Contents()) + buf
      ensures rest == [] || leftover == 0
    {
      var want := 16 - leftover;
      if want > |buf| { want := |buf|; }
      Keep(buf[..want]);
      rest := buf[want..];
      assert buf == buf[..want] + rest;
      if leftover < 16 { return; }
      Flush();
    }

    /** A full buffer is absorbed. */
    method Flush()
      requires Core() && leftover == 16
      modifies this`leftover, this`done, h, msg, hr
      ensures Valid() && leftover == 0 && Contents() == old(done + buffer[..16])
    {
      assert buffer[..16] == buffer[..];
      Absorb(buffer[..]);
      leftover := 0;
      assert buffer[..0] == [];
    }

    /** `Update` */
    method Update(buf: bytes)
      requires Valid()
      modifies this`leftover, this`done, h, msg, hr, buffer
      ensures Valid() && Contents() == old(Contents()) + buf
    {
      ghost var all := Contents() + buf;
      var rest := buf;
      if leftover != 0 {
        rest := TopUp(buf);
        assert Contents() + rest == all;
        if |rest| == 0 { return; }
      }
      assert done + rest == all;
      if |rest| >= 16 {
        var want := |rest| - |rest| % 16;
        WholePart(|rest|);
        assert done + rest == (done + rest[..want]) + rest[want..];
        Absorb(rest[..want]);
        rest := rest[want..];
      }
      assert done + rest == all;
      if |rest| != 0 {
        assert buffer[..leftover] == [];
        Keep(rest);
        assert buffer[..leftover] == rest;
      }
    }

    /** The padding and absorption of a partial last block in `Finish`. */
    method FinishBlock()
      requires Valid() && leftover != 0
      modifies this`final, h, msg, hr, buffer
      ensures Le(h[..]) < TWO_130 + 0x2_0000_0000
      ensures Le(h[..]) % P == Accumulate(old(Contents()), Le(r[..]))
    {
      ghost var tail, hs, rs := buffer[..leftover], h[..], r[..];
      forall i | leftover <= i < 16 { buffer[i] := if i == leftover then 1 else 0; }
      assert buffer[..] == (tail + [1]) + Zeros(15 - leftover);
      assert h[..] == hs && r[..] == rs;
      final := 1;
      Blocks(buffer[..]);
      assert r[..] == rs;
      FinalBlock(done, tail, buffer[..], Le(hs), Le(rs));
    }

    /** `Finish` */
    method Finish() returns (out: bytes)
      requires Valid()
      modifies this`final, h, msg, hr, buffer
      ensures out == Tag(old(Contents()), key)
    {
      ghost var all, rs, ps := Contents(), r[..], pad[..];
      if leftover != 0 {
        FinishBlock();
        assert r[..] == rs && pad[..] == ps;
      } else {
        assert all == done;
      }
      Freeze(h);
      assert pad[..] == ps;
      AddTo(h, pad);
      out := h[..16];
      FinalTag(h[..], Accumulate(all, Le(rs)), ps, key);
    }
  }

  /** The padded last block under no high bit is the short block under its own 0x01 byte. */
  lemma FinalBlock(done: bytes, tail: bytes, b: bytes, v: nat, r: nat)
    requires |done| % 16 == 0 && 1 <= |tail| <= 15 && |b| == 16
    requires b == (tail + [1]) + Zeros(15 - |tail|)
    requires v % P == Accumulate(done, r)
    ensures AbsorbTo(v % P, b, r, 0, 1) == Accumulate(done + tail, r)
  {
    PaddedBlock(tail + [1], 15 - |tail|);
    AbsorbOne(v % P, b, r, 0);
    AccumulateBlock(done, tail, r);
  }

  lemma PaddedBlock(s: bytes, n: nat)
    ensures Le((s + Zeros(n)) + [0]) == Le(s)
  {
    assert (s + Zeros(n)) + [0] == s + Zeros(n + 1);
    LeZeros(s, n + 1);
  }

  lemma AbsorbOne(acc: nat, b: bytes, r: nat, hi: byte)
    requires |b| == 16
    ensures AbsorbTo(acc, b, r, hi, 1) == Step(acc, Le(b + [hi]), r)
  {
    assert b[16 * 0..16 * 1] == b;
    assert AbsorbTo(acc, b, r, hi, 0) == acc;
  }

  lemma FinalTag(h: bytes, acc: nat, pad: bytes, key: bytes)
    requires |key| >= 32
    requires |h| == 17 && acc < P && Le(pad) == Le(key[16..32])
    requires Le(h) == (acc + Le(pad)) % TWO_136
    ensures h[..16] == LeBytes(acc + Le(key[16..32]), 16)
  {
    SixteenBytes(key[16..32]);
    NoWrap(acc, Le(pad));
    LowBytes(h, acc + Le(pad), 16);
  }

  lemma LowBytes(h: bytes, v: nat, n: nat)
    requires Le(h) == v && n <= |h|
    ensures h[..n] == LeBytes(v, n)
  {
    LeBytesOfLe(h, n);
  }

  lemma SixteenBytes(s: bytes)
    requires |s| == 16
    ensures Le(s) < TWO_128
  {
    LeBound(s);
    Powers();
  }

  lemma NoWrap(acc: nat, pad: nat)
    requires acc < P && pad < TWO_128
    ensures (acc + pad) % TWO_136 == acc + pad
  {
    ModUnique(acc + pad, TWO_136, 0, acc + pad);
  }

  /** `Poly1305HMAC`, fed in any number of pieces. */
  method Mac(key: bytes, chunks: seq<bytes>) returns (tag: bytes)
    requires |key| >= 32
    ensures tag == Tag(Join(chunks), key)
  {
    var a := new Authenticator(key);
    assert chunks[..0] == [];
    for i := 0 to |chunks|
      invariant fresh(a) && fresh(a.h) && fresh(a.msg) && fresh(a.hr) && fresh(a.buffer)
      invariant a.Valid() && a.key == key && a.Contents() == Join(chunks[..i])
    {
      a.Update(chunks[i]);
      assert chunks[..i + 1][..i] == chunks[..i];
    }
    assert chunks[..|chunks|] == chunks;
    tag := a.Finish();
  }
}
