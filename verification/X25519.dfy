/** X25519: the Montgomery ladder of `Ed25519::ScalarMul`, which swaps lazily and reuses its
    registers, against the ladder of section 5 of RFC 7748. */
module X25519 {
  import opened Num
  import opened Bits
  import BitStrings
  import opened Modular
  import opened ScalarMul

  /** Two points by their projective u-coordinates. */
  datatype Pair = Pair(x2: int, z2: int, x3: int, z3: int)

  function Swap(s: Pair): Pair
  {
    Pair(s.x3, s.z3, s.x2, s.z2)
  }

  const A24: int := 121665

  /** The straight-line part of the loop of section 5 of RFC 7748: the first point doubled, and
      the sum of the two, whose difference has u-coordinate x1. */
  function Advance(q: int, x1: int, s: Pair): Pair
    requires q > 0
  {
    var A, B := s.x2 + s.z2, s.x2 - s.z2;
    var AA, BB := A * A, B * B;
    var E := AA - BB;
    var C, D := s.x3 + s.z3, s.x3 - s.z3;
    var DA, CB := D * A, C * B;
    Pair((AA * BB) % q, (E * (AA + A24 * E)) % q,
         ((DA + CB) * (DA + CB)) % q, (x1 * ((DA - CB) * (DA - CB))) % q)
  }

  /** The step as arithmetic of the curve v^2 = u^3 + 486662 u^2 + u on projective u-coordinates:
      the double of the first point, and the sum of the two points. */
  lemma AdvanceIs(q: int, x1: int, s: Pair)
    requires q > 0
    ensures var X, Z, U, W, r := s.x2, s.z2, s.x3, s.z3, Advance(q, x1, s);
      && r.x2 == ((X * X - Z * Z) * (X * X - Z * Z)) % q
      && r.z2 == (4 * (X * Z) * (X * X + 486662 * (X * Z) + Z * Z)) % q
      && r.x3 == (4 * ((X * U - Z * W) * (X * U - Z * W))) % q
      && r.z3 == (x1 * (4 * ((X * W - Z * U) * (X * W - Z * U)))) % q
  {
    DoubleTerms(s.x2, s.z2);
    SumTerms(s.x2, s.z2, s.x3, s.z3);
  }

  lemma DoubleTerms(X: int, Z: int)
    ensures var A, B := X + Z, X - Z;
      var AA, BB := A * A, B * B;
      && AA * BB == (X * X - Z * Z) * (X * X - Z * Z)
      && (AA - BB) * (AA + A24 * (AA - BB)) == 4 * (X * Z) * (X * X + 486662 * (X * Z) + Z * Z)
  {
    var A, B, m := X + Z, X - Z, X * Z;
    assert A * B == X * X - Z * Z;
    assert A * A * (B * B) == A * B * (A * B);
    assert A * A - B * B == 4 * m;
    assert A * A == X * X + 2 * m + Z * Z;
  }

  lemma SumTerms(X: int, Z: int, U: int, W: int)
    ensures var A, B, C, D := X + Z, X - Z, U + W, U - W;
      && (D * A + C * B) * (D * A + C * B) == 4 * ((X * U - Z * W) * (X * U - Z * W))
      && (D * A - C * B) * (D * A - C * B) == 4 * ((X * W - Z * U) * (X * W - Z * U))
  {
    var A, B, C, D := X + Z, X - Z, U + W, U - W;
    var v, w := X * U - Z * W, Z * U - X * W;
    assert D * A == U * X + U * Z - W * X - W * Z;
    assert C * B == U * X - U * Z + W * X - W * Z;
    assert D * A + C * B == 2 * v && D * A - C * B == 2 * w;
    TwiceSquared(v);
    TwiceSquared(w);
    assert (-w) * (-w) == w * w;
  }

  lemma TwiceSquared(v: int)
    ensures (2 * v) * (2 * v) == 4 * (v * v)
  {
  }

  /** Processing one bit: the ladder advances towards the point that the bit selects. */
  function Turn(q: int, x1: int, s: Pair, bit: bool): Pair
    requires q > 0
  {
    if bit then Swap(Advance(q, x1, Swap(s))) else Advance(q, x1, s)
  }

  /** The ladder over the bits of k from bit `top` - 1 down to bit i. */
  function Ladder(q: int, u: int, k: nat, top: nat, i: nat): Pair
    requires q > 0 && i <= top
    decreases top - i
  {
    if i == top then Pair(1, 0, u, 1) else Turn(q, u, Ladder(q, u, k, top, i + 1), BitSet(k, i))
  }

  /** The register-reusing body of the loop, one statement per `BN_mod` call. It multiplies by
      121666 and adds BB where the standard multiplies by 121665 and adds AA. */
  method Step(q: int, x1: int, s: Pair) returns (r: Pair)
    requires q > 0
    ensures r == Advance(q, x1, s)
  {
    var x2, z2, x3, z3 := s.x2, s.z2, s.x3, s.z3;
    var tmp0, tmp1;
    tmp0 := (x3 - z3) % q;
    tmp1 := (x2 - z2) % q;
    x2 := (x2 + z2) % q;
    z2 := (x3 + z3) % q;
    ghost var A, B, C, D := s.x2 + s.z2, s.x2 - s.z2, s.x3 + s.z3, s.x3 - s.z3;
    assert Eq(tmp0, D, q) && Eq(tmp1, B, q) && Eq(x2, A, q) && Eq(z2, C, q) by {
      EqMod(A, q); EqMod(B, q); EqMod(C, q); EqMod(D, q);
    }
    z3 := ModMul(tmp0, D, x2, A, q);
    z2 := ModMul(z2, C, tmp1, B, q);
    tmp0 := ModMul(tmp1, B, tmp1, B, q);
    tmp1 := ModMul(x2, A, x2, A, q);
    ghost var AA, BB, DA, CB := A * A, B * B, D * A, C * B;
    x3 := ModAdd(z3, DA, z2, CB, q);
    z2 := ModSub(z3, DA, z2, CB, q);
    x2 := ModMul(tmp1, AA, tmp0, BB, q);
    tmp1 := ModSub(tmp1, AA, tmp0, BB, q);
    ghost var E := AA - BB;
    z2 := ModMul(z2, DA - CB, z2, DA - CB, q);
    z3 := ModMul(tmp1, E, 121666, 121666, q);
    x3 := ModMul(x3, DA + CB, x3, DA + CB, q);
    tmp0 := ModAdd(tmp0, BB, z3, E * 121666, q);
    z3 := ModMul(x1, x1, z2, (DA - CB) * (DA - CB), q);
    z2 := ModMul(tmp1, E, tmp0, BB + E * 121666, q);
    assert BB + E * 121666 == AA + A24 * E;
    r := Pair(x2, z2, x3, z3);
  }

  /** `BN_mod_mul`, on representatives of a and b. */
  method ModMul(x: int, ghost a: int, y: int, ghost b: int, q: int) returns (r: int)
    requires q > 0 && Eq(x, a, q) && Eq(y, b, q)
    ensures r == (a * b) % q && Eq(r, a * b, q)
  {
    EqMul(x, a, y, b, q);
    EqMod(x * y, q);
    r := (x * y) % q;
  }

  /** `BN_mod_add` */
  method ModAdd(x: int, ghost a: int, y: int, ghost b: int, q: int) returns (r: int)
    requires q > 0 && Eq(x, a, q) && Eq(y, b, q)
    ensures r == (a + b) % q && Eq(r, a + b, q)
  {
    EqAdd(x, a, y, b, q);
    EqMod(x + y, q);
    r := (x + y) % q;
  }

  /** `BN_mod_sub` */
  method ModSub(x: int, ghost a: int, y: int, ghost b: int, q: int) returns (r: int)
    requires q > 0 && Eq(x, a, q) && Eq(y, b, q)
    ensures r == (a - b) % q && Eq(r, a - b, q)
  {
    EqSub(x, a, y, b, q);
    EqMod(x - y, q);
    r := (x - y) % q;
  }

  /** `ScalarMul` on numbers. A pending swap is carried to the next bit, where it cancels or
      combines with that bit's own; leading zero bits are skipped. */
  method LadderMul(q: int, inv: int -> int, u: int, k: nat) returns (res: int)
    requires HasInverses(q, inv)
    ensures var s := Ladder(q, u, k, NumBits(k), 0);
      && res == (s.x2 * inv(s.z2)) % q
      && (s.z2 % q != 0 ==> Eq(res * s.z2, s.x2, q))
  {
    var x2, z2, x3, z3 := 1, 0, u, 1;
    var swap := false;
    var bits := NumBits(k);
    while bits > 0
      invariant 0 <= bits <= NumBits(k)
      invariant Pair(x2, z2, x3, z3) ==
        if swap then Swap(Ladder(q, u, k, NumBits(k), bits)) else Ladder(q, u, k, NumBits(k), bits)
    {
      bits := bits - 1;
      var kt := BitSet(k, bits);
      swap := swap != kt;
      if swap {
        x2, x3 := x3, x2;
        z2, z3 := z3, z2;
      }
      swap := kt;
      var r := Step(q, u, Pair(x2, z2, x3, z3));
      x2, z2, x3, z3 := r.x2, r.z2, r.x3, r.z3;
    }
    if swap {
      x2, x3 := x3, x2;
      z2, z3 := z3, z2;
    }
    z2 := inv(z2);
    res := (x2 * z2) % q;
    ghost var s := Ladder(q, u, k, NumBits(k), 0);
    if s.z2 % q != 0 { Divide(s.x2, s.z2, q, inv); }
  }

  //
  // Clamping
  //

  /** The three clamping statements of `ScalarMul` and `ScalarMulB`. */
  function Clamp(e: bytes): (k: bytes)
    requires |e| == 32
    ensures |k| == 32
  {
    var low: int, high: int := e[0], e[31];
    e[0 := low - low % 8][31 := 64 + high % 64]
  }

  /** Clamping by masks. */
  lemma ClampIsMasks(e: bytes)
    requires |e| == 32
    ensures Clamp(e)[0] == And(e[0], 248) && Clamp(e)[31] == Or(And(e[31], 127), 64)
  {
    MaskLow3(e[0]);
    MaskHigh(e[31]);
  }

  lemma MaskHigh(y: nat)
    requires y < 256
    ensures Or(And(y, 127), 64) == 64 + y % 64
  {
    SevenBits(y);
    SetBit6(y % 128);
    SetWithin(y);
  }

  lemma SevenBits(y: nat)
    ensures And(y, 127) == y % 128
  {
    assert Pow(2, 7) == 128;
    AndOnes(y, 7, 128);
  }

  lemma SetBit6(z: nat)
    requires z < 128
    ensures Or(z, 64) == if z < 64 then z + 64 else z
  {
    assert Pow(2, 6) == 64;
    OrBit(z, 6, 64);
  }

  lemma SetWithin(y: nat)
    ensures var z := y % 128; (if z < 64 then z + 64 else z) == 64 + y % 64
  {
  }

  lemma MaskLow3(x: nat)
    requires x < 256
    ensures And(x, 248) == x - x % 8
  {
    HighBits(x % 8, x / 8, 31);
  }

  lemma HighBits(low: nat, high: nat, ones: nat)
    requires low < 8 && high < 32 && ones == 31
    ensures And(low + 8 * high, 8 * ones) == 8 * high
  {
    FiveBits(high, ones);
    LowCleared(low, high, ones);
  }

  lemma FiveBits(high: nat, ones: nat)
    requires high < 32 && ones == 31
    ensures And(high, ones) == high
  {
    var p := Pow(2, 5);
    AllOnesKeep(high, 5, p);
  }

  lemma LowCleared(low: nat, high: nat, mask: nat)
    requires low < 8
    ensures And(low + 8 * high, 8 * mask) == 8 * And(high, mask)
  {
    var zero := 0;
    assert Pow(2, 3) == 8;
    AndSplit(low, high, zero, mask, 3, 8);
    AndNone(low);
  }

  lemma NumBitsExact(e: nat, n: nat)
    requires n > 0 && Pow(2, n - 1) <= e < Pow(2, n)
    ensures NumBits(e) == n
    decreases n
  {
    if n > 1 { NumBitsExact(e / 2, n - 1); }
  }

  /** Clamping makes every scalar a multiple of 8 of exactly 255 bits, so that the ladder starts
      at bit 254 as the standard prescribes. */
  lemma ClampedScalar(e: bytes)
    requires |e| == 32
    ensures NumBits(Le(Clamp(e))) == 255
    ensures Le(Clamp(e)) % 8 == 0
  {
    var k := Clamp(e);
    assert k == k[..31] + [k[31]];
    TopByte(k[..31], k[31], k);
    LowDigit(k);
  }

  lemma LowDigit(k: bytes)
    requires k != [] && k[0] % 8 == 0
    ensures Le(k) % 8 == 0
  {
    LowBitsClear(k[0], Le(k[1..]));
  }

  lemma LowBitsClear(x: nat, t: nat)
    requires x % 8 == 0
    ensures (x + 256 * t) % 8 == 0
  {
  }

  lemma TopByte(s: bytes, x: byte, k: bytes)
    requires 64 <= x < 128 && k == s + [x]
    ensures NumBits(Le(k)) == 8 * |s| + 7
  {
    LePush(s, x);
    LeBound(s);
    Pow2Literals();
    BitStrings.PowerOfTwoPower(8, 256, |s|);
    TopBits(Le(k), Le(s), x, Pow(256, |s|), 8 * |s|);
  }

  lemma TopBits(v: nat, low: nat, x: nat, p: nat, n: nat)
    requires p == Pow(2, n) && low < p && 64 <= x < 128 && v == low + x * p
    ensures NumBits(v) == n + 7
  {
    MulMono(64, x, p);
    MulMono(x, 127, p);
    SixBits(n, p);
    NumBitsExact(v, n + 7);
  }

  lemma SixBits(n: nat, p: nat)
    requires p == Pow(2, n)
    ensures Pow(2, n + 6) == 64 * p && Pow(2, n + 7) == 128 * p
  {
    assert Pow(2, n + 2) == 4 * p;
    assert Pow(2, n + 4) == 4 * Pow(2, n + 2);
    assert Pow(2, n + 6) == 4 * Pow(2, n + 4);
    assert Pow(2, n + 7) == 2 * Pow(2, n + 6);
  }

  //
  // The ladder as the standard writes it
  //

  datatype Lazy = Lazy(s: Pair, swap: bool)

  /** Section 5 of RFC 7748: conditional swap by swap XOR k_t, then the arithmetic. */
  function RfcLadder(q: int, u: int, k: nat, top: nat, i: nat): Lazy
    requires q > 0 && i <= top
    decreases top - i
  {
    if i == top then Lazy(Pair(1, 0, u, 1), false)
    else
      var l := RfcLadder(q, u, k, top, i + 1);
      var kt := BitSet(k, i);
      Lazy(Advance(q, u, if l.swap != kt then Swap(l.s) else l.s), kt)
  }

  /** Swapping lazily and not swapping at all lead to the same points. */
  lemma {:induction false} LazySwaps(q: int, u: int, k: nat, top: nat, i: nat)
    requires q > 0 && i <= top
    ensures var l := RfcLadder(q, u, k, top, i);
      Ladder(q, u, k, top, i) == if l.swap then Swap(l.s) else l.s
    decreases top - i
  {
    if i < top { LazySwaps(q, u, k, top, i + 1); }
  }

  /** The result of the ladder of the standard, after its last conditional swap. */
  function RfcResult(q: int, inv: int -> int, u: int, k: nat, top: nat): int
    requires q > 0
  {
    var l := RfcLadder(q, u, k, top, 0);
    var s := if l.swap then Swap(l.s) else l.s;
    (s.x2 * inv(s.z2)) % q
  }

  //
  // The u-coordinate
  //

  /** The standard clears the top bit of the last byte. */
  function Masked(p: bytes): (m: bytes)
    requires |p| == 32
    ensures |m| == 32
  {
    var high: int := p[31];
    p[31 := high % 128]
  }

  const BITS: nat := 255
  const TOP: nat := 31

  /** The field of Curve25519. */
  ghost predicate IsField(q: int)
  {
    q == Pow(2, BITS) - 19
  }

  lemma FieldSize(q: int)
    requires IsField(q)
    ensures 128 * Pow(256, TOP) == q + 19 && q > 19
  {
    Pow2Literals();
    BitStrings.PowerOfTwoPower(8, 256, TOP);
    SixBits(8 * TOP, Pow(2, 8 * TOP));
    PowAdd(256, 1, TOP - 1);
    assert Pow(256, 1) == 256 * Pow(256, 0);
    MulMono(1, Pow(256, TOP - 1), 256);
  }

  lemma MaskedValue(p: bytes)
    requires |p| == 32
    ensures Le(p) == Le(Masked(p)) + if p[31] < 128 then 0 else 128 * Pow(256, TOP)
  {
    var low := p[..31];
    assert p == low + [p[31]] && Masked(p) == low + [p[31] % 128];
    MaskTop(low, p[31]);
  }

  lemma MaskTop(low: bytes, x: nat)
    requires x < 256
    ensures Le(low + [x]) == Le(low + [x % 128]) + if x < 128 then 0 else 128 * Pow(256, |low|)
  {
    LePush(low, x);
    LePush(low, x % 128);
    MaskArithmetic(x, Pow(256, |low|));
  }

  lemma MaskArithmetic(x: nat, p: nat)
    requires x < 256
    ensures x * p == (x % 128) * p + if x < 128 then 0 else 128 * p
  {
    if x >= 128 { MulDistRight(x % 128, 128, p); }
  }

  /** Left in place, the top bit adds 19 to the u-coordinate in the field; so the code works on
      the u-coordinate of the standard exactly if the bit is clear. */
  lemma TopBitAdds(q: int, p: bytes)
    requires IsField(q) && |p| == 32
    ensures q > 0 && Eq(Le(p), Le(Masked(p)) + (if p[31] < 128 then 0 else 19), q)
    ensures Eq(Le(p), Le(Masked(p)), q) <==> p[31] < 128
  {
    FieldSize(q);
    MaskedValue(p);
    if p[31] >= 128 {
      NineteenMore(q, Le(Masked(p)), Le(p));
    }
  }

  lemma NineteenMore(q: int, u: int, v: int)
    requires q > 19 && v == u + q + 19
    ensures Eq(v, u + 19, q) && !Eq(v, u, q)
  {
    EqShift(v, u + 19, 1, q);
    if Eq(v, u, q) {
      EqSub(v, u, u, u, q);
      ModUnique(q + 19, q, 1, 19);
      ModUnique(0, q, 0, 0);
      assert false;
    }
  }

  /** The u-coordinate 0 with the top bit set is taken for 19. */
  lemma TopBitExample(q: int)
    requires IsField(q)
    ensures var p := Zeros(31) + [128];
      q > 0 && Le(Masked(p)) == 0 && Eq(Le(p), 19, q) && !Eq(Le(p), Le(Masked(p)), q)
  {
    var p: bytes := Zeros(31) + [128];
    assert Masked(p) == [] + Zeros(32);
    LeZeros([], 32);
    TopBitAdds(q, p);
  }

  ghost predicate EqPair(s: Pair, t: Pair, q: int)
    requires q > 0
  {
    Eq(s.x2, t.x2, q) && Eq(s.z2, t.z2, q) && Eq(s.x3, t.x3, q) && Eq(s.z3, t.z3, q)
  }

  /** A step depends on residues alone, and leaves residues. */
  lemma AdvanceResidues(q: int, u: int, v: int, s: Pair, t: Pair)
    requires q > 0 && Eq(u, v, q) && EqPair(s, t, q)
    ensures Advance(q, u, s) == Advance(q, v, t)
  {
    EqAdd(s.x2, t.x2, s.z2, t.z2, q);
    EqSub(s.x2, t.x2, s.z2, t.z2, q);
    EqAdd(s.x3, t.x3, s.z3, t.z3, q);
    EqSub(s.x3, t.x3, s.z3, t.z3, q);
    StepResidues(q, u, v, s.x2 + s.z2, t.x2 + t.z2, s.x2 - s.z2, t.x2 - t.z2,
                 s.x3 + s.z3, t.x3 + t.z3, s.x3 - s.z3, t.x3 - t.z3);
  }

  lemma StepResidues(q: int, u: int, v: int, A: int, A': int, B: int, B': int, C: int, C': int, D: int, D': int)
    requires q > 0 && Eq(u, v, q) && Eq(A, A', q) && Eq(B, B', q) && Eq(C, C', q) && Eq(D, D', q)
    ensures Eq(A * A * (B * B), A' * A' * (B' * B'), q)
    ensures var E, E' := A * A - B * B, A' * A' - B' * B';
      Eq(E * (A * A + A24 * E), E' * (A' * A' + A24 * E'), q)
    ensures Eq((D * A + C * B) * (D * A + C * B), (D' * A' + C' * B') * (D' * A' + C' * B'), q)
    ensures Eq(u * ((D * A - C * B) * (D * A - C * B)), v * ((D' * A' - C' * B') * (D' * A' - C' * B')), q)
  {
    EqMul(A, A', A, A', q);
    EqMul(B, B', B, B', q);
    EqMul(D, D', A, A', q);
    EqMul(C, C', B, B', q);
    ProductResidues(q, u, v, A * A, A' * A', B * B, B' * B', D * A, D' * A', C * B, C' * B');
  }

  lemma ProductResidues(q: int, u: int, v: int, aa: int, aa': int, bb: int, bb': int, da: int, da': int, cb: int,
                        cb': int)
    requires q > 0 && Eq(u, v, q) && Eq(aa, aa', q) && Eq(bb, bb', q) && Eq(da, da', q) && Eq(cb, cb', q)
    ensures Eq(aa * bb, aa' * bb', q)
    ensures Eq((aa - bb) * (aa + A24 * (aa - bb)), (aa' - bb') * (aa' + A24 * (aa' - bb')), q)
    ensures Eq((da + cb) * (da + cb), (da' + cb') * (da' + cb'), q)
    ensures Eq(u * ((da - cb) * (da - cb)), v * ((da' - cb') * (da' - cb')), q)
  {
    EqMul(aa, aa', bb, bb', q);
    EqSub(aa, aa', bb, bb', q);
    EqMul(A24, A24, aa - bb, aa' - bb', q);
    EqAdd(aa, aa', A24 * (aa - bb), A24 * (aa' - bb'), q);
    EqMul(aa - bb, aa' - bb', aa + A24 * (aa - bb), aa' + A24 * (aa' - bb'), q);
    EqAdd(da, da', cb, cb', q);
    EqMul(da + cb, da' + cb', da + cb, da' + cb', q);
    EqSub(da, da', cb, cb', q);
    EqMul(da - cb, da' - cb', da - cb, da' - cb', q);
    EqMul(u, v, (da - cb) * (da - cb), (da' - cb') * (da' - cb'), q);
  }

  /** The ladder depends on the residue of the u-coordinate alone. */
  lemma {:induction false} LadderResidues(q: int, u: int, v: int, k: nat, top: nat, i: nat)
    requires q > 0 && Eq(u, v, q) && i <= top
    ensures var l, m := RfcLadder(q, u, k, top, i), RfcLadder(q, v, k, top, i);
      l.swap == m.swap && EqPair(l.s, m.s, q) && (i < top ==> l == m)
    decreases top - i
  {
    if i < top {
      LadderResidues(q, u, v, k, top, i + 1);
      var l, m := RfcLadder(q, u, k, top, i + 1), RfcLadder(q, v, k, top, i + 1);
      var bit := BitSet(k, i);
      AdvanceResidues(q, u, v, if l.swap != bit then Swap(l.s) else l.s, if m.swap != bit then Swap(m.s) else m.s);
    }
  }

  /** `ScalarMul` on byte strings: 255 steps of the ladder of the standard on the clamped scalar.
      The u-coordinate is that of the standard if its top bit is clear, and 19 more if it is set. */
  method ScalarMulBytes(q: int, inv: int -> int, p: bytes, e: bytes) returns (buf: bytes)
    requires HasInverses(q, inv) && |p| == 32 && |e| == 32
    ensures buf == LeBytes(RfcResult(q, inv, Le(p), Le(Clamp(e)), BITS), 32)
    ensures p[31] < 128 ==> buf == LeBytes(RfcResult(q, inv, Le(Masked(p)), Le(Clamp(e)), BITS), 32)
    ensures IsField(q) && p[31] >= 128 ==>
      buf == LeBytes(RfcResult(q, inv, Le(Masked(p)) + 19, Le(Clamp(e)), BITS), 32)
  {
    ClampedScalar(e);
    LazySwaps(q, Le(p), Le(Clamp(e)), BITS, 0);
    var n := LadderMul(q, inv, Le(p), Le(Clamp(e)));
    buf := LeBytes(n, 32);
    UsedCoordinate(q, inv, p, Le(Clamp(e)), BITS);
  }

  lemma UsedCoordinate(q: int, inv: int -> int, p: bytes, k: nat, top: nat)
    requires q > 0 && |p| == 32 && top > 0
    ensures p[31] < 128 ==> Masked(p) == p
    ensures IsField(q) && p[31] >= 128 ==>
      RfcResult(q, inv, Le(p), k, top) == RfcResult(q, inv, Le(Masked(p)) + 19, k, top)
  {
    if IsField(q) && p[31] >= 128 {
      BitResidue(q, p, Le(p), Le(Masked(p)) + 19);
      ResultResidue(q, inv, Le(p), Le(Masked(p)) + 19, k, top);
    }
  }

  lemma BitResidue(q: int, p: bytes, u: nat, v: nat)
    requires IsField(q) && q > 0 && |p| == 32 && p[31] >= 128 && u == Le(p) && v == Le(Masked(p)) + 19
    ensures Eq(u, v, q)
  {
    TopBitAdds(q, p);
  }

  lemma ResultResidue(q: int, inv: int -> int, u: int, v: int, k: nat, top: nat)
    requires q > 0 && Eq(u, v, q) && top > 0
    ensures RfcResult(q, inv, u, k, top) == RfcResult(q, inv, v, k, top)
  {
    LadderResidues(q, u, v, k, top, 0);
  }
}
