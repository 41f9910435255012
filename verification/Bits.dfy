/** Bitwise operators on natural numbers, defined bit by bit. The sources apply them to
    8-, 32- and 64-bit words; no operator here depends on the width. */
module Bits {
  import opened Num

  function Xor(a: nat, b: nat): nat
    decreases a + b
  {
    if a == 0 && b == 0 then 0 else (if a % 2 == b % 2 then 0 else 1) + 2 * Xor(a / 2, b / 2)
  }

  function And(a: nat, b: nat): nat
    decreases a
  {
    if a == 0 then 0 else (if a % 2 == 1 then b % 2 else 0) + 2 * And(a / 2, b / 2)
  }

  function Or(a: nat, b: nat): nat
    decreases a + b
  {
    if a == 0 && b == 0 then 0 else (if a % 2 == 0 && b % 2 == 0 then 0 else 1) + 2 * Or(a / 2, b / 2)
  }

  /** Or of numbers without a common bit adds them. */
  lemma {:induction false} OrDisjoint(a: nat, b: nat, n: nat, p: nat)
    requires p == Pow(2, n) && b < p
    ensures p * a >= 0 && Or(p * a, b) == p * a + b
    decreases n
  {
    if n == 0 {
      OrZero(a);
    } else {
      var q := Pow(2, n - 1);
      MulAssoc(2, q, a);
      OrDisjoint(a, b / 2, n - 1, q);
    }
  }

  lemma {:induction false} OrZero(a: nat)
    ensures Or(a, 0) == a
  {
    if a != 0 { OrZero(a / 2); }
  }

  lemma {:induction false} OrComm(a: nat, b: nat)
    ensures Or(a, b) == Or(b, a)
    decreases a + b
  {
    if a != 0 || b != 0 { OrComm(a / 2, b / 2); }
  }

  lemma {:induction false} OrBound(a: nat, b: nat, n: nat)
    requires a < Pow(2, n) && b < Pow(2, n)
    ensures Or(a, b) < Pow(2, n)
    decreases n
  {
    if n > 0 { OrBound(a / 2, b / 2, n - 1); }
  }

  lemma {:induction false} XorUndo(a: nat, b: nat)
    ensures Xor(Xor(a, b), b) == a
    decreases a + b
  {
    if a != 0 || b != 0 {
      XorUndo(a / 2, b / 2);
      XorParts(a, b);
      XorParts(Xor(a, b), b);
    }
  }

  lemma XorParts(a: nat, b: nat)
    ensures Xor(a, b) % 2 == if a % 2 == b % 2 then 0 else 1
    ensures Xor(a, b) / 2 == Xor(a / 2, b / 2)
  {
  }

  lemma {:induction false} XorComm(a: nat, b: nat)
    ensures Xor(a, b) == Xor(b, a)
    decreases a + b
  {
    if a != 0 || b != 0 { XorComm(a / 2, b / 2); }
  }

  lemma {:induction false} XorZero(a: nat)
    ensures Xor(a, 0) == a
  {
    if a != 0 { XorZero(a / 2); }
  }

  lemma {:induction false} XorBound(a: nat, b: nat, n: nat)
    requires a < Pow(2, n) && b < Pow(2, n)
    ensures Xor(a, b) < Pow(2, n)
    decreases n
  {
    if n > 0 { XorBound(a / 2, b / 2, n - 1); }
  }

  lemma Pow2Literals()
    ensures Pow(2, 8) == 256 && Pow(2, 16) == 65536 && Pow(2, 32) == 0x1_0000_0000
  {
    assert Pow(2, 4) == 16;
    PowAdd(2, 4, 4);
    PowAdd(2, 8, 8);
    PowAdd(2, 16, 16);
  }

  function XorByte(a: byte, b: byte): (c: byte)
    ensures Xor(c, b) == a
    ensures Xor(c, a) == b
  {
    Pow2Literals();
    XorBound(a, b, 8);
    XorUndo(a, b);
    XorUndo(b, a);
    XorComm(a, b);
    Xor(a, b)
  }

  function OrByte(a: nat, b: nat): (c: byte)
    requires a < 256 && b < 256
    ensures c == Or(a, b)
  {
    Pow2Literals();
    OrBound(a, b, 8);
    Or(a, b)
  }

  lemma {:induction false} AndBound(a: nat, b: nat)
    ensures And(a, b) <= a
  {
    if a != 0 { AndBound(a / 2, b / 2); }
  }

  /** A mask of n ones keeps the n low bits. */
  lemma {:induction false} AndOnes(a: nat, n: nat, p: nat)
    requires p == Pow(2, n)
    ensures And(a, p - 1) == a % p
    decreases n
  {
    if n == 0 {
      AndNone(a);
    } else {
      var p' := Pow(2, n - 1);
      assert (p - 1) % 2 == 1 && (p - 1) / 2 == p' - 1;
      AndOnes(a / 2, n - 1, p');
      DivModSplit(a, 2, p');
    }
  }

  /** A byte, and two bits, cut off by a mask. */
  lemma LowMasks(a: nat)
    ensures And(a, 0xFF) == a % 256 && And(a, 0x03) == a % 4
  {
    var eight, two := 8, 2;
    Pow2Literals();
    assert Pow(2, two) == 4;
    AndOnes(a, eight, 256);
    AndOnes(a, two, 4);
  }

  lemma AllOnesKeep(a: nat, n: nat, p: nat)
    requires p == Pow(2, n) && a < p
    ensures And(a, p - 1) == a
  {
    AndOnes(a, n, p);
    ModUnique(a, p, 0, a);
  }

  lemma {:induction false} AndComm(a: nat, b: nat)
    ensures And(a, b) == And(b, a)
    decreases a + b
  {
    if a == 0 {
      AndNone(b);
    } else if b == 0 {
      AndNone(a);
    } else {
      AndComm(a / 2, b / 2);
    }
  }

  lemma {:induction false} AndNone(a: nat)
    ensures And(a, 0) == 0
  {
    if a != 0 { AndNone(a / 2); }
  }

  lemma Halve(a: nat, b: nat, p: nat, q: nat)
    requires p == 2 * q
    ensures p * b >= 0 && (a + p * b) % 2 == a % 2 && q * b >= 0 && (a + p * b) / 2 == a / 2 + q * b
  {
    MulAssoc(2, q, b);
  }

  /** And acts separately on the low n bits and the rest. */
  lemma {:induction false} AndSplit(a: nat, b: nat, c: nat, d: nat, n: nat, p: nat)
    requires p == Pow(2, n) && a < p && c < p
    ensures And(a + p * b, c + p * d) == And(a, c) + p * And(b, d)
    decreases n
  {
    if n == 0 {
      assert And(b, d) == And(0 + 1 * b, 0 + 1 * d);
    } else {
      var q := Pow(2, n - 1);
      Halve(a, b, p, q);
      Halve(c, d, p, q);
      Halve(And(a, c), And(b, d), p, q);
      AndSplit(a / 2, b, c / 2, d, n - 1, q);
      if a == 0 {
        assert And(a, c) == 0 && And(a / 2, c / 2) == 0;
      }
    }
  }

  lemma AndSplitByte(a: byte, b: nat, c: byte, d: nat)
    ensures And(a + 256 * b, c + 256 * d) == And(a, c) + 256 * And(b, d)
  {
    Pow2Literals();
    AndSplit(a, b, c, d, 8, 256);
  }

  function AndByte(a: byte, b: byte): (c: byte)
    ensures c == And(a, b)
  {
    AndBound(a, b);
    And(a, b)
  }

  /** Bytewise And of two equally long strings is And of their little-endian values. */
  function AndBytes(s: bytes, m: bytes): (r: bytes)
    requires |s| == |m|
    ensures |r| == |s|
    ensures forall i :: 0 <= i < |s| ==> r[i] == And(s[i], m[i])
  {
    seq(|s|, i requires 0 <= i < |s| => AndByte(s[i], m[i]))
  }

  lemma {:induction false} AndBytesValue(s: bytes, m: bytes)
    requires |s| == |m|
    ensures Le(AndBytes(s, m)) == And(Le(s), Le(m))
  {
    if s == [] {
      assert AndBytes(s, m) == [];
    } else {
      AndBytesValue(s[1..], m[1..]);
      assert AndBytes(s, m) == [AndByte(s[0], m[0])] + AndBytes(s[1..], m[1..]);
      LeFront(AndByte(s[0], m[0]), AndBytes(s[1..], m[1..]));
      AndSplitByte(s[0], Le(s[1..]), m[0], Le(m[1..]));
    }
  }

  lemma AndOfBytes(s: bytes, m: bytes, r: bytes)
    requires |s| == |m| == |r| && forall i :: 0 <= i < |s| ==> r[i] == And(s[i], m[i])
    ensures Le(r) == And(Le(s), Le(m))
  {
    assert r == AndBytes(s, m);
    AndBytesValue(s, m);
  }

  /** Xor acts separately on the low n bits and the rest. */
  lemma {:induction false} XorSplit(a: nat, b: nat, c: nat, d: nat, n: nat, p: nat)
    requires p == Pow(2, n) && a < p && c < p
    ensures Xor(a + p * b, c + p * d) == Xor(a, c) + p * Xor(b, d)
    decreases n
  {
    if n == 0 {
      assert Xor(b, d) == Xor(0 + 1 * b, 0 + 1 * d);
    } else {
      var q := Pow(2, n - 1);
      Halve(a, b, p, q);
      Halve(c, d, p, q);
      Halve(Xor(a, c), Xor(b, d), p, q);
      XorSplit(a / 2, b, c / 2, d, n - 1, q);
      XorParts(a + p * b, c + p * d);
      XorParts(a, c);
    }
  }

  lemma OrParity(a: nat, b: nat)
    ensures Or(a, b) % 2 == if a % 2 == 0 && b % 2 == 0 then 0 else 1
    ensures Or(a, b) / 2 == Or(a / 2, b / 2)
  {
  }

  /** Or acts separately on the low n bits and the rest. */
  lemma {:induction false} OrSplit(a: nat, b: nat, c: nat, d: nat, n: nat, p: nat)
    requires p == Pow(2, n) && a < p && c < p
    ensures Or(a + p * b, c + p * d) == Or(a, c) + p * Or(b, d)
    decreases n
  {
    if n == 0 {
      assert Or(b, d) == Or(0 + 1 * b, 0 + 1 * d);
    } else {
      var q := Pow(2, n - 1);
      Halve(a, b, p, q);
      Halve(c, d, p, q);
      Halve(Or(a, c), Or(b, d), p, q);
      OrSplit(a / 2, b, c / 2, d, n - 1, q);
      OrParity(a + p * b, c + p * d);
      OrParity(a, c);
    }
  }

  /** Setting bit n of a number of at most n + 1 bits. */
  lemma OrBit(x: nat, n: nat, p: nat)
    requires p == Pow(2, n) && x < 2 * p
    ensures Or(x, p) == if x < p then x + p else x
  {
    var b := if x < p then 0 else 1;
    var a := x - p * b;
    OrSplit(a, b, 0, 1, n, p);
    OrZero(a);
    OrOne(b);
  }

  lemma OrOne(b: nat)
    requires b <= 1
    ensures Or(b, 1) == 1
  {
    var zero := 0;
    assert Or(zero, zero) == 0;
    OrParity(b, 1);
  }

  /** Bytewise Xor. */
  function XorBytes(s: bytes, t: bytes): (r: bytes)
    requires |s| == |t|
    ensures |r| == |s|
    ensures forall i :: 0 <= i < |s| ==> r[i] == XorByte(s[i], t[i])
  {
    seq(|s|, i requires 0 <= i < |s| => XorByte(s[i], t[i]))
  }

  lemma {:induction false} XorBytesValue(s: bytes, t: bytes)
    requires |s| == |t|
    ensures Le(XorBytes(s, t)) == Xor(Le(s), Le(t))
  {
    if s == [] {
      assert XorBytes(s, t) == [];
    } else {
      XorBytesValue(s[1..], t[1..]);
      assert XorBytes(s, t) == [XorByte(s[0], t[0])] + XorBytes(s[1..], t[1..]);
      LeFront(XorByte(s[0], t[0]), XorBytes(s[1..], t[1..]));
      XorLow(s[0], Le(s[1..]), t[0], Le(t[1..]));
    }
  }

  lemma XorLow(a: byte, b: nat, c: byte, d: nat)
    ensures Xor(a + 256 * b, c + 256 * d) == XorByte(a, c) + 256 * Xor(b, d)
  {
    Pow2Literals();
    XorSplit(a, b, c, d, 8, 256);
  }
}
