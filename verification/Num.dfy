/** Bytes, powers and positional numerals: the integer readings against which the
    byte-level code of the other modules is specified. */
module Num {

  datatype Option<T> = None | Some(value: T)

  type byte = x: int | 0 <= x < 256
  type bytes = seq<byte>

  function Pow(b: nat, e: nat): (p: nat)
    ensures b > 0 ==> p > 0
  {
    if e == 0 then 1 else b * Pow(b, e - 1)
  }

  lemma MulAssoc(a: int, b: int, c: int)
    ensures a * (b * c) == (a * b) * c
  {
  }

  lemma MulDist(a: int, b: int, c: int)
    ensures a * (b + c) == a * b + a * c
  {
  }

  lemma MulDistRight(a: int, b: int, c: int)
    ensures (a + b) * c == a * c + b * c
  {
  }

  lemma {:induction false} PowAdd(b: nat, m: nat, n: nat)
    ensures Pow(b, m + n) == Pow(b, m) * Pow(b, n)
  {
    if m > 0 {
      PowAdd(b, m - 1, n);
      MulAssoc(b, Pow(b, m - 1), Pow(b, n));
    }
  }

  /** Little-endian value of a sequence of base-256 limbs; limbs may exceed a byte. */
  function Le(s: seq<nat>): nat
  {
    if s == [] then 0 else s[0] + 256 * Le(s[1..])
  }

  lemma LeFront(x: nat, t: seq<nat>)
    ensures Le([x] + t) == x + 256 * Le(t)
  {
    assert ([x] + t)[1..] == t;
  }

  lemma LeWord(a: byte, b: byte, c: byte, d: byte, t: seq<nat>)
    ensures Le([a, b, c, d] + t) == a + 0x100 * b + 0x1_0000 * c + 0x100_0000 * d + 0x1_0000_0000 * Le(t)
  {
    assert [a, b, c, d] + t == [a] + ([b] + ([c] + ([d] + t)));
    LeFront(a, [b] + ([c] + ([d] + t)));
    LeFront(b, [c] + ([d] + t));
    LeFront(c, [d] + t);
    LeFront(d, t);
  }

  lemma {:induction false} LeConcat(s: seq<nat>, t: seq<nat>)
    ensures Le(s + t) == Le(s) + Pow(256, |s|) * Le(t)
  {
    if s == [] {
      assert s + t == t;
    } else {
      LeConcat(s[1..], t);
      assert (s + t)[1..] == s[1..] + t;
      MulAssoc(256, Pow(256, |s| - 1), Le(t));
    }
  }

  lemma {:induction false} LePush(s: seq<nat>, x: nat)
    ensures Le(s + [x]) == Le(s) + x * Pow(256, |s|)
  {
    if s == [] {
      assert s + [x] == [x] && Le([x]) == x + 256 * Le([]);
    } else {
      LePush(s[1..], x);
      assert (s + [x])[1..] == s[1..] + [x];
      MulAssoc(x, 256, Pow(256, |s| - 1));
    }
  }

  lemma {:induction false} LeBound(s: bytes)
    ensures Le(s) < Pow(256, |s|)
  {
    if s != [] { LeBound(s[1..]); }
  }

  /** The n low-order bytes of v, least significant first. */
  function LeBytes(v: nat, n: nat): (s: bytes)
    ensures |s| == n
  {
    if n == 0 then [] else [v % 256] + LeBytes(v / 256, n - 1)
  }

  lemma {:induction false} LeOfLeBytes(v: nat, n: nat)
    ensures Le(LeBytes(v, n)) == v % Pow(256, n)
  {
    if n > 0 {
      LeOfLeBytes(v / 256, n - 1);
      LeFront(v % 256, LeBytes(v / 256, n - 1));
      DivModSplit(v, 256, Pow(256, n - 1));
    }
  }

  /** Reading the low digit first and the rest after is the same as one remainder. */
  lemma DivModSplit(v: nat, b: nat, p: nat)
    requires b > 0 && p > 0
    ensures b * p > 0
    ensures v % b + b * ((v / b) % p) == v % (b * p)
  {
    var x := v / b;
    var q := x / p;
    DivDiv(v, b, p);
    assert v == b * x + v % b && x == p * q + x % p;
    MulAssoc(b, p, q);
    MulDist(b, p * q, x % p);
  }

  lemma DivDiv(x: nat, a: nat, b: nat)
    requires a > 0 && b > 0
    ensures a * b > 0 && (x / a) / b == x / (a * b)
  {
    var q, r := (x / a) / b, (x / a) % b;
    assert x == a * (b * q + r) + x % a;
    MulDist(a, b * q, r);
    MulAssoc(a, b, q);
    MulMono(r, b - 1, a);
    assert (b - 1) * a == a * b - a;
    ModUnique(x, a * b, q, a * r + x % a);
  }

  lemma ModUnique(v: int, m: int, q: int, r: int)
    requires m > 0 && 0 <= r < m
    requires v == m * q + r
    ensures v % m == r && v / m == q
  {
    var k := v / m - q;
    assert m * k == m * (v / m) - m * q;
    MulSign(m, k);
  }

  lemma MulMono(a: int, b: int, m: int)
    requires a <= b && 0 <= m
    ensures a * m <= b * m
  {
  }

  lemma MulSign(m: int, k: int)
    requires m > 0
    ensures k >= 1 ==> m * k >= m
    ensures k <= -1 ==> m * k <= -m
  {
  }

  lemma ModShift(x: int, m: int, k: int)
    requires m > 0
    ensures (x + m * k) % m == x % m
  {
    MulDist(m, x / m, k);
    ModUnique(x + m * k, m, x / m + k, x % m);
  }

  /** Equal remainders differ by a multiple. */
  lemma ModDiff(a: int, b: int, m: int) returns (k: int)
    requires m > 0 && a % m == b % m
    ensures a == b + m * k
  {
    k := a / m - b / m;
    MulDist(m, b / m, k);
  }

  /** The low bytes of a little-endian value are the first bytes of its string. */
  lemma {:induction false} LeBytesOfLe(s: bytes, n: nat)
    requires n <= |s|
    ensures LeBytes(Le(s), n) == s[..n]
  {
    if n > 0 {
      LeBytesOfLe(s[1..], n - 1);
      LowByte(s[0], Le(s[1..]));
      assert s[..n] == [s[0]] + s[1..][..n - 1];
    }
  }

  lemma LowByte(x: byte, v: nat)
    ensures (x + 256 * v) % 256 == x && (x + 256 * v) / 256 == v
  {
  }

  function Zeros(n: nat): bytes
  {
    seq(n, _ => 0)
  }

  lemma {:induction false} LeZeros(s: seq<nat>, n: nat)
    ensures Le(s + Zeros(n)) == Le(s)
  {
    if s != [] {
      LeZeros(s[1..], n);
      assert (s + Zeros(n))[1..] == s[1..] + Zeros(n);
    } else if n > 0 {
      LeZeros(s, n - 1);
      assert (s + Zeros(n))[1..] == s + Zeros(n - 1);
    } else {
      assert s + Zeros(n) == s;
    }
  }

  /** SHA-256 is a parameter of what uses it; its values have 32 bytes. */
  ghost predicate Hashes(sha: bytes -> bytes)
  {
    forall s {:trigger sha(s)} :: |sha(s)| == 32
  }

  function Join(chunks: seq<bytes>): bytes
  {
    if chunks == [] then [] else Join(chunks[..|chunks| - 1]) + chunks[|chunks| - 1]
  }
}
