/** Big-endian numerals, as in the buffers of OpenSSL numbers and in packet headers. */
module BigEndian {
  import opened Num

  /** The number whose digits in base b are s, most significant first. */
  function Value(s: seq<nat>, b: nat): nat
  {
    if s == [] then 0 else b * Value(s[..|s| - 1], b) + s[|s| - 1]
  }

  function Digits(v: nat, b: nat, n: nat): (s: seq<nat>)
    requires b > 0
    ensures |s| == n && forall i :: 0 <= i < n ==> s[i] < b
    decreases n
  {
    DivSign(v, b);
    if n == 0 then [] else Digits(v / b, b, n - 1) + [v % b]
  }

  lemma DivSign(v: nat, b: nat)
    requires b > 0
    ensures 0 <= v / b <= v && 0 <= v % b < b
  {
    MulSign(b, v / b);
    MulMono(1, b, v / b);
  }

  function Be(s: bytes): nat
  {
    Value(s, 256)
  }

  lemma ValuePush(s: seq<nat>, d: nat, b: nat)
    ensures Value(s + [d], b) == b * Value(s, b) + d
  {
    assert (s + [d])[..|s|] == s;
  }

  lemma {:induction false} DigitsOfValue(s: seq<nat>, b: nat)
    requires b > 0 && forall i :: 0 <= i < |s| ==> s[i] < b
    ensures Digits(Value(s, b), b, |s|) == s
  {
    if s != [] {
      var t, x := s[..|s| - 1], s[|s| - 1];
      DigitsOfValue(t, b);
      ModUnique(Value(s, b), b, Value(t, b), x);
      assert s == t + [x];
    }
  }

  lemma {:induction false} ValueOfDigits(v: nat, b: nat, n: nat)
    requires b > 0 && v < Pow(b, n)
    ensures Value(Digits(v, b, n), b) == v
    decreases n
  {
    if n > 0 {
      var q, r := DivBelow(v, b, Pow(b, n - 1));
      ValueOfDigits(q, b, n - 1);
      ValuePush(Digits(q, b, n - 1), r, b);
    }
  }

  lemma DivBelow(v: nat, b: nat, p: nat) returns (q: nat, r: nat)
    requires b > 0 && v < b * p
    ensures q == v / b && r == v % b && v == b * q + r && q < p
  {
    DivSign(v, b);
    q, r := v / b, v % b;
    if q >= p { MulMono(p, q, b); }
  }

  /** The n low-order bytes of v, most significant first. */
  function BeBytes(v: nat, n: nat): (s: bytes)
    ensures |s| == n
  {
    if n == 0 then [] else BeBytes(v / 256, n - 1) + [v % 256]
  }

  /** How many bytes v needs (`BN_num_bytes`). */
  function NumBytes(v: nat): nat
  {
    if v == 0 then 0 else 1 + NumBytes(v / 256)
  }

  lemma {:induction false} BeBound(s: bytes)
    ensures Be(s) < Pow(256, |s|)
  {
    if s != [] { BeBound(s[..|s| - 1]); }
  }

  lemma {:induction false} BeFront(s: bytes)
    requires s != []
    ensures Be(s) == s[0] * Pow(256, |s| - 1) + Be(s[1..])
  {
    if |s| == 1 {
      assert s == [] + [s[0]];
      ValuePush([], s[0], 256);
    } else {
      var t := s[..|s| - 1];
      BeFront(t);
      assert s[1..][..|s| - 2] == t[1..];
      MulAssoc(s[0], 256, Pow(256, |s| - 2));
    }
  }

  /** v fits n bytes exactly if it needs no more of them. */
  lemma {:induction false} NumBytesFits(v: nat, n: nat)
    ensures NumBytes(v) <= n <==> v < Pow(256, n)
  {
    if v == 0 {
    } else if n == 0 {
    } else {
      NumBytesFits(v / 256, n - 1);
      var p := Pow(256, n - 1);
      assert v / 256 < p <==> v < 256 * p;
    }
  }

  lemma {:induction false} BeOfBeBytes(v: nat, n: nat)
    requires v < Pow(256, n)
    ensures Be(BeBytes(v, n)) == v
  {
    if n > 0 {
      BeOfBeBytes(v / 256, n - 1);
      var s := BeBytes(v, n);
      assert s[..n - 1] == BeBytes(v / 256, n - 1);
    }
  }

  lemma {:induction false} BeBytesOfBe(s: bytes)
    ensures BeBytes(Be(s), |s|) == s
  {
    if s != [] {
      var t, x := s[..|s| - 1], s[|s| - 1];
      BeBytesOfBe(t);
      assert Be(s) / 256 == Be(t) && Be(s) % 256 == x;
      assert s == t + [x];
    }
  }

  lemma {:induction false} BeOfLowBytes(v: nat, n: nat)
    ensures Be(BeBytes(v, n)) == v % Pow(256, n)
  {
    if n > 0 {
      BeOfLowBytes(v / 256, n - 1);
      ValuePush(BeBytes(v / 256, n - 1), v % 256, 256);
      DivModSplit(v, 256, Pow(256, n - 1));
    }
  }

  /** The n low-order bytes of two numbers agree exactly if their remainders do. */
  lemma SameLowBytes(v: nat, w: nat, n: nat)
    ensures BeBytes(v, n) == BeBytes(w, n) <==> v % Pow(256, n) == w % Pow(256, n)
  {
    BeOfLowBytes(v, n);
    BeOfLowBytes(w, n);
    BeBytesOfBe(BeBytes(v, n));
    BeBytesOfBe(BeBytes(w, n));
  }

  lemma {:induction false} BeBytesTail(v: nat, n: nat)
    ensures BeBytes(v, n + 1)[1..] == BeBytes(v, n)
  {
    if n == 0 {
      assert |BeBytes(v, n + 1)[1..]| == 0;
    } else {
      BeBytesTail(v / 256, n - 1);
      assert BeBytes(v, n + 1)[1..] == BeBytes(v / 256, n)[1..] + [v % 256];
    }
  }

  /** Bytes beyond those a value needs are zero. */
  lemma {:induction false} BePadded(v: nat, n: nat)
    requires NumBytes(v) <= n
    ensures BeBytes(v, n) == Zeros(n - NumBytes(v)) + BeBytes(v, NumBytes(v))
  {
    if n > 0 {
      if v == 0 {
        BePadded(0, n - 1);
        assert Zeros(n) == Zeros(n - 1) + [0];
        assert BeBytes(0, n) == BeBytes(0, n - 1) + [0];
        assert Zeros(n - 1) + BeBytes(0, 0) == Zeros(n - 1);
      } else {
        BePadded(v / 256, n - 1);
      }
    }
  }

  /** Byte i of n stands for its value times 256^(n - 1 - i). */
  lemma {:induction false} BeStep(s: bytes, i: nat)
    requires i < |s|
    ensures Be(s[..i + 1]) == 256 * Be(s[..i]) + s[i]
  {
    assert s[..i + 1][..i] == s[..i];
  }
}
