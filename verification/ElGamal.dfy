/** ElGamal over a prime field (lib/libi2pd/Crypto.cpp): the table of Montgomery powers of the
    generator, exponentiation by table lookup, and encryption and decryption of 222 bytes. */
module ElGamal {
  import opened Num
  import opened BigEndian
  import opened Modular
  import opened ModPowers
  import opened Fermat
  import ScalarMul

  //
  // Montgomery form
  //

  /** A `BN_MONT_CTX`: a modulus and a radix invertible modulo it. */
  datatype Mont = Mont(p: nat, r: nat, rinv: nat)
  {
    ghost predicate Valid()
    {
      p > 1 && Eq(r * rinv, 1, p)
    }

    function To(x: nat): (y: nat)
      requires p > 0
    {
      (x * r) % p
    }

    function Mul(x: nat, y: nat): nat
      requires p > 0
    {
      (x * y * rinv) % p
    }

    function From(x: nat): nat
      requires p > 0
    {
      (x * rinv) % p
    }
  }

  /** Multiplication in Montgomery form is multiplication of what the operands stand for. */
  lemma MontProduct(m: Mont, x: nat, y: nat)
    requires m.Valid()
    ensures m.Mul(m.To(x), m.To(y)) == m.To(x * y)
  {
    var p, r, ri := m.p, m.r, m.rinv;
    EqMod(x * r, p);
    EqMod(y * r, p);
    EqMul(m.To(x), x * r, m.To(y), y * r, p);
    EqMul(m.To(x) * m.To(y), (x * r) * (y * r), ri, ri, p);
    EqMul(r * ri, 1, (x * y) * r, (x * y) * r, p);
    MontArithmetic(x, y, r, ri);
  }

  lemma MontArithmetic(x: nat, y: nat, r: nat, ri: nat)
    ensures (x * r) * (y * r) * ri == (r * ri) * ((x * y) * r)
  {
    assert (x * r) * (y * r) == (x * y) * (r * r);
    assert (x * y) * (r * r) * ri == (r * ri) * ((x * y) * r);
  }

  lemma MontBack(m: Mont, x: nat)
    requires m.Valid()
    ensures m.From(m.To(x)) == x % m.p
  {
    EqMod(x * m.r, m.p);
    EqMul(m.To(x), x * m.r, m.rinv, m.rinv, m.p);
    EqMul(m.r * m.rinv, 1, x, x, m.p);
    assert x * m.r * m.rinv == m.r * m.rinv * x;
  }

  //
  // The table
  //

  /** `g_ElggTable` with `g_MontCtx`. */
  class ElggTable {
    const m: Mont
    const g: nat
    const entries: array2<nat>

    /** Row i holds g to the powers 1, ..., 255 times 256^i, in Montgomery form. */
    ghost predicate Valid()
      reads entries
    {
      && m.Valid() && entries.Length1 == 255
      && forall i, j :: 0 <= i < entries.Length0 && 0 <= j < 255 ==> Holds(entries[i, j], ScalarMul.Coefficient(i, j))
    }

    ghost predicate Holds(x: nat, e: nat)
    {
      m.p > 0 && x == m.To(Pow(g, e))
    }

    lemma MulHolds(x: nat, d: nat, y: nat, e: nat)
      requires m.Valid() && Holds(x, d) && Holds(y, e)
      ensures Holds(m.Mul(x, y), d + e)
    {
      MontProduct(m, Pow(g, d), Pow(g, e));
      PowAdd(g, d, e);
    }

    /** `PrecalculateElggTable`. */
    constructor (m: Mont, g: nat, len: nat)
      requires m.Valid()
      ensures Valid() && this.m == m && this.g == g && entries.Length0 == len && fresh(entries)
    {
      this.m, this.g := m, g;
      entries := new nat[len, 255];
      new;
      for i := 0 to len
        invariant forall k, j :: 0 <= k < i && 0 <= j < 255 ==> Holds(entries[k, j], ScalarMul.Coefficient(k, j))
      {
        if i > 0 { ScalarMul.CoefficientSteps(i - 1, 0); }
        FirstPower(i);
        FillRow(i);
      }
    }

    /** Column 0 of row i, from the last and first columns of the row before. */
    method FirstPower(i: nat)
      requires m.Valid() && i < entries.Length0 && entries.Length1 == 255
      requires i > 0 ==>
        Holds(entries[i - 1, 0], Pow(256, i - 1)) && Holds(entries[i - 1, 254], ScalarMul.Coefficient(i - 1, 254))
      modifies entries
      ensures Holds(entries[i, 0], Pow(256, i))
      ensures forall k, j :: 0 <= k < entries.Length0 && 0 <= j < 255 && (k != i || j != 0) ==>
        entries[k, j] == old(entries[k, j])
    {
      if i == 0 {
        assert Pow(256, i) == 1 && Pow(g, 1) == g * Pow(g, 0);
        entries[0, 0] := m.To(g);
      } else {
        ScalarMul.CoefficientSteps(i - 1, 254);
        MulHolds(entries[i - 1, 254], ScalarMul.Coefficient(i - 1, 254), entries[i - 1, 0], Pow(256, i - 1));
        entries[i, 0] := m.Mul(entries[i - 1, 254], entries[i - 1, 0]);
      }
    }

    method FillRow(i: nat)
      requires m.Valid() && i < entries.Length0 && entries.Length1 == 255 && Holds(entries[i, 0], Pow(256, i))
      modifies entries
      ensures forall j :: 0 <= j < 255 ==> Holds(entries[i, j], ScalarMul.Coefficient(i, j))
      ensures forall k, j :: 0 <= k < entries.Length0 && k != i && 0 <= j < 255 ==> entries[k, j] == old(entries[k, j])
    {
      ScalarMul.CoefficientSteps(i, 0);
      for j := 1 to 255
        invariant forall k, n :: 0 <= k < entries.Length0 && k != i && 0 <= n < 255 ==>
          entries[k, n] == old(entries[k, n])
        invariant forall n :: 0 <= n < j ==> Holds(entries[i, n], ScalarMul.Coefficient(i, n))
      {
        ScalarMul.CoefficientSteps(i, j - 1);
        MulHolds(entries[i, j - 1], ScalarMul.Coefficient(i, j - 1), entries[i, 0], Pow(256, i));
        entries[i, j] := m.Mul(entries[i, j - 1], entries[i, 0]);
      }
    }

    /** `ElggPow` on a buffer: no result exactly for a zero or empty exponent. */
    method PowBytes(exp: bytes) returns (res: Option<nat>)
      requires Valid() && |exp| <= entries.Length0
      ensures res == if Be(exp) == 0 then None else Some(ModPow(g, Be(exp), m.p))
    {
      res := None;
      var len := |exp|;
      ghost var e: nat := 0;
      for i := 0 to len
        invariant e == Be(exp[..i]) * Pow(256, len - i)
        invariant if e == 0 then res == None else res.Some? && Holds(res.value, e)
      {
        res, e := AddDigit(res, exp[i], len - 1 - i, e);
        DigitArithmetic(exp, i);
      }
      assert exp[..len] == exp;
      if res.Some? {
        MontBack(m, Pow(g, e));
        res := Some(m.From(res.value));
      }
    }

    /** One turn of the loop: digit d at place k. */
    method AddDigit(acc: Option<nat>, d: byte, k: nat, ghost e: nat) returns (res: Option<nat>, ghost e': nat)
      requires Valid() && k < entries.Length0
      requires if e == 0 then acc == None else acc.Some? && Holds(acc.value, e)
      ensures e' == e + d * Pow(256, k)
      ensures if e' == 0 then res == None else res.Some? && Holds(res.value, e')
    {
      e' := e + d * Pow(256, k);
      res := acc;
      if d > 0 {
        assert ScalarMul.Coefficient(k, d - 1) == d * Pow(256, k);
        MulMono(1, d, Pow(256, k));
        if res.Some? {
          MulHolds(res.value, e, entries[k, d - 1], ScalarMul.Coefficient(k, d - 1));
          res := Some(m.Mul(res.value, entries[k, d - 1]));
        } else {
          res := Some(entries[k, d - 1]);
        }
      }
    }

    /** `ElggPow` on a number, through its shortest big-endian form. */
    method PowNumber(e: nat) returns (res: Option<nat>)
      requires Valid() && NumBytes(e) <= entries.Length0
      ensures res == if e == 0 then None else Some(ModPow(g, e, m.p))
    {
      NumBytesFits(e, NumBytes(e));
      BeOfBeBytes(e, NumBytes(e));
      res := PowBytes(BeBytes(e, NumBytes(e)));
    }
  }

  lemma DigitArithmetic(s: bytes, i: nat)
    requires i < |s|
    ensures Be(s[..i]) * Pow(256, |s| - i) + s[i] * Pow(256, |s| - 1 - i) == Be(s[..i + 1]) * Pow(256, |s| - (i + 1))
  {
    BeStep(s, i);
    var x, p := Be(s[..i]), Pow(256, |s| - 1 - i);
    MulAssoc(x, 256, p);
    MulDistRight(256 * x, s[i], p);
  }

  //
  // Encryption and decryption
  //

  /** SHA-256 is a parameter. */
  type Hash = bytes -> bytes

  const WIDTH: nat := 256
  const MESSAGE: nat := 255
  const DATA: nat := 222

  /** The constants `elgp` and `elgg`. */
  datatype Domain = Domain(p: nat, g: nat)
  {
    /** A 2048-bit prime and a residue other than zero. */
    ghost predicate Valid()
    {
      Prime(p) && 0 < g < p && Pow(256, MESSAGE) <= p <= Pow(256, WIDTH)
    }
  }

  function PublicKey(d: Domain, priv: bytes): bytes
    requires d.p > 0
  {
    BeBytes(ModPow(d.g, Be(priv), d.p), WIDTH)
  }

  /** The bytes m that are encrypted: 0xFF, the hash of the data, the data. */
  function Message(sha: Hash, data: bytes): bytes
  {
    [0xFF] + sha(data) + data
  }

  function Encrypted(d: Domain, sha: Hash, key: bytes, data: bytes, k: nat): bytes
    requires d.p > 0
  {
    [0] + BeBytes(ModPow(d.g, k, d.p), WIDTH)
    + ([0] + BeBytes((ModPow(Be(key), k, d.p) * Be(Message(sha, data))) % d.p, WIDTH))
  }

  /** p - x - 1; `BN_mod_exp` takes the magnitude of a negative exponent. */
  function Complement(p: nat, x: nat): nat
  {
    if x < p then p - x - 1 else x + 1 - p
  }

  function Plain(d: Domain, key: bytes, a: bytes, b: bytes): (r: nat)
    requires d.p > 0
    ensures r < d.p
  {
    (Be(b) * ModPow(Be(a), Complement(d.p, Be(key)), d.p)) % d.p
  }

  /** What the hash check lets through of a message. */
  function Checked(sha: Hash, m: bytes): Option<bytes>
    requires |m| == MESSAGE
  {
    if m[1..33] == sha(m[33..]) then Some(m[33..]) else None
  }

  /** A residue too long for 255 bytes leaves the message buffer as it was. */
  function Decrypted(d: Domain, sha: Hash, key: bytes, encrypted: bytes, stale: bytes): Option<bytes>
    requires d.p > 0 && |encrypted| == 2 * WIDTH + 2 && |stale| == MESSAGE
  {
    var r := Plain(d, key, encrypted[1..WIDTH + 1], encrypted[WIDTH + 2..]);
    Checked(sha, if r < Pow(256, MESSAGE) then BeBytes(r, MESSAGE) else stale)
  }

  /** The masks y^k and a^c are inverse, where y = g^x and a = g^k. */
  lemma MasksCancel(g: nat, p: nat, x: nat, c: nat, k: nat)
    requires Prime(p) && 0 < g < p && x + c == p - 1
    ensures Eq(Pow(Pow(g, x), k) * Pow(Pow(g, k), c), 1, p)
  {
    PowPow(g, x, k);
    PowPow(g, k, c);
    PowAdd(g, x * k, k * c);
    MulDistRight(x, c, k);
    PowPow(g, x + c, k);
    ModUnique(g, p, 0, g);
    LittleTheorem(g, p);
    PowOne(k, p, Pow(g, x + c));
  }

  lemma Unmask(u: nat, v: nat, u': nat, v': nat, m: nat, p: nat)
    requires p > 0 && Eq(u, u', p) && Eq(v, v', p) && Eq(u' * v', 1, p)
    ensures (((u * m) % p) * v) % p == m % p
  {
    EqMul(u, u', v, v', p);
    EqMul(u * v, 1, m, m, p);
    EqMod(u * m, p);
    EqMul((u * m) % p, u * m, v, v, p);
    assert u * m * v == u * v * m;
  }

  lemma PowerOfPower(g: nat, m: nat, n: nat, p: int)
    requires p > 0
    ensures Eq(ModPow(ModPow(g, m, p), n, p), Pow(Pow(g, m), n), p)
  {
    var y := Pow(g, m);
    EqMod(Pow(y % p, n), p);
    PowMod(y, n, p);
  }

  /** The two numbers sent are read back. */
  lemma ParseOfEncrypted(d: Domain, sha: Hash, key: bytes, data: bytes, k: nat)
    requires d.Valid()
    ensures var e := Encrypted(d, sha, key, data, k);
      && |e| == 2 * WIDTH + 2
      && Be(e[1..WIDTH + 1]) == ModPow(d.g, k, d.p)
      && Be(e[WIDTH + 2..]) == (ModPow(Be(key), k, d.p) * Be(Message(sha, data))) % d.p
  {
    var e := Encrypted(d, sha, key, data, k);
    var a, b := ModPow(d.g, k, d.p), (ModPow(Be(key), k, d.p) * Be(Message(sha, data))) % d.p;
    assert e[1..WIDTH + 1] == BeBytes(a, WIDTH);
    assert e[WIDTH + 2..] == BeBytes(b, WIDTH);
    BeOfBeBytes(a, WIDTH);
    BeOfBeBytes(b, WIDTH);
  }

  lemma MaskedAndUnmasked(g: nat, p: nat, x: nat, c: nat, k: nat, m: nat)
    requires Prime(p) && 0 < g < p && x + c == p - 1
    ensures (((ModPow(ModPow(g, x, p), k, p) * m) % p) * ModPow(ModPow(g, k, p), c, p)) % p == m % p
  {
    PowerOfPower(g, x, k, p);
    PowerOfPower(g, k, c, p);
    MasksCancel(g, p, x, c, k);
    Unmask(ModPow(ModPow(g, x, p), k, p), ModPow(ModPow(g, k, p), c, p), Pow(Pow(g, x), k), Pow(Pow(g, k), c), m, p);
  }

  /** The numbers sent are g^k and m y^k, where m has the byte 0xFF, the hash and the data. */
  lemma SentNumbers(d: Domain, sha: Hash, key: bytes, data: bytes, k: nat)
    requires d.Valid()
    ensures var e := Encrypted(d, sha, key, data, k);
      && |e| == 514 && e[0] == 0 && e[257] == 0
      && Be(e[1..257]) == Pow(d.g, k) % d.p
      && Be(e[258..]) == (Pow(Be(key), k) % d.p * Be([0xFF] + sha(data) + data)) % d.p
  {
    ParseOfEncrypted(d, sha, key, data, k);
  }

  /** Whatever is returned has its hash beside it in the message. */
  lemma DecryptedHasHash(d: Domain, sha: Hash, key: bytes, encrypted: bytes, stale: bytes)
    requires d.p > 0 && |encrypted| == 2 * WIDTH + 2 && |stale| == MESSAGE
    ensures var r, x := Decrypted(d, sha, key, encrypted, stale), Plain(d, key, encrypted[1..257], encrypted[258..]);
      var m := if x < Pow(256, MESSAGE) then BeBytes(x, MESSAGE) else stale;
      && (r.Some? <==> m[1..33] == sha(m[33..]))
      && (r.Some? ==> r.value == m[33..] && m[1..33] == sha(r.value))
  {
  }

  lemma MessageRead(d: Domain, sha: Hash, data: bytes)
    requires d.Valid() && Hashes(sha) && |data| == DATA
    ensures var m := Message(sha, data);
      && |m| == MESSAGE && Checked(sha, m) == Some(data)
      && Be(m) % d.p == Be(m) < Pow(256, MESSAGE) && BeBytes(Be(m), MESSAGE) == m
  {
    var m := Message(sha, data);
    assert |m| == MESSAGE && m[1..33] == sha(data) && m[33..] == data;
    BeBound(m);
    BeBytesOfBe(m);
    ModUnique(Be(m), d.p, 0, Be(m));
  }

  /** Decryption of an encryption returns the data, whatever k was drawn. */
  lemma DecryptOfEncrypt(d: Domain, sha: Hash, priv: bytes, data: bytes, k: nat, stale: bytes)
    requires d.Valid() && Hashes(sha) && |data| == DATA && Be(priv) < d.p && |stale| == MESSAGE
    ensures var e := Encrypted(d, sha, PublicKey(d, priv), data, k);
      |e| == 2 * WIDTH + 2 && Decrypted(d, sha, priv, e, stale) == Some(data)
  {
    BeOfBeBytes(ModPow(d.g, Be(priv), d.p), WIDTH);
    ParseOfEncrypted(d, sha, PublicKey(d, priv), data, k);
    MaskedAndUnmasked(d.g, d.p, Be(priv), Complement(d.p, Be(priv)), k, Be(Message(sha, data)));
    MessageRead(d, sha, data);
  }

  /** A turn of p - 1 in the exponent changes nothing. */
  lemma PowTurn(g: nat, p: nat, n: nat, t: nat)
    requires Prime(p) && 0 < g < p && t == n + (p - 1)
    ensures Eq(Pow(g, n), Pow(g, t), p)
  {
    PowAdd(g, n, p - 1);
    ModUnique(g, p, 0, g);
    LittleTheorem(g, p);
    EqMul(Pow(g, n), Pow(g, n), Pow(g, p - 1), 1, p);
  }

  /** The masks y^k and a^c make (g^(2x))^k, where y = g^x, a = g^k and c = x - (p - 1). */
  lemma MasksDouble(g: nat, p: nat, x: nat, c: nat, k: nat)
    requires Prime(p) && 0 < g < p && x == c + (p - 1)
    ensures Eq(Pow(Pow(g, x), k) * Pow(Pow(g, k), c), Pow(Pow(g, x + x), k), p)
  {
    PowSwap(g, k, c);
    PowProduct(Pow(g, x), Pow(g, c), k);
    PowAdd(g, x, c);
    PowTurn(g, p, x + c, x + x);
    PowEq(Pow(g, x + c), Pow(g, x + x), k, p);
  }

  lemma Reveal(u: nat, v: nat, u': nat, v': nat, w: nat, m: nat, p: nat)
    requires p > 0 && Eq(u, u', p) && Eq(v, v', p) && Eq(u' * v', w, p)
    ensures (((u * m) % p) * v) % p == (m * (w % p)) % p
  {
    EqMul(u, u', v, v', p);
    EqMod(w, p);
    EqMul(m, m, u * v, w % p, p);
    EqMod(u * m, p);
    EqMul((u * m) % p, u * m, v, v, p);
    assert u * m * v == m * (u * v);
  }

  lemma MaskedByLargeKey(g: nat, p: nat, x: nat, c: nat, k: nat, m: nat)
    requires Prime(p) && 0 < g < p && x == c + (p - 1)
    ensures (((ModPow(ModPow(g, x, p), k, p) * m) % p) * ModPow(ModPow(g, k, p), c, p)) % p
      == (m * ModPow(Pow(g, x + x), k, p)) % p
  {
    PowerOfPower(g, x, k, p);
    PowerOfPower(g, k, c, p);
    MasksDouble(g, p, x, c, k);
    Reveal(ModPow(ModPow(g, x, p), k, p), ModPow(ModPow(g, k, p), c, p), Pow(Pow(g, x), k), Pow(Pow(g, k), c),
           Pow(Pow(g, x + x), k), m, p);
  }

  lemma NeutralFactor(m: nat, w: nat, p: nat)
    requires Prime(p) && 0 < m < p && w < p
    ensures (m * w) % p == m <==> w == 1
  {
    ModUnique(m, p, 0, m);
    if (m * w) % p == m {
      NeutralIsOne(m, w, p);
      EqSmall(w, 1, p);
    }
  }

  /** What is decrypted with the private key, before the hash is checked. */
  function Returned(d: Domain, sha: Hash, priv: bytes, data: bytes, k: nat): nat
    requires d.p > 0
  {
    var e := Encrypted(d, sha, PublicKey(d, priv), data, k);
    Plain(d, priv, e[1..WIDTH + 1], e[WIDTH + 2..])
  }

  /** With a private key x of p or more, the number decrypted is the message times g^(2kx): it is
      the message exactly if that power is one. */
  lemma LargeKeyNumber(d: Domain, sha: Hash, priv: bytes, data: bytes, k: nat)
    requires d.Valid() && Hashes(sha) && |data| == DATA && Be(priv) >= d.p
    ensures var m, factor := Be(Message(sha, data)), ModPow(Pow(d.g, Be(priv) + Be(priv)), k, d.p);
      && Returned(d, sha, priv, data, k) == (m * factor) % d.p
      && (Returned(d, sha, priv, data, k) == m <==> factor == 1)
  {
    LargeKeyProduct(d, sha, priv, data, k);
    MessageRead(d, sha, data);
    MessagePositive(sha, data);
    NeutralFactor(Be(Message(sha, data)), ModPow(Pow(d.g, Be(priv) + Be(priv)), k, d.p), d.p);
  }

  lemma LargeKeyProduct(d: Domain, sha: Hash, priv: bytes, data: bytes, k: nat)
    requires d.Valid() && Be(priv) >= d.p
    ensures Returned(d, sha, priv, data, k)
      == (Be(Message(sha, data)) * ModPow(Pow(d.g, Be(priv) + Be(priv)), k, d.p)) % d.p
  {
    ReturnedIs(d, sha, priv, data, k);
    MaskedByLargeKey(d.g, d.p, Be(priv), Complement(d.p, Be(priv)), k, Be(Message(sha, data)));
  }

  /** Nothing looks at the first byte of a message. */
  lemma CheckedIff(sha: Hash, m: bytes, data: bytes)
    requires Hashes(sha) && |data| == DATA && |m| == MESSAGE
    ensures Checked(sha, m) == Some(data) <==> m[1..] == Message(sha, data)[1..]
  {
    var hash := sha(data);
    assert Message(sha, data)[1..] == hash + data;
    assert m[1..] == m[1..33] + m[33..];
    assert m[1..][..32] == m[1..33] && m[1..][32..] == m[33..];
    assert (hash + data)[..32] == hash && (hash + data)[32..] == data;
  }

  /** The buffer holds the data exactly if the number r in it agrees with the message m in its 254
      low bytes; a number too long is not in it, and what was there before is looked at. */
  ghost predicate Reads(r: nat, m: nat, stale: bytes, message: bytes)
    requires |stale| == MESSAGE && |message| == MESSAGE
  {
    if r < Pow(256, MESSAGE) then r % Pow(256, MESSAGE - 1) == m % Pow(256, MESSAGE - 1)
    else stale[1..] == message[1..]
  }

  /** When an encryption decrypts to its data, for any private key and draw. */
  lemma DecryptsIff(d: Domain, sha: Hash, priv: bytes, data: bytes, k: nat, stale: bytes)
    requires d.Valid() && Hashes(sha) && |data| == DATA && |stale| == MESSAGE
    ensures var e, message := Encrypted(d, sha, PublicKey(d, priv), data, k), Message(sha, data);
      && |e| == 2 * WIDTH + 2 && |message| == MESSAGE
      && (Decrypted(d, sha, priv, e, stale) == Some(data)
          <==> Reads(Returned(d, sha, priv, data, k), Be(message), stale, message))
  {
    var r, message, low := Returned(d, sha, priv, data, k), Message(sha, data), MESSAGE - 1;
    ParseOfEncrypted(d, sha, PublicKey(d, priv), data, k);
    MessageRead(d, sha, data);
    CheckedIff(sha, if r < Pow(256, MESSAGE) then BeBytes(r, MESSAGE) else stale, data);
    BeBytesTail(r, low);
    BeBytesTail(Be(message), low);
    SameLowBytes(r, Be(message), low);
  }

  /** With a private key x of p or more, what `ElGamalDecrypt` returns is the data exactly if
      m g^(2kx) mod p reads as m. */
  lemma LargeKeyDecrypts(d: Domain, sha: Hash, priv: bytes, data: bytes, k: nat, stale: bytes)
    requires d.Valid() && Hashes(sha) && |data| == DATA && Be(priv) >= d.p && |stale| == MESSAGE
    ensures var e, message := Encrypted(d, sha, PublicKey(d, priv), data, k), Message(sha, data);
      var m, factor := Be(message), ModPow(Pow(d.g, Be(priv) + Be(priv)), k, d.p);
      && |e| == 2 * WIDTH + 2 && |message| == MESSAGE
      && (Decrypted(d, sha, priv, e, stale) == Some(data) <==> Reads((m * factor) % d.p, m, stale, message))
  {
    LargeKeyNumber(d, sha, priv, data, k);
    DecryptsIff(d, sha, priv, data, k, stale);
  }

  /** 2^(2p) is four modulo p. */
  lemma FourTurns(g: nat, p: nat, x: nat, k: nat)
    requires Prime(p) && p >= 4 && x == p && g == 2 && k == 1
    ensures ModPow(Pow(g, x + x), k, p) == 4
  {
    assert p % 2 != 0;
    PowTurn(g, p, g, p + 1);
    PowTurn(g, p, p + 1, x + x);
    var y := Pow(g, x + x);
    assert Pow(y, k) == y * Pow(y, 0);
    assert Pow(g, g) == 4;
    ModUnique(4, p, 0, 4);
  }

  /** The number 4 m is too long for the buffer and is below p. */
  lemma FourfoldTooLong(sha: Hash, data: bytes, p: nat)
    requires Hashes(sha) && |data| == DATA && 4 * Pow(256, MESSAGE) <= p
    ensures var m := Be(Message(sha, data)); Pow(256, MESSAGE) <= 4 * m == (m * 4) % p
  {
    var message, low := Message(sha, data), MESSAGE - 1;
    assert |message| == low + 1;
    BeFront(message);
    BeBound(message);
    Fourfold(Be(message), Pow(256, low), Be(message[1..]), p);
  }

  lemma Fourfold(m: nat, b: nat, t: nat, p: nat)
    requires m == 0xFF * b + t < 256 * b && 4 * (256 * b) <= p
    ensures 256 * b <= 4 * m == (m * 4) % p
  {
    ModUnique(m * 4, p, 0, m * 4);
  }

  /** A factor of four loses the data unless the buffer happened to hold them. */
  lemma FactorFour(d: Domain, sha: Hash, priv: bytes, data: bytes, k: nat, stale: bytes)
    requires d.Valid() && Hashes(sha) && |data| == DATA && Be(priv) >= d.p && |stale| == MESSAGE
    requires 4 * Pow(256, MESSAGE) <= d.p && ModPow(Pow(d.g, Be(priv) + Be(priv)), k, d.p) == 4
    ensures var e := Encrypted(d, sha, PublicKey(d, priv), data, k);
      && |e| == 2 * WIDTH + 2
      && (Decrypted(d, sha, priv, e, stale) == Some(data) <==> stale[1..] == Message(sha, data)[1..])
  {
    FourfoldTooLong(sha, data, d.p);
    LargeKeyDecrypts(d, sha, priv, data, k, stale);
  }

  /** With elgg = 2, x = p and k = 1 the factor is four. */
  lemma LargeKeyLoses(d: Domain, sha: Hash, priv: bytes, data: bytes, k: nat, stale: bytes)
    requires d.Valid() && Hashes(sha) && |data| == DATA && |stale| == MESSAGE
    requires d.g == 2 && 4 * Pow(256, MESSAGE) <= d.p && Be(priv) == d.p && k == 1
    ensures var e := Encrypted(d, sha, PublicKey(d, priv), data, k);
      && |e| == 2 * WIDTH + 2
      && (Decrypted(d, sha, priv, e, stale) == Some(data) <==> stale[1..] == Message(sha, data)[1..])
  {
    FourTurns(d.g, d.p, Be(priv), k);
    FactorFour(d, sha, priv, data, k, stale);
  }

  /** A buffer of zeros and data of ones. */
  lemma LargeKeyExample(d: Domain, sha: Hash, k: nat)
    requires d.Valid() && Hashes(sha) && d.g == 2 && 4 * Pow(256, MESSAGE) <= d.p < Pow(256, WIDTH) && k == 1
    ensures var priv, data := BeBytes(d.p, WIDTH), seq(DATA, _ => 1);
      var e := Encrypted(d, sha, PublicKey(d, priv), data, k);
      |e| == 2 * WIDTH + 2 && Decrypted(d, sha, priv, e, Zeros(MESSAGE)) != Some(data)
  {
    var data: bytes, stale := seq(DATA, _ => 1), Zeros(MESSAGE);
    assert stale[1..][32] == 0 && Message(sha, data)[1..][32] == data[0];
    BeOfBeBytes(d.p, WIDTH);
    LargeKeyLoses(d, sha, BeBytes(d.p, WIDTH), data, k, stale);
  }

  /** The message decrypted is the data. */
  lemma ReturnedIsRead(d: Domain, sha: Hash, priv: bytes, data: bytes, k: nat, stale: bytes)
    requires d.Valid() && Hashes(sha) && |data| == DATA && |stale| == MESSAGE
    requires Returned(d, sha, priv, data, k) == Be(Message(sha, data))
    ensures var e := Encrypted(d, sha, PublicKey(d, priv), data, k);
      |e| == 2 * WIDTH + 2 && Decrypted(d, sha, priv, e, stale) == Some(data)
  {
    MessageRead(d, sha, data);
    DecryptsIff(d, sha, priv, data, k, stale);
  }

  lemma ReturnedIs(d: Domain, sha: Hash, priv: bytes, data: bytes, k: nat)
    requires d.Valid()
    ensures Returned(d, sha, priv, data, k) ==
      (((ModPow(ModPow(d.g, Be(priv), d.p), k, d.p) * Be(Message(sha, data))) % d.p)
       * ModPow(ModPow(d.g, k, d.p), Complement(d.p, Be(priv)), d.p)) % d.p
  {
    BeOfBeBytes(ModPow(d.g, Be(priv), d.p), WIDTH);
    ParseOfEncrypted(d, sha, PublicKey(d, priv), data, k);
  }

  lemma MessagePositive(sha: Hash, data: bytes)
    ensures Be(Message(sha, data)) > 0
  {
    BeFront(Message(sha, data));
  }

  /** `bn2buf`. */
  method BnToBuf(v: nat, buf: array<byte>, at: nat, len: nat) returns (ok: bool)
    requires at + len <= buf.Length
    modifies buf
    ensures ok <==> v < Pow(256, len)
    ensures buf[..] == if ok then old(buf[..at]) + BeBytes(v, len) + old(buf[at + len..]) else old(buf[..])
  {
    NumBytesFits(v, len);
    var n := NumBytes(v);
    ok := n <= len;
    ghost var was := buf[..];
    if ok {
      var offset, digits := len - n, BeBytes(v, n);
      BePadded(v, len);
      forall i | 0 <= i < n { buf[at + offset + i] := digits[i]; }
      forall i | 0 <= i < offset { buf[at + i] := 0; }
      assert buf[at..at + len] == Zeros(offset) + digits;
      assert buf[..at] == was[..at] && buf[at + len..] == was[at + len..];
      assert buf[..] == buf[..at] + buf[at..at + len] + buf[at + len..];
    }
  }

  /** `GenerateElGamalKeyPair`, once the private key is drawn. */
  method GenerateKey(d: Domain, priv: bytes, pub: array<byte>)
    requires d.Valid() && pub.Length == WIDTH
    modifies pub
    ensures pub[..] == PublicKey(d, priv)
  {
    var ok := BnToBuf(ModPow(d.g, Be(priv), d.p), pub, 0, WIDTH);
    assert ok;
  }

  /** g^k, from the table when there is one. */
  method GeneratorPower(d: Domain, table: ElggTable?, k: nat) returns (a: nat)
    requires d.p > 0 && k > 0
    requires table != null ==>
      table.Valid() && table.g == d.g && table.m.p == d.p && NumBytes(k) <= table.entries.Length0
    ensures a == ModPow(d.g, k, d.p)
  {
    if table != null {
      var power := table.PowNumber(k);
      a := power.value;
    } else {
      a := ModPow(d.g, k, d.p);
    }
  }

  /** `ElGamalEncrypt`, with or without the table; k is drawn odd. */
  method Encrypt(d: Domain, sha: Hash, table: ElggTable?, key: bytes, data: bytes, k: nat, encrypted: array<byte>)
    requires d.Valid() && Hashes(sha) && |key| == WIDTH && |data| == DATA && k > 0
    requires table != null ==>
      table.Valid() && table.g == d.g && table.m.p == d.p && NumBytes(k) <= table.entries.Length0
    requires encrypted.Length == 2 * WIDTH + 2
    modifies encrypted
    ensures encrypted[..] == Encrypted(d, sha, key, data, k)
  {
    var a := GeneratorPower(d, table, k);
    var b := (ModPow(Be(key), k, d.p) * Be(Message(sha, data))) % d.p;
    PutNumber(a, encrypted, 0);
    PutNumber(b, encrypted, WIDTH + 1);
    ghost var head, tail := encrypted[..WIDTH + 1], encrypted[WIDTH + 1..];
    assert head == [0] + BeBytes(a, WIDTH) && tail == [0] + BeBytes(b, WIDTH);
    assert encrypted[..] == head + tail;
  }

  /** A zero byte and 256 bytes of a number that fits them. */
  method PutNumber(v: nat, buf: array<byte>, at: nat)
    requires v < Pow(256, WIDTH) && at + WIDTH + 1 <= buf.Length
    modifies buf
    ensures buf[..at] == old(buf[..at]) && buf[at + WIDTH + 1..] == old(buf[at + WIDTH + 1..])
    ensures buf[at..at + WIDTH + 1] == [0] + BeBytes(v, WIDTH)
  {
    ghost var was := buf[..];
    buf[at] := 0;
    assert buf[..at + 1] == was[..at] + [0] && buf[at + 1 + WIDTH..] == was[at + 1 + WIDTH..];
    var fits := BnToBuf(v, buf, at + 1, WIDTH);
    assert fits;
  }

  /** `ElGamalDecrypt`; m starts with whatever the stack held. */
  method Decrypt(d: Domain, sha: Hash, key: bytes, encrypted: bytes, stale: bytes, data: array<byte>) returns (ok: bool)
    requires d.Valid() && |encrypted| == 2 * WIDTH + 2 && |stale| == MESSAGE && data.Length == DATA
    modifies data
    ensures var r := Decrypted(d, sha, key, encrypted, stale);
      ok == r.Some? && data[..] == if ok then r.value else old(data[..])
  {
    var m := new byte[MESSAGE](i requires 0 <= i < MESSAGE => stale[i]);
    assert m[..] == stale;
    var r := Plain(d, key, encrypted[1..WIDTH + 1], encrypted[WIDTH + 2..]);
    var _ := BnToBuf(r, m, 0, MESSAGE);
    assert m[..] == if r < Pow(256, MESSAGE) then BeBytes(r, MESSAGE) else stale;
    ok := TakeChecked(sha, m, data);
  }

  /** The data are copied out if their hash is right. */
  method TakeChecked(sha: Hash, m: array<byte>, data: array<byte>) returns (ok: bool)
    requires m.Length == MESSAGE && data.Length == DATA && m != data
    modifies data
    ensures var r := Checked(sha, m[..]); ok == r.Some? && data[..] == if ok then r.value else old(data[..])
  {
    ghost var message := m[..];
    assert m[1..33] == message[1..33] && m[33..] == message[33..];
    ok := m[1..33] == sha(m[33..]);
    if ok {
      forall i | 0 <= i < DATA { data[i] := m[33 + i]; }
      assert data[..] == m[33..];
    }
    assert m[..] == message;
  }
}
