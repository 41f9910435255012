/** The ChaCha20 block function as section 2.3 of RFC 8439 describes it: rounds on the columns of a
    four-by-four matrix of words, and rounds on its diagonals. */
module ChaChaLaws {
  import opened Num
  import opened Bits
  import opened ChaCha20

  //
  // The quarter round
  //

  /** x <<<= n, as Or of the two shifted parts. */
  function Rotated(x: word, hi: nat, lo: nat): nat
    requires lo > 0
  {
    var y: int := x;
    Or((y * hi) % 0x1_0000_0000, y / lo)
  }

  /** A line of the quarter round: a += b; d ^= a; d <<<= n. */
  ghost predicate Line(a: word, b: word, d: word, a': word, d': word, hi: nat, lo: nat)
    requires lo > 0
  {
    a' == (a + b) % 0x1_0000_0000 && d' == Rotated(Xor32(d, a'), hi, lo)
  }

  /** The four lines, with rotations by 16, 12, 8 and 7. */
  lemma QuarterLines(q: Four, r: Four, a: word, b: word, c: word, d: word)
    requires Line(q.a, q.b, q.d, a, d, 0x1_0000, 0x1_0000) && Line(q.c, d, q.b, c, b, 0x1000, 0x10_0000)
    requires Line(a, b, d, r.a, r.d, 0x100, 0x100_0000) && Line(c, r.d, b, r.c, r.b, 0x80, 0x200_0000)
    ensures Quarter(q) == r
  {
    LineIs(q.a, q.b, q.d, a, d, 16, 0x1_0000, 0x1_0000);
    LineIs(q.c, d, q.b, c, b, 12, 0x1000, 0x10_0000);
    LineIs(a, b, d, r.a, r.d, 8, 0x100, 0x100_0000);
    LineIs(c, r.d, b, r.c, r.b, 7, 0x80, 0x200_0000);
  }

  lemma LineIs(a: word, b: word, d: word, a': word, d': word, n: nat, hi: nat, lo: nat)
    requires (n == 16 && hi == 0x1_0000 && lo == 0x1_0000) || (n == 12 && hi == 0x1000 && lo == 0x10_0000)
      || (n == 8 && hi == 0x100 && lo == 0x100_0000) || (n == 7 && hi == 0x80 && lo == 0x200_0000)
    requires Line(a, b, d, a', d', hi, lo)
    ensures hi * lo == 0x1_0000_0000 && Mix(a, b, d, hi, lo) == (a', d')
  {
    RotatedIs(Xor32(d, a'), n, hi, lo);
  }

  lemma RotatedIs(x: word, n: nat, hi: nat, lo: nat)
    requires (n == 16 && hi == 0x1_0000 && lo == 0x1_0000) || (n == 12 && hi == 0x1000 && lo == 0x10_0000)
      || (n == 8 && hi == 0x100 && lo == 0x100_0000) || (n == 7 && hi == 0x80 && lo == 0x200_0000)
    ensures hi * lo == 0x1_0000_0000 && Rotl(x, hi, lo) == Rotated(x, hi, lo)
  {
    RotationPowers(n, hi, lo);
    RotlIsShifts(x, n, hi, lo);
  }

  lemma RotationPowers(n: nat, hi: nat, lo: nat)
    requires (n == 16 && hi == 0x1_0000 && lo == 0x1_0000) || (n == 12 && hi == 0x1000 && lo == 0x10_0000)
      || (n == 8 && hi == 0x100 && lo == 0x100_0000) || (n == 7 && hi == 0x80 && lo == 0x200_0000)
    ensures hi == Pow(2, n) && lo == Pow(2, 32 - n)
  {
    var four, eight := 4, 8;
    assert Pow(2, four) == 16;
    PowAdd(2, four, four);
    PowAdd(2, eight, four);
    PowAdd(2, eight, eight);
    PowAdd(2, 16, four);
    PowAdd(2, 16, eight);
    assert Pow(2, eight) == 2 * Pow(2, 7);
    assert Pow(2, 25) == 2 * Pow(2, 24);
  }

  //
  // Rounds on the matrix
  //

  datatype Row = Row(p: word, q: word, r: word, s: word)
  {
    function Left(): Row { Row(q, r, s, p) }

    function Right(): Row { Row(s, p, q, r) }
  }

  datatype Matrix = Matrix(a: Row, b: Row, c: Row, d: Row)

  /** The words in rows of four. */
  function AsMatrix(x: seq<word>): Matrix
    requires |x| == 16
  {
    Matrix(Row(x[0], x[1], x[2], x[3]), Row(x[4], x[5], x[6], x[7]), Row(x[8], x[9], x[10], x[11]),
           Row(x[12], x[13], x[14], x[15]))
  }

  type Mixer = Four -> Four

  /** f on each of the four columns. */
  function ColumnRound(f: Mixer, m: Matrix): Matrix
  {
    var p, q := f(Four(m.a.p, m.b.p, m.c.p, m.d.p)), f(Four(m.a.q, m.b.q, m.c.q, m.d.q));
    var r, s := f(Four(m.a.r, m.b.r, m.c.r, m.d.r)), f(Four(m.a.s, m.b.s, m.c.s, m.d.s));
    Matrix(Row(p.a, q.a, r.a, s.a), Row(p.b, q.b, r.b, s.b), Row(p.c, q.c, r.c, s.c), Row(p.d, q.d, r.d, s.d))
  }

  /** Rows 1, 2 and 3 rotated left by 1, 2 and 3: the diagonals become columns. */
  function Slanted(m: Matrix): Matrix
  {
    Matrix(m.a, m.b.Left(), m.c.Left().Left(), m.d.Left().Left().Left())
  }

  function Straight(m: Matrix): Matrix
  {
    Matrix(m.a, m.b.Right(), m.c.Right().Right(), m.d.Right().Right().Right())
  }

  /** A round on the columns and one on the diagonals. */
  function DoubleRound(f: Mixer, m: Matrix): Matrix
  {
    Straight(ColumnRound(f, Slanted(ColumnRound(f, m))))
  }

  function DoubleRounds(f: Mixer, m: Matrix, n: nat): Matrix
  {
    if n == 0 then m else DoubleRound(f, DoubleRounds(f, m, n - 1))
  }

  /** `quarterround` with f in place of the quarter round. */
  function MixAt(f: Mixer, x: seq<word>, a: nat, b: nat, c: nat, d: nat): (y: seq<word>)
    requires |x| == 16 && a < 16 && b < 16 && c < 16 && d < 16
    ensures |y| == 16
  {
    var q := f(Four(x[a], x[b], x[c], x[d]));
    x[a := q.a][b := q.b][c := q.c][d := q.d]
  }

  lemma ColumnsMixed(f: Mixer, x: seq<word>)
    requires |x| == 16
    ensures AsMatrix(MixAt(f, MixAt(f, MixAt(f, MixAt(f, x, 0, 4, 8, 12), 1, 5, 9, 13), 2, 6, 10, 14), 3, 7, 11, 15))
      == ColumnRound(f, AsMatrix(x))
  {
  }

  lemma DiagonalsMixed(f: Mixer, x: seq<word>)
    requires |x| == 16
    ensures AsMatrix(MixAt(f, MixAt(f, MixAt(f, MixAt(f, x, 0, 5, 10, 15), 1, 6, 11, 12), 2, 7, 8, 13), 3, 4, 9, 14))
      == Straight(ColumnRound(f, Slanted(AsMatrix(x))))
  {
  }

  ghost predicate IsQuarter(f: Mixer)
  {
    forall q {:trigger f(q)} :: f(q) == Quarter(q)
  }

  lemma QuarterMixes(f: Mixer, x: seq<word>, a: nat, b: nat, c: nat, d: nat)
    requires IsQuarter(f) && |x| == 16 && a < 16 && b < 16 && c < 16 && d < 16
    ensures QuarterAt(x, a, b, c, d) == MixAt(f, x, a, b, c, d)
  {
    var q := Four(x[a], x[b], x[c], x[d]);
    assert f(q) == Quarter(q);
  }

  /** The first k quarter rounds of a double round, with f. */
  function Mixed(f: Mixer, x: seq<word>, k: nat): (y: seq<word>)
    requires |x| == 16 && k <= QUARTERS
    ensures |y| == 16
  {
    if k == 0 then x
    else var q := Schedule(k - 1); MixAt(f, Mixed(f, x, k - 1), q.a, q.b, q.c, q.d)
  }

  lemma MixedStep(f: Mixer, x: seq<word>, y: seq<word>, k: nat, q: Index)
    requires |x| == 16 && k < QUARTERS && q == Schedule(k) && y == Mixed(f, x, k)
    ensures Mixed(f, x, k + 1) == MixAt(f, y, q.a, q.b, q.c, q.d)
  {
  }

  lemma StepMixes(f: Mixer, x: seq<word>, k: nat, n: nat)
    requires IsQuarter(f) && |x| == 16 && k < QUARTERS && n == k + 1 && Sweep(x, k) == Mixed(f, x, k)
    ensures Sweep(x, n) == Mixed(f, x, n)
  {
    var q := Schedule(k);
    QuarterMixes(f, Mixed(f, x, k), q.a, q.b, q.c, q.d);
  }

  lemma {:induction false} SweepMixes(f: Mixer, x: seq<word>, k: nat)
    requires IsQuarter(f) && |x| == 16 && k <= QUARTERS
    ensures Sweep(x, k) == Mixed(f, x, k)
  {
    if k > 0 {
      var j: nat := k - 1;
      SweepMixes(f, x, j);
      StepMixes(f, x, j, k);
    }
  }

  lemma MixedColumns(f: Mixer, x: seq<word>, y: seq<word>)
    requires |x| == 16 && y == Mixed(f, x, 4)
    ensures AsMatrix(y) == ColumnRound(f, AsMatrix(x))
  {
    var u := MixAt(f, x, 0, 4, 8, 12);
    MixedStep(f, x, x, 0, Index(0, 4, 8, 12));
    var v := MixAt(f, u, 1, 5, 9, 13);
    MixedStep(f, x, u, 1, Index(1, 5, 9, 13));
    var w := MixAt(f, v, 2, 6, 10, 14);
    MixedStep(f, x, v, 2, Index(2, 6, 10, 14));
    MixedStep(f, x, w, 3, Index(3, 7, 11, 15));
    ColumnsMixed(f, x);
  }

  lemma MixedDiagonals(f: Mixer, x: seq<word>, y: seq<word>, four: nat)
    requires |x| == 16 && four == 4 && y == Mixed(f, x, four)
    ensures AsMatrix(Mixed(f, x, four + 4)) == Straight(ColumnRound(f, Slanted(AsMatrix(y))))
  {
    var u := MixAt(f, y, 0, 5, 10, 15);
    MixedStep(f, x, y, four, Index(0, 5, 10, 15));
    var v := MixAt(f, u, 1, 6, 11, 12);
    MixedStep(f, x, u, four + 1, Index(1, 6, 11, 12));
    var w := MixAt(f, v, 2, 7, 8, 13);
    MixedStep(f, x, v, four + 2, Index(2, 7, 8, 13));
    MixedStep(f, x, w, four + 3, Index(3, 4, 9, 14));
    DiagonalsMixed(f, y);
  }

  lemma MixedIs(f: Mixer, x: seq<word>, four: nat)
    requires |x| == 16 && four == 4
    ensures AsMatrix(Mixed(f, x, four + 4)) == DoubleRound(f, AsMatrix(x))
  {
    var y := Mixed(f, x, four);
    MixedColumns(f, x, y);
    MixedDiagonals(f, x, y, four);
  }

  lemma SweepIs(f: Mixer, x: seq<word>, eight: nat)
    requires IsQuarter(f) && |x| == 16 && eight == QUARTERS
    ensures AsMatrix(Sweep(x, eight)) == DoubleRound(f, AsMatrix(x))
  {
    SweepMixes(f, x, eight);
    MixedIs(f, x, 4);
  }

  lemma RoundStep(x: seq<word>, m: nat, n: nat, eight: nat)
    requires |x| == 16 && n == m + 1 && eight == QUARTERS
    ensures Rounds(x, n) == Sweep(Rounds(x, m), eight)
  {
  }

  lemma NextRound(f: Mixer, x: seq<word>, m: nat, n: nat, eight: nat)
    requires IsQuarter(f) && |x| == 16 && n == m + 1 && eight == QUARTERS
    ensures AsMatrix(Rounds(x, n)) == DoubleRound(f, AsMatrix(Rounds(x, m)))
  {
    RoundStep(x, m, n, eight);
    SweepIs(f, Rounds(x, m), eight);
  }

  lemma {:induction false} RoundsAre(f: Mixer, x: seq<word>, n: nat)
    requires IsQuarter(f) && |x| == 16
    ensures AsMatrix(Rounds(x, n)) == DoubleRounds(f, AsMatrix(x), n)
  {
    if n > 0 {
      var m: nat := n - 1;
      RoundsAre(f, x, m);
      NextRound(f, x, m, n, QUARTERS);
    }
  }

  /** The words of a matrix, row by row. */
  function Words(m: Matrix): (x: seq<word>)
    ensures |x| == 16
  {
    [m.a.p, m.a.q, m.a.r, m.a.s, m.b.p, m.b.q, m.b.r, m.b.s,
     m.c.p, m.c.q, m.c.r, m.c.s, m.d.p, m.d.q, m.d.r, m.d.s]
  }

  lemma WordsOfMatrix(x: seq<word>)
    requires |x| == 16
    ensures Words(AsMatrix(x)) == x
  {
  }

  /** The block function: ten double rounds, and the input added back. */
  lemma BlockIs(x: seq<word>, f: Mixer, ten: nat)
    requires |x| == 16 && IsQuarter(f) && ten == 10
    ensures BlockBytes(x) == Serial(SumWords(Words(DoubleRounds(f, AsMatrix(x), ten)), x))
  {
    RoundsAre(f, x, ten);
    WordsOfMatrix(Rounds(x, ten));
  }

  /** A word is four bytes, the lowest first. */
  lemma {:induction false} SerialAt(x: seq<word>, i: nat)
    requires i < |x|
    ensures Serial(x)[4 * i..4 * i + 4] == LeBytes(x[i], 4)
  {
    var n := |x| - 1;
    if i < n {
      SerialAt(x[..n], i);
      assert Serial(x)[4 * i..4 * i + 4] == Serial(x[..n])[4 * i..4 * i + 4];
    }
  }

  //
  // The initial state
  //

  lemma SerialPush(x: seq<word>, w: word)
    ensures Serial(x + [w]) == Serial(x) + LeBytes(w, 4)
  {
    assert (x + [w])[..|x|] == x;
  }

  lemma {:induction false} SerialConcat(x: seq<word>, y: seq<word>)
    ensures Serial(x + y) == Serial(x) + Serial(y)
  {
    if y == [] {
      assert x + y == x;
    } else {
      var z, w := y[..|y| - 1], y[|y| - 1];
      SerialConcat(x, z);
      SerialPush(x + z, w);
      SerialPush(z, w);
      assert y == z + [w] && x + y == x + z + [w];
    }
  }

  lemma {:induction false} SerialOfLoad(s: bytes, n: nat)
    requires |s| == 4 * n
    ensures Serial(LoadWords(s, n)) == s
  {
    if n == 0 {
      assert LoadWords(s, n) == [];
    } else {
      var t, w := s[..4 * (n - 1)], s[4 * (n - 1)..];
      SerialOfLoad(t, n - 1);
      LoadPush(s, n);
      LeBytesOfLe(w, 4);
      assert w[..4] == w && s == t + w;
    }
  }

  lemma LoadPush(s: bytes, n: nat)
    requires n > 0 && |s| == 4 * n
    ensures var x := LoadWords(s, n);
      x[..n - 1] == LoadWords(s[..4 * (n - 1)], n - 1) && x[n - 1] == LoadWord(s[4 * (n - 1)..])
  {
    var x, t := LoadWords(s, n), s[..4 * (n - 1)];
    forall i | 0 <= i < n - 1
      ensures x[i] == LoadWords(t, n - 1)[i]
    {
      assert t[4 * i..4 * i + 4] == s[4 * i..4 * i + 4];
    }
    assert s[4 * (n - 1)..] == s[4 * (n - 1)..4 * (n - 1) + 4];
  }

  function Text(s: string): bytes
  {
    seq(|s|, i requires 0 <= i < |s| => s[i] as int % 256)
  }

  /** The state begins with a text, the key, the counter and the nonce. */
  lemma InitialState(key: bytes, nonce: bytes, c: word)
    requires |key| == 32 && |nonce| == 12
    ensures Serial(InitWords(key, nonce, c)) == Text("expand 32-byte k") + key + LeBytes(c, 4) + nonce
  {
    var k: seq<word> := [0x61707865, 0x3320646e, 0x79622d32, 0x6b206574];
    SerialConcat(k, LoadWords(key, 8));
    SerialConcat(k + LoadWords(key, 8), [c]);
    SerialConcat(k + LoadWords(key, 8) + [c], LoadWords(nonce, 3));
    SerialOfLoad(key, 8);
    SerialOfLoad(nonce, 3);
    SerialOne(c);
    SerialText(k);
  }

  lemma SerialOne(c: word)
    ensures Serial([c]) == LeBytes(c, 4)
  {
    assert [c][..0] == [];
  }

  lemma SerialText(k: seq<word>)
    requires k == [0x61707865, 0x3320646e, 0x79622d32, 0x6b206574]
    ensures Serial(k) == Text("expand 32-byte k")
  {
    SerialFour(0x61707865, 0x3320646e, 0x79622d32, 0x6b206574);
    WordOf(0x61707865, 0x65, 0x78, 0x70, 0x61);
    WordOf(0x3320646e, 0x6e, 0x64, 0x20, 0x33);
    WordOf(0x79622d32, 0x32, 0x2d, 0x62, 0x79);
    WordOf(0x6b206574, 0x74, 0x65, 0x20, 0x6b);
    TextBytes();
  }

  lemma TextBytes()
    ensures Text("expand 32-byte k")
      == [0x65, 0x78, 0x70, 0x61] + [0x6e, 0x64, 0x20, 0x33] + [0x32, 0x2d, 0x62, 0x79] + [0x74, 0x65, 0x20, 0x6b]
  {
  }

  lemma SerialFour(a: word, b: word, c: word, d: word)
    ensures Serial([a, b, c, d]) == LeBytes(a, 4) + LeBytes(b, 4) + LeBytes(c, 4) + LeBytes(d, 4)
  {
    SerialOne(a);
    SerialOne(b);
    SerialOne(c);
    SerialOne(d);
    SerialConcat([a], [b]);
    SerialConcat([a] + [b], [c]);
    SerialConcat([a] + [b] + [c], [d]);
    assert [a, b, c, d] == [a] + [b] + [c] + [d];
  }

  lemma WordOf(v: word, a: nat, b: nat, c: nat, d: nat)
    requires a < 256 && b < 256 && c < 256 && d < 256
    requires v == a + 0x100 * b + 0x1_0000 * c + 0x100_0000 * d
    ensures LeBytes(v, 4) == [a, b, c, d]
  {
    var t: bytes := [a, b, c, d];
    LeWord(a, b, c, d, []);
    assert t == [a, b, c, d] + [];
    LeBytesOfLe(t, 4);
    assert t[..4] == t;
  }

  //
  // The stream
  //

  /** Byte j of a message is combined with byte j mod 64 of the block whose counter is j div 64 on. */
  lemma StreamBlocks(key: bytes, nonce: bytes, c: word, m: bytes, j: nat, n: word)
    requires |key| == 32 && |nonce| == 12 && j < |m| && n == ((c as int) + j / 64) % 0x1_0000_0000
    ensures Crypt(Stream(KeyBlocks(InitWords(key, nonce, c))), 0, m)[j]
      == XorByte(m[j], BlockBytes(InitWords(key, nonce, n))[j % 64])
  {
    var x := InitWords(key, nonce, c);
    assert CounterAt(x, j / 64) == InitWords(key, nonce, n);
  }
}
