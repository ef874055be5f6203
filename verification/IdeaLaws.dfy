/** What the cipher is, equation by equation, and its published answer, both without the functions the other
    modules build it from. */
module IdeaLaws {
  import opened Bits
  import opened IdeaGroup
  import opened IdeaCipher
  import opened IdeaKeys
  import opened IdeaCbc

  // ----- The cipher as equations over units, sums and exclusive or

  /** Four words after the first four subkeys of a row: the outer words multiplied modulo 65537, the inner ones
      increased modulo 65536. */
  ghost predicate Layered(x: State, k1: Word, k2: Word, k3: Word, k4: Word, a: State) {
    && Unit(a.x1) == Unit(x.x1) * Unit(k1) % 0x1_0001 && a.x2 == (x.x2 + k2) % 0x1_0000
    && a.x3 == (x.x3 + k3) % 0x1_0000 && Unit(a.x4) == Unit(x.x4) * Unit(k4) % 0x1_0001
  }

  /** What the fifth and the sixth subkey make of them: `t` and `u` are the two products, and the inner words
      change places. */
  ghost predicate Mixed(a: State, k5: Word, k6: Word, t: Word, u: Word, y: State) {
    && Unit(t) == Unit(WordXor(a.x1, a.x3)) * Unit(k5) % 0x1_0001
    && Unit(u) == Unit((t + WordXor(a.x2, a.x4)) % 0x1_0000) * Unit(k6) % 0x1_0001
    && y.x1 == WordXor(a.x1, u) && y.x2 == WordXor(a.x3, u)
    && y.x3 == WordXor(a.x2, (t + u) % 0x1_0000) && y.x4 == WordXor(a.x4, (t + u) % 0x1_0000)
  }

  ghost predicate RoundEquations(x: State, k: Schedule, r: nat, y: State)
    requires r < 8
  {
    var k1, k2, k3 := k[6 * r], k[6 * r + 1], k[6 * r + 2];
    var k4, k5, k6 := k[6 * r + 3], k[6 * r + 4], k[6 * r + 5];
    exists a, t, u :: Layered(x, k1, k2, k3, k4, a) && Mixed(a, k5, k6, t, u, y)
  }

  lemma LayerHolds(x: State, k: Schedule, p: nat)
    requires p <= 48
    ensures Layered(x, k[p], k[p + 1], k[p + 2], k[p + 3], KeyLayer(x, k, p))
  {
    hide Mul, Unit;
    MulUnit(x.x1, k[p]);
    MulUnit(x.x4, k[p + 3]);
  }

  lemma MixHolds(a: State, e: Word, f: Word)
    ensures
      var t := Mul(WordXor(a.x1, a.x3), e);
      var u := Mul(Add(t, WordXor(a.x2, a.x4)), f);
      Mixed(a, e, f, t, u, Swap(Mix(a, e, f)))
  {
    hide Mul, Unit, WordXor;
    var t := Mul(WordXor(a.x1, a.x3), e);
    MulUnit(WordXor(a.x1, a.x3), e);
    MulUnit(Add(t, WordXor(a.x2, a.x4)), f);
  }

  lemma RoundHolds(x: State, k: Schedule, r: nat)
    requires r < 8
    ensures RoundEquations(x, k, r, Round(x, k, r))
  {
    hide Mul, WordXor, Add, KeyLayer, Mix, Layered, Mixed;
    var a := KeyLayer(x, k, 6 * r);
    var t := Mul(WordXor(a.x1, a.x3), k[6 * r + 4]);
    var u := Mul(Add(t, WordXor(a.x2, a.x4)), k[6 * r + 5]);
    LayerHolds(x, k, 6 * r);
    MixHolds(a, k[6 * r + 4], k[6 * r + 5]);
    assert Mixed(a, k[6 * r + 4], k[6 * r + 5], t, u, Round(x, k, r));
  }

  /** For every block and every schedule: eight rounds as the equations have them, and the output layer on the
      words with the inner ones put back in order. */
  lemma CryptEquations(s: State, k: Schedule) returns (x: seq<State>)
    ensures |x| == 9 && x[0] == s && forall r | 0 <= r < 8 :: RoundEquations(x[r], k, r, x[r + 1])
    ensures Layered(State(x[8].x1, x[8].x3, x[8].x2, x[8].x4), k[48], k[49], k[50], k[51], Crypt(s, k))
  {
    assert Rounds(s, k, 0) == s;
    hide Round, KeyLayer, Layered, RoundEquations;
    x := seq(9, r requires 0 <= r < 9 => Rounds(s, k, r));
    forall r | 0 <= r < 8
      ensures RoundEquations(x[r], k, r, x[r + 1])
    {
      RoundHolds(x[r], k, r);
    }
    LayerHolds(Swap(x[8]), k, 48);
  }

  lemma UnitInjective(a: Word, b: Word)
    requires Unit(a) == Unit(b)
    ensures a == b
  {
  }

  /** The equations leave no choice: each row has one answer. */
  lemma LayeredUnique(x: State, k1: Word, k2: Word, k3: Word, k4: Word, a: State, b: State)
    requires Layered(x, k1, k2, k3, k4, a) && Layered(x, k1, k2, k3, k4, b)
    ensures a == b
  {
    hide Unit;
    UnitInjective(a.x1, b.x1);
    UnitInjective(a.x4, b.x4);
  }

  lemma RoundUnique(x: State, k: Schedule, r: nat, y: State, z: State)
    requires r < 8 && RoundEquations(x, k, r, y) && RoundEquations(x, k, r, z)
    ensures y == z
  {
    hide Unit, WordXor, Layered;
    var a: State, t: Word, u: Word :|
      Layered(x, k[6 * r], k[6 * r + 1], k[6 * r + 2], k[6 * r + 3], a)
      && Mixed(a, k[6 * r + 4], k[6 * r + 5], t, u, y);
    var b: State, t': Word, u': Word :|
      Layered(x, k[6 * r], k[6 * r + 1], k[6 * r + 2], k[6 * r + 3], b)
      && Mixed(b, k[6 * r + 4], k[6 * r + 5], t', u', z);
    LayeredUnique(x, k[6 * r], k[6 * r + 1], k[6 * r + 2], k[6 * r + 3], a, b);
    UnitInjective(t, t');
    UnitInjective(u, u');
  }

  // ----- The published answer

  /** The key 0001 0002 ... 0008 in bytes. */
  const KEY: seq<Byte> := [0, 1, 0, 2, 0, 3, 0, 4, 0, 5, 0, 6, 0, 7, 0, 8]

  lemma KnownWords()
    ensures KeyWords(KEY) == [1, 2, 3, 4, 5, 6, 7, 8]
  {
  }

  lemma NextIs(w: seq<Word>, v: seq<Word>)
    requires |w| == 8 && |v| == 8
    requires v[0] == w[1] % 0x80 * 0x200 + w[2] / 0x80 && v[1] == w[2] % 0x80 * 0x200 + w[3] / 0x80
    requires v[2] == w[3] % 0x80 * 0x200 + w[4] / 0x80 && v[3] == w[4] % 0x80 * 0x200 + w[5] / 0x80
    requires v[4] == w[5] % 0x80 * 0x200 + w[6] / 0x80 && v[5] == w[6] % 0x80 * 0x200 + w[7] / 0x80
    requires v[6] == w[7] % 0x80 * 0x200 + w[0] / 0x80 && v[7] == w[0] % 0x80 * 0x200 + w[1] / 0x80
    ensures NextGroup(w) == v
  {
    hide NextGroup;
    NextGroupWords(w);
  }

  lemma KnownGroup1()
    ensures NextGroup([0x1, 0x2, 0x3, 0x4, 0x5, 0x6, 0x7, 0x8])
         == [0x400, 0x600, 0x800, 0xa00, 0xc00, 0xe00, 0x1000, 0x200]
  {
    NextIs([0x1, 0x2, 0x3, 0x4, 0x5, 0x6, 0x7, 0x8], [0x400, 0x600, 0x800, 0xa00, 0xc00, 0xe00, 0x1000, 0x200]);
  }

  lemma KnownGroup2()
    ensures NextGroup([0x400, 0x600, 0x800, 0xa00, 0xc00, 0xe00, 0x1000, 0x200])
         == [0x10, 0x14, 0x18, 0x1c, 0x20, 0x4, 0x8, 0xc]
  {
    NextIs([0x400, 0x600, 0x800, 0xa00, 0xc00, 0xe00, 0x1000, 0x200], [0x10, 0x14, 0x18, 0x1c, 0x20, 0x4, 0x8, 0xc]);
  }

  lemma KnownGroup3()
    ensures NextGroup([0x10, 0x14, 0x18, 0x1c, 0x20, 0x4, 0x8, 0xc])
         == [0x2800, 0x3000, 0x3800, 0x4000, 0x800, 0x1000, 0x1800, 0x2000]
  {
    NextIs([0x10, 0x14, 0x18, 0x1c, 0x20, 0x4, 0x8, 0xc],
           [0x2800, 0x3000, 0x3800, 0x4000, 0x800, 0x1000, 0x1800, 0x2000]);
  }

  lemma KnownGroup4()
    ensures NextGroup([0x2800, 0x3000, 0x3800, 0x4000, 0x800, 0x1000, 0x1800, 0x2000])
         == [0x70, 0x80, 0x10, 0x20, 0x30, 0x40, 0x50, 0x60]
  {
    NextIs([0x2800, 0x3000, 0x3800, 0x4000, 0x800, 0x1000, 0x1800, 0x2000],
           [0x70, 0x80, 0x10, 0x20, 0x30, 0x40, 0x50, 0x60]);
  }

  lemma KnownGroup5()
    ensures NextGroup([0x70, 0x80, 0x10, 0x20, 0x30, 0x40, 0x50, 0x60])
         == [0x0, 0x2000, 0x4000, 0x6000, 0x8000, 0xa000, 0xc000, 0xe001]
  {
    NextIs([0x70, 0x80, 0x10, 0x20, 0x30, 0x40, 0x50, 0x60],
           [0x0, 0x2000, 0x4000, 0x6000, 0x8000, 0xa000, 0xc000, 0xe001]);
  }

  lemma KnownGroup6()
    ensures NextGroup([0x0, 0x2000, 0x4000, 0x6000, 0x8000, 0xa000, 0xc000, 0xe001])
         == [0x80, 0xc0, 0x100, 0x140, 0x180, 0x1c0, 0x200, 0x40]
  {
    NextIs([0x0, 0x2000, 0x4000, 0x6000, 0x8000, 0xa000, 0xc000, 0xe001],
           [0x80, 0xc0, 0x100, 0x140, 0x180, 0x1c0, 0x200, 0x40]);
  }

  /** A schedule as the key 0001 0002 ... 0008 fills it. */
  ghost predicate Filled(k: Schedule) {
    forall n | 0 <= n < 54 :: k[n] == SubKey(ValueOf(KeyWords(KEY)), n)
  }

  lemma GroupWords(k: Schedule, g: nat, j: nat, w: seq<Word>)
    requires Filled(k) && g <= 6 && j < 8 && 8 * g + j < 54
    requires |w| == 8 && Group([1, 2, 3, 4, 5, 6, 7, 8], g) == w
    ensures k[8 * g + j] == w[j]
  {
    hide SubKey, ValueOf, KeyWords, Group;
    KnownWords();
    SubKeyIsGroupWord([1, 2, 3, 4, 5, 6, 7, 8], 8 * g + j);
    assert (8 * g + j) / 8 == g && (8 * g + j) % 8 == j;
  }

  lemma FourWords(k: Schedule, g: nat, j: nat, w: seq<Word>)
    requires Filled(k) && g <= 6 && j <= 4 && 8 * g + j <= 48
    requires |w| == 8 && Group([1, 2, 3, 4, 5, 6, 7, 8], g) == w
    ensures k[8 * g + j] == w[j] && k[8 * g + j + 1] == w[j + 1]
    ensures k[8 * g + j + 2] == w[j + 2] && k[8 * g + j + 3] == w[j + 3]
  {
    hide Filled, Group;
    GroupWords(k, g, j, w);
    GroupWords(k, g, j + 1, w);
    GroupWords(k, g, j + 2, w);
    GroupWords(k, g, j + 3, w);
  }

  /** `a` without its last `i` digits. */
  function Rest(a: nat, i: nat): nat {
    if i == 0 then a else Rest(a / 4, i - 1)
  }

  function Base4(a: nat, i: nat): (d: nat)
    ensures d < 4
  {
    Rest(a, i) % 4
  }

  /** Exclusive or of two bits with two bits. */
  function Pair(r: nat, t: nat): nat
    requires r < 4 && t < 4
  {
    if r == 0 then t else if t == 0 then r else if r == t then 0 else 6 - r - t
  }

  lemma PairTable()
    ensures Pair(0, 0) == 0 && Pair(0, 1) == 1 && Pair(0, 2) == 2 && Pair(0, 3) == 3
    ensures Pair(1, 0) == 1 && Pair(1, 1) == 0 && Pair(1, 2) == 3 && Pair(1, 3) == 2
    ensures Pair(2, 0) == 2 && Pair(2, 1) == 3 && Pair(2, 2) == 0 && Pair(2, 3) == 1
    ensures Pair(3, 0) == 3 && Pair(3, 1) == 2 && Pair(3, 2) == 1 && Pair(3, 3) == 0
  {
  }

  lemma XorTop(a: nat, b: nat)
    ensures Xor(a, b) == 2 * Xor(a / 2, b / 2) + BitXor(a % 2, b % 2)
  {
    hide Xor;
    XorMake(a / 2, b / 2, a % 2, b % 2);
  }

  lemma XorPair(a: nat, b: nat)
    ensures Xor(a, b) == 4 * Xor(a / 4, b / 4) + Pair(a % 4, b % 4)
  {
    hide Xor;
    XorTop(a, b);
    XorTop(a / 2, b / 2);
    assert a / 2 / 2 == a / 4 && a % 4 == 2 * (a / 2 % 2) + a % 2;
    assert b / 2 / 2 == b / 4 && b % 4 == 2 * (b / 2 % 2) + b % 2;
  }

  /** Exclusive or of words, digit by digit in base four. */
  lemma {:induction false} XorDigits(a: nat, b: nat, c: nat, n: nat)
    requires forall i | 0 <= i < n :: Pair(Base4(a, i), Base4(b, i)) == Base4(c, i)
    requires Rest(a, n) == Rest(b, n) == Rest(c, n) == 0
    ensures Xor(a, b) == c
  {
    hide Pair, Xor;
    if n == 0 {
      XorZero(0);
    } else {
      XorPair(a, b);
      forall i | 0 <= i < n - 1
        ensures Pair(Base4(a / 4, i), Base4(b / 4, i)) == Base4(c / 4, i)
      {
        assert Base4(a / 4, i) == Base4(a, i + 1) && Base4(b / 4, i) == Base4(b, i + 1);
        assert Base4(c / 4, i) == Base4(c, i + 1);
      }
      XorDigits(a / 4, b / 4, c / 4, n - 1);
      assert Pair(Base4(a, 0), Base4(b, 0)) == Base4(c, 0);
    }
  }

  lemma {:induction false} RestStep(a: nat, i: nat)
    ensures Rest(a, i + 1) == Rest(a, i) / 4
  {
    if i > 0 {
      RestStep(a / 4, i - 1);
    }
  }

  lemma Places(a: Word)
    ensures Base4(a, 0) == a % 4 && Base4(a, 1) == a / 4 % 4 && Base4(a, 2) == a / 16 % 4 && Base4(a, 3) == a / 64 % 4
    ensures Base4(a, 4) == a / 256 % 4 && Base4(a, 5) == a / 1024 % 4 && Base4(a, 6) == a / 4096 % 4
    ensures Base4(a, 7) == a / 16384 % 4 && Rest(a, 8) == 0
  {
    var a1, a2, a3, a4 := a / 4, a / 16, a / 64, a / 256;
    var a5, a6, a7 := a / 1024, a / 4096, a / 16384;
    assert Rest(a, 1) == a1;
    assert Rest(a, 2) == Rest(a1, 1) == a1 / 4 == a2;
    assert Rest(a, 3) == Rest(a1, 2) == Rest(a1 / 4, 1) == a2 / 4 == a3;
    RestStep(a, 3);
    RestStep(a, 4);
    RestStep(a, 5);
    RestStep(a, 6);
    RestStep(a, 7);
    hide Rest;
    assert a3 / 4 == a4 && a4 / 4 == a5 && a5 / 4 == a6 && a6 / 4 == a7 && a7 / 4 == 0;
  }

  lemma XorIs(a: Word, b: Word, c: Word)
    requires Pair(a % 4, b % 4) == c % 4 && Pair(a / 4 % 4, b / 4 % 4) == c / 4 % 4
    requires Pair(a / 16 % 4, b / 16 % 4) == c / 16 % 4 && Pair(a / 64 % 4, b / 64 % 4) == c / 64 % 4
    requires Pair(a / 256 % 4, b / 256 % 4) == c / 256 % 4 && Pair(a / 1024 % 4, b / 1024 % 4) == c / 1024 % 4
    requires Pair(a / 4096 % 4, b / 4096 % 4) == c / 4096 % 4
    requires Pair(a / 16384 % 4, b / 16384 % 4) == c / 16384 % 4
    ensures WordXor(a, b) == c
  {
    Places(a);
    Places(b);
    Places(c);
    hide Pair, Xor, Base4, Rest;
    forall i | 0 <= i < 8
      ensures Pair(Base4(a, i), Base4(b, i)) == Base4(c, i)
    {
      assert i == 0 || i == 1 || i == 2 || i == 3 || i == 4 || i == 5 || i == 6 || i == 7;
    }
    XorDigits(a, b, c, 8);
  }

  /** One round in numbers: `a` after the key layer, `m` and `n` the two masked words, the two products, their
      sum and the result. */
  lemma RoundIs(x: State, k: Schedule, r: nat, row: seq<Word>, a: State, m: Word, n: Word,
                t: Word, u: Word, v: Word, y: State)
    requires r < 8 && |row| == 6 && forall i | 0 <= i < 6 :: k[6 * r + i] == row[i]
    requires a.x1 == Mul(x.x1, row[0]) && a.x2 == Add(x.x2, row[1])
    requires a.x3 == Add(x.x3, row[2]) && a.x4 == Mul(x.x4, row[3])
    requires m == WordXor(a.x1, a.x3) && n == WordXor(a.x2, a.x4)
    requires t == Mul(m, row[4]) && u == Mul(Add(t, n), row[5]) && v == Add(t, u)
    requires y.x1 == WordXor(a.x1, u) && y.x2 == WordXor(a.x3, u)
    requires y.x3 == WordXor(a.x2, v) && y.x4 == WordXor(a.x4, v)
    ensures Round(x, k, r) == y
  {
    hide Mul, WordXor, Add;
  }

  lemma KnownXors1()
    ensures WordXor(0x0, 0x5) == 0x5 && WordXor(0x3, 0xc) == 0xf
    ensures WordXor(0x0, 0xf0) == 0xf0 && WordXor(0x5, 0xf0) == 0xf5
    ensures WordXor(0x3, 0x109) == 0x10a && WordXor(0xc, 0x109) == 0x105
  {
    hide WordXor, Xor, Pair;
    PairTable();
    XorIs(0x0, 0x5, 0x5);
    XorIs(0x3, 0xc, 0xf);
    XorIs(0x0, 0xf0, 0xf0);
    XorIs(0x5, 0xf0, 0xf5);
    XorIs(0x3, 0x109, 0x10a);
    XorIs(0xc, 0x109, 0x105);
  }

  lemma KnownRound1(k: Schedule)
    requires k[0] == 0x1 && k[1] == 0x2 && k[2] == 0x3 && k[3] == 0x4 && k[4] == 0x5 && k[5] == 0x6
    ensures Round(State(0x0, 0x1, 0x2, 0x3), k, 0) == State(0xf0, 0xf5, 0x10a, 0x105)
  {
    hide WordXor, Xor, Round;
    KnownXors1();
    RoundIs(State(0x0, 0x1, 0x2, 0x3), k, 0, [0x1, 0x2, 0x3, 0x4, 0x5, 0x6],
            State(0x0, 0x3, 0x5, 0xc), 0x5, 0xf, 0x19, 0xf0, 0x109,
            State(0xf0, 0xf5, 0x10a, 0x105));
  }

  lemma KnownXors2()
    ensures WordXor(0x690, 0x50a) == 0x39a && WordXor(0xfd, 0x1dfa) == 0x1d07
    ensures WordXor(0x690, 0x24bf) == 0x222f && WordXor(0x50a, 0x24bf) == 0x21b5
    ensures WordXor(0xfd, 0xf4a3) == 0xf45e && WordXor(0x1dfa, 0xf4a3) == 0xe959
  {
    hide WordXor, Xor, Pair;
    PairTable();
    XorIs(0x690, 0x50a, 0x39a);
    XorIs(0xfd, 0x1dfa, 0x1d07);
    XorIs(0x690, 0x24bf, 0x222f);
    XorIs(0x50a, 0x24bf, 0x21b5);
    XorIs(0xfd, 0xf4a3, 0xf45e);
    XorIs(0x1dfa, 0xf4a3, 0xe959);
  }

  lemma KnownRound2(k: Schedule)
    requires k[6] == 0x7 && k[7] == 0x8 && k[8] == 0x400 && k[9] == 0x600 && k[10] == 0x800 && k[11] == 0xa00
    ensures Round(State(0xf0, 0xf5, 0x10a, 0x105), k, 1) == State(0x222f, 0x21b5, 0xf45e, 0xe959)
  {
    hide WordXor, Xor, Round;
    KnownXors2();
    RoundIs(State(0xf0, 0xf5, 0x10a, 0x105), k, 1, [0x7, 0x8, 0x400, 0x600, 0x800, 0xa00],
            State(0x690, 0xfd, 0x50a, 0x1dfa), 0x39a, 0x1d07, 0xcfe4, 0x24bf, 0xf4a3,
            State(0x222f, 0x21b5, 0xf45e, 0xe959));
  }

  lemma KnownXors3()
    ensures WordXor(0x3266, 0x45e) == 0x3638 && WordXor(0x2fb5, 0xb02e) == 0x9f9b
    ensures WordXor(0x3266, 0x3de0) == 0xf86 && WordXor(0x45e, 0x3de0) == 0x39be
    ensures WordXor(0x2fb5, 0xa15d) == 0x8ee8 && WordXor(0xb02e, 0xa15d) == 0x1173
  {
    hide WordXor, Xor, Pair;
    PairTable();
    XorIs(0x3266, 0x45e, 0x3638);
    XorIs(0x2fb5, 0xb02e, 0x9f9b);
    XorIs(0x3266, 0x3de0, 0xf86);
    XorIs(0x45e, 0x3de0, 0x39be);
    XorIs(0x2fb5, 0xa15d, 0x8ee8);
    XorIs(0xb02e, 0xa15d, 0x1173);
  }

  lemma KnownRound3(k: Schedule)
    requires k[12] == 0xc00 && k[13] == 0xe00 && k[14] == 0x1000 && k[15] == 0x200 && k[16] == 0x10 && k[17] == 0x14
    ensures Round(State(0x222f, 0x21b5, 0xf45e, 0xe959), k, 2) == State(0xf86, 0x39be, 0x8ee8, 0x1173)
  {
    hide WordXor, Xor, Round;
    KnownXors3();
    RoundIs(State(0x222f, 0x21b5, 0xf45e, 0xe959), k, 2, [0xc00, 0xe00, 0x1000, 0x200, 0x10, 0x14],
            State(0x3266, 0x2fb5, 0x45e, 0xb02e), 0x3638, 0x9f9b, 0x637d, 0x3de0, 0xa15d,
            State(0xf86, 0x39be, 0x8ee8, 0x1173));
  }

  lemma KnownXors4()
    ensures WordXor(0x748f, 0x8f08) == 0xfb87 && WordXor(0x39da, 0x45cc) == 0x7c16
    ensures WordXor(0x748f, 0x2350) == 0x57df && WordXor(0x8f08, 0x2350) == 0xac58
    ensures WordXor(0x39da, 0xff81) == 0xc65b && WordXor(0x45cc, 0xff81) == 0xba4d
  {
    hide WordXor, Xor, Pair;
    PairTable();
    XorIs(0x748f, 0x8f08, 0xfb87);
    XorIs(0x39da, 0x45cc, 0x7c16);
    XorIs(0x748f, 0x2350, 0x57df);
    XorIs(0x8f08, 0x2350, 0xac58);
    XorIs(0x39da, 0xff81, 0xc65b);
    XorIs(0x45cc, 0xff81, 0xba4d);
  }

  lemma KnownRound4(k: Schedule)
    requires k[18] == 0x18 && k[19] == 0x1c && k[20] == 0x20 && k[21] == 0x4 && k[22] == 0x8 && k[23] == 0xc
    ensures Round(State(0xf86, 0x39be, 0x8ee8, 0x1173), k, 3) == State(0x57df, 0xac58, 0xc65b, 0xba4d)
  {
    hide WordXor, Xor, Round;
    KnownXors4();
    RoundIs(State(0xf86, 0x39be, 0x8ee8, 0x1173), k, 3, [0x18, 0x1c, 0x20, 0x4, 0x8, 0xc],
            State(0x748f, 0x39da, 0x8f08, 0x45cc), 0xfb87, 0x7c16, 0xdc31, 0x2350, 0xff81,
            State(0x57df, 0xac58, 0xc65b, 0xba4d));
  }

  lemma KnownXors5()
    ensures WordXor(0xca46, 0xfe5b) == 0x341d && WordXor(0xdc58, 0x116d) == 0xcd35
    ensures WordXor(0xca46, 0x44c7) == 0x8e81 && WordXor(0xfe5b, 0x44c7) == 0xba9c
    ensures WordXor(0xdc58, 0x2b27) == 0xf77f && WordXor(0x116d, 0x2b27) == 0x3a4a
  {
    hide WordXor, Xor, Pair;
    PairTable();
    XorIs(0xca46, 0xfe5b, 0x341d);
    XorIs(0xdc58, 0x116d, 0xcd35);
    XorIs(0xca46, 0x44c7, 0x8e81);
    XorIs(0xfe5b, 0x44c7, 0xba9c);
    XorIs(0xdc58, 0x2b27, 0xf77f);
    XorIs(0x116d, 0x2b27, 0x3a4a);
  }

  lemma KnownRound5(k: Schedule)
    requires k[24] == 0x2800 && k[25] == 0x3000 && k[26] == 0x3800
    requires k[27] == 0x4000 && k[28] == 0x800 && k[29] == 0x1000
    ensures Round(State(0x57df, 0xac58, 0xc65b, 0xba4d), k, 4) == State(0x8e81, 0xba9c, 0xf77f, 0x3a4a)
  {
    hide WordXor, Xor, Round;
    KnownXors5();
    RoundIs(State(0x57df, 0xac58, 0xc65b, 0xba4d), k, 4, [0x2800, 0x3000, 0x3800, 0x4000, 0x800, 0x1000],
            State(0xca46, 0xdc58, 0xfe5b, 0x116d), 0x341d, 0xcd35, 0xe660, 0x44c7, 0x2b27,
            State(0x8e81, 0xba9c, 0xf77f, 0x3a4a));
  }

  lemma KnownXors6()
    ensures WordXor(0xaa4, 0xf7ef) == 0xfd4b && WordXor(0xda9c, 0x24e3) == 0xfe7f
    ensures WordXor(0xaa4, 0x63e6) == 0x6942 && WordXor(0xf7ef, 0x63e6) == 0x9409
    ensures WordXor(0xda9c, 0x3887) == 0xe21b && WordXor(0x24e3, 0x3887) == 0x1c64
  {
    hide WordXor, Xor, Pair;
    PairTable();
    XorIs(0xaa4, 0xf7ef, 0xfd4b);
    XorIs(0xda9c, 0x24e3, 0xfe7f);
    XorIs(0xaa4, 0x63e6, 0x6942);
    XorIs(0xf7ef, 0x63e6, 0x9409);
    XorIs(0xda9c, 0x3887, 0xe21b);
    XorIs(0x24e3, 0x3887, 0x1c64);
  }

  lemma KnownRound6(k: Schedule)
    requires k[30] == 0x1800 && k[31] == 0x2000 && k[32] == 0x70 && k[33] == 0x80 && k[34] == 0x10 && k[35] == 0x20
    ensures Round(State(0x8e81, 0xba9c, 0xf77f, 0x3a4a), k, 5) == State(0x6942, 0x9409, 0xe21b, 0x1c64)
  {
    hide WordXor, Xor, Round;
    KnownXors6();
    RoundIs(State(0x8e81, 0xba9c, 0xf77f, 0x3a4a), k, 5, [0x1800, 0x2000, 0x70, 0x80, 0x10, 0x20],
            State(0xaa4, 0xda9c, 0xf7ef, 0x24e3), 0xfd4b, 0xfe7f, 0xd4a1, 0x63e6, 0x3887,
            State(0x6942, 0x9409, 0xe21b, 0x1c64));
  }

  lemma KnownXors7()
    ensures WordXor(0xbc4d, 0xe26b) == 0x5e26 && WordXor(0x9449, 0xa576) == 0x313f
    ensures WordXor(0xbc4d, 0x259d) == 0x99d0 && WordXor(0xe26b, 0x259d) == 0xc7f6
    ensures WordXor(0x9449, 0xc778) == 0x5331 && WordXor(0xa576, 0xc778) == 0x620e
  {
    hide WordXor, Xor, Pair;
    PairTable();
    XorIs(0xbc4d, 0xe26b, 0x5e26);
    XorIs(0x9449, 0xa576, 0x313f);
    XorIs(0xbc4d, 0x259d, 0x99d0);
    XorIs(0xe26b, 0x259d, 0xc7f6);
    XorIs(0x9449, 0xc778, 0x5331);
    XorIs(0xa576, 0xc778, 0x620e);
  }

  lemma KnownRound7(k: Schedule)
    requires k[36] == 0x30 && k[37] == 0x40 && k[38] == 0x50 && k[39] == 0x60 && k[40] == 0x0 && k[41] == 0x2000
    ensures Round(State(0x6942, 0x9409, 0xe21b, 0x1c64), k, 6) == State(0x99d0, 0xc7f6, 0x5331, 0x620e)
  {
    hide WordXor, Xor, Round;
    KnownXors7();
    RoundIs(State(0x6942, 0x9409, 0xe21b, 0x1c64), k, 6, [0x30, 0x40, 0x50, 0x60, 0x0, 0x2000],
            State(0xbc4d, 0x9449, 0xe26b, 0xa576), 0x5e26, 0x313f, 0xa1db, 0x259d, 0xc778,
            State(0x99d0, 0xc7f6, 0x5331, 0x620e));
  }

  lemma KnownXors8()
    ensures WordXor(0xd98d, 0xd331) == 0xabc && WordXor(0x27f6, 0x82b8) == 0xa54e
    ensures WordXor(0xd98d, 0xd3a9) == 0xa24 && WordXor(0xd331, 0xd3a9) == 0x98
    ensures WordXor(0x27f6, 0xcb9d) == 0xec6b && WordXor(0x82b8, 0xcb9d) == 0x4925
  {
    hide WordXor, Xor, Pair;
    PairTable();
    XorIs(0xd98d, 0xd331, 0xabc);
    XorIs(0x27f6, 0x82b8, 0xa54e);
    XorIs(0xd98d, 0xd3a9, 0xa24);
    XorIs(0xd331, 0xd3a9, 0x98);
    XorIs(0x27f6, 0xcb9d, 0xec6b);
    XorIs(0x82b8, 0xcb9d, 0x4925);
  }

  lemma KnownRound8(k: Schedule)
    requires k[42] == 0x4000 && k[43] == 0x6000 && k[44] == 0x8000
    requires k[45] == 0xa000 && k[46] == 0xc000 && k[47] == 0xe001
    ensures Round(State(0x99d0, 0xc7f6, 0x5331, 0x620e), k, 7) == State(0xa24, 0x98, 0xec6b, 0x4925)
  {
    hide WordXor, Xor, Round;
    KnownXors8();
    RoundIs(State(0x99d0, 0xc7f6, 0x5331, 0x620e), k, 7, [0x4000, 0x6000, 0x8000, 0xa000, 0xc000, 0xe001],
            State(0xd98d, 0x27f6, 0xd331, 0x82b8), 0xabc, 0xa54e, 0xf7f4, 0xd3a9, 0xcb9d,
            State(0xa24, 0x98, 0xec6b, 0x4925));
  }

  /** The schedule of the key 0001 0002 ... 0008, row after row. */
  ghost predicate KnownRows(k: Schedule) {
    && k[0] == 0x1 && k[1] == 0x2 && k[2] == 0x3 && k[3] == 0x4 && k[4] == 0x5 && k[5] == 0x6
    && k[6] == 0x7 && k[7] == 0x8 && k[8] == 0x400 && k[9] == 0x600 && k[10] == 0x800 && k[11] == 0xa00
    && k[12] == 0xc00 && k[13] == 0xe00 && k[14] == 0x1000 && k[15] == 0x200 && k[16] == 0x10 && k[17] == 0x14
    && k[18] == 0x18 && k[19] == 0x1c && k[20] == 0x20 && k[21] == 0x4 && k[22] == 0x8 && k[23] == 0xc
    && k[24] == 0x2800 && k[25] == 0x3000 && k[26] == 0x3800 && k[27] == 0x4000 && k[28] == 0x800 && k[29] == 0x1000
    && k[30] == 0x1800 && k[31] == 0x2000 && k[32] == 0x70 && k[33] == 0x80 && k[34] == 0x10 && k[35] == 0x20
    && k[36] == 0x30 && k[37] == 0x40 && k[38] == 0x50 && k[39] == 0x60 && k[40] == 0x0 && k[41] == 0x2000
    && k[42] == 0x4000 && k[43] == 0x6000 && k[44] == 0x8000 && k[45] == 0xa000 && k[46] == 0xc000 && k[47] == 0xe001
    && k[48] == 0x80 && k[49] == 0xc0 && k[50] == 0x100 && k[51] == 0x140
  }

  lemma KnownGroups()
    ensures
      var w := [1, 2, 3, 4, 5, 6, 7, 8];
      && Group(w, 0) == [0x1, 0x2, 0x3, 0x4, 0x5, 0x6, 0x7, 0x8]
      && Group(w, 1) == [0x400, 0x600, 0x800, 0xa00, 0xc00, 0xe00, 0x1000, 0x200]
      && Group(w, 2) == [0x10, 0x14, 0x18, 0x1c, 0x20, 0x4, 0x8, 0xc]
      && Group(w, 3) == [0x2800, 0x3000, 0x3800, 0x4000, 0x800, 0x1000, 0x1800, 0x2000]
      && Group(w, 4) == [0x70, 0x80, 0x10, 0x20, 0x30, 0x40, 0x50, 0x60]
      && Group(w, 5) == [0x0, 0x2000, 0x4000, 0x6000, 0x8000, 0xa000, 0xc000, 0xe001]
      && Group(w, 6) == [0x80, 0xc0, 0x100, 0x140, 0x180, 0x1c0, 0x200, 0x40]
  {
    hide NextGroup;
    var w: seq<Word> := [1, 2, 3, 4, 5, 6, 7, 8];
    KnownGroup1();
    KnownGroup2();
    KnownGroup3();
    KnownGroup4();
    KnownGroup5();
    KnownGroup6();
    assert Group(w, 1) == NextGroup(Group(w, 0));
    assert Group(w, 2) == NextGroup(Group(w, 1));
    assert Group(w, 3) == NextGroup(Group(w, 2));
    assert Group(w, 4) == NextGroup(Group(w, 3));
    assert Group(w, 5) == NextGroup(Group(w, 4));
    assert Group(w, 6) == NextGroup(Group(w, 5));
  }

  lemma KnownSchedule(k: Schedule)
    requires Filled(k)
    ensures KnownRows(k)
  {
    hide Filled, Group;
    KnownGroups();
    FourWords(k, 0, 0, [0x1, 0x2, 0x3, 0x4, 0x5, 0x6, 0x7, 0x8]);
    FourWords(k, 0, 4, [0x1, 0x2, 0x3, 0x4, 0x5, 0x6, 0x7, 0x8]);
    FourWords(k, 1, 0, [0x400, 0x600, 0x800, 0xa00, 0xc00, 0xe00, 0x1000, 0x200]);
    FourWords(k, 1, 4, [0x400, 0x600, 0x800, 0xa00, 0xc00, 0xe00, 0x1000, 0x200]);
    FourWords(k, 2, 0, [0x10, 0x14, 0x18, 0x1c, 0x20, 0x4, 0x8, 0xc]);
    FourWords(k, 2, 4, [0x10, 0x14, 0x18, 0x1c, 0x20, 0x4, 0x8, 0xc]);
    FourWords(k, 3, 0, [0x2800, 0x3000, 0x3800, 0x4000, 0x800, 0x1000, 0x1800, 0x2000]);
    FourWords(k, 3, 4, [0x2800, 0x3000, 0x3800, 0x4000, 0x800, 0x1000, 0x1800, 0x2000]);
    FourWords(k, 4, 0, [0x70, 0x80, 0x10, 0x20, 0x30, 0x40, 0x50, 0x60]);
    FourWords(k, 4, 4, [0x70, 0x80, 0x10, 0x20, 0x30, 0x40, 0x50, 0x60]);
    FourWords(k, 5, 0, [0x0, 0x2000, 0x4000, 0x6000, 0x8000, 0xa000, 0xc000, 0xe001]);
    FourWords(k, 5, 4, [0x0, 0x2000, 0x4000, 0x6000, 0x8000, 0xa000, 0xc000, 0xe001]);
    FourWords(k, 6, 0, [0x80, 0xc0, 0x100, 0x140, 0x180, 0x1c0, 0x200, 0x40]);
  }

  lemma KnownRounds(k: Schedule)
    requires KnownRows(k)
    ensures Rounds(State(0, 1, 2, 3), k, 8) == State(0xa24, 0x98, 0xec6b, 0x4925)
  {
    hide Round;
    var s := State(0, 1, 2, 3);
    assert Rounds(s, k, 0) == s;
    KnownRound1(k);
    assert Rounds(s, k, 1) == Round(Rounds(s, k, 0), k, 0);
    KnownRound2(k);
    assert Rounds(s, k, 2) == Round(Rounds(s, k, 1), k, 1);
    KnownRound3(k);
    assert Rounds(s, k, 3) == Round(Rounds(s, k, 2), k, 2);
    KnownRound4(k);
    assert Rounds(s, k, 4) == Round(Rounds(s, k, 3), k, 3);
    KnownRound5(k);
    assert Rounds(s, k, 5) == Round(Rounds(s, k, 4), k, 4);
    KnownRound6(k);
    assert Rounds(s, k, 6) == Round(Rounds(s, k, 5), k, 5);
    KnownRound7(k);
    assert Rounds(s, k, 7) == Round(Rounds(s, k, 6), k, 6);
    KnownRound8(k);
    assert Rounds(s, k, 8) == Round(Rounds(s, k, 7), k, 7);
  }

  lemma KnownCrypt(k: Schedule)
    requires KnownRows(k)
    ensures Crypt(State(0, 1, 2, 3), k) == State(0x11fb, 0xed2b, 0x198, 0x6de5)
  {
    hide Rounds;
    KnownRounds(k);
  }

  lemma KnownPlain()
    ensures Load([0, 0, 0, 1, 0, 2, 0, 3]) == Block(1, 0x2_0003)
    ensures Xor32(1, 0) == 1 && Xor32(0x2_0003, 0) == 0x2_0003
  {
    XorZero(1);
    XorZero(0x2_0003);
  }

  lemma KnownBytes()
    ensures Store(Block(0x11fb_ed2b, 0x0198_6de5)) == [0x11, 0xfb, 0xed, 0x2b, 0x01, 0x98, 0x6d, 0xe5]
  {
  }

  /** The published answer: whatever schedule the key 0001 0002 ... 0008 fills, it seals the block
      0000 0001 0002 0003 as 11fb ed2b 0198 6de5. */
  lemma KnownAnswer(k: Schedule, c: seq<Byte>)
    requires Filled(k) && IsCiphertext(k, Block(0, 0), [0, 0, 0, 1, 0, 2, 0, 3], c)
    ensures c == [0x11, 0xfb, 0xed, 0x2b, 0x01, 0x98, 0x6d, 0xe5]
  {
    hide Crypt, Xor32, Filled, KnownRows, Load, Store, IsCiphertext;
    KnownSchedule(k);
    KnownCrypt(k);
    var m: seq<Byte> := [0, 0, 0, 1, 0, 2, 0, 3];
    var ps, cs := CbcLaw(k, Block(0, 0), m, c);
    assert Padded(m, 0, Store(ps[0])) && Padded(c, 1 - 1, Store(cs[1]));
    assert m == Store(ps[0]) && c == Store(cs[1]);
    LoadStore(ps[0]);
    KnownPlain();
    assert ps[0] == Block(1, 0x2_0003) && Sealed(k, cs[0], ps[0], cs[0 + 1]);
    KnownBytes();
  }
}
