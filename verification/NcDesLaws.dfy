/** Eurocrypt DES bit by bit and round by round: which bit the permutations take where, which 28 bits of the key
    each round sees, and which half it makes. */
module NcDesLaws {
  import opened Bits
  import opened Feistel
  import opened NcDesBits
  import opened NcDes

  // ----- The initial permutation

  /** Bit `p` of eight bytes as FIPS 46-3 counts: from 1, the top bit of the first byte. */
  function BlockBit(s: Byte8, p: nat): int
    requires 1 <= p <= 64
  {
    s[(p - 1) / 8] as int / [128, 64, 32, 16, 8, 4, 2, 1][(p - 1) % 8] % 2
  }

  lemma {:induction false} HalvedNext(x: nat, n: nat)
    ensures Halved(x, n + 1) == Halved(x, n) / 2
  {
    if n > 0 {
      HalvedNext(x / 2, n - 1);
    }
  }

  lemma Quotients(x: nat)
    ensures x / 2 / 2 == x / 4 && x / 4 / 2 == x / 8 && x / 8 / 2 == x / 16 && x / 16 / 2 == x / 32
    ensures x / 32 / 2 == x / 64 && x / 64 / 2 == x / 128
  {
  }

  lemma BitQuotients(x: nat)
    ensures BitAt(x, 0) == x % 2 && BitAt(x, 1) == x / 2 % 2 && BitAt(x, 2) == x / 4 % 2 && BitAt(x, 3) == x / 8 % 2
    ensures BitAt(x, 4) == x / 16 % 2 && BitAt(x, 5) == x / 32 % 2
    ensures BitAt(x, 6) == x / 64 % 2 && BitAt(x, 7) == x / 128 % 2
  {
    assert Halved(x, 0) == x;
    hide Halved;
    Quotients(x);
    HalvedNext(x, 0);
    HalvedNext(x, 1);
    HalvedNext(x, 2);
    HalvedNext(x, 3);
    HalvedNext(x, 4);
    HalvedNext(x, 5);
    HalvedNext(x, 6);
  }

  lemma BitIsQuotient(x: Byte, j: nat)
    requires j < 8
    ensures BitAt(x, 7 - j) == x as int / [128, 64, 32, 16, 8, 4, 2, 1][j] % 2
  {
    hide BitAt;
    BitQuotients(x);
    assert j == 0 || j == 1 || j == 2 || j == 3 || j == 4 || j == 5 || j == 6 || j == 7;
  }

  lemma InitialBit(s: Byte8, b: nat, j: nat)
    requires b < 8 && j < 8
    ensures BitAt(Initial(s)[b], 7 - j) == BitAt(s[7 - j], Collected(b))
  {
    BitOfByte(Column(s, Collected(b)), 7 - j);
  }

  lemma BitInBlock(s: Byte8, i: nat, j: nat)
    requires i < 8 && j < 8
    ensures BlockBit(s, 8 * i + j + 1) == BitAt(s[i], 7 - j)
  {
    BitIsQuotient(s[i], j);
    DivModUnique(8 * i + j, 8, i, j);
  }

  /** Bit `m + 1` of the permuted block is the one the table of FIPS 46-3 names. */
  lemma InitialTable(s: Byte8, m: nat)
    requires m < 64
    ensures
      var p := (if m < 32 then 58 + 2 * (m / 8) else 57 + 2 * (m / 8 - 4)) - 8 * (m % 8);
      BlockBit(Initial(s), m + 1) == BlockBit(s, p)
  {
    hide BlockBit, BitAt, Initial;
    var b, j := m / 8, m % 8;
    BitInBlock(Initial(s), b, j);
    InitialBit(s, b, j);
    BitInBlock(s, 7 - j, 7 - Collected(b));
  }

  // ----- The key

  /** Four bytes with the lowest first. */
  ghost predicate Spells(h: Half, v: int) {
    v == h[0] as int + 0x100 * (h[1] as int) + 0x1_0000 * (h[2] as int) + 0x100_0000 * (h[3] as int)
  }

  /** The first seven bytes of the key as one number, the first byte highest. */
  function KeyNumber(key: Byte8): nat {
    ((((((key[0] as int * 0x100 + key[1]) * 0x100 + key[2]) * 0x100 + key[3]) * 0x100 + key[4]) * 0x100 + key[5])
    * 0x100 + key[6])
  }

  lemma SplitNumber(key: Byte8)
    ensures
      var k := SplitKey(key);
      && Spells(k.left, KeyNumber(key) / 0x1000_0000) && Spells(k.right, KeyNumber(key) % 0x1000_0000)
  {
    var k := SplitKey(key);
    var l, r := ValueOf(k.left), ValueOf(k.right);
    assert KeyNumber(key) == l * 0x1000_0000 + r;
    DivModUnique(KeyNumber(key), 0x1000_0000, l, r);
  }

  /** A number of 28 bits turned to the left. */
  function TurnedLeft(v: nat, n: nat): int
    requires n <= 28
  {
    v % Pow2(28 - n) * Pow2(n) + v / Pow2(28 - n)
  }

  lemma QuotientBound(v: nat, p: nat, q: nat)
    requires p > 0 && v < p * q
    ensures v / p < q
  {
    Parts(v, p);
    if v / p >= q {
      MulMono(p, p, q, v / p);
      assert false;
    }
  }

  lemma FullPower(n: nat)
    requires n <= 28
    ensures Pow2(n) * Pow2(28 - n) == 0x1000_0000
  {
    Pow2Add(n, 28 - n);
    TwentySeven();
  }

  /** What is turned to the right by `n` was turned to the left before. */
  lemma TurnBack(x: nat, v: nat, n: nat)
    requires n <= 28 && x < 0x1000_0000 && TurnBy(x, n) == v
    ensures x == TurnedLeft(v, n)
  {
    hide TurnBy, Pow2;
    var p, m := Pow2(n), Pow2(28 - n);
    var q, r := x / p, x % p;
    Parts(x, p);
    TurnByParts(q, r, n);
    FullPower(n);
    QuotientBound(x, p, m);
    assert v == m * r + q by {
      assert r * m == m * r;
    }
    DivModUnique(v, m, r, q);
    assert q * p == p * q;
  }

  lemma CleanBound(h: Half)
    requires Clean(h)
    ensures ValueOf(h) < 0x1000_0000
  {
  }

  /** The key halves turned to the left as numbers. */
  lemma LeftByTurns(k: KeyHalves, n: nat)
    requires CleanKey(k) && n <= 28
    ensures ValueOf(LeftBy(k, n).left) == TurnedLeft(ValueOf(k.left), n)
    ensures ValueOf(LeftBy(k, n).right) == TurnedLeft(ValueOf(k.right), n)
  {
    hide RightRotBy, LeftBy, RightBy, TurnBy, TurnedLeft, ValueOf;
    var x := LeftBy(k, n);
    RightUndoesLeft(k, n);
    RightByHalves(x, n);
    RightRotByTurns(x.left, n);
    RightRotByTurns(x.right, n);
    CleanBound(x.left);
    CleanBound(x.right);
    TurnBack(ValueOf(x.left), ValueOf(k.left), n);
    TurnBack(ValueOf(x.right), ValueOf(k.right), n);
  }

  /** How far left the halves have turned when a round to the left uses them. */
  const TURNS: seq<nat> := [1, 2, 4, 6, 8, 10, 12, 14, 15, 17, 19, 21, 23, 25, 27, 28]

  lemma TurnedIs(i: nat)
    requires i < 16
    ensures Turned(i) == TURNS[i]
  {
    assert Turned(0) == 1 && Turned(1) == 2 && Turned(2) == 4 && Turned(3) == 6;
    assert Turned(4) == 8 && Turned(5) == 10 && Turned(6) == 12 && Turned(7) == 14;
    assert Turned(8) == 15 && Turned(9) == 17 && Turned(10) == 19 && Turned(11) == 21;
    assert Turned(12) == 23 && Turned(13) == 25 && Turned(14) == 27 && Turned(15) == 28;
    hide Turned;
    assert
      || i == 0 || i == 1 || i == 2 || i == 3 || i == 4 || i == 5 || i == 6 || i == 7
      || i == 8 || i == 9 || i == 10 || i == 11 || i == 12 || i == 13 || i == 14 || i == 15;
  }

  /** The key of round `i`: both halves of the 56-bit number turned; to the right the rounds come in the opposite
      order, from a full turn down to one place. */
  ghost predicate KeyOfRound(key: Byte8, toRight: bool, i: nat, k: KeyHalves)
    requires i < 16
  {
    var n := TURNS[if toRight then 15 - i else i];
    && Spells(k.left, TurnedLeft(KeyNumber(key) / 0x1000_0000, n))
    && Spells(k.right, TurnedLeft(KeyNumber(key) % 0x1000_0000, n))
  }

  lemma KeyIsTurned(key: Byte8, toRight: bool, i: nat)
    requires i < 16
    ensures KeyOfRound(key, toRight, i, Order(SplitKey(key), toRight)[i])
  {
    hide SplitKey, LeftBy, TurnedLeft, Turned;
    var k := SplitKey(key);
    var j := if toRight then 15 - i else i;
    SplitNumber(key);
    TurnedIs(j);
    LeftByTurns(k, TURNS[j]);
    if toRight {
      ReverseAt(LeftKeys(k), i);
    }
  }

  // ----- The rounds

  /** The new half of a round is the old one masked with what the round makes of its key and of the other. */
  ghost predicate RoundHalf(f: RoundFunction, k: KeyHalves, k8: Byte, hash: bool, a: Half, b: Half, c: Half) {
    var m := f(k, k8, hash, b);
    && c[0] == ByteXor(a[0], m[0]) && c[1] == ByteXor(a[1], m[1])
    && c[2] == ByteXor(a[2], m[2]) && c[3] == ByteXor(a[3], m[3])
  }

  /** Sixteen rounds under the keys of the rounds, and the halves in the opposite order at the end. */
  ghost predicate CoreHalves(f: RoundFunction, key: Byte8, toRight: bool, hash: bool, d: Byte8, e: Byte8,
                             ks: seq<KeyHalves>, h: seq<Half>) {
    && |ks| == 16 && |h| == 18 && d[..4] == h[0] && d[4..] == h[1] && e[..4] == h[17] && e[4..] == h[16]
    && (forall i | 0 <= i < 16 :: KeyOfRound(key, toRight, i, ks[i]))
    && forall i | 0 <= i < 16 :: RoundHalf(f, ks[i], key[7], hash, h[i], h[i + 1], h[i + 2])
  }

  lemma CoreEquations(f: RoundFunction, key: Byte8, toRight: bool, hash: bool, d: Byte8)
    returns (ks: seq<KeyHalves>, h: seq<Half>)
    ensures CoreHalves(f, key, toRight, hash, d, Core(f, key, toRight, hash, d), ks, h)
  {
    hide SplitKey, LeftBy, KeyOfRound, Rounds, ByteXor, Order;
    var n := Net(f, key[7], hash);
    ks := Order(SplitKey(key), toRight);
    h := Halves(n, ks, ToBlock(d));
    forall i | 0 <= i < 16
      ensures KeyOfRound(key, toRight, i, ks[i])
    {
      KeyIsTurned(key, toRight, i);
    }
    forall i | 0 <= i < 16
      ensures RoundHalf(f, ks[i], key[7], hash, h[i], h[i + 1], h[i + 2])
    {
      assert h[i + 2] == n.mask(h[i], n.f(ks[i], h[i + 1]));
    }
  }

  /** The whole cipher: the permutations on either side are the mode's to choose. */
  lemma CryptEquations(f: RoundFunction, key: Byte8, mode: Mode, d: Byte8)
    returns (x: Byte8, y: Byte8, ks: seq<KeyHalves>, h: seq<Half>)
    ensures x == if mode.ip then Initial(d) else d
    ensures CoreHalves(f, key, mode.toRight, mode.hash, x, y, ks, h)
    ensures y == if mode.ip1 then Initial(Crypt(f, key, mode, d)) else Crypt(f, key, mode, d)
  {
    hide Initial, Final, Core, CoreHalves;
    x := if mode.ip then Initial(d) else d;
    y := Core(f, key, mode.toRight, mode.hash, x);
    ks, h := CoreEquations(f, key, mode.toRight, mode.hash, x);
    InitialFinal(y);
  }
}
