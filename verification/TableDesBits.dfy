/** Which bit of the block the initial permutation puts where: the table of FIPS 46-3, read through the order
    of the bytes in a word and the turn of the halves by one bit. */
module TableDesBits {
  import Bits
  import opened Feistel
  import opened TableDes
  import opened TableDesCbc

  /** Bit `n`, counted from the lowest. */
  predicate Bit(x: bv32, n: nat) {
    if n == 0 then x & 1 == 1 else Bit(x >> 1, n - 1)
  }

  function Wide(b: Byte): bv32 {
    b as bv32
  }

  /** Bit `p` of eight bytes as FIPS 46-3 counts: from 1, the top bit of the first byte. */
  predicate BlockBit(s: ByteBlock, p: nat)
    requires 1 <= p <= 64
  {
    Bit(Wide(s[(p - 1) / 8]), 7 - (p - 1) % 8)
  }

  // ----- What masking and shifting do to a bit

  function And(x: bv32, m: bv32): bv32 {
    x & m
  }

  lemma AndLow(x: bv32, m: bv32)
    ensures And(x, m) >> 1 == And(x >> 1, m >> 1)
    ensures And(x, m) & 1 == 1 <==> x & 1 == 1 && m & 1 == 1
  {
  }

  lemma {:induction false} AndBit(x: bv32, m: bv32, n: nat)
    ensures Bit(And(x, m), n) <==> Bit(x, n) && Bit(m, n)
    decreases n
  {
    hide And;
    AndLow(x, m);
    if n > 0 {
      AndBit(x >> 1, m >> 1, n - 1);
    }
  }

  function Places(d: Distance): (k: nat)
    ensures k > 0
  {
    match d
    case One => 1
    case Two => 2
    case Four => 4
    case Eight => 8
    case Sixteen => 16
  }

  lemma ShiftsAdd(x: bv32)
    ensures (x >> 1) >> 1 == x >> 2 && (x >> 2) >> 2 == x >> 4 && (x >> 4) >> 4 == x >> 8 && (x >> 8) >> 8 == x >> 16
    ensures (x << 1) << 1 == x << 2 && (x << 2) << 2 == x << 4 && (x << 4) << 4 == x << 8 && (x << 8) << 8 == x << 16
  {
  }

  lemma DownTwo(x: bv32)
    ensures Down(x, Two) == Down(Down(x, One), One)
  {
    ShiftsAdd(x);
  }

  lemma DownFour(x: bv32)
    ensures Down(x, Four) == Down(Down(x, Two), Two)
  {
    ShiftsAdd(x);
  }

  lemma DownEight(x: bv32)
    ensures Down(x, Eight) == Down(Down(x, Four), Four)
  {
    ShiftsAdd(x);
  }

  lemma DownSixteen(x: bv32)
    ensures Down(x, Sixteen) == Down(Down(x, Eight), Eight)
  {
    ShiftsAdd(x);
  }

  lemma DownOne(x: bv32, n: nat)
    ensures Bit(Down(x, One), n) <==> Bit(x, n + 1)
  {
  }

  lemma FlipFirst(x: bv32, t: bv32)
    ensures Flip(x, t) & 1 == 1 <==> (x & 1 == 1) != (t & 1 == 1)
  {
  }

  lemma FlipDown(x: bv32, t: bv32)
    ensures Down(Flip(x, t), One) == Flip(Down(x, One), Down(t, One))
  {
  }

  lemma {:induction false} FlipBit(x: bv32, t: bv32, n: nat)
    ensures Bit(Flip(x, t), n) <==> Bit(x, n) != Bit(t, n)
    decreases n
  {
    if n == 0 {
      hide Flip;
      FlipFirst(x, t);
    } else {
      hide Flip, Down, Bit;
      FlipDown(x, t);
      DownOne(Flip(x, t), n - 1);
      DownOne(x, n - 1);
      DownOne(t, n - 1);
      FlipBit(Down(x, One), Down(t, One), n - 1);
    }
  }

  lemma {:induction false} DownBit(x: bv32, d: Distance, n: nat)
    ensures Bit(Down(x, d), n) <==> Bit(x, n + Places(d))
    decreases Places(d)
  {
    hide Down, Bit;
    match d
    case One => DownOne(x, n);
    case Two => DownTwo(x); DownBit(Down(x, One), One, n); DownBit(x, One, n + 1);
    case Four => DownFour(x); DownBit(Down(x, Two), Two, n); DownBit(x, Two, n + 2);
    case Eight => DownEight(x); DownBit(Down(x, Four), Four, n); DownBit(x, Four, n + 4);
    case Sixteen => DownSixteen(x); DownBit(Down(x, Eight), Eight, n); DownBit(x, Eight, n + 8);
  }

  lemma UpTwo(x: bv32)
    ensures Up(x, Two) == Up(Up(x, One), One)
  {
    ShiftsAdd(x);
  }

  lemma UpFour(x: bv32)
    ensures Up(x, Four) == Up(Up(x, Two), Two)
  {
    ShiftsAdd(x);
  }

  lemma UpEight(x: bv32)
    ensures Up(x, Eight) == Up(Up(x, Four), Four)
  {
    ShiftsAdd(x);
  }

  lemma UpSixteen(x: bv32)
    ensures Up(x, Sixteen) == Up(Up(x, Eight), Eight)
  {
    ShiftsAdd(x);
  }

  lemma UpDown(x: bv32)
    ensures Up(x, One) & 1 != 1 && Up(x, One) >> 1 == And(x, 0x7fff_ffff)
  {
  }

  /** The word whose only one is bit `n`. */
  function Single(n: nat): bv32 {
    if n == 0 then 1 else Single(n - 1) << 1
  }

  lemma Singles()
    ensures Single(0) == 0x1 && Single(1) == 0x2 && Single(2) == 0x4 && Single(3) == 0x8
    ensures Single(4) == 0x10 && Single(5) == 0x20 && Single(6) == 0x40 && Single(7) == 0x80
    ensures Single(8) == 0x100 && Single(9) == 0x200 && Single(10) == 0x400 && Single(11) == 0x800
    ensures Single(12) == 0x1000 && Single(13) == 0x2000 && Single(14) == 0x4000 && Single(15) == 0x8000
    ensures Single(16) == 0x10000 && Single(17) == 0x20000 && Single(18) == 0x40000 && Single(19) == 0x80000
    ensures Single(20) == 0x100000 && Single(21) == 0x200000 && Single(22) == 0x400000 && Single(23) == 0x800000
    ensures Single(24) == 0x1000000 && Single(25) == 0x2000000 && Single(26) == 0x4000000 && Single(27) == 0x8000000
    ensures Single(28) == 0x10000000 && Single(29) == 0x20000000 && Single(30) == 0x40000000 && Single(31) == 0x80000000
  {
  }

  lemma SingleNext(n: nat)
    ensures Single(n) == if n == 0 then 1 else Single(n - 1) << 1
  {
  }

  lemma BitNext(x: bv32, n: nat)
    ensures Bit(x, n) <==> if n == 0 then x & 1 == 1 else Bit(x >> 1, n - 1)
  {
  }

  lemma AndShift(x: bv32, m: bv32)
    ensures And(x >> 1, m) == 0 <==> And(x, m << 1) == 0
  {
  }

  lemma AndOne(x: bv32)
    ensures And(x, 1) == 0 <==> x & 1 != 1
  {
  }

  lemma {:induction false} BitIsSingle(x: bv32, n: nat)
    ensures Bit(x, n) <==> And(x, Single(n)) != 0
    decreases n
  {
    hide And, Single, Bit;
    SingleNext(n);
    BitNext(x, n);
    if n == 0 {
      AndOne(x);
    } else {
      BitIsSingle(x >> 1, n - 1);
      AndShift(x, Single(n - 1));
    }
  }

  lemma AllButTop(n: nat)
    requires n < 31
    ensures Bit(0x7fff_ffff, n)
  {
    hide Bit, Single;
    Singles();
    BitIsSingle(0x7fff_ffff, n);
    assert
      || n == 0 || n == 1 || n == 2 || n == 3 || n == 4 || n == 5 || n == 6 || n == 7
      || n == 8 || n == 9 || n == 10 || n == 11 || n == 12 || n == 13 || n == 14 || n == 15
      || n == 16 || n == 17 || n == 18 || n == 19 || n == 20 || n == 21 || n == 22 || n == 23
      || n == 24 || n == 25 || n == 26 || n == 27 || n == 28 || n == 29 || n == 30;
  }

  lemma UpOne(x: bv32, n: nat)
    requires n < 32
    ensures Bit(Up(x, One), n) <==> n >= 1 && Bit(x, n - 1)
  {
    hide Up, And;
    UpDown(x);
    if n > 0 {
      AndBit(x, 0x7fff_ffff, n - 1);
      AllButTop(n - 1);
    }
  }

  lemma {:induction false} UpBit(x: bv32, d: Distance, n: nat)
    requires n < 32
    ensures Bit(Up(x, d), n) <==> n >= Places(d) && Bit(x, n - Places(d))
    decreases Places(d)
  {
    hide Up, Bit;
    match d
    case One => UpOne(x, n);
    case Two => UpTwo(x); UpBit(Up(x, One), One, n); if n >= 1 { UpBit(x, One, n - 1); }
    case Four => UpFour(x); UpBit(Up(x, Two), Two, n); if n >= 2 { UpBit(x, Two, n - 2); }
    case Eight => UpEight(x); UpBit(Up(x, Four), Four, n); if n >= 4 { UpBit(x, Four, n - 4); }
    case Sixteen => UpSixteen(x); UpBit(Up(x, Eight), Eight, n); if n >= 8 { UpBit(x, Eight, n - 8); }
  }

  lemma MaskOne(n: nat)
    requires n < 32
    ensures And(Mask(One), Single(n)) != 0 <==> n / 1 % 2 == 0
  {
    hide Single;
    Singles();
    assert
      || n == 0 || n == 1 || n == 2 || n == 3 || n == 4 || n == 5 || n == 6 || n == 7
      || n == 8 || n == 9 || n == 10 || n == 11 || n == 12 || n == 13 || n == 14 || n == 15
      || n == 16 || n == 17 || n == 18 || n == 19 || n == 20 || n == 21 || n == 22 || n == 23
      || n == 24 || n == 25 || n == 26 || n == 27 || n == 28 || n == 29 || n == 30 || n == 31;
  }

  lemma MaskTwo(n: nat)
    requires n < 32
    ensures And(Mask(Two), Single(n)) != 0 <==> n / 2 % 2 == 0
  {
    hide Single;
    Singles();
    assert
      || n == 0 || n == 1 || n == 2 || n == 3 || n == 4 || n == 5 || n == 6 || n == 7
      || n == 8 || n == 9 || n == 10 || n == 11 || n == 12 || n == 13 || n == 14 || n == 15
      || n == 16 || n == 17 || n == 18 || n == 19 || n == 20 || n == 21 || n == 22 || n == 23
      || n == 24 || n == 25 || n == 26 || n == 27 || n == 28 || n == 29 || n == 30 || n == 31;
  }

  lemma MaskFour(n: nat)
    requires n < 32
    ensures And(Mask(Four), Single(n)) != 0 <==> n / 4 % 2 == 0
  {
    hide Single;
    Singles();
    assert
      || n == 0 || n == 1 || n == 2 || n == 3 || n == 4 || n == 5 || n == 6 || n == 7
      || n == 8 || n == 9 || n == 10 || n == 11 || n == 12 || n == 13 || n == 14 || n == 15
      || n == 16 || n == 17 || n == 18 || n == 19 || n == 20 || n == 21 || n == 22 || n == 23
      || n == 24 || n == 25 || n == 26 || n == 27 || n == 28 || n == 29 || n == 30 || n == 31;
  }

  lemma MaskEight(n: nat)
    requires n < 32
    ensures And(Mask(Eight), Single(n)) != 0 <==> n / 8 % 2 == 0
  {
    hide Single;
    Singles();
    assert
      || n == 0 || n == 1 || n == 2 || n == 3 || n == 4 || n == 5 || n == 6 || n == 7
      || n == 8 || n == 9 || n == 10 || n == 11 || n == 12 || n == 13 || n == 14 || n == 15
      || n == 16 || n == 17 || n == 18 || n == 19 || n == 20 || n == 21 || n == 22 || n == 23
      || n == 24 || n == 25 || n == 26 || n == 27 || n == 28 || n == 29 || n == 30 || n == 31;
  }

  lemma MaskSixteen(n: nat)
    requires n < 32
    ensures And(Mask(Sixteen), Single(n)) != 0 <==> n / 16 % 2 == 0
  {
    hide Single;
    Singles();
    assert
      || n == 0 || n == 1 || n == 2 || n == 3 || n == 4 || n == 5 || n == 6 || n == 7
      || n == 8 || n == 9 || n == 10 || n == 11 || n == 12 || n == 13 || n == 14 || n == 15
      || n == 16 || n == 17 || n == 18 || n == 19 || n == 20 || n == 21 || n == 22 || n == 23
      || n == 24 || n == 25 || n == 26 || n == 27 || n == 28 || n == 29 || n == 30 || n == 31;
  }

  lemma MaskBit(d: Distance, n: nat)
    requires n < 32
    ensures Bit(Mask(d), n) <==> n / Places(d) % 2 == 0
  {
    hide Bit, Single, And, Mask;
    BitIsSingle(Mask(d), n);
    match d
    case One => MaskOne(n);
    case Two => MaskTwo(n);
    case Four => MaskFour(n);
    case Eight => MaskEight(n);
    case Sixteen => MaskSixteen(n);
  }

  lemma PickIs(a: bv32, b: bv32, d: Distance)
    ensures Pick(a, b, d) == And(Flip(Down(a, d), b), Mask(d))
  {
  }

  lemma PickBit(a: bv32, b: bv32, d: Distance, n: nat)
    requires n < 32
    ensures Bit(Pick(a, b, d), n) <==> n / Places(d) % 2 == 0 && Bit(a, n + Places(d)) != Bit(b, n)
  {
    hide Pick, And, Flip, Down, Mask, Bit, Places;
    PickIs(a, b, d);
    AndBit(Flip(Down(a, d), b), Mask(d), n);
    FlipBit(Down(a, d), b, n);
    DownBit(a, d, n);
    MaskBit(d, n);
  }

  // ----- One exchange

  lemma Parity(d: Distance, n: nat)
    ensures n >= Places(d) ==> n / Places(d) == (n - Places(d)) / Places(d) + 1
    ensures n < Places(d) ==> n / Places(d) == 0
  {
    hide Places;
    var k := Places(d);
    if n >= k {
      var q, r := (n - k) / k, (n - k) % k;
      assert n - k == k * q + r;
      assert n == k * (q + 1) + r;
      Bits.DivModUnique(n, k, q + 1, r);
    } else {
      Bits.DivModUnique(n, k, 0, n);
    }
  }

  /** The bits of `b` whose place, counted in the distance, is even and those of `a` where it is odd trade
      places. */
  lemma ExchangeBit(a: bv32, b: bv32, d: Distance, n: nat)
    requires n < 32
    ensures
      var (a1, b1) := Exchange(a, b, d);
      if n / Places(d) % 2 == 0 then (Bit(b1, n) <==> Bit(a, n + Places(d))) && (Bit(a1, n) <==> Bit(a, n))
      else
        && n >= Places(d)
        && (Bit(a1, n) <==> Bit(b, n - Places(d))) && (Bit(b1, n) <==> Bit(b, n))
  {
    hide Pick, Flip, Up, Bit, Places;
    var t := Pick(a, b, d);
    Parity(d, n);
    FlipBit(b, t, n);
    PickBit(a, b, d, n);
    FlipBit(a, Up(t, d), n);
    UpBit(t, d, n);
    if n >= Places(d) {
      PickBit(a, b, d, n - Places(d));
    }
  }

  lemma RotateWord(x: bv32)
    ensures ((x << 1) | (x >> 31)) >> 1 == x & 0x7fff_ffff
    ensures ((x << 1) | (x >> 31)) & 1 == 1 <==> x & 0x8000_0000 != 0
  {
  }

  lemma RotateShift(x: bv32)
    ensures RotateLeft1(x) >> 1 == And(x, 0x7fff_ffff)
  {
    RotateWord(x);
  }

  lemma RotateFirst(x: bv32)
    ensures RotateLeft1(x) & 1 == 1 <==> And(x, 0x8000_0000) != 0
  {
    RotateWord(x);
  }

  lemma RotateBit(x: bv32, n: nat)
    requires n < 31
    ensures Bit(RotateLeft1(x), n + 1) <==> Bit(x, n)
  {
    hide RotateLeft1, And, Bit;
    BitNext(RotateLeft1(x), n + 1);
    RotateShift(x);
    AndBit(x, 0x7fff_ffff, n);
    AllButTop(n);
  }

  lemma RotateTop(x: bv32)
    ensures Bit(RotateLeft1(x), 0) <==> Bit(x, 31)
  {
    hide RotateLeft1, And, Bit, Single;
    BitNext(RotateLeft1(x), 0);
    RotateFirst(x);
    BitIsSingle(x, 31);
    Singles();
  }

  // ----- Five exchanges

  /** Bit `n` of the first or of the second of two words. */
  predicate On(l: bv32, r: bv32, second: bool, n: nat) {
    Bit(if second then r else l, n)
  }

  /** Where a bit was before an exchange: with the first word below the second ... */
  function Before(second: bool, n: nat, d: Distance): (bool, nat) {
    var odd := n / Places(d) % 2 == 1;
    if second != odd then (second, n)
    else if odd then (false, if n >= Places(d) then n - Places(d) else 0) else (true, n + Places(d))
  }

  /** ... and with the second below the first. */
  function Before'(second: bool, n: nat, d: Distance): (bool, nat) {
    var odd := n / Places(d) % 2 == 1;
    if second == odd then (second, n)
    else if odd then (true, if n >= Places(d) then n - Places(d) else 0) else (false, n + Places(d))
  }

  lemma Stage(l: bv32, r: bv32, d: Distance, second: bool, n: nat)
    requires n < 32
    ensures
      var (r1, l1) := Exchange(r, l, d);
      var (s, m) := Before(second, n, d);
      On(l1, r1, second, n) <==> On(l, r, s, m)
  {
    hide Exchange, Bit, Places;
    ExchangeBit(r, l, d, n);
  }

  lemma Stage'(l: bv32, r: bv32, d: Distance, second: bool, n: nat)
    requires n < 32
    ensures
      var (l1, r1) := Exchange(l, r, d);
      var (s, m) := Before'(second, n, d);
      On(l1, r1, second, n) <==> On(l, r, s, m)
  {
    hide Exchange, Bit, Places;
    ExchangeBit(l, r, d, n);
  }

  /** Where a bit was before all five. */
  function Origin(second: bool, n: nat): (bool, nat) {
    var (s4, n4) := Before(second, n, One);
    var (s3, n3) := Before'(s4, n4, Eight);
    var (s2, n2) := Before(s3, n3, Two);
    var (s1, n1) := Before'(s2, n2, Sixteen);
    Before(s1, n1, Four)
  }

  lemma BeforeInside(second: bool, n: nat, d: Distance)
    requires n < 32
    ensures Before(second, n, d).1 < 32 && Before'(second, n, d).1 < 32
  {
  }

  lemma FiveStages(d: Block<bv32>, second: bool, n: nat)
    requires n < 32
    ensures
      var y := Initial(d);
      var (s, m) := Origin(second, n);
      On(RotateRight1(y.r), RotateRight1(y.l), second, n) <==> On(d.l, d.r, s, m)
  {
    hide Exchange, On, Before, Before', RotateLeft1, RotateRight1;
    var (r1, u1) := Exchange(d.r, d.l, Four);
    var (u2, r2) := Exchange(u1, r1, Sixteen);
    var (r3, u3) := Exchange(r2, u2, Two);
    var (u4, r4) := Exchange(u3, r3, Eight);
    var (r5, u5) := Exchange(r4, u4, One);
    RotateBack(r5);
    RotateBack(u5);
    Stage(u4, r4, One, second, n);
    BeforeInside(second, n, One);
    var (s4, n4) := Before(second, n, One);
    Stage'(u3, r3, Eight, s4, n4);
    BeforeInside(s4, n4, Eight);
    var (s3, n3) := Before'(s4, n4, Eight);
    Stage(u2, r2, Two, s3, n3);
    BeforeInside(s3, n3, Two);
    var (s2, n2) := Before(s3, n3, Two);
    Stage'(u1, r1, Sixteen, s2, n2);
    BeforeInside(s2, n2, Sixteen);
    var (s1, n1) := Before'(s2, n2, Sixteen);
    Stage(d.l, d.r, Four, s1, n1);
  }

  // ----- The table

  /** Place `m + 1` of the table. */
  function Table(m: nat): (p: nat)
    requires m < 64
    ensures 1 <= p <= 64
  {
    (if m < 32 then 58 + 2 * (m / 8) else 57 + 2 * (m / 8 - 4)) - 8 * (m % 8)
  }

  /** Where bit `p` of the block stands in two words, each with its first byte lowest. */
  function Standing(p: nat): (bool, nat)
    requires 1 <= p <= 64
  {
    ((p - 1) / 8 >= 4, (p - 1) / 8 % 4 * 8 + 7 - (p - 1) % 8)
  }

  function Digit(b: bool): nat {
    if b then 1 else 0
  }

  /** The number with these binary digits. */
  function Number(b4: bool, b3: bool, b2: bool, b1: bool, b0: bool): nat {
    16 * Digit(b4) + 8 * Digit(b3) + 4 * Digit(b2) + 2 * Digit(b1) + Digit(b0)
  }

  lemma TradeOne(s: bool, b4: bool, b3: bool, b2: bool, b1: bool, b0: bool)
    ensures Before(s, Number(b4, b3, b2, b1, b0), One) == (!b0, Number(b4, b3, b2, b1, !s))
  {
  }

  lemma TradeEight(s: bool, b4: bool, b3: bool, b2: bool, b1: bool, b0: bool)
    ensures Before'(s, Number(b4, b3, b2, b1, b0), Eight) == (b3, Number(b4, s, b2, b1, b0))
  {
  }

  lemma TradeTwo(s: bool, b4: bool, b3: bool, b2: bool, b1: bool, b0: bool)
    ensures Before(s, Number(b4, b3, b2, b1, b0), Two) == (!b1, Number(b4, b3, b2, !s, b0))
  {
  }

  lemma TradeSixteen(s: bool, b4: bool, b3: bool, b2: bool, b1: bool, b0: bool)
    ensures Before'(s, Number(b4, b3, b2, b1, b0), Sixteen) == (b4, Number(s, b3, b2, b1, b0))
  {
  }

  lemma TradeFour(s: bool, b4: bool, b3: bool, b2: bool, b1: bool, b0: bool)
    ensures Before(s, Number(b4, b3, b2, b1, b0), Four) == (!b2, Number(b4, b3, !s, b1, b0))
  {
  }

  /** The five exchanges reverse and negate the digits, the choice of the word among them. */
  lemma OriginIs(s: bool, b4: bool, b3: bool, b2: bool, b1: bool, b0: bool)
    ensures Origin(s, Number(b4, b3, b2, b1, b0)) == (!b2, Number(!b1, !b0, !b4, !b3, !s))
  {
    hide Before, Before', Number;
    TradeOne(s, b4, b3, b2, b1, b0);
    TradeEight(!b0, b4, b3, b2, b1, !s);
    TradeTwo(b3, b4, !b0, b2, b1, !s);
    TradeSixteen(!b1, b4, !b0, b2, !b3, !s);
    TradeFour(b4, !b1, !b0, b2, !b3, !s);
  }

  lemma RowAndColumn(m: nat, row: nat, col: nat)
    requires m == 8 * row + col && row < 8 && col < 8
    ensures m / 8 == row && m % 8 == col
    ensures Table(m) - 1 == 8 * (7 - col) + if row < 4 then 2 * row + 1 else 2 * (row - 4)
  {
    Bits.DivModUnique(m, 8, row, col);
  }

  lemma StandingAt(p: nat, i: nat, n: nat)
    requires 1 <= p <= 64 && p - 1 == 8 * i + n && n < 8
    ensures Standing(p) == (i >= 4, 8 * (if i >= 4 then i - 4 else i) + 7 - n)
  {
    Bits.DivModUnique(p - 1, 8, i, n);
  }

  lemma StandingIs(s: bool, b4: bool, b3: bool, b2: bool, b1: bool, b0: bool)
    ensures
      var m := Number(b4, b3, b2, b1, b0) + if s then 0 else 32;
      m < 64 && Standing(Table(m)) == (!b2, Number(!b1, !b0, !b4, !b3, !s))
  {
    hide Table, Standing;
    var row, col := 2 * Digit(b4) + Digit(b3), 4 * Digit(b2) + 2 * Digit(b1) + Digit(b0);
    var m := Number(b4, b3, b2, b1, b0) + if s then 0 else 32;
    RowAndColumn(m, if s then row else row + 4, col);
    StandingAt(Table(m), 7 - col, 2 * row + Digit(s));
  }

  lemma Digits(n: nat) returns (b4: bool, b3: bool, b2: bool, b1: bool, b0: bool)
    requires n < 32
    ensures n == Number(b4, b3, b2, b1, b0)
  {
    b4 := n >= 16;
    var r4 := n - 16 * Digit(b4);
    b3 := r4 >= 8;
    var r3 := r4 - 8 * Digit(b3);
    b2 := r3 >= 4;
    var r2 := r3 - 4 * Digit(b2);
    b1 := r2 >= 2;
    b0 := r2 - 2 * Digit(b1) == 1;
  }

  lemma LowByte(n: nat)
    requires n < 8
    ensures Bit(0xff, n)
  {
    hide Bit, Single;
    Singles();
    BitIsSingle(0xff, n);
    assert n == 0 || n == 1 || n == 2 || n == 3 || n == 4 || n == 5 || n == 6 || n == 7;
  }

  lemma GetFirst(a: Byte, b: Byte, c: Byte, d: Byte)
    ensures And(Get32(a, b, c, d), 0xff) == Wide(a)
  {
  }

  lemma GetSecond(a: Byte, b: Byte, c: Byte, d: Byte)
    ensures And(Down(Get32(a, b, c, d), Eight), 0xff) == Wide(b)
  {
  }

  lemma GetThird(a: Byte, b: Byte, c: Byte, d: Byte)
    ensures And(Down(Get32(a, b, c, d), Sixteen), 0xff) == Wide(c)
  {
  }

  lemma GetFourth(a: Byte, b: Byte, c: Byte, d: Byte)
    ensures And(Down(Down(Get32(a, b, c, d), Sixteen), Eight), 0xff) == Wide(d)
  {
  }

  lemma GetBits(a: Byte, b: Byte, c: Byte, d: Byte, n: nat)
    requires n < 8
    ensures
      var x := Get32(a, b, c, d);
      && (Bit(x, n) <==> Bit(Wide(a), n)) && (Bit(x, 8 + n) <==> Bit(Wide(b), n))
      && (Bit(x, 16 + n) <==> Bit(Wide(c), n)) && (Bit(x, 24 + n) <==> Bit(Wide(d), n))
  {
    hide Bit, And, Down, Get32, Wide;
    var x := Get32(a, b, c, d);
    LowByte(n);
    GetFirst(a, b, c, d);
    GetSecond(a, b, c, d);
    GetThird(a, b, c, d);
    GetFourth(a, b, c, d);
    AndBit(x, 0xff, n);
    AndBit(Down(x, Eight), 0xff, n);
    AndBit(Down(x, Sixteen), 0xff, n);
    AndBit(Down(Down(x, Sixteen), Eight), 0xff, n);
    DownBit(x, Eight, n);
    DownBit(x, Sixteen, n);
    DownBit(Down(x, Sixteen), Eight, n);
    DownBit(x, Sixteen, 8 + n);
  }

  lemma GetBit(s: seq<Byte>, i: nat, n: nat)
    requires |s| == 4 && i < 4 && n < 8
    ensures Bit(Get32(s[0], s[1], s[2], s[3]), 8 * i + n) <==> Bit(Wide(s[i]), n)
  {
    hide Bit, Get32, Wide;
    GetBits(s[0], s[1], s[2], s[3], n);
    match i
    case 0 =>
    case 1 =>
    case 2 =>
    case 3 =>
  }

  lemma LoadBits(s: ByteBlock, p: nat)
    requires 1 <= p <= 64
    ensures On(Load(s).l, Load(s).r, Standing(p).0, Standing(p).1) <==> BlockBit(s, p)
  {
    hide Bit, Get32, Wide, Standing;
    var i, n := (p - 1) / 8, (p - 1) % 8;
    StandingAt(p, i, n);
    if i < 4 {
      GetBit(s[..4], i, 7 - n);
    } else {
      GetBit(s[4..], i - 4, 7 - n);
    }
  }

  lemma TurnedHalf(x: bv32, n: nat)
    requires n < 32
    ensures Bit(x, (n + 1) % 32) <==> Bit(RotateRight1(x), n)
  {
    hide RotateLeft1, RotateRight1, Bit;
    RotateBack(x);
    if n < 31 {
      RotateBit(RotateRight1(x), n);
    } else {
      RotateTop(RotateRight1(x));
    }
  }

  lemma LeftTable(d: Block<bv32>, n: nat)
    requires n < 32
    ensures Bit(Initial(d).l, (n + 1) % 32) <==> On(d.l, d.r, Standing(Table(n)).0, Standing(Table(n)).1)
  {
    hide Initial, Bit, Origin, Number, Table, Standing;
    var b4, b3, b2, b1, b0 := Digits(n);
    OriginIs(true, b4, b3, b2, b1, b0);
    StandingIs(true, b4, b3, b2, b1, b0);
    FiveStages(d, true, n);
    TurnedHalf(Initial(d).l, n);
  }

  lemma RightTable(d: Block<bv32>, n: nat)
    requires n < 32
    ensures Bit(Initial(d).r, (n + 1) % 32) <==> On(d.l, d.r, Standing(Table(n + 32)).0, Standing(Table(n + 32)).1)
  {
    hide Initial, Bit, Origin, Number, Table, Standing;
    var b4, b3, b2, b1, b0 := Digits(n);
    OriginIs(false, b4, b3, b2, b1, b0);
    StandingIs(false, b4, b3, b2, b1, b0);
    FiveStages(d, false, n);
    TurnedHalf(Initial(d).r, n);
  }

  /** Bit `m + 1` of the permuted block is the one the table names. Each half has its bits in reversed order, and
      turned by one place. */
  lemma InitialTable(s: ByteBlock, m: nat)
    requires m < 64
    ensures
      var y, p := Initial(Load(s)), (if m < 32 then 58 + 2 * (m / 8) else 57 + 2 * (m / 8 - 4)) - 8 * (m % 8);
      Bit(if m < 32 then y.l else y.r, (m + 1) % 32) <==> BlockBit(s, p)
  {
    hide Initial, Bit, Load, Standing, On, BlockBit;
    if m < 32 {
      LeftTable(Load(s), m);
    } else {
      RightTable(Load(s), m - 32);
    }
    LoadBits(s, Table(m));
  }
}
