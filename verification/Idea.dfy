/** The cipher as the program runs it: registers of 64 bits that collect garbage above bit 15
    and are masked at a few points only, and schedules filled in place. */
module Idea {
  import opened Bits
  import opened IdeaGroup
  import opened IdeaCipher

  const ULONG: int := 0x1_0000_0000_0000_0000

  type ULong = x: int | 0 <= x < 0x1_0000_0000_0000_0000

  function Low16(x: ULong): (r: Word) {
    x % 0x1_0000
  }

  lemma LowOfWord(w: Word)
    ensures Low16(w) == w
  {
  }

  /** Reducing modulo 2^64 first changes nothing modulo 2^16. */
  lemma LowOfReduced(x: nat)
    ensures x % ULONG % 0x1_0000 == x % 0x1_0000
  {
    var q, r := x / ULONG, x % ULONG;
    assert x == ULONG * q + r;
    DivModUnique(x, 0x1_0000, 0x1_0000_0000_0000 * q + r / 0x1_0000, r % 0x1_0000);
  }

  lemma LowOfSum(a: nat, b: nat)
    ensures (a + b) % 0x1_0000 == (a % 0x1_0000 + b % 0x1_0000) % 0x1_0000
  {
    var qa, qb, s := a / 0x1_0000, b / 0x1_0000, a % 0x1_0000 + b % 0x1_0000;
    DivModUnique(a + b, 0x1_0000, qa + qb + s / 0x1_0000, s % 0x1_0000);
  }

  function AddWide(a: ULong, b: ULong): (r: ULong)
    ensures Low16(r) == Add(Low16(a), Low16(b))
  {
    LowOfReduced(a + b);
    LowOfSum(a, b);
    (a + b) % ULONG
  }

  function SubWide(a: ULong, b: ULong): (r: ULong) {
    (a - b) % ULONG
  }

  function XorWide(a: ULong, b: ULong): (r: ULong)
    ensures Low16(r) == WordXor(Low16(a), Low16(b))
  {
    Pow2Values();
    XorBound(a, b, 64);
    XorSplit(a, b, 16);
    Xor(a, b)
  }

  // ----- Multiplication

  /** The low half minus the high half of a product is the product modulo 65537. */
  lemma LowMinusHigh(ab: nat)
    requires 0 < ab < 0x1_0000_0000
    ensures var lo, hi := ab % 0x1_0000, ab / 0x1_0000;
            ab % P == if lo >= hi then lo - hi else lo - hi + P
  {
    var lo, hi := ab % 0x1_0000, ab / 0x1_0000;
    if lo >= hi {
      DivModUnique(ab, P, hi, lo - hi);
    } else {
      DivModUnique(ab, P, hi - 1, lo - hi + P);
    }
  }

  /** A zero operand stands for 65536, that is for minus one. */
  lemma MulByZero(a: Word, b: Word)
    requires a == 0 || b == 0
    ensures Mul(a, b) == (1 - a - b) % 0x1_0000
  {
    var u := if a == 0 then Unit(b) else Unit(a);
    DivModUnique(0x1_0000 * u, P, u - 1, P - u);
    assert Unit(a) * Unit(b) == 0x1_0000 * u;
  }

  /** Subtracting the top bits of a negative difference adds 65537 to its low half. */
  lemma BorrowFolds(lo: Word, hi: Word)
    ensures var d := SubWide(lo, hi);
            Low16(SubWide(d, d / 0x1_0000)) == (if lo >= hi then lo - hi else lo - hi + P) % 0x1_0000
  {
    if lo < hi {
      var d := lo - hi + ULONG;
      DivModUnique(lo - hi, ULONG, -1, d);
      DivModUnique(d, 0x1_0000, 0xffff_ffff_ffff, lo - hi + 0x1_0000);
      assert d - d / 0x1_0000 == 0x1_0000 * 0xfffe_ffff_ffff + (lo - hi + P);
    }
  }

  lemma Products(a: Word, b: Word)
    ensures a * b == 0 ==> a == 0 || b == 0
    ensures a * b != 0 ==> 0 < a * b < 0x1_0000_0000 && Mul(a, b) == a * b % P % 0x1_0000
  {
    MulMono(a, 0xffff, b, 0xffff);
  }

  method IdeaMul(a: Word, b: Word) returns (r: ULong)
    ensures Low16(r) == Mul(a, b)
  {
    Products(a, b);
    var ul := a * b;
    if ul != 0 {
      hide Mul, Low16, SubWide;
      LowMinusHigh(ul);
      BorrowFolds(ul % 0x1_0000, ul / 0x1_0000);
      r := SubWide(ul % 0x1_0000, ul / 0x1_0000);
      r := SubWide(r, r / 0x1_0000);
    } else {
      MulByZero(a, b);
      r := (1 - a - b) % 0x1_0000_0000;
    }
  }

  // ----- The cipher

  /** The four words in the low halves of the registers. */
  function LowState(x1: ULong, x2: ULong, x3: ULong, x4: ULong): State {
    State(Low16(x1), Low16(x2), Low16(x3), Low16(x4))
  }

  /** The words of a block held as two 32-bit halves. */
  function Unpack(hi: ULong, lo: ULong): State {
    State(Low16(hi / 0x1_0000), Low16(hi), Low16(lo / 0x1_0000), Low16(lo))
  }

  /** One expansion of the round macro, reading six subkeys from `p` on: registers whose low halves
      are `r` rounds away from `s` are taken one round further. */
  method EIdea(x1: ULong, x2: ULong, x3: ULong, x4: ULong, key: Schedule, p: nat, ghost s: State, ghost r: nat)
    returns (y1: ULong, y2: ULong, y3: ULong, y4: ULong, p': nat)
    requires r < 8 && p == 6 * r
    requires LowState(x1, x2, x3, x4) == Rounds(s, key, r)
    ensures LowState(y1, y2, y3, y4) == Rounds(s, key, r + 1)
    ensures p' == p + 6
  {
    assert Rounds(s, key, r + 1) == Round(Rounds(s, key, r), key, r);
    hide Mul, WordXor, XorWide, Add, AddWide, Low16, Rounds;
    LowOfWord(key[p + 1]);
    LowOfWord(key[p + 2]);
    p' := p;
    y1 := Low16(x1);
    y1 := IdeaMul(y1, key[p']);
    p' := p' + 1;
    y2 := AddWide(x2, key[p']);
    p' := p' + 1;
    y3 := AddWide(x3, key[p']);
    p' := p' + 1;
    y4 := Low16(x4);
    y4 := IdeaMul(y4, key[p']);
    p' := p' + 1;
    var t0 := Low16(XorWide(y1, y3)) as ULong;
    t0 := IdeaMul(t0, key[p']);
    p' := p' + 1;
    var t1 := Low16(AddWide(t0, XorWide(y2, y4))) as ULong;
    t1 := IdeaMul(t1, key[p']);
    p' := p' + 1;
    t0 := AddWide(t0, t1);
    y1 := XorWide(y1, t1);
    y4 := XorWide(y4, t0);
    var ul := XorWide(y2, t0);
    y2 := XorWide(y3, t1);
    y3 := ul;
  }

  /** The eight macro expansions. */
  method EightRounds(x1: ULong, x2: ULong, x3: ULong, x4: ULong, key: Schedule)
    returns (y1: ULong, y2: ULong, y3: ULong, y4: ULong, p: nat)
    ensures LowState(y1, y2, y3, y4) == Rounds(LowState(x1, x2, x3, x4), key, 8)
    ensures p == 48
  {
    ghost var s := LowState(x1, x2, x3, x4);
    assert Rounds(s, key, 0) == s;
    hide Rounds, LowState;
    p := 0;
    y1, y2, y3, y4, p := EIdea(x1, x2, x3, x4, key, p, s, 0);
    y1, y2, y3, y4, p := EIdea(y1, y2, y3, y4, key, p, s, 1);
    y1, y2, y3, y4, p := EIdea(y1, y2, y3, y4, key, p, s, 2);
    y1, y2, y3, y4, p := EIdea(y1, y2, y3, y4, key, p, s, 3);
    y1, y2, y3, y4, p := EIdea(y1, y2, y3, y4, key, p, s, 4);
    y1, y2, y3, y4, p := EIdea(y1, y2, y3, y4, key, p, s, 5);
    y1, y2, y3, y4, p := EIdea(y1, y2, y3, y4, key, p, s, 6);
    y1, y2, y3, y4, p := EIdea(y1, y2, y3, y4, key, p, s, 7);
  }

  lemma PackHalves(a: Word, b: Word)
    ensures var d := Or(b, a * 0x1_0000);
            d < 0x1_0000_0000 && Low16(d / 0x1_0000) == a && Low16(d) == b
  {
    hide Or;
    Pow2Values();
    hide Pow2;
    OrDisjoint(a, b, 16);
    DivModUnique(a * 0x1_0000 + b, 0x1_0000, a, b);
  }

  /** Two words stored side by side in one half of the block. */
  function Pack(a: ULong, b: ULong): (d: ULong)
    ensures d < 0x1_0000_0000 && Low16(d / 0x1_0000) == Low16(a) && Low16(d) == Low16(b)
  {
    PackHalves(Low16(a), Low16(b));
    Or(Low16(b), Low16(a) * 0x1_0000)
  }

  /** The block in `d` is replaced by its encipherment; whatever the halves held above bit 31 is dropped. */
  method Encrypt(d: array<ULong>, key: Schedule)
    requires d.Length == 2
    modifies d
    ensures Unpack(d[0], d[1]) == Crypt(Unpack(old(d[0]), old(d[1])), key)
    ensures d[0] < 0x1_0000_0000 && d[1] < 0x1_0000_0000
  {
    hide Rounds, Mul, Or, Add, AddWide, Low16, Pack;
    ghost var s, k := Unpack(d[0], d[1]), key;
    LowOfWord(key[49]);
    LowOfWord(key[50]);
    var x2 := d[0];
    var x4 := d[1];
    var x1, x3, p;
    x1, x2, x3, x4, p := EightRounds(x2 / 0x1_0000, x2, x4 / 0x1_0000, x4, key);
    x1 := Low16(x1);
    x1 := IdeaMul(x1, key[p]);
    p := p + 1;
    var t0 := AddWide(x3, key[p]);
    p := p + 1;
    var t1 := AddWide(x2, key[p]);
    p := p + 1;
    x4 := Low16(x4);
    x4 := IdeaMul(x4, key[p]);
    assert State(Low16(x1), Low16(t0), Low16(t1), Low16(x4)) == Crypt(s, k);
    d[0] := Pack(x1, t0);
    d[1] := Pack(t1, x4);
  }
}
