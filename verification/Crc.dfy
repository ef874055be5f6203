/** The two checksums: CRC-32/MPEG-2 with a table filled when it is first needed, and a CRC-8 with a literal
    table. The first is compared with long division of the message's bits by the generator polynomial. */
module Crc {

  // ----- Registers

  /** A 32-bit register; polynomials over one bit, the highest power on top. */
  type Reg = bv32

  const POLY: Reg := 0x04C1_1DB7
  const START: Reg := 0xFFFF_FFFF
  const ZERO: Reg := 0
  const ONE: Reg := 1

  function Xor(a: Reg, b: Reg): Reg {
    a ^ b
  }

  function Shift(a: Reg): Reg {
    a << 1
  }

  predicate Out(a: Reg) {
    a & 0x8000_0000 != 0
  }

  lemma XorComm(a: Reg, b: Reg)
    ensures Xor(a, b) == Xor(b, a)
  {
  }

  lemma XorAssoc(a: Reg, b: Reg, c: Reg)
    ensures Xor(Xor(a, b), c) == Xor(a, Xor(b, c))
  {
  }

  lemma XorNone(a: Reg)
    ensures Xor(a, ZERO) == a && Xor(ZERO, a) == a && Xor(a, a) == ZERO
  {
  }

  lemma ShiftXor(a: Reg, b: Reg)
    ensures Shift(Xor(a, b)) == Xor(Shift(a), Shift(b))
  {
  }

  lemma OutXor(a: Reg, b: Reg)
    ensures Out(Xor(a, b)) == (Out(a) != Out(b))
  {
    assert (Xor(a, b) & 0x8000_0000 != 0) == ((a & 0x8000_0000 != 0) != (b & 0x8000_0000 != 0));
  }

  lemma Swap(a: Reg, b: Reg, c: Reg)
    ensures Xor(Xor(a, b), c) == Xor(Xor(a, c), b)
  {
    hide Xor;
    XorAssoc(a, b, c);
    XorComm(b, c);
    XorAssoc(a, c, b);
  }

  lemma Shuffle(a: Reg, b: Reg, c: Reg, d: Reg)
    ensures Xor(Xor(a, b), Xor(c, d)) == Xor(Xor(a, c), Xor(b, d))
  {
    hide Xor;
    XorAssoc(Xor(a, b), c, d);
    Swap(a, b, c);
    XorAssoc(Xor(a, c), b, d);
  }

  // ----- Long division

  function Subtract(one: bool): Reg {
    if one then POLY else ZERO
  }

  function In(bit: bool): Reg {
    if bit then ONE else ZERO
  }

  /** One step: the next bit of the dividend moves in, and the divisor is subtracted if a one moved out. */
  function Divide(r: Reg, bit: bool): Reg {
    Xor(Xor(Shift(r), Subtract(Out(r))), In(bit))
  }

  function Remainder(r: Reg, bits: seq<bool>): Reg {
    if bits == [] then r else Divide(Remainder(r, bits[..|bits| - 1]), bits[|bits| - 1])
  }

  function Zeros(n: nat): (z: seq<bool>)
    ensures |z| == n
  {
    seq(n, _ => false)
  }

  predicate Lead(b: bv8) {
    b & 0x80 != 0
  }

  function Moved(b: bv8, k: nat): bv8 {
    if k == 0 then b else Moved(b, k - 1) << 1
  }

  /** A byte, most significant bit first. */
  function BitsOf(b: bv8): (s: seq<bool>)
    ensures |s| == 8
  {
    seq(8, k requires 0 <= k < 8 => Lead(Moved(b, k)))
  }

  function AllBits(m: seq<bv8>): (s: seq<bool>)
    ensures |s| == 8 * |m|
  {
    if m == [] then [] else AllBits(m[..|m| - 1]) + BitsOf(m[|m| - 1])
  }

  /** The checksum as a remainder: the message times x^32, plus the starting value times x to the length of the
      message. */
  function Checksum(m: seq<bv8>): Reg {
    Xor(Remainder(ZERO, AllBits(m) + Zeros(32)), Remainder(START, Zeros(8 * |m|)))
  }

  lemma SubtractXor(a: bool, b: bool)
    ensures Subtract(a != b) == Xor(Subtract(a), Subtract(b))
  {
    hide Xor;
    XorNone(POLY);
    XorNone(ZERO);
  }

  lemma DivideXor(a: Reg, b: Reg, bit: bool)
    ensures Divide(Xor(a, b), bit) == Xor(Divide(a, bit), Divide(b, false))
  {
    hide Xor, Shift, Out, Subtract;
    ShiftXor(a, b);
    OutXor(a, b);
    SubtractXor(Out(a), Out(b));
    Shuffle(Shift(a), Shift(b), Subtract(Out(a)), Subtract(Out(b)));
    var x, y := Xor(Shift(a), Subtract(Out(a))), Xor(Shift(b), Subtract(Out(b)));
    XorNone(y);
    Swap(x, y, In(bit));
  }

  lemma {:induction false} RemainderXor(a: Reg, b: Reg, bits: seq<bool>)
    ensures Remainder(Xor(a, b), bits) == Xor(Remainder(a, bits), Remainder(b, Zeros(|bits|)))
  {
    hide Divide, Xor;
    if bits != [] {
      var n := |bits| - 1;
      RemainderXor(a, b, bits[..n]);
      DivideXor(Remainder(a, bits[..n]), Remainder(b, Zeros(n)), bits[n]);
      assert Zeros(n + 1)[..n] == Zeros(n);
    }
  }

  lemma {:induction false} RemainderConcat(r: Reg, a: seq<bool>, b: seq<bool>)
    ensures Remainder(r, a + b) == Remainder(Remainder(r, a), b)
  {
    hide Divide;
    if b == [] {
      assert a + b == a;
    } else {
      var n := |b| - 1;
      assert (a + b)[..|a| + n] == a + b[..n];
      RemainderConcat(r, a, b[..n]);
    }
  }

  // ----- One bit at a time

  /** Division by x^32 that needs no trailing zeros: the bit is compared with the one that moves out. */
  function Step(r: Reg, bit: bool): Reg {
    Xor(Shift(r), Subtract(Out(r) != bit))
  }

  function Steps(r: Reg, bits: seq<bool>): Reg {
    if bits == [] then r else Step(Steps(r, bits[..|bits| - 1]), bits[|bits| - 1])
  }

  lemma StepIsDivide(r: Reg, bit: bool)
    ensures Step(r, bit) == Xor(Divide(r, false), Subtract(bit))
  {
    hide Xor, Shift, Out, Subtract;
    SubtractXor(Out(r), bit);
    XorAssoc(Shift(r), Subtract(Out(r)), Subtract(bit));
    XorNone(Xor(Shift(r), Subtract(Out(r))));
  }

  lemma {:induction false} ZeroStays(n: nat)
    ensures Remainder(ZERO, Zeros(n)) == ZERO
  {
    if n > 0 {
      ZeroStays(n - 1);
      assert Zeros(n)[..n - 1] == Zeros(n - 1);
    }
  }

  lemma ShiftMore(n: nat)
    requires n < 31
    ensures Divide(((1 as bv32) << n), false) == ((1 as bv32) << (n + 1))
  {
    var k := n as bv5;
    assert n < 31;
  }

  lemma {:induction false} ShiftOne(n: nat)
    requires n <= 31
    ensures Remainder(ONE, Zeros(n)) == ((1 as bv32) << n)
  {
    if n > 0 {
      ShiftOne(n - 1);
      assert Zeros(n)[..n - 1] == Zeros(n - 1);
      ShiftMore(n - 1);
    }
  }

  /** x^32 leaves the divisor's lower part. */
  lemma OneThenZeros()
    ensures Remainder(ZERO, [true] + Zeros(32)) == POLY
  {
    RemainderConcat(ZERO, [true], Zeros(32));
    assert [true][..0] == [];
    assert Remainder(ZERO, [true]) == Divide(Remainder(ZERO, []), true) == ONE;
    assert Zeros(32)[..31] == Zeros(31);
    ShiftOne(31);
  }

  /** A bit after the message and before the 32 zeros. */
  lemma TrailingBit(r: Reg, bit: bool)
    ensures Remainder(r, [bit] + Zeros(32)) == Xor(Divide(Remainder(r, Zeros(32)), false), Subtract(bit))
  {
    hide Divide, Out, Xor;
    RemainderXor(ZERO, r, [bit] + Zeros(32));
    XorNone(r);
    var whole := Divide(Remainder(r, Zeros(32)), false);
    assert Zeros(33)[..32] == Zeros(32);
    XorNone(whole);
    if bit {
      OneThenZeros();
      XorComm(POLY, whole);
    } else {
      assert [bit] + Zeros(32) == Zeros(33);
      ZeroStays(33);
    }
  }

  /** Bit by bit from a starting value is the remainder with that value in front. */
  lemma {:induction false} StepsAreDivision(r: Reg, bits: seq<bool>)
    ensures Steps(r, bits) == Xor(Remainder(ZERO, bits + Zeros(32)), Remainder(r, Zeros(|bits|)))
  {
    hide Divide, Step, Subtract, Xor;
    if bits == [] {
      assert bits + Zeros(32) == Zeros(32);
      ZeroStays(32);
      XorNone(r);
    } else {
      var n := |bits| - 1;
      var before, b := bits[..n], bits[n];
      StepsAreDivision(r, before);
      assert bits + Zeros(32) == before + ([b] + Zeros(32));
      RemainderConcat(ZERO, before, [b] + Zeros(32));
      RemainderConcat(ZERO, before, Zeros(32));
      var x, y := Remainder(ZERO, before + Zeros(32)), Remainder(r, Zeros(n));
      TrailingBit(Remainder(ZERO, before), b);
      StepIsDivide(Xor(x, y), b);
      DivideXor(x, y, false);
      assert Zeros(n + 1)[..n] == Zeros(n);
      Swap(Divide(x, false), Divide(y, false), Subtract(b));
    }
  }

  // ----- Eight bits at a time

  /** The table's inner loop, n times. */
  function ZeroN(r: Reg, n: nat): Reg {
    if n == 0 then r else Divide(ZeroN(r, n - 1), false)
  }

  /** A byte in the register's top eight bits. */
  function Top(b: bv8): Reg {
    (b as bv32) << 24
  }

  function High(r: Reg): bv8 {
    (r >> 24) as bv8
  }

  function ShiftByte(r: Reg): Reg {
    r << 8
  }

  function TableStep(r: Reg, b: bv8): Reg {
    Xor(ShiftByte(r), ZeroN(Top(High(r) ^ b), 8))
  }

  function FastFrom(r: Reg, m: seq<bv8>): Reg {
    if m == [] then r else TableStep(FastFrom(r, m[..|m| - 1]), m[|m| - 1])
  }

  function Fast(m: seq<bv8>): Reg {
    FastFrom(START, m)
  }

  lemma {:induction false} ZeroNXor(a: Reg, b: Reg, n: nat)
    ensures ZeroN(Xor(a, b), n) == Xor(ZeroN(a, n), ZeroN(b, n))
  {
    hide Divide, Xor;
    if n > 0 {
      ZeroNXor(a, b, n - 1);
      DivideXor(ZeroN(a, n - 1), ZeroN(b, n - 1), false);
    }
  }

  lemma TopMoves(b: bv8)
    ensures Divide(Top(b), false) == Xor(Top(b << 1), Subtract(Lead(b)))
  {
    hide Subtract, Xor;
    assert Shift(Top(b)) == Top(b << 1);
    assert Out(Top(b)) == Lead(b);
    XorNone(Xor(Top(b << 1), Subtract(Lead(b))));
  }

  /** A byte waiting above the register gives up one bit per step. */
  lemma OneBit(r: Reg, b: bv8)
    ensures Divide(Xor(r, Top(b)), false) == Xor(Step(r, Lead(b)), Top(b << 1))
  {
    hide Divide, Out, Subtract, Step, Top, Lead, Xor;
    DivideXor(r, Top(b), false);
    StepIsDivide(r, Lead(b));
    TopMoves(b);
    XorComm(Top(b << 1), Subtract(Lead(b)));
    XorAssoc(Divide(r, false), Subtract(Lead(b)), Top(b << 1));
  }

  lemma {:induction false} SomeBits(r: Reg, b: bv8, k: nat)
    requires k <= 8
    ensures ZeroN(Xor(r, Top(b)), k) == Xor(Steps(r, BitsOf(b)[..k]), Top(Moved(b, k)))
  {
    hide Divide, Step, Lead, Xor, Top;
    if k > 0 {
      SomeBits(r, b, k - 1);
      assert BitsOf(b)[..k][..k - 1] == BitsOf(b)[..k - 1];
      OneBit(Steps(r, BitsOf(b)[..k - 1]), Moved(b, k - 1));
    }
  }

  lemma AllMoved(b: bv8)
    ensures Moved(b, 8) == 0
  {
    assert Moved(b, 2) == Moved(b, 1) << 1 && Moved(b, 3) == Moved(b, 2) << 1;
    assert Moved(b, 4) == Moved(b, 3) << 1 && Moved(b, 5) == Moved(b, 4) << 1;
    assert Moved(b, 6) == Moved(b, 5) << 1 && Moved(b, 7) == Moved(b, 6) << 1;
  }

  /** Eight steps on a byte are eight on the register with the byte on top. */
  lemma ByteOfSteps(r: Reg, b: bv8)
    ensures Steps(r, BitsOf(b)) == ZeroN(Xor(r, Top(b)), 8)
  {
    hide Step, Xor, ZeroN, BitsOf, Steps, Moved;
    SomeBits(r, b, 8);
    assert BitsOf(b)[..8] == BitsOf(b);
    AllMoved(b);
    assert Top(0) == ZERO;
    XorNone(Steps(r, BitsOf(b)));
  }

  /** The rest of the register only moves up. */
  lemma NoneOut(x: Reg)
    requires !Out(x)
    ensures Divide(x, false) == Shift(x)
  {
    hide Xor;
    XorNone(Shift(x));
  }

  lemma FourShifts(x: Reg)
    requires !Out(x) && !Out(Shift(x)) && !Out(Shift(Shift(x))) && !Out(Shift(Shift(Shift(x))))
    ensures ZeroN(x, 4) == Shift(Shift(Shift(Shift(x))))
  {
    hide Divide, Out, Shift;
    NoneOut(x);
    NoneOut(Shift(x));
    NoneOut(Shift(Shift(x)));
    NoneOut(Shift(Shift(Shift(x))));
    assert ZeroN(x, 1) == Divide(x, false);
    assert ZeroN(x, 2) == Divide(ZeroN(x, 1), false);
    assert ZeroN(x, 3) == Divide(ZeroN(x, 2), false);
  }

  lemma {:induction false} ZeroNTwice(x: Reg, m: nat, n: nat)
    ensures ZeroN(x, m + n) == ZeroN(ZeroN(x, m), n)
  {
    hide Divide;
    if n > 0 {
      ZeroNTwice(x, m, n - 1);
    }
  }

  predicate Room(x: Reg) {
    x & 0xF000_0000 == 0
  }

  function Shift4(x: Reg): Reg {
    Shift(Shift(Shift(Shift(x))))
  }

  lemma RoomFor4(x: Reg)
    requires Room(x)
    ensures !Out(x) && !Out(Shift(x)) && !Out(Shift(Shift(x))) && !Out(Shift(Shift(Shift(x))))
  {
  }

  function Rest(r: Reg): Reg {
    r & 0x00FF_FFFF
  }

  lemma RestHasRoom(r: Reg)
    ensures Room(Rest(r)) && Room(Shift4(Rest(r))) && Shift4(Shift4(Rest(r))) == ShiftByte(r)
  {
  }

  lemma LowMoves(r: Reg)
    ensures ZeroN(Rest(r), 8) == ShiftByte(r)
  {
    hide ZeroN, Out, Shift, Rest, ShiftByte, Room;
    RestHasRoom(r);
    RoomFor4(Rest(r));
    FourShifts(Rest(r));
    RoomFor4(Shift4(Rest(r)));
    FourShifts(Shift4(Rest(r)));
    ZeroNTwice(Rest(r), 4, 4);
  }

  lemma RestAndTop(r: Reg)
    ensures r == Xor(Rest(r), Top(High(r)))
  {
  }

  lemma TopXor(a: bv8, b: bv8)
    ensures Top(a ^ b) == Xor(Top(a), Top(b))
  {
  }

  /** One look into the table does eight steps. */
  lemma TableStepIsSteps(r: Reg, b: bv8)
    ensures TableStep(r, b) == Steps(r, BitsOf(b))
  {
    hide Steps, Xor, ZeroN, BitsOf, Top, High, Rest, ShiftByte;
    ByteOfSteps(r, b);
    RestAndTop(r);
    TopXor(High(r), b);
    XorAssoc(Rest(r), Top(High(r)), Top(b));
    ZeroNXor(Rest(r), Top(High(r) ^ b), 8);
    LowMoves(r);
  }

  lemma {:induction false} StepsConcat(r: Reg, a: seq<bool>, b: seq<bool>)
    ensures Steps(r, a + b) == Steps(Steps(r, a), b)
  {
    hide Step;
    if b == [] {
      assert a + b == a;
    } else {
      var n := |b| - 1;
      assert (a + b)[..|a| + n] == a + b[..n];
      StepsConcat(r, a, b[..n]);
    }
  }

  lemma {:induction false} FastIsSteps(r: Reg, m: seq<bv8>)
    ensures FastFrom(r, m) == Steps(r, AllBits(m))
  {
    hide Step, TableStep, BitsOf;
    if m != [] {
      var n := |m| - 1;
      FastIsSteps(r, m[..n]);
      TableStepIsSteps(FastFrom(r, m[..n]), m[n]);
      StepsConcat(r, AllBits(m[..n]), BitsOf(m[n]));
    }
  }

  /** For every message the table gives the remainder of the long division. */
  lemma FastIsChecksum(m: seq<bv8>)
    ensures Fast(m) == Checksum(m)
  {
    hide Xor, Divide, Step;
    FastIsSteps(START, m);
    StepsAreDivision(START, AllBits(m));
  }

  // ----- What a receiver checks

  function BigEndian(c: Reg): seq<bv8> {
    [(c >> 24) as bv8, ((c >> 16) & 0xFF) as bv8, ((c >> 8) & 0xFF) as bv8, (c & 0xFF) as bv8]
  }

  lemma {:induction false} FastConcat(r: Reg, a: seq<bv8>, b: seq<bv8>)
    ensures FastFrom(r, a + b) == FastFrom(FastFrom(r, a), b)
  {
    hide TableStep;
    if b == [] {
      assert a + b == a;
    } else {
      var n := |b| - 1;
      assert (a + b)[..|a| + n] == a + b[..n];
      FastConcat(r, a, b[..n]);
    }
  }

  /** A register fed its own top byte just moves up. */
  lemma OwnByte(r: Reg, b: bv8)
    requires b == High(r)
    ensures TableStep(r, b) == ShiftByte(r)
  {
    hide Xor, ZeroN;
    assert b ^ b == 0;
    assert Top(0) == ZERO;
    XorNone(ShiftByte(r));
    LowMoves(ZERO);
  }

  lemma TopBytes(c: Reg)
    ensures |BigEndian(c)| == 4 && High(c) == BigEndian(c)[0]
    ensures High(ShiftByte(c)) == BigEndian(c)[1]
    ensures High(ShiftByte(ShiftByte(c))) == BigEndian(c)[2]
    ensures High(ShiftByte(ShiftByte(ShiftByte(c)))) == BigEndian(c)[3]
    ensures ShiftByte(ShiftByte(ShiftByte(ShiftByte(c)))) == ZERO
  {
  }

  lemma OwnBytes(c: Reg)
    ensures FastFrom(c, BigEndian(c)) == ZERO
  {
    hide TableStep, ShiftByte, BigEndian;
    var s := BigEndian(c);
    TopBytes(c);
    var c1 := ShiftByte(c);
    var c2 := ShiftByte(c1);
    var c3 := ShiftByte(c2);
    OwnByte(c, s[0]);
    OwnByte(c1, s[1]);
    OwnByte(c2, s[2]);
    OwnByte(c3, s[3]);
    assert s[..3][..2] == s[..2] && s[..2][..1] == s[..1] && s[..1][..0] == [];
    assert FastFrom(c, s[..1]) == c1;
    assert FastFrom(c, s[..2]) == c2;
    assert FastFrom(c, s[..3]) == c3;
  }

  /** The checksum of a message with its checksum appended is zero. */
  lemma ResidueZero(m: seq<bv8>)
    ensures Fast(m + BigEndian(Fast(m))) == ZERO
  {
    hide TableStep, BigEndian, ShiftByte;
    var c := Fast(m);
    FastConcat(START, m, BigEndian(c));
    OwnBytes(c);
  }

  // ----- Errors it detects

  /** The divisor ends in a one, so a step can be taken back. */
  function Undo(r: Reg): Reg {
    if r & 1 != 0 then ((r ^ POLY) >> 1) | 0x8000_0000 else r >> 1
  }

  lemma UndoOut(a: Reg)
    requires Out(a)
    ensures Undo(Xor(Shift(a), POLY)) == a
  {
  }

  lemma UndoIn(a: Reg)
    requires !Out(a)
    ensures Undo(Shift(a)) == a
  {
  }

  lemma UndoDivide(a: Reg)
    ensures Undo(Divide(a, false)) == a
  {
    hide Xor, Undo, Shift, Out;
    XorNone(Shift(a));
    XorNone(Xor(Shift(a), POLY));
    if Out(a) {
      UndoOut(a);
    } else {
      UndoIn(a);
    }
  }

  lemma {:induction false} ZeroNInjective(a: Reg, b: Reg, n: nat)
    requires ZeroN(a, n) == ZeroN(b, n)
    ensures a == b
  {
    hide Divide, Undo;
    if n > 0 {
      UndoDivide(ZeroN(a, n - 1));
      UndoDivide(ZeroN(b, n - 1));
      ZeroNInjective(a, b, n - 1);
    }
  }

  lemma Cancel(r: Reg, s: Reg, t: Reg)
    requires Xor(r, t) == Xor(s, t)
    ensures r == s
  {
    hide Xor;
    XorAssoc(r, t, t);
    XorAssoc(s, t, t);
    XorNone(t);
    XorNone(r);
    XorNone(s);
  }

  lemma SameByte(r: Reg, s: Reg, b: bv8)
    requires TableStep(r, b) == TableStep(s, b)
    ensures r == s
  {
    hide TableStep, ZeroN, Xor, Top, Steps, BitsOf;
    TableStepIsSteps(r, b);
    TableStepIsSteps(s, b);
    ByteOfSteps(r, b);
    ByteOfSteps(s, b);
    ZeroNInjective(Xor(r, Top(b)), Xor(s, Top(b)), 8);
    Cancel(r, s, Top(b));
  }

  lemma {:induction false} DifferentStays(r: Reg, s: Reg, m: seq<bv8>)
    requires r != s
    ensures FastFrom(r, m) != FastFrom(s, m)
  {
    hide TableStep;
    if m != [] {
      var n := |m| - 1;
      DifferentStays(r, s, m[..n]);
      if FastFrom(r, m) == FastFrom(s, m) {
        SameByte(FastFrom(r, m[..n]), FastFrom(s, m[..n]), m[n]);
      }
    }
  }

  function Down(r: Reg): Reg {
    r >> 8
  }

  /** Up to four bytes, packed from the top of a register down. */
  function Pack(x: seq<bv8>): Reg {
    if x == [] then ZERO else Xor(Top(x[0]), Down(Pack(x[1..])))
  }

  /** What n packed bytes leave free. */
  function Free(n: nat): bv32
    requires n <= 4
  {
    if n == 0 then 0xFFFF_FFFF
    else if n == 1 then 0x00FF_FFFF
    else if n == 2 then 0xFFFF
    else if n == 3 then 0xFF else 0
  }

  predicate Leaves(r: Reg, n: nat)
    requires n <= 4
  {
    r & Free(n) == 0
  }

  lemma PackOne(b: bv8, r: Reg, n: nat)
    requires n < 4 && Leaves(r, n)
    ensures Leaves(Xor(Top(b), Down(r)), n + 1)
  {
    if n == 0 {
      assert r == 0;
    } else {
      assert n == 1 || n == 2 || n == 3;
    }
  }

  lemma ZeroLeaves()
    ensures Leaves(ZERO, 0)
  {
  }

  lemma {:induction false} PackLeaves(x: seq<bv8>)
    requires |x| <= 4
    ensures Leaves(Pack(x), |x|)
  {
    hide Xor, Top, Down, Leaves;
    if x == [] {
      ZeroLeaves();
    } else {
      PackLeaves(x[1..]);
      PackOne(x[0], Pack(x[1..]), |x| - 1);
    }
  }

  /** What leaves its low byte free is moved down without loss, and back up. */
  lemma DownUp(r: Reg, n: nat)
    requires n < 4 && Leaves(r, n)
    ensures Rest(Down(r)) == Down(r) && ShiftByte(Down(r)) == r
  {
    assert n == 0 || n == 1 || n == 2 || n == 3;
    assert r & 0xFF == 0;
  }

  lemma ZeroNOfDown(r: Reg, n: nat)
    requires n < 4 && Leaves(r, n)
    ensures ZeroN(Down(r), 8) == r
  {
    hide ZeroN, Down, Rest, ShiftByte, Leaves;
    DownUp(r, n);
    LowMoves(Down(r));
  }

  lemma OneByte(r: Reg, b: bv8)
    ensures FastFrom(r, [b]) == TableStep(r, b)
  {
    assert [b][..0] == [];
  }

  lemma NoSteps(r: Reg)
    ensures ZeroN(r, 0) == r
  {
  }

  /** Up to four bytes act as if they had been combined with the register at once. */
  lemma {:induction false} FastIsPacked(r: Reg, x: seq<bv8>)
    requires |x| <= 4
    ensures FastFrom(r, x) == ZeroN(Xor(r, Pack(x)), 8 * |x|)
    decreases |x|
  {
    hide Xor, Top, Down, TableStep, Steps, BitsOf, Leaves, ZeroN;
    if x == [] {
      XorNone(r);
      NoSteps(r);
    } else {
      var b, rest, n := x[0], x[1..], |x| - 1;
      var p := Pack(rest);
      assert x == [b] + rest;
      FastConcat(r, [b], rest);
      OneByte(r, b);
      FastIsPacked(TableStep(r, b), rest);
      TableStepIsSteps(r, b);
      ByteOfSteps(r, b);
      PackLeaves(rest);
      ZeroNOfDown(p, n);
      ZeroNXor(Xor(r, Top(b)), Down(p), 8);
      XorAssoc(r, Top(b), Down(p));
      ZeroNTwice(Xor(r, Pack(x)), 8, 8 * n);
    }
  }

  lemma TopOnly(b: bv8, r: Reg)
    ensures High(Xor(Top(b), Down(r))) == b
  {
  }

  lemma TopDrops(b: bv8, s: Reg)
    ensures ShiftByte(Xor(Top(b), s)) == ShiftByte(s)
  {
  }

  lemma TopOfPacked(b: bv8, r: Reg, n: nat)
    requires n < 4 && Leaves(r, n)
    ensures High(Xor(Top(b), Down(r))) == b && ShiftByte(Xor(Top(b), Down(r))) == r
  {
    hide Xor, Top, Down, High, ShiftByte, Rest, Leaves;
    DownUp(r, n);
    TopOnly(b, r);
    TopDrops(b, Down(r));
  }

  lemma {:induction false} PackInjective(x: seq<bv8>, y: seq<bv8>)
    requires |x| == |y| <= 4 && Pack(x) == Pack(y)
    ensures x == y
  {
    hide Xor, Top, Down, High, ShiftByte, Leaves;
    if x != [] {
      PackLeaves(x[1..]);
      PackLeaves(y[1..]);
      TopOfPacked(x[0], Pack(x[1..]), |x| - 1);
      TopOfPacked(y[0], Pack(y[1..]), |x| - 1);
      PackInjective(x[1..], y[1..]);
      assert x == [x[0]] + x[1..] && y == [y[0]] + y[1..];
    }
  }

  /** Every burst error within four bytes is detected, whatever surrounds it. */
  lemma BurstDetected(a: seq<bv8>, x: seq<bv8>, y: seq<bv8>, z: seq<bv8>)
    requires |x| == |y| <= 4 && x != y
    ensures Fast(a + x + z) != Fast(a + y + z)
  {
    hide TableStep, Pack, Xor, ZeroN;
    FastConcat(START, a + x, z);
    FastConcat(START, a + y, z);
    FastConcat(START, a, x);
    FastConcat(START, a, y);
    var r := Fast(a);
    if FastFrom(r, x) == FastFrom(r, y) {
      FastIsPacked(r, x);
      FastIsPacked(r, y);
      ZeroNInjective(Xor(r, Pack(x)), Xor(r, Pack(y)), 8 * |x|);
      XorComm(r, Pack(x));
      XorComm(r, Pack(y));
      Cancel(Pack(x), Pack(y), r);
      PackInjective(x, y);
    } else {
      DifferentStays(FastFrom(r, x), FastFrom(r, y), z);
    }
  }
}
