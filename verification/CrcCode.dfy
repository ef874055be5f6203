/** The two checksums as they are computed: over a table filled on first use, and over a literal table. */
module CrcCode {
  import opened Crc

  lemma ByteIndex(r: Reg, b: bv8)
    ensures (((r >> 24) ^ (b as bv32)) & 0xFF) as bv8 == High(r) ^ b
  {
  }

  lemma BackToByte(x: bv8)
    ensures (x as int) < 256 && (x as int) as bv8 == x
  {
  }

  class Crc32 {
    const tab: array<Reg>
    var tabInit: bool

    ghost predicate Valid()
      reads this, tab
    {
      tab.Length == 256 && (tabInit ==> Filled(tab, 256))
    }

    static ghost predicate Filled(tab: array<Reg>, n: nat)
      requires n <= tab.Length && n <= 256
      reads tab
    {
      forall i: nat :: i < n ==> tab[i] == ZeroN(Top(i as bv8), 8)
    }

    constructor ()
      ensures Valid() && fresh(tab) && !tabInit
    {
      hide Filled;
      tab := new Reg[256](_ => 0);
      tabInit := false;
    }

    method Fill()
      requires Valid()
      modifies this, tab
      ensures Valid() && tabInit
    {
      hide ZeroN, Top;
      var i := 0;
      while i < 256
        invariant i <= 256 && Filled(tab, i)
      {
        var crc := Start(i);
        tab[i] := crc;
        i := i + 1;
      }
      tabInit := true;
    }

    /** The inner loop for one entry. */
    method Start(i: nat) returns (crc: Reg)
      requires i < 256
      ensures crc == ZeroN(Top(i as bv8), 8)
    {
      hide Out, Xor;
      crc := (i as bv32) << 24;
      Widen(i);
      var j := 0;
      while j < 8
        invariant j <= 8 && crc == ZeroN(Top(i as bv8), j)
      {
        ZeroStep(crc);
        crc := if crc & 0x8000_0000 != 0 then (crc << 1) ^ POLY else crc << 1;
        j := j + 1;
      }
    }

    static lemma Widen(i: nat)
      requires i < 256
      ensures (i as bv32) << 24 == Top(i as bv8)
    {
    }

    static lemma ZeroStep(r: Reg)
      ensures Divide(r, false) == if r & 0x8000_0000 != 0 then (r << 1) ^ POLY else r << 1
    {
      XorNone(Shift(r));
      XorNone(Xor(Shift(r), POLY));
    }

    /** For every message, the remainder of its long division. */
    method Compute(data: seq<bv8>) returns (crc: Reg)
      requires Valid()
      modifies this, tab
      ensures Valid() && crc == Checksum(data)
    {
      hide ZeroN, Top, TableStep, Checksum;
      if !tabInit {
        Fill();
      }
      crc := START;
      var n := 0;
      while n < |data|
        invariant n <= |data| && Valid() && tabInit
        invariant crc == FastFrom(START, data[..n])
      {
        assert data[..n + 1][..n] == data[..n];
        crc := Feed(crc, data[n]);
        n := n + 1;
      }
      assert data[..n] == data;
      FastIsChecksum(data);
    }

    method Feed(r: Reg, b: bv8) returns (crc: Reg)
      requires Valid() && tabInit
      ensures crc == TableStep(r, b)
    {
      hide ZeroN, Top, High;
      ByteIndex(r, b);
      var i := (((r >> 24) ^ (b as bv32)) & 0xFF) as bv8;
      BackToByte(i);
      crc := Xor(ShiftByte(r), tab[i as int]);
    }
  }

  // ----- The literal table of the CRC-8

  function Xor8(a: bv8, b: bv8): bv8 {
    a ^ b
  }

  function Shift8(a: bv8): bv8 {
    a << 1
  }

  function Subtract8(one: bool): bv8 {
    if one then 0x07 else 0
  }

  function Step8(r: bv8, bit: bool): bv8 {
    Xor8(Shift8(r), Subtract8(Lead(r) != bit))
  }

  /** Division by x^8 + x^2 + x + 1 of the leading k bits of a byte, one bit after the other. */
  function SlowN(r: bv8, b: bv8, k: nat): bv8 {
    if k == 0 then r else Step8(SlowN(r, b, k - 1), Lead(Moved(b, k - 1)))
  }

  function Slow8(r: bv8, b: bv8): bv8 {
    SlowN(r, b, 8)
  }

  function Zero8(r: bv8): bv8 {
    if r & 0x80 != 0 then (r << 1) ^ 0x07 else r << 1
  }

  function Eight(r: bv8): bv8 {
    Zero8(Zero8(Zero8(Zero8(Zero8(Zero8(Zero8(Zero8(r))))))))
  }

  function Checksum8(m: seq<bv8>): bv8 {
    if m == [] then 0 else Slow8(Checksum8(m[..|m| - 1]), m[|m| - 1])
  }

  function Quarter0(x: bv8): bv8 {
    var c := (x & 0x0F) as int;
    if x & 0x30 == 0x00 then
      [0x00, 0x07, 0x0E, 0x09, 0x1C, 0x1B, 0x12, 0x15, 0x38, 0x3F, 0x36, 0x31, 0x24, 0x23, 0x2A, 0x2D][c]
    else if x & 0x30 == 0x10 then
      [0x70, 0x77, 0x7E, 0x79, 0x6C, 0x6B, 0x62, 0x65, 0x48, 0x4F, 0x46, 0x41, 0x54, 0x53, 0x5A, 0x5D][c]
    else if x & 0x30 == 0x20 then
      [0xE0, 0xE7, 0xEE, 0xE9, 0xFC, 0xFB, 0xF2, 0xF5, 0xD8, 0xDF, 0xD6, 0xD1, 0xC4, 0xC3, 0xCA, 0xCD][c]
    else [0x90, 0x97, 0x9E, 0x99, 0x8C, 0x8B, 0x82, 0x85, 0xA8, 0xAF, 0xA6, 0xA1, 0xB4, 0xB3, 0xBA, 0xBD][c]
  }

  function Quarter1(x: bv8): bv8 {
    var c := (x & 0x0F) as int;
    if x & 0x30 == 0x00 then
      [0xC7, 0xC0, 0xC9, 0xCE, 0xDB, 0xDC, 0xD5, 0xD2, 0xFF, 0xF8, 0xF1, 0xF6, 0xE3, 0xE4, 0xED, 0xEA][c]
    else if x & 0x30 == 0x10 then
      [0xB7, 0xB0, 0xB9, 0xBE, 0xAB, 0xAC, 0xA5, 0xA2, 0x8F, 0x88, 0x81, 0x86, 0x93, 0x94, 0x9D, 0x9A][c]
    else if x & 0x30 == 0x20 then
      [0x27, 0x20, 0x29, 0x2E, 0x3B, 0x3C, 0x35, 0x32, 0x1F, 0x18, 0x11, 0x16, 0x03, 0x04, 0x0D, 0x0A][c]
    else [0x57, 0x50, 0x59, 0x5E, 0x4B, 0x4C, 0x45, 0x42, 0x6F, 0x68, 0x61, 0x66, 0x73, 0x74, 0x7D, 0x7A][c]
  }

  function Quarter2(x: bv8): bv8 {
    var c := (x & 0x0F) as int;
    if x & 0x30 == 0x00 then
      [0x89, 0x8E, 0x87, 0x80, 0x95, 0x92, 0x9B, 0x9C, 0xB1, 0xB6, 0xBF, 0xB8, 0xAD, 0xAA, 0xA3, 0xA4][c]
    else if x & 0x30 == 0x10 then
      [0xF9, 0xFE, 0xF7, 0xF0, 0xE5, 0xE2, 0xEB, 0xEC, 0xC1, 0xC6, 0xCF, 0xC8, 0xDD, 0xDA, 0xD3, 0xD4][c]
    else if x & 0x30 == 0x20 then
      [0x69, 0x6E, 0x67, 0x60, 0x75, 0x72, 0x7B, 0x7C, 0x51, 0x56, 0x5F, 0x58, 0x4D, 0x4A, 0x43, 0x44][c]
    else [0x19, 0x1E, 0x17, 0x10, 0x05, 0x02, 0x0B, 0x0C, 0x21, 0x26, 0x2F, 0x28, 0x3D, 0x3A, 0x33, 0x34][c]
  }

  function Quarter3(x: bv8): bv8 {
    var c := (x & 0x0F) as int;
    if x & 0x30 == 0x00 then
      [0x4E, 0x49, 0x40, 0x47, 0x52, 0x55, 0x5C, 0x5B, 0x76, 0x71, 0x78, 0x7F, 0x6A, 0x6D, 0x64, 0x63][c]
    else if x & 0x30 == 0x10 then
      [0x3E, 0x39, 0x30, 0x37, 0x22, 0x25, 0x2C, 0x2B, 0x06, 0x01, 0x08, 0x0F, 0x1A, 0x1D, 0x14, 0x13][c]
    else if x & 0x30 == 0x20 then
      [0xAE, 0xA9, 0xA0, 0xA7, 0xB2, 0xB5, 0xBC, 0xBB, 0x96, 0x91, 0x98, 0x9F, 0x8A, 0x8D, 0x84, 0x83][c]
    else [0xDE, 0xD9, 0xD0, 0xD7, 0xC2, 0xC5, 0xCC, 0xCB, 0xE6, 0xE1, 0xE8, 0xEF, 0xFA, 0xFD, 0xF4, 0xF3][c]
  }

  function Table8(x: bv8): bv8 {
    if x < 0x40 then Quarter0(x) else if x < 0x80 then Quarter1(x) else if x < 0xC0 then Quarter2(x) else Quarter3(x)
  }

  lemma Quarter0Is(x: bv8)
    requires x < 0x40
    ensures Quarter0(x) == Eight(x)
  {
  }

  lemma Quarter1Is(x: bv8)
    requires 0x40 <= x < 0x80
    ensures Quarter1(x) == Eight(x)
  {
  }

  lemma Quarter2Is(x: bv8)
    requires 0x80 <= x < 0xC0
    ensures Quarter2(x) == Eight(x)
  {
  }

  lemma Quarter3Is(x: bv8)
    requires 0xC0 <= x
    ensures Quarter3(x) == Eight(x)
  {
  }

  lemma Swap8(a: bv8, b: bv8, c: bv8)
    ensures Xor8(Xor8(a, b), c) == Xor8(Xor8(a, c), b)
  {
  }

  lemma ShiftXor8(a: bv8, b: bv8)
    ensures Shift8(Xor8(a, b)) == Xor8(Shift8(a), Shift8(b))
  {
  }

  lemma LeadXor8(a: bv8, b: bv8)
    ensures Lead(Xor8(a, b)) == (Lead(a) != Lead(b))
  {
  }

  lemma OneStep8(r: bv8, b: bv8)
    ensures Step8(Xor8(r, b), false) == Xor8(Step8(r, Lead(b)), Shift8(b))
  {
    hide Xor8, Shift8, Lead, Subtract8;
    ShiftXor8(r, b);
    LeadXor8(r, b);
    Swap8(Shift8(r), Shift8(b), Subtract8(Lead(r) != Lead(b)));
  }

  lemma {:induction false} ZeroMoved(k: nat)
    ensures Moved(0, k) == 0 && !Lead(Moved(0, k))
  {
    if k > 0 {
      ZeroMoved(k - 1);
    }
  }

  lemma ShiftIsMove(b: bv8, k: nat)
    ensures Shift8(Moved(b, k)) == Moved(b, k + 1)
  {
  }

  /** A byte combined with the register beforehand, or fed in bit by bit. */
  lemma {:induction false} CombineN(r: bv8, b: bv8, k: nat)
    ensures SlowN(Xor8(r, b), 0, k) == Xor8(SlowN(r, b, k), Moved(b, k))
  {
    hide Xor8, Shift8, Lead, Step8;
    if k > 0 {
      CombineN(r, b, k - 1);
      ZeroMoved(k - 1);
      OneStep8(SlowN(r, b, k - 1), Moved(b, k - 1));
      assert Shift8(Moved(b, k - 1)) == Moved(b, k) by {
        ShiftIsMove(b, k - 1);
      }
    }
  }

  lemma ZeroIs8(r: bv8)
    ensures Step8(r, false) == Zero8(r)
  {
  }

  lemma EightIs(x: bv8)
    ensures SlowN(x, 0, 8) == Eight(x)
  {
    hide Step8, Lead, Moved, Zero8;
    forall k: nat | k < 8
      ensures !Lead(Moved(0, k))
    {
      ZeroMoved(k);
    }
    forall k: nat | k < 8
      ensures SlowN(x, 0, k + 1) == Zero8(SlowN(x, 0, k))
    {
      ZeroIs8(SlowN(x, 0, k));
    }
    assert SlowN(x, 0, 1) == Zero8(SlowN(x, 0, 0));
    assert SlowN(x, 0, 1 + 1) == Zero8(SlowN(x, 0, 1));
    assert SlowN(x, 0, 2 + 1) == Zero8(SlowN(x, 0, 2));
    assert SlowN(x, 0, 3 + 1) == Zero8(SlowN(x, 0, 3));
    assert SlowN(x, 0, 4 + 1) == Zero8(SlowN(x, 0, 4));
    assert SlowN(x, 0, 5 + 1) == Zero8(SlowN(x, 0, 5));
    assert SlowN(x, 0, 6 + 1) == Zero8(SlowN(x, 0, 6));
    assert SlowN(x, 0, 7 + 1) == Zero8(SlowN(x, 0, 7));
  }

  lemma XorNone8(x: bv8)
    ensures Xor8(x, 0) == x
  {
  }

  lemma XorComm8(x: bv8, y: bv8)
    ensures Xor8(x, y) == Xor8(y, x)
  {
  }

  lemma Combine8(r: bv8, b: bv8)
    ensures Eight(Xor8(b, r)) == Slow8(r, b)
  {
    hide Xor8, Step8, Moved, SlowN, Eight;
    EightIs(Xor8(r, b));
    CombineN(r, b, 8);
    AllMoved(b);
    XorNone8(SlowN(r, b, 8));
    XorComm8(b, r);
  }

  /** One look into the literal table is eight steps of division. */
  lemma TableIsDivision(r: bv8, b: bv8)
    ensures Table8(Xor8(b, r)) == Slow8(r, b)
  {
    hide Slow8, Quarter0, Quarter1, Quarter2, Quarter3, Xor8, Eight;
    Combine8(r, b);
    var x := Xor8(b, r);
    if x < 0x40 {
      Quarter0Is(x);
    } else if x < 0x80 {
      Quarter1Is(x);
    } else if x < 0xC0 {
      Quarter2Is(x);
    } else {
      Quarter3Is(x);
    }
  }

  method Crc8(data: seq<bv8>) returns (crc: bv8)
    ensures crc == Checksum8(data)
  {
    hide Slow8, Table8;
    crc := 0;
    var i := 0;
    while i < |data|
      invariant i <= |data| && crc == Checksum8(data[..i])
    {
      assert data[..i + 1][..i] == data[..i];
      TableIsDivision(crc, data[i]);
      crc := Table8(data[i] ^ crc);
      i := i + 1;
    }
    assert data[..i] == data;
  }

  lemma XorSame8(x: bv8)
    ensures Xor8(x, x) == 0
  {
  }

  lemma TableZero()
    ensures Table8(0) == 0
  {
  }

  /** A message with its checksum appended has checksum zero. */
  lemma Residue8(m: seq<bv8>)
    ensures Checksum8(m + [Checksum8(m)]) == 0
  {
    hide Slow8, Table8, Xor8;
    var c := Checksum8(m);
    assert (m + [c])[..|m|] == m;
    TableIsDivision(c, c);
    XorSame8(c);
    assert Table8(0) == 0 by {
      TableZero();
    }
  }
}
