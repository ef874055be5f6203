/** Eurocrypt DES as the program runs it: key halves turned in place, a 16-bit word whose bits say how
    far, and the block permuted, masked and exchanged inside the caller's buffer. */
module NcDesCode {
  import opened Bits
  import opened Feistel
  import opened NcDesBits
  import opened NcDes

  /** The bit that falls out of a key half fits above its other bits. */
  lemma Carry(h: Half)
    requires Clean(h)
    ensures Or(h[3] / 2, if h[0] % 2 == 1 then 0x08 else 0) == h[3] / 2 + 8 * (h[0] % 2)
  {
    assert Pow2(3) == 8;
    OrDisjoint(h[0] % 2, h[3] / 2, 3);
  }

  /** A key half whose first `p` bytes have been shifted. */
  function Shifted(h: Half, p: nat): Half
    requires p <= 3
  {
    seq(4, n requires 0 <= n < 4 => if n < p then Halve(h[n], h[n + 1]) else h[n])
  }

  lemma ShiftedFirst(h: Half)
    ensures Shifted(h, 0) == h
  {
  }

  lemma ShiftedNext(h: Half, p: nat)
    requires p < 3
    ensures Shifted(h, p)[p] == h[p] && Shifted(h, p)[p + 1] == h[p + 1]
    ensures Shifted(h, p + 1) == Shifted(h, p)[p := Halve(h[p], h[p + 1])]
  {
    hide Halve;
  }

  lemma ShiftedLast(h: Half)
    requires Clean(h)
    ensures Shifted(h, 3)[3] == h[3]
    ensures RightRot(h) == Shifted(h, 3)[3 := h[3] / 2 + 8 * (h[0] % 2)]
  {
    hide Halve;
  }

  method ShiftNext(key: array<Byte>, p: nat, ghost h: Half)
    requires key.Length == 4 && p < 3 && key[..] == Shifted(h, p)
    modifies key
    ensures key[..] == Shifted(h, p + 1)
  {
    hide Shifted, Halve;
    ShiftedNext(h, p);
    assert key[p] == key[..][p] && key[p + 1] == key[..][p + 1];
    key[p] := Halve(key[p], key[p + 1]);
  }

  method ShiftLast(key: array<Byte>, p: nat, carry: Byte, ghost h: Half)
    requires key.Length == 4 && p == 3 && Clean(h) && key[..] == Shifted(h, 3)
    requires carry == if h[0] % 2 == 1 then 0x08 else 0
    modifies key
    ensures key[..] == RightRot(h)
  {
    hide Shifted, RightRot, Or;
    ShiftedLast(h);
    Carry(h);
    assert key[p] == key[..][p];
    key[p] := Or(key[p] / 2, carry);
  }

  method RightRotInPlace(key: array<Byte>)
    requires key.Length == 4 && Clean(key[..])
    modifies key
    ensures key[..] == RightRot(old(key[..]))
  {
    hide Shifted, RightRot;
    ghost var h: Half := key[..];
    ShiftedFirst(h);
    var carry: Byte := if key[0] % 2 == 1 then 0x08 else 0;
    var p, i := 0, 3;
    while i > 0
      invariant 0 <= i <= 3 && p == 3 - i
      invariant key[..] == Shifted(h, p)
    {
      ShiftNext(key, p, h);
      p := p + 1;
      i := i - 1;
    }
    ShiftLast(key, p, carry, h);
  }

  method LeftRotInPlace(key: array<Byte>)
    requires key.Length == 4 && Clean(key[..])
    modifies key
    ensures key[..] == LeftRot(old(key[..]))
  {
    hide RightRot;
    ghost var h: Half := key[..];
    var i := 27;
    while i > 0
      invariant 0 <= i <= 27
      invariant Clean(key[..]) && key[..] == RightRotBy(h, 27 - i)
    {
      RightRotInPlace(key);
      i := i - 1;
    }
  }

  /** The key halves in two buffers. */
  ghost predicate Holds(left: array<Byte>, right: array<Byte>, k: KeyHalves)
    reads left, right
  {
    left.Length == 4 && right.Length == 4 && left != right && left[..] == k.left && right[..] == k.right
  }

  method LeftRotKeys(left: array<Byte>, right: array<Byte>, ghost k: KeyHalves)
    requires CleanKey(k) && Holds(left, right, k)
    modifies left, right
    ensures Holds(left, right, TurnLeft(k))
  {
    LeftRotInPlace(left);
    LeftRotInPlace(right);
  }

  method RightRotKeys(left: array<Byte>, right: array<Byte>, ghost k: KeyHalves)
    requires CleanKey(k) && Holds(left, right, k)
    modifies left, right
    ensures Holds(left, right, TurnRight(k))
  {
    RightRotInPlace(left);
    RightRotInPlace(right);
  }

  function BlockIn(data: array<Byte>, at: nat): Block<Half>
    requires at + 8 <= data.Length
    reads data
  {
    Block(data[at..at + 4], data[at + 4..at + 8])
  }

  /** The first four bytes trade places with the next four. */
  method SwapHalves(data: array<Byte>, at: nat)
    requires at + 8 <= data.Length
    modifies data
    ensures BlockIn(data, at) == Swap(old(BlockIn(data, at)))
    ensures forall n | 0 <= n < at || at + 8 <= n < data.Length :: data[n] == old(data[n])
  {
    ghost var l, r := data[at..at + 4], data[at + 4..at + 8];
    var x0, x1, x2, x3 := data[at + 4], data[at + 5], data[at + 6], data[at + 7];
    assert r == [x0, x1, x2, x3];
    data[at + 4] := data[at];
    data[at + 5] := data[at + 1];
    data[at + 6] := data[at + 2];
    data[at + 7] := data[at + 3];
    data[at] := x0;
    data[at + 1] := x1;
    data[at + 2] := x2;
    data[at + 3] := x3;
    assert data[at..at + 4] == [x0, x1, x2, x3];
    assert data[at + 4..at + 8] == l;
  }

  method MaskLeft(data: array<Byte>, at: nat, r: Half)
    requires at + 8 <= data.Length
    modifies data
    ensures BlockIn(data, at) == Block(HalfXor(old(BlockIn(data, at).l), r), old(BlockIn(data, at).r))
    ensures forall n | 0 <= n < at || at + 8 <= n < data.Length :: data[n] == old(data[n])
  {
    hide ByteXor;
    var i := 0;
    while i < 4
      invariant 0 <= i <= 4
      invariant forall n | at <= n < at + i :: data[n] == ByteXor(old(data[n]), r[n - at])
      invariant forall n | 0 <= n < at || at + i <= n < data.Length :: data[n] == old(data[n])
    {
      data[at + i] := ByteXor(data[at + i], r[i]);
      i := i + 1;
    }
    assert data[at..at + 4] == HalfXor(old(data[at..at + 4]), r);
    assert data[at + 4..at + 8] == old(data[at + 4..at + 8]);
  }

  method DesRound(left: array<Byte>, right: array<Byte>, data: array<Byte>, at: nat, hash: bool, k8: Byte,
                  f: RoundFunction, ghost k: KeyHalves)
    requires Holds(left, right, k) && at + 8 <= data.Length
    modifies data
    ensures BlockIn(data, at) == Round(Net(f, k8, hash), k, old(BlockIn(data, at)))
    ensures forall n | 0 <= n < at || at + 8 <= n < data.Length :: data[n] == old(data[n])
  {
    hide HalfXor;
    var r := f(KeyHalves(left[..], right[..]), k8, hash, data[at + 4..at + 8]);
    MaskLeft(data, at, r);
    SwapHalves(data, at);
  }

  // ----- How far to turn

  function ShiftWord(toRight: bool): Word {
    if toRight then 0x8103 else 0xc081
  }

  function ShiftLeft(w: Word): Word {
    (w as int) * 2 % 0x1_0000
  }

  /** The word after `i` shifts to the left. */
  function ShiftAt(toRight: bool, i: nat): Word {
    if i == 0 then ShiftWord(toRight) else ShiftLeft(ShiftAt(toRight, i - 1))
  }

  /** The rounds next to which the key turns only once. */
  predicate Single(toRight: bool, i: nat) {
    i == 0 || i == 15 || (if toRight then i == 7 || i == 14 else i == 1 || i == 8)
  }

  lemma Sixteen(i: nat)
    requires i <= 16
    ensures || i == 0 || i == 1 || i == 2 || i == 3 || i == 4 || i == 5 || i == 6 || i == 7 || i == 8
            || i == 9 || i == 10 || i == 11 || i == 12 || i == 13 || i == 14 || i == 15 || i == 16
  {
  }

  /** The top bit marks those rounds, and the word is used up after sixteen. */
  lemma ShiftBits(toRight: bool, i: nat)
    requires i <= 16
    ensures ShiftAt(toRight, i) == 0 <==> i == 16
    ensures i < 16 ==> (ShiftAt(toRight, i) >= 0x8000 <==> Single(toRight, i))
  {
    var w := ShiftWord(toRight);
    assert ShiftAt(toRight, 0) == w;
    assert ShiftAt(toRight, 1) == if toRight then 0x0206 else 0x8102;
    assert ShiftAt(toRight, 2) == if toRight then 0x040c else 0x0204;
    assert ShiftAt(toRight, 3) == if toRight then 0x0818 else 0x0408;
    assert ShiftAt(toRight, 4) == if toRight then 0x1030 else 0x0810;
    assert ShiftAt(toRight, 5) == if toRight then 0x2060 else 0x1020;
    assert ShiftAt(toRight, 6) == if toRight then 0x40c0 else 0x2040;
    assert ShiftAt(toRight, 7) == if toRight then 0x8180 else 0x4080;
    assert ShiftAt(toRight, 8) == if toRight then 0x0300 else 0x8100;
    assert ShiftAt(toRight, 9) == if toRight then 0x0600 else 0x0200;
    assert ShiftAt(toRight, 10) == if toRight then 0x0c00 else 0x0400;
    assert ShiftAt(toRight, 11) == if toRight then 0x1800 else 0x0800;
    assert ShiftAt(toRight, 12) == if toRight then 0x3000 else 0x1000;
    assert ShiftAt(toRight, 13) == if toRight then 0x6000 else 0x2000;
    assert ShiftAt(toRight, 14) == if toRight then 0xc000 else 0x4000;
    assert ShiftAt(toRight, 15) == 0x8000;
    assert ShiftAt(toRight, 16) == 0;
    hide ShiftAt;
    Sixteen(i);
  }

  // ----- The cipher

  /** How far left the key halves stand before round `i`: to the left they turn before they are used,
      to the right afterwards, from a full turn down. */
  function Position(toRight: bool, i: nat): nat
    requires i <= 16
  {
    if toRight then (if i == 16 then 0 else Turned(15 - i)) else (if i == 0 then 0 else Turned(i - 1))
  }

  lemma PositionStep(toRight: bool, i: nat)
    requires i < 16
    ensures var step := if Single(toRight, i) then 1 else 2;
            Position(toRight, i + 1) == if toRight then Position(toRight, i) - step else Position(toRight, i) + step
  {
  }

  lemma TurnedFull()
    ensures Turned(15) == 28
  {
    assert Turned(3) == 6;
    assert Turned(6) == 12;
    assert Turned(9) == 17;
    assert Turned(12) == 23;
  }

  /** The key halves before the first round are those of either position. */
  lemma StartPosition(k: KeyHalves, toRight: bool)
    requires CleanKey(k)
    ensures LeftBy(k, Position(toRight, 0)) == k
  {
    hide TurnLeft, Turned;
    TurnedFull();
    FullLeft(k);
    assert LeftBy(k, 0) == k;
  }

  /** The subkey of round `i`. */
  lemma OrderAt(k: KeyHalves, toRight: bool, i: nat)
    requires CleanKey(k) && i < 16
    ensures Order(k, toRight)[i] == LeftBy(k, Turned(if toRight then 15 - i else i))
  {
    hide LeftBy, Turned;
    if toRight {
      ReverseAt(LeftKeys(k), i);
    }
  }

  method Turn(left: array<Byte>, right: array<Byte>, toRight: bool, shift: Word, ghost k: KeyHalves, ghost i: nat)
    requires i < 16 && shift == ShiftAt(toRight, i)
    requires CleanKey(k) && Holds(left, right, LeftBy(k, Position(toRight, i)))
    modifies left, right
    ensures Holds(left, right, LeftBy(k, Position(toRight, i + 1)))
  {
    hide TurnLeft, TurnRight, Turned, ShiftAt;
    ShiftBits(toRight, i);
    PositionStep(toRight, i);
    ghost var p := Position(toRight, i);
    if toRight {
      TurnsUndo(LeftBy(k, p - 1));
      RightRotKeys(left, right, LeftBy(k, p));
      if shift < 0x8000 {
        TurnsUndo(LeftBy(k, p - 2));
        RightRotKeys(left, right, LeftBy(k, p - 1));
      }
    } else {
      LeftRotKeys(left, right, LeftBy(k, p));
      if shift < 0x8000 {
        LeftRotKeys(left, right, LeftBy(k, p + 1));
      }
    }
  }

  /** The key halves a round sees are its subkey. */
  lemma Used(k: KeyHalves, toRight: bool, i: nat)
    requires CleanKey(k) && i < 16
    ensures Order(k, toRight)[i] == LeftBy(k, Position(toRight, if toRight then i else i + 1))
  {
    hide LeftBy, Turned, Order;
    OrderAt(k, toRight, i);
  }

  lemma ShiftStart(toRight: bool)
    ensures ShiftAt(toRight, 0) == ShiftWord(toRight)
  {
  }

  lemma NextShift(toRight: bool, i: nat)
    ensures ShiftAt(toRight, i + 1) == ShiftLeft(ShiftAt(toRight, i))
  {
  }

  lemma NothingRun(n: Network<Half, KeyHalves>, ks: seq<KeyHalves>, b: Block<Half>)
    ensures Rounds(n, ks[..0], b) == b
  {
  }

  lemma OneRound(n: Network<Half, KeyHalves>, ks: seq<KeyHalves>, i: nat, b: Block<Half>)
    requires i < |ks|
    ensures Rounds(n, ks[..i + 1], b) == Round(n, ks[i], Rounds(n, ks[..i], b))
  {
    assert ks[..i + 1] == ks[..i] + [ks[i]];
    RoundsSnoc(n, ks[..i], ks[i], b);
  }

  method FillKeys(key: Byte8, left: array<Byte>, right: array<Byte>)
    requires left.Length == 4 && right.Length == 4 && left != right
    modifies left, right
    ensures Holds(left, right, SplitKey(key))
  {
    hide Straddle;
    var p, i := 0, 3;
    while i > 0
      invariant 0 <= i <= 3 && p == 3 - i
      invariant forall n | 0 <= n < p :: left[n] == Straddle(key[2 - n], key[3 - n])
    {
      left[p] := Straddle(key[i - 1], key[i]);
      p := p + 1;
      i := i - 1;
    }
    left[3] := HighNibble(key[0]);
    right[0] := key[6];
    right[1] := key[5];
    right[2] := key[4];
    right[3] := key[3] % 0x10;
  }

  /** Sixteen rounds on the block in the buffer and the exchange after the last one. */
  method SixteenRounds(key: Byte8, mode: Mode, data: array<Byte>, at: nat, f: RoundFunction)
    requires at + 8 <= data.Length
    modifies data
    ensures data[at..at + 8] == Core(f, key, mode.toRight, mode.hash, old(data[at..at + 8]))
    ensures forall n | 0 <= n < at || at + 8 <= n < data.Length :: data[n] == old(data[n])
  {
    hide SplitKey, Rounds, Round, Net, Order, LeftBy, Position, ShiftAt, Turned, ShiftLeft;
    ghost var k, n := SplitKey(key), Net(f, key[7], mode.hash);
    ghost var ks, b := Order(SplitKey(key), mode.toRight), BlockIn(data, at);
    assert data[at..at + 8][..4] == data[at..at + 4] && data[at..at + 8][4..] == data[at + 4..at + 8];
    assert b == ToBlock(data[at..at + 8]);
    var left, right := new Byte[4](_ => 0), new Byte[4](_ => 0);
    FillKeys(key, left, right);
    StartPosition(k, mode.toRight);
    var shift := ShiftWord(mode.toRight);
    ghost var i := 0;
    ShiftStart(mode.toRight);
    NothingRun(n, ks, b);
    while shift != 0
      invariant i <= 16 && shift == ShiftAt(mode.toRight, i)
      invariant fresh(left) && fresh(right)
      invariant Holds(left, right, LeftBy(k, Position(mode.toRight, i)))
      invariant BlockIn(data, at) == Rounds(n, ks[..i], b)
      invariant forall m | 0 <= m < at || at + 8 <= m < data.Length :: data[m] == old(data[m])
      decreases 16 - i
    {
      ShiftBits(mode.toRight, i);
      Used(k, mode.toRight, i);
      if !mode.toRight {
        Turn(left, right, false, shift, k, i);
      }
      DesRound(left, right, data, at, mode.hash, key[7], f, ks[i]);
      OneRound(n, ks, i, b);
      if mode.toRight {
        Turn(left, right, true, shift, k, i);
      }
      shift := ShiftLeft(shift);
      NextShift(mode.toRight, i);
      i := i + 1;
    }
    ShiftBits(mode.toRight, i);
    assert ks[..16] == ks;
    SwapHalves(data, at);
    assert data[at..at + 8] == data[at..at + 4] + data[at + 4..at + 8];
  }

  method CryptBlock(key: Byte8, mode: Mode, data: array<Byte>, at: nat, f: RoundFunction)
    requires at + 8 <= data.Length
    modifies data
    ensures data[at..at + 8] == Crypt(f, key, mode, old(data[at..at + 8]))
    ensures forall n | 0 <= n < at || at + 8 <= n < data.Length :: data[n] == old(data[n])
  {
    hide Initial, Final, Core;
    if mode.ip {
      DoIp(data, at);
    }
    SixteenRounds(key, mode, data, at, f);
    if mode.ip1 {
      DoIp1(data, at);
    }
  }
}
