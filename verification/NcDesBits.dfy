/** The bit permutations around Eurocrypt DES: bytes rebuilt bit by bit through a shift register. */
module NcDesBits {
  import opened Bits
  import opened Common

  type Bit = x: int | 0 <= x < 2

  type Byte8 = s: seq<Byte> | |s| == 8 witness [0, 0, 0, 0, 0, 0, 0, 0]

  type Bit8 = s: seq<Bit> | |s| == 8 witness [0, 0, 0, 0, 0, 0, 0, 0]

  /** `x >> n` */
  function Halved(x: nat, n: nat): nat {
    if n == 0 then x else Halved(x / 2, n - 1)
  }

  /** Bit `n` of `x`, counted from the lowest. */
  function BitAt(x: nat, n: nat): Bit {
    Halved(x, n) % 2
  }

  function BitsOf(x: Byte): Bit8 {
    seq(8, n requires 0 <= n < 8 => BitAt(x, n))
  }

  /** The number with these bits, lowest first. */
  function Horner(b: seq<Bit>): nat {
    if b == [] then 0 else b[0] as int + 2 * Horner(b[1..])
  }

  lemma {:induction false} HornerBound(b: seq<Bit>)
    ensures Horner(b) < Pow2(|b|)
  {
    if b != [] {
      HornerBound(b[1..]);
    }
  }

  function ByteOf(b: Bit8): Byte {
    HornerBound(b);
    Pow2Values();
    Horner(b)
  }

  lemma {:induction false} BitOfHorner(b: seq<Bit>, n: nat)
    requires n < |b|
    ensures BitAt(Horner(b), n) == b[n]
    decreases n
  {
    if n > 0 {
      BitOfHorner(b[1..], n - 1);
    }
  }

  lemma {:induction false} HornerOfBits(x: nat, k: nat, b: seq<Bit>)
    requires x < Pow2(k) && |b| == k && forall n | 0 <= n < k :: b[n] == BitAt(x, n)
    ensures Horner(b) == x
    decreases k
  {
    if k > 0 {
      forall n | 0 <= n < k - 1
        ensures b[1..][n] == BitAt(x / 2, n)
      {
        assert b[n + 1] == BitAt(x, n + 1);
      }
      HornerOfBits(x / 2, k - 1, b[1..]);
      assert b[0] == BitAt(x, 0);
    }
  }

  lemma ByteOfBits(x: Byte)
    ensures ByteOf(BitsOf(x)) == x
  {
    hide BitAt;
    Pow2Values();
    HornerOfBits(x, 8, BitsOf(x));
  }

  lemma BitOfByte(b: Bit8, n: nat)
    requires n < 8
    ensures BitAt(ByteOf(b), n) == b[n]
  {
    BitOfHorner(b, n);
  }

  lemma HornerDrop(b: Bit8, n: nat)
    requires n < 8
    ensures Horner(b[n..]) == b[n] as int + 2 * Horner(b[n + 1..])
  {
    assert b[n..][1..] == b[n + 1..];
  }

  // ----- The permutation

  /** The byte that collects bit `t` of every byte. */
  function Collector(t: nat): nat
    requires t < 8
  {
    3 - t / 2 + 4 * (t % 2)
  }

  /** The bit that byte `b` collects. */
  function Collected(b: nat): nat
    requires b < 8
  {
    if b < 4 then 6 - 2 * b else 15 - 2 * b
  }

  lemma CollectorCollected(n: nat)
    requires n < 8
    ensures Collected(n) < 8 && Collector(n) < 8
    ensures Collector(Collected(n)) == n && Collected(Collector(n)) == n
  {
    if n < 4 {
      assert n == 0 || n == 1 || n == 2 || n == 3;
    } else {
      assert n == 4 || n == 5 || n == 6 || n == 7;
    }
  }

  /** Bit `t` of every byte. */
  function Column(s: Byte8, t: nat): Bit8
    requires t < 8
  {
    seq(8, i requires 0 <= i < 8 => BitAt(s[i], t))
  }

  /** What `nc_doIp` computes: bit `i` of byte `b` is bit `Collected(b)` of byte `i`. */
  function Initial(s: Byte8): Byte8 {
    seq(8, b requires 0 <= b < 8 => ByteOf(Column(s, Collected(b))))
  }

  function Row(s: Byte8, i: nat): Bit8
    requires i < 8
  {
    seq(8, t requires 0 <= t < 8 => BitAt(s[Collector(t)], i))
  }

  /** What `nc_doIp_1` computes: bit `t` of byte `i` is bit `i` of byte `Collector(t)`. */
  function Final(s: Byte8): Byte8 {
    seq(8, i requires 0 <= i < 8 => ByteOf(Row(s, i)))
  }

  lemma FinalInitial(s: Byte8)
    ensures Final(Initial(s)) == s
  {
    hide BitAt, ByteOf, Collected, Collector;
    var u := Initial(s);
    forall i | 0 <= i < 8
      ensures Final(u)[i] == s[i]
    {
      forall t | 0 <= t < 8
        ensures Row(u, i)[t] == BitsOf(s[i])[t]
      {
        CollectorCollected(t);
        BitOfByte(Column(s, t), i);
      }
      assert Row(u, i) == BitsOf(s[i]);
      ByteOfBits(s[i]);
    }
  }

  lemma InitialFinal(s: Byte8)
    ensures Initial(Final(s)) == s
  {
    hide BitAt, ByteOf, Collected, Collector;
    var u := Final(s);
    forall b | 0 <= b < 8
      ensures Initial(u)[b] == s[b]
    {
      CollectorCollected(b);
      var t := Collected(b);
      forall i | 0 <= i < 8
        ensures Column(u, t)[i] == BitsOf(s[b])[i]
      {
        BitOfByte(Row(s, i), t);
      }
      assert Column(u, t) == BitsOf(s[b]);
      ByteOfBits(s[b]);
    }
  }

  // ----- In place

  /** `x >>= 1; if (bit) x |= 0x80` */
  function ShiftIn(x: Byte, bit: Bit): (r: Byte)
    ensures r == x / 2 + 128 * (bit as int)
  {
    Pow2Values();
    assert Pow2(7) == 128;
    OrDisjoint(bit, x / 2, 7);
    Or(x / 2, 128 * (bit as int))
  }

  /** A shift register that started as `r` after it took in the first `n` of `b`. */
  function Register(r: Byte, b: Bit8, n: nat): Byte
    requires n <= 8
  {
    if n == 0 then r else ShiftIn(Register(r, b, n - 1), b[n - 1])
  }

  /** After eight bits nothing of the register's old content is left. */
  lemma RegisterFull(r: Byte, b: Bit8)
    ensures Register(r, b, 8) == ByteOf(b)
  {
    hide ShiftIn;
    var b0: int, b1: int, b2: int, b3: int := b[0], b[1], b[2], b[3];
    var b4: int, b5: int, b6: int := b[4], b[5], b[6];
    assert Register(r, b, 1) == r / 2 + 128 * b0;
    assert Register(r, b, 2) == r / 4 + 64 * b0 + 128 * b1;
    assert Register(r, b, 3) == r / 8 + 32 * b0 + 64 * b1 + 128 * b2;
    assert Register(r, b, 4) == r / 16 + 16 * b0 + 32 * b1 + 64 * b2 + 128 * b3;
    assert Register(r, b, 5) == r / 32 + 8 * b0 + 16 * b1 + 32 * b2 + 64 * b3 + 128 * b4;
    assert Register(r, b, 6) == r / 64 + 4 * b0 + 8 * b1 + 16 * b2 + 32 * b3 + 64 * b4 + 128 * b5;
    assert Register(r, b, 7) == r / 128 + 2 * b0 + 4 * b1 + 8 * b2 + 16 * b3 + 32 * b4 + 64 * b5 + 128 * b6;
    assert b[0..] == b && b[8..] == [];
    HornerDrop(b, 0);
    HornerDrop(b, 1);
    HornerDrop(b, 2);
    HornerDrop(b, 3);
    HornerDrop(b, 4);
    HornerDrop(b, 5);
    HornerDrop(b, 6);
    HornerDrop(b, 7);
  }

  lemma {:induction false} HalvedSnoc(x: nat, n: nat)
    ensures Halved(x, n + 1) == Halved(x, n) / 2
  {
    if n > 0 {
      HalvedSnoc(x / 2, n - 1);
    }
  }

  /** Register `b` of the permutation after `n` bytes have been taken apart. */
  function Gathered(s: Byte8, b: nat, n: nat): Byte
    requires b < 8 && n <= 8
  {
    Register(0, Column(s, Collected(b)), n)
  }

  lemma HalvedZero(x: nat)
    ensures Halved(x, 0) == x
  {
  }

  lemma GatheredStep(s: Byte8, b: nat, i: nat)
    requires b < 8 && i < 8
    ensures Gathered(s, b, i + 1) == ShiftIn(Gathered(s, b, i), BitAt(s[i], Collected(b)))
  {
    hide BitAt;
  }

  /** Bit `t` of byte `i` goes to its register. */
  method ScatterOne(buf: array<Byte>, p: nat, val: nat, ghost s: Byte8, ghost i: nat, ghost t: nat) returns (rest: nat)
    requires buf.Length == 8 && i < 8 && t < 8 && p == Collector(t) < 8 && val == Halved(s[i], t)
    requires forall b | 0 <= b < 8 :: buf[b] == Gathered(s, b, if Collected(b) < t then i + 1 else i)
    modifies buf
    ensures forall b | 0 <= b < 8 :: buf[b] == Gathered(s, b, if Collected(b) < t + 1 then i + 1 else i)
    ensures rest == Halved(s[i], t + 1)
  {
    hide ShiftIn, Halved, Gathered, Collected, Collector;
    CollectorCollected(t);
    GatheredStep(s, p, i);
    HalvedSnoc(s[i], t);
    buf[p] := ShiftIn(buf[p], val % 2);
    rest := val / 2;
    forall b | 0 <= b < 8 && b != p
      ensures Collected(b) != t
    {
      CollectorCollected(b);
    }
  }

  /** The eight bits of byte `i` go to the eight registers, two at a time from the middle outwards. */
  method Scatter(buf: array<Byte>, value: Byte, ghost s: Byte8, ghost i: nat)
    requires buf.Length == 8 && i < 8 && value == s[i]
    requires forall b | 0 <= b < 8 :: buf[b] == Gathered(s, b, i)
    modifies buf
    ensures forall b | 0 <= b < 8 :: buf[b] == Gathered(s, b, i + 1)
  {
    hide Halved, Gathered;
    HalvedZero(value);
    var val: nat := value;
    var p, j := 3, 4;
    while j > 0
      invariant 0 <= j <= 4 && p == j - 1
      invariant val == Halved(value, 8 - 2 * j)
      invariant forall b | 0 <= b < 8 :: buf[b] == Gathered(s, b, if Collected(b) < 8 - 2 * j then i + 1 else i)
    {
      val := ScatterOne(buf, p, val, s, i, 8 - 2 * j);
      val := ScatterOne(buf, p + 4, val, s, i, 9 - 2 * j);
      p := p - 1;
      j := j - 1;
    }
  }

  lemma GatheredStart(s: Byte8)
    ensures forall b | 0 <= b < 8 :: Gathered(s, b, 0) == 0
  {
  }

  lemma GatheredAll(s: Byte8, b: nat)
    requires b < 8
    ensures Gathered(s, b, 8) == Initial(s)[b]
  {
    RegisterFull(0, Column(s, Collected(b)));
  }

  method DoIp(data: array<Byte>, at: nat)
    requires at + 8 <= data.Length
    modifies data
    ensures data[at..at + 8] == Initial(old(data[at..at + 8]))
    ensures forall n | 0 <= n < at || at + 8 <= n < data.Length :: data[n] == old(data[n])
  {
    hide Gathered;
    ghost var s: Byte8 := data[at..at + 8];
    var buf := new Byte[8](_ => 0);
    GatheredStart(s);
    var i := 0;
    while i < 8
      invariant 0 <= i <= 8 && data[at..at + 8] == s
      invariant forall b | 0 <= b < 8 :: buf[b] == Gathered(s, b, i)
      invariant forall n | 0 <= n < data.Length :: data[n] == old(data[n])
    {
      assert data[at + i] == data[at..at + 8][i];
      Scatter(buf, data[at + i], s, i);
      i := i + 1;
    }
    Put(data, at, buf[..]);
    forall b | 0 <= b < 8
      ensures buf[b] == Initial(s)[b]
    {
      GatheredAll(s, b);
    }
    assert buf[..] == Initial(s);
  }

  /** Byte `p` of the window gives its lowest bit to `r` and moves on to the next. */
  method TakeBit(data: array<Byte>, at: nat, p: nat, r0: Byte) returns (r: Byte)
    requires at + 8 <= data.Length && p < 8
    modifies data
    ensures r == ShiftIn(r0, old(data[at + p]) % 2)
    ensures data[at..at + 8] == old(data[at..at + 8])[p := old(data[at + p]) / 2]
    ensures forall n | 0 <= n < at || at + 8 <= n < data.Length :: data[n] == old(data[n])
  {
    r := ShiftIn(r0, data[at + p] % 2);
    data[at + p] := data[at + p] / 2;
  }

  lemma {:induction false} HalvedShrinks(x: nat, n: nat)
    ensures Halved(x, n) <= x
  {
    if n > 0 {
      HalvedShrinks(x / 2, n - 1);
    }
  }

  function HalvedByte(x: Byte, n: nat): Byte {
    HalvedShrinks(x, n);
    Halved(x, n)
  }

  /** The bytes of `s` after each has lost `i` bits, and the first `t` in turn one more. */
  function Worn(s: Byte8, i: nat, t: nat): (w: Byte8) {
    seq(8, b requires 0 <= b < 8 => HalvedByte(s[b], if Collected(b) < t then i + 1 else i))
  }

  lemma WornStep(s: Byte8, i: nat, t: nat)
    requires t < 8 && i < 8
    ensures var w := Worn(s, i, t);
            w[Collector(t)] % 2 == Row(s, i)[t] && Worn(s, i, t + 1) == w[Collector(t) := w[Collector(t)] / 2]
  {
    hide Halved;
    CollectorCollected(t);
    HalvedSnoc(s[Collector(t)], i);
    var w, w' := Worn(s, i, t), Worn(s, i, t + 1);
    forall b | 0 <= b < 8
      ensures w'[b] == w[Collector(t) := w[Collector(t)] / 2][b]
    {
      CollectorCollected(b);
    }
  }

  lemma WornDone(s: Byte8, i: nat)
    ensures Worn(s, i, 8) == Worn(s, i + 1, 0)
  {
    hide Halved;
  }

  lemma RegisterNone(r: Byte, b: Bit8)
    ensures Register(r, b, 0) == r
  {
  }

  method CollectOne(data: array<Byte>, at: nat, p: nat, r1: Byte, ghost r0: Byte, ghost s: Byte8, ghost i: nat,
                    ghost t: nat)
    returns (r: Byte)
    requires at + 8 <= data.Length && i < 8 && t < 8 && p == Collector(t) < 8
    requires r1 == Register(r0, Row(s, i), t) && data[at..at + 8] == Worn(s, i, t)
    modifies data
    ensures r == Register(r0, Row(s, i), t + 1) && data[at..at + 8] == Worn(s, i, t + 1)
    ensures forall n | 0 <= n < at || at + 8 <= n < data.Length :: data[n] == old(data[n])
  {
    hide ShiftIn, ByteOf, Worn, Row, Collector;
    WornStep(s, i, t);
    assert data[at + p] == data[at..at + 8][p];
    r := TakeBit(data, at, p, r1);
  }

  /** One bit of every byte of `data` goes into `r`, and the bytes move on to their next bit. */
  method Collect(data: array<Byte>, at: nat, r0: Byte, ghost s: Byte8, ghost i: nat) returns (r: Byte)
    requires at + 8 <= data.Length && i < 8
    requires data[at..at + 8] == Worn(s, i, 0)
    modifies data
    ensures r == ByteOf(Row(s, i))
    ensures data[at..at + 8] == Worn(s, i + 1, 0)
    ensures forall n | 0 <= n < at || at + 8 <= n < data.Length :: data[n] == old(data[n])
  {
    hide ShiftIn, ByteOf, Worn, Row, Register;
    RegisterNone(r0, Row(s, i));
    r := r0;
    var p, j := 3, 4;
    while j > 0
      invariant 0 <= j <= 4 && p == j - 1
      invariant r == Register(r0, Row(s, i), 8 - 2 * j)
      invariant data[at..at + 8] == Worn(s, i, 8 - 2 * j)
      invariant forall n | 0 <= n < at || at + 8 <= n < data.Length :: data[n] == old(data[n])
    {
      r := CollectOne(data, at, p, r, r0, s, i, 8 - 2 * j);
      r := CollectOne(data, at, p + 4, r, r0, s, i, 9 - 2 * j);
      p := p - 1;
      j := j - 1;
    }
    WornDone(s, i);
    RegisterFull(r0, Row(s, i));
  }

  lemma WornStart(s: Byte8)
    ensures Worn(s, 0, 0) == s
  {
  }

  method DoIp1(data: array<Byte>, at: nat)
    requires at + 8 <= data.Length
    modifies data
    ensures data[at..at + 8] == Final(old(data[at..at + 8]))
    ensures forall n | 0 <= n < at || at + 8 <= n < data.Length :: data[n] == old(data[n])
  {
    hide Halved, ByteOf;
    ghost var s: Byte8 := data[at..at + 8];
    var buf := new Byte[8](_ => 0);
    var r: Byte := 0;
    var i := 0;
    WornStart(s);
    hide Worn;
    while i < 8
      invariant 0 <= i <= 8 && data[at..at + 8] == Worn(s, i, 0)
      invariant forall b | 0 <= b < i :: buf[b] == ByteOf(Row(s, b))
      invariant forall n | 0 <= n < at || at + 8 <= n < data.Length :: data[n] == old(data[n])
    {
      r := Collect(data, at, r, s, i);
      buf[i] := r;
      i := i + 1;
    }
    Put(data, at, buf[..]);
    assert buf[..] == Final(s);
  }
}
