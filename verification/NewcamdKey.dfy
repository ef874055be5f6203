/** Session keys of newcamd: a base key mixed with the bytes of a password or a random sequence, spread
    over sixteen bytes with odd parity, and gathered into two keys of 56 bits. */
module NewcamdKey {
  import opened Bits
  import opened Common
  import opened NcDesBits
  import opened NcDes
  import opened Newcamd
  import opened NewcamdCode

  type Byte7 = s: seq<Byte> | |s| == 7 witness seq(7, _ => 0)

  type Byte14 = s: seq<Byte> | |s| == 14 witness seq(14, _ => 0)

  // ----- Bits of shifted and joined numbers

  lemma {:induction false} HalvedTwice(x: nat, m: nat, n: nat)
    ensures Halved(Halved(x, m), n) == Halved(x, m + n)
    decreases m
  {
    if m > 0 {
      HalvedTwice(x / 2, m - 1, n);
    }
  }

  lemma {:induction false} HalvedBound(x: nat, m: nat, k: nat)
    requires x < Pow2(m + k)
    ensures Halved(x, m) < Pow2(k)
    decreases m
  {
    if m > 0 {
      HalvedBound(x / 2, m - 1, k);
    }
  }

  lemma JoinHalf(a: nat, q: nat, p: nat)
    ensures (a * (2 * p) + q) / 2 == a * p + q / 2 && (a * (2 * p) + q) % 2 == q % 2
  {
    assert a * (2 * p) == 2 * (a * p);
  }

  lemma {:induction false} BitOfJoin(a: nat, q: nat, k: nat, t: nat)
    requires q < Pow2(k)
    ensures BitAt(a * Pow2(k) + q, t) == if t < k then BitAt(q, t) else BitAt(a, t - k)
    decreases k
  {
    if k > 0 {
      JoinHalf(a, q, Pow2(k - 1));
      if t > 0 {
        BitOfJoin(a, q / 2, k - 1, t - 1);
      }
    }
  }

  lemma BitOfLow(x: nat, k: nat, t: nat)
    requires t < k
    ensures BitAt(x % Pow2(k), t) == BitAt(x, t)
  {
    hide BitAt, Pow2;
    var p := Pow2(k);
    Parts(x, p);
    assert x / p * p == p * (x / p);
    BitOfJoin(x / p, x % p, k, t);
  }

  lemma BitOfHalf(x: nat, t: nat)
    requires t > 0
    ensures BitAt(x, t) == BitAt(x / 2, t - 1)
  {
  }

  lemma SameBits(x: Byte, y: Byte)
    requires forall t | 0 <= t < 8 :: BitAt(x, t) == BitAt(y, t)
    ensures x == y
  {
    hide BitAt, ByteOf;
    assert BitsOf(x) == BitsOf(y);
    ByteOfBits(x);
    ByteOfBits(y);
  }

  // ----- Mixing

  /** The first fourteen bytes of the base key, with the bytes of `mask` laid over them cyclically. */
  function Mixed(base: Byte14, mask: seq<Byte>): Byte14 {
    if mask == [] then base
    else
      var n := |mask| - 1;
      var m := Mixed(base, mask[..n]);
      m[n % 14 := ByteXor(m[n % 14], mask[n])]
  }

  /** Mixing is exclusive or with a mask of fourteen bytes. */
  lemma {:induction false} MixedIsXor(base: Byte14, mask: seq<Byte>, i: nat)
    requires i < 14
    ensures Mixed(base, mask)[i] == ByteXor(base[i], Mixed(seq(14, _ => 0), mask)[i])
  {
    hide Xor;
    var zeros: Byte14 := seq(14, _ => 0);
    if mask == [] {
      XorZero(base[i]);
    } else {
      var n := |mask| - 1;
      MixedIsXor(base, mask[..n], i);
      if i == n % 14 {
        XorAssoc(base[i], Mixed(zeros, mask[..n])[i], mask[n]);
      }
    }
  }

  /** The first fourteen bytes of the mask lie over the base key one by one ... */
  lemma {:induction false} MixedFirst(base: Byte14, mask: seq<Byte>, i: nat)
    requires |mask| <= 14 && i < 14
    ensures Mixed(base, mask)[i] == if i < |mask| then ByteXor(base[i], mask[i]) else base[i]
  {
    hide ByteXor;
    if mask != [] {
      MixedFirst(base, mask[..|mask| - 1], i);
    }
  }

  /** ... and the next fourteen lie over the result. */
  lemma {:induction false} MixedMore(base: Byte14, mask: seq<Byte>, more: seq<Byte>)
    requires |mask| == 14
    ensures Mixed(base, mask + more) == Mixed(Mixed(base, mask), more)
  {
    hide ByteXor;
    if more == [] {
      assert mask + more == mask;
    } else {
      var n := |more| - 1;
      assert (mask + more)[..14 + n] == mask + more[..n];
      MixedMore(base, mask, more[..n]);
      assert (14 + n) % 14 == n % 14;
    }
  }

  /** Mixing the same bytes in twice changes nothing. */
  lemma MixedTwice(base: Byte14, mask: seq<Byte>)
    ensures Mixed(Mixed(base, mask), mask) == base
  {
    hide Mixed, ByteXor;
    forall i | 0 <= i < 14
      ensures Mixed(Mixed(base, mask), mask)[i] == base[i]
    {
      MixedIsXor(base, mask, i);
      MixedIsXor(Mixed(base, mask), mask, i);
      ByteXorTwice(base[i], Mixed(seq(14, _ => 0), mask)[i]);
    }
  }

  // ----- Spreading

  /** Bit `m` of seven bytes written one behind the other, the highest bit first. */
  function StringBit(s: Byte7, m: nat): Bit
    requires m < 56
  {
    BitAt(s[m / 8], 7 - m % 8)
  }

  /** `((a << (8 - i)) | (b >> i)) & 0xfe` */
  function Joined(a: Byte, b: Byte, i: nat): (r: Byte)
    requires i <= 8
    ensures r % 2 == 0
  {
    var x := Or(a * Pow2(8 - i), Halved(b, i));
    x % 256 - x % 256 % 2
  }

  lemma EvenBits(x: nat, t: nat)
    requires t > 0
    ensures BitAt(x - x % 2, t) == BitAt(x, t)
  {
    assert (x - x % 2) / 2 == x / 2;
    BitOfHalf(x, t);
    BitOfHalf(x - x % 2, t);
  }

  lemma JoinedBits(a: Byte, b: Byte, i: nat, t: nat)
    requires i <= 8 && 1 <= t < 8
    ensures BitAt(Joined(a, b, i), t) == if t < 8 - i then BitAt(b, i + t) else BitAt(a, t - (8 - i))
  {
    hide Or, Halved, Pow2;
    var k := 8 - i;
    Pow2Values();
    HalvedBound(b, i, k);
    OrDisjoint(a, Halved(b, i), k);
    var x := a * Pow2(k) + Halved(b, i);
    EvenBits(x % 256, t);
    BitOfLow(x, 8, t);
    BitOfJoin(a, Halved(b, i), k, t);
    HalvedTwice(b, i, t);
  }

  /** Seven bytes at a time hold the bits of the string above their lowest bit. */
  ghost predicate IsSpread(s: Byte7, d: Byte8) {
    forall i, t | 0 <= i < 8 && 1 <= t < 8 :: BitAt(d[i], t) == StringBit(s, 7 * i + 7 - t)
  }

  lemma JoinedPlace(s: Byte7, i: nat, t: nat)
    requires 1 <= i <= 6 && 1 <= t < 8
    ensures BitAt(Joined(s[i - 1], s[i], i), t) == StringBit(s, 7 * i + 7 - t)
  {
    hide BitAt, Joined;
    JoinedBits(s[i - 1], s[i], i, t);
    if t < 8 - i {
      assert 7 * i + 7 - t == 8 * i + (7 - i - t);
    } else {
      assert 7 * i + 7 - t == 8 * (i - 1) + (15 - i - t);
    }
  }

  /** `a << 1`, cut to a byte. */
  function Doubling(a: Byte): (r: Byte)
    ensures r % 2 == 0
  {
    (a as int * 2) % 256
  }

  lemma JoinedEnds(a: Byte, t: nat)
    requires 1 <= t < 8
    ensures BitAt(a - a % 2, t) == BitAt(a, t)
    ensures BitAt(Doubling(a), t) == BitAt(a, t - 1)
  {
    hide BitAt;
    EvenBits(a, t);
    Pow2Values();
    BitOfLow(a as int * 2, 8, t);
    BitOfHalf(a as int * 2, t);
  }

  lemma SpreadBits(s: Byte7, d: Byte8)
    requires d[0] == s[0] - s[0] % 2 && d[7] == Doubling(s[6])
    requires d[1] == Joined(s[0], s[1], 1) && d[2] == Joined(s[1], s[2], 2) && d[3] == Joined(s[2], s[3], 3)
    requires d[4] == Joined(s[3], s[4], 4) && d[5] == Joined(s[4], s[5], 5) && d[6] == Joined(s[5], s[6], 6)
    ensures IsSpread(s, d)
  {
    hide BitAt, Joined;
    forall i, t | 0 <= i < 8 && 1 <= t < 8
      ensures BitAt(d[i], t) == StringBit(s, 7 * i + 7 - t)
    {
      if i == 0 {
        JoinedEnds(s[0], t);
      } else if i == 7 {
        JoinedEnds(s[6], t);
        assert 56 - t == 8 * 6 + (8 - t);
      } else {
        assert i == 1 || i == 2 || i == 3 || i == 4 || i == 5 || i == 6;
        JoinedPlace(s, i, t);
      }
    }
  }

  /** One half of `ncd_des_key_spread`, before the parity: seven bits to a byte. */
  method SpreadHalf(normal: Byte7, spread: array<Byte>, at: nat)
    requires at + 8 <= spread.Length
    modifies spread
    ensures IsSpread(normal, spread[at..at + 8])
    ensures forall n | at <= n < at + 8 :: spread[n] % 2 == 0
    ensures forall n | 0 <= n < at || at + 8 <= n < spread.Length :: spread[n] == old(spread[n])
  {
    hide IsSpread, Joined, Doubling;
    spread[at] := normal[0] - normal[0] % 2;
    spread[at + 1] := Joined(normal[0], normal[1], 1);
    spread[at + 2] := Joined(normal[1], normal[2], 2);
    spread[at + 3] := Joined(normal[2], normal[3], 3);
    spread[at + 4] := Joined(normal[3], normal[4], 4);
    spread[at + 5] := Joined(normal[4], normal[5], 5);
    spread[at + 6] := Joined(normal[5], normal[6], 6);
    spread[at + 7] := Doubling(normal[6]);
    ghost var d := spread[at..at + 8];
    assert d[1] == Joined(normal[0], normal[1], 1) && d[2] == Joined(normal[1], normal[2], 2);
    assert d[3] == Joined(normal[2], normal[3], 3) && d[4] == Joined(normal[3], normal[4], 4);
    assert d[5] == Joined(normal[4], normal[5], 5) && d[6] == Joined(normal[5], normal[6], 6);
    SpreadBits(normal, d);
  }

  // ----- Parity

  /** How many of the lowest `n` bits are set. */
  function Ones(x: nat, n: nat): nat {
    if n == 0 then 0 else Ones(x, n - 1) + BitAt(x, n - 1) as nat
  }

  lemma {:induction false} OnesFromLowest(x: nat, n: nat)
    requires n > 0
    ensures Ones(x, n) == x % 2 + Ones(x / 2, n - 1)
  {
    if n > 1 {
      OnesFromLowest(x, n - 1);
      BitOfHalf(x, n - 1);
    }
  }

  lemma OrLowest(x: Byte, p: Bit)
    ensures Or(x, p) == if x % 2 == 1 then x else x + p as int
  {
    assert Pow2(1) == 2;
    if x % 2 == 0 {
      OrDisjoint(x / 2, p, 1);
    } else {
      OrZero(x / 2);
    }
  }

  /** What becomes of one byte: nothing above the lowest bit changes, and if that was zero, the byte now
      has an odd number of ones. */
  ghost predicate OddParity(x: Byte, y: Byte) {
    && y / 2 == x / 2
    && (x % 2 == 1 ==> y == x)
    && (x % 2 == 0 ==> Ones(y, 8) % 2 == 1)
  }

  method AdjustByte(x: Byte) returns (y: Byte)
    ensures OddParity(x, y)
  {
    hide Or;
    var parity: Bit := 1;
    var j := 1;
    while j < 8
      invariant 1 <= j <= 8
      invariant (parity as int - 1 - (Ones(x, j) - x % 2)) % 2 == 0
    {
      if BitAt(x, j) == 1 {
        parity := 1 - parity;
      }
      j := j + 1;
    }
    OrLowest(x, parity);
    y := Or(x, parity);
    OnesFromLowest(x, 8);
    OnesFromLowest(y, 8);
  }

  /** `ncd_des_key_parity_adjust` */
  method AdjustParity(key: array<Byte>, len: nat)
    requires len <= key.Length
    modifies key
    ensures forall i | 0 <= i < len :: OddParity(old(key[i]), key[i])
    ensures forall i | len <= i < key.Length :: key[i] == old(key[i])
  {
    hide OddParity;
    var i := 0;
    while i < len
      invariant 0 <= i <= len
      invariant forall n | 0 <= n < i :: OddParity(old(key[n]), key[n])
      invariant forall n | i <= n < key.Length :: key[n] == old(key[n])
    {
      key[i] := AdjustByte(key[i]);
      i := i + 1;
    }
  }

  lemma ParityKeepsSpread(s: Byte7, d: Byte8, e: Byte8)
    requires IsSpread(s, d) && forall i | 0 <= i < 8 :: OddParity(d[i], e[i])
    ensures IsSpread(s, e)
  {
    hide BitAt;
    forall i, t | 0 <= i < 8 && 1 <= t < 8
      ensures BitAt(e[i], t) == BitAt(d[i], t)
    {
      BitOfHalf(d[i], t);
      BitOfHalf(e[i], t);
    }
  }

  /** `ncd_des_key_spread`: 112 bits in sixteen bytes of odd parity. */
  method KeySpread(normal: Byte14, spread: array<Byte>)
    requires spread.Length == 16
    modifies spread
    ensures IsSpread(normal[..7], spread[..8]) && IsSpread(normal[7..], spread[8..])
    ensures forall i | 0 <= i < 16 :: Ones(spread[i], 8) % 2 == 1
  {
    hide IsSpread, Ones;
    SpreadHalf(normal[..7], spread, 0);
    assert spread[0..8] == spread[..8];
    ghost var low := spread[..8];
    SpreadHalf(normal[7..], spread, 8);
    assert spread[..8] == low && spread[8..16] == spread[8..];
    ghost var high := spread[8..];
    AdjustParity(spread, 16);
    ParityKeepsSpread(normal[..7], low, spread[..8]);
    ParityKeepsSpread(normal[7..], high, spread[8..]);
  }

  // ----- Gathering

  /** Bit positions, counted from 1 at the top of the first byte, that make up each byte of a key. */
  const PC1: seq<seq<nat>> := [
    [57, 49, 41, 33, 25, 17, 9, 1],
    [58, 50, 42, 34, 26, 18, 10, 2],
    [59, 51, 43, 35, 27, 19, 11, 3],
    [60, 52, 44, 36, 63, 55, 47, 39],
    [31, 23, 15, 7, 62, 54, 46, 38],
    [30, 22, 14, 6, 61, 53, 45, 37],
    [29, 21, 13, 5, 28, 20, 12, 4]]

  /** No entry is a parity position, and none is outside the eight bytes. */
  lemma PC1Range(j: nat, i: nat)
    requires j < 7 && i < 8
    ensures |PC1[j]| == 8 && 0 < PC1[j][i] < 64 && PC1[j][i] % 8 != 0
  {
  }

  /** The table is permuted choice 1 of FIPS 46-3, column by column of the eight bytes. */
  lemma PC1IsStandard(n: nat)
    requires n < 56
    ensures |PC1[n / 8]| == 8 && PC1[n / 8][n % 8] ==
      if n < 28 then 57 - 8 * (n % 8) + n / 8
      else if n < 52 then 63 - 8 * ((n - 28) % 8) - (n - 28) / 8
      else 28 - 8 * (n - 52)
  {
    var j, i := n / 8, n % 8;
    assert n == 8 * j + i;
    assert j == 0 || j == 1 || j == 2 || j == 3 || j == 4 || j == 5 || j == 6;
    assert i == 0 || i == 1 || i == 2 || i == 3 || i == 4 || i == 5 || i == 6 || i == 7;
  }

  /** Where the table has position `8 q + r`. */
  function PlaceOf(q: nat, r: nat): (nat, nat)
    requires q < 8 && 1 <= r < 8
  {
    if r < 4 then (r - 1, 7 - q)
    else if r == 4 then (if q >= 4 then 3 else 6, 7 - q)
    else (if q >= 4 then 10 - r else 11 - r, if q >= 4 then 11 - q else 3 - q)
  }

  /** Every other position occurs. */
  lemma PC1Covers(q: nat, r: nat)
    requires q < 8 && 1 <= r < 8
    ensures var (j, i) := PlaceOf(q, r); j < 7 && i < 8 && |PC1[j]| == 8 && PC1[j][i] == 8 * q + r
  {
  }

  /** Bit `t` of byte `j` of the gathered key. */
  function Picked(d: Byte8, j: nat, t: nat): Bit
    requires j < 7 && t < 8
  {
    PC1Range(j, 7 - t);
    var lookup := PC1[j][7 - t];
    BitAt(d[lookup / 8], 8 - lookup % 8)
  }

  function PickedBits(d: Byte8, j: nat): Bit8
    requires j < 7
  {
    seq(8, t requires 0 <= t < 8 => Picked(d, j, t))
  }

  function PickedByte(d: Byte8, j: nat): Byte
    requires j < 7
  {
    ByteOf(PickedBits(d, j))
  }

  /** The seven bytes of a key that are not zero by construction. */
  function Gathered(d: Byte8): Byte7 {
    seq(7, j requires 0 <= j < 7 => PickedByte(d, j))
  }

  /** One more bit below a number `h` whose lowest bit has the weight `2 p`. */
  lemma OrPlaced(h: nat, bit: Bit, k: nat)
    ensures Or(h * Pow2(k + 1), bit as int * Pow2(k)) == (bit as int + 2 * h) * Pow2(k)
  {
    hide Or;
    var p := Pow2(k);
    OrDisjoint(h, bit as int * p, k + 1);
    assert h * (2 * p) == 2 * h * p;
    assert (bit as int + 2 * h) * p == bit as int * p + 2 * h * p;
  }

  lemma MulBelow(a: nat, b: nat, c: nat)
    requires a < b && c > 0
    ensures a * c < b * c
  {
  }

  lemma PlacedBound(h: nat, i: nat)
    requires i <= 8 && h < Pow2(i)
    ensures h * Pow2(8 - i) < 256
  {
    hide Pow2;
    Pow2Values();
    Pow2Add(i, 8 - i);
    MulBelow(h, Pow2(i), Pow2(8 - i));
  }

  lemma OrNext(b: Bit8, i: nat)
    requires i < 8
    ensures Or(Horner(b[8 - i..]) * Pow2(8 - i), b[7 - i] as int * Pow2(7 - i)) == Horner(b[7 - i..]) * Pow2(7 - i)
    ensures Horner(b[7 - i..]) * Pow2(7 - i) < 256
  {
    hide Or, Horner, Pow2;
    HornerBound(b[7 - i..]);
    PlacedBound(Horner(b[7 - i..]), i + 1);
    OrPlaced(Horner(b[8 - i..]), b[7 - i], 7 - i);
    HornerDrop(b, 7 - i);
  }

  lemma NoBitYet(b: Bit8)
    ensures Horner(b[8..]) == 0
  {
  }

  lemma AllBits(d: Byte8, j: nat)
    requires j < 7
    ensures Horner(PickedBits(d, j)[0..]) * Pow2(0) == PickedByte(d, j)
  {
    hide Horner, PickedBits;
    var b := PickedBits(d, j);
    assert b[0..] == b && Pow2(0) == 1;
  }

  lemma PickedAt(d: Byte8, j: nat, i: nat)
    requires j < 7 && i < 8
    ensures |PC1[j]| == 8 && PC1[j][i] < 64 && PC1[j][i] % 8 != 0
    ensures PickedBits(d, j)[7 - i] == BitAt(d[PC1[j][i] / 8], 8 - PC1[j][i] % 8)
  {
    hide BitAt;
    PC1Range(j, i);
  }

  /** The inner loop of `nc_doPC1`. */
  method GatherByte(data: array<Byte>, at: nat, j: nat, buf: array<Byte>)
    requires at + 8 <= data.Length && j < 7 && buf.Length == 8 && buf != data && buf[j] == 0
    modifies buf
    ensures buf[j] == PickedByte(data[at..at + 8], j)
    ensures forall n | 0 <= n < 8 && n != j :: buf[n] == old(buf[n])
  {
    hide Or, Horner, Pow2, BitAt, PickedBits, PickedByte;
    ghost var d: Byte8 := data[at..at + 8];
    ghost var b := PickedBits(d, j);
    NoBitYet(b);
    var i := 0;
    while i < 8
      invariant 0 <= i <= 8
      invariant buf[j] == Horner(b[8 - i..]) * Pow2(8 - i)
      invariant forall n | 0 <= n < 8 && n != j :: buf[n] == old(buf[n])
    {
      PickedAt(d, j, i);
      var lookup := PC1[j][i];
      assert data[at + lookup / 8] == d[lookup / 8];
      var bit := BitAt(data[at + lookup / 8], 8 - lookup % 8);
      OrNext(b, i);
      buf[j] := Or(buf[j], bit as int * Pow2(7 - i));
      i := i + 1;
    }
    AllBits(d, j);
  }

  /** `nc_doPC1`: 56 of the 64 bits move to the first seven bytes. */
  method DoPC1(data: array<Byte>, at: nat)
    requires at + 8 <= data.Length
    modifies data
    ensures data[at..at + 7] == Gathered(old(data[at..at + 8]))
    ensures data[at + 7] == 0
    ensures forall n | 0 <= n < at || at + 8 <= n < data.Length :: data[n] == old(data[n])
  {
    hide PickedByte;
    ghost var s := data[at..at + 8];
    var buf := new Byte[8](_ => 0);
    var j := 0;
    while j < 7
      invariant 0 <= j <= 7
      invariant data[..] == old(data[..])
      invariant forall n | 0 <= n < j :: buf[n] == PickedByte(s, n)
      invariant forall n | j <= n < 8 :: buf[n] == 0
    {
      assert data[at..at + 8] == s;
      GatherByte(data, at, j, buf);
      j := j + 1;
    }
    Put(data, at, buf[..]);
    assert data[at..at + 8][7] == 0 && data[at..at + 7] == data[at..at + 8][..7];
  }

  // ----- The session key

  /** The bit of the seven mixed bytes that becomes bit `t` of byte `j` of a key. */
  function Origin(j: nat, t: nat): (m: nat)
    requires j < 7 && t < 8
    ensures m < 56
  {
    PC1Range(j, 7 - t);
    var lookup := PC1[j][7 - t];
    7 * (lookup / 8) + lookup % 8 - 1
  }

  /** Eight bytes that hold the 56 bits of `s` in the order of the table, and a zero. */
  ghost predicate IsHalf(s: Byte7, k: Byte8) {
    && (forall j, t | 0 <= j < 7 && 0 <= t < 8 :: BitAt(k[j], t) == StringBit(s, Origin(j, t)))
    && k[7] == 0
  }

  ghost predicate IsSessionKey(m: Byte14, k: KeyBytes) {
    IsHalf(m[..7], k[..8]) && IsHalf(m[7..], k[8..])
  }

  /** Gathering undoes the spreading, except for the order of the bits. */
  lemma SpreadThenGather(s: Byte7, d: Byte8, k: Byte8)
    requires IsSpread(s, d) && k[..7] == Gathered(d) && k[7] == 0
    ensures IsHalf(s, k)
  {
    hide BitAt, StringBit, ByteOf;
    forall j, t | 0 <= j < 7 && 0 <= t < 8
      ensures BitAt(k[j], t) == StringBit(s, Origin(j, t))
    {
      PC1Range(j, 7 - t);
      var lookup := PC1[j][7 - t];
      var q, r := lookup / 8, lookup % 8;
      assert k[j] == k[..7][j] == PickedByte(d, j);
      BitOfByte(PickedBits(d, j), t);
      assert BitAt(d[q], 8 - r) == StringBit(s, 7 * q + 7 - (8 - r));
    }
  }

  lemma GatheredHalf(s: Byte7, d: Byte8, k: KeyBytes, at: nat)
    requires at == 0 || at == 8
    requires IsSpread(s, d) && k[at..at + 7] == Gathered(d) && k[at + 7] == 0
    ensures IsHalf(s, k[at..at + 8])
  {
    hide IsSpread, IsHalf, Gathered;
    var h: Byte8 := k[at..at + 8];
    assert h[..7] == k[at..at + 7];
    SpreadThenGather(s, d, h);
  }

  /** `cccam_newcamd_login_key` */
  method LoginKey(key1: seq<Byte>, key2: seq<Byte>, len: nat, des16: array<Byte>)
    requires |key1| >= 14 && len <= |key2| && des16.Length == 16
    modifies des16
    ensures IsSessionKey(Mixed(key1[..14], key2[..len]), des16[..])
    ensures des16[7] == 0 && des16[15] == 0
  {
    hide IsHalf, IsSpread, Gathered, Ones;
    var des14: Byte14 := key1[..14];
    var i := 0;
    while i < len
      invariant 0 <= i <= len
      invariant des14 == Mixed(key1[..14], key2[..i])
    {
      assert key2[..i + 1][..i] == key2[..i];
      des14 := des14[i % 14 := ByteXor(des14[i % 14], key2[i])];
      i := i + 1;
    }
    KeySpread(des14, des16);
    ghost var low, high := des16[..8], des16[8..];
    DoPC1(des16, 0);
    assert des16[8..] == high && des16[8..16] == high;
    ghost var first := des16[..8];
    assert first[..7] == des16[0..7];
    DoPC1(des16, 8);
    assert des16[..8] == first;
    assert des16[..][0..7] == first[..7] && des16[..][8..15] == des16[8..15];
    GatheredHalf(des14[..7], low, des16[..], 0);
    GatheredHalf(des14[7..], high, des16[..], 8);
    assert des16[..][0..8] == des16[..][..8] && des16[..][8..16] == des16[..][8..];
  }

  lemma WithoutParity(p: nat)
    requires p % 8 != 0
    ensures 7 * (p / 8) + p % 8 - 1 == p - 1 - (p - 1) / 8
  {
    var q, r := p / 8, p % 8;
    DivModUnique(p - 1, 8, q, r - 1);
  }

  /** Bit `n` of a key, counted from the top, is the bit of the seven bytes whose place the table gives, the parity
      positions not counted. */
  ghost predicate KeyBit(s: Byte7, h: Byte8, n: nat)
    requires n < 56
  {
    var p := if n < 28 then 57 - 8 * (n % 8) + n / 8
             else if n < 52 then 63 - 8 * ((n - 28) % 8) - (n - 28) / 8
             else 28 - 8 * (n - 52);
    var x := p - 1 - (p - 1) / 8;
    0 <= x < 56 && BitAt(h[n / 8], 7 - n % 8) == BitAt(s[x / 8], 7 - x % 8)
  }

  lemma OriginIs(n: nat)
    requires n < 56
    ensures Origin(n / 8, 7 - n % 8) == PC1[n / 8][n % 8] - 1 - (PC1[n / 8][n % 8] - 1) / 8
  {
    PC1Range(n / 8, n % 8);
    WithoutParity(PC1[n / 8][n % 8]);
  }

  lemma HalfBit(s: Byte7, h: Byte8, n: nat)
    requires IsHalf(s, h) && n < 56
    ensures KeyBit(s, h, n)
  {
    hide BitAt, Origin;
    PC1IsStandard(n);
    OriginIs(n);
    assert BitAt(h[n / 8], 7 - n % 8) == StringBit(s, Origin(n / 8, 7 - n % 8));
  }

  lemma SessionKeyBits(m: Byte14, k: KeyBytes)
    requires IsSessionKey(m, k)
    ensures forall n | 0 <= n < 56 :: KeyBit(m[..7], k[..8], n) && KeyBit(m[7..], k[8..], n)
    ensures k[7] == 0 && k[15] == 0
  {
    hide KeyBit;
    assert k[..8][7] == 0 && k[8..][7] == 0;
    forall n | 0 <= n < 56
      ensures KeyBit(m[..7], k[..8], n) && KeyBit(m[7..], k[8..], n)
    {
      hide IsHalf;
      HalfBit(m[..7], k[..8], n);
      HalfBit(m[7..], k[8..], n);
    }
  }

  // ----- No bit is lost

  /** Every bit of the string is in the key. */
  lemma OriginCovers(m: nat)
    requires m < 56
    ensures var (j, i) := PlaceOf(m / 7, m % 7 + 1); j < 7 && i < 8 && Origin(j, 7 - i) == m
  {
    PC1Covers(m / 7, m % 7 + 1);
  }

  lemma HalfDetermines(s: Byte7, s': Byte7, k: Byte8)
    requires IsHalf(s, k) && IsHalf(s', k)
    ensures s == s'
  {
    hide BitAt, Origin, PlaceOf;
    forall n | 0 <= n < 7
      ensures s[n] == s'[n]
    {
      forall t | 0 <= t < 8
        ensures BitAt(s[n], t) == BitAt(s'[n], t)
      {
        var m := 8 * n + 7 - t;
        OriginCovers(m);
        var (j, i) := PlaceOf(m / 7, m % 7 + 1);
        assert BitAt(k[j], 7 - i) == StringBit(s, m) == StringBit(s', m);
      }
      SameBits(s[n], s'[n]);
    }
  }

  lemma HalfDetermined(s: Byte7, k: Byte8, k': Byte8)
    requires IsHalf(s, k) && IsHalf(s, k')
    ensures k == k'
  {
    hide BitAt, Origin;
    forall j | 0 <= j < 7
      ensures k[j] == k'[j]
    {
      SameBits(k[j], k'[j]);
    }
  }

  /** With the same bytes mixed in, two base keys give the same session key only if they are the same:
      neither the mixing nor the spreading nor the permutation loses one of the 112 bits. */
  lemma KeysDiffer(base: Byte14, base': Byte14, mask: seq<Byte>, k: KeyBytes, k': KeyBytes)
    requires IsSessionKey(Mixed(base, mask), k) && IsSessionKey(Mixed(base', mask), k')
    ensures k == k' <==> base == base'
  {
    hide IsHalf, Mixed;
    var m, m' := Mixed(base, mask), Mixed(base', mask);
    if base == base' {
      HalfDetermined(m[..7], k[..8], k'[..8]);
      HalfDetermined(m[7..], k[8..], k'[8..]);
      assert k == k[..8] + k[8..] && k' == k'[..8] + k'[8..];
    }
    if k == k' {
      HalfDetermines(m[..7], m'[..7], k[..8]);
      HalfDetermines(m[7..], m'[7..], k[8..]);
      assert m == m[..7] + m[7..] && m' == m'[..7] + m'[7..];
      MixedTwice(base, mask);
      MixedTwice(base', mask);
    }
  }

  /** Each end derives its key from the same bytes; what one sends, the other reads. No assumption on the keys
      is left: they come out equal, and every derived key takes the triple-DES branch. */
  method Exchange(buffer: array<Byte>, len: nat, key1: seq<Byte>, key2: seq<Byte>, keyLen: nat,
                  pad: seq<Byte>, iv: Byte8, f: RoundFunction)
    returns (sent: int, received: int)
    requires |key1| >= 14 && keyLen <= |key2|
    requires 1024 <= buffer.Length && len <= buffer.Length && |pad| == Padding(len) && len <= 1009
    modifies buffer
    ensures sent == len + |pad| + 9
    ensures received == (if len >= 2 then sent - 8 else -1)
    ensures len >= 2 ==> buffer[..len] == old(buffer[..len])
  {
    hide IsSessionKey;
    var sender, receiver := new Byte[16](_ => 0), new Byte[16](_ => 0);
    LoginKey(key1, key2, keyLen, sender);
    LoginKey(key1, key2, keyLen, receiver);
    KeysDiffer(key1[..14], key1[..14], key2[..keyLen], sender[..], receiver[..]);
    sent, received := RoundTrip(buffer, len, sender[..], receiver[..], pad, iv, f);
  }
}
