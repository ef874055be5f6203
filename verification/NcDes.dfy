/** Eurocrypt DES: sixteen Feistel rounds whose 28-bit key halves turn left on the way in and right on
    the way out. What a round computes from the key halves, the eighth key byte, the hash flag and half
    a block is a parameter: nothing below depends on the tables. */
module NcDes {
  import opened Bits
  import opened Feistel
  import opened NcDesBits

  /** Four bytes: half a block, or a key half in its low 28 bits (lowest byte first). */
  type Half = h: seq<Byte> | |h| == 4 witness [0, 0, 0, 0]

  datatype KeyHalves = KeyHalves(left: Half, right: Half)

  /** The parts of the mode byte. */
  datatype Mode = Mode(ip: bool, ip1: bool, toRight: bool, hash: bool)

  /** From the turned key halves, the eighth key byte, the hash flag and a half to the mask. */
  type RoundFunction = (KeyHalves, Byte, bool, Half) -> Half

  // ----- Turning key halves

  function ValueOf(h: Half): nat {
    h[0] as int + 0x100 * (h[1] as int) + 0x1_0000 * (h[2] as int) + 0x100_0000 * (h[3] as int)
  }

  /** A key half has 28 bits. */
  predicate Clean(h: Half) {
    h[3] < 0x10
  }

  /** `(a >> 1) | (bit of b ? 0x80 : 0)` */
  function Halve(a: Byte, b: Byte): Byte {
    ShiftIn(a, b % 2)
  }

  /** One bit to the right; the lowest bit comes back as bit 27. */
  function RightRot(h: Half): (r: Half)
    requires Clean(h)
    ensures Clean(r)
  {
    [Halve(h[0], h[1]), Halve(h[1], h[2]), Halve(h[2], h[3]), h[3] / 2 + 8 * (h[0] % 2)]
  }

  /** A number of 28 bits turned right by one. */
  function Turn(v: nat): nat {
    v / 2 + v % 2 * 0x800_0000
  }

  function TurnBy(v: nat, n: nat): nat {
    if n == 0 then v else Turn(TurnBy(v, n - 1))
  }

  function RightRotBy(h: Half, n: nat): (r: Half)
    requires Clean(h)
    ensures Clean(r)
  {
    if n == 0 then h else RightRot(RightRotBy(h, n - 1))
  }

  /** The program turns left by turning right 27 times. */
  function LeftRot(h: Half): (r: Half)
    requires Clean(h)
    ensures Clean(r)
  {
    RightRotBy(h, 27)
  }

  /** The bytes can be read off the value one by one. */
  lemma Digits(h: Half)
    ensures var v := ValueOf(h);
            && v % 0x100 == h[0] && v / 0x100 % 0x100 == h[1]
            && v / 0x100 / 0x100 % 0x100 == h[2] && v / 0x100 / 0x100 / 0x100 == h[3]
  {
    var b0: int, b1: int, b2: int, b3: int := h[0], h[1], h[2], h[3];
    DivModUnique(ValueOf(h), 0x100, b1 + 0x100 * b2 + 0x1_0000 * b3, b0);
    DivModUnique(b1 + 0x100 * b2 + 0x1_0000 * b3, 0x100, b2 + 0x100 * b3, b1);
    DivModUnique(b2 + 0x100 * b3, 0x100, b3, b2);
  }

  lemma ValueInjective(a: Half, b: Half)
    requires ValueOf(a) == ValueOf(b)
    ensures a == b
  {
    Digits(a);
    Digits(b);
    assert a == [a[0], a[1], a[2], a[3]] && b == [b[0], b[1], b[2], b[3]];
  }

  lemma RightRotTurns(h: Half)
    requires Clean(h)
    ensures ValueOf(h) < 0x1000_0000 && ValueOf(RightRot(h)) == Turn(ValueOf(h))
  {
    var a0: int, a1: int, a2: int, a3: int := h[0] / 2, h[1] / 2, h[2] / 2, h[3] / 2;
    var b0: int, b1: int, b2: int, b3: int := h[0] % 2, h[1] % 2, h[2] % 2, h[3] % 2;
    assert h[0] == 2 * a0 + b0 && h[1] == 2 * a1 + b1 && h[2] == 2 * a2 + b2 && h[3] == 2 * a3 + b3;
    var half := a0 + 0x80 * b1 + 0x100 * a1 + 0x8000 * b2 + 0x1_0000 * a2 + 0x80_0000 * b3 + 0x100_0000 * a3;
    assert ValueOf(h) == 2 * half + b0;
    DivModUnique(ValueOf(h), 2, half, b0);
    var r := RightRot(h);
    assert r[0] == a0 + 128 * b1 && r[1] == a1 + 128 * b2 && r[2] == a2 + 128 * b3 && r[3] == a3 + 8 * b0;
  }

  lemma TurnLast(v: nat, n: nat)
    ensures TurnBy(v, n) == if n == 0 then v else Turn(TurnBy(v, n - 1))
  {
  }

  lemma Powers0()
    ensures Pow2(0) == 1
  {
  }

  lemma TwentySeven()
    ensures Pow2(27) == 0x800_0000 && Pow2(28) == 0x1000_0000
  {
    Pow2Values();
    assert Pow2(27) == 8 * Pow2(24);
  }

  lemma Powers(n: nat)
    requires 0 < n <= 28
    ensures Pow2(n) == 2 * Pow2(n - 1) && Pow2(28 - (n - 1)) == 2 * Pow2(28 - n)
    ensures Pow2(n - 1) * Pow2(28 - n) == 0x800_0000
  {
    Pow2Add(n - 1, 28 - n);
    TwentySeven();
  }

  lemma Regroup(p: nat, q: nat, r: nat, b: nat, r': nat)
    requires r == p * b + r'
    ensures (2 * p) * q + r == p * (2 * q + b) + r'
  {
    assert (2 * p) * q == p * (2 * q);
    assert p * (2 * q + b) == p * (2 * q) + p * b;
  }

  lemma SmallQuotient(r: nat, p: nat)
    requires p > 0 && r < 2 * p
    ensures r / p < 2
  {
    if r / p >= 2 {
      MulMono(2, r / p, p, p);
      Parts(r, p);
      assert false;
    }
  }

  lemma Evenly(q: nat, b: nat, r: nat, m: nat)
    requires b < 2
    ensures Turn(2 * q + b + r * (2 * m)) == q + r * m + b * 0x800_0000
  {
    assert r * (2 * m) == 2 * (r * m);
  }

  lemma Recombine(r: nat, r': nat, b: nat, p: nat, m: nat)
    requires r == p * b + r' && p * m == 0x800_0000
    ensures r * m == r' * m + b * 0x800_0000
  {
    assert (p * b) * m == b * (p * m);
    assert (p * b + r') * m == (p * b) * m + r' * m;
  }

  /** Turning by `n` moves the low `n` bits to the top. */
  lemma {:induction false} TurnByParts(q: nat, r: nat, n: nat)
    requires n <= 28 && r < Pow2(n)
    ensures TurnBy(Pow2(n) * q + r, n) == q + r * Pow2(28 - n)
    decreases n
  {
    hide Pow2, Turn, TurnBy;
    TurnLast(Pow2(n) * q + r, n);
    if n == 0 {
      Powers0();
    } else {
      var p, m := Pow2(n - 1), Pow2(28 - n);
      var b, r' := r / p, r % p;
      Powers(n);
      Parts(r, p);
      SmallQuotient(r, p);
      TurnByParts(2 * q + b, r', n - 1);
      Regroup(p, q, r, b, r');
      Evenly(q, b, r', m);
      Recombine(r, r', b, p, m);
    }
  }

  /** Twenty-eight turns are a full turn. */
  lemma FullTurn(v: nat)
    requires v < 0x1000_0000
    ensures TurnBy(v, 28) == v
  {
    TwentySeven();
    TurnByParts(0, v, 28);
    assert Pow2(28 - 28) == 1;
  }

  lemma {:induction false} RightRotByTurns(h: Half, n: nat)
    requires Clean(h)
    ensures ValueOf(RightRotBy(h, n)) == TurnBy(ValueOf(h), n)
  {
    hide RightRot, ValueOf, Turn;
    if n > 0 {
      RightRotByTurns(h, n - 1);
      RightRotTurns(RightRotBy(h, n - 1));
    }
  }

  lemma FullRightRot(h: Half)
    requires Clean(h)
    ensures RightRotBy(h, 28) == h
  {
    hide RightRot, RightRotBy, TurnBy;
    RightRotTurns(h);
    RightRotByTurns(h, 28);
    FullTurn(ValueOf(h));
    ValueInjective(RightRotBy(h, 28), h);
  }

  lemma {:induction false} RightRotFirst(h: Half, n: nat)
    requires Clean(h)
    ensures RightRotBy(RightRot(h), n) == RightRotBy(h, n + 1)
  {
    hide RightRot;
    if n == 0 {
      assert RightRotBy(h, 0) == h;
    } else {
      RightRotFirst(h, n - 1);
    }
  }

  /** Twenty-seven turns to the right are one to the left: each undoes the other. */
  lemma LeftRotUndoes(h: Half)
    requires Clean(h)
    ensures RightRot(LeftRot(h)) == h && LeftRot(RightRot(h)) == h
  {
    hide RightRot;
    FullRightRot(h);
    RightRotFirst(h, 27);
    assert RightRotBy(h, 28) == RightRot(RightRotBy(h, 27));
  }

  predicate CleanKey(k: KeyHalves) {
    Clean(k.left) && Clean(k.right)
  }

  function TurnLeft(k: KeyHalves): (r: KeyHalves)
    requires CleanKey(k)
    ensures CleanKey(r)
  {
    KeyHalves(LeftRot(k.left), LeftRot(k.right))
  }

  function TurnRight(k: KeyHalves): (r: KeyHalves)
    requires CleanKey(k)
    ensures CleanKey(r)
  {
    KeyHalves(RightRot(k.left), RightRot(k.right))
  }

  function LeftBy(k: KeyHalves, n: nat): (r: KeyHalves)
    requires CleanKey(k)
    ensures CleanKey(r)
  {
    if n == 0 then k else TurnLeft(LeftBy(k, n - 1))
  }

  function RightBy(k: KeyHalves, n: nat): (r: KeyHalves)
    requires CleanKey(k)
    ensures CleanKey(r)
  {
    if n == 0 then k else TurnRight(RightBy(k, n - 1))
  }

  lemma TurnsUndo(k: KeyHalves)
    requires CleanKey(k)
    ensures TurnRight(TurnLeft(k)) == k
  {
    hide LeftRot, RightRot;
    LeftRotUndoes(k.left);
    LeftRotUndoes(k.right);
  }

  lemma {:induction false} RightByHalves(k: KeyHalves, n: nat)
    requires CleanKey(k)
    ensures RightBy(k, n) == KeyHalves(RightRotBy(k.left, n), RightRotBy(k.right, n))
  {
    hide RightRot;
    if n > 0 {
      RightByHalves(k, n - 1);
    }
  }

  lemma {:induction false} RightFirst(k: KeyHalves, n: nat)
    requires CleanKey(k)
    ensures RightBy(TurnRight(k), n) == RightBy(k, n + 1)
  {
    hide TurnRight;
    if n == 0 {
      assert RightBy(k, 0) == k;
    } else {
      RightFirst(k, n - 1);
    }
  }

  lemma {:induction false} RightUndoesLeft(k: KeyHalves, n: nat)
    requires CleanKey(k)
    ensures RightBy(LeftBy(k, n), n) == k
  {
    hide TurnLeft, TurnRight;
    if n > 0 {
      RightUndoesLeft(k, n - 1);
      TurnsUndo(LeftBy(k, n - 1));
      RightFirst(LeftBy(k, n), n - 1);
    }
  }

  /** A full turn to the left. */
  lemma FullLeft(k: KeyHalves)
    requires CleanKey(k)
    ensures LeftBy(k, 28) == k
  {
    hide LeftBy, RightBy, RightRotBy;
    var x := LeftBy(k, 28);
    RightUndoesLeft(k, 28);
    RightByHalves(x, 28);
    FullRightRot(x.left);
    FullRightRot(x.right);
  }

  // ----- The two orders of subkeys

  /** How far left the key halves have turned when round `i` uses them: one place before rounds 0, 1, 8
      and 15, two before the others. */
  function Turned(i: nat): nat {
    if i == 0 then 1
    else if i == 1 || i == 8 || i == 15 then Turned(i - 1) + 1
    else Turned(i - 1) + 2
  }

  function LeftKeys(k: KeyHalves): (ks: seq<KeyHalves>)
    requires CleanKey(k)
    ensures |ks| == 16
  {
    seq(16, i requires 0 <= i < 16 => LeftBy(k, Turned(i)))
  }

  /** The subkeys in the order a direction uses them. */
  function Order(k: KeyHalves, toRight: bool): (ks: seq<KeyHalves>)
    requires CleanKey(k)
    ensures |ks| == 16
  {
    if toRight then Reverse(LeftKeys(k)) else LeftKeys(k)
  }

  // ----- The cipher

  function HalfXor(a: Half, b: Half): Half {
    [ByteXor(a[0], b[0]), ByteXor(a[1], b[1]), ByteXor(a[2], b[2]), ByteXor(a[3], b[3])]
  }

  lemma HalfXorTwice(a: Half, b: Half)
    ensures HalfXor(HalfXor(a, b), b) == a
  {
    hide ByteXor;
    ByteXorTwice(a[0], b[0]);
    ByteXorTwice(a[1], b[1]);
    ByteXorTwice(a[2], b[2]);
    ByteXorTwice(a[3], b[3]);
  }

  function Net(f: RoundFunction, k8: Byte, hash: bool): Network<Half, KeyHalves> {
    Network(HalfXor, (k, h) => f(k, k8, hash, h))
  }

  lemma MasksUndo(f: RoundFunction, k8: Byte, hash: bool)
    ensures MaskUndoes(Net(f, k8, hash))
  {
    hide HalfXor;
    forall a, b
      ensures Net(f, k8, hash).mask(Net(f, k8, hash).mask(a, b), b) == a
    {
      HalfXorTwice(a, b);
    }
  }

  function HighNibble(a: Byte): Byte {
    a / 0x10
  }

  /** `(a << 4) | (b >> 4)` in a byte. */
  function Straddle(a: Byte, b: Byte): Byte {
    a % 0x10 * 0x10 + b / 0x10
  }

  function SplitKey(key: Byte8): (k: KeyHalves)
    ensures CleanKey(k)
  {
    KeyHalves([Straddle(key[2], key[3]), Straddle(key[1], key[2]), Straddle(key[0], key[1]), HighNibble(key[0])],
              [key[6], key[5], key[4], key[3] % 0x10])
  }

  function ToBlock(s: Byte8): Block<Half> {
    Block(s[..4], s[4..])
  }

  function ToBytes(b: Block<Half>): Byte8 {
    b.l + b.r
  }

  /** The rounds and the exchange of the halves after the last one. */
  function Core(f: RoundFunction, key: Byte8, toRight: bool, hash: bool, d: Byte8): Byte8 {
    ToBytes(Swap(Rounds(Net(f, key[7], hash), Order(SplitKey(key), toRight), ToBlock(d))))
  }

  function Crypt(f: RoundFunction, key: Byte8, mode: Mode, d: Byte8): Byte8 {
    var x := if mode.ip then Initial(d) else d;
    var y := Core(f, key, mode.toRight, mode.hash, x);
    if mode.ip1 then Final(y) else y
  }

  lemma BlockBytes(b: Block<Half>, s: Byte8)
    ensures ToBlock(ToBytes(b)) == b && ToBytes(ToBlock(s)) == s
  {
  }

  lemma CoreInverse(f: RoundFunction, key: Byte8, toRight: bool, hash: bool, d: Byte8)
    ensures Core(f, key, !toRight, hash, Core(f, key, toRight, hash, d)) == d
  {
    hide SplitKey, Net, LeftKeys, ToBlock, ToBytes;
    var n := Net(f, key[7], hash);
    var ks := Order(SplitKey(key), toRight);
    var y := Swap(Rounds(n, ks, ToBlock(d)));
    MasksUndo(f, key[7], hash);
    ReverseTwice(LeftKeys(SplitKey(key)));
    ReversedRoundsUndo(n, ks, ToBlock(d));
    BlockBytes(y, d);
  }

  /** The mode that undoes another: the other direction, the permutations trading places. */
  function Opposite(mode: Mode): Mode {
    Mode(mode.ip1, mode.ip, !mode.toRight, mode.hash)
  }

  /** The run to the right undoes the run to the left and the other way round, for every key. */
  lemma CryptInverse(f: RoundFunction, key: Byte8, mode: Mode, d: Byte8)
    ensures Crypt(f, key, Opposite(mode), Crypt(f, key, mode, d)) == d
  {
    hide Initial, Final, Core;
    var x := if mode.ip then Initial(d) else d;
    var y := Core(f, key, mode.toRight, mode.hash, x);
    CoreInverse(f, key, mode.toRight, mode.hash, x);
    InitialFinal(y);
    FinalInitial(d);
  }
}
