/** DES as the program's table implementation runs it: on 32-bit halves held in registers, with the
    initial and final permutation done by exchanging bits between the halves under masks. The round
    function - eight table look-ups - is a parameter, and so is the 32-word key schedule. */
module TableDes {
  import opened Feistel

  /** Two subkey words. */
  type RoundKey = (bv32, bv32)

  type RoundFunction = (RoundKey, bv32) -> bv32

  /** The distances between the bits that trade places. */
  datatype Distance = One | Two | Four | Eight | Sixteen

  function Down(x: bv32, d: Distance): bv32 {
    match d
    case One => x >> 1
    case Two => x >> 2
    case Four => x >> 4
    case Eight => x >> 8
    case Sixteen => x >> 16
  }

  function Up(x: bv32, d: Distance): bv32 {
    match d
    case One => x << 1
    case Two => x << 2
    case Four => x << 4
    case Eight => x << 8
    case Sixteen => x << 16
  }

  function Mask(d: Distance): bv32 {
    match d
    case One => 0x55555555
    case Two => 0x33333333
    case Four => 0x0f0f0f0f
    case Eight => 0x00ff00ff
    case Sixteen => 0x0000ffff
  }

  /** Where the selected bits differ. */
  function Pick(a: bv32, b: bv32, d: Distance): bv32 {
    (Down(a, d) ^ b) & Mask(d)
  }

  function Flip(x: bv32, t: bv32): bv32 {
    x ^ t
  }

  /** The bits of `b` under the mask and the bits of `a` that lie `d` places higher trade places. */
  function Exchange(a: bv32, b: bv32, d: Distance): (bv32, bv32) {
    var t := Pick(a, b, d);
    (Flip(a, Up(t, d)), Flip(b, t))
  }

  function RotateLeft1(x: bv32): bv32 {
    (x << 1) | (x >> 31)
  }

  function RotateRight1(x: bv32): bv32 {
    (x >> 1) | (x << 31)
  }

  /** The initial permutation; the halves change places and are turned by one bit. */
  function Initial(d: Block<bv32>): Block<bv32> {
    var u0, r0 := d.l, d.r;
    var (r1, u1) := Exchange(r0, u0, Four);
    var (u2, r2) := Exchange(u1, r1, Sixteen);
    var (r3, u3) := Exchange(r2, u2, Two);
    var (u4, r4) := Exchange(u3, r3, Eight);
    var (r5, u5) := Exchange(r4, u4, One);
    Block(RotateLeft1(r5), RotateLeft1(u5))
  }

  function Final(b: Block<bv32>): Block<bv32> {
    var l0, r0 := RotateRight1(b.l), RotateRight1(b.r);
    var (r1, l1) := Exchange(r0, l0, One);
    var (l2, r2) := Exchange(l1, r1, Eight);
    var (r3, l3) := Exchange(r2, l2, Two);
    var (l4, r4) := Exchange(l3, r3, Sixteen);
    var (r5, l5) := Exchange(r4, l4, Four);
    Block(l5, r5)
  }

  lemma ReselectOne(a: bv32, b: bv32)
    ensures var t := ((a >> 1) ^ b) & 0x55555555; (((a ^ (t << 1)) >> 1) ^ (b ^ t)) & 0x55555555 == t
  {
  }

  lemma ReselectTwo(a: bv32, b: bv32)
    ensures var t := ((a >> 2) ^ b) & 0x33333333; (((a ^ (t << 2)) >> 2) ^ (b ^ t)) & 0x33333333 == t
  {
  }

  lemma ReselectFour(a: bv32, b: bv32)
    ensures var t := ((a >> 4) ^ b) & 0x0f0f0f0f; (((a ^ (t << 4)) >> 4) ^ (b ^ t)) & 0x0f0f0f0f == t
  {
  }

  lemma ReselectEight(a: bv32, b: bv32)
    ensures var t := ((a >> 8) ^ b) & 0x00ff00ff; (((a ^ (t << 8)) >> 8) ^ (b ^ t)) & 0x00ff00ff == t
  {
  }

  lemma ReselectSixteen(a: bv32, b: bv32)
    ensures var t := ((a >> 16) ^ b) & 0x0000ffff; (((a ^ (t << 16)) >> 16) ^ (b ^ t)) & 0x0000ffff == t
  {
  }

  lemma RepickOne(a: bv32, b: bv32)
    ensures var t := Pick(a, b, One); Pick(Flip(a, Up(t, One)), Flip(b, t), One) == t
  {
    ReselectOne(a, b);
  }

  lemma RepickTwo(a: bv32, b: bv32)
    ensures var t := Pick(a, b, Two); Pick(Flip(a, Up(t, Two)), Flip(b, t), Two) == t
  {
    ReselectTwo(a, b);
  }

  lemma RepickFour(a: bv32, b: bv32)
    ensures var t := Pick(a, b, Four); Pick(Flip(a, Up(t, Four)), Flip(b, t), Four) == t
  {
    ReselectFour(a, b);
  }

  lemma RepickEight(a: bv32, b: bv32)
    ensures var t := Pick(a, b, Eight); Pick(Flip(a, Up(t, Eight)), Flip(b, t), Eight) == t
  {
    ReselectEight(a, b);
  }

  lemma RepickSixteen(a: bv32, b: bv32)
    ensures var t := Pick(a, b, Sixteen); Pick(Flip(a, Up(t, Sixteen)), Flip(b, t), Sixteen) == t
  {
    ReselectSixteen(a, b);
  }

  /** After an exchange the same mask selects the same difference. */
  lemma Repick(a: bv32, b: bv32, d: Distance)
    ensures var t := Pick(a, b, d); Pick(Flip(a, Up(t, d)), Flip(b, t), d) == t
  {
    hide Pick, Flip, Up;
    match d
    case One => RepickOne(a, b);
    case Two => RepickTwo(a, b);
    case Four => RepickFour(a, b);
    case Eight => RepickEight(a, b);
    case Sixteen => RepickSixteen(a, b);
  }

  lemma FlipTwice(x: bv32, t: bv32)
    ensures Flip(Flip(x, t), t) == x
  {
  }

  /** Exchanging the same bits again puts them back. */
  lemma ExchangeTwice(a: bv32, b: bv32, d: Distance)
    ensures var (a1, b1) := Exchange(a, b, d); Exchange(a1, b1, d) == (a, b)
  {
    hide Up, Pick, Flip;
    var t := Pick(a, b, d);
    Repick(a, b, d);
    FlipTwice(a, Up(t, d));
    FlipTwice(b, t);
  }

  lemma RotateBack(x: bv32)
    ensures RotateRight1(RotateLeft1(x)) == x && RotateLeft1(RotateRight1(x)) == x
  {
  }

  /** The final permutation undoes the initial one once the halves are exchanged. */
  lemma FinalInitial(d: Block<bv32>)
    ensures Final(Swap(Initial(d))) == d
  {
    hide Exchange, RotateLeft1, RotateRight1;
    var u0, r0 := d.l, d.r;
    var (r1, u1) := Exchange(r0, u0, Four);
    var (u2, r2) := Exchange(u1, r1, Sixteen);
    var (r3, u3) := Exchange(r2, u2, Two);
    var (u4, r4) := Exchange(u3, r3, Eight);
    var (r5, u5) := Exchange(r4, u4, One);
    RotateBack(r5);
    RotateBack(u5);
    ExchangeTwice(r4, u4, One);
    ExchangeTwice(u3, r3, Eight);
    ExchangeTwice(r2, u2, Two);
    ExchangeTwice(u1, r1, Sixteen);
    ExchangeTwice(r0, u0, Four);
  }

  /** And the other way round. */
  lemma InitialFinal(b: Block<bv32>)
    ensures Initial(Final(b)) == Swap(b)
  {
    hide Exchange, RotateLeft1, RotateRight1;
    var l0, r0 := RotateRight1(b.l), RotateRight1(b.r);
    var (r1, l1) := Exchange(r0, l0, One);
    var (l2, r2) := Exchange(l1, r1, Eight);
    var (r3, l3) := Exchange(r2, l2, Two);
    var (l4, r4) := Exchange(l3, r3, Sixteen);
    RotateBack(b.l);
    RotateBack(b.r);
    ExchangeTwice(r4, l4, Four);
    ExchangeTwice(l3, r3, Sixteen);
    ExchangeTwice(r2, l2, Two);
    ExchangeTwice(l1, r1, Eight);
    ExchangeTwice(r0, l0, One);
  }

  // ----- The cipher

  /** A key schedule: sixteen pairs of subkey words. */
  type Schedule = k: seq<bv32> | |k| == 32 witness seq(32, _ => 0)

  function RoundKeys(ks: Schedule): (rs: seq<RoundKey>)
    ensures |rs| == 16
  {
    seq(16, i requires 0 <= i < 16 => (ks[2 * i], ks[2 * i + 1]))
  }

  function Net(f: RoundFunction): Network<bv32, RoundKey> {
    Network(Flip, f)
  }

  /** The subkeys in the order a direction uses them. */
  function Order(ks: Schedule, encrypt: bool): (rs: seq<RoundKey>)
    ensures |rs| == 16
  {
    if encrypt then RoundKeys(ks) else Reverse(RoundKeys(ks))
  }

  function Crypt(f: RoundFunction, ks: Schedule, encrypt: bool, d: Block<bv32>): Block<bv32> {
    Final(Rounds(Net(f), Order(ks, encrypt), Initial(d)))
  }

  lemma MasksUndo(f: RoundFunction)
    ensures MaskUndoes(Net(f))
  {
    forall a, b
      ensures Net(f).mask(Net(f).mask(a, b), b) == a
    {
      hide Flip;
      FlipTwice(a, b);
    }
  }

  /** Each direction undoes the other, whatever the round function and the schedule are. */
  lemma CryptInverse(f: RoundFunction, ks: Schedule, encrypt: bool, d: Block<bv32>)
    ensures Crypt(f, ks, !encrypt, Crypt(f, ks, encrypt, d)) == d
  {
    hide Initial, Final, RoundKeys, Net;
    var x := Initial(d);
    var y := Rounds(Net(f), Order(ks, encrypt), x);
    MasksUndo(f);
    ReverseTwice(RoundKeys(ks));
    ReversedRoundsUndo(Net(f), Order(ks, encrypt), x);
    InitialFinal(y);
    FinalInitial(d);
  }

  lemma ReversedKeys(ks: Schedule)
    ensures forall j | 0 <= j < 16 :: Reverse(RoundKeys(ks))[j] == (ks[30 - 2 * j], ks[31 - 2 * j])
  {
    forall j | 0 <= j < 16
      ensures Reverse(RoundKeys(ks))[j] == (ks[30 - 2 * j], ks[31 - 2 * j])
    {
      ReverseAt(RoundKeys(ks), j);
    }
  }

  lemma ForwardKeys(ks: Schedule)
    ensures forall j | 0 <= j < 16 :: RoundKeys(ks)[j] == (ks[2 * j], ks[2 * j + 1])
  {
  }

  lemma FlipIs(x: bv32, t: bv32)
    ensures Flip(x, t) == x ^ t
  {
  }

  /** The new half of a round is the old one masked with what the round makes of the other. */
  ghost predicate Masked(f: RoundFunction, k: RoundKey, a: bv32, b: bv32, c: bv32) {
    c == a ^ f(k, b)
  }

  lemma FlipMasks(f: RoundFunction, k: RoundKey, a: bv32, b: bv32)
    ensures Masked(f, k, a, b, Flip(a, f(k, b)))
  {
    FlipIs(a, f(k, b));
  }

  /** Both directions round by round: the schedule is read from the front to encipher, pair by pair, and from the
      back to decipher. */
  lemma CryptEquations(f: RoundFunction, ks: Schedule, encrypt: bool, d: Block<bv32>) returns (h: seq<bv32>)
    ensures |h| == 18 && Initial(d) == Block(h[0], h[1])
    ensures encrypt ==> forall i | 0 <= i < 16 :: Masked(f, (ks[2 * i], ks[2 * i + 1]), h[i], h[i + 1], h[i + 2])
    ensures !encrypt ==> forall i | 0 <= i < 16 :: Masked(f, (ks[30 - 2 * i], ks[31 - 2 * i]), h[i], h[i + 1], h[i + 2])
    ensures Crypt(f, ks, encrypt, d) == Final(Block(h[16], h[17]))
  {
    hide Initial, Final, Flip, RoundKeys, Rounds, Masked;
    ForwardKeys(ks);
    ReversedKeys(ks);
    var rs := Order(ks, encrypt);
    h := Halves(Net(f), rs, Initial(d));
    forall i | 0 <= i < 16
      ensures Masked(f, rs[i], h[i], h[i + 1], h[i + 2])
    {
      FlipMasks(f, rs[i], h[i], h[i + 1]);
    }
  }

  /** Two rounds leave the halves where they were: each half has absorbed the other once. */
  lemma TwoRounds(n: Network<bv32, RoundKey>, ks: seq<RoundKey>, i: nat, b: Block<bv32>)
    requires i + 2 <= |ks|
    ensures var x := Rounds(n, ks[..i], b);
            var l := n.mask(x.l, n.f(ks[i], x.r));
            Rounds(n, ks[..i + 2], b) == Block(l, n.mask(x.r, n.f(ks[i + 1], l)))
  {
    assert ks[..i + 2] == (ks[..i] + [ks[i]]) + [ks[i + 1]];
    RoundsSnoc(n, ks[..i] + [ks[i]], ks[i + 1], b);
    RoundsSnoc(n, ks[..i], ks[i], b);
  }

  /** Four half rounds, the two halves taking turns; `a`, `b`, `c`, `e` index the subkeys. */
  method FourRounds(l0: bv32, r0: bv32, f: RoundFunction, ks: Schedule, a: nat, b: nat, c: nat, e: nat,
                    ghost rs: seq<RoundKey>, ghost i: nat, ghost x: Block<bv32>)
    returns (l: bv32, r: bv32)
    requires i + 4 <= |rs| && Block(l0, r0) == Rounds(Net(f), rs[..i], x)
    requires a < 31 && b < 31 && c < 31 && e < 31
    requires rs[i] == (ks[a], ks[a + 1]) && rs[i + 1] == (ks[b], ks[b + 1])
    requires rs[i + 2] == (ks[c], ks[c + 1]) && rs[i + 3] == (ks[e], ks[e + 1])
    ensures Block(l, r) == Rounds(Net(f), rs[..i + 4], x)
  {
    hide Flip, Rounds;
    TwoRounds(Net(f), rs, i, x);
    TwoRounds(Net(f), rs, i + 2, x);
    l, r := l0, r0;
    l := Flip(l, f((ks[a], ks[a + 1]), r));
    r := Flip(r, f((ks[b], ks[b + 1]), l));
    l := Flip(l, f((ks[c], ks[c + 1]), r));
    r := Flip(r, f((ks[e], ks[e + 1]), l));
  }

  lemma NoRounds(n: Network<bv32, RoundKey>, ks: seq<RoundKey>, b: Block<bv32>)
    ensures Rounds(n, ks[..0], b) == b
  {
  }

  /** The loop that reads the schedule from the front, four rounds a pass. */
  method Forwards(l0: bv32, r0: bv32, ks: Schedule, f: RoundFunction) returns (l: bv32, r: bv32)
    ensures Block(l, r) == Rounds(Net(f), Order(ks, true), Block(l0, r0))
  {
    hide Rounds, Flip, Net, RoundKeys;
    ForwardKeys(ks);
    ghost var x, rs := Block(l0, r0), Order(ks, true);
    l, r := l0, r0;
    NoRounds(Net(f), rs, x);
    var i := 0;
    while i < 32
      invariant 0 <= i <= 32 && i % 8 == 0
      invariant Block(l, r) == Rounds(Net(f), rs[..i / 2], x)
    {
      l, r := FourRounds(l, r, f, ks, i, i + 2, i + 4, i + 6, rs, i / 2, x);
      i := i + 8;
    }
    assert rs[..16] == rs;
  }

  /** And the one that reads it from the back. */
  method Backwards(l0: bv32, r0: bv32, ks: Schedule, f: RoundFunction) returns (l: bv32, r: bv32)
    ensures Block(l, r) == Rounds(Net(f), Order(ks, false), Block(l0, r0))
  {
    hide Rounds, Flip, Net, RoundKeys;
    ReversedKeys(ks);
    ghost var x, rs := Block(l0, r0), Order(ks, false);
    l, r := l0, r0;
    NoRounds(Net(f), rs, x);
    var i := 30;
    while i > 0
      invariant -2 <= i <= 30 && i % 8 == 6
      invariant Block(l, r) == Rounds(Net(f), rs[..(30 - i) / 2], x)
    {
      l, r := FourRounds(l, r, f, ks, i, i - 2, i - 4, i - 6, rs, (30 - i) / 2, x);
      i := i - 8;
    }
    assert rs[..16] == rs;
  }

  method EncryptInt(data: array<bv32>, ks: Schedule, f: RoundFunction, encrypt: bool)
    requires data.Length == 2
    modifies data
    ensures Block(data[0], data[1]) == Crypt(f, ks, encrypt, Block(old(data[0]), old(data[1])))
  {
    hide Initial, Final, Rounds, Order;
    var start := Initial(Block(data[0], data[1]));
    var l, r := start.l, start.r;
    if encrypt {
      l, r := Forwards(l, r, ks, f);
    } else {
      l, r := Backwards(l, r, ks, f);
    }
    var end := Final(Block(l, r));
    data[0] := end.l;
    data[1] := end.r;
  }
}
