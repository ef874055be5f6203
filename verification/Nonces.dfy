/** The twelve bytes of message number and counter on a connection: GCM's nonce, and what the initial vectors of
    the other block ciphers are digests of. Both ends encrypt under one key and both count from zero, so that no
    twelve bytes are used twice rests on the numbers of the messages they send. */
module Nonces {
  import opened Bits
  import opened Wire
  import opened Session
  import opened Messages

  /** One use of a nonce. */
  datatype Use = Use(from: End, id: Word32, tx: nat)

  /** The modes that count their messages. */
  predicate Counts(mode: Byte) {
    mode == AES || mode == TDES || mode == GCM
  }

  ghost predicate Counting(l: Link) {
    Valid(l.left) && Valid(l.right) && Counts(l.left.mode) && Counts(l.right.mode)
  }

  function At(l: Link, b: End): Ctx {
    if b == Left then l.left else l.right
  }

  ghost predicate Goes(p: Primitives, l: Link, e: Event)
    requires Lawful(p) && Counting(l)
  {
    e.Send? && Encrypt(p, At(l, e.from), e.plain, e.capacity, e.id).Done?
  }

  lemma SendTx(p: Primitives, c: Ctx, d: Bytes, capacity: nat, id: Word32)
    requires Lawful(p) && Valid(c) && Counts(c.mode)
    ensures Encrypt(p, c, d, capacity, id).Done? ==> Encrypt(p, c, d, capacity, id).ctx.tx == Tick(c.tx)
  {
    hide Lawful, Tick;
  }

  /** Every message that goes out moves its sender's counter by one, and nothing else moves a counter. */
  lemma StepTx(p: Primitives, l: Link, e: Event)
    requires Lawful(p) && Counting(l)
    ensures Counting(Step(p, l, e))
    ensures forall b: End ::
      At(Step(p, l, e), b).tx == if Goes(p, l, e) && e.from == b then Tick(At(l, b).tx) else At(l, b).tx
  {
    hide Encrypt, Decrypt, Lawful, Tick;
    match e
    case Send(b, id, d, capacity) =>
      SameKeys(p, At(l, b), d, capacity, id);
      SendTx(p, At(l, b), d, capacity, id);
    case Receive(b) =>
      var under := if b == Left then l.toLeft else l.toRight;
      if under != [] {
        SameKeys(p, At(l, b), under[0].data, 0, under[0].id);
        DirectionsIndependent(p, At(l, b), under[0].data, 0, under[0].id);
      }
    case Forged(b, id, d) =>
      SameKeys(p, At(l, b), d, 0, id);
      DirectionsIndependent(p, At(l, b), d, 0, id);
  }

  /** What the two ends use in a run, in the order of their messages. */
  ghost function Uses(p: Primitives, l: Link, run: seq<Event>): (us: seq<Use>)
    requires Lawful(p) && Counting(l)
    ensures |us| <= |run|
    decreases |run|
  {
    if run == [] then []
    else
      StepTx(p, l, run[0]);
      var rest := Uses(p, Step(p, l, run[0]), run[1..]);
      if Goes(p, l, run[0]) then [Use(run[0].from, run[0].id, At(l, run[0].from).tx)] + rest else rest
  }

  // ----- How many messages came before

  /** How many of the first `n` uses are by `b`. */
  function Rank(us: seq<Use>, b: End, n: nat): (k: nat)
    requires n <= |us|
    ensures k <= n
  {
    if n == 0 then 0 else (if us[0].from == b then 1 else 0) + Rank(us[1..], b, n - 1)
  }

  lemma {:induction false} RankGrows(us: seq<Use>, b: End, i: nat, j: nat)
    requires i < j <= |us|
    ensures Rank(us, b, i) + (if us[i].from == b then 1 else 0) <= Rank(us, b, j)
  {
    if i > 0 {
      RankGrows(us[1..], b, i - 1, j - 1);
    }
  }

  lemma TickThenMore(t: nat, k: nat)
    requires t < COUNTERS
    ensures (Tick(t) + k) % COUNTERS == (t + 1 + k) % COUNTERS
  {
    if t + 1 < COUNTERS {
      Small(t + 1, COUNTERS);
    } else {
      assert Tick(t) == 0;
      SameRemainder(k, COUNTERS + k, COUNTERS);
    }
  }

  /** Each use carries its sender's first counter plus the number of uses by the same end before it. */
  lemma {:induction false} TxIsRank(p: Primitives, l: Link, run: seq<Event>, i: nat)
    requires Lawful(p) && Counting(l) && i < |Uses(p, l, run)|
    ensures
      var us := Uses(p, l, run);
      us[i].tx == (At(l, us[i].from).tx + Rank(us, us[i].from, i)) % COUNTERS
    decreases |run|
  {
    hide Step, Goes, Counts, Tick;
    StepTx(p, l, run[0]);
    var us, rest := Uses(p, l, run), Uses(p, Step(p, l, run[0]), run[1..]);
    if !Goes(p, l, run[0]) {
      TxIsRank(p, Step(p, l, run[0]), run[1..], i);
    } else if i == 0 {
      Small(us[0].tx, COUNTERS);
    } else {
      assert us[1..] == rest;
      TxIsRank(p, Step(p, l, run[0]), run[1..], i - 1);
      if us[0].from == us[i].from {
        TickThenMore(At(l, us[i].from).tx, Rank(rest, us[i].from, i - 1));
      }
    }
  }

  // ----- When a nonce comes back

  function NonceOf(u: Use): Bytes {
    Nonce(u.id, u.tx)
  }

  lemma OppositeMultiple(d: int, m: nat)
    requires m > 0
    ensures d % m == 0 <==> -d % m == 0
  {
    if d % m == 0 {
      DivModUnique(-d, m, -(d / m), 0);
    }
    if -d % m == 0 {
      DivModUnique(d, m, -(-d / m), 0);
    }
  }

  /** Over every run, from equal counters on, two messages, of one end or of both, use the same nonce if and only
      if they carry the same number and their ranks among their senders' messages agree modulo 2^64. */
  lemma SameNonce(p: Primitives, l: Link, run: seq<Event>, i: nat, j: nat)
    requires Lawful(p) && Counting(l) && l.left.tx == l.right.tx
    requires i < |Uses(p, l, run)| && j < |Uses(p, l, run)|
    ensures
      var us := Uses(p, l, run);
      NonceOf(us[i]) == NonceOf(us[j]) <==>
        us[i].id == us[j].id && (Rank(us, us[i].from, i) - Rank(us, us[j].from, j)) % COUNTERS == 0
  {
    hide Nonce, Rank, Uses;
    var us := Uses(p, l, run);
    var t, a, b := l.left.tx, Rank(us, us[i].from, i), Rank(us, us[j].from, j);
    TxIsRank(p, l, run, i);
    TxIsRank(p, l, run, j);
    NonceInjective(us[i].id, us[i].tx, us[j].id, us[j].tx);
    if a <= b {
      SameRemainder(t + a, t + b, COUNTERS);
      OppositeMultiple(b - a, COUNTERS);
    } else {
      SameRemainder(t + b, t + a, COUNTERS);
    }
  }

  /** The ends keep to the numbers that are theirs. */
  ghost predicate Speaks(run: seq<Event>, left: set<Word32>, right: set<Word32>) {
    forall i :: 0 <= i < |run| && run[i].Send? ==> run[i].id in if run[i].from == Left then left else right
  }

  /** Neither end sends more than 2^64 messages. */
  ghost predicate Bounded(us: seq<Use>) {
    Rank(us, Left, |us|) <= COUNTERS && Rank(us, Right, |us|) <= COUNTERS
  }

  ghost predicate NoneTwice(us: seq<Use>) {
    forall i, j :: 0 <= i < j < |us| ==> NonceOf(us[i]) != NonceOf(us[j])
  }

  lemma {:induction false} UsesSpoken(p: Primitives, l: Link, run: seq<Event>, left: set<Word32>, right: set<Word32>)
    requires Lawful(p) && Counting(l) && Speaks(run, left, right)
    ensures forall u :: u in Uses(p, l, run) ==> u.id in if u.from == Left then left else right
    decreases |run|
  {
    hide Step, Encrypt, Lawful;
    if run != [] {
      StepTx(p, l, run[0]);
      assert forall i :: 0 <= i < |run[1..]| ==> run[1..][i] == run[i + 1];
      UsesSpoken(p, Step(p, l, run[0]), run[1..], left, right);
    }
  }

  /** Two uses by one end are fewer than 2^64 messages of it apart. */
  lemma CloserThanAll(us: seq<Use>, i: nat, j: nat)
    requires i < j < |us| && us[i].from == us[j].from && Bounded(us)
    ensures (Rank(us, us[i].from, i) - Rank(us, us[j].from, j)) % COUNTERS != 0
  {
    hide Rank;
    var a, b := Rank(us, us[i].from, i), Rank(us, us[j].from, j);
    RankGrows(us, us[i].from, i, j);
    RankGrows(us, us[j].from, j, |us|);
    Small(b - a, COUNTERS);
    OppositeMultiple(b - a, COUNTERS);
  }

  /** If the two ends have no number in common, no nonce is used twice while neither has sent more than 2^64
      messages. */
  lemma DisjointNumbers(p: Primitives, l: Link, run: seq<Event>, left: set<Word32>, right: set<Word32>)
    requires Lawful(p) && Counting(l) && l.left.tx == l.right.tx
    requires left !! right && Speaks(run, left, right) && Bounded(Uses(p, l, run))
    ensures NoneTwice(Uses(p, l, run))
  {
    hide Uses, Rank, NonceOf, Counting;
    var us := Uses(p, l, run);
    UsesSpoken(p, l, run, left, right);
    forall i, j | 0 <= i < j < |us|
      ensures NonceOf(us[i]) != NonceOf(us[j])
    {
      SameNonce(p, l, run, i, j);
      assert us[i] in us && us[j] in us;
      if us[i].from == us[j].from {
        CloserThanAll(us, i, j);
      }
    }
  }

  /** A number both ends may use: the first message of each. */
  function Clash(id: Word32): seq<Event> {
    [Send(Left, id, seq(48, _ => 0), 64), Send(Right, id, seq(48, _ => 0), 64)]
  }

  lemma ClashUses(p: Primitives, l: Link, id: Word32)
    requires Lawful(p) && Counting(l)
    ensures Uses(p, l, Clash(id)) == [Use(Left, id, l.left.tx), Use(Right, id, l.right.tx)]
  {
    hide Encrypt, Lawful;
    var run := Clash(id);
    EncryptSucceeds(p, l.left, run[0].plain, 64, id);
    EncryptSucceeds(p, l.right, run[1].plain, 64, id);
    StepTx(p, l, run[0]);
    assert run[1..] == [run[1]] && run[1..][1..] == [];
    assert Step(p, l, run[0]).right == l.right;
  }

  lemma SharedNumber(p: Primitives, l: Link, id: Word32)
    requires Lawful(p) && Counting(l) && l.left.tx == l.right.tx
    ensures Bounded(Uses(p, l, Clash(id))) && !NoneTwice(Uses(p, l, Clash(id)))
  {
    ClashUses(p, l, id);
    var us := Uses(p, l, Clash(id));
    assert NonceOf(us[0]) == NonceOf(us[1]);
  }

  ghost predicate Safe(p: Primitives, l: Link, left: set<Word32>, right: set<Word32>)
    requires Lawful(p) && Counting(l)
  {
    forall run :: Speaks(run, left, right) && Bounded(Uses(p, l, run)) ==> NoneTwice(Uses(p, l, run))
  }

  /** That the numbers of the two directions are disjoint is exactly what keeps nonces from being used twice: from
      fresh contexts under one key, no run with at most 2^64 messages in either direction uses one twice if and
      only if no number belongs to both ends. */
  lemma SafeIffDirectional(p: Primitives, mode: Byte, key: Bytes, left: set<Word32>, right: set<Word32>)
    requires Lawful(p) && KeyOk(mode, |key|) && Counts(mode)
    ensures Safe(p, Link(Fresh(mode, key), Fresh(mode, key), [], []), left, right) <==> left !! right
  {
    hide Uses, Bounded, NoneTwice, Lawful;
    var l := Link(Fresh(mode, key), Fresh(mode, key), [], []);
    if left !! right {
      forall run | Speaks(run, left, right) && Bounded(Uses(p, l, run))
        ensures NoneTwice(Uses(p, l, run))
      {
        DisjointNumbers(p, l, run, left, right);
      }
    } else {
      var id :| id in left && id in right;
      SharedNumber(p, l, id);
      assert Speaks(Clash(id), left, right);
    }
  }

  /** A client sends requests and management messages, the server control words: they share no number. */
  lemma ClientAndServer(p: Primitives, mode: Byte, key: Bytes)
    requires Lawful(p) && KeyOk(mode, |key|) && Counts(mode)
    ensures Safe(p, Link(Fresh(mode, key), Fresh(mode, key), [], []), {ECM, EMM}, {CW})
  {
    SafeIffDirectional(p, mode, key, {ECM, EMM}, {CW});
  }
}
