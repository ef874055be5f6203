/** Control word requests as a state machine. A request is two atomic steps, the look into the cache and, on a
    miss, the readers' answer; requests of different threads interleave freely, and the cache is cleaned and
    reconfigured in between. */
module EcmModel {
  import opened Bits
  import opened Common
  import opened CacheModel
  import opened CacheRuns
  import opened HopControl

  const MAX_SIZE: nat := 256

  datatype Request = Request(key: Key, length: Word, hop: Byte)

  datatype ControlWord = Cw(cw: seq<Byte>, hop: Byte)

  /** What a reader produced, when it was stored and for how long. */
  datatype Produced = Produced(key: Key, cw: seq<Byte>, hop: Byte, stored: int, timeout: int)

  datatype Outcome = Refused | Blocked | Served(cw: seq<Byte>, hop: Byte) | Waiting | NotFound

  datatype Counters = Counters(total: int, hits: int, misses: int, success: int, fail: int)

  datatype World = World(cache: State, limit: Byte, counters: Counters, blockedHits: int, blockedMisses: int,
    waiting: multiset<Request>, log: seq<Produced>)

  predicate WellFormed(r: Request) {
    0 < r.length <= MAX_SIZE && !(r.key.caid == 0 && r.key.sid == 0)
  }

  /** The client's own limit; zero means none. */
  predicate Allows(r: Request, served: Byte) {
    r.hop == 0 || served <= r.hop
  }

  predicate MayServe(r: Request, source: Byte, limit: Byte) {
    Increment(source, limit) <= limit && Allows(r, Increment(source, limit))
  }

  function AskReply(w: World, r: Request, now: int): Outcome {
    if !WellFormed(r) then Refused
    else match Reply(w.cache, r.key, now)
         case Miss => Waiting
         case Hit(cw, source) =>
           if MayServe(r, source, w.limit) then Served(cw, Increment(source, w.limit)) else Blocked
  }

  function Asked(w: World, r: Request, now: int): World {
    if !WellFormed(r) then w
    else
      var c := w.counters.(total := w.counters.total + 1);
      var v := w.(cache := Step(w.cache, Op.Find(r.key, now)));
      match AskReply(w, r, now)
      case Served(_, _) => v.(counters := c.(hits := c.hits + 1))
      case Blocked => v.(counters := c, blockedHits := w.blockedHits + 1)
      case _ => v.(counters := c.(misses := c.misses + 1), waiting := w.waiting + multiset{r})
  }

  function AnswerReply(w: World, r: Request, result: Option<ControlWord>): Outcome {
    match result
    case None => NotFound
    case Some(Cw(cw, source)) =>
      if MayServe(r, source, w.limit) then Served(cw, Increment(source, w.limit)) else Blocked
  }

  function Settled(w: World, r: Request, result: Option<ControlWord>, stamp: int, later: int): World {
    var v := w.(waiting := w.waiting - multiset{r});
    match AnswerReply(w, r, result)
    case Served(_, _) =>
      var p := Produced(r.key, result.value.cw, result.value.hop, later, w.cache.timeout);
      v.(counters := w.counters.(success := w.counters.success + 1),
         cache := Step(w.cache, Op.Add(r.key, result.value.cw, result.value.hop, 0, stamp, later)),
         log := w.log + [p])
    case Blocked => v.(blockedMisses := w.blockedMisses + 1)
    case _ => v.(counters := w.counters.(fail := w.counters.fail + 1))
  }

  datatype Act =
    | Asks(r: Request, at: int)
    | Answers(r: Request, result: Option<ControlWord>, stamp: int, later: int)
    | Upkeep(op: Op)
    | Limit(limit: Byte)

  predicate Possible(w: World, a: Act, clock: int, now: int) {
    clock <= now &&
    match a
    case Asks(_, at) => clock <= at <= now
    case Answers(r, _, stamp, later) => r in w.waiting && clock <= stamp <= later <= now
    case Upkeep(op) => !op.Add? && !op.Find? && Timely(op, clock, now)
    case Limit(_) => true
  }

  function Next(w: World, a: Act): World {
    match a
    case Asks(r, at) => Asked(w, r, at)
    case Answers(r, result, stamp, later) => Settled(w, r, result, stamp, later)
    case Upkeep(op) => w.(cache := Step(w.cache, op))
    case Limit(n) => w.(limit := Limited(n, w.limit))
  }

  // ----- What holds in every reachable state

  /** An entry of the cache is something a reader produced for that very key. */
  predicate Backs(p: Produced, e: Entry) {
    p.key == e.key && p.cw == e.cw && p.hop == e.hop && p.stored + p.timeout == e.expires
  }

  ghost predicate Traced(e: Entry, log: seq<Produced>) {
    exists p :: p in log && Backs(p, e)
  }

  ghost predicate Traceable(s: seq<Entry>, log: seq<Produced>) {
    forall i :: 0 <= i < |s| ==> Traced(s[i], log)
  }

  ghost predicate FromList(e: Entry, s: seq<Entry>) {
    exists j :: 0 <= j < |s| && e == s[j].(valid := e.valid)
  }

  ghost predicate Logged(log: seq<Produced>, clock: int) {
    forall p :: p in log ==> p.stored <= clock && 0 < p.timeout
  }

  predicate Balanced(w: World) {
    && w.counters.total == w.counters.hits + w.counters.misses + w.blockedHits
    && w.counters.misses == w.counters.success + w.counters.fail + w.blockedMisses + |w.waiting|
  }

  ghost predicate Good(w: World, clock: int) {
    && Inv(w.cache.entries, clock) && 0 < w.cache.timeout && 0 < w.limit <= 20
    && Traceable(w.cache.entries, w.log) && Logged(w.log, clock)
    && Balanced(w)
  }

  function Initial(timeout: int): World {
    World(Start(timeout), DEFAULT_LIMIT, Counters(0, 0, 0, 0, 0), 0, 0, multiset{}, [])
  }

  lemma TraceableSubset(s: seq<Entry>, t: seq<Entry>, log: seq<Produced>)
    requires Traceable(s, log)
    requires forall i :: 0 <= i < |t| ==> FromList(t[i], s)
    ensures Traceable(t, log)
  {
    forall i | 0 <= i < |t|
      ensures Traced(t[i], log)
    {
      assert FromList(t[i], s);
      var j :| 0 <= j < |s| && t[i] == s[j].(valid := t[i].valid);
      assert Traced(s[j], log);
      var p :| p in log && Backs(p, s[j]);
      assert Backs(p, t[i]);
    }
  }

  lemma LookTraceable(s: seq<Entry>, k: Key, now: int, log: seq<Produced>)
    requires Traceable(s, log)
    ensures Traceable(AfterLook(s, k, now), log)
  {
    hide FirstMatch, Traceable;
    var t := AfterLook(s, k, now);
    forall i | 0 <= i < |t|
      ensures FromList(t[i], s)
    {
      assert t[i] == s[i].(valid := t[i].valid);
    }
    TraceableSubset(s, t, log);
  }

  lemma RemoveTraceable(s: seq<Entry>, k: Key, log: seq<Produced>)
    requires Traceable(s, log)
    ensures Traceable(Removed(s, k), log)
  {
    hide FirstMatch, Traceable;
    var t := Removed(s, k);
    forall i | 0 <= i < |t|
      ensures FromList(t[i], s)
    {
      var j := if i < FirstMatch(s, k) then i else i + 1;
      assert t[i] == s[j];
    }
    TraceableSubset(s, t, log);
  }

  lemma KeepTraceable(s: seq<Entry>, asked: int, log: seq<Produced>)
    requires Traceable(s, log)
    ensures Traceable(Kept(s, asked), log)
  {
    hide Kept, Traceable;
    var t := Kept(s, asked);
    KeptMembers(s, asked);
    forall i | 0 <= i < |t|
      ensures FromList(t[i], s)
    {
      assert t[i] in s;
    }
    TraceableSubset(s, t, log);
  }

  lemma AddTraceable(s: seq<Entry>, e: Entry, log: seq<Produced>, p: Produced)
    requires Traceable(s, log) && Backs(p, e)
    ensures Traceable(Added(s, e), log + [p])
  {
    hide FirstMatch;
    var t := Added(s, e);
    forall i | 0 <= i < |t|
      ensures Traced(t[i], log + [p])
    {
      if i == 0 {
        assert p in log + [p];
      } else {
        var j := if i <= FirstMatch(s, e.key) then i - 1 else i;
        assert t[i] == s[j];
        assert Traced(s[j], log);
        var q :| q in log && Backs(q, s[j]);
        assert q in log + [p];
      }
    }
  }

  lemma NothingTraceable(log: seq<Produced>)
    ensures Traceable([], log)
  {
  }

  lemma UpkeepGood(w: World, op: Op, clock: int, now: int)
    requires Good(w, clock) && !op.Add? && Timely(op, clock, now)
    ensures Inv(Step(w.cache, op).entries, now) && Traceable(Step(w.cache, op).entries, w.log)
    ensures 0 < Step(w.cache, op).timeout
  {
    hide FirstMatch, Traceable, Removed, Kept, AfterLook, Inv;
    match op
    case Find(k, at) =>
      AfterLookInv(w.cache.entries, k, clock, at);
      LaterInv(AfterLook(w.cache.entries, k, at), at, now);
      LaterInv(w.cache.entries, clock, now);
      LookTraceable(w.cache.entries, k, at, w.log);
    case Remove(k) =>
      RemovedInv(w.cache.entries, k, clock, now);
      RemoveTraceable(w.cache.entries, k, w.log);
    case Clean(asked) =>
      KeptInv(w.cache.entries, clock, asked, now);
      KeepTraceable(w.cache.entries, asked, w.log);
    case Cleanup =>
      EmptyRefines(now);
      NothingTraceable(w.log);
    case SetEnabled(_) =>
      LaterInv(w.cache.entries, clock, now);
    case SetTimeout(_) =>
      LaterInv(w.cache.entries, clock, now);
  }

  lemma MoreLog(s: seq<Entry>, log: seq<Produced>, p: Produced)
    requires Traceable(s, log)
    ensures Traceable(s, log + [p])
  {
    forall i | 0 <= i < |s|
      ensures Traced(s[i], log + [p])
    {
      assert Traced(s[i], log);
      var q :| q in log && Backs(q, s[i]);
      assert q in log + [p];
    }
  }

  lemma AnswerGood(w: World, r: Request, result: Option<ControlWord>, stamp: int, later: int, clock: int, now: int)
    requires Good(w, clock) && r in w.waiting && clock <= stamp <= later <= now
    ensures Good(Settled(w, r, result, stamp, later), now)
  {
    hide FirstMatch, Added, Inv, Traceable;
    LaterInv(w.cache.entries, clock, now);
    if AnswerReply(w, r, result).Served? {
      var op := Op.Add(r.key, result.value.cw, result.value.hop, 0, stamp, later);
      var e := NewEntry(op, w.cache.timeout);
      var p := Produced(r.key, result.value.cw, result.value.hop, later, w.cache.timeout);
      if w.cache.enabled {
        AddedInv(w.cache.entries, e, clock, now);
        AddTraceable(w.cache.entries, e, w.log, p);
      } else {
        MoreLog(w.cache.entries, w.log, p);
      }
    }
  }

  lemma NextGood(w: World, a: Act, clock: int, now: int)
    requires Good(w, clock) && Possible(w, a, clock, now)
    ensures Good(Next(w, a), now)
  {
    hide FirstMatch, Traceable, Removed, Kept, AfterLook, Added, Inv, Step, Settled;
    match a
    case Asks(r, at) =>
      LaterInv(w.cache.entries, clock, now);
      UpkeepGood(w, Op.Find(r.key, at), clock, now);
    case Answers(r, result, stamp, later) =>
      AnswerGood(w, r, result, stamp, later, clock, now);
    case Upkeep(op) =>
      UpkeepGood(w, op, clock, now);
    case Limit(_) =>
      LaterInv(w.cache.entries, clock, now);
  }

  datatype TimedAct = TimedAct(act: Act, now: int)

  ghost predicate Happens(w: World, run: seq<TimedAct>, clock: int)
    decreases |run|
  {
    run == [] || (Possible(w, run[0].act, clock, run[0].now) && Happens(Next(w, run[0].act), run[1..], run[0].now))
  }

  function After(w: World, run: seq<TimedAct>): World
    decreases |run|
  {
    if run == [] then w else After(Next(w, run[0].act), run[1..])
  }

  function Clock(run: seq<TimedAct>, clock: int): int {
    if run == [] then clock else run[|run| - 1].now
  }

  lemma {:induction false} RunGood(w: World, run: seq<TimedAct>, clock: int)
    requires Good(w, clock) && Happens(w, run, clock)
    ensures Good(After(w, run), Clock(run, clock))
    decreases |run|
  {
    hide Good, Next, Possible;
    if run != [] {
      NextGood(w, run[0].act, clock, run[0].now);
      RunGood(Next(w, run[0].act), run[1..], run[0].now);
    }
  }

  // ----- Transparency

  /** A word served from the cache is one a reader produced for that key, stored no longer ago than the timeout
      then in force, and its hop respects both limits. */
  lemma ServedFromCache(w: World, r: Request, clock: int, now: int) returns (p: Produced)
    requires Good(w, clock) && clock <= now && AskReply(w, r, now).Served?
    ensures p in w.log && p.key == r.key && p.cw == AskReply(w, r, now).cw
    ensures p.stored <= now <= p.stored + p.timeout
    ensures AskReply(w, r, now).hop == Increment(p.hop, w.limit) <= w.limit
    ensures r.hop != 0 ==> AskReply(w, r, now).hop <= r.hop
  {
    hide FirstMatch;
    var s := w.cache.entries;
    var i := FirstMatch(s, r.key);
    p :| p in w.log && Backs(p, s[i]);
  }

  lemma InitialGood(timeout: int, clock: int)
    requires 0 < timeout
    ensures Good(Initial(timeout), clock)
  {
    EmptyRefines(clock);
  }

  /** The same over whole runs: every request, after any interleaving of requests, answers, cleaning and
      configuration since the start. */
  lemma Transparent(timeout: int, run: seq<TimedAct>, clock: int, r: Request, now: int)
    requires 0 < timeout && Happens(Initial(timeout), run, clock) && Clock(run, clock) <= now
    ensures
      var w := After(Initial(timeout), run);
      var reply := AskReply(w, r, now);
      reply.Served? ==>
        && (exists p :: p in w.log && p.key == r.key && p.cw == reply.cw && p.stored <= now <= p.stored + p.timeout
              && reply.hop == Increment(p.hop, w.limit))
        && reply.hop <= w.limit && (r.hop != 0 ==> reply.hop <= r.hop)
  {
    hide Good, Next, After, Happens, Increment, AskReply;
    InitialGood(timeout, clock);
    RunGood(Initial(timeout), run, clock);
    var w := After(Initial(timeout), run);
    if AskReply(w, r, now).Served? {
      var p := ServedFromCache(w, r, Clock(run, clock), now);
    }
  }

  /** A word is logged only by a reader's answer to a waiting request for that key. */
  lemma OnlyAnswersLog(w: World, a: Act, p: Produced)
    requires p in Next(w, a).log && p !in w.log
    ensures a.Answers? && a.result.Some? && p.key == a.r.key && p.cw == a.result.value.cw && p.hop == a.result.value.hop
    ensures p.timeout == w.cache.timeout && p.stored == a.later
  {
    hide Step;
  }

  /** Every request is counted once it is in, whatever became of it. */
  lemma CountersBalance(timeout: int, run: seq<TimedAct>, clock: int)
    requires 0 < timeout && Happens(Initial(timeout), run, clock)
    ensures
      var w := After(Initial(timeout), run);
      && w.counters.total == w.counters.hits + w.counters.misses + w.blockedHits
      && w.counters.misses == w.counters.success + w.counters.fail + w.blockedMisses + |w.waiting|
  {
    hide Next, After, Happens;
    InitialGood(timeout, clock);
    RunGood(Initial(timeout), run, clock);
  }

  /** The server's own limit never blocks: the increment is capped at it. */
  lemma OnlyClientLimitBlocks(w: World, r: Request, now: int)
    ensures AskReply(w, r, now).Blocked? <==>
      WellFormed(r) && Reply(w.cache, r.key, now).Hit? && r.hop != 0
      && Increment(Reply(w.cache, r.key, now).hop, w.limit) > r.hop
  {
  }

  // ----- Repeated hits

  datatype Asking = Asking(r: Request, at: int)

  function AskAll(w: World, asks: seq<Asking>): World
    decreases |asks|
  {
    if asks == [] then w else AskAll(Asked(w, asks[0].r, asks[0].at), asks[1..])
  }

  lemma LookKeeps(s: seq<Entry>, k: Key, now: int, x: Key)
    requires FirstMatch(s, x) < |s|
    requires now <= s[FirstMatch(s, x)].expires
    ensures FirstMatch(AfterLook(s, k, now), x) == FirstMatch(s, x)
    ensures AfterLook(s, k, now)[FirstMatch(s, x)] == s[FirstMatch(s, x)]
  {
    hide FirstMatch;
    var t, p := AfterLook(s, k, now), FirstMatch(s, x);
    assert forall j :: 0 <= j < p ==> !Matches(t[j], x);
    FirstMatchIs(t, x, p);
  }

  lemma AskKeeps(w: World, ask: Asking, r: Request, now: int)
    requires AskReply(w, r, now).Served? && ask.at <= now
    ensures AskReply(Asked(w, ask.r, ask.at), r, now) == AskReply(w, r, now)
  {
    hide FirstMatch, AfterLook;
    LookKeeps(w.cache.entries, ask.r.key, ask.at, r.key);
  }

  /** However many requests hit in between, for whatever keys, a later request gets the same word with the same
      hop: the hop does not grow from hit to hit. */
  lemma {:induction false} HopDoesNotGrow(w: World, asks: seq<Asking>, r: Request, now: int)
    requires AskReply(w, r, now).Served?
    requires forall i :: 0 <= i < |asks| ==> asks[i].at <= now
    ensures AskReply(AskAll(w, asks), r, now) == AskReply(w, r, now)
    decreases |asks|
  {
    hide AskReply, Asked;
    if asks != [] {
      AskKeeps(w, asks[0], r, now);
      HopDoesNotGrow(Asked(w, asks[0].r, asks[0].at), asks[1..], r, now);
    }
  }

  /** The first requester, served by the reader, gets what the cache serves next. */
  lemma HitServesSame(w: World, r: Request, result: Option<ControlWord>, stamp: int, later: int, now: int)
    requires WellFormed(r) && AnswerReply(w, r, result).Served?
    requires w.cache.enabled && now <= later + w.cache.timeout
    ensures AskReply(Settled(w, r, result, stamp, later), r, now) == AnswerReply(w, r, result)
  {
    hide FirstMatch, Added;
    var e := NewEntry(Op.Add(r.key, result.value.cw, result.value.hop, 0, stamp, later), w.cache.timeout);
    FirstMatchIs(Added(w.cache.entries, e), r.key, 0);
  }
}
