/** What a request is answered, and what the counters count over whole runs, said in terms of the requests, the
    answers and the limits alone. */
module EcmLaws {
  import opened Bits
  import opened Common
  import opened CacheModel
  import opened CacheRuns
  import opened HopControl
  import opened EcmModel

  // ----- Single answers

  /** Requests without data, with more than 256 bytes of it, or for neither a system nor a service. */
  predicate IsRefused(r: Request) {
    r.length == 0 || r.length > 256 || (r.key.caid == 0 && r.key.sid == 0)
  }

  /** The hop a word is served with: one more than its own, which wraps at 255, but never more than the limit. */
  function ServedHop(source: Byte, limit: Byte): Byte {
    if source == 255 then 0 else if source as int + 1 > limit as int then limit else source + 1
  }

  /** The client's own limit; zero means none. */
  predicate Fits(r: Request, served: Byte) {
    r.hop == 0 || served <= r.hop
  }

  lemma HopIs(source: Byte, limit: Byte)
    ensures Increment(source, limit) == ServedHop(source, limit)
  {
  }

  /** From the cache: refused, served, held back, or not there. */
  lemma AskLaw(w: World, r: Request, now: int)
    ensures AskReply(w, r, now) == Refused <==> IsRefused(r)
    ensures !IsRefused(r) ==> (AskReply(w, r, now) == Waiting <==> Reply(w.cache, r.key, now) == Miss)
    ensures
      forall cw, source :: !IsRefused(r) && Reply(w.cache, r.key, now) == Hit(cw, source) ==>
        AskReply(w, r, now) ==
          if Fits(r, ServedHop(source, w.limit)) then Served(cw, ServedHop(source, w.limit)) else Blocked
  {
    hide Reply, Increment;
    forall source
      ensures Increment(source, w.limit) == ServedHop(source, w.limit)
    {
      HopIs(source, w.limit);
    }
  }

  /** From the readers: no word, one that is served, or one held back. */
  lemma AnswerLaw(w: World, r: Request, cw: seq<Byte>, source: Byte)
    ensures AnswerReply(w, r, None) == NotFound
    ensures AnswerReply(w, r, Some(Cw(cw, source))) ==
      if Fits(r, ServedHop(source, w.limit)) then Served(cw, ServedHop(source, w.limit)) else Blocked
  {
    hide Increment;
    HopIs(source, w.limit);
  }

  /** Only a word that is served is stored, with its own hop, not the one it is served with. */
  lemma StoresWhatItServes(w: World, r: Request, result: Option<ControlWord>, stamp: int, later: int)
    ensures
      Settled(w, r, result, stamp, later).cache ==
        if result.Some? && Fits(r, ServedHop(result.value.hop, w.limit))
        then Step(w.cache, Op.Add(r.key, result.value.cw, result.value.hop, 0, stamp, later)) else w.cache
  {
    hide Step, Increment;
    if result.Some? {
      HopIs(result.value.hop, w.limit);
    }
  }

  // ----- Counting over runs

  function One(b: bool): nat {
    if b then 1 else 0
  }

  /** Requests that were not refused. */
  function Requests(run: seq<TimedAct>): nat {
    if run == [] then 0 else One(run[0].act.Asks? && !IsRefused(run[0].act.r)) + Requests(run[1..])
  }

  /** Requests whose word was not in the cache. */
  function NotCached(w: World, run: seq<TimedAct>): nat
    decreases |run|
  {
    if run == [] then 0
    else
      var a := run[0].act;
      One(a.Asks? && !IsRefused(a.r) && Reply(w.cache, a.r.key, a.at) == Miss) + NotCached(Next(w, a), run[1..])
  }

  /** Requests whose word was, and was near enough for the client. */
  function ServedFromCache(w: World, run: seq<TimedAct>): nat
    decreases |run|
  {
    if run == [] then 0
    else
      var a := run[0].act;
      One(a.Asks? && !IsRefused(a.r) && Reply(w.cache, a.r.key, a.at).Hit?
          && Fits(a.r, ServedHop(Reply(w.cache, a.r.key, a.at).hop, w.limit)))
      + ServedFromCache(Next(w, a), run[1..])
  }

  /** Answers without a word. */
  function WithoutWord(run: seq<TimedAct>): nat {
    if run == [] then 0 else One(run[0].act.Answers? && run[0].act.result.None?) + WithoutWord(run[1..])
  }

  /** Answers with a word near enough for the client. */
  function HandedOut(w: World, run: seq<TimedAct>): nat
    decreases |run|
  {
    if run == [] then 0
    else
      var a := run[0].act;
      One(a.Answers? && a.result.Some? && Fits(a.r, ServedHop(a.result.value.hop, w.limit)))
      + HandedOut(Next(w, a), run[1..])
  }

  /** Answers with a word too far away for the client. */
  function HeldBack(w: World, run: seq<TimedAct>): nat
    decreases |run|
  {
    if run == [] then 0
    else
      var a := run[0].act;
      One(a.Answers? && a.result.Some? && !Fits(a.r, ServedHop(a.result.value.hop, w.limit)))
      + HeldBack(Next(w, a), run[1..])
  }

  lemma StepCounts(w: World, a: Act)
    ensures
      var c, d := w.counters, Next(w, a).counters;
      && d.total == c.total + One(a.Asks? && !IsRefused(a.r))
      && d.misses == c.misses + One(a.Asks? && !IsRefused(a.r) && Reply(w.cache, a.r.key, a.at) == Miss)
      && d.hits == c.hits + One(a.Asks? && !IsRefused(a.r) && Reply(w.cache, a.r.key, a.at).Hit?
                                && Fits(a.r, ServedHop(Reply(w.cache, a.r.key, a.at).hop, w.limit)))
      && d.fail == c.fail + One(a.Answers? && a.result.None?)
      && d.success == c.success + One(a.Answers? && a.result.Some?
                                      && Fits(a.r, ServedHop(a.result.value.hop, w.limit)))
      && Next(w, a).blockedMisses == w.blockedMisses
           + One(a.Answers? && a.result.Some? && !Fits(a.r, ServedHop(a.result.value.hop, w.limit)))
  {
    hide Step, Reply, Increment, ServedHop;
    match a
    case Asks(r, at) =>
      if Reply(w.cache, r.key, at).Hit? {
        HopIs(Reply(w.cache, r.key, at).hop, w.limit);
      }
    case Answers(r, result, _, _) =>
      if result.Some? {
        HopIs(result.value.hop, w.limit);
      }
    case Upkeep(_) =>
    case Limit(_) =>
  }

  /** Over every run each counter has grown by the number of what it stands for. */
  lemma {:induction false} CountersCount(w: World, run: seq<TimedAct>)
    ensures
      var c, d := w.counters, After(w, run).counters;
      && d.total == c.total + Requests(run) && d.misses == c.misses + NotCached(w, run)
      && d.hits == c.hits + ServedFromCache(w, run)
      && d.fail == c.fail + WithoutWord(run) && d.success == c.success + HandedOut(w, run)
      && After(w, run).blockedMisses == w.blockedMisses + HeldBack(w, run)
    decreases |run|
  {
    hide Next, Reply, ServedHop, Fits, IsRefused, One;
    if run != [] {
      StepCounts(w, run[0].act);
      CountersCount(Next(w, run[0].act), run[1..]);
    }
  }
}
