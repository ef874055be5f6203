/** Card readers as values: who may be asked, who is asked first, and the backoff after failures. */
module Readers {
  import opened Bits

  const MAX_FAILURES: nat := 3
  const BACKOFF: int := 30
  const WORST: int := 9999

  datatype Kind = Local | Remote | Emu

  datatype Health = Disabled | Ok | Error | Timeout | NoCard

  datatype Reader = Reader(kind: Kind, health: Health, caid: Word, provid: Word, hop: Byte, priority: Byte,
    enabled: bool, requests: nat, success: nat, fail: nat, lastError: int, failures: nat, retryAfter: int)

  predicate Supports(r: Reader, caid: Word, provid: Word, now: int) {
    && r.enabled && r.health != Disabled
    && !(r.health == Error && r.retryAfter > 0 && now < r.retryAfter)
    && (r.caid == 0 || r.caid == caid) && (r.provid == 0 || r.provid == provid)
  }

  function Score(r: Reader): (n: int)
    ensures -20 <= n < WORST
  {
    r.priority as int * 10 + r.hop as int * 5
    + (match r.kind case Local => -20 case Emu => -10 case Remote => 10)
    + (match r.health case Timeout => 50 case Error => 100 case _ => 0)
  }

  /** The choice: an eligible reader no eligible one beats, and the first of those. */
  ghost predicate Chosen(rs: seq<Reader>, caid: Word, provid: Word, now: int, b: nat) {
    && b < |rs| && Supports(rs[b], caid, provid, now)
    && (forall j :: 0 <= j < |rs| && Supports(rs[j], caid, provid, now) ==> Score(rs[b]) <= Score(rs[j]))
    && (forall j :: 0 <= j < b && Supports(rs[j], caid, provid, now) ==> Score(rs[b]) < Score(rs[j]))
  }

  lemma ChosenUnique(rs: seq<Reader>, caid: Word, provid: Word, now: int, a: nat, b: nat)
    requires Chosen(rs, caid, provid, now, a) && Chosen(rs, caid, provid, now, b)
    ensures a == b
  {
    hide Score, Supports;
  }

  /** What the chosen reader serves: it is enabled, it is not waiting after an error, and it is for all systems and
      providers or for those asked for. */
  lemma ChosenServes(rs: seq<Reader>, caid: Word, provid: Word, now: int, b: nat)
    requires Chosen(rs, caid, provid, now, b)
    ensures rs[b].enabled && rs[b].health != Disabled
    ensures rs[b].health == Error ==> rs[b].retryAfter <= 0 || now >= rs[b].retryAfter
    ensures (rs[b].caid == 0 || rs[b].caid == caid) && (rs[b].provid == 0 || rs[b].provid == provid)
  {
  }

  /** And whoever does not wait after an error and is for what is asked can be chosen. */
  lemma ServesAll(r: Reader, caid: Word, provid: Word, now: int)
    requires r.enabled && r.health != Disabled
    requires r.health == Error ==> r.retryAfter <= 0 || now >= r.retryAfter
    requires (r.caid == 0 || r.caid == caid) && (r.provid == 0 || r.provid == provid)
    ensures exists b :: Chosen([r], caid, provid, now, b)
  {
    assert Chosen([r], caid, provid, now, 0);
  }

  /** The score counts priorities ten and hops five, and adds fifty for a timeout and a hundred for an error; a
      local reader is ahead of the emulation by ten, and that of a remote reader by twenty. */
  lemma ScoreOrder(r: Reader, priority: Byte, hop: Byte)
    ensures Score(r.(priority := priority)) - Score(r) == 10 * (priority as int - r.priority as int)
    ensures Score(r.(hop := hop)) - Score(r) == 5 * (hop as int - r.hop as int)
    ensures Score(r.(kind := Emu)) == Score(r.(kind := Local)) + 10
    ensures Score(r.(kind := Remote)) == Score(r.(kind := Emu)) + 20
    ensures Score(r.(health := Timeout)) == Score(r.(health := Ok)) + 50
    ensures Score(r.(health := Error)) == Score(r.(health := Ok)) + 100
    ensures Score(r.(health := NoCard)) == Score(r.(health := Disabled)) == Score(r.(health := Ok))
  {
  }

  /** Nothing but these five fields counts: two readers that agree on them are equal. */
  lemma ScoreOf(r: Reader, q: Reader)
    requires r.kind == q.kind && r.health == q.health && r.hop == q.hop && r.priority == q.priority
    ensures Score(r) == Score(q)
  {
  }

  /** So of eligible readers with the same priority, hop and health a remote one is not chosen before the emulation
      or a local one, nor the emulation before a local one. */
  lemma LocalFirst(rs: seq<Reader>, caid: Word, provid: Word, now: int, b: nat, j: nat)
    requires Chosen(rs, caid, provid, now, b) && j < |rs| && Supports(rs[j], caid, provid, now)
    requires rs[b].health == rs[j].health && rs[b].hop == rs[j].hop && rs[b].priority == rs[j].priority
    ensures rs[b].kind == Local || (rs[b].kind == Emu && rs[j].kind != Local) || rs[j].kind == Remote
  {
  }

  // ----- The outcome of one request

  /** The clock is read for the error and again for the end of the backoff. */
  datatype Result = Success | Failure(stamp: int, later: int)

  function Marked(r: Reader, o: Result): Reader {
    match o
    case Success => r.(failures := 0, retryAfter := 0, health := Ok)
    case Failure(stamp, later) =>
      var f := r.failures + 1;
      if f >= MAX_FAILURES
      then r.(failures := f, lastError := stamp, health := Error, retryAfter := later + BACKOFF)
      else r.(failures := f, lastError := stamp)
  }

  function Counted(r: Reader, o: Result): Reader {
    Marked(if o.Success? then r.(success := r.success + 1) else r.(fail := r.fail + 1), o)
  }

  function Asked(r: Reader, o: Result): Reader {
    Counted(r.(requests := r.requests + 1), o)
  }

  predicate Timely(o: Result) {
    o.Failure? ==> 0 < o.stamp <= o.later
  }

  predicate Sane(r: Reader) {
    && r.requests == r.success + r.fail
    && (r.failures >= MAX_FAILURES ==>
          r.health == Error && 0 < r.lastError && r.lastError + BACKOFF <= r.retryAfter)
  }

  lemma AskedSane(r: Reader, o: Result)
    requires Sane(r) && Timely(o)
    ensures Sane(Asked(r, o))
  {
  }

  // ----- Runs

  function Run(r: Reader, os: seq<Result>): Reader {
    if os == [] then r else Asked(Run(r, os[..|os| - 1]), os[|os| - 1])
  }

  /** How many of the last outcomes were failures. */
  function Trailing(os: seq<Result>): (n: nat)
    ensures n <= |os|
  {
    if os == [] || os[|os| - 1].Success? then 0 else 1 + Trailing(os[..|os| - 1])
  }

  predicate Fresh(r: Reader) {
    r.requests == r.success == r.fail == r.failures == 0
  }

  lemma {:induction false} RunSane(r: Reader, os: seq<Result>)
    requires Fresh(r) && forall i :: 0 <= i < |os| ==> Timely(os[i])
    ensures Sane(Run(r, os)) && Run(r, os).requests == |os| && Run(r, os).failures == Trailing(os)
    ensures Trailing(os) > 0 ==> Run(r, os).lastError == os[|os| - 1].stamp
  {
    if os != [] {
      RunSane(r, os[..|os| - 1]);
      AskedSane(Run(r, os[..|os| - 1]), os[|os| - 1]);
    }
  }

  function Count(os: seq<Result>, success: bool): nat {
    if os == [] then 0 else Count(os[..|os| - 1], success) + if os[|os| - 1].Success? == success then 1 else 0
  }

  /** Successes and failures are counted apart. */
  lemma {:induction false} RunCounts(r: Reader, os: seq<Result>)
    ensures Run(r, os).success == r.success + Count(os, true) && Run(r, os).fail == r.fail + Count(os, false)
    ensures Run(r, os).requests == r.requests + |os|
  {
    if os != [] {
      RunCounts(r, os[..|os| - 1]);
    }
  }

  /** A reader whose last three or more requests failed is not asked for thirty seconds after the last of them,
      whatever came before. */
  lemma BacksOff(r: Reader, os: seq<Result>, caid: Word, provid: Word, now: int)
    requires Fresh(r) && (forall i :: 0 <= i < |os| ==> Timely(os[i])) && Trailing(os) >= 3
    ensures now < os[|os| - 1].stamp + 30 ==> !Supports(Run(r, os), caid, provid, now)
  {
    RunSane(r, os);
  }

  lemma {:induction false} OkAfterSuccess(r: Reader, os: seq<Result>)
    requires Fresh(r) && (forall i :: 0 <= i < |os| ==> Timely(os[i])) && Trailing(os) < 3 && r.health == Ok
    ensures Run(r, os).health == Ok
  {
    if os != [] {
      RunSane(r, os[..|os| - 1]);
      if os[|os| - 1].Failure? {
        OkAfterSuccess(r, os[..|os| - 1]);
      }
    }
  }

  lemma {:induction false} SameService(r: Reader, os: seq<Result>)
    ensures Run(r, os).enabled == r.enabled && Run(r, os).caid == r.caid && Run(r, os).provid == r.provid
  {
    if os != [] {
      SameService(r, os[..|os| - 1]);
    }
  }

  /** Thirty seconds after the end of the last of them it may be asked again. */
  lemma BackAgain(r: Reader, os: seq<Result>, caid: Word, provid: Word, now: int)
    requires Fresh(r) && (forall i :: 0 <= i < |os| ==> Timely(os[i])) && Trailing(os) >= 3
    requires r.enabled && (r.caid == 0 || r.caid == caid) && (r.provid == 0 || r.provid == provid)
    ensures os[|os| - 1].Failure?
    ensures now >= os[|os| - 1].later + 30 ==> Supports(Run(r, os), caid, provid, now)
  {
    RunSane(r, os);
    RunSane(r, os[..|os| - 1]);
    SameService(r, os);
  }

  /** With fewer failures at the end it stays eligible: what it supports is asked of it at any time, and a
      success ends a backoff at once. */
  lemma StaysEligible(r: Reader, os: seq<Result>, caid: Word, provid: Word, now: int)
    requires Fresh(r) && (forall i :: 0 <= i < |os| ==> Timely(os[i])) && Trailing(os) < 3
    requires r.health == Ok && Supports(r, caid, provid, now)
    ensures Supports(Run(r, os), caid, provid, now)
  {
    OkAfterSuccess(r, os);
    SameService(r, os);
  }

  // ----- A list of readers

  /** A request as the card manager serves it: the reader it picks, or none, how many outcomes were recorded by
      then, and what comes of asking that reader. */
  datatype Event = Event(caid: Word, provid: Word, now: int, seen: nat, pick: int, outcome: Result)

  ghost predicate Picks(rs: seq<Reader>, e: Event) {
    if e.pick < 0 then forall j :: 0 <= j < |rs| ==> !Supports(rs[j], e.caid, e.provid, e.now)
    else Chosen(rs, e.caid, e.provid, e.now, e.pick)
  }

  function Served(rs: seq<Reader>, e: Event): (r: seq<Reader>)
    ensures |r| == |rs|
  {
    if 0 <= e.pick < |rs| then rs[e.pick := Asked(rs[e.pick], e.outcome)] else rs
  }

  function After(rs: seq<Reader>, es: seq<Event>): (r: seq<Reader>)
    ensures |r| == |rs|
  {
    if es == [] then rs else Served(After(rs, es[..|es| - 1]), es[|es| - 1])
  }

  /** Requests in the order in which their outcomes are recorded. Several may be under way at once: each pick is
      the choice in a state some of the earlier ones left, and a failure is stamped after the selection. */
  ghost predicate IsRun(rs: seq<Reader>, es: seq<Event>) {
    forall n :: 0 <= n < |es| ==>
      es[n].seen <= n && Picks(After(rs, es[..es[n].seen]), es[n]) && Timely(es[n].outcome)
      && (es[n].outcome.Failure? ==> es[n].now <= es[n].outcome.stamp)
  }

  /** One more request, served after all others have ended. */
  lemma RunExtends(rs: seq<Reader>, es: seq<Event>, e: Event)
    requires IsRun(rs, es) && e.seen == |es| && Picks(After(rs, es), e)
    requires Timely(e.outcome) && (e.outcome.Failure? ==> e.now <= e.outcome.stamp)
    ensures IsRun(rs, es + [e]) && After(rs, es + [e]) == Served(After(rs, es), e)
  {
    hide Picks, Timely, Served;
    var all := es + [e];
    assert all[..|es|] == es;
    forall n | 0 <= n <= |es|
      ensures all[..n] == es[..n]
    {
    }
  }

  /** What reader `b` was asked for. */
  function Outcomes(es: seq<Event>, b: nat): seq<Result> {
    if es == [] then []
    else if es[|es| - 1].pick == b then Outcomes(es[..|es| - 1], b) + [es[|es| - 1].outcome]
    else Outcomes(es[..|es| - 1], b)
  }

  lemma {:induction false} AfterIs(rs: seq<Reader>, es: seq<Event>, b: nat)
    requires b < |rs|
    ensures After(rs, es)[b] == Run(rs[b], Outcomes(es, b))
  {
    hide Asked;
    if es != [] {
      var before, e := es[..|es| - 1], es[|es| - 1];
      AfterIs(rs, before, b);
      if e.pick == b {
        var os := Outcomes(before, b);
        assert (os + [e.outcome])[..|os|] == os;
      }
    }
  }

  lemma {:induction false} OutcomesTimely(es: seq<Event>, b: nat)
    requires forall n :: 0 <= n < |es| ==> Timely(es[n].outcome)
    ensures forall i :: 0 <= i < |Outcomes(es, b)| ==> Timely(Outcomes(es, b)[i])
  {
    hide Timely;
    if es != [] {
      OutcomesTimely(es[..|es| - 1], b);
    }
  }

  /** Over every run of requests, whatever becomes of them and however they overlap: a reader whose last three or
      more outcomes are failures when a request looks for a reader is not chosen in the next thirty seconds. */
  lemma NotChosenInBackoff(rs: seq<Reader>, es: seq<Event>, n: nat)
    requires IsRun(rs, es) && n < |es| && 0 <= es[n].pick < |rs| && Fresh(rs[es[n].pick])
    ensures
      var os := Outcomes(es[..es[n].seen], es[n].pick);
      Trailing(os) >= 3 ==> os[|os| - 1].Failure? && es[n].now >= os[|os| - 1].stamp + 30
  {
    hide Supports, Score, Asked;
    var b := es[n].pick;
    var past := es[..es[n].seen];
    var os := Outcomes(past, b);
    OutcomesTimely(past, b);
    AfterIs(rs, past, b);
    if Trailing(os) >= 3 {
      BacksOff(rs[b], os, es[n].caid, es[n].provid, es[n].now);
    }
  }

  lemma IsRunPrefix(rs: seq<Reader>, es: seq<Event>, k: nat)
    requires IsRun(rs, es) && k <= |es|
    ensures IsRun(rs, es[..k])
  {
    hide Picks, Timely, After;
    forall n | 0 <= n <= k
      ensures es[..k][..n] == es[..n]
    {
    }
  }

  /** Reader `b` is asked for one thing at a time: no outcome of it is recorded between a request's choice and
      its end. */
  ghost predicate OneByOne(es: seq<Event>, b: nat) {
    forall n :: 0 <= n < |es| && es[n].pick == b ==>
      es[n].seen <= n && Outcomes(es[..es[n].seen], b) == Outcomes(es[..n], b)
  }

  lemma OneByOnePrefix(es: seq<Event>, b: nat, k: nat)
    requires OneByOne(es, b) && k <= |es|
    ensures OneByOne(es[..k], b)
  {
    hide Outcomes;
    forall n | 0 <= n <= k
      ensures es[..k][..n] == es[..n]
    {
    }
  }

  lemma StampAfter(rs: seq<Reader>, es: seq<Event>)
    requires IsRun(rs, es) && es != [] && 0 <= es[|es| - 1].pick < |rs| && Fresh(rs[es[|es| - 1].pick])
    requires OneByOne(es, es[|es| - 1].pick)
    ensures
      var e := es[|es| - 1];
      var os := Outcomes(es[..|es| - 1], e.pick);
      && (e.outcome.Failure? ==> e.now <= e.outcome.stamp)
      && (Trailing(os) >= 3 ==> os[|os| - 1].Failure? && e.now >= os[|os| - 1].stamp + 30)
  {
    NotChosenInBackoff(rs, es, |es| - 1);
  }

  lemma SpreadOneMore(os: seq<Result>, o: Result, now: int)
    requires o.Failure? ==> now <= o.stamp
    requires
      var k := Trailing(os);
      k >= 3 ==>
        && os[|os| - 1].Failure? && os[|os| - k + 2].Failure? && now >= os[|os| - 1].stamp + 30
        && os[|os| - 1].stamp >= os[|os| - k + 2].stamp + 30 * (k - 3)
    ensures
      var os' := os + [o];
      var k := Trailing(os');
      k >= 3 ==>
        os'[|os'| - 1].Failure? && os'[|os'| - k + 2].Failure?
        && os'[|os'| - 1].stamp >= os'[|os'| - k + 2].stamp + 30 * (k - 3)
  {
    assert (os + [o])[..|os|] == os;
  }

  /** So a reader that only fails is asked at most once in thirty seconds after the first three times, if it is
      asked for one thing at a time. */
  lemma {:induction false} FailuresSpread(rs: seq<Reader>, es: seq<Event>, b: nat)
    requires IsRun(rs, es) && OneByOne(es, b) && b < |rs| && Fresh(rs[b])
    ensures
      var os := Outcomes(es, b);
      var k := Trailing(os);
      k >= 3 ==>
        os[|os| - 1].Failure? && os[|os| - k + 2].Failure?
        && os[|os| - 1].stamp >= os[|os| - k + 2].stamp + 30 * (k - 3)
  {
    hide IsRun, OneByOne;
    if es != [] {
      var before, e := es[..|es| - 1], es[|es| - 1];
      IsRunPrefix(rs, es, |es| - 1);
      OneByOnePrefix(es, b, |es| - 1);
      FailuresSpread(rs, before, b);
      if e.pick == b {
        StampAfter(rs, es);
        SpreadOneMore(Outcomes(before, b), e.outcome, e.now);
      }
    }
  }

  // ----- Recently seen messages

  datatype Seen = Seen(hash: int, time: int)

  const SLOTS: nat := 64
  const WINDOW: int := 60

  /** What the ring remembers: the last 64 of everything remembered, with 64 empty records before the first. */
  ghost predicate Recent(history: seq<Seen>, hash: int, now: int) {
    exists i :: 0 <= i < |history| && |history| - SLOTS <= i
                && history[i].hash == hash && now - history[i].time < WINDOW
  }

  /** Within the window a message just remembered counts as seen until 64 others have been remembered. */
  lemma RememberedIsRecent(history: seq<Seen>, s: Seen, more: seq<Seen>, now: int)
    requires |more| < 64 && now - s.time < 60
    ensures Recent(history + [s] + more, s.hash, now)
  {
    assert (history + [s] + more)[|history|] == s;
  }

  /** And a message that none of the last 64 is, or only ones a minute old, does not. */
  lemma ForgottenIsNotRecent(history: seq<Seen>, hash: int, now: int)
    requires forall i :: 0 <= i < |history| && |history| - 64 <= i ==>
               history[i].hash != hash || now - history[i].time >= 60
    ensures !Recent(history, hash, now)
  {
  }
}
