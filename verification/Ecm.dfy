/** The request handler over the stored cache, the hop limit and its counters. */
module Ecm {
  import opened Bits
  import opened Common
  import opened CacheModel
  import opened CacheRuns
  import opened EcmModel
  import HopControl
  import Cache

  class Handler {
    const cache: Cache.Cache
    const hops: HopControl.HopControl
    var total: int
    var hits: int
    var misses: int
    var success: int
    var fail: int
    ghost var blockedHits: int
    ghost var blockedMisses: int
    ghost var waiting: multiset<Request>
    ghost var log: seq<Produced>

    ghost predicate Valid()
      reads this, cache, cache.nodes, hops
    {
      cache.Valid() && hops.totalChecks == hops.blocked + hops.allowed
    }

    ghost function View(): World
      reads this, cache, hops
    {
      World(cache.Abstract(), hops.maxHops, Counters(total, hits, misses, success, fail),
        blockedHits, blockedMisses, waiting, log)
    }

    constructor ()
      ensures Valid() && View() == Initial(10)
      ensures fresh(cache) && fresh(hops) && cache.nodes == []
    {
      cache := new Cache.Cache();
      hops := new HopControl.HopControl();
      total, hits, misses, success, fail := 0, 0, 0, 0, 0;
      blockedHits, blockedMisses, waiting, log := 0, 0, multiset{}, [];
    }

    /** Both checks a control word passes before it is handed out. */
    method Admit(r: Request, source: Byte) returns (ok: bool, served: Byte)
      requires Valid()
      modifies hops`totalChecks, hops`blocked, hops`allowed
      ensures Valid()
      ensures ok == MayServe(r, source, hops.maxHops) && served == HopControl.Increment(source, hops.maxHops)
    {
      served := hops.IncrementHop(source);
      ok := hops.Check(served);
      if r.hop != 0 && served > r.hop {
        ok := false;
      }
    }

    /** A word found in the cache, handed out or held back. */
    method ServeHit(r: Request, cw: seq<Byte>, source: Byte) returns (reply: Outcome)
      requires Valid()
      modifies this`hits, this`blockedHits, hops`totalChecks, hops`blocked, hops`allowed
      ensures Valid()
      ensures View() ==
        if MayServe(r, source, hops.maxHops)
        then old(View()).(counters := old(View()).counters.(hits := old(hits) + 1))
        else old(View()).(blockedHits := old(blockedHits) + 1)
      ensures reply ==
        if MayServe(r, source, hops.maxHops) then Served(cw, HopControl.Increment(source, hops.maxHops)) else Blocked
    {
      hide Cache.Cache.Valid, HopControl.Increment;
      var ok, served := Admit(r, source);
      if !ok {
        blockedHits := blockedHits + 1;
        return Blocked;
      }
      hits := hits + 1;
      return Served(cw, served);
    }

    /** No word in the cache: the request waits for the readers. */
    method Wait(r: Request)
      requires Valid()
      modifies this`misses, this`waiting
      ensures Valid()
      ensures View() == old(View()).(
        counters := old(View()).counters.(misses := old(misses) + 1),
        waiting := old(waiting) + multiset{r})
    {
      hide Cache.Cache.Valid;
      misses := misses + 1;
      waiting := waiting + multiset{r};
    }

    /** Up to the answer from the cache. */
    method Lookup(r: Request, at: int) returns (reply: Outcome)
      requires Valid()
      modifies this, cache`hits, cache`misses, cache`contents, cache.nodes
      modifies hops`totalChecks, hops`blocked, hops`allowed
      ensures Valid() && View() == Asked(old(View()), r, at)
      ensures reply == AskReply(old(View()), r, at)
    {
      hide Step, Reply, Cache.Cache.Valid, HopControl.Increment;
      if r.length == 0 || r.length as int > MAX_SIZE || (r.key.caid == 0 && r.key.sid == 0) {
        return Refused;
      }
      var answer := CountAndFind(r, at);
      if answer.Hit? {
        reply := ServeHit(r, answer.cw, answer.hop);
        return;
      }
      Wait(r);
      reply := Waiting;
    }

    method CountAndFind(r: Request, at: int) returns (answer: CacheModel.Answer)
      requires Valid()
      modifies this`total, cache`hits, cache`misses, cache`contents, cache.nodes
      ensures Valid()
      ensures View() == old(View()).(
        counters := old(View()).counters.(total := old(total) + 1),
        cache := Step(old(View()).cache, Op.Find(r.key, at)))
      ensures answer == Reply(old(View()).cache, r.key, at)
    {
      hide Step, Reply, Cache.Cache.Valid;
      total := total + 1;
      answer := cache.Find(r.key, at);
    }

    /** From the readers' answer on. */
    method Settle(r: Request, result: Option<ControlWord>, stamp: int, later: int) returns (reply: Outcome)
      requires Valid()
      modifies this, cache, cache.nodes, hops`totalChecks, hops`blocked, hops`allowed
      ensures Valid() && View() == Settled(old(View()), r, result, stamp, later)
      ensures reply == AnswerReply(old(View()), r, result)
    {
      hide Step, Reply, Cache.Cache.Valid, HopControl.Increment;
      waiting := waiting - multiset{r};
      if result.None? {
        fail := fail + 1;
        return NotFound;
      }
      reply := ServeFound(r, result.value.cw, result.value.hop, stamp, later);
    }

    /** A word a reader produced: held back, or handed out and stored. */
    method ServeFound(r: Request, cw: seq<Byte>, source: Byte, stamp: int, later: int) returns (reply: Outcome)
      requires Valid()
      modifies this`success, this`log, this`blockedMisses, cache, cache.nodes
      modifies hops`totalChecks, hops`blocked, hops`allowed
      ensures Valid()
      ensures !MayServe(r, source, hops.maxHops) ==>
        reply == Blocked && View() == old(View()).(blockedMisses := old(blockedMisses) + 1)
      ensures MayServe(r, source, hops.maxHops) ==>
        reply == Served(cw, HopControl.Increment(source, hops.maxHops)) &&
        View() == old(View()).(
          counters := old(View()).counters.(success := old(success) + 1),
          cache := Step(old(View()).cache, Op.Add(r.key, cw, source, 0, stamp, later)),
          log := old(log) + [Produced(r.key, cw, source, later, old(cache.timeout))])
    {
      hide Step, Reply, Cache.Cache.Valid, HopControl.Increment, MayServe;
      var ok, served := Admit(r, source);
      if !ok {
        blockedMisses := blockedMisses + 1;
        return Blocked;
      }
      Store(r, cw, source, stamp, later);
      reply := Served(cw, served);
    }

    method Store(r: Request, cw: seq<Byte>, source: Byte, stamp: int, later: int)
      requires Valid()
      modifies this`success, this`log, cache, cache.nodes
      ensures Valid()
      ensures View() == old(View()).(
        counters := old(View()).counters.(success := old(success) + 1),
        cache := Step(old(View()).cache, Op.Add(r.key, cw, source, 0, stamp, later)),
        log := old(log) + [Produced(r.key, cw, source, later, old(cache.timeout))])
    {
      hide Step, Reply, Cache.Cache.Valid;
      success := success + 1;
      log := log + [Produced(r.key, cw, source, later, cache.timeout)];
      cache.Add(r.key, cw, source, 0, stamp, later);
    }

    /** One request from start to end, with the readers' answer to it if they are asked. */
    method Process(r: Request, at: int, result: Option<ControlWord>, stamp: int, later: int) returns (reply: Outcome)
      requires Valid()
      modifies this, cache, cache.nodes, hops`totalChecks, hops`blocked, hops`allowed
      ensures Valid()
      ensures
        var w := Asked(old(View()), r, at);
        if AskReply(old(View()), r, at).Waiting?
        then View() == Settled(w, r, result, stamp, later) && reply == AnswerReply(w, r, result)
        else View() == w && reply == AskReply(old(View()), r, at)
      ensures !reply.Waiting?
    {
      hide Asked, Settled, AskReply;
      reply := Lookup(r, at);
      if reply.Waiting? {
        reply := Settle(r, result, stamp, later);
      }
    }
  }
}
