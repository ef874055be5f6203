/** The card manager's list of readers: selection, one request to a reader, and the ring that keeps a message
    from being forwarded twice. */
module ReadersCode {
  import opened Bits
  import opened Readers

  /** How a remote reader's connection turns out: the descriptor of a new socket, whether it connects, whether
      the login is accepted and whether an answer comes; and the clock if it fails. */
  datatype Luck = Luck(socket: int, connects: bool, login: bool, answer: bool, at: int, later: int)

  function OutcomeOf(ok: bool, luck: Luck): Result {
    if ok then Success else Failure(luck.at, luck.later)
  }

  /** Whether a remote reader answers: over the connection it has or a new one, in the session it has or after
      a login. */
  predicate Reached(fd: int, loggedIn: bool, luck: Luck) {
    (fd >= 0 || (luck.socket >= 0 && luck.connects)) && (loggedIn || luck.login) && luck.answer
  }

  class Card {
    var kind: Kind
    var health: Health
    var caid: Word
    var provid: Word
    var hop: Byte
    var priority: Byte
    var enabled: bool
    var requests: nat
    var success: nat
    var fail: nat
    var lastError: int
    var failures: nat
    var retryAfter: int
    var fd: int
    var loggedIn: bool
    /** The descriptors opened on behalf of this reader and not closed. */
    var live: multiset<int>

    ghost function View(): Reader
      reads this
    {
      Reader(kind, health, caid, provid, hop, priority, enabled, requests, success, fail, lastError, failures,
             retryAfter)
    }

    /** The one descriptor in use, and no other, is open. */
    ghost predicate Tidy()
      reads this`fd, this`live
    {
      live == if fd >= 0 then multiset{fd} else multiset{}
    }

    /** Between requests: the counters add up, a backoff is in force after three failures, a session has a
        connection, and no descriptor is leaked. */
    ghost predicate Valid()
      reads this
    {
      && Sane(View())
      && (loggedIn ==> fd >= 0)
      && Tidy()
    }

    constructor (kind: Kind, caid: Word, provid: Word, hop: Byte, priority: Byte)
      ensures Valid() && Fresh(View()) && health == Ok && enabled
      ensures this.kind == kind && this.caid == caid && this.provid == provid
      ensures this.hop == hop && this.priority == priority && fd == -1
    {
      this.kind, this.caid, this.provid, this.hop, this.priority := kind, caid, provid, hop, priority;
      health, enabled := Ok, true;
      requests, success, fail, lastError, failures, retryAfter := 0, 0, 0, 0, 0, 0;
      fd, loggedIn, live := -1, false, multiset{};
    }

    method MarkFailure(stamp: int, later: int)
      modifies this`failures, this`lastError, this`health, this`retryAfter
      ensures View() == Marked(old(View()), Failure(stamp, later))
    {
      failures := failures + 1;
      lastError := stamp;
      if failures >= MAX_FAILURES {
        health := Error;
        retryAfter := later + BACKOFF;
      }
    }

    method MarkSuccess()
      modifies this`failures, this`health, this`retryAfter
      ensures View() == Marked(old(View()), Success)
    {
      failures := 0;
      retryAfter := 0;
      health := Ok;
    }

    /** A socket descriptor is handed out. */
    method OpenDescriptor(n: int)
      modifies this`live
      ensures live == old(live) + multiset{n}
    {
      live := live + multiset{n};
    }

    /** A descriptor is given back; only an open one may be. */
    method CloseDescriptor(n: int)
      requires n in live
      modifies this`live
      ensures live == old(live) - multiset{n}
    {
      live := live - multiset{n};
    }

    /** Gives up the connection, if there is one. */
    method Close()
      requires Tidy()
      modifies this`fd, this`live
      ensures Tidy() && fd < 0
      ensures old(fd) < 0 ==> fd == old(fd)
    {
      if fd >= 0 {
        CloseDescriptor(fd);
        fd := -1;
      }
    }

    /** Drops the old connection, then tries a new one; a socket that does not connect is closed again. */
    method Connect(socket: int, connects: bool) returns (ok: bool)
      requires kind == Remote && Tidy()
      modifies this`fd, this`loggedIn, this`live
      ensures Tidy() && !loggedIn
      ensures ok == (socket >= 0 && connects)
      ensures if ok then fd == socket else fd < 0
    {
      Close();
      loggedIn := false;
      if socket < 0 {
        return false;
      }
      OpenDescriptor(socket);
      if !connects {
        CloseDescriptor(socket);
        return false;
      }
      fd := socket;
      ok := true;
    }

    /** Asks over the connection, logging in first if that is still to be done. */
    method RemoteAsk(luck: Luck) returns (ok: bool)
      requires kind == Remote && fd >= 0
      modifies this`loggedIn
      ensures ok ==> loggedIn
      ensures ok == ((old(loggedIn) || luck.login) && luck.answer)
    {
      if !loggedIn {
        if !luck.login {
          return false;
        }
        loggedIn := true;
      }
      ok := luck.answer;
    }

    /** Connects if need be, asks, and gives the connection up if that fails. */
    method RemoteRequest(luck: Luck) returns (ok: bool)
      requires kind == Remote && Tidy() && (loggedIn ==> fd >= 0)
      modifies this`fd, this`loggedIn, this`live
      ensures Tidy() && (loggedIn ==> fd >= 0)
      ensures ok == Reached(old(fd), old(loggedIn), luck)
      ensures ok ==> loggedIn && fd == if old(fd) >= 0 then old(fd) else luck.socket
      ensures !ok ==> !loggedIn && fd < 0
    {
      if fd < 0 {
        ok := Connect(luck.socket, luck.connects);
        if !ok {
          return;
        }
      }
      ok := RemoteAsk(luck);
      if !ok {
        Close();
        loggedIn := false;
      }
    }

    /** A card and the emulation only answer or do not. */
    method Obtain(luck: Luck) returns (ok: bool)
      requires Tidy() && (loggedIn ==> fd >= 0)
      modifies this`fd, this`loggedIn, this`live
      ensures Tidy() && (loggedIn ==> fd >= 0)
      ensures kind != Remote ==> ok == luck.answer && fd == old(fd)
      ensures kind == Remote ==> ok == Reached(old(fd), old(loggedIn), luck)
      ensures kind == Remote ==> (ok ==> loggedIn) && (!ok ==> fd < 0 && !loggedIn)
    {
      if kind == Remote {
        ok := RemoteRequest(luck);
      } else {
        ok := luck.answer;
      }
    }

    /** Counts an outcome and starts or ends a backoff. */
    method Settle(ok: bool, luck: Luck)
      modifies this`success, this`fail, this`failures, this`lastError, this`health, this`retryAfter
      ensures View() == Counted(old(View()), OutcomeOf(ok, luck))
    {
      if ok {
        success := success + 1;
        MarkSuccess();
      } else {
        fail := fail + 1;
        MarkFailure(luck.at, luck.later);
      }
    }

    /** One request: what it does to the reader is what the outcome does to its view. */
    method Ask(luck: Luck) returns (ok: bool)
      requires Valid() && 0 < luck.at <= luck.later
      modifies this
      ensures Valid()
      ensures View() == Asked(old(View()), OutcomeOf(ok, luck))
      ensures kind != Remote ==> ok == luck.answer && fd == old(fd)
      ensures kind == Remote ==> ok == Reached(old(fd), old(loggedIn), luck)
      ensures kind == Remote ==> (ok ==> loggedIn) && (!ok ==> fd < 0 && !loggedIn)
    {
      hide Counted, Sane, Tidy, Reached;
      ghost var before := View();
      requests := requests + 1;
      assert View() == before.(requests := before.requests + 1);
      ok := Obtain(luck);
      Settle(ok, luck);
      AskedSane(before, OutcomeOf(ok, luck));
    }

    /** Whether this reader may be asked now. */
    method MayAsk(caid: Word, provid: Word, now: int) returns (yes: bool)
      ensures yes == Supports(View(), caid, provid, now)
    {
      if !enabled || health == Disabled {
        return false;
      }
      if health == Error && retryAfter > 0 && now < retryAfter {
        return false;
      }
      yes := (this.caid == 0 || this.caid == caid) && (this.provid == 0 || this.provid == provid);
    }

    method GetScore() returns (score: int)
      ensures score == Score(View())
    {
      score := priority as int * 10;
      score := score + hop as int * 5;
      if kind == Local { score := score - 20; }
      if kind == Emu { score := score - 10; }
      if kind == Remote { score := score + 10; }
      if health == Timeout { score := score + 50; }
      if health == Error { score := score + 100; }
    }
  }

  ghost function Views(cards: seq<Card>): (rs: seq<Reader>)
    reads cards
    ensures |rs| == |cards| && forall i :: 0 <= i < |rs| ==> rs[i] == cards[i].View()
  {
    seq(|cards|, i requires 0 <= i < |cards| reads cards => cards[i].View())
  }

  /** The first of the best-scored eligible readers; none only if none is eligible. */
  method Select(cards: seq<Card>, caid: Word, provid: Word, now: int) returns (best: Card?, ghost b: nat)
    ensures best == null <==> forall i :: 0 <= i < |cards| ==> !Supports(cards[i].View(), caid, provid, now)
    ensures best != null ==> b < |cards| && cards[b] == best && Chosen(Views(cards), caid, provid, now, b)
  {
    hide Score, Supports, Views;
    best, b := null, 0;
    var bestScore := WORST;
    var n := 0;
    while n < |cards|
      invariant n <= |cards|
      invariant best == null ==> bestScore == WORST
      invariant best == null ==> forall j :: 0 <= j < n ==> !Supports(cards[j].View(), caid, provid, now)
      invariant best != null ==> b < n && cards[b] == best && Supports(best.View(), caid, provid, now)
      invariant best != null ==> bestScore == Score(best.View())
      invariant best != null ==> forall j :: 0 <= j < n && Supports(cards[j].View(), caid, provid, now) ==>
        bestScore <= Score(cards[j].View()) && (j < b ==> bestScore < Score(cards[j].View()))
    {
      var may := cards[n].MayAsk(caid, provid, now);
      if may {
        var score := cards[n].GetScore();
        if score < bestScore {
          bestScore := score;
          best, b := cards[n], n;
        }
      }
      n := n + 1;
    }
  }

  lemma ViewsOneAsked(before: seq<Reader>, now: seq<Reader>, e: Event)
    requires |before| == |now| && 0 <= e.pick < |now| && now[e.pick] == Asked(before[e.pick], e.outcome)
    requires forall i :: 0 <= i < |now| && i != e.pick ==> now[i] == before[i]
    ensures now == Served(before, e)
  {
    hide Asked;
  }

  lemma PicksNone(rs: seq<Reader>, e: Event)
    requires e.pick < 0 && forall j :: 0 <= j < |rs| ==> !Supports(rs[j], e.caid, e.provid, e.now)
    ensures Picks(rs, e)
  {
  }

  lemma PicksChosen(rs: seq<Reader>, e: Event)
    requires e.pick >= 0 && Chosen(rs, e.caid, e.provid, e.now, e.pick)
    ensures Picks(rs, e)
  {
  }

  lemma NothingServed(rs: seq<Reader>, e: Event)
    requires e.pick < 0
    ensures Served(rs, e) == rs
  {
  }

  /** One request for a control word, after those in `past`: the best eligible reader is asked, only its state
      changes, and the run of requests is one longer. */
  method GetCw(cards: seq<Card>, caid: Word, provid: Word, now: int, luck: Luck,
               ghost start: seq<Reader>, ghost past: seq<Event>)
    returns (ok: bool, ghost e: Event)
    requires forall i, j :: 0 <= i < j < |cards| ==> cards[i] != cards[j]
    requires forall i :: 0 <= i < |cards| ==> cards[i].Valid()
    requires 0 < now <= luck.at <= luck.later
    requires IsRun(start, past) && Views(cards) == After(start, past)
    modifies cards
    ensures forall i :: 0 <= i < |cards| ==> cards[i].Valid()
    ensures e.caid == caid && e.provid == provid && e.now == now && e.seen == |past| && e.outcome == OutcomeOf(ok, luck)
    ensures Picks(old(Views(cards)), e) && Views(cards) == Served(old(Views(cards)), e)
    ensures ok ==> e.pick >= 0
    ensures IsRun(start, past + [e]) && Views(cards) == After(start, past + [e])
  {
    hide Picks, Chosen, Supports, Score, Asked, Served, Views, Reached, IsRun, After, Card.Valid, Card.View;
    ghost var before := Views(cards);
    var best, b := Select(cards, caid, provid, now);
    if best == null {
      e := Event(caid, provid, now, |past|, -1, OutcomeOf(false, luck));
      NothingServed(before, e);
      PicksNone(before, e);
      RunExtends(start, past, e);
      return false, e;
    }
    ok := best.Ask(luck);
    e := Event(caid, provid, now, |past|, b, OutcomeOf(ok, luck));
    ViewsOneAsked(before, Views(cards), e);
    PicksChosen(before, e);
    RunExtends(start, past, e);
  }

  // ----- The ring of messages seen

  lemma Holder(n: nat, i: nat) returns (k: nat)
    requires SLOTS <= n && i < SLOTS
    ensures n - SLOTS <= k < n && k % SLOTS == i
  {
    var q, r := n / SLOTS, n % SLOTS;
    if i < r {
      k := SLOTS * q + i;
      DivModUnique(k, SLOTS, q, i);
    } else {
      k := SLOTS * (q - 1) + i;
      DivModUnique(k, SLOTS, q - 1, i);
    }
  }

  lemma Around(n: nat)
    ensures (n % SLOTS + 1) % SLOTS == (n + 1) % SLOTS
  {
  }

  lemma Apart(n: nat, k: nat)
    requires n - SLOTS < k < n
    ensures k % SLOTS != n % SLOTS
  {
  }

  class Dedup {
    const hash: array<int>
    const time: array<int>
    var slot: nat
    ghost var history: seq<Seen>

    /** Slot k holds the latest record whose number is k modulo the size. */
    ghost predicate Valid()
      reads this, hash, time
    {
      && hash.Length == SLOTS && time.Length == SLOTS && hash != time
      && SLOTS <= |history| && slot == |history| % SLOTS
      && (forall k :: |history| - SLOTS <= k < |history| ==>
            history[k] == Seen(hash[k % SLOTS], time[k % SLOTS]))
    }

    constructor ()
      ensures Valid() && history == seq(SLOTS, _ => Seen(0, 0)) && fresh(hash) && fresh(time)
    {
      hash := new int[SLOTS](_ => 0);
      time := new int[SLOTS](_ => 0);
      slot := 0;
      history := seq(SLOTS, _ => Seen(0, 0));
    }

    method SeenRecently(h: int, now: int) returns (seen: bool)
      requires Valid()
      ensures seen == Recent(history, h, now)
    {
      seen := false;
      var i := 0;
      while i < SLOTS
        invariant i <= SLOTS
        invariant forall k :: 0 <= k < i ==> !(hash[k] == h && now - time[k] < WINDOW)
      {
        if hash[i] == h && now - time[i] < WINDOW {
          var k := Holder(|history|, i);
          assert history[k] == Seen(hash[k % SLOTS], time[k % SLOTS]);
          return true;
        }
        i := i + 1;
      }
      forall k | 0 <= k < |history| && |history| - SLOTS <= k
        ensures !(history[k].hash == h && now - history[k].time < WINDOW)
      {
        assert history[k] == Seen(hash[k % SLOTS], time[k % SLOTS]);
      }
    }

    method Remember(h: int, now: int)
      requires Valid()
      modifies this`slot, this`history, hash, time
      ensures Valid() && history == old(history) + [Seen(h, now)]
    {
      ghost var n := |history|;
      hash[slot] := h;
      time[slot] := now;
      slot := (slot + 1) % SLOTS;
      history := history + [Seen(h, now)];
      Around(n);
      forall k | n + 1 - SLOTS <= k < n + 1
        ensures history[k] == Seen(hash[k % SLOTS], time[k % SLOTS])
      {
        if k < n {
          Apart(n, k);
        }
      }
    }
  }
}
