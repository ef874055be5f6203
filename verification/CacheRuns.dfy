/** Runs of the cache, and the reference they are compared with: an unbounded table of the last value added for
    every key. The bounded list never answers with anything else, and it forgets a key exactly when it drops
    its entry as the oldest of a full list to make room for a new key. */
module CacheRuns {
  import opened Bits
  import opened CacheModel

  datatype State = State(entries: seq<Entry>, enabled: bool, timeout: int, hits: int, misses: int)

  /** Additions read the clock twice, for the time stamp and for the default expiry; a cleaning reads it before
      it waits for the lock. */
  datatype Op =
    | Add(key: Key, cw: seq<Byte>, hop: Byte, requested: int, stamp: int, later: int)
    | Find(key: Key, now: int)
    | Remove(key: Key)
    | Clean(asked: int)
    | Cleanup
    | SetEnabled(on: bool)
    | SetTimeout(seconds: int)

  function Start(timeout: int): State {
    State([], true, timeout, 0, 0)
  }

  function NewEntry(op: Op, timeout: int): Entry
    requires op.Add?
  {
    Entry(op.key, op.cw, op.hop, op.stamp, Expiry(op.requested, op.later, timeout), true)
  }

  function Reply(s: State, k: Key, now: int): Answer {
    if s.enabled then Looked(s.entries, k, now) else Miss
  }

  function Step(s: State, op: Op): State {
    match op
    case Add(_, _, _, _, _, _) =>
      if s.enabled then s.(entries := Added(s.entries, NewEntry(op, s.timeout))) else s
    case Find(k, now) =>
      var t := if s.enabled then s.(entries := AfterLook(s.entries, k, now)) else s;
      if Reply(s, k, now).Hit? then t.(hits := s.hits + 1) else t.(misses := s.misses + 1)
    case Remove(k) => s.(entries := Removed(s.entries, k))
    case Clean(asked) => s.(entries := Kept(s.entries, asked))
    case Cleanup => s.(entries := [], hits := 0, misses := 0)
    case SetEnabled(on) => s.(enabled := on)
    case SetTimeout(n) => if n > 0 then s.(timeout := n) else s
  }

  /** The clock does not run backwards. */
  predicate Timely(op: Op, clock: int, now: int) {
    clock <= now &&
    match op
    case Add(_, _, _, _, stamp, later) => clock <= stamp <= later <= now
    case Find(_, at) => clock <= at <= now
    case Clean(asked) => asked <= now
    case _ => true
  }

  // ----- The reference

  datatype Fact = Fact(cw: seq<Byte>, hop: Byte, expires: int, age: nat)

  datatype Table = Table(facts: map<Key, Fact>, enabled: bool, timeout: int)

  function Older(m: map<Key, Fact>): (r: map<Key, Fact>)
    ensures r.Keys == m.Keys
  {
    map k | k in m :: m[k].(age := m[k].age + 1)
  }

  function TableStep(t: Table, op: Op): Table {
    match op
    case Add(k, cw, hop, requested, _, later) =>
      if t.enabled then t.(facts := Older(t.facts)[k := Fact(cw, hop, Expiry(requested, later, t.timeout), 0)]) else t
    case Remove(k) => t.(facts := t.facts - {k})
    case Cleanup => t.(facts := map[])
    case SetEnabled(on) => t.(enabled := on)
    case SetTimeout(n) => if n > 0 then t.(timeout := n) else t
    case _ => t
  }

  function TableReply(t: Table, k: Key, now: int): Answer {
    if t.enabled && k in t.facts && now <= t.facts[k].expires
    then Hit(t.facts[k].cw, t.facts[k].hop) else Miss
  }

  // ----- Evictions

  /** The key whose entry an addition drops: the oldest of a full list, if the key added is new. */
  function Evicted(s: seq<Entry>, k: Key): set<Key> {
    if FirstMatch(s, k) == |s| >= MAX_ENTRIES && s[|s| - 1].valid then {s[|s| - 1].key} else {}
  }

  /** The keys evicted and not added again, removed or cleared since. */
  function LostStep(s: State, lost: set<Key>, op: Op): set<Key> {
    match op
    case Add(k, _, _, _, _, _) => if s.enabled then lost + Evicted(s.entries, k) - {k} else lost
    case Remove(k) => lost - {k}
    case Cleanup => {}
    case _ => lost
  }

  // ----- The refinement

  predicate Agrees(e: Entry, f: Fact) {
    e.cw == f.cw && e.hop == f.hop && e.expires == f.expires
  }

  /** Nothing but the latest values is in the list ... */
  ghost predicate Sound(s: seq<Entry>, m: map<Key, Fact>) {
    forall i :: 0 <= i < |s| && s[i].valid ==> s[i].key in m && Agrees(s[i], m[s[i].key])
  }

  /** ... and all that were not pushed out or expired are in it, no deeper than the number of additions since. */
  predicate Present(s: seq<Entry>, k: Key, age: nat) {
    FirstMatch(s, k) < |s| && FirstMatch(s, k) <= age
  }

  ghost predicate Complete(s: seq<Entry>, m: map<Key, Fact>, clock: int) {
    forall k :: k in m && m[k].age < MAX_ENTRIES && clock <= m[k].expires ==> Present(s, k, m[k].age)
  }

  /** No key that was evicted has a valid entry, and every other unexpired one has. */
  ghost predicate Gone(s: seq<Entry>, lost: set<Key>) {
    forall i :: 0 <= i < |s| && s[i].valid ==> s[i].key !in lost
  }

  ghost predicate Remembered(s: seq<Entry>, m: map<Key, Fact>, lost: set<Key>, clock: int) {
    forall k :: k in m && k !in lost && clock <= m[k].expires ==> FirstMatch(s, k) < |s|
  }

  ghost predicate Exact(s: seq<Entry>, m: map<Key, Fact>, lost: set<Key>, clock: int) {
    Gone(s, lost) && Remembered(s, m, lost, clock)
  }

  ghost predicate Refines(s: State, t: Table, lost: set<Key>, clock: int) {
    && Inv(s.entries, clock)
    && s.enabled == t.enabled && s.timeout == t.timeout
    && Sound(s.entries, t.facts) && Complete(s.entries, t.facts, clock)
    && Exact(s.entries, t.facts, lost, clock)
  }

  lemma AddSound(s: seq<Entry>, m: map<Key, Fact>, e: Entry, f: Fact, clock: int)
    requires Inv(s, clock) && Sound(s, m) && Agrees(e, f) && e.valid
    ensures Sound(Added(s, e), Older(m)[e.key := f])
  {
    hide FirstMatch;
    var t, n := Added(s, e), Older(m)[e.key := f];
    forall j | 0 <= j < |t| && t[j].valid
      ensures t[j].key in n && Agrees(t[j], n[t[j].key])
    {
      if 0 < j {
        var b := if j <= FirstMatch(s, e.key) then j - 1 else j;
        assert t[j] == s[b];
        assert !Matches(s[b], e.key);
      }
    }
  }

  lemma AddedAt(s: seq<Entry>, e: Entry, j: nat)
    requires 0 < j && (j < |s| || (j == |s| == FirstMatch(s, e.key) < MAX_ENTRIES))
    requires |s| <= MAX_ENTRIES && j < MAX_ENTRIES
    ensures j < |Added(s, e)| && Added(s, e)[j] == if j <= FirstMatch(s, e.key) then s[j - 1] else s[j]
  {
    hide FirstMatch;
  }

  lemma NotPast(s: seq<Entry>, k: Key, q: nat)
    requires q < |s| && Matches(s[q], k)
    ensures FirstMatch(s, k) <= q
  {
    hide FirstMatch;
  }

  /** An addition pushes every other key at most one place down. */
  lemma AddedMoves(s: seq<Entry>, e: Entry, k: Key)
    requires k != e.key && |s| <= MAX_ENTRIES && FirstMatch(s, k) < |s|
    requires FirstMatch(s, k) < MAX_ENTRIES - 1
    ensures Present(Added(s, e), k, FirstMatch(s, k) + 1)
  {
    hide FirstMatch, Added;
    var i, p := FirstMatch(s, e.key), FirstMatch(s, k);
    var q := if p < i then p + 1 else p;
    AddedAt(s, e, q);
    NotPast(Added(s, e), k, q);
  }

  lemma AddComplete(s: seq<Entry>, m: map<Key, Fact>, e: Entry, f: Fact, clock: int, now: int)
    requires Inv(s, clock) && Complete(s, m, clock) && clock <= now && e.valid && f.age == 0
    ensures Complete(Added(s, e), Older(m)[e.key := f], now)
  {
    hide FirstMatch, Added;
    var n := Older(m)[e.key := f];
    forall k | k in n && n[k].age < MAX_ENTRIES && now <= n[k].expires
      ensures Present(Added(s, e), k, n[k].age)
    {
      if k == e.key {
        FirstMatchIs(Added(s, e), k, 0);
      } else {
        assert Present(s, k, m[k].age);
        AddedMoves(s, e, k);
      }
    }
  }

  /** An entry that is not the one dropped stays. */
  lemma AddedFinds(s: seq<Entry>, e: Entry, k: Key)
    requires k != e.key && |s| <= MAX_ENTRIES && FirstMatch(s, k) < |s|
    requires FirstMatch(s, e.key) == |s| == MAX_ENTRIES ==> FirstMatch(s, k) < |s| - 1
    ensures FirstMatch(Added(s, e), k) < |Added(s, e)|
  {
    hide FirstMatch, Added;
    var i, p := FirstMatch(s, e.key), FirstMatch(s, k);
    var q := if p < i then p + 1 else p;
    AddedAt(s, e, q);
    NotPast(Added(s, e), k, q);
  }

  lemma AddGone(s: seq<Entry>, lost: set<Key>, e: Entry, clock: int)
    requires Inv(s, clock) && Gone(s, lost) && e.valid
    ensures Gone(Added(s, e), lost + Evicted(s, e.key) - {e.key})
  {
    hide FirstMatch;
    var t := Added(s, e);
    forall j | 0 < j < |t| && t[j].valid
      ensures t[j].key !in lost + Evicted(s, e.key)
    {
      var b := if j <= FirstMatch(s, e.key) then j - 1 else j;
      assert t[j] == s[b];
    }
  }

  lemma AddRemembered(s: seq<Entry>, m: map<Key, Fact>, lost: set<Key>, e: Entry, f: Fact, clock: int, now: int)
    requires Inv(s, clock) && Remembered(s, m, lost, clock) && clock <= now && e.valid
    ensures Remembered(Added(s, e), Older(m)[e.key := f], lost + Evicted(s, e.key) - {e.key}, now)
  {
    hide FirstMatch, Added;
    var n, gone := Older(m)[e.key := f], lost + Evicted(s, e.key) - {e.key};
    forall k | k in n && k !in gone && now <= n[k].expires
      ensures FirstMatch(Added(s, e), k) < |Added(s, e)|
    {
      if k == e.key {
        FirstMatchIs(Added(s, e), k, 0);
      } else {
        assert Matches(s[FirstMatch(s, k)], k);
        AddedFinds(s, e, k);
      }
    }
  }

  lemma RemovedMoves(s: seq<Entry>, k: Key, x: Key)
    requires x != k && FirstMatch(s, x) < |s|
    ensures Present(Removed(s, k), x, FirstMatch(s, x))
  {
    hide FirstMatch;
    var i, p := FirstMatch(s, k), FirstMatch(s, x);
    var t := Removed(s, k);
    var q := if p < i then p else p - 1;
    assert t[q] == s[p];
    NotPast(t, x, q);
  }

  lemma RemoveExact(s: seq<Entry>, m: map<Key, Fact>, lost: set<Key>, k: Key, clock: int, now: int)
    requires Inv(s, clock) && clock <= now && Exact(s, m, lost, clock)
    ensures Exact(Removed(s, k), m - {k}, lost - {k}, now)
  {
    hide FirstMatch;
    var t := Removed(s, k);
    RemovedInv(s, k, clock, now);
    forall j | 0 <= j < |t| && t[j].valid
      ensures t[j].key !in lost - {k}
    {
      var b := if j < FirstMatch(s, k) then j else j + 1;
      assert t[j] == s[b];
    }
    forall x | x in m - {k} && x !in lost - {k} && now <= m[x].expires
      ensures FirstMatch(t, x) < |t|
    {
      RemovedMoves(s, k, x);
    }
  }

  lemma LookExact(s: seq<Entry>, m: map<Key, Fact>, lost: set<Key>, k: Key, clock: int, now: int, later: int)
    requires Inv(s, clock) && clock <= now <= later && Sound(s, m) && Exact(s, m, lost, clock)
    ensures Exact(AfterLook(s, k, now), m, lost, later)
  {
    hide FirstMatch;
    var t := AfterLook(s, k, now);
    forall j | 0 <= j < |t| && t[j].valid
      ensures t[j].key !in lost
    {
      assert t[j] == s[j];
    }
    forall x | x in m && x !in lost && later <= m[x].expires
      ensures FirstMatch(t, x) < |t|
    {
      var p := FirstMatch(s, x);
      assert Agrees(s[p], m[x]);
      assert t[p] == s[p];
      NotPast(t, x, p);
    }
  }

  lemma {:induction false} KeptMoves(s: seq<Entry>, asked: int, x: Key)
    requires FirstMatch(s, x) < |s| && asked <= s[FirstMatch(s, x)].expires
    ensures Present(Kept(s, asked), x, FirstMatch(s, x))
  {
    var t := Kept(s, asked);
    if Matches(s[0], x) {
      FirstMatchIs(t, x, 0);
    } else {
      KeptMoves(s[1..], asked, x);
      var rest := Kept(s[1..], asked);
      if asked <= s[0].expires {
        assert t[1..] == rest;
      }
    }
  }

  lemma KeepExact(s: seq<Entry>, m: map<Key, Fact>, lost: set<Key>, clock: int, asked: int, now: int)
    requires Inv(s, clock) && clock <= now && asked <= now && Sound(s, m) && Exact(s, m, lost, clock)
    ensures Exact(Kept(s, asked), m, lost, now)
  {
    hide FirstMatch, Kept;
    KeptMembers(s, asked);
    var t := Kept(s, asked);
    forall j | 0 <= j < |t| && t[j].valid
      ensures t[j].key !in lost
    {
      assert t[j] in s;
    }
    forall x | x in m && x !in lost && now <= m[x].expires
      ensures FirstMatch(t, x) < |t|
    {
      assert Agrees(s[FirstMatch(s, x)], m[x]);
      KeptMoves(s, asked, x);
    }
  }

  lemma RemoveRefines(s: seq<Entry>, m: map<Key, Fact>, k: Key, clock: int, now: int)
    requires Inv(s, clock) && clock <= now && Sound(s, m) && Complete(s, m, clock)
    ensures Sound(Removed(s, k), m - {k}) && Complete(Removed(s, k), m - {k}, now)
  {
    hide FirstMatch;
    var t, n := Removed(s, k), m - {k};
    RemovedInv(s, k, clock, now);
    forall j | 0 <= j < |t| && t[j].valid
      ensures t[j].key in n && Agrees(t[j], n[t[j].key])
    {
      var b := if j < FirstMatch(s, k) then j else j + 1;
      assert t[j] == s[b] && !Matches(t[j], k);
    }
    forall x | x in n && n[x].age < MAX_ENTRIES && now <= n[x].expires
      ensures Present(t, x, n[x].age)
    {
      assert Present(s, x, m[x].age);
      RemovedMoves(s, k, x);
    }
  }

  lemma LookRefines(s: seq<Entry>, m: map<Key, Fact>, k: Key, clock: int, now: int, later: int)
    requires Inv(s, clock) && clock <= now <= later && Sound(s, m) && Complete(s, m, clock)
    ensures Sound(AfterLook(s, k, now), m) && Complete(AfterLook(s, k, now), m, later)
  {
    hide FirstMatch;
    var t := AfterLook(s, k, now);
    var i := FirstMatch(s, k);
    forall x | x in m && m[x].age < MAX_ENTRIES && later <= m[x].expires
      ensures Present(t, x, m[x].age)
    {
      assert Present(s, x, m[x].age);
      var p := FirstMatch(s, x);
      assert Agrees(s[p], m[x]);
      assert t[p] == s[p];
      NotPast(t, x, p);
    }
  }

  lemma KeepRefines(s: seq<Entry>, m: map<Key, Fact>, clock: int, asked: int, now: int)
    requires Inv(s, clock) && clock <= now && asked <= now && Sound(s, m) && Complete(s, m, clock)
    ensures Sound(Kept(s, asked), m) && Complete(Kept(s, asked), m, now)
  {
    hide FirstMatch, Kept;
    KeptMembers(s, asked);
    var t := Kept(s, asked);
    forall j | 0 <= j < |t| && t[j].valid
      ensures t[j].key in m && Agrees(t[j], m[t[j].key])
    {
      assert t[j] in s;
    }
    forall x | x in m && m[x].age < MAX_ENTRIES && now <= m[x].expires
      ensures Present(t, x, m[x].age)
    {
      assert Present(s, x, m[x].age);
      assert Agrees(s[FirstMatch(s, x)], m[x]);
      KeptMoves(s, asked, x);
    }
  }

  lemma AddExact(s: seq<Entry>, m: map<Key, Fact>, lost: set<Key>, e: Entry, f: Fact, clock: int, now: int)
    requires Inv(s, clock) && Exact(s, m, lost, clock) && clock <= now && e.valid
    ensures Exact(Added(s, e), Older(m)[e.key := f], lost + Evicted(s, e.key) - {e.key}, now)
  {
    AddGone(s, lost, e, clock);
    AddRemembered(s, m, lost, e, f, clock, now);
  }

  lemma EmptyRefines(now: int)
    ensures Inv([], now) && Sound([], map[]) && Complete([], map[], now) && Exact([], map[], {}, now)
  {
  }

  lemma LaterInv(s: seq<Entry>, clock: int, now: int)
    requires Inv(s, clock) && clock <= now
    ensures Inv(s, now)
  {
  }

  lemma Later(s: State, t: Table, lost: set<Key>, clock: int, now: int)
    requires Refines(s, t, lost, clock) && clock <= now
    ensures Refines(s, t, lost, now)
  {
    hide FirstMatch;
    forall k | k in t.facts && t.facts[k].age < MAX_ENTRIES && now <= t.facts[k].expires
      ensures Present(s.entries, k, t.facts[k].age)
    {
    }
  }

  /** One step of both. */
  lemma StepRefines(s: State, t: Table, lost: set<Key>, op: Op, clock: int, now: int)
    requires Refines(s, t, lost, clock) && Timely(op, clock, now)
    ensures Refines(Step(s, op), TableStep(t, op), LostStep(s, lost, op), now)
  {
    hide FirstMatch, Added, Removed, Kept, AfterLook, Older, Inv, Sound, Complete, Exact, Looked, Evicted;
    match op
    case Add(k, cw, hop, requested, stamp, later) =>
      if s.enabled {
        var e := NewEntry(op, s.timeout);
        var f := Fact(cw, hop, Expiry(requested, later, s.timeout), 0);
        AddedInv(s.entries, e, clock, now);
        AddSound(s.entries, t.facts, e, f, clock);
        AddComplete(s.entries, t.facts, e, f, clock, now);
        AddExact(s.entries, t.facts, lost, e, f, clock, now);
      } else {
        Later(s, t, lost, clock, now);
      }
    case Find(k, at) =>
      AfterLookInv(s.entries, k, clock, at);
      LookRefines(s.entries, t.facts, k, clock, at, now);
      LookExact(s.entries, t.facts, lost, k, clock, at, now);
      LaterInv(AfterLook(s.entries, k, at), at, now);
      Later(s, t, lost, clock, now);
    case Remove(k) =>
      RemovedInv(s.entries, k, clock, now);
      RemoveRefines(s.entries, t.facts, k, clock, now);
      RemoveExact(s.entries, t.facts, lost, k, clock, now);
    case Clean(asked) =>
      KeptInv(s.entries, clock, asked, now);
      KeepRefines(s.entries, t.facts, clock, asked, now);
      KeepExact(s.entries, t.facts, lost, clock, asked, now);
    case Cleanup =>
      EmptyRefines(now);
    case SetEnabled(_) =>
      Later(s, t, lost, clock, now);
    case SetTimeout(_) =>
      Later(s, t, lost, clock, now);
  }

  // ----- Whole runs

  datatype Timed = Timed(op: Op, now: int)

  predicate Clocked(run: seq<Timed>, clock: int) {
    run == [] || (Timely(run[0].op, clock, run[0].now) && Clocked(run[1..], run[0].now))
  }

  function End(run: seq<Timed>, clock: int): int {
    if run == [] then clock else End(run[1..], run[0].now)
  }

  function Run(s: State, run: seq<Timed>): State
    decreases |run|
  {
    if run == [] then s else Run(Step(s, run[0].op), run[1..])
  }

  function TableRun(t: Table, run: seq<Timed>): Table
    decreases |run|
  {
    if run == [] then t else TableRun(TableStep(t, run[0].op), run[1..])
  }

  function LostRun(s: State, lost: set<Key>, run: seq<Timed>): set<Key>
    decreases |run|
  {
    if run == [] then lost else LostRun(Step(s, run[0].op), LostStep(s, lost, run[0].op), run[1..])
  }

  lemma {:induction false} RunRefines(s: State, t: Table, lost: set<Key>, run: seq<Timed>, clock: int)
    requires Refines(s, t, lost, clock) && Clocked(run, clock)
    ensures Refines(Run(s, run), TableRun(t, run), LostRun(s, lost, run), End(run, clock))
    decreases |run|
  {
    hide FirstMatch, Refines, Step, TableStep, LostStep;
    if run != [] {
      StepRefines(s, t, lost, run[0].op, clock, run[0].now);
      RunRefines(Step(s, run[0].op), TableStep(t, run[0].op), LostStep(s, lost, run[0].op), run[1..], run[0].now);
    }
  }

  /** A hit is what the reference answers; and what the reference answers the list answers too, if and only if
      the key's entry has not been evicted. */
  lemma AnswersAgree(s: State, t: Table, lost: set<Key>, k: Key, clock: int, now: int)
    requires Refines(s, t, lost, clock) && clock <= now
    ensures Reply(s, k, now).Hit? ==> Reply(s, k, now) == TableReply(t, k, now)
    ensures TableReply(t, k, now).Hit? ==> (Reply(s, k, now) == TableReply(t, k, now) <==> k !in lost)
  {
    hide FirstMatch;
    var i := FirstMatch(s.entries, k);
    if TableReply(t, k, now).Hit? && k !in lost {
      assert i < |s.entries|;
      assert Agrees(s.entries[i], t.facts[k]);
    }
  }

  /** After any run from the start, whatever the interleaving of its callers. */
  lemma FindAfterRun(timeout: int, run: seq<Timed>, clock: int, k: Key, now: int)
    requires Clocked(run, clock) && End(run, clock) <= now
    ensures
      var s, t := Run(Start(timeout), run), TableRun(Table(map[], true, timeout), run);
      var lost := LostRun(Start(timeout), {}, run);
      && |s.entries| <= MAX_ENTRIES
      && (Reply(s, k, now).Hit? ==> Reply(s, k, now) == TableReply(t, k, now))
      && (TableReply(t, k, now).Hit? ==> (Reply(s, k, now) == TableReply(t, k, now) <==> k !in lost))
  {
    hide FirstMatch, Run, TableRun, LostRun, Sound, Complete, Exact;
    EmptyRefines(clock);
    RunRefines(Start(timeout), Table(map[], true, timeout), {}, run, clock);
    AnswersAgree(Run(Start(timeout), run), TableRun(Table(map[], true, timeout), run),
      LostRun(Start(timeout), {}, run), k, End(run, clock), now);
  }

  lemma GoneAbsent(s: seq<Entry>, lost: set<Key>, k: Key)
    requires Gone(s, lost) && k in lost
    ensures FirstMatch(s, k) == |s|
  {
    hide FirstMatch;
  }

  /** It takes 1024 additions since its own to evict a key. */
  lemma EvictionTakesAll(s: State, t: Table, lost: set<Key>, k: Key, clock: int)
    requires Refines(s, t, lost, clock)
    requires k in lost && k in t.facts && clock <= t.facts[k].expires
    ensures t.facts[k].age >= 1024
  {
    GoneAbsent(s.entries, lost, k);
    assert !Present(s.entries, k, t.facts[k].age);
  }

  predicate InList(s: State, k: Key) {
    FirstMatch(s.entries, k) < |s.entries|
  }

  lemma ReplacedStays(s: seq<Entry>, e: Entry, k: Key)
    requires e.valid && FirstMatch(s, e.key) < |s| && FirstMatch(s, k) < |s|
    ensures FirstMatch(Added(s, e), k) < |Added(s, e)|
  {
    hide FirstMatch;
    var t := Added(s, e);
    if k == e.key {
      NotPast(t, k, 0);
    } else {
      var i, p := FirstMatch(s, e.key), FirstMatch(s, k);
      var q := if p < i then p + 1 else p;
      assert t[q] == s[p];
      NotPast(t, k, q);
    }
  }

  /** Adding other keys that are in the list already evicts nothing, however often. */
  lemma {:induction false} ReplacingEvictsNothing(s: State, lost: set<Key>, run: seq<Timed>)
    requires forall i :: 0 <= i < |run| ==> run[i].op.Add? && InList(s, run[i].op.key)
    ensures LostRun(s, lost, run) <= lost
    decreases |run|
  {
    hide FirstMatch, Added;
    if run != [] {
      var u := Step(s, run[0].op);
      forall i | 0 <= i < |run[1..]|
        ensures InList(u, run[1..][i].op.key)
      {
        assert run[1..][i] == run[i + 1];
        if s.enabled {
          ReplacedStays(s.entries, NewEntry(run[0].op, s.timeout), run[i + 1].op.key);
        }
      }
      ReplacingEvictsNothing(u, LostStep(s, lost, run[0].op), run[1..]);
    }
  }

  /** With the list full, an addition for a new key drops one entry, and no entry was added before it. */
  lemma EvictsOldest(s: seq<Entry>, e: Entry, clock: int)
    requires Inv(s, clock) && |s| == 1024 && FirstMatch(s, e.key) == |s|
    ensures Added(s, e) == [e] + s[..|s| - 1]
    ensures forall i :: 0 <= i < |s| ==> s[|s| - 1].timestamp <= s[i].timestamp
  {
    hide FirstMatch;
  }
}
