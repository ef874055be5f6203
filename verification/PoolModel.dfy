/** The client pool as a state machine whose steps are the sections under the pool mutex, and what one
    thread does to memory nobody else can reach.

    The C heap is explicit: `heap` maps the address of every allocated client to its fields and `free`
    removes the address. What the threads still have to do is kept apart from the heap, in `duty`: no
    section looks at it, and freeing a client takes nothing from it but the thread's own errand. That a
    thread with something left to do never meets freed memory is therefore a theorem. */
module PoolModel {

  /** An address; 0 is NULL. */
  type Addr = nat

  const MAX_CLIENTS: nat := 100

  datatype Client = Client(id: int, fd: int, refs: int, zombie: bool)

  /** What threads hold: a new client to publish, the one destroy of a published client, a reference to
      return, a client a section told them to close and free, and one they have closed and must free. */
  datatype Duty = Duty(
    creating: multiset<Addr>,
    owners: multiset<Addr>,
    held: multiset<Addr>,
    toClose: multiset<Addr>,
    toFree: multiset<Addr>)

  /** What has happened so far. A section reports when it tells its thread to free; a client that found
      no slot is rejected. */
  datatype Log = Log(
    allocs: multiset<Addr>,
    frees: multiset<Addr>,
    opens: multiset<Addr>,
    closes: multiset<Addr>,
    reports: multiset<Addr>,
    rejects: multiset<Addr>)

  datatype State = State(slots: seq<Addr>, count: int, heap: map<Addr, Client>, duty: Duty, log: Log)

  /** The steps of all threads. */
  datatype Action =
    | Alloc(a: Addr, id: int, fd: int)
    | Publish(a: Addr)
    | Destroy(a: Addr)
    | Ref(a: Addr)
    | Unref(a: Addr)
    | FindById(id: int)
    | GetByIndexRef(index: int)
    | CloseSocket(a: Addr)
    | Free(a: Addr)

  // ----- Steps

  function Idle(): Duty {
    Duty(multiset{}, multiset{}, multiset{}, multiset{}, multiset{})
  }

  function Init(): State {
    State(seq(MAX_CLIENTS, _ => 0), 0, map[], Idle(),
          Log(multiset{}, multiset{}, multiset{}, multiset{}, multiset{}, multiset{}))
  }

  /** The first slot that holds `a`, or the number of slots. */
  function SlotOf(slots: seq<Addr>, a: Addr): (i: nat)
    ensures i <= |slots|
    ensures i < |slots| ==> slots[i] == a
    ensures forall j | 0 <= j < i :: slots[j] != a
  {
    if slots == [] then 0
    else if slots[0] == a then 0
    else 1 + SlotOf(slots[1..], a)
  }

  /** The client in the first slot whose client has this id, or NULL. */
  function ClientWithId(s: State, slots: seq<Addr>, id: int): (a: Addr)
    ensures a == 0 || (a in slots && a in s.heap && s.heap[a].id == id)
  {
    if slots == [] then 0
    else if slots[0] != 0 && slots[0] in s.heap && s.heap[slots[0]].id == id then slots[0]
    else ClientWithId(s, slots[1..], id)
  }

  /** The address is that of a client with this number. */
  predicate HasId(heap: map<Addr, Client>, a: Addr, id: int) {
    a != 0 && a in heap && heap[a].id == id
  }

  predicate NobodyHas(heap: map<Addr, Client>, slots: seq<Addr>, id: int) {
    forall j | 0 <= j < |slots| :: !HasId(heap, slots[j], id)
  }

  /** Slot `i` is the least that holds a client with this number. */
  predicate FirstWith(heap: map<Addr, Client>, slots: seq<Addr>, id: int, i: int) {
    0 <= i < |slots| && HasId(heap, slots[i], id) && NobodyHas(heap, slots[..i], id)
  }

  /** The search by number returns the client of the least slot that holds one with the number ... */
  lemma {:induction false} SearchFindsFirst(s: State, slots: seq<Addr>, id: int, i: int)
    requires FirstWith(s.heap, slots, id, i)
    ensures ClientWithId(s, slots, id) == slots[i]
  {
    if i == 0 {
    } else {
      assert !HasId(s.heap, slots[..i][0], id);
      assert slots[1..][..i - 1] == slots[..i][1..];
      SearchFindsFirst(s, slots[1..], id, i - 1);
    }
  }

  /** ... and nothing only if no slot does. */
  lemma {:induction false} SearchFindsNone(s: State, slots: seq<Addr>, id: int)
    requires NobodyHas(s.heap, slots, id)
    ensures ClientWithId(s, slots, id) == 0
  {
    if slots == [] {
    } else {
      assert !HasId(s.heap, slots[0], id);
      SearchFindsNone(s, slots[1..], id);
    }
  }

  /** One more reference, handed to the caller, unless the client is marked for removal. */
  function Acquire(s: State, a: Addr): State
    requires a == 0 || a in s.heap
  {
    if a == 0 || s.heap[a].zombie then s
    else
      s.(heap := s.heap[a := s.heap[a].(refs := s.heap[a].refs + 1)],
         duty := s.duty.(held := s.duty.held + multiset{a}))
  }

  function AllocStep(s: State, a: Addr, id: int, fd: int): State {
    s.(heap := s.heap[a := Client(id, fd, 1, false)],
       duty := s.duty.(creating := s.duty.creating + multiset{a}),
       log := s.log.(allocs := s.log.allocs + multiset{a}))
  }

  /** The client takes the first free slot; without one its creator is left to free it. */
  function PublishStep(s: State, a: Addr): State
    requires a in s.heap
  {
    var i := SlotOf(s.slots, 0);
    var d := s.duty.(creating := s.duty.creating - multiset{a});
    if i < |s.slots| then
      s.(slots := s.slots[i := a], count := s.count + 1,
         duty := d.(owners := d.owners + multiset{a}),
         log := if s.heap[a].fd >= 0 then s.log.(opens := s.log.opens + multiset{a}) else s.log)
    else
      s.(duty := d.(toFree := d.toFree + multiset{a}), log := s.log.(rejects := s.log.rejects + multiset{a}))
  }

  /** A section's `free_now`. */
  function Report(s: State, a: Addr): State {
    s.(duty := s.duty.(toClose := s.duty.toClose + multiset{a}),
       log := s.log.(reports := s.log.reports + multiset{a}))
  }

  predicate DestroyReports(s: State, a: Addr)
    requires a in s.heap
  {
    s.heap[a].refs == 1
  }

  function DestroyStep(s: State, a: Addr): State
    requires a in s.heap
  {
    var i := SlotOf(s.slots, a);
    var t := s.(heap := s.heap[a := s.heap[a].(zombie := true, refs := s.heap[a].refs - 1)],
                duty := s.duty.(owners := s.duty.owners - multiset{a}));
    var u := if i < |s.slots| then t.(slots := s.slots[i := 0], count := s.count - 1) else t;
    if DestroyReports(s, a) then Report(u, a) else u
  }

  function Dropped(c: Client): Client {
    if c.refs > 0 then c.(refs := c.refs - 1) else c
  }

  predicate UnrefReports(s: State, a: Addr)
    requires a in s.heap
  {
    Dropped(s.heap[a]).refs == 0 && s.heap[a].zombie
  }

  function UnrefStep(s: State, a: Addr): State
    requires a in s.heap
  {
    var t := s.(heap := s.heap[a := Dropped(s.heap[a])], duty := s.duty.(held := s.duty.held - multiset{a}));
    if UnrefReports(s, a) then Report(t, a) else t
  }

  function CloseStep(s: State, a: Addr): State
    requires a in s.heap
  {
    var t := s.(duty := s.duty.(toClose := s.duty.toClose - multiset{a}, toFree := s.duty.toFree + multiset{a}));
    if s.heap[a].fd >= 0 then
      t.(heap := s.heap[a := s.heap[a].(fd := -1)], log := s.log.(closes := s.log.closes + multiset{a}))
    else t
  }

  function FreeStep(s: State, a: Addr): State {
    s.(heap := s.heap - {a}, duty := s.duty.(toFree := s.duty.toFree - multiset{a}),
       log := s.log.(frees := s.log.frees + multiset{a}))
  }

  /** What threads see to themselves: each does only what it still has to do, or uses what it holds. The
      state of the heap does not come into it, but for the allocator's choice of an address. */
  predicate Allowed(s: State, act: Action) {
    match act
    case Alloc(a, _, _) => a != 0 && a !in s.heap
    case Publish(a) => a in s.duty.creating
    case Destroy(a) => a in s.duty.owners
    case Ref(a) => a in s.duty.owners || a in s.duty.held
    case Unref(a) => a in s.duty.held
    case FindById(_) => true
    case GetByIndexRef(_) => true
    case CloseSocket(a) => a in s.duty.toClose
    case Free(a) => a in s.duty.toFree
  }

  /** The step touches allocated memory only. */
  predicate Safe(s: State, act: Action) {
    match act
    case Alloc(_, _, _) => true
    case FindById(_) => forall i | 0 <= i < |s.slots| :: s.slots[i] == 0 || s.slots[i] in s.heap
    case GetByIndexRef(i) => 0 <= i < |s.slots| ==> s.slots[i] == 0 || s.slots[i] in s.heap
    case _ => act.a in s.heap
  }

  function Step(s: State, act: Action): State
    requires Allowed(s, act) && Safe(s, act)
  {
    match act
    case Alloc(a, id, fd) => AllocStep(s, a, id, fd)
    case Publish(a) => PublishStep(s, a)
    case Destroy(a) => DestroyStep(s, a)
    case Ref(a) => Acquire(s, a)
    case Unref(a) => UnrefStep(s, a)
    case FindById(id) => Acquire(s, ClientWithId(s, s.slots, id))
    case GetByIndexRef(i) => if 0 <= i < |s.slots| then Acquire(s, s.slots[i]) else s
    case CloseSocket(a) => CloseStep(s, a)
    case Free(a) => FreeStep(s, a)
  }

  /** One step of some thread. After a step that touches freed memory anything may be the case. */
  ghost predicate Next(s: State, act: Action, t: State) {
    Allowed(s, act) && (Safe(s, act) ==> t == Step(s, act))
  }

  /** The threads' steps in some interleaving. */
  ghost predicate Path(states: seq<State>, acts: seq<Action>) {
    |states| == |acts| + 1 && forall i | 0 <= i < |acts| :: Next(states[i], acts[i], states[i + 1])
  }

  /** The same from the empty pool on. */
  ghost predicate Run(states: seq<State>, acts: seq<Action>) {
    Path(states, acts) && states[0] == Init()
  }

  // ----- Invariant

  /** How many slots hold a client. */
  function Occupied(slots: seq<Addr>): nat {
    if slots == [] then 0 else (if slots[0] != 0 then 1 else 0) + Occupied(slots[1..])
  }

  /** What the fields of a client are while its creator, the owner of its destroy, holders of references,
      or one thread told to close or free it still have something to do, and nobody else has. */
  predicate ClientOk(c: Client, creating: nat, owners: nat, held: nat, toClose: nat, toFree: nat) {
    || (creating == 1 && owners + held + toClose + toFree == 0 && c.refs == 1 && !c.zombie)
    || (owners == 1 && creating + toClose + toFree == 0 && c.refs == 1 + held && !c.zombie)
    || (creating + owners + toClose + toFree == 0 && c.refs == held > 0 && c.zombie)
    || (toClose == 1 && creating + owners + held + toFree == 0 && c.refs == 0 && c.zombie)
    || (toFree == 1 && creating + owners + held + toClose == 0 && c.refs == 0 && c.zombie && c.fd < 0)
    || (toFree == 1 && creating + owners + held + toClose == 0 && c.refs == 1 && !c.zombie)
  }

  /** The client's socket is open and it is the pool's to close. */
  predicate HoldsSocket(s: State, a: Addr) {
    a in s.heap && s.heap[a].fd >= 0 && s.duty.owners[a] + s.duty.held[a] + s.duty.toClose[a] > 0
  }

  /** What holds of every address: nobody has anything left to do with a client that is not allocated;
      one that is allocated is consistent; it is in the table exactly while it waits for its destroy; and
      every allocation was freed once or is still allocated, every socket was closed once or is still
      open, every report or rejection was followed by a free or is being acted on. */
  predicate AddrOk(s: State, a: Addr) {
    var d := s.duty;
    && (if a in s.heap
        then a != 0 && ClientOk(s.heap[a], d.creating[a], d.owners[a], d.held[a], d.toClose[a], d.toFree[a])
        else d.creating[a] + d.owners[a] + d.held[a] + d.toClose[a] + d.toFree[a] == 0)
    && (a != 0 ==> (a in s.slots <==> d.owners[a] == 1))
    && s.log.allocs[a] == s.log.frees[a] + (if a in s.heap then 1 else 0)
    && s.log.opens[a] == s.log.closes[a] + (if HoldsSocket(s, a) then 1 else 0)
    && s.log.reports[a] + s.log.rejects[a] == s.log.frees[a] + d.toClose[a] + d.toFree[a]
  }

  /** No client has two slots. */
  ghost predicate Distinct(slots: seq<Addr>) {
    forall i, j | 0 <= i < j < |slots| :: slots[i] != 0 ==> slots[i] != slots[j]
  }

  ghost predicate Inv(s: State) {
    && |s.slots| == MAX_CLIENTS
    && s.count == Occupied(s.slots)
    && Distinct(s.slots)
    && forall a :: AddrOk(s, a)
  }

  // ----- Every step keeps the invariant

  lemma {:induction false} OccupiedUpdate(slots: seq<Addr>, i: nat, a: Addr)
    requires i < |slots|
    ensures Occupied(slots[i := a])
         == Occupied(slots) - (if slots[i] != 0 then 1 else 0) + (if a != 0 then 1 else 0)
  {
    if i == 0 {
      assert slots[0 := a][1..] == slots[1..];
    } else {
      OccupiedUpdate(slots[1..], i - 1, a);
      assert slots[i := a][1..] == slots[1..][i - 1 := a];
    }
  }

  lemma {:induction false} AllEmpty(slots: seq<Addr>)
    requires forall i | 0 <= i < |slots| :: slots[i] == 0
    ensures Occupied(slots) == 0
  {
    if slots != [] {
      AllEmpty(slots[1..]);
    }
  }

  lemma InitOk(a: Addr)
    ensures AddrOk(Init(), a)
  {
  }

  lemma InitInv()
    ensures Inv(Init())
  {
    hide AddrOk;
    AllEmpty(Init().slots);
    forall a
      ensures AddrOk(Init(), a)
    {
      InitOk(a);
    }
  }

  /** Filling an empty slot with a newcomer or emptying the slot of a client keeps the table tidy. */
  lemma TableUpdate(slots: seq<Addr>, i: nat, a: Addr)
    requires i < |slots| && Distinct(slots)
    requires a == 0 || (slots[i] == 0 && a !in slots)
    ensures Distinct(slots[i := a])
    ensures forall b | b != 0 :: b in slots[i := a] <==> b == a || (b in slots && b != slots[i])
  {
    var t := slots[i := a];
    assert t[i] == a;
    forall b | b != 0 && b in slots && b != slots[i]
      ensures b in t
    {
      var j :| 0 <= j < |slots| && slots[j] == b;
      assert t[j] == b;
    }
  }

  /** Everything recorded about an address apart from its client and its slot. */
  predicate SameRecords(s: State, t: State, a: Addr) {
    && s.duty.creating[a] == t.duty.creating[a] && s.duty.owners[a] == t.duty.owners[a]
    && s.duty.held[a] == t.duty.held[a] && s.duty.toClose[a] == t.duty.toClose[a]
    && s.duty.toFree[a] == t.duty.toFree[a]
    && s.log.allocs[a] == t.log.allocs[a] && s.log.frees[a] == t.log.frees[a]
    && s.log.opens[a] == t.log.opens[a] && s.log.closes[a] == t.log.closes[a]
    && s.log.reports[a] == t.log.reports[a] && s.log.rejects[a] == t.log.rejects[a]
  }

  lemma SameEntry<T>(m: map<Addr, T>, n: map<Addr, T>, a: Addr, b: Addr)
    requires m - {a} == n - {a} && a != b
    ensures b in m <==> b in n
    ensures b in m ==> m[b] == n[b]
  {
    assert b in m - {a} <==> b in n - {a};
    if b in m {
      assert m[b] == (m - {a})[b];
      assert n[b] == (n - {a})[b];
    }
  }

  /** A step that changes one client and at most its slot keeps the other addresses as they are. */
  lemma OtherClients(s: State, t: State, a: Addr)
    requires forall b :: AddrOk(s, b)
    requires AddrOk(t, a)
    requires forall b | b != a && b != 0 :: b in t.slots <==> b in s.slots
    requires t.heap - {a} == s.heap - {a}
    requires forall b | b != a :: SameRecords(s, t, b)
    ensures forall b :: AddrOk(t, b)
  {
    forall b
      ensures AddrOk(t, b)
    {
      if b != a {
        assert AddrOk(s, b);
        assert SameRecords(s, t, b);
        SameEntry(s.heap, t.heap, a, b);
      }
    }
  }

  /** What is in the table is allocated and not marked for removal. */
  lemma TableUnmarked(s: State, i: nat)
    requires Inv(s) && i < |s.slots| && s.slots[i] != 0
    ensures s.slots[i] in s.heap && !s.heap[s.slots[i]].zombie
  {
    assert s.slots[i] in s.slots;
    assert AddrOk(s, s.slots[i]);
  }

  lemma OneClient(s: State, t: State, a: Addr)
    requires Inv(s) && t.slots == s.slots && t.count == s.count
    requires AddrOk(t, a)
    requires t.heap - {a} == s.heap - {a}
    requires forall b | b != a :: SameRecords(s, t, b)
    ensures Inv(t)
  {
    OtherClients(s, t, a);
  }

  lemma AcquireInv(s: State, a: Addr)
    requires Inv(s) && (a == 0 || (a in s.heap && (a in s.duty.owners || a in s.duty.held)))
    ensures Inv(Acquire(s, a))
  {
    assert AddrOk(s, a);
    OneClient(s, Acquire(s, a), a);
  }

  lemma RejectInv(s: State, a: Addr)
    requires Inv(s) && a in s.heap && a in s.duty.creating && SlotOf(s.slots, 0) == |s.slots|
    ensures Inv(PublishStep(s, a))
  {
    assert AddrOk(s, a);
    OneClient(s, PublishStep(s, a), a);
  }

  lemma PublishInv(s: State, a: Addr)
    requires Inv(s) && a in s.heap && a in s.duty.creating
    ensures Inv(PublishStep(s, a))
  {
    assert AddrOk(s, a);
    var i := SlotOf(s.slots, 0);
    if i < |s.slots| {
      OccupiedUpdate(s.slots, i, a);
      TableUpdate(s.slots, i, a);
      OtherClients(s, PublishStep(s, a), a);
    } else {
      RejectInv(s, a);
    }
  }

  lemma DestroyInv(s: State, a: Addr)
    requires Inv(s) && a in s.heap && a in s.duty.owners
    ensures Inv(DestroyStep(s, a))
  {
    assert AddrOk(s, a);
    var i := SlotOf(s.slots, a);
    OccupiedUpdate(s.slots, i, 0);
    TableUpdate(s.slots, i, 0);
    OtherClients(s, DestroyStep(s, a), a);
  }

  lemma AllocInv(s: State, a: Addr, id: int, fd: int)
    requires Inv(s) && a != 0 && a !in s.heap
    ensures Inv(AllocStep(s, a, id, fd))
  {
    assert AddrOk(s, a);
    OneClient(s, AllocStep(s, a, id, fd), a);
  }

  lemma UnrefInv(s: State, a: Addr)
    requires Inv(s) && a in s.heap && a in s.duty.held
    ensures Inv(UnrefStep(s, a))
  {
    assert AddrOk(s, a);
    OneClient(s, UnrefStep(s, a), a);
  }

  lemma CloseInv(s: State, a: Addr)
    requires Inv(s) && a in s.heap && a in s.duty.toClose
    ensures Inv(CloseStep(s, a))
  {
    assert AddrOk(s, a);
    OneClient(s, CloseStep(s, a), a);
  }

  lemma FreeInv(s: State, a: Addr)
    requires Inv(s) && a in s.heap && a in s.duty.toFree
    ensures Inv(FreeStep(s, a))
  {
    assert AddrOk(s, a);
    OneClient(s, FreeStep(s, a), a);
  }

  /** No step a thread may take touches freed memory: whoever has something left to do with a client finds
      it allocated, and so does whoever looks into the table. */
  lemma AllowedIsSafe(s: State, act: Action)
    requires Inv(s) && Allowed(s, act)
    ensures Safe(s, act)
  {
    match act
    case Alloc(_, _, _) =>
    case FindById(_) =>
      forall i | 0 <= i < |s.slots| && s.slots[i] != 0
        ensures s.slots[i] in s.heap
      {
        assert AddrOk(s, s.slots[i]);
      }
    case GetByIndexRef(i) =>
      if 0 <= i < |s.slots| {
        assert AddrOk(s, s.slots[i]);
      }
    case _ =>
      assert AddrOk(s, act.a);
  }

  /** Every step of every thread keeps the invariant. */
  lemma StepInv(s: State, act: Action)
    requires Inv(s) && Allowed(s, act) && Safe(s, act)
    ensures Inv(Step(s, act))
  {
    hide Distinct, Occupied, Acquire, AllocStep, PublishStep, DestroyStep, UnrefStep, CloseStep, FreeStep;
    match act
    case Alloc(a, id, fd) => AllocInv(s, a, id, fd);
    case Publish(a) => PublishInv(s, a);
    case Destroy(a) => DestroyInv(s, a);
    case Ref(a) => AcquireInv(s, a);
    case Unref(a) => UnrefInv(s, a);
    case FindById(id) =>
      assert AddrOk(s, ClientWithId(s, s.slots, id));
      AcquireInv(s, ClientWithId(s, s.slots, id));
    case GetByIndexRef(i) =>
      if 0 <= i < |s.slots| {
        assert AddrOk(s, s.slots[i]);
        AcquireInv(s, s.slots[i]);
      }
    case CloseSocket(a) => CloseInv(s, a);
    case Free(a) => FreeInv(s, a);
  }

  // ----- Safety over every interleaving

  /** The invariant holds throughout every run, and no step ever touches freed memory. */
  lemma {:induction false} RunSafe(states: seq<State>, acts: seq<Action>)
    requires Run(states, acts)
    ensures forall i | 0 <= i < |states| :: Inv(states[i])
    ensures forall i | 0 <= i < |acts| :: Safe(states[i], acts[i])
  {
    hide Inv, Step, Safe, Allowed;
    InitInv();
    var n := 0;
    while n < |acts|
      invariant 0 <= n <= |acts|
      invariant forall i | 0 <= i <= n :: Inv(states[i])
      invariant forall i | 0 <= i < n :: Safe(states[i], acts[i])
    {
      assert Next(states[n], acts[n], states[n + 1]);
      AllowedIsSafe(states[n], acts[n]);
      StepInv(states[n], acts[n]);
      n := n + 1;
    }
  }

  /** Whoever still has something to do with a client, at any time of any run, finds it allocated. */
  lemma HoldersFindIt(states: seq<State>, acts: seq<Action>, i: nat, a: Addr)
    requires Run(states, acts) && i < |states|
    requires var d := states[i].duty;
             a in d.creating || a in d.owners || a in d.held || a in d.toClose || a in d.toFree
    ensures a in states[i].heap
  {
    RunSafe(states, acts);
    assert AddrOk(states[i], a);
  }

  /** In every reachable state the counts are exact: a client's references are the one the pool counts,
      until its destroy, and those handed out and not returned. */
  lemma CountsExact(states: seq<State>, acts: seq<Action>, i: nat, a: Addr)
    requires Run(states, acts) && i < |states|
    ensures states[i].count == Occupied(states[i].slots)
    ensures a in states[i].heap ==>
              states[i].heap[a].refs == (if states[i].heap[a].zombie then 0 else 1) + states[i].duty.held[a]
              && (a in states[i].slots <==> states[i].duty.owners[a] == 1)
    ensures states[i].log.frees[a] <= states[i].log.allocs[a] <= states[i].log.frees[a] + 1
    ensures states[i].log.closes[a] <= states[i].log.opens[a] <= states[i].log.closes[a] + 1
  {
    RunSafe(states, acts);
    assert AddrOk(states[i], a);
  }

  /** A client marked for removal stays marked and never gains a reference. */
  lemma ZombieGainsNothing(s: State, act: Action, a: Addr)
    requires Inv(s) && Allowed(s, act) && Safe(s, act)
    requires a in s.heap && s.heap[a].zombie && a in Step(s, act).heap
    ensures Step(s, act).heap[a].zombie
    ensures Step(s, act).heap[a].refs <= s.heap[a].refs
    ensures Step(s, act).duty.held[a] <= s.duty.held[a]
  {
    assert AddrOk(s, a);
    hide Inv;
  }

  /** Memory is freed only when no thread but the one that frees it has anything left to do with the
      client, no slot shows it, and no socket of it that is the pool's is open. */
  lemma FreedOnlyWhenUnheld(s: State, act: Action, a: Addr)
    requires Inv(s) && Allowed(s, act) && Safe(s, act)
    requires a in s.heap && a !in Step(s, act).heap
    ensures act == Action.Free(a) && s.duty.toFree[a] == 1
    ensures s.duty.creating[a] + s.duty.owners[a] + s.duty.held[a] + s.duty.toClose[a] == 0
    ensures a !in s.slots && s.log.opens[a] == s.log.closes[a]
  {
    assert AddrOk(s, a);
  }

  lemma LogOk(s: State, a: Addr)
    requires Inv(s)
    ensures s.log.frees[a] <= s.log.reports[a] + s.log.rejects[a] <= s.log.allocs[a] <= s.log.frees[a] + 1
  {
    assert AddrOk(s, a);
  }

  lemma StepReports(s: State, act: Action, a: Addr)
    requires Inv(s) && Allowed(s, act) && Safe(s, act)
    requires Step(s, act).log.reports[a] > s.log.reports[a]
    ensures s.log.reports[a] + s.log.rejects[a] == s.log.frees[a]
    ensures Step(s, act).duty.toClose[a] == 1
  {
    assert AddrOk(s, a);
    assert act == Action.Destroy(a) || act == Action.Unref(a);
  }

  /** At most one section per lifetime tells its thread to free: up to now there were as many reports and
      rejections as lifetimes that have ended, and at most one more, in the lifetime that goes on. */
  lemma OneReport(states: seq<State>, acts: seq<Action>, i: nat, a: Addr)
    requires Run(states, acts) && i < |states|
    ensures var l := states[i].log;
            && l.frees[a] <= l.reports[a] + l.rejects[a] <= l.allocs[a] <= l.frees[a] + 1
    ensures i < |acts| && states[i + 1].log.reports[a] > states[i].log.reports[a] ==>
              && states[i].log.reports[a] + states[i].log.rejects[a] == states[i].log.frees[a]
              && states[i + 1].duty.toClose[a] == 1
  {
    hide Inv, Step, Safe, Allowed;
    RunSafe(states, acts);
    LogOk(states[i], a);
    if i < |acts| && states[i + 1].log.reports[a] > states[i].log.reports[a] {
      assert Next(states[i], acts[i], states[i + 1]);
      StepReports(states[i], acts[i], a);
    }
  }

  // ----- Nothing is left behind

  /** No client is being created, none waits for its destroy and no reference is out. */
  predicate NoUsers(s: State) {
    s.duty.creating == s.duty.owners == s.duty.held == multiset{}
  }

  lemma Unused(s: State)
    requires Inv(s) && NoUsers(s)
    ensures s.count == 0 && forall j | 0 <= j < |s.slots| :: s.slots[j] == 0
    ensures forall a | a in s.heap :: s.duty.toClose[a] + s.duty.toFree[a] == 1
  {
    forall j | 0 <= j < |s.slots|
      ensures s.slots[j] == 0
    {
      assert s.slots[j] in s.slots;
      assert AddrOk(s, s.slots[j]);
    }
    AllEmpty(s.slots);
    forall a | a in s.heap
      ensures s.duty.toClose[a] + s.duty.toFree[a] == 1
    {
      assert AddrOk(s, a);
    }
  }

  /** At any time of any run at which every client created has been destroyed and every reference has been
      returned, the table is empty and every client still allocated has been reported to exactly one
      thread, which is about to close or free it. None is forgotten. */
  lemma NoneForgotten(states: seq<State>, acts: seq<Action>, i: nat)
    requires Run(states, acts) && i < |states| && NoUsers(states[i])
    ensures states[i].count == 0 && forall j | 0 <= j < |states[i].slots| :: states[i].slots[j] == 0
    ensures forall a | a in states[i].heap :: states[i].duty.toClose[a] + states[i].duty.toFree[a] == 1
  {
    RunSafe(states, acts);
    Unused(states[i]);
  }

  predicate Clean(s: State) {
    s.heap == map[] && s.count == 0 && s.log.allocs == s.log.frees && s.log.opens == s.log.closes
  }

  lemma IdleIsClean(s: State)
    requires Inv(s) && s.duty == Idle()
    ensures Clean(s)
  {
    Unused(s);
    forall a
      ensures a !in s.heap && s.log.allocs[a] == s.log.frees[a] && s.log.opens[a] == s.log.closes[a]
    {
      assert AddrOk(s, a);
    }
  }

  /** Once no thread has anything left to do, every allocation of the whole run has been freed exactly once
      and every socket closed exactly once. */
  lemma NothingLeaks(states: seq<State>, acts: seq<Action>, i: nat)
    requires Run(states, acts) && i < |states| && states[i].duty == Idle()
    ensures Clean(states[i])
  {
    RunSafe(states, acts);
    IdleIsClean(states[i]);
  }

  lemma Prepend(s: State, act: Action, more: seq<State>, acts: seq<Action>)
    requires Allowed(s, act) && Safe(s, act)
    requires Path(more, acts) && more[0] == Step(s, act) && forall i | 0 <= i < |acts| :: Safe(more[i], acts[i])
    ensures Path([s] + more, [act] + acts)
    ensures forall i | 0 <= i < |[act] + acts| :: Safe(([s] + more)[i], ([act] + acts)[i])
  {
    hide Step, Safe, Allowed;
    var states, all := [s] + more, [act] + acts;
    forall i | 0 <= i < |all|
      ensures Next(states[i], all[i], states[i + 1]) && Safe(states[i], all[i])
    {
      if i > 0 {
        assert Next(more[i - 1], acts[i - 1], more[i]);
        assert Safe(more[i - 1], acts[i - 1]);
      }
    }
  }

  function Work(s: State): nat {
    2 * |s.duty.toClose| + |s.duty.toFree|
  }

  /** Some step of closing or freeing is possible as long as there is work. */
  lemma DrainStep(s: State) returns (act: Action)
    requires Inv(s) && NoUsers(s) && Work(s) > 0
    ensures act.CloseSocket? || act.Free?
    ensures Allowed(s, act) && Safe(s, act)
    ensures Inv(Step(s, act)) && NoUsers(Step(s, act)) && Work(Step(s, act)) < Work(s)
  {
    hide Inv;
    if s.duty.toClose != multiset{} {
      var a :| a in s.duty.toClose;
      act := Action.CloseSocket(a);
    } else {
      var a :| a in s.duty.toFree;
      act := Action.Free(a);
    }
    AllowedIsSafe(s, act);
    StepInv(s, act);
  }

  lemma NoWork(s: State)
    requires NoUsers(s) && Work(s) == 0
    ensures s.duty == Idle()
  {
  }

  /** And it does come to that: from any state without users the threads that were told to close and free
      can take their steps one after the other, each of them safe, until nothing is left. */
  lemma {:induction false} Drains(s: State) returns (states: seq<State>, acts: seq<Action>)
    requires Inv(s) && NoUsers(s)
    ensures Path(states, acts) && states[0] == s && forall i | 0 <= i < |acts| :: Safe(states[i], acts[i])
    ensures forall i | 0 <= i < |acts| :: acts[i].CloseSocket? || acts[i].Free?
    ensures states[|acts|].duty == Idle() && Clean(states[|acts|])
    decreases Work(s)
  {
    hide Inv, NoUsers, Step, Safe, Allowed, Work, Clean;
    if Work(s) == 0 {
      NoWork(s);
      IdleIsClean(s);
      states, acts := [s], [];
    } else {
      var act := DrainStep(s);
      var more, later := Drains(Step(s, act));
      states, acts := [s] + more, [act] + later;
      Prepend(s, act, more, later);
    }
  }
}
