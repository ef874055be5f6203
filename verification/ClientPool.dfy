/** The pool as the program keeps it: a global table of slots, a counter and clients on the heap. Every
    method is one step of `PoolModel`, so whatever holds of all its runs holds of the pool. */
module ClientPool {
  import opened PoolModel

  /** What a thread does that was told to free a client. */
  function Finished(s: State, a: Addr): State
    requires a in s.heap
  {
    FreeStep(CloseStep(s, a), a)
  }

  /** A report is an errand for the thread it was made to, ... */
  lemma ReportedDuty(s: State, a: Addr)
    ensures a in s.heap && DestroyReports(s, a) ==>
      a in DestroyStep(s, a).heap && a in DestroyStep(s, a).duty.toClose
    ensures a in s.heap && UnrefReports(s, a) ==> a in UnrefStep(s, a).heap && a in UnrefStep(s, a).duty.toClose
  {
  }

  /** ... and closing leaves it the freeing to do. */
  lemma ClosedDuty(s: State, a: Addr)
    requires a in s.heap
    ensures a in CloseStep(s, a).heap && a in CloseStep(s, a).duty.toFree
  {
  }

  lemma SlotFound(slots: seq<Addr>)
    ensures 0 in slots <==> SlotOf(slots, 0) < |slots|
  {
  }

  lemma FoundHere(s: State, id: int, i: nat)
    requires Inv(s) && i < |s.slots|
    requires HasId(s.heap, s.slots[i], id) && NobodyHas(s.heap, s.slots[..i], id)
    ensures ClientWithId(s, s.slots, id) == s.slots[i] && !s.heap[s.slots[i]].zombie
    ensures FirstWith(s.heap, s.slots, id, i) && !NobodyHas(s.heap, s.slots, id)
    ensures forall k | FirstWith(s.heap, s.slots, id, k) :: k == i
  {
    hide Inv, ClientWithId;
    SearchFindsFirst(s, s.slots, id, i);
    TableUnmarked(s, i);
  }

  /** Nobody but the owner of its destroy has anything to do with a client. */
  predicate Quiet(s: State) {
    s.duty.creating == s.duty.held == s.duty.toClose == s.duty.toFree == multiset{}
  }

  /** The clients with the mark for removal left out. */
  function Unmarked(heap: map<Addr, Client>): map<Addr, Client> {
    map a | a in heap :: heap[a].(zombie := false)
  }

  lemma UnmarkedWithout(heap: map<Addr, Client>, c: Addr)
    ensures Unmarked(heap - {c}) == Unmarked(heap) - {c}
  {
  }

  lemma QuietSlot(s: State, i: nat)
    requires Inv(s) && Quiet(s) && i < |s.slots|
    ensures s.slots[i] != 0 ==>
      s.slots[i] in s.heap && s.slots[i] in s.duty.owners
      && s.heap[s.slots[i]].refs == 1 && !s.heap[s.slots[i]].zombie
  {
    assert s.slots[i] in s.slots;
    assert AddrOk(s, s.slots[i]);
  }

  lemma QuietUnmarked(s: State)
    requires Inv(s) && Quiet(s)
    ensures Unmarked(s.heap) == s.heap
  {
    forall a | a in s.heap
      ensures !s.heap[a].zombie
    {
      assert AddrOk(s, a);
    }
  }

  lemma ReapQuiet(s: State, i: nat)
    requires Inv(s) && Quiet(s) && i < |s.slots| && s.slots[i] != 0
    ensures s.slots[i] in s.heap && s.heap[s.slots[i]].refs == 1
    ensures var t := Finished(DestroyStep(s, s.slots[i]), s.slots[i]);
            && Inv(t) && Quiet(t)
            && t.slots == s.slots[i := 0] && t.heap == s.heap - {s.slots[i]}
            && t.log.allocs == s.log.allocs && t.log.opens == s.log.opens
            && t.log.closes == s.log.closes + if s.heap[s.slots[i]].fd >= 0 then multiset{s.slots[i]} else multiset{}
  {
    var a := s.slots[i];
    QuietSlot(s, i);
    assert a in s.slots;
    assert SlotOf(s.slots, a) == i;
    DestroyInv(s, a);
    var t := DestroyStep(s, a);
    CloseInv(t, a);
    FreeInv(CloseStep(t, a), a);
  }

  lemma AllReaped(s: State)
    requires Inv(s) && Quiet(s) && forall i | 0 <= i < |s.slots| :: s.slots[i] == 0
    ensures s.duty == Idle() && Clean(s)
  {
    forall a
      ensures s.duty.owners[a] == 0
    {
      assert AddrOk(s, a);
    }
    IdleIsClean(s);
  }

  lemma {:induction false} OccupiedBound(slots: seq<Addr>)
    ensures Occupied(slots) <= |slots|
    ensures Occupied(slots) == |slots| <==> forall i | 0 <= i < |slots| :: slots[i] != 0
  {
    if slots != [] {
      OccupiedBound(slots[1..]);
      assert (forall i | 0 <= i < |slots| :: slots[i] != 0) ==> forall i | 0 <= i < |slots[1..]| :: slots[1..][i] != 0;
      if Occupied(slots) == |slots| {
        forall i | 0 <= i < |slots|
          ensures slots[i] != 0
        {
          if i > 0 {
            assert slots[i] == slots[1..][i - 1];
          }
        }
      }
    }
  }

  class Pool {
    var slots: array<Addr>
    var count: int
    var heap: map<Addr, Client>
    /** The clients on whose sockets `close` has been called. */
    var closed: multiset<Addr>
    ghost var g: State

    /** The fields are those of the model state, and the model state is consistent. */
    ghost predicate Valid()
      reads this, slots
    {
      && slots.Length == MAX_CLIENTS
      && g.slots == slots[..] && g.count == count && g.heap == heap
      && g.log.closes == closed && Inv(g)
    }

    constructor ()
      ensures Valid() && g == Init() && fresh(slots)
      ensures slots.Length == 100
    {
      slots := new Addr[MAX_CLIENTS](_ => 0);
      count := 0;
      heap, closed := map[], multiset{};
      g := Init();
      new;
      InitInv();
    }

    /** The unlocked test before a client is allocated. */
    method IsFull() returns (full: bool)
      requires Valid()
      ensures full <==> forall i | 0 <= i < slots.Length :: slots[i] != 0
    {
      OccupiedBound(slots[..]);
      full := count >= MAX_CLIENTS;
    }

    /** `calloc` and the fields set before the section; `a` is the address the allocator chose. */
    method Allocate(a: Addr, id: int, fd: int)
      requires Valid() && Allowed(g, Alloc(a, id, fd))
      modifies this`heap, this`g
      ensures Valid() && g == Step(old(g), Alloc(a, id, fd))
    {
      hide Inv;
      StepInv(g, Alloc(a, id, fd));
      heap := heap[a := Client(id, fd, 1, false)];
      g := Step(g, Alloc(a, id, fd));
    }

    /** The section of `create`: the client takes the first free slot. */
    method Publish(a: Addr) returns (ok: bool)
      requires Valid() && Allowed(g, Action.Publish(a))
      modifies this`count, this`g, slots
      ensures Valid() && Safe(old(g), Action.Publish(a)) && g == Step(old(g), Action.Publish(a))
      ensures ok == (SlotOf(old(slots[..]), 0) < MAX_CLIENTS)
    {
      hide Inv;
      AllowedIsSafe(g, Action.Publish(a));
      StepInv(g, Action.Publish(a));
      g := Step(g, Action.Publish(a));
      var i := 0;
      while i < MAX_CLIENTS
        invariant 0 <= i <= MAX_CLIENTS
        invariant slots[..] == old(slots[..]) && count == old(count)
        invariant i + SlotOf(slots[i..], 0) == SlotOf(slots[..], 0)
      {
        if slots[i] == 0 {
          slots[i] := a;
          count := count + 1;
          return true;
        }
        i := i + 1;
      }
      return false;
    }

    /** The section of `destroy`; on `freeNow` the caller goes on to close and free the client. */
    method Destroy(a: Addr) returns (freeNow: bool)
      requires Valid() && Allowed(g, Action.Destroy(a))
      modifies this`heap, this`count, this`g, slots
      ensures Valid() && Safe(old(g), Action.Destroy(a)) && g == Step(old(g), Action.Destroy(a))
      ensures freeNow == DestroyReports(old(g), a)
    {
      hide Inv;
      AllowedIsSafe(g, Action.Destroy(a));
      StepInv(g, Action.Destroy(a));
      g := Step(g, Action.Destroy(a));
      heap := heap[a := heap[a].(zombie := true)];
      ClearSlot(a);
      heap := heap[a := heap[a].(refs := heap[a].refs - 1)];
      freeNow := heap[a].refs == 0;
    }

    /** The client's slot, if it still has one, is emptied. */
    method ClearSlot(a: Addr)
      requires slots.Length == MAX_CLIENTS
      modifies this`count, slots
      ensures var i := SlotOf(old(slots[..]), a);
              if i < MAX_CLIENTS then slots[..] == old(slots[..])[i := 0] && count == old(count) - 1
              else slots[..] == old(slots[..]) && count == old(count)
    {
      var i := 0;
      while i < MAX_CLIENTS
        invariant 0 <= i <= MAX_CLIENTS
        invariant slots[..] == old(slots[..]) && count == old(count)
        invariant i + SlotOf(slots[i..], a) == SlotOf(slots[..], a)
      {
        if slots[i] == a {
          slots[i] := 0;
          count := count - 1;
          break;
        }
        i := i + 1;
      }
    }

    /** `pool_acquire_locked`. */
    method AcquireLocked(a: Addr) returns (r: Addr)
      requires g.heap == heap && (a == 0 || a in heap)
      modifies this`heap, this`g
      ensures heap == g.heap && g == Acquire(old(g), a)
      ensures r == if a == 0 || old(heap)[a].zombie then 0 else a
    {
      if a != 0 && !heap[a].zombie {
        g := Acquire(g, a);
        heap := heap[a := heap[a].(refs := heap[a].refs + 1)];
        return a;
      }
      return 0;
    }

    method Ref(a: Addr) returns (r: Addr)
      requires Valid() && Allowed(g, Action.Ref(a))
      modifies this`heap, this`g
      ensures Valid() && Safe(old(g), Action.Ref(a)) && g == Step(old(g), Action.Ref(a))
      ensures r == if old(heap)[a].zombie then 0 else a
    {
      hide Inv;
      AllowedIsSafe(g, Action.Ref(a));
      StepInv(g, Action.Ref(a));
      r := AcquireLocked(a);
    }

    method Unref(a: Addr) returns (freeNow: bool)
      requires Valid() && Allowed(g, Action.Unref(a))
      modifies this`heap, this`g
      ensures Valid() && Safe(old(g), Action.Unref(a)) && g == Step(old(g), Action.Unref(a))
      ensures freeNow == UnrefReports(old(g), a)
    {
      hide Inv;
      AllowedIsSafe(g, Action.Unref(a));
      StepInv(g, Action.Unref(a));
      g := Step(g, Action.Unref(a));
      if heap[a].refs > 0 {
        heap := heap[a := heap[a].(refs := heap[a].refs - 1)];
      }
      freeNow := heap[a].refs == 0 && heap[a].zombie;
    }

    method FindById(id: int) returns (r: Addr)
      requires Valid()
      modifies this`heap, this`g
      ensures Valid() && Safe(old(g), Action.FindById(id)) && g == Step(old(g), Action.FindById(id))
      ensures r == 0 <==> NobodyHas(old(heap), old(slots[..]), id)
      ensures forall i | FirstWith(old(heap), old(slots[..]), id, i) :: r == old(slots[..])[i]
      ensures r == 0 || HasId(old(heap), r, id)
      ensures heap == if r == 0 then old(heap) else old(heap)[r := old(heap)[r].(refs := old(heap)[r].refs + 1)]
    {
      hide Inv, ClientWithId;
      AllowedIsSafe(g, Action.FindById(id));
      StepInv(g, Action.FindById(id));
      ghost var before, table := g, slots[..];
      var i := 0;
      while i < MAX_CLIENTS
        invariant 0 <= i <= MAX_CLIENTS
        invariant NobodyHas(heap, table[..i], id)
      {
        if slots[i] != 0 && heap[slots[i]].id == id {
          FoundHere(before, id, i);
          r := AcquireLocked(slots[i]);
          return;
        }
        assert table[..i + 1] == table[..i] + [table[i]];
        i := i + 1;
      }
      assert table[..i] == table;
      SearchFindsNone(before, table, id);
      return 0;
    }

    method GetByIndexRef(index: int) returns (r: Addr)
      requires Valid()
      modifies this`heap, this`g
      ensures Valid() && Safe(old(g), Action.GetByIndexRef(index)) && g == Step(old(g), Action.GetByIndexRef(index))
      ensures r == if !(0 <= index < MAX_CLIENTS) || slots[index] == 0 || old(heap)[slots[index]].zombie then 0
                   else slots[index]
      ensures r != 0 ==> heap[r].refs == old(heap)[r].refs + 1
    {
      hide Inv;
      AllowedIsSafe(g, Action.GetByIndexRef(index));
      StepInv(g, Action.GetByIndexRef(index));
      if index < 0 || index >= MAX_CLIENTS {
        return 0;
      }
      r := AcquireLocked(slots[index]);
    }

    /** After a section said so: the socket is closed, ... */
    method CloseSocket(a: Addr)
      requires Valid() && Allowed(g, Action.CloseSocket(a))
      modifies this`heap, this`closed, this`g
      ensures Valid() && Safe(old(g), Action.CloseSocket(a)) && g == Step(old(g), Action.CloseSocket(a))
    {
      hide Inv;
      AllowedIsSafe(g, Action.CloseSocket(a));
      StepInv(g, Action.CloseSocket(a));
      g := Step(g, Action.CloseSocket(a));
      if heap[a].fd >= 0 {
        closed := closed + multiset{a};
        heap := heap[a := heap[a].(fd := -1)];
      }
    }

    /** ... and the memory freed. */
    method Free(a: Addr)
      requires Valid() && Allowed(g, Action.Free(a))
      modifies this`heap, this`g
      ensures Valid() && Safe(old(g), Action.Free(a)) && g == Step(old(g), Action.Free(a))
    {
      hide Inv;
      AllowedIsSafe(g, Action.Free(a));
      StepInv(g, Action.Free(a));
      heap := heap - {a};
      g := Step(g, Action.Free(a));
    }

    // ----- The functions whole, as one thread runs them

    /** `create`: refuses if the counter, read without the lock some time before, was at its limit, and
        frees the new client again if no slot is found after all. */
    method Create(a: Addr, id: int, fd: int, seen: int) returns (r: Addr)
      requires Valid() && Allowed(g, Alloc(a, id, fd))
      modifies this`heap, this`count, this`g, slots
      ensures Valid()
      ensures r == if seen < MAX_CLIENTS && 0 in old(slots[..]) then a else 0
      ensures r == 0 ==> heap == old(heap) && slots[..] == old(slots[..]) && g.duty == old(g).duty
      ensures r != 0 ==> g == PublishStep(AllocStep(old(g), a, id, fd), a)
    {
      hide Inv;
      SlotFound(slots[..]);
      if seen >= MAX_CLIENTS {
        return 0;
      }
      Allocate(a, id, fd);
      var ok := Publish(a);
      if !ok {
        Free(a);
        return 0;
      }
      r := a;
    }

    /** `destroy`: the section and, if it was the last one to let go, close and free. */
    method DestroyWhole(a: Addr)
      requires Valid() && Allowed(g, Action.Destroy(a))
      modifies this`heap, this`count, this`closed, this`g, slots
      ensures Valid() && Safe(old(g), Action.Destroy(a))
      ensures var t := DestroyStep(old(g), a); g == if DestroyReports(old(g), a) then Finished(t, a) else t
    {
      hide Inv, DestroyStep, CloseStep, FreeStep;
      ReportedDuty(g, a);
      var freeNow := Destroy(a);
      if freeNow {
        ClosedDuty(g, a);
        CloseSocket(a);
        Free(a);
      }
    }

    /** `unref`, likewise. */
    method UnrefWhole(a: Addr)
      requires Valid() && Allowed(g, Action.Unref(a))
      modifies this`heap, this`closed, this`g
      ensures Valid() && Safe(old(g), Action.Unref(a))
      ensures var t := UnrefStep(old(g), a); g == if UnrefReports(old(g), a) then Finished(t, a) else t
    {
      hide Inv, UnrefStep, CloseStep, FreeStep, UnrefReports;
      ReportedDuty(g, a);
      var freeNow := Unref(a);
      if freeNow {
        ClosedDuty(g, a);
        CloseSocket(a);
        Free(a);
      }
    }

    /** Step 1 of shutting down: every client is marked for removal. */
    method MarkAll()
      requires Valid() && Quiet(g)
      modifies this`heap
      ensures Unmarked(heap) == g.heap
    {
      QuietUnmarked(g);
      var i := 0;
      while i < MAX_CLIENTS
        invariant 0 <= i <= MAX_CLIENTS
        invariant Unmarked(heap) == g.heap
      {
        QuietSlot(g, i);
        var c := slots[i];
        assert c != 0 ==> c in Unmarked(heap);
        if c != 0 && !heap[c].zombie {
          heap := heap[c := heap[c].(zombie := true)];
        }
        i := i + 1;
      }
    }

    /** One reference dropped; with the last one the socket is closed and the memory freed. */
    method Release(c: Addr)
      requires c in heap && heap[c].refs >= 0
      modifies this`heap, this`closed
      ensures old(heap)[c].refs <= 1 ==>
        heap == old(heap) - {c}
        && closed == old(closed) + if old(heap)[c].fd >= 0 then multiset{c} else multiset{}
      ensures old(heap)[c].refs > 1 ==>
        heap == old(heap)[c := old(heap)[c].(refs := old(heap)[c].refs - 1)] && closed == old(closed)
    {
      if heap[c].refs > 0 {
        heap := heap[c := heap[c].(refs := heap[c].refs - 1)];
      }
      var freeNow := heap[c].refs == 0;
      if freeNow {
        if heap[c].fd >= 0 {
          closed := closed + multiset{c};
        }
        heap := heap - {c};
      }
    }

    /** The pool's reference to a client that nobody else refers to is dropped, its socket closed and its
        memory freed; the model state takes the same client through destroy, close and free. */
    method ReapSlot(i: nat)
      requires i < slots.Length && g.slots == slots[..]
      requires Inv(g) && Quiet(g) && Unmarked(heap) == g.heap && closed == g.log.closes
      modifies this`heap, this`closed, this`g, slots
      ensures g.slots == slots[..] && slots[..] == old(slots[..])[i := 0]
      ensures Inv(g) && Quiet(g) && Unmarked(heap) == g.heap && closed == g.log.closes
      ensures g.log.allocs == old(g).log.allocs && g.log.opens == old(g).log.opens
    {
      var c := slots[i];
      QuietSlot(g, i);
      if c != 0 {
        assert c in Unmarked(heap);
        ReapQuiet(g, i);
        hide Inv, Quiet, DestroyStep, CloseStep, FreeStep, Finished;
        slots[i] := 0;
        ghost var was := heap;
        assert heap[c].refs == 1 && heap[c].fd == g.heap[c].fd by {
          assert g.heap[c] == heap[c].(zombie := false);
        }
        Release(c);
        UnmarkedWithout(was, c);
        g := Finished(DestroyStep(g, c), c);
      } else {
        assert slots[..] == slots[..][i := 0];
      }
    }

    /** Shutting down after every client thread has ended and returned its reference: all clients are
        freed and all their sockets closed, each exactly once in the pool's whole history. */
    method CloseAll()
      requires Valid() && Quiet(g)
      modifies this`heap, this`closed, this`count, this`g, slots
      ensures Valid() && heap == map[] && count == 0
      ensures forall i | 0 <= i < slots.Length :: slots[i] == 0
      ensures g.log.allocs == old(g).log.allocs && g.log.frees == g.log.allocs
      ensures g.log.opens == old(g).log.opens && closed == g.log.opens
      ensures g.duty == Idle()
    {
      MarkAll();
      var i := 0;
      while i < MAX_CLIENTS
        invariant 0 <= i <= MAX_CLIENTS && g.slots == slots[..]
        invariant Inv(g) && Quiet(g) && Unmarked(heap) == g.heap && closed == g.log.closes
        invariant forall j | 0 <= j < i :: slots[j] == 0
        invariant g.log.allocs == old(g).log.allocs && g.log.opens == old(g).log.opens
      {
        hide Inv, Quiet;
        ReapSlot(i);
        i := i + 1;
      }
      count := 0;
      AllReaped(g);
      assert heap == map[] by {
        assert forall a :: a in heap ==> a in Unmarked(heap);
      }
    }
  }
}
