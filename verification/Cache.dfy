/** The cache as it is stored: heap nodes in a doubly linked list, most recently added first, with head and
    tail links and an entry counter. The ghost fields name the nodes from head to tail and what they hold. */
module Cache {
  import opened Bits
  import opened CacheModel
  import opened CacheRuns

  class Node {
    var data: Entry
    var prev: Node?
    var next: Node?

    constructor (data: Entry)
      ensures this.data == data && prev == null && next == null
    {
      this.data, prev, next := data, null, null;
    }
  }

  ghost predicate Distinct(nodes: seq<Node>) {
    forall i, j :: 0 <= i < j < |nodes| ==> nodes[i] != nodes[j]
  }

  /** The links of consecutive nodes point at each other and end at both ends. */
  ghost predicate LinkAt(nodes: seq<Node>, i: nat)
    requires i < |nodes|
    reads nodes[i]
  {
    && nodes[i].prev == (if i == 0 then null else nodes[i - 1])
    && nodes[i].next == (if i == |nodes| - 1 then null else nodes[i + 1])
  }

  ghost predicate Chained(nodes: seq<Node>)
    reads nodes
  {
    forall i :: 0 <= i < |nodes| ==> LinkAt(nodes, i)
  }

  /** The list when the sweep has reached entry i. */
  ghost function Swept(s: seq<Entry>, i: nat, now: int): seq<Entry>
    requires i <= |s|
  {
    s[..i] + Kept(s[i..], now)
  }

  lemma SweptEnds(s: seq<Entry>, now: int)
    ensures Swept(s, 0, now) == Kept(s, now) && Swept(s, |s|, now) == s
  {
    assert s[0..] == s && s[..|s|] == s && s[|s|..] == [];
  }

  lemma SweptStep(s: seq<Entry>, i: nat, now: int)
    requires i < |s|
    ensures Swept(s, i, now) == if now > s[i].expires then Swept(Without(s, i), i, now) else Swept(s, i + 1, now)
  {
    assert s[i..][1..] == s[i + 1..];
    assert Without(s, i)[..i] == s[..i];
    assert Without(s, i)[i..] == s[i + 1..];
    assert s[..i + 1] == s[..i] + [s[i]];
  }

  class Cache {
    var head: Node?
    var tail: Node?
    var entries: int
    var timeout: int
    var hits: int
    var misses: int
    var enabled: bool
    ghost var nodes: seq<Node>
    ghost var contents: seq<Entry>

    ghost predicate Linked()
      reads this`head, this`tail, this`nodes, nodes
    {
      && Distinct(nodes) && Chained(nodes)
      && head == (if nodes == [] then null else nodes[0])
      && tail == (if nodes == [] then null else nodes[|nodes| - 1])
    }

    ghost predicate Shown()
      reads this`nodes, this`contents, nodes
    {
      |contents| == |nodes| && forall i :: 0 <= i < |nodes| ==> nodes[i].data == contents[i]
    }

    ghost predicate Valid()
      reads this, nodes
    {
      Linked() && Shown() && entries == |nodes| <= MAX_ENTRIES
    }

    ghost function Abstract(): State
      reads this
    {
      State(contents, enabled, timeout, hits, misses)
    }

    /** No node of the list comes from anywhere but the list or the allocator. */
    twostate predicate NoStranger()
      reads this
    {
      forall k :: 0 <= k < |nodes| ==> nodes[k] in old(nodes) || fresh(nodes[k])
    }

    constructor ()
      ensures Valid() && Abstract() == Start(10) && nodes == []
    {
      head, tail, entries, hits, misses := null, null, 0, 0, 0;
      timeout, enabled := DEFAULT_TIMEOUT, true;
      nodes, contents := [], [];
    }

    lemma Ends()
      requires Linked()
      ensures head == (if nodes == [] then null else nodes[0])
    {
    }

    lemma NextAt(i: nat)
      requires Linked() && i < |nodes|
      ensures nodes[i].next == if i == |nodes| - 1 then null else nodes[i + 1]
    {
      assert LinkAt(nodes, i);
    }

    lemma SameSize()
      requires Shown()
      ensures |contents| == |nodes|
    {
    }

    lemma DataAt(i: nat)
      requires Shown() && i < |nodes|
      ensures |contents| == |nodes| && nodes[i].data == contents[i]
    {
    }

    // ----- List primitives

    /** The neighbours of a node, or head and tail, point past it. */
    method Bypass(entry: Node, ghost i: nat)
      requires Linked() && i < |nodes| && nodes[i] == entry
      modifies this`head, this`tail, nodes`prev, nodes`next
      ensures head == (if i == 0 then old(entry.next) else old(head))
      ensures tail == (if i == |nodes| - 1 then old(entry.prev) else old(tail))
      ensures forall k :: 0 <= k < |nodes| && k != i && k != i + 1 ==> nodes[k].prev == old(nodes[k].prev)
      ensures forall k :: 0 <= k < |nodes| && k != i && k != i - 1 ==> nodes[k].next == old(nodes[k].next)
      ensures i + 1 < |nodes| ==> nodes[i + 1].prev == old(entry.prev)
      ensures 0 < i ==> nodes[i - 1].next == old(entry.next)
      ensures entry.prev == null && entry.next == null
    {
      assert LinkAt(nodes, i);
      if entry.prev != null {
        entry.prev.next := entry.next;
      } else {
        head := entry.next;
      }
      if entry.next != null {
        entry.next.prev := entry.prev;
      } else {
        tail := entry.prev;
      }
      entry.prev := null;
      entry.next := null;
    }

    /** Takes a node out of the list and leaves its own links empty. */
    method Unlink(entry: Node, ghost i: nat)
      requires Linked() && i < |nodes| && nodes[i] == entry
      modifies this`head, this`tail, this`nodes, nodes`prev, nodes`next
      ensures nodes == Without(old(nodes), i) && entry !in nodes
      ensures Linked() && entry.prev == null && entry.next == null
    {
      ghost var was := nodes;
      assert LinkAt(was, i);
      Bypass(entry, i);
      nodes := Without(was, i);
      forall k | 0 <= k < |nodes|
        ensures LinkAt(nodes, k)
      {
        var b := if k < i then k else k + 1;
        assert old(LinkAt(was, b));
        assert nodes[k] == was[b];
      }
    }

    /** Puts an unlinked node in front. */
    method LinkFirst(entry: Node)
      requires Linked() && entry !in nodes && entry.prev == null
      modifies this`head, this`tail, this`nodes, entry`next, nodes`prev
      ensures nodes == [entry] + old(nodes)
      ensures Linked()
    {
      ghost var was := nodes;
      entry.next := head;
      if head != null {
        assert head == was[0] && was[0] in nodes;
        head.prev := entry;
      }
      head := entry;
      if tail == null {
        tail := entry;
      }
      nodes := [entry] + was;
      forall k | 0 <= k < |nodes|
        ensures LinkAt(nodes, k)
      {
        if 0 < k {
          assert old(LinkAt(was, k - 1));
        }
      }
    }

    method MoveToHead(entry: Node, ghost i: nat)
      requires Linked() && i < |nodes| && nodes[i] == entry
      modifies this`head, this`tail, this`nodes, nodes`prev, nodes`next
      ensures nodes == [entry] + Without(old(nodes), i)
      ensures Linked()
    {
      if head == entry {
        return;
      }
      Unlink(entry, i);
      LinkFirst(entry);
    }

    /** Unlinks and frees one node. */
    method FreeEntry(entry: Node, ghost i: nat)
      requires Linked() && Shown() && i < |nodes| && nodes[i] == entry
      modifies this`head, this`tail, this`nodes, this`contents, this`entries, nodes`prev, nodes`next
      ensures nodes == Without(old(nodes), i) && contents == Without(old(contents), i)
      ensures Linked() && Shown() && entries == old(entries) - 1
    {
      Unlink(entry, i);
      entries := entries - 1;
      contents := Without(contents, i);
    }

    method EvictLru()
      requires Linked() && Shown()
      modifies this`head, this`tail, this`nodes, this`contents, this`entries, nodes`prev, nodes`next
      ensures Linked() && Shown()
      ensures nodes == if old(nodes) == [] then [] else old(nodes[..|nodes| - 1])
      ensures contents == if old(nodes) == [] then [] else old(contents[..|nodes| - 1])
      ensures entries == if old(nodes) == [] then old(entries) else old(entries) - 1
    {
      if tail == null {
        return;
      }
      FreeEntry(tail, |nodes| - 1);
    }

    // ----- The cache's interface

    /** The scan that add, find and remove start with. */
    method Scan(k: Key) returns (n: Node?, ghost i: nat)
      requires Linked() && Shown()
      ensures |contents| == |nodes| && i == FirstMatch(contents, k)
      ensures n == if FirstMatch(contents, k) < |nodes| then nodes[FirstMatch(contents, k)] else null
      ensures n != null ==> n.data == contents[i] && Matches(n.data, k)
    {
      hide FirstMatch;
      n, i := head, 0;
      while n != null
        invariant i <= |nodes|
        invariant n == if i < |nodes| then nodes[i] else null
        invariant forall j :: 0 <= j < i ==> !Matches(contents[j], k)
        decreases |nodes| - i
      {
        if n.data.valid && n.data.key == k {
          FirstMatchIs(contents, k, i);
          return;
        }
        assert LinkAt(nodes, i);
        n, i := n.next, i + 1;
      }
      FirstMatchIs(contents, k, i);
    }

    method Write(n: Node, ghost i: nat, data: Entry)
      requires Linked() && Shown() && i < |nodes| && nodes[i] == n
      modifies this`contents, n`data
      ensures Linked() && Shown()
      ensures n.data == data && contents == old(contents)[i := data]
    {
      n.data := data;
      contents := contents[i := data];
      forall k | 0 <= k < |nodes|
        ensures LinkAt(nodes, k)
      {
        assert old(LinkAt(nodes, k));
      }
    }

    method ToFront(n: Node, ghost i: nat)
      requires Linked() && Shown() && i < |nodes| && nodes[i] == n
      modifies this`head, this`tail, this`nodes, this`contents, nodes`prev, nodes`next
      ensures Linked() && Shown() && nodes == [n] + Without(old(nodes), i)
      ensures contents == [n.data] + Without(old(contents), i)
    {
      hide Linked;
      ghost var was, shown := nodes, contents;
      MoveToHead(n, i);
      contents := [n.data] + Without(shown, i);
      forall k | 0 < k < |nodes|
        ensures nodes[k].data == contents[k]
      {
        var b := if k <= i then k - 1 else k;
        assert nodes[k] == was[b] && contents[k] == shown[b];
      }
    }

    /** An entry for the same key gets the new value and goes to the front. */
    method Replace(n: Node, ghost i: nat, cw: seq<Byte>, hop: Byte, requested: int, stamp: int, later: int)
      requires Linked() && Shown() && i < |nodes| && nodes[i] == n
      modifies this`head, this`tail, this`nodes, this`contents, nodes
      ensures Linked() && Shown() && nodes == [n] + Without(old(nodes), i)
      ensures contents ==
        [Entry(old(n.data.key), cw, hop, stamp, Expiry(requested, later, timeout), true)] + Without(old(contents), i)
    {
      hide Linked, Shown;
      SameSize();
      ghost var shown := contents;
      Write(n, i, n.data.(cw := cw, hop := hop, timestamp := stamp,
        expires := if requested > 0 then requested else later + timeout, valid := true));
      OthersSame(shown, i, n.data);
      ToFront(n, i);
    }

    static lemma OthersSame(s: seq<Entry>, i: nat, e: Entry)
      requires i < |s|
      ensures Without(s[i := e], i) == Without(s, i)
    {
    }

    method MakeRoom()
      requires Valid()
      modifies this`head, this`tail, this`nodes, this`contents, this`entries, nodes`prev, nodes`next
      ensures Valid() && |nodes| < MAX_ENTRIES
      ensures nodes == if |old(nodes)| < MAX_ENTRIES then old(nodes) else old(nodes)[..MAX_ENTRIES - 1]
      ensures |old(contents)| == |old(nodes)|
      ensures contents == if |old(contents)| < MAX_ENTRIES then old(contents) else old(contents)[..MAX_ENTRIES - 1]
    {
      hide Linked;
      while entries >= MAX_ENTRIES
        invariant Linked() && Shown() && entries == |nodes|
        invariant (nodes == old(nodes) && contents == old(contents))
          || (|old(nodes)| == MAX_ENTRIES && nodes == old(nodes)[..MAX_ENTRIES - 1]
              && contents == old(contents)[..MAX_ENTRIES - 1])
        decreases entries
      {
        EvictLru();
      }
    }

    method PutFirst(entry: Node)
      requires Linked() && Shown() && entry !in nodes && entry.prev == null
      modifies this`head, this`tail, this`nodes, this`contents, this`entries, entry`next, nodes`prev
      ensures nodes == [entry] + old(nodes) && contents == [entry.data] + old(contents)
      ensures Linked() && Shown() && entries == old(entries) + 1
    {
      hide Linked;
      LinkFirst(entry);
      entries := entries + 1;
      contents := [entry.data] + contents;
    }

    /** A new entry in front, after the oldest made room for it. */
    method Insert(k: Key, cw: seq<Byte>, hop: Byte, requested: int, stamp: int, later: int)
      requires Valid()
      modifies this`head, this`tail, this`nodes, this`contents, this`entries, nodes`prev, nodes`next
      ensures Valid() && NoStranger()
      ensures contents ==
        [Entry(k, cw, hop, stamp, Expiry(requested, later, timeout), true)]
        + (if |old(contents)| < MAX_ENTRIES then old(contents) else old(contents)[..MAX_ENTRIES - 1])
    {
      hide Linked, Shown;
      MakeRoom();
      var entry := new Node(
        Entry(k, cw, hop, stamp, if requested > 0 then requested else later + timeout, true));
      PutFirst(entry);
    }

    method Add(k: Key, cw: seq<Byte>, hop: Byte, requested: int, stamp: int, later: int)
      requires Valid()
      modifies this, nodes
      ensures Valid() && NoStranger()
      ensures Abstract() == Step(old(Abstract()), Op.Add(k, cw, hop, requested, stamp, later))
    {
      hide FirstMatch, Linked, Shown;
      if !enabled {
        return;
      }
      var n, i := Scan(k);
      if n != null {
        Replace(n, i, cw, hop, requested, stamp, later);
      } else {
        Insert(k, cw, hop, requested, stamp, later);
      }
    }

    method Find(k: Key, now: int) returns (answer: Answer)
      requires Valid()
      modifies this`hits, this`misses, this`contents, nodes`data
      ensures Valid()
      ensures Abstract() == Step(old(Abstract()), Op.Find(k, now))
      ensures answer == Reply(old(Abstract()), k, now)
    {
      hide FirstMatch, Linked;
      if !enabled {
        misses := misses + 1;
        return Miss;
      }
      var n, i := Scan(k);
      if n == null {
        misses := misses + 1;
        return Miss;
      }
      if now > n.data.expires {
        Write(n, i, n.data.(valid := false));
        misses := misses + 1;
        return Miss;
      }
      hits := hits + 1;
      return Hit(n.data.cw, n.data.hop);
    }

    method Remove(k: Key) returns (found: bool)
      requires Valid()
      modifies this`head, this`tail, this`nodes, this`contents, this`entries, nodes`prev, nodes`next
      ensures Valid() && NoStranger()
      ensures Abstract() == Step(old(Abstract()), Op.Remove(k))
      ensures found == (FirstMatch(old(contents), k) < |old(contents)|)
    {
      hide FirstMatch, Linked;
      var n, i := Scan(k);
      if n == null {
        return false;
      }
      FreeEntry(n, i);
      found := true;
    }

    /** Frees every expired entry, valid or not, and says how many there were. */
    method CleanExpired(now: int) returns (removed: int)
      requires Valid()
      modifies this`head, this`tail, this`nodes, this`contents, this`entries, nodes`prev, nodes`next
      ensures Valid() && NoStranger()
      ensures Abstract() == Step(old(Abstract()), Op.Clean(now))
      ensures removed == |old(contents)| - |contents|
    {
      hide Swept, Linked, Shown;
      Ends();
      removed := 0;
      var current := head;
      ghost var i := 0;
      SweptEnds(contents, now);
      SameSize();
      while current != null
        invariant Valid() && forall k :: 0 <= k < |nodes| ==> nodes[k] in old(nodes)
        invariant i <= |nodes| == |contents| && current == if i < |nodes| then nodes[i] else null
        invariant Swept(contents, i, now) == Kept(old(contents), now)
        invariant removed == |old(contents)| - |contents|
        decreases |nodes| - i
      {
        NextAt(i);
        DataAt(i);
        var next := current.next;
        SweptStep(contents, i, now);
        if now > current.data.expires {
          FreeEntry(current, i);
          removed := removed + 1;
        } else {
          i := i + 1;
        }
        current := next;
      }
      SameSize();
      SweptEnds(contents, now);
    }

    method Cleanup()
      requires Valid()
      modifies this
      ensures Valid() && Abstract() == Step(old(Abstract()), Op.Cleanup) && nodes == []
    {
      var current := head;
      ghost var i := 0;
      while current != null
        invariant i <= |nodes| && current == if i < |nodes| then nodes[i] else null
        decreases |nodes| - i
      {
        assert LinkAt(nodes, i);
        var next := current.next;
        current, i := next, i + 1;
      }
      head, tail, entries, hits, misses := null, null, 0, 0, 0;
      nodes, contents := [], [];
    }

    method SetEnabled(on: bool)
      requires Valid()
      modifies this`enabled
      ensures Valid() && Abstract() == Step(old(Abstract()), Op.SetEnabled(on))
    {
      enabled := on;
    }

    method SetTimeout(seconds: int)
      requires Valid()
      modifies this`timeout
      ensures Valid() && Abstract() == Step(old(Abstract()), Op.SetTimeout(seconds))
    {
      if seconds > 0 {
        timeout := seconds;
      }
    }
  }
}
