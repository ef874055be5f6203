/** What single operations on the cache do, said without the list they work on. */
module CacheLaws {
  import opened Bits
  import opened CacheModel
  import opened CacheRuns

  /** A word just added is found until it expires, which is when the caller asked for, or a timeout after now. */
  lemma AddThenFind(s: State, k: Key, cw: seq<Byte>, hop: Byte, requested: int, stamp: int, later: int, now: int)
    requires s.enabled
    ensures Reply(Step(s, Op.Add(k, cw, hop, requested, stamp, later)), k, now)
         == if now <= (if requested > 0 then requested else later + s.timeout) then Hit(cw, hop) else Miss
  {
    hide FirstMatch, Added;
    var e := NewEntry(Op.Add(k, cw, hop, requested, stamp, later), s.timeout);
    FirstMatchIs(Added(s.entries, e), k, 0);
  }

  /** The key has a valid entry. */
  predicate Holds(s: seq<Entry>, k: Key) {
    exists i :: 0 <= i < |s| && s[i].valid && s[i].key == k
  }

  lemma HoldsMatch(s: seq<Entry>, k: Key)
    ensures Holds(s, k) ==> FirstMatch(s, k) < |s|
  {
    hide FirstMatch;
    if Holds(s, k) {
      var h :| 0 <= h < |s| && s[h].valid && s[h].key == k;
      assert Matches(s[h], k);
      assert FirstMatch(s, k) <= h;
    }
  }

  lemma OthersStay(s: seq<Entry>, e: Entry, x: Key)
    requires e.valid && x != e.key && (|s| < MAX_ENTRIES || Holds(s, e.key))
    ensures
      var t, i, j := Added(s, e), FirstMatch(s, x), FirstMatch(Added(s, e), x);
      (i < |s| <==> j < |t|) && (i < |s| ==> t[j] == s[i])
  {
    hide FirstMatch;
    var t, m, i := Added(s, e), FirstMatch(s, e.key), FirstMatch(s, x);
    HoldsMatch(s, e.key);
    hide Holds;
    var j := if i == |s| then |t| else if i < m then i + 1 else i;
    forall n | 0 <= n < j
      ensures !Matches(t[n], x)
    {
      if n > 0 {
        assert t[n] == if n <= m then s[n - 1] else s[n];
      }
    }
    FirstMatchIs(t, x, j);
  }

  /** Another key's answer does not change, unless the list of 1024 is full and the key added is new; the list
      never grows beyond that. */
  lemma AddKeepsOthers(s: State, k: Key, cw: seq<Byte>, hop: Byte, requested: int, stamp: int, later: int, x: Key,
                       now: int)
    requires x != k && |s.entries| <= 1024
    ensures
      var t := Step(s, Op.Add(k, cw, hop, requested, stamp, later));
      && |t.entries| <= 1024
      && (|s.entries| < 1024 || Holds(s.entries, k) ==> Reply(t, x, now) == Reply(s, x, now))
  {
    hide FirstMatch, Added;
    if s.enabled && (|s.entries| < 1024 || Holds(s.entries, k)) {
      var e := NewEntry(Op.Add(k, cw, hop, requested, stamp, later), s.timeout);
      OthersStay(s.entries, e, x);
    }
  }

  /** Every lookup is counted, as a hit exactly if it found something. */
  lemma FindCounts(s: State, k: Key, now: int)
    ensures
      var t := Step(s, Op.Find(k, now));
      && t.hits == s.hits + (if Reply(s, k, now).Hit? then 1 else 0)
      && t.misses == s.misses + (if Reply(s, k, now).Hit? then 0 else 1)
      && t.enabled == s.enabled && t.timeout == s.timeout
  {
  }

  /** A cache that is switched off answers nothing and keeps nothing. */
  lemma SwitchedOff(s: State, k: Key, cw: seq<Byte>, hop: Byte, requested: int, stamp: int, later: int, now: int)
    requires !s.enabled
    ensures Reply(s, k, now) == Miss && Step(s, Op.Add(k, cw, hop, requested, stamp, later)) == s
  {
  }
}
