/** The control word cache as a value: a list of entries, most recently added first, and the operations on it.
    The reference it is compared with is a plain unbounded table that remembers the last value added for every
    key, together with the number of additions made since. */
module CacheModel {
  import opened Bits

  const MAX_ENTRIES: nat := 1024
  const DEFAULT_TIMEOUT: int := 10

  datatype Key = Key(caid: Word, provid: Word, sid: Word)

  datatype Entry = Entry(key: Key, cw: seq<Byte>, hop: Byte, timestamp: int, expires: int, valid: bool)

  datatype Answer = Miss | Hit(cw: seq<Byte>, hop: Byte)

  predicate Matches(e: Entry, k: Key) {
    e.valid && e.key == k
  }

  /** Where the scan from the head stops: the first entry that matches, or the end. */
  function FirstMatch(s: seq<Entry>, k: Key): (i: nat)
    ensures i <= |s|
    ensures i < |s| ==> Matches(s[i], k)
    ensures forall j :: 0 <= j < i ==> !Matches(s[j], k)
  {
    if s == [] || Matches(s[0], k) then 0 else 1 + FirstMatch(s[1..], k)
  }

  lemma FirstMatchIs(s: seq<Entry>, k: Key, i: nat)
    requires i <= |s|
    requires i < |s| ==> Matches(s[i], k)
    requires forall j :: 0 <= j < i ==> !Matches(s[j], k)
    ensures FirstMatch(s, k) == i
  {
    hide FirstMatch;
  }

  // ----- The operations on the list

  function Expiry(requested: int, now: int, timeout: int): int {
    if requested > 0 then requested else now + timeout
  }

  function Without<T>(s: seq<T>, i: nat): (t: seq<T>)
    requires i < |s|
    ensures |t| == |s| - 1
    ensures forall k :: 0 <= k < |t| ==> t[k] == if k < i then s[k] else s[k + 1]
  {
    s[..i] + s[i + 1..]
  }

  /** The entry goes to the front; an entry with the same key is replaced, and otherwise the oldest entries
      make room. */
  function Added(s: seq<Entry>, e: Entry): (t: seq<Entry>)
    ensures |t| == if FirstMatch(s, e.key) < |s| then |s| else if |s| < MAX_ENTRIES then |s| + 1 else MAX_ENTRIES
    ensures t[0] == e
    ensures forall j :: 0 < j < |t| ==> t[j] == if j <= FirstMatch(s, e.key) then s[j - 1] else s[j]
  {
    var i := FirstMatch(s, e.key);
    if i < |s| then [e] + Without(s, i)
    else if |s| < MAX_ENTRIES then [e] + s
    else [e] + s[..MAX_ENTRIES - 1]
  }

  function Removed(s: seq<Entry>, k: Key): (t: seq<Entry>)
    ensures |t| == if FirstMatch(s, k) < |s| then |s| - 1 else |s|
    ensures forall j :: 0 <= j < |t| ==> t[j] == if j < FirstMatch(s, k) then s[j] else s[j + 1]
  {
    var i := FirstMatch(s, k);
    if i < |s| then Without(s, i) else s
  }

  function Kept(s: seq<Entry>, now: int): seq<Entry> {
    if s == [] then []
    else if now > s[0].expires then Kept(s[1..], now)
    else [s[0]] + Kept(s[1..], now)
  }

  function Looked(s: seq<Entry>, k: Key, now: int): Answer {
    var i := FirstMatch(s, k);
    if i < |s| && now <= s[i].expires then Hit(s[i].cw, s[i].hop) else Miss
  }

  function AfterLook(s: seq<Entry>, k: Key, now: int): (t: seq<Entry>)
    ensures |t| == |s|
  {
    var i := FirstMatch(s, k);
    if i < |s| && now > s[i].expires then s[i := s[i].(valid := false)] else s
  }

  // ----- What every operation keeps

  ghost predicate Ordered(s: seq<Entry>, clock: int) {
    && (forall i :: 0 <= i < |s| ==> s[i].timestamp <= clock)
    && (forall i, j :: 0 <= i < j < |s| ==> s[i].timestamp >= s[j].timestamp)
  }

  ghost predicate OnePerKey(s: seq<Entry>) {
    forall i, j :: 0 <= i < j < |s| && s[i].valid && s[j].valid ==> s[i].key != s[j].key
  }

  ghost predicate InvalidExpired(s: seq<Entry>, clock: int) {
    forall i :: 0 <= i < |s| && !s[i].valid ==> s[i].expires < clock
  }

  ghost predicate Inv(s: seq<Entry>, clock: int) {
    |s| <= MAX_ENTRIES && Ordered(s, clock) && OnePerKey(s) && InvalidExpired(s, clock)
  }

  lemma AddedOrdered(s: seq<Entry>, e: Entry, clock: int, now: int)
    requires Inv(s, clock) && clock <= e.timestamp <= now && e.valid
    ensures Ordered(Added(s, e), now) && InvalidExpired(Added(s, e), now)
  {
    hide FirstMatch, OnePerKey;
    var t, m := Added(s, e), FirstMatch(s, e.key);
    forall i | 0 <= i < |t|
      ensures t[i].timestamp <= now && (!t[i].valid ==> t[i].expires < now)
    {
      if i > 0 {
        assert t[i] == s[if i <= m then i - 1 else i];
      }
    }
    forall i, j | 0 <= i < j < |t|
      ensures t[i].timestamp >= t[j].timestamp
    {
      var b := if j <= m then j - 1 else j;
      assert t[j] == s[b];
      if i > 0 {
        var a := if i <= m then i - 1 else i;
        assert t[i] == s[a] && a <= b;
      }
    }
  }

  lemma AddedInv(s: seq<Entry>, e: Entry, clock: int, now: int)
    requires Inv(s, clock) && clock <= e.timestamp <= now && e.valid
    ensures Inv(Added(s, e), now)
  {
    hide FirstMatch;
    AddedOrdered(s, e, clock, now);
    forall i, j | 0 <= i < j < |Added(s, e)| && Added(s, e)[i].valid && Added(s, e)[j].valid
      ensures Added(s, e)[i].key != Added(s, e)[j].key
    {
      if i == 0 {
        var b := if j <= FirstMatch(s, e.key) then j - 1 else j;
        assert Added(s, e)[j] == s[b];
        assert !Matches(s[b], e.key);
      }
    }
  }

  lemma RemovedInv(s: seq<Entry>, k: Key, clock: int, now: int)
    requires Inv(s, clock) && clock <= now
    ensures Inv(Removed(s, k), now)
    ensures forall j :: 0 <= j < |Removed(s, k)| ==> !Matches(Removed(s, k)[j], k)
  {
    hide FirstMatch;
    assert Ordered(Removed(s, k), now);
    assert InvalidExpired(Removed(s, k), now);
    assert OnePerKey(Removed(s, k));
  }

  lemma AfterLookInv(s: seq<Entry>, k: Key, clock: int, now: int)
    requires Inv(s, clock) && clock <= now
    ensures Inv(AfterLook(s, k, now), now)
  {
    hide FirstMatch;
  }

  lemma {:induction false} KeptMembers(s: seq<Entry>, now: int)
    ensures |Kept(s, now)| <= |s|
    ensures forall e :: e in Kept(s, now) <==> e in s && now <= e.expires
  {
    if s != [] {
      KeptMembers(s[1..], now);
      assert s == [s[0]] + s[1..];
    }
  }

  lemma PrependInv(s: seq<Entry>, rest: seq<Entry>, clock: int, now: int)
    requires s != [] && Inv(s, clock) && clock <= now
    requires Inv(rest, now) && |rest| < |s|
    requires forall e :: e in rest ==> e in s[1..]
    ensures Inv([s[0]] + rest, now)
  {
    forall j | 0 <= j < |rest|
      ensures s[0].timestamp >= rest[j].timestamp
      ensures s[0].valid && rest[j].valid ==> s[0].key != rest[j].key
    {
      assert rest[j] in s[1..];
    }
  }

  lemma {:induction false} KeptInv(s: seq<Entry>, clock: int, asked: int, now: int)
    requires Inv(s, clock) && clock <= now
    ensures Inv(Kept(s, asked), now)
  {
    if s != [] {
      var rest := Kept(s[1..], asked);
      KeptMembers(s[1..], asked);
      KeptInv(s[1..], clock, asked, now);
      if asked <= s[0].expires {
        PrependInv(s, rest, clock, now);
      }
    }
  }
}
