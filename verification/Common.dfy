/** What several modules share: optional values, and bytes written at a place in a buffer. */
module Common {

  datatype Option<T> = None | Some(value: T)

  /** The loop of a `memcpy` into `a` from `at` on. */
  method Put<T>(a: array<T>, at: nat, s: seq<T>)
    requires at + |s| <= a.Length
    modifies a
    ensures a[at..at + |s|] == s
    ensures a[..at] == old(a[..at]) && a[at + |s|..] == old(a[at + |s|..])
    ensures forall k | 0 <= k < at || at + |s| <= k < a.Length :: a[k] == old(a[k])
  {
    var n := 0;
    while n < |s|
      invariant 0 <= n <= |s|
      invariant forall k | at <= k < at + n :: a[k] == s[k - at]
      invariant forall k | 0 <= k < at || at + n <= k < a.Length :: a[k] == old(a[k])
    {
      a[at + n] := s[n];
      n := n + 1;
    }
  }
}
