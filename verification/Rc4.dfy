/** RC4 with a state that lives as long as the session: the keystream of one message goes on where
    that of the message before ended. */
module Rc4 {
  import opened Bits

  // ----- Specification

  datatype State = State(s: seq<Byte>, i: Byte, j: Byte)

  function Identity(): (s: seq<Byte>)
    ensures |s| == 256
  {
    seq(256, n requires 0 <= n < 256 => n)
  }

  /** `s` holds every byte value exactly once. */
  ghost predicate IsPermutation(s: seq<Byte>) {
    |s| == 256 && multiset(s) == multiset(Identity())
  }

  ghost predicate Valid(st: State) {
    IsPermutation(st.s)
  }

  /** Addition of 8-bit counters. */
  function AddByte(a: Byte, b: Byte): (r: Byte) {
    (a + b) % 0x100
  }

  function Swap(s: seq<Byte>, i: Byte, j: Byte): (t: seq<Byte>)
    requires |s| == 256
    ensures |t| == 256
  {
    s[i := s[j]][j := s[i]]
  }

  /** The table after the first `n` swaps of key setup, and the running index. */
  function Setup(key: seq<Byte>, n: nat): (r: (seq<Byte>, Byte))
    requires 0 < |key| && n <= 256
    ensures |r.0| == 256
  {
    if n == 0 then (Identity(), 0) else
      var (s, j) := Setup(key, n - 1);
      var j' := AddByte(AddByte(j, s[n - 1]), key[(n - 1) % |key|]);
      (Swap(s, n - 1, j'), j')
  }

  function Start(key: seq<Byte>): State
    requires 0 < |key|
  {
    State(Setup(key, 256).0, 0, 0)
  }

  function Next(st: State): (r: State)
    requires |st.s| == 256
    ensures |r.s| == 256
  {
    var i := AddByte(st.i, 1);
    var j := AddByte(st.j, st.s[i]);
    State(Swap(st.s, i, j), i, j)
  }

  /** The byte of keystream a state shows. */
  function Output(st: State): Byte
    requires |st.s| == 256
  {
    st.s[AddByte(st.s[st.i], st.s[st.j])]
  }

  function After(st: State, n: nat): (r: State)
    requires |st.s| == 256
    ensures |r.s| == 256
  {
    if n == 0 then st else Next(After(st, n - 1))
  }

  /** Byte `n` of the keystream that follows `st`. */
  function KeyByte(st: State, n: nat): Byte
    requires |st.s| == 256
  {
    Output(After(st, n + 1))
  }

  /** `data` under the keystream that follows `st`. */
  function Stream(st: State, data: seq<Byte>): (r: seq<Byte>)
    requires |st.s| == 256
    ensures |r| == |data|
  {
    seq(|data|, n requires 0 <= n < |data| => ByteXor(data[n], KeyByte(st, n)))
  }

  // ----- Properties

  lemma SwapPermutes(s: seq<Byte>, i: Byte, j: Byte)
    requires |s| == 256
    ensures multiset(Swap(s, i, j)) == multiset(s)
  {
  }

  lemma {:induction false} SetupPermutes(key: seq<Byte>, n: nat)
    requires 0 < |key| && n <= 256
    ensures IsPermutation(Setup(key, n).0)
  {
    if n > 0 {
      SetupPermutes(key, n - 1);
      var (s, j) := Setup(key, n - 1);
      SwapPermutes(s, n - 1, Setup(key, n).1);
    }
  }

  lemma NextPermutes(st: State)
    requires Valid(st)
    ensures Valid(Next(st))
  {
    hide Swap;
    SwapPermutes(st.s, Next(st).i, Next(st).j);
  }

  /** Key setup yields a permutation, and every byte streamed keeps it one. */
  lemma {:induction false} AlwaysPermutation(key: seq<Byte>, n: nat)
    requires 0 < |key|
    ensures Valid(After(Start(key), n))
  {
    hide Setup, Swap;
    if n == 0 {
      SetupPermutes(key, 256);
    } else {
      AlwaysPermutation(key, n - 1);
      NextPermutes(After(Start(key), n - 1));
    }
  }

  lemma {:induction false} AfterSum(st: State, m: nat, n: nat)
    requires |st.s| == 256
    ensures After(st, m + n) == After(After(st, m), n)
  {
    hide Next;
    if n > 0 {
      AfterSum(st, m, n - 1);
    }
  }

  lemma KeyByteShift(st: State, m: nat, n: nat)
    requires |st.s| == 256
    ensures KeyByte(st, m + n) == KeyByte(After(st, m), n)
  {
    hide Output, After, Next;
    AfterSum(st, m, n + 1);
    assert m + (n + 1) == m + n + 1;
  }

  lemma StreamAt(st: State, data: seq<Byte>, n: nat)
    requires |st.s| == 256 && n < |data|
    ensures Stream(st, data)[n] == ByteXor(data[n], KeyByte(st, n))
  {
  }

  lemma StreamIs(st: State, data: seq<Byte>, out: seq<Byte>)
    requires |st.s| == 256 && |out| == |data|
    requires forall n | 0 <= n < |data| :: out[n] == ByteXor(data[n], KeyByte(st, n))
    ensures out == Stream(st, data)
  {
    hide KeyByte, ByteXor;
  }

  lemma StreamConcatAt(st: State, a: seq<Byte>, b: seq<Byte>, n: nat)
    requires |st.s| == 256 && n < |a| + |b|
    ensures Stream(st, a + b)[n] == if n < |a| then Stream(st, a)[n] else Stream(After(st, |a|), b)[n - |a|]
  {
    hide Stream, KeyByte, ByteXor, After, Next;
    StreamAt(st, a + b, n);
    if n < |a| {
      StreamAt(st, a, n);
    } else {
      KeyByteShift(st, |a|, n - |a|);
      StreamAt(After(st, |a|), b, n - |a|);
    }
  }

  /** Streaming a concatenation is streaming the pieces in turn. */
  lemma StreamConcat(st: State, a: seq<Byte>, b: seq<Byte>)
    requires |st.s| == 256
    ensures Stream(st, a + b) == Stream(st, a) + Stream(After(st, |a|), b)
    ensures After(st, |a + b|) == After(After(st, |a|), |b|)
  {
    hide Stream, After, Next, KeyByte, ByteXor;
    AfterSum(st, |a|, |b|);
    var x, y := Stream(st, a + b), Stream(st, a) + Stream(After(st, |a|), b);
    forall n | 0 <= n < |a| + |b|
      ensures x[n] == y[n]
    {
      StreamConcatAt(st, a, b, n);
    }
  }

  /** Two streams from equal states undo each other. */
  lemma StreamTwice(st: State, data: seq<Byte>)
    requires |st.s| == 256
    ensures Stream(st, Stream(st, data)) == data
  {
    hide Stream, KeyByte, ByteXor, After, Next;
    var once := Stream(st, data);
    forall n | 0 <= n < |data|
      ensures Stream(st, once)[n] == data[n]
    {
      StreamAt(st, data, n);
      StreamAt(st, once, n);
      ByteXorTwice(data[n], KeyByte(st, n));
    }
  }

  // ----- Step by step

  /** Two entries have changed places and the others have not. */
  ghost predicate Exchanged(s: seq<Byte>, t: seq<Byte>, a: Byte, b: Byte) {
    && |s| == |t| == 256 && t[a] == s[b] && t[b] == s[a]
    && forall m | 0 <= m < 256 && m != a && m != b :: t[m] == s[m]
  }

  /** One step of key setup: the running index moves by the entry and the byte of the key, and the entry trades
      places with the one it finds there. */
  ghost predicate Keyed(key: seq<Byte>, n: nat, s: seq<Byte>, j: Byte, t: seq<Byte>, j': Byte)
    requires 0 < |key| && n < 256 && |s| == 256
  {
    j' == (j + s[n] + key[n % |key|]) % 0x100 && Exchanged(s, t, n, j')
  }

  lemma StepSums(a: Byte, b: Byte, c: Byte)
    ensures AddByte(AddByte(a, b), c) == (a + b + c) % 0x100
  {
  }

  lemma SetupStep(key: seq<Byte>, n: nat)
    requires 0 < |key| && n < 256
    ensures Keyed(key, n, Setup(key, n).0, Setup(key, n).1, Setup(key, n + 1).0, Setup(key, n + 1).1)
  {
    StepSums(Setup(key, n).1, Setup(key, n).0[n], key[n % |key|]);
  }

  lemma SetupBegins(key: seq<Byte>)
    requires 0 < |key|
    ensures Setup(key, 0) == (Identity(), 0) && Start(key) == State(Setup(key, 256).0, 0, 0)
    ensures forall m | 0 <= m < 256 :: Identity()[m] == m
  {
  }

  /** Key setup: from the identity, 256 steps. */
  lemma SetupEquations(key: seq<Byte>) returns (t: seq<seq<Byte>>, j: seq<Byte>)
    requires 0 < |key|
    ensures |t| == |j| == 257 && |t[0]| == 256 && j[0] == 0 && forall m | 0 <= m < 256 :: t[0][m] == m
    ensures forall n | 0 <= n < 256 :: |t[n]| == 256
    ensures forall n | 0 <= n < 256 :: Keyed(key, n, t[n], j[n], t[n + 1], j[n + 1])
    ensures Start(key) == State(t[256], 0, 0)
  {
    hide Setup, Start, Identity, Keyed;
    SetupBegins(key);
    t := seq(257, n requires 0 <= n < 257 => Setup(key, n).0);
    j := seq(257, n requires 0 <= n < 257 => Setup(key, n).1);
    forall n | 0 <= n < 256
      ensures Keyed(key, n, t[n], j[n], t[n + 1], j[n + 1])
    {
      SetupStep(key, n);
    }
  }

  /** One byte: the first index moves by one, the second by the entry found there, the two entries trade places,
      and the entry their sum points at masks the byte. */
  ghost predicate Streamed(x: State, y: State, a: Byte, b: Byte)
    requires |x.s| == |y.s| == 256
  {
    && y.i == (x.i + 1) % 0x100 && y.j == (x.j + x.s[y.i]) % 0x100 && Exchanged(x.s, y.s, y.i, y.j)
    && b == ByteXor(a, y.s[(y.s[y.i] as int + y.s[y.j]) % 0x100])
  }

  lemma StreamStep(st: State, a: Byte, n: nat)
    requires |st.s| == 256
    ensures Streamed(After(st, n), After(st, n + 1), a, ByteXor(a, KeyByte(st, n)))
  {
    hide ByteXor;
    assert After(st, n + 1) == Next(After(st, n));
  }

  lemma StreamBegins(st: State)
    requires |st.s| == 256
    ensures After(st, 0) == st
  {
  }

  lemma StreamEquations(st: State, data: seq<Byte>) returns (x: seq<State>)
    requires |st.s| == 256
    ensures |x| == |data| + 1 && x[0] == st && After(st, |data|) == x[|data|]
    ensures forall n | 0 <= n < |x| :: |x[n].s| == 256
    ensures forall n | 0 <= n < |data| :: Streamed(x[n], x[n + 1], data[n], Stream(st, data)[n])
  {
    hide ByteXor, After, Stream, KeyByte, Streamed;
    StreamBegins(st);
    x := seq(|data| + 1, n requires 0 <= n <= |data| => After(st, n));
    forall n | 0 <= n < |data|
      ensures Streamed(x[n], x[n + 1], data[n], Stream(st, data)[n])
    {
      StreamAt(st, data, n);
      StreamStep(st, data[n], n);
    }
  }

  // ----- The state updated in place

  class Cipher {
    var s: array<Byte>
    var i: Byte
    var j: Byte
    var ready: bool

    ghost predicate WellFormed()
      reads this
    {
      s.Length == 256
    }

    ghost function View(): State
      requires WellFormed()
      reads this, s
    {
      State(s[..], i, j)
    }

    constructor ()
      ensures WellFormed() && !ready && fresh(s)
    {
      s := new Byte[256](_ => 0);
      i, j, ready := 0, 0, false;
    }

    method SwapEntries(a: Byte, b: Byte)
      requires WellFormed()
      modifies s
      ensures s[..] == Swap(old(s[..]), a, b)
    {
      var tmp := s[a];
      s[a] := s[b];
      s[b] := tmp;
    }

    /** Keys the state with the first `keyLen` bytes of `key`. */
    method Init(key: array<Byte>, keyLen: nat) returns (ok: bool)
      requires WellFormed() && key != s && keyLen <= key.Length
      modifies this`i, this`j, this`ready, s
      ensures ok == (0 < keyLen <= 256)
      ensures ok ==> ready && View() == Start(key[..keyLen])
      ensures !ok ==> View() == old(View()) && ready == old(ready)
    {
      if keyLen == 0 || keyLen > 256 {
        return false;
      }
      var n := 0;
      while n < 256
        invariant 0 <= n <= 256
        invariant forall m | 0 <= m < n :: s[m] == m
      {
        s[n] := n;
        n := n + 1;
      }
      assert s[..] == Identity();
      var j0: Byte := 0;
      n := 0;
      while n < 256
        invariant 0 <= n <= 256 && key[..] == old(key[..])
        invariant (s[..], j0) == Setup(key[..keyLen], n)
      {
        j0 := AddByte(AddByte(j0, s[n]), key[n % keyLen]);
        SwapEntries(n, j0);
        n := n + 1;
      }
      i, j, ready := 0, 0, true;
      return true;
    }

    method KeystreamByte() returns (k: Byte)
      requires WellFormed()
      modifies this`i, this`j, s
      ensures View() == Next(old(View())) && k == Output(View())
    {
      hide Swap, AddByte;
      i := AddByte(i, 1);
      j := AddByte(j, s[i]);
      SwapEntries(i, j);
      k := s[AddByte(s[i], s[j])];
    }

    /** Encrypts or decrypts the first `len` bytes of `data`, the two being the same operation. */
    method Apply(data: array<Byte>, len: nat) returns (ok: bool)
      requires WellFormed() && data != s && len <= data.Length
      modifies this`i, this`j, s, data
      ensures ok == ready
      ensures ok ==> data[..len] == Stream(old(View()), old(data[..len])) && View() == After(old(View()), len)
      ensures !ok ==> data[..len] == old(data[..len]) && View() == old(View())
      ensures data[len..] == old(data[len..])
    {
      if !ready {
        return false;
      }
      ApplyReady(data, len);
      return true;
    }

    method ApplyReady(data: array<Byte>, len: nat)
      requires WellFormed() && data != s && len <= data.Length
      modifies this`i, this`j, s, data
      ensures data[..len] == Stream(old(View()), old(data[..len]))
      ensures View() == After(old(View()), len)
      ensures data[len..] == old(data[len..])
    {
      hide Next, Output, ByteXor, Stream;
      ghost var st, before := View(), data[..];
      var n := 0;
      while n < len
        invariant 0 <= n <= len
        invariant View() == After(st, n)
        invariant forall k | 0 <= k < n :: data[k] == ByteXor(before[k], KeyByte(st, k))
        invariant data[n..] == before[n..]
      {
        assert data[n] == before[n] && before[n + 1..] == before[n..][1..];
        var k := KeystreamByte();
        assert k == KeyByte(st, n);
        data[n] := ByteXor(data[n], k);
        assert data[n + 1..] == before[n..][1..];
        n := n + 1;
      }
      StreamIs(st, before[..len], data[..len]);
    }
  }
}
