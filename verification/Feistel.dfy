/** Feistel networks over any half block, any round function and any number of rounds. */
module Feistel {

  datatype Block<H> = Block(l: H, r: H)

  /** How halves are combined and what a round computes from its key and one half. */
  datatype Network<!H, !K> = Network(mask: (H, H) -> H, f: (K, H) -> H)

  /** Masking with the same half twice restores the other. */
  ghost predicate MaskUndoes<H(!new), K(!new)>(n: Network<H, K>) {
    forall a, b :: n.mask(n.mask(a, b), b) == a
  }

  function Swap<H>(b: Block<H>): Block<H> {
    Block(b.r, b.l)
  }

  function Round<H, K>(n: Network<H, K>, k: K, b: Block<H>): Block<H> {
    Block(b.r, n.mask(b.l, n.f(k, b.r)))
  }

  function Rounds<H, K>(n: Network<H, K>, ks: seq<K>, b: Block<H>): Block<H> {
    if ks == [] then b else Rounds(n, ks[1..], Round(n, ks[0], b))
  }

  function Reverse<K>(ks: seq<K>): (r: seq<K>)
    ensures |r| == |ks|
  {
    if ks == [] then [] else Reverse(ks[1..]) + [ks[0]]
  }

  lemma {:induction false} ReverseAt<K>(ks: seq<K>, i: nat)
    requires i < |ks|
    ensures Reverse(ks)[i] == ks[|ks| - 1 - i]
  {
    if i < |ks| - 1 {
      ReverseAt(ks[1..], i);
    }
  }

  lemma ReverseTwice<K>(ks: seq<K>)
    ensures Reverse(Reverse(ks)) == ks
  {
    forall i | 0 <= i < |ks|
      ensures Reverse(Reverse(ks))[i] == ks[i]
    {
      ReverseAt(Reverse(ks), i);
      ReverseAt(ks, |ks| - 1 - i);
    }
  }

  lemma {:induction false} RoundsSnoc<H, K>(n: Network<H, K>, ks: seq<K>, k: K, b: Block<H>)
    ensures Rounds(n, ks + [k], b) == Round(n, k, Rounds(n, ks, b))
  {
    if ks == [] {
      assert ks + [k] == [k];
    } else {
      assert (ks + [k])[1..] == ks[1..] + [k];
      RoundsSnoc(n, ks[1..], k, Round(n, ks[0], b));
    }
  }

  /** With the halves exchanged in between, running the rounds under the reversed keys undoes them. */
  lemma {:induction false} ReversedRoundsUndo<H(!new), K(!new)>(n: Network<H, K>, ks: seq<K>, b: Block<H>)
    requires MaskUndoes(n)
    ensures Rounds(n, Reverse(ks), Swap(Rounds(n, ks, b))) == Swap(b)
    decreases |ks|
  {
    if ks != [] {
      var b1 := Round(n, ks[0], b);
      ReversedRoundsUndo(n, ks[1..], b1);
      RoundsSnoc(n, Reverse(ks[1..]), ks[0], Swap(Rounds(n, ks, b)));
      assert Round(n, ks[0], Swap(b1)) == Swap(b);
    }
  }

  /** Every round makes one new half: the last one but one, masked with what the round makes of the last one. */
  lemma {:induction false} Halves<H(!new), K(!new)>(n: Network<H, K>, ks: seq<K>, b: Block<H>) returns (h: seq<H>)
    ensures |h| == |ks| + 2 && h[0] == b.l && h[1] == b.r
    ensures forall i | 0 <= i < |ks| :: h[i + 2] == n.mask(h[i], n.f(ks[i], h[i + 1]))
    ensures Rounds(n, ks, b) == Block(h[|ks|], h[|ks| + 1])
  {
    if ks == [] {
      h := [b.l, b.r];
    } else {
      var t := Halves(n, ks[1..], Round(n, ks[0], b));
      h := [b.l] + t;
      forall i | 0 <= i < |ks|
        ensures h[i + 2] == n.mask(h[i], n.f(ks[i], h[i + 1]))
      {
        if i > 0 {
          assert t[i - 1 + 2] == n.mask(t[i - 1], n.f(ks[1..][i - 1], t[i - 1 + 1]));
        }
      }
    }
  }
}
