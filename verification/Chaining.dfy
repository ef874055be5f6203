/** Cipher block chaining over whole blocks (section 6.2 of NIST SP 800-38A), for any step that
    combines the chaining value with a block: masking followed by a block cipher, for instance. */
module Chaining {

  /** From the chaining value and a block of text to a block of text. */
  type Step<!B> = (B, B) -> B

  /** Every block is sealed under the one sent before it. */
  function Seal<B>(e: Step<B>, iv: B, ps: seq<B>): (cs: seq<B>)
    ensures |cs| == |ps|
  {
    if ps == [] then [] else [e(iv, ps[0])] + Seal(e, e(iv, ps[0]), ps[1..])
  }

  function Open<B>(d: Step<B>, iv: B, cs: seq<B>): (ps: seq<B>)
    ensures |ps| == |cs|
  {
    if cs == [] then [] else [d(iv, cs[0])] + Open(d, cs[0], cs[1..])
  }

  /** The chaining value after `cs` has been sent or received. */
  function Last<B>(iv: B, cs: seq<B>): B {
    if cs == [] then iv else cs[|cs| - 1]
  }

  ghost predicate Undoes<B(!new)>(d: Step<B>, e: Step<B>) {
    forall iv, b :: d(iv, e(iv, b)) == b
  }

  /** Block `j` depends on its own text and on ciphertext block `j - 1` alone. */
  lemma {:induction false} SealAt<B>(e: Step<B>, iv: B, ps: seq<B>, j: nat)
    requires j < |ps|
    ensures Seal(e, iv, ps)[j] == e(if j == 0 then iv else Seal(e, iv, ps)[j - 1], ps[j])
    decreases j
  {
    if j > 0 {
      SealAt(e, e(iv, ps[0]), ps[1..], j - 1);
    }
  }

  lemma {:induction false} OpenAt<B>(d: Step<B>, iv: B, cs: seq<B>, j: nat)
    requires j < |cs|
    ensures Open(d, iv, cs)[j] == d(if j == 0 then iv else cs[j - 1], cs[j])
    decreases j
  {
    if j > 0 {
      OpenAt(d, cs[0], cs[1..], j - 1);
    }
  }

  lemma {:induction false} OpenSeal<B(!new)>(e: Step<B>, d: Step<B>, iv: B, ps: seq<B>)
    requires Undoes(d, e)
    ensures Open(d, iv, Seal(e, iv, ps)) == ps
  {
    if ps != [] {
      OpenSeal(e, d, e(iv, ps[0]), ps[1..]);
    }
  }

  /** Sealing in two goes, the second from where the first one stopped, is sealing in one. */
  lemma {:induction false} SealConcat<B>(e: Step<B>, iv: B, ps: seq<B>, qs: seq<B>)
    ensures Seal(e, iv, ps + qs) == Seal(e, iv, ps) + Seal(e, Last(iv, Seal(e, iv, ps)), qs)
  {
    if ps == [] {
      assert ps + qs == qs;
    } else {
      var c := e(iv, ps[0]);
      assert (ps + qs)[1..] == ps[1..] + qs;
      SealConcat(e, c, ps[1..], qs);
      assert Last(iv, Seal(e, iv, ps)) == Last(c, Seal(e, c, ps[1..]));
    }
  }

  lemma {:induction false} OpenConcat<B>(d: Step<B>, iv: B, cs: seq<B>, bs: seq<B>)
    ensures Open(d, iv, cs + bs) == Open(d, iv, cs) + Open(d, Last(iv, cs), bs)
  {
    if cs == [] {
      assert cs + bs == bs;
    } else {
      assert (cs + bs)[1..] == cs[1..] + bs;
      OpenConcat(d, cs[0], cs[1..], bs);
      assert Last(iv, cs) == Last(cs[0], cs[1..]);
    }
  }
}
