/** The key schedules of IDEA, filled in place: the encryption schedule as rotations of the key,
    the inverse of a subkey by the extended Euclidean algorithm, and the decryption schedule. */
module IdeaKeys {
  import opened Bits
  import opened IdeaGroup
  import opened IdeaCipher

  // ----- Extended Euclid

  /** What the loop keeps about the remainders `n1 > n2` and their coefficients `b1`, `b2`.
      The ghost numbers witness that both remainders are multiples of `x` modulo P (`u1`, `u2`),
      that every common divisor divides P (`c1`, `c2`), and how large the coefficients are. */
  ghost predicate EuclidInv(x: int, n1: int, n2: int, b1: int, b2: int, u1: int, u2: int,
                            c1: int, c2: int, a1: int, a2: int, up: bool)
  {
    && 1 <= n2 < n1 <= P
    && b1 * x == P * u1 + n1
    && b2 * x == P * u2 + n2
    && c1 * n1 + c2 * n2 == P
    && n1 * a2 + n2 * a1 == P
    && a1 >= 0 && a2 >= 0
    && b2 == (if up then a2 else -a2) && b1 == (if up then -a1 else a1)
  }

  lemma StepCongruence(x: int, n1: int, n2: int, b1: int, b2: int, u1: int, u2: int, q: int, r: int)
    requires b1 * x == P * u1 + n1 && b2 * x == P * u2 + n2 && n1 == q * n2 + r
    ensures (b1 - q * b2) * x == P * (u1 - q * u2) + r
  {
    assert (q * b2) * x == q * (b2 * x);
    assert q * (P * u2 + n2) == P * (q * u2) + q * n2;
  }

  lemma StepLinear(n: int, c: int, d: int, q: int, r: int)
    ensures (c * q + d) * n + c * r == c * (q * n + r) + d * n
    ensures n * (d + q * c) + r * c == (q * n + r) * c + n * d
  {
    assert c * (q * n) == (c * q) * n;
    assert (q * n) * c == n * (q * c);
  }

  lemma EuclidStep(x: int, n1: int, n2: int, b1: int, b2: int, u1: int, u2: int,
                   c1: int, c2: int, a1: int, a2: int, up: bool, q: nat, r: int)
    requires EuclidInv(x, n1, n2, b1, b2, u1, u2, c1, c2, a1, a2, up)
    requires n1 == q * n2 + r && 0 < r < n2
    ensures EuclidInv(x, n2, r, b2, b1 - q * b2, u2, u1 - q * u2, c1 * q + c2, c1, a2, a1 + q * a2, !up)
  {
    MulMono(0, q, 0, a2);
    StepCongruence(x, n1, n2, b1, b2, u1, u2, q, r);
    StepLinear(n2, c1, c2, q, r);
    StepLinear(n2, a2, a1, q, r);
    assert q * -a2 == -(q * a2);
  }

  /** The last remainder divides P, so it is 1, and its coefficient is an inverse. */
  lemma EuclidEnd(x: int, n1: int, n2: int, b1: int, b2: int, u1: int, u2: int,
                  c1: int, c2: int, a1: int, a2: int, up: bool, q: int)
    requires EuclidInv(x, n1, n2, b1, b2, u1, u2, c1, c2, a1, a2, up)
    requires n1 == q * n2 && 0 < x < 0x1_0000
    ensures b2 * x == P * u2 + 1
    ensures -0x8000 <= b2 <= 0x8000 && b2 != 0 && b2 != -1
  {
    assert n2 == 1 by {
      assert c1 * (q * n2) == (c1 * q) * n2;
      assert (c1 * q + c2) * n2 == P;
      assert n2 * (c1 * q + c2) == P;
      DivModUnique(P, n2, c1 * q + c2, 0);
      if n2 > 1 {
        PrimeModulus(n2);
        assert false;
      }
    }
    MulMono(2, n1, a2, a2);
    if b2 == -1 {
      DivModUnique(x + 1, P, -u2, 0);
      assert false;
    }
  }

  lemma Quotient(n1: nat, n2: nat, r: int, q: int)
    requires n2 > 0 && r == n1 % n2 && q == (n1 - r) / n2
    ensures n1 == q * n2 + r && q >= 0
  {
    Parts(n1, n2);
    DivModUnique(n1 - r, n2, n1 / n2, 0);
  }

  lemma Normalise(x: Word, b2: int, u2: int)
    requires x != 0 && b2 * x == P * u2 + 1
    requires -0x8000 <= b2 <= 0x8000 && b2 != 0 && b2 != -1
    ensures var b := if b2 < 0 then P + b2 else b2;
            0 < b < 0x1_0000 && IsInverse(x, b)
  {
    var b := if b2 < 0 then P + b2 else b2;
    var u := if b2 < 0 then x + u2 else u2;
    assert x * b == P * u + 1 by {
      assert x * b2 == b2 * x;
      assert x * (P + b2) == P * x + x * b2;
    }
    DivModUnique(x * b, P, u, 1);
  }

  /** The multiplicative inverse of a subkey, 0 being its own. */
  method Inverse(xin: Word) returns (b2': Word)
    ensures IsInverse(xin, b2')
  {
    var b2: int;
    if xin == 0 {
      b2 := 0;
    } else {
      var n1, n2: int := 0x1_0001, xin;
      b2 := 1;
      var b1 := 0;
      ghost var u1, u2, c1, c2, a1, a2, up := -1, 0, 1, 0, 0, 1, true;
      while true
        invariant EuclidInv(xin, n1, n2, b1, b2, u1, u2, c1, c2, a1, a2, up)
        decreases n2
      {
        Parts(n1, n2);
        var r := n1 % n2;
        var q := (n1 - r) / n2;
        Quotient(n1, n2, r, q);
        if r == 0 {
          EuclidEnd(xin, n1, n2, b1, b2, u1, u2, c1, c2, a1, a2, up, q);
          Normalise(xin, b2, u2);
          if b2 < 0 {
            b2 := 0x1_0001 + b2;
          }
          break;
        } else {
          EuclidStep(xin, n1, n2, b1, b2, u1, u2, c1, c2, a1, a2, up, q, r);
          u1, u2, c1, c2, a1, a2, up := u2, u1 - q * u2, c1 * q + c2, c1, a2, a1 + q * a2, !up;
          n1 := n2;
          n2 := r;
          var t := b2;
          b2 := b1 - q * b2;
          b1 := t;
        }
      }
    }
    b2' := b2;
  }

  // ----- The encryption schedule

  /** The number whose big-endian digits are `w`, in base 65536. */
  function ValueOf(w: seq<Word>): nat {
    if w == [] then 0 else ValueOf(w[..|w| - 1]) * 0x1_0000 + w[|w| - 1]
  }

  /** The 16 bits of `v` that start `16 * m` bits above its lowest bit. */
  function WordFromEnd(v: nat, m: nat): Word {
    if m == 0 then v % 0x1_0000 else WordFromEnd(v / 0x1_0000, m - 1)
  }

  /** A 128-bit number rotated left by 25 bits. */
  function RotateLeft25(v: nat): nat {
    (v % 0x80_0000_0000_0000_0000_0000_0000) * 0x200_0000 + v / 0x80_0000_0000_0000_0000_0000_0000
  }

  function Rotated(v: nat, g: nat): nat {
    if g == 0 then v else RotateLeft25(Rotated(v, g - 1))
  }

  /** Subkey `n` of a 128-bit key: the subkeys are the words of the key, then of the key rotated
      left by 25 bits, then by 50, and so on, eight at a time. */
  function SubKey(key: nat, n: nat): Word {
    WordFromEnd(Rotated(key, n / 8), 7 - n % 8)
  }

  function BigEndian16(a: int, b: int): (r: int)
    ensures 0 <= a < 0x100 && 0 <= b < 0x100 ==> 0 <= r < 0x1_0000
  {
    a * 0x100 + b
  }

  function KeyWords(key: seq<Byte>): (w: seq<Word>)
    requires |key| == 16
    ensures |w| == 8
  {
    seq(8, j requires 0 <= j < 8 => BigEndian16(key[2 * j], key[2 * j + 1]))
  }

  function Low7(a: Word): (r: int)
    ensures 0 <= r < 0x80 && a == (a / 0x80) * 0x80 + r
  {
    a % 0x80
  }

  function High9(a: Word): (r: int)
    ensures 0 <= r < 0x200 && r == a / 0x80
  {
    a / 0x80
  }

  /** The last seven bits of one word before the first nine of the next. */
  function Joined(a: Word, b: Word): (r: Word)
    ensures r == Low7(a) * 0x200 + High9(b)
  {
    Low7(a) * 0x200 + High9(b)
  }

  function NextGroup(w: seq<Word>): (v: seq<Word>)
    requires |w| == 8
    ensures |v| == 8
  {
    seq(8, j requires 0 <= j < 8 => Joined(w[(j + 1) % 8], w[(j + 2) % 8]))
  }

  function Group(w: seq<Word>, g: nat): (v: seq<Word>)
    requires |w| == 8
    ensures |v| == 8
  {
    if g == 0 then w else NextGroup(Group(w, g - 1))
  }

  lemma {:induction false} DigitsOfValue(w: seq<Word>, m: nat)
    requires m < |w|
    ensures WordFromEnd(ValueOf(w), m) == w[|w| - 1 - m]
  {
    if m > 0 {
      DigitsOfValue(w[..|w| - 1], m - 1);
    }
  }

  function Sum8(a0: int, a1: int, a2: int, a3: int, a4: int, a5: int, a6: int, a7: int): int {
    a0 * 0x1_0000_0000_0000_0000_0000_0000_0000 + a1 * 0x1_0000_0000_0000_0000_0000_0000
    + a2 * 0x1_0000_0000_0000_0000_0000 + a3 * 0x1_0000_0000_0000_0000
    + a4 * 0x1_0000_0000_0000 + a5 * 0x1_0000_0000 + a6 * 0x1_0000 + a7
  }

  lemma ValueSnoc(w: seq<Word>, n: nat)
    requires n < |w|
    ensures ValueOf(w[..n + 1]) == ValueOf(w[..n]) * 0x1_0000 + w[n]
  {
    assert w[..n + 1][..n] == w[..n];
  }

  lemma ValueOfEight(w: seq<Word>)
    requires |w| == 8
    ensures ValueOf(w) == Sum8(w[0], w[1], w[2], w[3], w[4], w[5], w[6], w[7])
  {
    assert w[..0] == [] && w[..8] == w;
    assert ValueOf(w[..0]) == 0;
    hide ValueOf;
    ValueSnoc(w, 0);
    ValueSnoc(w, 1);
    ValueSnoc(w, 2);
    ValueSnoc(w, 3);
    ValueSnoc(w, 4);
    ValueSnoc(w, 5);
    ValueSnoc(w, 6);
    ValueSnoc(w, 7);
  }

  lemma RotateSum(a0: int, a1: int, a2: int, a3: int, a4: int, a5: int, a6: int, a7: int,
                  h0: int, h1: int, h2: int, h3: int, h4: int, h5: int, h6: int, h7: int,
                  l0: int, l1: int, l2: int, l3: int, l4: int, l5: int, l6: int, l7: int)
    requires a0 == h0 * 0x80 + l0 && a1 == h1 * 0x80 + l1 && a2 == h2 * 0x80 + l2 && a3 == h3 * 0x80 + l3
    requires a4 == h4 * 0x80 + l4 && a5 == h5 * 0x80 + l5 && a6 == h6 * 0x80 + l6 && a7 == h7 * 0x80 + l7
    ensures Sum8(l1 * 0x200 + h2, l2 * 0x200 + h3, l3 * 0x200 + h4, l4 * 0x200 + h5,
                 l5 * 0x200 + h6, l6 * 0x200 + h7, l7 * 0x200 + h0, l0 * 0x200 + h1)
         == Sum8(0, l1, a2, a3, a4, a5, a6, a7) * 0x200_0000 + a0 * 0x200 + h1
    ensures Sum8(a0, a1, a2, a3, a4, a5, a6, a7)
         == 0x80_0000_0000_0000_0000_0000_0000 * (a0 * 0x200 + h1) + Sum8(0, l1, a2, a3, a4, a5, a6, a7)
  {
  }

  /** One pass of the schedule's shifts rotates the whole 128-bit group. */
  lemma NextGroupRotates(w: seq<Word>)
    requires |w| == 8
    ensures ValueOf(NextGroup(w)) == RotateLeft25(ValueOf(w))
  {
    hide ValueOf, Joined;
    ValueOfEight(w);
    var v := NextGroup(w);
    ValueOfEight(v);
    var h := seq(8, j requires 0 <= j < 8 => High9(w[j]));
    var l := seq(8, j requires 0 <= j < 8 => Low7(w[j]));
    RotateSum(w[0], w[1], w[2], w[3], w[4], w[5], w[6], w[7],
              h[0], h[1], h[2], h[3], h[4], h[5], h[6], h[7],
              l[0], l[1], l[2], l[3], l[4], l[5], l[6], l[7]);
    var rest := Sum8(0, l[1], w[2], w[3], w[4], w[5], w[6], w[7]);
    assert 0 <= rest < 0x80_0000_0000_0000_0000_0000_0000;
    hide Sum8;
    DivModUnique(ValueOf(w), 0x80_0000_0000_0000_0000_0000_0000, w[0] as int * 0x200 + h[1], rest);
  }

  lemma {:induction false} GroupRotates(w: seq<Word>, g: nat)
    requires |w| == 8
    ensures ValueOf(Group(w, g)) == Rotated(ValueOf(w), g)
  {
    hide ValueOf, NextGroup, RotateLeft25;
    if g > 0 {
      GroupRotates(w, g - 1);
      NextGroupRotates(Group(w, g - 1));
    }
  }

  lemma SubKeyIsGroupWord(w: seq<Word>, n: nat)
    requires |w| == 8
    ensures Group(w, n / 8)[n % 8] == SubKey(ValueOf(w), n)
  {
    GroupRotates(w, n / 8);
    DigitsOfValue(Group(w, n / 8), 7 - n % 8);
  }

  /** What the schedule's expression computes: the bits shifted out of one word meet those of the next. */
  function Shifted(a: Word, b: Word): (r: Word)
    ensures r == Joined(a, b)
  {
    Pow2Values();
    assert Pow2(9) == 0x200;
    OrDisjoint(a, b / 0x80, 9);
    DivModUnique(a * 0x200 + b / 0x80, 0x1_0000, a / 0x80, Joined(a, b));
    Or(a * 0x200, b / 0x80) % 0x1_0000
  }

  lemma NextGroupWords(w: seq<Word>)
    requires |w| == 8
    ensures var v := NextGroup(w);
            && v[0] == Joined(w[1], w[2]) && v[1] == Joined(w[2], w[3]) && v[2] == Joined(w[3], w[4])
            && v[3] == Joined(w[4], w[5]) && v[4] == Joined(w[5], w[6]) && v[5] == Joined(w[6], w[7])
            && v[6] == Joined(w[7], w[0]) && v[7] == Joined(w[0], w[1])
  {
  }

  /** Eight words of the schedule, one by one. */
  ghost predicate HoldsAt(ks: array<Word>, at: nat, w: seq<Word>)
    requires |w| == 8 && at + 8 <= ks.Length
    reads ks
  {
    && ks[at] == w[0] && ks[at + 1] == w[1] && ks[at + 2] == w[2] && ks[at + 3] == w[3]
    && ks[at + 4] == w[4] && ks[at + 5] == w[5] && ks[at + 6] == w[6] && ks[at + 7] == w[7]
  }

  /** The first three words of the next group, and the registers the fourth needs. */
  method FillThree(ks: array<Word>, kf: nat, kt: nat, ghost w: seq<Word>) returns (r0: Word, r1: Word, r2: Word)
    requires ks.Length == 54 && kf + 8 == kt <= 48 && |w| == 8 && HoldsAt(ks, kf, w)
    modifies ks
    ensures forall m | 0 <= m < kt :: ks[m] == old(ks[m])
    ensures ks[kt] == Joined(w[1], w[2]) && ks[kt + 1] == Joined(w[2], w[3]) && ks[kt + 2] == Joined(w[3], w[4])
    ensures r0 == w[3] && r1 == w[4] && r2 == w[1]
  {
    hide Joined, Shifted;
    r2 := ks[kf + 1];
    r1 := ks[kf + 2];
    ks[kt] := Shifted(r2, r1);
    r0 := ks[kf + 3];
    ks[kt + 1] := Shifted(r1, r0);
    r1 := ks[kf + 4];
    ks[kt + 2] := Shifted(r0, r1);
  }

  /** The next three words, and the registers left for the last two. */
  method FillThreeMore(ks: array<Word>, kf: nat, kt: nat, r0': Word, r1': Word, ghost w: seq<Word>)
    returns (r0: Word, r1: Word)
    requires ks.Length == 54 && kf + 8 == kt <= 48 && |w| == 8 && HoldsAt(ks, kf, w)
    requires r0' == w[3] && r1' == w[4]
    modifies ks
    ensures forall m | 0 <= m < kt + 3 :: ks[m] == old(ks[m])
    ensures ks[kt + 3] == Joined(w[4], w[5]) && ks[kt + 4] == Joined(w[5], w[6]) && ks[kt + 5] == Joined(w[6], w[7])
    ensures r0 == w[7] && r1 == w[0]
  {
    hide Joined, Shifted;
    r0, r1 := ks[kf + 5], r1';
    ks[kt + 3] := Shifted(r1, r0);
    r1 := ks[kf + 6];
    ks[kt + 4] := Shifted(r0, r1);
    r0 := ks[kf + 7];
    ks[kt + 5] := Shifted(r1, r0);
    r1 := ks[kf];
  }

  /** The last two words of a group. */
  method FillTwo(ks: array<Word>, kt: nat, r0: Word, r1: Word, r2: Word, ghost w: seq<Word>)
    requires ks.Length == 54 && kt <= 40 && |w| == 8 && r0 == w[7] && r1 == w[0] && r2 == w[1]
    modifies ks
    ensures forall m | 0 <= m < kt + 6 :: ks[m] == old(ks[m])
    ensures ks[kt + 6] == Joined(w[7], w[0]) && ks[kt + 7] == Joined(w[0], w[1])
  {
    hide Joined, Shifted;
    ks[kt + 6] := Shifted(r0, r1);
    ks[kt + 7] := Shifted(r1, r2);
  }

  lemma SliceWords(ks: array<Word>, at: nat, w: seq<Word>)
    requires at + 8 <= ks.Length && |w| == 8 && ks[at..at + 8] == w
    ensures HoldsAt(ks, at, w)
  {
    forall k | 0 <= k < 8
      ensures ks[at + k] == w[k]
    {
      assert ks[at..at + 8][k] == ks[at + k];
    }
  }

  lemma GroupDone(ks: array<Word>, kt: nat, w: seq<Word>)
    requires |w| == 8 && kt + 8 <= ks.Length
    requires ks[kt] == Joined(w[1], w[2]) && ks[kt + 1] == Joined(w[2], w[3]) && ks[kt + 2] == Joined(w[3], w[4])
    requires ks[kt + 3] == Joined(w[4], w[5]) && ks[kt + 4] == Joined(w[5], w[6]) && ks[kt + 5] == Joined(w[6], w[7])
    requires ks[kt + 6] == Joined(w[7], w[0]) && ks[kt + 7] == Joined(w[0], w[1])
    ensures ks[kt..kt + 8] == NextGroup(w)
  {
    hide Joined, NextGroup;
    NextGroupWords(w);
    var v := NextGroup(w);
    assert ks[kt..kt + 8] == [v[0], v[1], v[2], v[3], v[4], v[5], v[6], v[7]];
  }

  lemma SixDone(ks: array<Word>, w: seq<Word>)
    requires |w| == 8 && ks.Length == 54
    requires ks[48] == Joined(w[1], w[2]) && ks[49] == Joined(w[2], w[3]) && ks[50] == Joined(w[3], w[4])
    requires ks[51] == Joined(w[4], w[5]) && ks[52] == Joined(w[5], w[6]) && ks[53] == Joined(w[6], w[7])
    ensures ks[48..54] == NextGroup(w)[..6]
  {
    hide Joined, NextGroup;
    NextGroupWords(w);
    var v := NextGroup(w);
    assert ks[48..54] == [v[0], v[1], v[2], v[3], v[4], v[5]];
  }

  /** One pass of the loop: the group at `kf` produces the next one at `kt`, of which only six words
      fit at the end of the schedule. */
  method FillGroup(ks: array<Word>, kf: nat, kt: nat)
    requires ks.Length == 54 && kf + 8 == kt && (kt <= 40 || kt == 48)
    modifies ks
    ensures forall m | 0 <= m < kt :: ks[m] == old(ks[m])
    ensures var v := NextGroup(old(ks[kf..kt]));
            if kt < 48 then ks[kt..kt + 8] == v else ks[kt..54] == v[..6]
  {
    ghost var w := ks[kf..kt];
    SliceWords(ks, kf, w);
    hide Joined, Shifted, NextGroup, HoldsAt;
    var r0, r1, r2 := FillThree(ks, kf, kt, w);
    SliceWords(ks, kf, w);
    r0, r1 := FillThreeMore(ks, kf, kt, r0, r1, w);
    if kt < 48 {
      FillTwo(ks, kt, r0, r1, r2, w);
      GroupDone(ks, kt, w);
    } else {
      SixDone(ks, w);
    }
  }

  method SetEncryptKey(key: array<Byte>, ks: array<Word>)
    requires key.Length == 16 && ks.Length == 54
    modifies ks
    ensures forall n | 0 <= n < 54 :: ks[n] == SubKey(ValueOf(KeyWords(old(key[..]))), n)
  {
    hide Joined, NextGroup;
    ghost var w := KeyWords(key[..]);
    var n := 0;
    while n < 8
      invariant 0 <= n <= 8
      invariant key[..] == old(key[..])
      invariant forall m | 0 <= m < n :: ks[m] == w[m]
    {
      ks[n] := BigEndian16(key[2 * n], key[2 * n + 1]);
      n := n + 1;
    }
    assert ks[0..8] == Group(w, 0);
    var kf, kt, i := 0, 8, 0;
    while i < 6
      invariant 0 <= i <= 5 && kf == 8 * i && kt == kf + 8
      invariant forall g | 0 <= g <= i :: ks[8 * g..8 * g + 8] == Group(w, g)
    {
      label Pass:
      FillGroup(ks, kf, kt);
      forall g | 0 <= g <= i
        ensures ks[8 * g..8 * g + 8] == Group(w, g)
      {
        assert ks[8 * g..8 * g + 8] == old@Pass(ks[8 * g..8 * g + 8]);
      }
      assert Group(w, i + 1) == NextGroup(Group(w, i));
      if i >= 5 {
        break;
      }
      kt := kt + 8;
      kf := kf + 8;
      i := i + 1;
    }
    forall m | 0 <= m < 54
      ensures ks[m] == SubKey(ValueOf(w), m)
    {
      SubKeyIsGroupWord(w, m);
      var g, j := m / 8, m % 8;
      assert m == 8 * g + j;
      if g < 6 {
        assert ks[m] == ks[8 * g..8 * g + 8][j];
      } else {
        assert ks[m] == ks[48..54][j];
      }
    }
  }

  // ----- The decryption schedule

  /** Row `r` before the inner subkeys of the first and last row are put back in order. */
  ghost predicate RawRow(ek: Schedule, dk: Schedule, r: nat)
    requires r <= 8
  {
    var p, q := 48 - 6 * r, 6 * r;
    && IsInverse(ek[p], dk[q])
    && dk[q + 1] == Neg(ek[p + 2])
    && dk[q + 2] == Neg(ek[p + 1])
    && IsInverse(ek[p + 3], dk[q + 3])
    && (r < 8 ==> dk[q + 4] == ek[p - 2] && dk[q + 5] == ek[p - 1])
  }

  lemma RawRowFrame(ek: Schedule, d1: Schedule, d2: Schedule, r: nat, n: nat)
    requires r <= 8 && 6 * r + (if r < 8 then 6 else 4) <= n <= 54
    requires d1[..n] == d2[..n] && RawRow(ek, d1, r)
    ensures RawRow(ek, d2, r)
  {
    forall i | 0 <= i < n
      ensures d1[i] == d2[i]
    {
      assert d1[..n][i] == d2[..n][i];
    }
  }

  /** One pass of the loop: row `r` of the decryption schedule. */
  method FillRow(ek: array<Word>, dk: array<Word>, fp: nat, tp: nat, r: nat)
    requires ek.Length == 54 && dk.Length == 54 && ek != dk
    requires r <= 8 && tp == 6 * r && fp == 48 - 6 * r
    modifies dk
    ensures RawRow(ek[..], dk[..], r)
    ensures dk[..tp] == old(dk[..tp]) && dk[52..] == old(dk[52..])
  {
    hide IsInverse, Neg;
    dk[tp] := Inverse(ek[fp]);
    dk[tp + 1] := Neg(ek[fp + 2]);
    dk[tp + 2] := Neg(ek[fp + 1]);
    dk[tp + 3] := Inverse(ek[fp + 3]);
    if r == 8 {
      return;
    }
    dk[tp + 4] := ek[fp - 2];
    dk[tp + 5] := ek[fp - 1];
  }

  lemma RowsInOrder(ek: Schedule, raw: Schedule, dk: Schedule, r: nat)
    requires r <= 8 && RawRow(ek, raw, r)
    requires dk == raw[1 := raw[2]][2 := raw[1]][49 := raw[50]][50 := raw[49]]
    ensures DecryptRow(ek, dk, r)
  {
    hide IsInverse, Neg;
  }

  method SetDecryptKey(ek: array<Word>, dk: array<Word>)
    requires ek.Length == 54 && dk.Length == 54 && ek != dk
    modifies dk
    ensures IsDecryptSchedule(ek[..], dk[..])
    ensures dk[52..] == old(dk[52..])
  {
    hide IsInverse, Neg, RawRow;
    var r := 0;
    while r < 9
      invariant 0 <= r <= 9
      invariant forall i: nat | i < r :: RawRow(ek[..], dk[..], i)
      invariant dk[52..] == old(dk[52..])
    {
      ghost var before := dk[..];
      FillRow(ek, dk, 48 - 6 * r, 6 * r, r);
      assert before[..6 * r] == dk[..][..6 * r];
      forall i: nat | i < r
        ensures RawRow(ek[..], dk[..], i)
      {
        RawRowFrame(ek[..], before, dk[..], i, 6 * r);
      }
      r := r + 1;
    }
    ghost var raw := dk[..];
    var t := dk[1];
    dk[1] := dk[2];
    dk[2] := t;
    t := dk[49];
    dk[49] := dk[50];
    dk[50] := t;
    forall i: nat | i <= 8
      ensures DecryptRow(ek[..], dk[..], i)
    {
      RowsInOrder(ek[..], raw, dk[..], i);
    }
  }
}
