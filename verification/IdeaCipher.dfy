/** IDEA on exact 16-bit words: rounds, decryption schedules, and why one undoes the other. */
module IdeaCipher {
  import opened Bits
  import opened IdeaGroup

  datatype State = State(x1: Word, x2: Word, x3: Word, x4: Word)

  /** A key schedule: nine rows of six subkeys, stored row after row. */
  type Schedule = k: seq<Word> | |k| == 54 witness seq(54, _ => 0)

  function Add(a: Word, b: Word): (r: Word) {
    (a + b) % 0x1_0000
  }

  function Neg(a: Word): (r: Word) {
    (0x1_0000 - a) % 0x1_0000
  }

  function WordXor(a: Word, b: Word): (r: Word) {
    Pow2Values();
    XorBound(a, b, 16);
    Xor(a, b)
  }

  /** The four subkeys `k[p..p+4]` applied to the four words. */
  function KeyLayer(s: State, k: Schedule, p: nat): State
    requires p + 3 < |k|
  {
    State(Mul(s.x1, k[p]), Add(s.x2, k[p + 1]), Add(s.x3, k[p + 2]), Mul(s.x4, k[p + 3]))
  }

  /** The multiply-add box: a mask computed from two sums is added to both halves of each sum. */
  function Mix(s: State, e: Word, f: Word): State {
    var t0 := Mul(WordXor(s.x1, s.x3), e);
    var t1 := Mul(Add(t0, WordXor(s.x2, s.x4)), f);
    var t2 := Add(t0, t1);
    State(WordXor(s.x1, t1), WordXor(s.x2, t2), WordXor(s.x3, t1), WordXor(s.x4, t2))
  }

  function Swap(s: State): State {
    State(s.x1, s.x3, s.x2, s.x4)
  }

  function Round(s: State, k: Schedule, r: nat): State
    requires r < 8
  {
    Swap(Mix(KeyLayer(s, k, 6 * r), k[6 * r + 4], k[6 * r + 5]))
  }

  /** The first `n` rounds. */
  function Rounds(s: State, k: Schedule, n: nat): State
    requires n <= 8
  {
    if n == 0 then s else Round(Rounds(s, k, n - 1), k, n - 1)
  }

  /** Eight rounds and the output half round. */
  function Crypt(s: State, k: Schedule): State {
    KeyLayer(Swap(Rounds(s, k, 8)), k, 48)
  }

  // ----- Decryption schedules

  /** Row `r` of `dk` undoes row `8 - r` of `ek`; the inner subkeys trade places except in the
      first and the last row, and the multiply-add subkeys come from the row before. */
  ghost predicate DecryptRow(ek: Schedule, dk: Schedule, r: nat)
    requires r <= 8
  {
    var p, q := 48 - 6 * r, 6 * r;
    && IsInverse(ek[p], dk[q])
    && IsInverse(ek[p + 3], dk[q + 3])
    && dk[q + 1] == Neg(ek[if r == 0 || r == 8 then p + 1 else p + 2])
    && dk[q + 2] == Neg(ek[if r == 0 || r == 8 then p + 2 else p + 1])
    && (r < 8 ==> dk[q + 4] == ek[p - 2] && dk[q + 5] == ek[p - 1])
  }

  ghost predicate IsDecryptSchedule(ek: Schedule, dk: Schedule) {
    forall r: nat | r <= 8 :: DecryptRow(ek, dk, r)
  }

  /** Only one decryption schedule exists (the last two entries are not subkeys). */
  lemma DecryptScheduleUnique(ek: Schedule, d1: Schedule, d2: Schedule)
    requires IsDecryptSchedule(ek, d1) && IsDecryptSchedule(ek, d2)
    ensures d1[..52] == d2[..52]
  {
    forall i | 0 <= i < 52
      ensures d1[i] == d2[i]
    {
      var r := i / 6;
      assert DecryptRow(ek, d1, r) && DecryptRow(ek, d2, r);
      InverseUnique(ek[48 - 6 * r], d1[6 * r], d2[6 * r]);
      InverseUnique(ek[48 - 6 * r + 3], d1[6 * r + 3], d2[6 * r + 3]);
    }
  }

  lemma NegNeg(a: Word)
    ensures Neg(Neg(a)) == a
  {
  }

  /** The relation is symmetric: the decryption schedule's own decryption schedule is the first one. */
  lemma DecryptScheduleSymmetric(ek: Schedule, dk: Schedule)
    requires IsDecryptSchedule(ek, dk)
    ensures IsDecryptSchedule(dk, ek)
  {
    hide IsInverse, Neg;
    forall r: nat | r <= 8
      ensures DecryptRow(dk, ek, r)
    {
      assert DecryptRow(ek, dk, 8 - r);
      NegNeg(ek[6 * r + 1]);
      NegNeg(ek[6 * r + 2]);
      InverseSymmetric(ek[6 * r], dk[48 - 6 * r]);
      InverseSymmetric(ek[6 * r + 3], dk[48 - 6 * r + 3]);
      if r < 8 {
        assert DecryptRow(ek, dk, 7 - r);
      }
    }
  }

  // ----- Inversion

  lemma AddUndo(a: Word, k: Word)
    ensures Add(Add(a, k), Neg(k)) == a
  {
  }

  /** The masks of `Mix` depend only on the two sums, which `Mix` leaves alone. */
  lemma MixInvolution(s: State, e: Word, f: Word)
    ensures Mix(Mix(s, e, f), e, f) == s
  {
    hide Xor, Mul;
    var t0 := Mul(WordXor(s.x1, s.x3), e);
    var t1 := Mul(Add(t0, WordXor(s.x2, s.x4)), f);
    var t2 := Add(t0, t1);
    XorCommonMask(s.x1, s.x3, t1);
    XorCommonMask(s.x2, s.x4, t2);
    XorTwice(s.x1, t1);
    XorTwice(s.x2, t2);
    XorTwice(s.x3, t1);
    XorTwice(s.x4, t2);
  }

  /** Undoing a key layer, in the first and last rows ... */
  lemma OuterLayerUndo(s: State, ek: Schedule, dk: Schedule, r: nat)
    requires r == 0 || r == 8
    requires DecryptRow(ek, dk, r)
    ensures KeyLayer(KeyLayer(s, ek, 48 - 6 * r), dk, 6 * r) == s
  {
    hide Mul;
    var p, q := 48 - 6 * r, 6 * r;
    MulUndo(s.x1, ek[p], dk[q]);
    MulUndo(s.x4, ek[p + 3], dk[q + 3]);
    AddUndo(s.x2, ek[p + 1]);
    AddUndo(s.x3, ek[p + 2]);
  }

  /** ... and in the others, where the inner words arrive exchanged. */
  lemma InnerLayerUndo(s: State, ek: Schedule, dk: Schedule, r: nat)
    requires 0 < r < 8
    requires DecryptRow(ek, dk, r)
    ensures KeyLayer(Swap(KeyLayer(s, ek, 48 - 6 * r)), dk, 6 * r) == Swap(s)
  {
    hide Mul;
    var p, q := 48 - 6 * r, 6 * r;
    MulUndo(s.x1, ek[p], dk[q]);
    MulUndo(s.x4, ek[p + 3], dk[q + 3]);
    AddUndo(s.x2, ek[p + 1]);
    AddUndo(s.x3, ek[p + 2]);
  }

  /** After `n` decryption rounds the state is what encryption had after its key layer `8 - n`. */
  lemma {:induction false} Meet(s: State, ek: Schedule, dk: Schedule, n: nat)
    requires 1 <= n <= 8
    requires IsDecryptSchedule(ek, dk)
    ensures Rounds(Crypt(s, ek), dk, n) == Swap(KeyLayer(Rounds(s, ek, 8 - n), ek, 48 - 6 * n))
  {
    hide Mul, Mix, KeyLayer;
    var m := n - 1;
    var row := KeyLayer(Rounds(s, ek, 8 - n), ek, 48 - 6 * n);
    var e, f := ek[48 - 6 * n + 4], ek[48 - 6 * n + 5];
    assert Rounds(s, ek, 9 - n) == Swap(Mix(row, e, f));
    assert DecryptRow(ek, dk, m);
    assert dk[6 * m + 4] == e && dk[6 * m + 5] == f;
    if n == 1 {
      OuterLayerUndo(Swap(Rounds(s, ek, 8)), ek, dk, 0);
      assert Rounds(Crypt(s, ek), dk, 0) == Crypt(s, ek);
    } else {
      Meet(s, ek, dk, m);
      InnerLayerUndo(Rounds(s, ek, 9 - n), ek, dk, m);
    }
    MixInvolution(row, e, f);
  }

  /** Decryption undoes encryption, for every key schedule and every block. */
  lemma DecryptUndoesEncrypt(s: State, ek: Schedule, dk: Schedule)
    requires IsDecryptSchedule(ek, dk)
    ensures Crypt(Crypt(s, ek), dk) == s
  {
    Meet(s, ek, dk, 8);
    assert DecryptRow(ek, dk, 8);
    OuterLayerUndo(s, ek, dk, 8);
  }

  /** And encryption undoes decryption, so each is a bijection on blocks. */
  lemma EncryptUndoesDecrypt(s: State, ek: Schedule, dk: Schedule)
    requires IsDecryptSchedule(ek, dk)
    ensures Crypt(Crypt(s, dk), ek) == s
  {
    DecryptScheduleSymmetric(ek, dk);
    DecryptUndoesEncrypt(s, dk, ek);
  }
}
