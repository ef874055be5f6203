/** The multiplicative group of IDEA: 16-bit words multiplied modulo 65537,
    where the word 0 stands for 65536. */
module IdeaGroup {
  import opened Bits

  const P: int := 0x1_0001

  /** The residue a word stands for. */
  function Unit(a: Word): (u: int)
    ensures 1 <= u < P
  {
    if a == 0 then 0x1_0000 else a
  }

  /** IDEA multiplication. */
  function Mul(a: Word, b: Word): (r: Word) {
    Unit(a) * Unit(b) % P % 0x1_0000
  }

  ghost predicate IsInverse(a: Word, i: Word) {
    Unit(a) * Unit(i) % P == 1
  }

  // ----- 65537 is prime, so no two units multiply to zero

  /** No number strictly between 1 and 65537 divides 65537. */
  lemma PrimeModulus(d: int)
    requires 2 <= d <= 65536
    ensures 65537 % d != 0
  {
  }

  lemma Descend(a: int, b: int, q: int, r: int)
    requires P == a * q + r
    ensures r * b == P * b - q * (a * b)
  {
    assert (a * q) * b == q * (a * b);
    assert (P - a * q) * b == P * b - (a * q) * b;
  }

  /** Euclid's lemma, by descent on the first factor: the remainder of P by `a` is a smaller one. */
  lemma {:induction false} NoZeroDivisors(a: int, b: int)
    requires 0 < a < P && a * b % P == 0
    ensures b % P == 0
    decreases a
  {
    if a == 1 {
    } else {
      PrimeModulus(a);
      var q, r := P / a, P % a;
      assert r * b % P == 0 by {
        var t := a * b / P;
        assert a * b == P * t;
        assert r * b == P * b - q * (a * b) by { Descend(a, b, q, r); }
        assert q * (P * t) == P * (q * t);
        DivModUnique(r * b, P, b - q * t, 0);
      }
      NoZeroDivisors(r, b);
    }
  }

  /** A product of units is a unit, so the word `Mul` returns still stands for the exact product. */
  lemma MulUnit(a: Word, b: Word)
    ensures Unit(Mul(a, b)) == Unit(a) * Unit(b) % P
  {
    if Unit(a) * Unit(b) % P == 0 {
      NoZeroDivisors(Unit(a), Unit(b));
    }
  }

  lemma Parts'(a: int)
    ensures a == P * (a / P) + a % P && 0 <= a % P < P
  {
  }

  lemma ModMulLeft(a: int, b: int)
    ensures (a % P) * b % P == a * b % P
  {
    var q := a / P;
    var r := a % P;
    assert a == P * q + r;
    assert a * b == P * (q * b) + r * b;
    Parts'(r * b);
    DivModUnique(a * b, P, q * b + r * b / P, r * b % P);
  }

  lemma ModMulRight(a: int, b: int)
    ensures a * (b % P) % P == a * b % P
  {
    ModMulLeft(b, a);
    assert (b % P) * a == a * (b % P) && b * a == a * b;
  }

  lemma ProductAssoc(x: int, y: int, z: int)
    ensures (x * y) * z == x * (y * z)
  {
  }

  lemma MulAssoc(a: Word, b: Word, c: Word)
    ensures Mul(Mul(a, b), c) == Mul(a, Mul(b, c))
  {
    var x, y, z := Unit(a), Unit(b), Unit(c);
    calc {
      Unit(Mul(a, b)) * z % P;
      { MulUnit(a, b); }
      (x * y % P) * z % P;
      { ModMulLeft(x * y, z); ProductAssoc(x, y, z); }
      x * (y * z) % P;
      { ModMulRight(x, y * z); }
      x * (y * z % P) % P;
      { MulUnit(b, c); }
      x * Unit(Mul(b, c)) % P;
    }
  }

  lemma MulOne(a: Word)
    ensures Mul(a, 1) == a && Mul(1, a) == a
  {
  }

  /** Multiplying by an inverse undoes a multiplication. */
  lemma MulUndo(a: Word, k: Word, i: Word)
    requires IsInverse(k, i)
    ensures Mul(Mul(a, k), i) == a
  {
    assert Mul(k, i) == 1;
    MulAssoc(a, k, i);
    MulOne(a);
  }

  lemma InverseSymmetric(a: Word, i: Word)
    requires IsInverse(a, i)
    ensures IsInverse(i, a)
  {
    assert Unit(a) * Unit(i) == Unit(i) * Unit(a);
  }

  /** A word has at most one inverse. */
  lemma InverseUnique(a: Word, i: Word, j: Word)
    requires IsInverse(a, i) && IsInverse(a, j)
    ensures i == j
  {
    InverseSymmetric(a, i);
    assert Mul(i, a) == 1;
    MulUndo(i, a, j);
    MulOne(j);
  }
}
