/** Bitwise operations of C's unsigned integers, written over natural numbers.

    A shift is a multiplication or a division by a power of two and a mask of the low
    `k` bits is a remainder modulo `Pow2(k)`; only exclusive or and inclusive or need
    definitions of their own. */
module Bits {

  type Byte = x: int | 0 <= x < 0x100
  type Word = x: int | 0 <= x < 0x1_0000
  type Word32 = x: int | 0 <= x < 0x1_0000_0000

  function Pow2(n: nat): (p: nat)
    ensures p > 0
  {
    if n == 0 then 1 else 2 * Pow2(n - 1)
  }

  lemma TwiceProduct(a: nat, b: nat)
    ensures a * (2 * b) == 2 * (a * b)
  {
  }

  lemma {:induction false} Pow2Add(m: nat, n: nat)
    ensures Pow2(m + n) == Pow2(m) * Pow2(n)
  {
    if n > 0 {
      Pow2Add(m, n - 1);
      TwiceProduct(Pow2(m), Pow2(n - 1));
    }
  }

  lemma Pow2Values()
    ensures Pow2(8) == 0x100 && Pow2(16) == 0x1_0000
    ensures Pow2(24) == 0x100_0000 && Pow2(32) == 0x1_0000_0000
    ensures Pow2(64) == 0x1_0000_0000_0000_0000
  {
    assert Pow2(4) == 16;
    Pow2Add(4, 4);
    Pow2Add(8, 8);
    Pow2Add(16, 8);
    Pow2Add(16, 16);
    Pow2Add(32, 32);
  }

  function BitXor(i: nat, j: nat): (r: nat)
    ensures r < 2
  {
    if i == j then 0 else 1
  }

  function Xor(a: nat, b: nat): (r: nat)
    decreases a + b
  {
    if a == 0 && b == 0 then 0
    else 2 * Xor(a / 2, b / 2) + BitXor(a % 2, b % 2)
  }

  function Or(a: nat, b: nat): (r: nat)
    decreases a + b
  {
    if a == 0 && b == 0 then 0
    else 2 * Or(a / 2, b / 2) + (if a % 2 == 1 || b % 2 == 1 then 1 else 0)
  }

  lemma {:induction false} XorComm(a: nat, b: nat)
    ensures Xor(a, b) == Xor(b, a)
    decreases a + b
  {
    if a != 0 || b != 0 {
      XorComm(a / 2, b / 2);
    }
  }

  /** One bit at a time. */
  lemma XorMake(x: nat, y: nat, i: nat, j: nat)
    requires i < 2 && j < 2
    ensures Xor(2 * x + i, 2 * y + j) == 2 * Xor(x, y) + BitXor(i, j)
  {
    assert (2 * x + i) / 2 == x && (2 * y + j) / 2 == y;
  }

  lemma XorAssocStep(x: nat, y: nat, z: nat, i: nat, j: nat, k: nat)
    requires i < 2 && j < 2 && k < 2
    requires Xor(Xor(x, y), z) == Xor(x, Xor(y, z))
    ensures Xor(Xor(2 * x + i, 2 * y + j), 2 * z + k) == Xor(2 * x + i, Xor(2 * y + j, 2 * z + k))
  {
    calc {
      Xor(Xor(2 * x + i, 2 * y + j), 2 * z + k);
      { XorMake(x, y, i, j); }
      Xor(2 * Xor(x, y) + BitXor(i, j), 2 * z + k);
      { XorMake(Xor(x, y), z, BitXor(i, j), k); }
      2 * Xor(Xor(x, y), z) + BitXor(BitXor(i, j), k);
      2 * Xor(x, Xor(y, z)) + BitXor(i, BitXor(j, k));
      { XorMake(x, Xor(y, z), i, BitXor(j, k)); }
      Xor(2 * x + i, 2 * Xor(y, z) + BitXor(j, k));
      { XorMake(y, z, j, k); }
      Xor(2 * x + i, Xor(2 * y + j, 2 * z + k));
    }
  }

  lemma {:induction false} XorAssoc(a: nat, b: nat, c: nat)
    ensures Xor(Xor(a, b), c) == Xor(a, Xor(b, c))
    decreases a + b + c
  {
    if a == 0 && b == 0 && c == 0 {
    } else {
      hide Xor;
      XorAssoc(a / 2, b / 2, c / 2);
      XorAssocStep(a / 2, b / 2, c / 2, a % 2, b % 2, c % 2);
    }
  }

  lemma {:induction false} XorZero(a: nat)
    ensures Xor(a, 0) == a && Xor(0, a) == a
  {
    if a != 0 {
      XorZero(a / 2);
    }
  }

  lemma {:induction false} XorSelf(a: nat)
    ensures Xor(a, a) == 0
  {
    if a != 0 {
      XorSelf(a / 2);
    }
  }

  /** Applying the same mask twice restores the value. */
  lemma XorTwice(a: nat, b: nat)
    ensures Xor(Xor(a, b), b) == a
  {
    XorAssoc(a, b, b);
    XorSelf(b);
    XorZero(a);
  }

  /** A mask common to both operands drops out. */
  lemma XorCommonMask(a: nat, b: nat, t: nat)
    ensures Xor(Xor(a, t), Xor(b, t)) == Xor(a, b)
  {
    XorComm(b, t);
    XorAssoc(Xor(a, t), t, b);
    XorTwice(a, t);
  }

  lemma Doubled(p: nat, u: nat, x: nat, i: nat)
    ensures (2 * p) * u + (2 * x + i) == 2 * (p * u + x) + i
  {
  }

  /** Exclusive or works on the parts above and below bit `k` independently. */
  lemma {:induction false} XorJoin(u: nat, r: nat, v: nat, t: nat, k: nat)
    requires r < Pow2(k) && t < Pow2(k)
    ensures Xor(r, t) < Pow2(k)
    ensures Xor(Pow2(k) * u + r, Pow2(k) * v + t) == Pow2(k) * Xor(u, v) + Xor(r, t)
  {
    hide Xor;
    if k == 0 {
      XorZero(0);
    } else {
      var p := Pow2(k - 1);
      var x, i, y, j := r / 2, r % 2, t / 2, t % 2;
      XorJoin(u, x, v, y, k - 1);
      XorMake(x, y, i, j);
      Doubled(p, u, x, i);
      Doubled(p, v, y, j);
      XorMake(p * u + x, p * v + y, i, j);
      Doubled(p, Xor(u, v), Xor(x, y), BitXor(i, j));
    }
  }

  lemma Parts(a: nat, m: nat)
    requires m > 0
    ensures 0 <= a / m && 0 <= a % m < m
    ensures a == m * (a / m) + a % m
  {
  }

  /** `a >> k` */
  function Shr(a: nat, k: nat): (r: nat)
    ensures r == a / Pow2(k)
  {
    Parts(a, Pow2(k));
    a / Pow2(k)
  }

  /** The low `k` bits of `a`. */
  function Low(a: nat, k: nat): (r: nat)
    ensures r == a % Pow2(k) && r < Pow2(k)
  {
    Parts(a, Pow2(k));
    a % Pow2(k)
  }

  lemma MulMagnitude(m: int, d: int)
    requires m > 0
    ensures d >= 1 ==> m * d >= m
    ensures d <= -1 ==> m * d <= -m
  {
  }

  lemma DivModUnique(a: int, m: int, q: int, r: int)
    requires m > 0 && 0 <= r < m && a == m * q + r
    ensures a / m == q && a % m == r
  {
    var d := a / m - q;
    assert a == m * (a / m) + a % m;
    assert m * d == r - a % m by {
      assert m * d == m * (a / m) - m * q;
    }
    MulMagnitude(m, d);
  }

  lemma XorSplit(a: nat, b: nat, k: nat)
    ensures Shr(Xor(a, b), k) == Xor(Shr(a, k), Shr(b, k))
    ensures Low(Xor(a, b), k) == Xor(Low(a, k), Low(b, k))
  {
    hide Xor, Pow2;
    var p := Pow2(k);
    Parts(a, p);
    Parts(b, p);
    XorJoin(Shr(a, k), Low(a, k), Shr(b, k), Low(b, k), k);
    DivModUnique(Xor(a, b), p, Xor(Shr(a, k), Shr(b, k)), Xor(Low(a, k), Low(b, k)));
  }

  lemma XorBound(a: nat, b: nat, k: nat)
    requires a < Pow2(k) && b < Pow2(k)
    ensures Xor(a, b) < Pow2(k)
  {
    XorJoin(0, a, 0, b, k);
  }

  lemma {:induction false} OrComm(a: nat, b: nat)
    ensures Or(a, b) == Or(b, a)
    decreases a + b
  {
    if a != 0 || b != 0 {
      OrComm(a / 2, b / 2);
    }
  }

  lemma {:induction false} OrZero(a: nat)
    ensures Or(a, 0) == a
  {
    if a != 0 {
      OrZero(a / 2);
    }
  }

  lemma OrMake(x: nat, y: nat, j: nat)
    requires j < 2
    ensures Or(2 * x, 2 * y + j) == 2 * Or(x, y) + j
  {
    assert (2 * x) / 2 == x && (2 * y + j) / 2 == y;
  }

  /** Or-ing a field into bits that are still zero places it there. */
  lemma {:induction false} OrDisjoint(a: nat, b: nat, k: nat)
    requires b < Pow2(k)
    ensures Or(a * Pow2(k), b) == a * Pow2(k) + b
    ensures Or(b, a * Pow2(k)) == a * Pow2(k) + b
    decreases k
  {
    if k == 0 {
      OrZero(a);
    } else {
      var p := Pow2(k - 1);
      Doubled(p, a, 0, 0);
      assert a * Pow2(k) == 2 * (a * p);
      OrDisjoint(a, b / 2, k - 1);
      OrMake(a * p, b / 2, b % 2);
    }
    OrComm(a * Pow2(k), b);
  }

  lemma MulMono(a: int, b: int, c: int, d: int)
    requires 0 <= a <= b && 0 <= c <= d
    ensures 0 <= a * c <= b * d
  {
    assert a * c <= b * c;
  }

  function ByteXor(a: Byte, b: Byte): (r: Byte) {
    Pow2Values();
    XorBound(a, b, 8);
    Xor(a, b)
  }

  lemma ByteXorTwice(a: Byte, b: Byte)
    ensures ByteXor(ByteXor(a, b), b) == a
  {
    XorTwice(a, b);
  }
}
