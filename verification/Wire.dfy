/** Numbers on the wire: most significant byte first. */
module Wire {
  import opened Bits

  function Pow256(n: nat): (p: nat)
    ensures p > 0
  {
    if n == 0 then 1 else 256 * Pow256(n - 1)
  }

  /** The low n bytes of a number. */
  function Big(v: nat, n: nat): (s: seq<Byte>)
    ensures |s| == n
  {
    if n == 0 then [] else Big(v / 256, n - 1) + [v % 256]
  }

  function Value(s: seq<Byte>): nat {
    if s == [] then 0 else 256 * Value(s[..|s| - 1]) + s[|s| - 1]
  }

  lemma LowDigits(v: nat, p: nat)
    requires 0 < p
    ensures 256 * (v / 256 % p) + v % 256 == v % (256 * p)
  {
    var q, r, d := v / 256 / p, v / 256 % p, v % 256;
    assert v / 256 == p * q + r;
    assert v == 256 * (p * q + r) + d;
    assert 256 * (p * q) == (256 * p) * q;
    assert 256 * r <= 256 * (p - 1);
    DivModUnique(v, 256 * p, q, 256 * r + d);
  }

  lemma {:induction false} ValueOfBig(v: nat, n: nat)
    ensures Value(Big(v, n)) == v % Pow256(n)
  {
    if n > 0 {
      ValueOfBig(v / 256, n - 1);
      assert Big(v, n)[..n - 1] == Big(v / 256, n - 1);
      LowDigits(v, Pow256(n - 1));
    }
  }

  lemma Small(v: nat, m: nat)
    requires v < m
    ensures v % m == v
  {
  }

  lemma BigValue(v: nat, n: nat)
    requires v < Pow256(n)
    ensures Value(Big(v, n)) == v
  {
    ValueOfBig(v, n);
    Small(v, Pow256(n));
  }

  lemma BigInjective(a: nat, b: nat, n: nat)
    requires a < Pow256(n) && b < Pow256(n) && Big(a, n) == Big(b, n)
    ensures a == b
  {
    BigValue(a, n);
    BigValue(b, n);
  }

  lemma Pow256Values()
    ensures Pow256(2) == 0x1_0000 && Pow256(4) == 0x1_0000_0000 && Pow256(8) == 0x1_0000_0000_0000_0000
  {
    assert Pow256(2) == 256 * Pow256(1);
    assert Pow256(4) == 256 * (256 * Pow256(2));
    assert Pow256(6) == 256 * (256 * Pow256(4));
    assert Pow256(8) == 256 * (256 * Pow256(6));
  }

  lemma DivDiv(v: nat, p: nat)
    requires 0 < p
    ensures v / 256 / p == v / (256 * p)
  {
    var q, r, d := v / 256 / p, v / 256 % p, v % 256;
    assert v / 256 == p * q + r;
    assert v == 256 * (p * q + r) + d;
    assert 256 * (p * q) == (256 * p) * q;
    assert 256 * r <= 256 * (p - 1);
    DivModUnique(v, 256 * p, q, 256 * r + d);
  }

  /** Byte i is the number shifted right past the bytes after it. */
  lemma {:induction false} BigAt(v: nat, n: nat, i: nat)
    requires i < n
    ensures Big(v, n)[i] == v / Pow256(n - 1 - i) % 256
  {
    if i < n - 1 {
      BigAt(v / 256, n - 1, i);
      DivDiv(v, Pow256(n - 2 - i));
    }
  }

  lemma Value2(s: seq<Byte>)
    requires |s| == 2
    ensures Value(s) == s[0] as int * 256 + s[1] as int
  {
    assert s[..1][..0] == [];
    assert Value(s[..1]) == 256 * Value(s[..1][..0]) + s[0];
  }

  lemma Value4(s: seq<Byte>)
    requires |s| == 4
    ensures Value(s) == s[0] as int * 0x100_0000 + s[1] as int * 0x1_0000 + s[2] as int * 0x100 + s[3] as int
  {
    assert s[..3][..2] == s[..2];
    assert Value(s[..3]) == 256 * Value(s[..3][..2]) + s[2];
    Value2(s[..2]);
  }
}
