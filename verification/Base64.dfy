/** The decoder of basic credentials: six bits at a time into an accumulator of 32 bits that is never emptied,
    so its upper bits overflow. */
module Base64 {
  import opened Bits
  import opened Common

  const ROOM: nat := 256
  const PAD: Byte := 61
  const UPPER: string := "ABCDEFGHIJKLMNOPQRSTUVWXYZ"
  const LOWER: string := "abcdefghijklmnopqrstuvwxyz"
  const DIGITS: string := "0123456789"
  const ALPHABET: string := UPPER + LOWER + DIGITS + "+/"

  type Sextet = x: int | 0 <= x < 64

  // ----- The alphabet

  function Symbol(v: Sextet): Byte {
    if v < 26 then 65 + v
    else if v < 52 then 97 + (v - 26)
    else if v < 62 then 48 + (v - 52)
    else if v == 62 then 43 else 47
  }

  function Index(c: Byte): Option<Sextet> {
    if 65 <= c < 91 then Some(c - 65)
    else if 97 <= c < 123 then Some(c - 97 + 26)
    else if 48 <= c < 58 then Some(c - 48 + 52)
    else if c == 43 then Some(62) else if c == 47 then Some(63) else None
  }

  lemma IndexOfSymbol(v: Sextet)
    ensures Index(Symbol(v)) == Some(v) && Symbol(v) != PAD
  {
  }

  // ----- Encoding, section 4 of RFC 4648

  function Encode(s: seq<Byte>): (t: seq<Byte>)
    ensures |t| == (|s| + 2) / 3 * 4
  {
    if |s| == 0 then []
    else if |s| == 1 then [Symbol(s[0] / 4), Symbol(s[0] % 4 * 16), PAD, PAD]
    else if |s| == 2 then
      [Symbol(s[0] / 4), Symbol(s[0] % 4 * 16 + s[1] / 16), Symbol(s[1] % 16 * 4), PAD]
    else
      [Symbol(s[0] / 4), Symbol(s[0] % 4 * 16 + s[1] / 16), Symbol(s[1] % 16 * 4 + s[2] / 64), Symbol(s[2] % 64)]
      + Encode(s[3..])
  }

  // ----- Decoding

  datatype State = State(buf: Word32, bits: nat, out: seq<Byte>)

  function Feed(d: State, v: Sextet): (r: State)
    requires d.bits < 8
    ensures r.bits < 8 && 8 * |r.out| + r.bits == 8 * |d.out| + d.bits + 6
  {
    var buf := (d.buf * 64 + v) % 0x1_0000_0000;
    var bits := d.bits + 6;
    if bits >= 8 then State(buf, bits - 8, d.out + [buf / Pow2(bits - 8) % 256]) else State(buf, bits, d.out)
  }

  /** Stops at the first padding; anything outside the alphabet is an error. */
  function Decode(d: State, t: seq<Byte>): Option<seq<Byte>>
    requires d.bits < 8
    decreases |t|
  {
    if t == [] || t[0] == PAD then Some(d.out)
    else match Index(t[0])
         case None => None
         case Some(v) => Decode(Feed(d, v), t[1..])
  }

  /** What the accumulator held before matters to no byte. */
  lemma LowPart(n: nat, k: nat, c: nat)
    requires 0 < k && k * c == 0x1_0000_0000
    ensures n % 0x1_0000_0000 % k == n % k
  {
    var q, r := n / 0x1_0000_0000, n % 0x1_0000_0000;
    assert n == (k * c) * q + r;
    assert (k * c) * q == k * (c * q);
    assert r == k * (r / k) + r % k;
    assert k * (c * q) + k * (r / k) == k * (c * q + r / k);
    DivModUnique(n, k, c * q + r / k, r % k);
  }

  lemma Joined(x: nat, a: nat, v: Sextet, k: nat)
    requires k == 4 || k == 16 || k == 64
    requires x % k == a
    ensures (x * 64 + v) % (64 * k) == a * 64 + v
  {
    DivModUnique(x * 64 + v, 64 * k, x / k, a * 64 + v);
  }

  lemma Last(x: Word32, v: Sextet)
    ensures (x * 64 + v) % 0x1_0000_0000 % 64 == v
  {
    LowPart(x * 64 + v, 64, 0x400_0000);
  }

  lemma Digit(y: nat, p: nat)
    requires p == 1 || p == 4 || p == 16
    ensures y / p % 256 == y % (256 * p) / p
  {
    var q, r := y / (256 * p), y % (256 * p);
    assert y == 256 * p * q + r;
    DivModUnique(y, p, 256 * q + r / p, r % p);
    DivModUnique(256 * q + r / p, 256, q, r / p);
  }

  lemma Narrow(x: nat, k: nat)
    requires k == 4 || k == 16
    ensures x % 64 % k == x % k
  {
    var q, r, c := x / 64, x % 64, if k == 4 then 16 else 4;
    DivModUnique(x, k, c * q + r / k, r % k);
  }

  lemma Second(x: Word32, a: Sextet, b: Sextet)
    requires x % 64 == a
    ensures (x * 64 + b) % 0x1_0000_0000 / 16 % 256 == a * 4 + b / 16
  {
    LowPart(x * 64 + b, 4096, 0x10_0000);
    Joined(x, a, b, 64);
    Digit((x * 64 + b) % 0x1_0000_0000, 16);
  }

  lemma Third(x: Word32, b: Sextet, c: Sextet)
    requires x % 64 == b
    ensures (x * 64 + c) % 0x1_0000_0000 / 4 % 256 == b % 16 * 16 + c / 4
  {
    Narrow(x, 16);
    LowPart(x * 64 + c, 1024, 0x40_0000);
    Joined(x, b % 16, c, 16);
    Digit((x * 64 + c) % 0x1_0000_0000, 4);
  }

  lemma Fourth(x: Word32, c: Sextet, d: Sextet)
    requires x % 64 == c
    ensures (x * 64 + d) % 0x1_0000_0000 / 1 % 256 == c % 4 * 64 + d
  {
    Narrow(x, 4);
    LowPart(x * 64 + d, 256, 0x100_0000);
    Joined(x, c % 4, d, 4);
  }

  lemma Shifts()
    ensures Pow2(0) == 1 && Pow2(2) == 4 && Pow2(4) == 16
  {
    assert Pow2(1) == 2 && Pow2(3) == 8;
  }

  /** Two, three or four symbols from an empty position on. */
  lemma Group(d: State, a: Sextet, b: Sextet, c: Sextet, e: Sextet)
    requires d.bits == 0
    ensures
      var d2 := Feed(Feed(d, a), b);
      var d3 := Feed(d2, c);
      && d2.out == d.out + [a * 4 + b / 16]
      && d3.out == d2.out + [b % 16 * 16 + c / 4]
      && Feed(d3, e).out == d3.out + [c % 4 * 64 + e] && Feed(d3, e).bits == 0
  {
    hide Pow2;
    Shifts();
    var d1 := Feed(d, a);
    var d2 := Feed(d1, b);
    var d3 := Feed(d2, c);
    Last(d.buf, a);
    Second(d1.buf, a, b);
    Last(d1.buf, b);
    Third(d2.buf, b, c);
    Last(d2.buf, c);
    Fourth(d3.buf, c, e);
  }

  lemma OneSymbol(d: State, v: Sextet, rest: seq<Byte>)
    requires d.bits < 8
    ensures Decode(d, [Symbol(v)] + rest) == Decode(Feed(d, v), rest)
  {
    hide Feed, Symbol, Index;
    IndexOfSymbol(v);
    assert ([Symbol(v)] + rest)[1..] == rest;
  }

  /** The parts of three bytes that the six bits of a symbol straddle. */
  lemma Straddle(x: Byte, y: Byte, z: Byte)
    ensures
      var b, c := x % 4 * 16 + y / 16, y % 16 * 4 + z / 64;
      && x / 4 * 4 + b / 16 == x && b % 16 * 16 + c / 4 == y && c % 4 * 64 + z % 64 == z
  {
    DivModUnique(x % 4 * 16 + y / 16, 16, x % 4, y / 16);
    DivModUnique(y % 16 * 4 + z / 64, 4, y % 16, z / 64);
  }

  lemma AtPad(d: State, rest: seq<Byte>)
    requires d.bits < 8
    ensures Decode(d, [PAD] + rest) == Some(d.out)
  {
  }

  lemma Tail1(d: State, x: Byte)
    requires d.bits == 0
    ensures Decode(d, [Symbol(x / 4), Symbol(x % 4 * 16), PAD, PAD]) == Some(d.out + [x])
  {
    hide Feed, Symbol, Index, Decode;
    var a, b := x / 4, x % 4 * 16;
    OneSymbol(d, a, [Symbol(b), PAD, PAD]);
    OneSymbol(Feed(d, a), b, [PAD, PAD]);
    assert [Symbol(a)] + [Symbol(b), PAD, PAD] == [Symbol(a), Symbol(b), PAD, PAD];
    assert [Symbol(b)] + [PAD, PAD] == [Symbol(b), PAD, PAD];
    Group(d, a, b, 0, 0);
    Straddle(x, 0, 0);
    AtPad(Feed(Feed(d, a), b), [PAD]);
    assert [PAD] + [PAD] == [PAD, PAD];
  }

  lemma Tail2(d: State, x: Byte, y: Byte)
    requires d.bits == 0
    ensures Decode(d, [Symbol(x / 4), Symbol(x % 4 * 16 + y / 16), Symbol(y % 16 * 4), PAD]) == Some(d.out + [x, y])
  {
    hide Feed, Symbol, Index, Decode;
    var a, b, c := x / 4, x % 4 * 16 + y / 16, y % 16 * 4;
    OneSymbol(d, a, [Symbol(b), Symbol(c), PAD]);
    OneSymbol(Feed(d, a), b, [Symbol(c), PAD]);
    OneSymbol(Feed(Feed(d, a), b), c, [PAD]);
    assert [Symbol(a)] + [Symbol(b), Symbol(c), PAD] == [Symbol(a), Symbol(b), Symbol(c), PAD];
    assert [Symbol(b)] + [Symbol(c), PAD] == [Symbol(b), Symbol(c), PAD];
    assert [Symbol(c)] + [PAD] == [Symbol(c), PAD];
    Group(d, a, b, c, 0);
    Straddle(x, y, 0);
    AtPad(Feed(Feed(Feed(d, a), b), c), []);
    assert [PAD] + [] == [PAD];
    assert d.out + [x] + [y] == d.out + [x, y];
  }

  lemma Full(d: State, x: Byte, y: Byte, z: Byte, rest: seq<Byte>) returns (f: State)
    requires d.bits == 0
    ensures f.bits == 0 && f.out == d.out + [x, y, z]
    ensures Decode(d, [Symbol(x / 4), Symbol(x % 4 * 16 + y / 16), Symbol(y % 16 * 4 + z / 64), Symbol(z % 64)] + rest)
            == Decode(f, rest)
  {
    hide Feed, Symbol, Index, Decode;
    var a, b, c, e := x / 4, x % 4 * 16 + y / 16, y % 16 * 4 + z / 64, z % 64;
    var t := [Symbol(a), Symbol(b), Symbol(c), Symbol(e)] + rest;
    OneSymbol(d, a, [Symbol(b), Symbol(c), Symbol(e)] + rest);
    OneSymbol(Feed(d, a), b, [Symbol(c), Symbol(e)] + rest);
    OneSymbol(Feed(Feed(d, a), b), c, [Symbol(e)] + rest);
    OneSymbol(Feed(Feed(Feed(d, a), b), c), e, rest);
    assert t == [Symbol(a)] + ([Symbol(b), Symbol(c), Symbol(e)] + rest);
    assert [Symbol(b), Symbol(c), Symbol(e)] + rest == [Symbol(b)] + ([Symbol(c), Symbol(e)] + rest);
    assert [Symbol(c), Symbol(e)] + rest == [Symbol(c)] + ([Symbol(e)] + rest);
    Group(d, a, b, c, e);
    Straddle(x, y, z);
    f := Feed(Feed(Feed(Feed(d, a), b), c), e);
    assert d.out + [x] + [y] + [z] == d.out + [x, y, z];
  }

  /** Decoding undoes encoding for every string, whatever garbage the accumulator starts with. */
  lemma {:induction false} DecodeEncode(d: State, s: seq<Byte>)
    requires d.bits == 0
    ensures Decode(d, Encode(s)) == Some(d.out + s)
    decreases |s|
  {
    hide Feed, Symbol, Index;
    var t := Encode(s);
    if |s| == 0 {
      assert d.out + s == d.out;
    } else if |s| == 1 {
      assert s == [s[0]];
      Tail1(d, s[0]);
    } else if |s| == 2 {
      assert s == [s[0], s[1]];
      Tail2(d, s[0], s[1]);
    } else {
      var f := Full(d, s[0], s[1], s[2], Encode(s[3..]));
      assert t == [t[0], t[1], t[2], t[3]] + Encode(s[3..]);
      DecodeEncode(f, s[3..]);
      assert d.out + [s[0], s[1], s[2]] + s[3..] == d.out + s;
    }
  }

  // ----- The loop

  lemma SymbolOfIndex(c: Byte)
    requires Index(c).Some?
    ensures Symbol(Index(c).value) == c
  {
  }

  lemma FourParts(a: string, b: string, c: string, d: string, v: nat)
    requires |a| == 26 && |b| == 26 && |c| == 10 && |d| == 2 && v < 64
    ensures (a + b + c + d)[v]
            == if v < 26 then a[v] else if v < 52 then b[v - 26] else if v < 62 then c[v - 52] else d[v - 62]
  {
  }

  lemma UpperAt(v: nat)
    requires v < 26
    ensures UPPER[v] as int == 65 + v
  {
  }

  lemma LowerAt(v: nat)
    requires v < 26
    ensures LOWER[v] as int == 97 + v
  {
  }

  lemma DigitAt(v: nat)
    requires v < 10
    ensures DIGITS[v] as int == 48 + v
  {
  }

  lemma AlphabetAt(v: Sextet)
    ensures |ALPHABET| == 64 && ALPHABET[v] as int == Symbol(v)
  {
    FourParts(UPPER, LOWER, DIGITS, "+/", v);
    if v < 26 {
      UpperAt(v);
    } else if v < 52 {
      LowerAt(v - 26);
    } else if v < 62 {
      DigitAt(v - 52);
    }
  }

  /** The position of a character in the literal alphabet. */
  method StrChr(c: Byte) returns (p: Option<Sextet>)
    ensures p == Index(c)
  {
    var i := 0;
    while i < 64
      invariant 0 <= i <= 64
      invariant forall k: Sextet :: k < i ==> Symbol(k) != c
    {
      AlphabetAt(i);
      if ALPHABET[i] as int == c {
        IndexOfSymbol(i);
        return Some(i);
      }
      i := i + 1;
    }
    p := None;
    if Index(c).Some? {
      SymbolOfIndex(c);
    }
  }

  /** Texts longer than four thirds of the room are refused; the others never fill more than all but one of the
      256 bytes, which then holds the final zero. */
  method DecodeText(text: seq<Byte>, decoded: array<Byte>) returns (ok: bool, len: nat)
    requires decoded.Length == 256
    modifies decoded
    ensures ok == (0 < |text| <= 341 && Decode(State(0, 0, []), text).Some?)
    ensures ok ==> len < 256 && decoded[len] == 0
    ensures ok ==> decoded[..len] == Decode(State(0, 0, []), text).value
  {
    hide Index, Pow2;
    len := 0;
    if |text| == 0 || |text| > ROOM * 4 / 3 {
      return false, 0;
    }
    var buf: Word32 := 0;
    var bits := 0;
    var i := 0;
    ghost var all := Decode(State(0, 0, []), text);
    assert text[0..] == text;
    while i < |text| && text[i] != PAD
      invariant 0 <= i <= |text| && 0 <= bits < 8
      invariant 8 * len + bits == 6 * i
      invariant Decode(State(buf, bits, decoded[..len]), text[i..]) == all
    {
      var p := StrChr(text[i]);
      if p.None? {
        return false, 0;
      }
      assert text[i..][1..] == text[i + 1..];
      ghost var next := Feed(State(buf, bits, decoded[..len]), p.value);
      buf := (buf * 64 + p.value) % 0x1_0000_0000;
      bits := bits + 6;
      if bits >= 8 {
        bits := bits - 8;
        decoded[len] := buf / Pow2(bits) % 256;
        len := len + 1;
        assert decoded[..len] == decoded[..len - 1] + [decoded[len - 1]];
      }
      assert next == State(buf, bits, decoded[..len]);
      i := i + 1;
    }
    decoded[len] := 0;
    ok := true;
  }

  /** Credentials of up to 255 bytes come back exactly; longer ones are refused. */
  lemma CredentialsBack(s: seq<Byte>)
    ensures 0 < |Encode(s)| <= 341 <==> 0 < |s| <= 255
    ensures Decode(State(0, 0, []), Encode(s)) == Some(s)
  {
    hide Decode;
    DecodeEncode(State(0, 0, []), s);
    assert [] + s == s;
  }
}
