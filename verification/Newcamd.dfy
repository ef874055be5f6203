/** Newcamd frames: a padded and checksummed message in cipher block chaining under two-key Eurocrypt
    triple DES, the vector travelling in clear behind the last block. */
module Newcamd {
  import opened Bits
  import opened Chaining
  import opened NcDesBits
  import opened NcDes

  /** The two keys of a session. */
  datatype SessionKey = SessionKey(k1: Byte8, k2: Byte8)

  // ----- Triple DES

  function TripleEncrypt(f: RoundFunction, key: SessionKey, d: Byte8): Byte8 {
    Crypt(f, key.k1, Mode(false, true, false, false),
          Crypt(f, key.k2, Mode(false, false, true, false),
                Crypt(f, key.k1, Mode(true, false, false, false), d)))
  }

  function TripleDecrypt(f: RoundFunction, key: SessionKey, d: Byte8): Byte8 {
    Crypt(f, key.k1, Mode(false, true, true, false),
          Crypt(f, key.k2, Mode(false, false, false, false),
                Crypt(f, key.k1, Mode(true, false, true, false), d)))
  }

  lemma TripleInverse(f: RoundFunction, key: SessionKey, d: Byte8)
    ensures TripleDecrypt(f, key, TripleEncrypt(f, key, d)) == d
  {
    hide Crypt;
    var a := Crypt(f, key.k1, Mode(true, false, false, false), d);
    var b := Crypt(f, key.k2, Mode(false, false, true, false), a);
    CryptInverse(f, key.k1, Mode(false, true, false, false), b);
    CryptInverse(f, key.k2, Mode(false, false, true, false), a);
    CryptInverse(f, key.k1, Mode(true, false, false, false), d);
  }

  function XorBytes(a: Byte8, b: Byte8): (r: Byte8)
    ensures forall j | 0 <= j < 8 :: r[j] == ByteXor(a[j], b[j])
  {
    seq(8, j requires 0 <= j < 8 => ByteXor(a[j], b[j]))
  }

  lemma XorBytesTwice(a: Byte8, b: Byte8)
    ensures XorBytes(XorBytes(a, b), b) == a
  {
    hide ByteXor;
    var r := XorBytes(XorBytes(a, b), b);
    forall j | 0 <= j < 8
      ensures r[j] == a[j]
    {
      ByteXorTwice(a[j], b[j]);
    }
  }

  function Sealing(f: RoundFunction, key: SessionKey): Step<Byte8> {
    (iv, p) => TripleEncrypt(f, key, XorBytes(p, iv))
  }

  function Opening(f: RoundFunction, key: SessionKey): Step<Byte8> {
    (iv, c) => XorBytes(TripleDecrypt(f, key, c), iv)
  }

  lemma OpeningUndoesSealing(f: RoundFunction, key: SessionKey)
    ensures Undoes(Opening(f, key), Sealing(f, key))
  {
    hide TripleEncrypt, TripleDecrypt, XorBytes;
    forall iv, p
      ensures Opening(f, key)(iv, Sealing(f, key)(iv, p)) == p
    {
      TripleInverse(f, key, XorBytes(p, iv));
      XorBytesTwice(p, iv);
    }
  }

  // ----- Frames

  /** How many bytes of padding a message of `len` bytes gets. */
  function Padding(len: nat): (n: nat)
    ensures n < 8 && (len + n + 1) % 8 == 2
  {
    (8 - (len - 1) % 8) % 8
  }

  /** The largest frame has to fit into 1024 bytes. */
  lemma LongestMessage(len: nat)
    ensures len + Padding(len) + 1 < 1024 - 8 <==> len <= 1009
  {
  }

  /** All bytes of `s` masked with each other. */
  function XorAll(s: seq<Byte>): Byte {
    if s == [] then 0 else ByteXor(XorAll(s[..|s| - 1]), s[|s| - 1])
  }

  /** The message with its padding and the byte that brings the sum from byte 2 on to zero. */
  function Padded(m: seq<Byte>, pad: seq<Byte>): (r: seq<Byte>)
    ensures |r| == |m| + |pad| + 1
  {
    var x := m + pad;
    x + [XorAll(if |x| < 2 then [] else x[2..])]
  }

  lemma XorWithItself(a: Byte)
    ensures ByteXor(a, a) == 0
  {
    XorSelf(a);
  }

  lemma ChecksumZero(m: seq<Byte>, pad: seq<Byte>)
    requires |pad| == Padding(|m|)
    ensures |Padded(m, pad)| >= 2 && XorAll(Padded(m, pad)[2..]) == 0
  {
    hide ByteXor;
    var x := m + pad;
    var r := Padded(m, pad);
    if |x| >= 2 {
      var s := x[2..];
      assert r[2..] == s + [XorAll(s)];
      assert (s + [XorAll(s)])[..|s|] == s;
      XorWithItself(XorAll(s));
    } else {
      assert |r| == 2;
      assert r[2..] == [];
    }
  }

  lemma MaskCancels(a: Byte, b: Byte, c: Byte)
    ensures ByteXor(a, c) == ByteXor(b, c) <==> a == b
    ensures ByteXor(c, a) == ByteXor(c, b) <==> a == b
  {
    hide Xor;
    ByteXorTwice(a, c);
    ByteXorTwice(b, c);
    XorComm(a, c);
    XorComm(b, c);
  }

  /** A frame in which one byte was changed is told by its sum. */
  lemma {:induction false} OneByteTold(s: seq<Byte>, i: nat, b: Byte)
    requires i < |s|
    ensures XorAll(s[i := b]) == XorAll(s) <==> b == s[i]
    decreases |s|
  {
    hide ByteXor;
    var n := |s| - 1;
    var t := s[i := b];
    if i == n {
      assert t[..n] == s[..n];
      MaskCancels(b, s[i], XorAll(s[..n]));
    } else {
      assert t[..n] == s[..n][i := b];
      OneByteTold(s[..n], i, b);
      MaskCancels(XorAll(t[..n]), XorAll(s[..n]), s[n]);
    }
  }

  function BlockOf(m: seq<Byte>, j: nat): Byte8
    requires 8 * j + 8 <= |m|
  {
    m[8 * j..8 * j + 8]
  }

  /** The whole blocks of some bytes. */
  function Blocks(m: seq<Byte>): (bs: seq<Byte8>)
    ensures |bs| == |m| / 8
  {
    seq(|m| / 8, j requires 0 <= j < |m| / 8 => BlockOf(m, j))
  }

  lemma BlocksInjective(m: seq<Byte>, m': seq<Byte>)
    requires |m| == |m'| && |m| % 8 == 0 && Blocks(m) == Blocks(m')
    ensures m == m'
  {
    forall i | 0 <= i < |m|
      ensures m[i] == m'[i]
    {
      var j := i / 8;
      assert Blocks(m)[j] == Blocks(m')[j];
      assert m[i] == BlockOf(m, j)[i - 8 * j] && m'[i] == BlockOf(m', j)[i - 8 * j];
    }
  }

  /** `frame` carries the message `m`: two bytes in clear, sealed blocks, and the vector. */
  ghost predicate IsFrame(f: RoundFunction, key: SessionKey, m: seq<Byte>, pad: seq<Byte>, iv: Byte8, frame: seq<Byte>)
    requires |pad| == Padding(|m|)
  {
    var x := Padded(m, pad);
    && |frame| == |x| + 8
    && frame[..2] == x[..2]
    && Blocks(frame[2..|x|]) == Seal(Sealing(f, key), iv, Blocks(x[2..]))
    && frame[|x|..] == iv
  }

  /** What the receiver makes of the sealed part of a frame. */
  ghost predicate IsOpened(f: RoundFunction, key: SessionKey, frame: seq<Byte>, x: seq<Byte>)
    requires |frame| >= 10 && |frame| % 8 == 2
  {
    var n := |frame| - 8;
    && |x| == n
    && x[..2] == frame[..2]
    && Blocks(x[2..]) == Open<Byte8>(Opening(f, key), frame[n..], Blocks(frame[2..n]))
  }

  /** Opening a frame gives the padded message back, whose sum from byte 2 on is zero. */
  lemma FrameRoundTrip(f: RoundFunction, key: SessionKey, m: seq<Byte>, pad: seq<Byte>, iv: Byte8,
                       frame: seq<Byte>, x: seq<Byte>)
    requires |pad| == Padding(|m|) && IsFrame(f, key, m, pad, iv, frame)
    requires |frame| >= 10 && |frame| % 8 == 2 && IsOpened(f, key, frame, x)
    ensures x == Padded(m, pad) && XorAll(x[2..]) == 0
  {
    hide Sealing, Opening, Blocks, Padded;
    var y := Padded(m, pad);
    OpeningUndoesSealing(f, key);
    OpenSeal(Sealing(f, key), Opening(f, key), iv, Blocks(y[2..]));
    BlocksInjective(x[2..], y[2..]);
    assert x == x[..2] + x[2..] && y == y[..2] + y[2..];
    ChecksumZero(m, pad);
  }

  /** One block of a frame: masked with the one before it or the vector, and taken through the rounds to the left
      under the first key, to the right under the second and to the left under the first. */
  ghost predicate SealedBlock(f: RoundFunction, key: SessionKey, v: seq<Byte>, p: seq<Byte>, c: seq<Byte>)
    requires |v| == |p| == 8
  {
    exists t: Byte8 ::
      && (forall i | 0 <= i < 8 :: t[i] == ByteXor(p[i], v[i]))
      && c == Crypt(f, key.k1, Mode(false, true, false, false),
                    Crypt(f, key.k2, Mode(false, false, true, false),
                          Crypt(f, key.k1, Mode(true, false, false, false), t)))
  }

  lemma BlockSealed(f: RoundFunction, key: SessionKey, v: Byte8, p: Byte8)
    ensures SealedBlock(f, key, v, p, Sealing(f, key)(v, p))
  {
    hide Crypt, ByteXor;
    var t := XorBytes(p, v);
    assert TripleEncrypt(f, key, t) == Sealing(f, key)(v, p);
  }

  /** A frame byte by byte: `x` is the message, its padding and the sum, `ps` what of it is sealed, `cs` the vector
      and then the sealed blocks. Two bytes stand in clear, and the vector behind the last block. */
  lemma FrameEquations(f: RoundFunction, key: SessionKey, m: seq<Byte>, pad: seq<Byte>, iv: Byte8, frame: seq<Byte>)
    returns (x: seq<Byte>, ps: seq<Byte8>, cs: seq<Byte8>)
    requires |pad| == Padding(|m|) && IsFrame(f, key, m, pad, iv, frame)
    ensures |x| == |m| + |pad| + 1 == 8 * |ps| + 2 && |pad| < 8 && |cs| == |ps| + 1 && |frame| == |x| + 8
    ensures x[..|m| + |pad|] == m + pad && XorAll(x[2..]) == 0
    ensures frame[..2] == x[..2] && frame[|x|..] == cs[0] == iv
    ensures forall j | 0 <= j < |ps| :: ps[j] == x[8 * j + 2..8 * j + 10]
    ensures forall j | 0 < j <= |ps| :: cs[j] == frame[8 * j - 6..8 * j + 2]
    ensures forall j | 0 <= j < |ps| :: SealedBlock(f, key, cs[j], ps[j], cs[j + 1])
  {
    hide Sealing, Seal, XorAll, SealedBlock;
    x := Padded(m, pad);
    ChecksumZero(m, pad);
    ps := Blocks(x[2..]);
    var sealed := Blocks(frame[2..|x|]);
    cs := [iv] + sealed;
    forall j | 0 <= j < |ps|
      ensures SealedBlock(f, key, cs[j], ps[j], cs[j + 1])
    {
      SealAt(Sealing(f, key), iv, ps, j);
      BlockSealed(f, key, cs[j], ps[j]);
    }
    forall j | 0 < j <= |ps|
      ensures cs[j] == frame[8 * j - 6..8 * j + 2]
    {
      var i := j - 1;
      assert cs[j] == sealed[i] == frame[2..|x|][8 * i..8 * i + 8];
      assert frame[2..|x|][8 * i..8 * i + 8] == frame[8 * i + 2..8 * i + 10];
    }
  }
}
