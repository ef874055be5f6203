/** The frame codec in the caller's buffer. */
module NewcamdCode {
  import opened Bits
  import opened Common
  import opened Chaining
  import opened NcDesBits
  import opened NcDes
  import opened NcDesCode
  import opened Newcamd

  /** Sixteen bytes, two DES keys; the last byte of the first one is zero in every session key. */
  type KeyBytes = k: seq<Byte> | |k| == 16 witness seq(16, _ => 0)

  function ToKey(k: KeyBytes): SessionKey {
    SessionKey(k[..8], k[8..])
  }

  /** The triple-DES branch of `ncd_EuroDes`, which a zero eighth key byte selects. */
  method EuroDes(key: KeyBytes, encrypt: bool, data: array<Byte>, at: nat, f: RoundFunction)
    requires key[7] == 0 && at + 8 <= data.Length
    modifies data
    ensures data[at..at + 8] == (if encrypt then TripleEncrypt(f, ToKey(key), old(data[at..at + 8]))
                                 else TripleDecrypt(f, ToKey(key), old(data[at..at + 8])))
    ensures forall n | 0 <= n < at || at + 8 <= n < data.Length :: data[n] == old(data[n])
  {
    hide Crypt;
    var toRight := !encrypt;
    CryptBlock(key[..8], Mode(true, false, toRight, false), data, at, f);
    toRight := !toRight;
    CryptBlock(key[8..], Mode(false, false, toRight, false), data, at, f);
    toRight := !toRight;
    CryptBlock(key[..8], Mode(false, true, toRight, false), data, at, f);
  }

  method XorInto(data: array<Byte>, at: nat, v: Byte8)
    requires at + 8 <= data.Length
    modifies data
    ensures data[at..at + 8] == XorBytes(old(data[at..at + 8]), v)
    ensures forall n | 0 <= n < at || at + 8 <= n < data.Length :: data[n] == old(data[n])
  {
    hide ByteXor;
    var j := 0;
    while j < 8
      invariant 0 <= j <= 8
      invariant forall n | at <= n < at + j :: data[n] == ByteXor(old(data[n]), v[n - at])
      invariant forall n | 0 <= n < at || at + j <= n < data.Length :: data[n] == old(data[n])
    {
      data[at + j] := ByteXor(data[at + j], v[j]);
      j := j + 1;
    }
  }

  /** All bytes from byte 2 on masked with each other. */
  method Checksum(data: array<Byte>, len: nat) returns (sum: Byte)
    requires len <= data.Length
    ensures sum == XorAll(if len < 2 then [] else data[2..len])
  {
    hide ByteXor;
    sum := 0;
    var i := 2;
    while i < len
      invariant 2 <= i && (len >= 2 ==> i <= len)
      invariant sum == XorAll(if len < 2 then [] else data[2..i])
    {
      assert data[2..i + 1][..i - 2] == data[2..i];
      sum := ByteXor(sum, data[i]);
      i := i + 1;
    }
  }

  // ----- Sealing and opening the body in place

  /** The first `n` blocks of `bs` stand in `m` from byte 2 on. */
  ghost predicate Placed(m: seq<Byte>, bs: seq<Byte8>, n: nat) {
    n <= |bs| && 8 * n + 2 <= |m| && forall j | 0 <= j < n :: m[8 * j + 2..8 * j + 10] == bs[j]
  }

  lemma PlacedOneMore(before: seq<Byte>, after: seq<Byte>, bs: seq<Byte8>, n: nat)
    requires Placed(before, bs, n) && n < |bs| && 8 * n + 10 <= |after| && |before| == |after|
    requires forall i | 0 <= i < 8 * n + 2 :: before[i] == after[i]
    requires after[8 * n + 2..8 * n + 10] == bs[n]
    ensures Placed(after, bs, n + 1)
  {
    forall j | 0 <= j < n
      ensures after[8 * j + 2..8 * j + 10] == bs[j]
    {
      assert after[8 * j + 2..8 * j + 10] == before[8 * j + 2..8 * j + 10];
    }
  }

  lemma SliceOfSlice(m: seq<Byte>, a: nat, b: nat, c: nat, d: nat)
    requires a <= b <= |m| && c <= d <= b - a
    ensures m[a..b][c..d] == m[a + c..a + d]
  {
    forall i | 0 <= i < d - c
      ensures m[a..b][c..d][i] == m[a + c..a + d][i]
    {
      assert m[a..b][c + i] == m[a + (c + i)];
    }
  }

  lemma PlacedAll(m: seq<Byte>, bs: seq<Byte8>)
    requires Placed(m, bs, |bs|)
    ensures Blocks(m[2..8 * |bs| + 2]) == bs
  {
    forall j | 0 <= j < |bs|
      ensures BlockOf(m[2..8 * |bs| + 2], j) == bs[j]
    {
      SliceOfSlice(m, 2, 8 * |bs| + 2, 8 * j, 8 * j + 8);
      assert m[8 * j + 2..8 * j + 10] == bs[j];
    }
  }

  lemma PlacedNone(m: seq<Byte>, bs: seq<Byte8>)
    requires |m| >= 2
    ensures Placed(m, bs, 0)
  {
  }

  lemma BlockInBody(m: seq<Byte>, j: nat)
    requires 8 * j + 8 <= |m|
    ensures j < |Blocks(m)| && Blocks(m)[j] == m[8 * j..8 * j + 8]
  {
  }

  /** One pass of the sealing loop. */
  method SealNext(data: array<Byte>, i: nat, ivec: Byte8, key: KeyBytes, f: RoundFunction,
                  ghost v: Byte8, ghost ps: seq<Byte8>, ghost j: nat)
    returns (ivec': Byte8)
    requires key[7] == 0 && j < |ps| && i == 8 * j + 2 && i + 8 <= data.Length
    requires ivec == Last(v, Seal(Sealing(f, ToKey(key)), v, ps)[..j]) && data[i..i + 8] == ps[j]
    requires Placed(data[..], Seal(Sealing(f, ToKey(key)), v, ps), j)
    modifies data
    ensures Placed(data[..], Seal(Sealing(f, ToKey(key)), v, ps), j + 1)
    ensures ivec' == Last(v, Seal(Sealing(f, ToKey(key)), v, ps)[..j + 1])
    ensures forall n | 0 <= n < i || i + 8 <= n < data.Length :: data[n] == old(data[n])
  {
    hide TripleEncrypt, XorBytes, Seal, Placed;
    ghost var cs, before := Seal(Sealing(f, ToKey(key)), v, ps), data[..];
    SealAt(Sealing(f, ToKey(key)), v, ps, j);
    XorInto(data, i, ivec);
    EuroDes(key, true, data, i, f);
    ivec' := data[i..i + 8];
    PlacedOneMore(before, data[..], cs, j);
  }

  method SealBody(data: array<Byte>, len: nat, iv: Byte8, key: KeyBytes, f: RoundFunction)
    requires key[7] == 0 && 2 <= len <= data.Length && len % 8 == 2
    modifies data
    ensures Blocks(data[2..len]) == Seal(Sealing(f, ToKey(key)), iv, Blocks(old(data[2..len])))
    ensures forall n | 0 <= n < 2 || len <= n < data.Length :: data[n] == old(data[n])
  {
    hide Sealing, Seal, Blocks, Placed;
    ghost var before := data[..];
    ghost var m := before[2..len];
    assert m == data[2..len];
    ghost var ps, cs := Blocks(m), Seal(Sealing(f, ToKey(key)), iv, Blocks(m));
    PlacedNone(data[..], cs);
    var ivec := iv;
    var i := 2;
    ghost var j := 0;
    while i < len
      invariant i == 8 * j + 2 <= len
      invariant ivec == Last(iv, cs[..j])
      invariant Placed(data[..], cs, j)
      invariant forall n | 0 <= n < 2 || i <= n < data.Length :: data[n] == old(data[n])
    {
      BlockInBody(m, j);
      SliceOfSlice(before, 2, len, 8 * j, 8 * j + 8);
      assert data[i..i + 8] == before[i..i + 8];
      ivec := SealNext(data, i, ivec, key, f, iv, ps, j);
      i := i + 8;
      j := j + 1;
    }
    PlacedAll(data[..], cs);
    assert data[..][2..len] == data[2..len];
  }

  method OpenNext(data: array<Byte>, i: nat, ivec: Byte8, key: KeyBytes, f: RoundFunction,
                  ghost v: Byte8, ghost cs: seq<Byte8>, ghost j: nat)
    requires key[7] == 0 && j < |cs| && i == 8 * j + 2 && i + 8 <= data.Length
    requires ivec == Last(v, cs[..j]) && data[i..i + 8] == cs[j]
    requires Placed(data[..], Open(Opening(f, ToKey(key)), v, cs), j)
    modifies data
    ensures Placed(data[..], Open(Opening(f, ToKey(key)), v, cs), j + 1)
    ensures forall n | 0 <= n < i || i + 8 <= n < data.Length :: data[n] == old(data[n])
  {
    hide TripleDecrypt, XorBytes, Open, Placed;
    ghost var ps, before := Open(Opening(f, ToKey(key)), v, cs), data[..];
    OpenAt(Opening(f, ToKey(key)), v, cs, j);
    EuroDes(key, false, data, i, f);
    XorInto(data, i, ivec);
    PlacedOneMore(before, data[..], ps, j);
  }

  /** The loop keeps the ciphertext block it is about to overwrite as the next vector. */
  method OpenBody(data: array<Byte>, len: nat, iv: Byte8, key: KeyBytes, f: RoundFunction)
    requires key[7] == 0 && 2 <= len <= data.Length && len % 8 == 2
    modifies data
    ensures Blocks(data[2..len]) == Open<Byte8>(Opening(f, ToKey(key)), iv, Blocks(old(data[2..len])))
    ensures forall n | 0 <= n < 2 || len <= n < data.Length :: data[n] == old(data[n])
  {
    hide Opening, Open, Blocks, Placed;
    ghost var before := data[..];
    ghost var m := before[2..len];
    assert m == data[2..len];
    ghost var cs := Blocks(m);
    ghost var ps := Open<Byte8>(Opening(f, ToKey(key)), iv, cs);
    PlacedNone(data[..], ps);
    var nextIvec := iv;
    var i := 2;
    ghost var j := 0;
    while i < len
      invariant i == 8 * j + 2 <= len
      invariant nextIvec == Last(iv, cs[..j])
      invariant Placed(data[..], ps, j)
      invariant forall n | 0 <= n < 2 || i <= n < data.Length :: data[n] == old(data[n])
    {
      BlockInBody(m, j);
      SliceOfSlice(before, 2, len, 8 * j, 8 * j + 8);
      assert data[i..i + 8] == before[i..i + 8];
      var ivec := nextIvec;
      nextIvec := data[i..i + 8];
      OpenNext(data, i, ivec, key, f, iv, cs, j);
      i := i + 8;
      j := j + 1;
    }
    PlacedAll(data[..], ps);
    assert data[..][2..len] == data[2..len];
  }

  // ----- Frames

  /** Padding and checksum appended to the message. */
  method AppendPadding(buffer: array<Byte>, len: nat, pad: seq<Byte>) returns (end: nat)
    requires len + |pad| + 1 <= buffer.Length
    modifies buffer
    ensures end == len + |pad| + 1 && buffer[..end] == Padded(old(buffer[..len]), pad)
    ensures forall i | end <= i < buffer.Length :: buffer[i] == old(buffer[i])
  {
    hide XorAll;
    ghost var m := buffer[..len];
    Put(buffer, len, pad);
    end := len + |pad|;
    assert buffer[..end] == m + pad;
    assert end >= 2 ==> buffer[..end][2..] == buffer[2..end];
    var sum := Checksum(buffer, end);
    buffer[end] := sum;
    assert buffer[..end + 1] == m + pad + [sum];
    end := end + 1;
  }

  lemma TailOf(a: seq<Byte>, b: seq<Byte>)
    requires a == b && |a| >= 2
    ensures a[2..] == b[2..] && a[..2] == b[..2]
  {
  }

  /** The padded message sealed in place, with the vector behind it. */
  method SealFrame(buffer: array<Byte>, end: nat, key: KeyBytes, iv: Byte8, f: RoundFunction,
                   ghost m: seq<Byte>, ghost pad: seq<Byte>)
    requires key[7] == 0 && end + 8 <= buffer.Length && |pad| == Padding(|m|)
    requires end == |m| + |pad| + 1 && buffer[..end] == Padded(m, pad)
    modifies buffer
    ensures IsFrame(f, ToKey(key), m, pad, iv, buffer[..end + 8])
    ensures forall i | end + 8 <= i < buffer.Length :: buffer[i] == old(buffer[i])
  {
    hide Padded, Sealing, Seal, Blocks;
    ghost var x := Padded(m, pad);
    Put(buffer, end, iv);
    TailOf(buffer[..end], x);
    assert buffer[2..end] == buffer[..end][2..];
    SealBody(buffer, end, iv, key, f);
    assert buffer[..end + 8][2..end] == buffer[2..end] && buffer[..end + 8][..2] == x[..2];
    assert buffer[..end + 8][end..] == iv;
  }

  /** `cccam_newcamd_des_encrypt` for a session key; `pad` and `iv` are what the random source gave.
      The message grows into its frame in the caller's buffer. */
  method EncryptFrame(buffer: array<Byte>, len: nat, key: KeyBytes, pad: seq<Byte>, iv: Byte8, f: RoundFunction)
    returns (n: int)
    requires key[7] == 0 && len <= buffer.Length && 1024 <= buffer.Length && |pad| == Padding(len)
    modifies buffer
    ensures n != -1 <==> len <= 1009
    ensures n == -1 ==> buffer[..] == old(buffer[..])
    ensures n != -1 ==> n == len + |pad| + 9 <= buffer.Length
                        && IsFrame(f, ToKey(key), old(buffer[..len]), pad, iv, buffer[..n])
    ensures forall i | n <= i < buffer.Length && n != -1 :: buffer[i] == old(buffer[i])
  {
    LongestMessage(len);
    if len + Padding(len) + 1 >= 1024 - 8 {
      return -1;
    }
    ghost var m := buffer[..len];
    var end := AppendPadding(buffer, len, pad);
    SealFrame(buffer, end, key, iv, f, m, pad);
    n := end + 8;
  }

  lemma OpenedParts(f: RoundFunction, key: SessionKey, before: seq<Byte>, after: seq<Byte>, n: nat,
                    iv: Byte8, frame: seq<Byte>, x: seq<Byte>)
    requires n >= 2 && n + 8 <= |before| == |after| && after[..2] == before[..2]
    requires frame == before[..n + 8] && x == after[..n] && iv == before[n..n + 8] && |frame| % 8 == 2
    requires Blocks(after[2..n]) == Open<Byte8>(Opening(f, key), iv, Blocks(before[2..n]))
    ensures IsOpened(f, key, frame, x)
  {
    hide Opening, Open, Blocks;
    assert frame[2..n] == before[2..n] && frame[n..] == iv && frame[..2] == before[..2];
    assert x[2..] == after[2..n] && x[..2] == after[..2];
  }

  /** `cccam_newcamd_des_decrypt` for a session key. */
  method DecryptFrame(buffer: array<Byte>, len: nat, key: KeyBytes, f: RoundFunction) returns (n: int)
    requires key[7] == 0 && len <= buffer.Length
    modifies buffer
    ensures if (len - 2) % 8 != 0 || len - 2 < 16 then n == -1 && buffer[..] == old(buffer[..])
            else IsOpened(f, ToKey(key), old(buffer[..len]), buffer[..len - 8])
                 && n == (if XorAll(buffer[2..len - 8]) == 0 then len - 8 else -1)
    ensures forall i | len <= i < buffer.Length :: buffer[i] == old(buffer[i])
  {
    if (len - 2) % 8 != 0 || len - 2 < 16 {
      return -1;
    }
    hide Opening, Open, Blocks, XorAll, IsOpened, ToKey;
    ghost var before := buffer[..];
    n := len - 8;
    var nextIvec: Byte8 := buffer[n..n + 8];
    ghost var frame := buffer[..len];
    assert before[n..n + 8] == nextIvec && before[2..n] == buffer[2..n] && before[..len] == frame;
    OpenBody(buffer, n, nextIvec, key, f);
    assert buffer[..][2..n] == buffer[2..n] && buffer[..][..n] == buffer[..n];
    OpenedParts(f, ToKey(key), before, buffer[..], n, nextIvec, frame, buffer[..n]);
    var sum := Checksum(buffer, n);
    if sum != 0 {
      n := -1;
    }
  }

  lemma PaddedPrefix(m: seq<Byte>, pad: seq<Byte>)
    ensures Padded(m, pad)[..|m|] == m
  {
  }

  /** A message encrypted by one end and decrypted by the other, in the same buffer. It comes back exactly if
      it has the two bytes in clear that every frame starts with; without them the frame is too short for
      the receiver. */
  method RoundTrip(buffer: array<Byte>, len: nat, key: KeyBytes, key': KeyBytes, pad: seq<Byte>, iv: Byte8,
                   f: RoundFunction)
    returns (sent: int, received: int)
    requires key == key' && key[7] == 0
    requires 1024 <= buffer.Length && len <= buffer.Length && |pad| == Padding(len) && len <= 1009
    modifies buffer
    ensures sent == len + |pad| + 9
    ensures received == (if len >= 2 then sent - 8 else -1)
    ensures len >= 2 ==> buffer[..len] == old(buffer[..len])
  {
    hide IsFrame, IsOpened, Padded, Padding, XorAll, ToKey;
    ghost var m := buffer[..len];
    sent := EncryptFrame(buffer, len, key, pad, iv, f);
    ghost var frame := buffer[..sent];
    assert (sent - 2) % 8 == 0;
    received := DecryptFrame(buffer, sent, key', f);
    if len >= 2 {
      ghost var x := buffer[..sent - 8];
      FrameRoundTrip(f, ToKey(key), m, pad, iv, frame, x);
      assert x[2..] == buffer[2..sent - 8];
      PaddedPrefix(m, pad);
      assert buffer[..len] == x[..len];
    }
  }
}
