/** The chaining loop on byte buffers, which may be one and the same. */
module IdeaCbcBuffers {
  import opened Bits
  import opened Chaining
  import opened IdeaCipher
  import opened Idea
  import opened IdeaCbc

  lemma OrBytesSum(a: Byte, b: Byte, c: Byte, d: Byte)
    ensures Or(Or(Or(a as int * 0x100_0000, b as int * 0x1_0000), c as int * 0x100), d) == BigEndian32(a, b, c, d)
  {
    hide Or;
    Pow2Values();
    hide Pow2;
    OrDisjoint(a, b as int * 0x1_0000, 24);
    OrDisjoint(a as int * 0x100 + b, c as int * 0x100, 16);
    OrDisjoint((a as int * 0x100 + b) * 0x100 + c, d, 8);
  }

  /** Four bytes or-ed together, most significant first. */
  function OrBytes(a: Byte, b: Byte, c: Byte, d: Byte): (l: ULong)
    ensures l == BigEndian32(a, b, c, d)
  {
    OrBytesSum(a, b, c, d);
    Or(Or(Or(a as int * 0x100_0000, b as int * 0x1_0000), c as int * 0x100), d)
  }

  method ReadWord(c: array<Byte>, at: nat) returns (l: ULong)
    requires at + 4 <= c.Length
    ensures l == BigEndian32(c[at], c[at + 1], c[at + 2], c[at + 3])
  {
    l := OrBytes(c[at], c[at + 1], c[at + 2], c[at + 3]);
  }

  /** The bytes of `l` stored most significant first. */
  method WriteWord(l: Word32, c: array<Byte>, at: nat)
    requires at + 4 <= c.Length
    modifies c
    ensures c[..] == old(c[..at]) + Bytes32(l) + old(c[at + 4..])
  {
    c[at] := l / 0x100_0000 % 0x100;
    c[at + 1] := l / 0x1_0000 % 0x100;
    c[at + 2] := l / 0x100 % 0x100;
    c[at + 3] := l % 0x100;
  }

  function ByteOrZero(c: array<Byte>, at: nat, n: nat, i: nat): (b: Byte)
    requires n <= 8 && i < 8 && at + n <= c.Length
    reads c
    ensures b == Pad(c[at..at + n])[i]
  {
    if i < n then c[at + i] else 0
  }

  /** The first `n` bytes of a block, the rest read as zeros. */
  method ReadPartial(c: array<Byte>, at: nat, n: nat) returns (l1: ULong, l2: ULong)
    requires 1 <= n <= 8 && at + n <= c.Length
    ensures l1 < 0x1_0000_0000 && l2 < 0x1_0000_0000
    ensures Block(l1, l2) == Load(Pad(c[at..at + n]))
  {
    var b7 := ByteOrZero(c, at, n, 7);
    var b6 := ByteOrZero(c, at, n, 6);
    var b5 := ByteOrZero(c, at, n, 5);
    var b4 := ByteOrZero(c, at, n, 4);
    var b3 := ByteOrZero(c, at, n, 3);
    var b2 := ByteOrZero(c, at, n, 2);
    var b1 := ByteOrZero(c, at, n, 1);
    var b0 := ByteOrZero(c, at, n, 0);
    l1 := OrBytes(b0, b1, b2, b3);
    l2 := OrBytes(b4, b5, b6, b7);
  }

  /** The first `n` bytes of a block, last one first, as the cases of the macro fall through. */
  method WritePartial(b: Block, c: array<Byte>, at: nat, n: nat)
    requires n <= 8 && at + n <= c.Length
    modifies c
    ensures c[..] == old(c[..at]) + Store(b)[..n] + old(c[at + n..])
  {
    var i := n;
    while i > 0
      invariant 0 <= i <= n
      invariant c[..at + i] == old(c[..at + i])
      invariant c[at + i..at + n] == Store(b)[i..n]
      invariant c[at + n..] == old(c[at + n..])
    {
      i := i - 1;
      c[at + i] := Store(b)[i];
    }
  }

  /** On halves of 32 bits the words of the registers are the words of the block. */
  lemma UnpackIsState(d0: ULong, d1: ULong)
    requires d0 < 0x1_0000_0000 && d1 < 0x1_0000_0000
    ensures Unpack(d0, d1) == ToState(Block(d0, d1))
    ensures FromState(Unpack(d0, d1)) == Block(d0, d1)
  {
  }

  /** The two halves enciphered in place. */
  method EncipherPair(tin: array<ULong>, ks: Schedule)
    requires tin.Length == 2
    requires tin[0] < 0x1_0000_0000 && tin[1] < 0x1_0000_0000
    modifies tin
    ensures tin[0] < 0x1_0000_0000 && tin[1] < 0x1_0000_0000
    ensures Block(tin[0], tin[1]) == Encipher(Block(old(tin[0]), old(tin[1])), ks)
  {
    hide Crypt, Unpack, ToState, FromState;
    UnpackIsState(tin[0], tin[1]);
    Encrypt(tin, ks);
    UnpackIsState(tin[0], tin[1]);
  }

  /** `b` masked by `iv` and enciphered, as the loop does with its scratch pair. */
  method EncipherMasked(tin0: Word32, tin1: Word32, iv: Block, ks: Schedule) returns (tout0: Word32, tout1: Word32)
    ensures Block(tout0, tout1) == Sealing(ks)(iv, Block(tin0, tin1))
  {
    hide Encipher, Xor32;
    var tin := new ULong[2];
    tin[0] := Xor32(tin0, iv.hi);
    tin[1] := Xor32(tin1, iv.lo);
    EncipherPair(tin, ks);
    tout0 := tin[0];
    tout1 := tin[1];
  }

  method ReadBlock(c: array<Byte>, at: nat) returns (l1: Word32, l2: Word32)
    requires at + 8 <= c.Length
    ensures Block(l1, l2) == Load(c[at..at + 8])
  {
    l1 := ReadWord(c, at);
    l2 := ReadWord(c, at + 4);
  }

  method WriteBlock(l1: Word32, l2: Word32, c: array<Byte>, at: nat)
    requires at + 8 <= c.Length
    modifies c
    ensures c[at..at + 8] == Store(Block(l1, l2))
    ensures c[..at] == old(c[..at])
    ensures forall i | at + 8 <= i < c.Length :: c[i] == old(c[i])
  {
    hide Bytes32;
    ghost var before := c[..];
    WriteWord(l1, c, at);
    WriteWord(l2, c, at + 4);
    assert c[..] == before[..at] + Bytes32(l1) + Bytes32(l2) + before[at + 8..];
  }

  /** The first `n` blocks of `bs` stand at the start of `c`. */
  ghost predicate Stored(c: seq<Byte>, bs: seq<Block>, n: nat) {
    n <= |bs| && 8 * n <= |c| && forall j | 0 <= j < n :: c[8 * j..8 * j + 8] == Store(bs[j])
  }

  lemma StoredOneMore(before: seq<Byte>, after: seq<Byte>, bs: seq<Block>, n: nat)
    requires Stored(before, bs, n) && n < |bs| && 8 * n + 8 <= |after|
    requires before[..8 * n] == after[..8 * n] && after[8 * n..8 * n + 8] == Store(bs[n])
    ensures Stored(after, bs, n + 1)
  {
    hide Store;
    forall j | 0 <= j < n
      ensures after[8 * j..8 * j + 8] == Store(bs[j])
    {
      assert after[8 * j..8 * j + 8] == after[..8 * n][8 * j..8 * j + 8];
      assert before[8 * j..8 * j + 8] == before[..8 * n][8 * j..8 * j + 8];
    }
  }

  lemma NothingStored(c: seq<Byte>, bs: seq<Block>)
    ensures Stored(c, bs, 0)
  {
  }

  lemma StoredPrefix(c: seq<Byte>, bs: seq<Block>)
    requires Stored(c, bs, |bs|)
    ensures Spells(c[..8 * |bs|], bs)
  {
    hide Store;
    forall j | 0 <= j < |bs|
      ensures Slice(c[..8 * |bs|], j) == Store(bs[j])[..8]
    {
      assert Slice(c[..8 * |bs|], j) == c[8 * j..8 * j + 8];
    }
  }

  /** The last block may be cut short. */
  lemma StoredFinal(before: seq<Byte>, after: seq<Byte>, bs: seq<Block>, n: nat, r: nat)
    requires Stored(before, bs, n) && |bs| == n + 1 && 0 < r < 8 && 8 * n + r <= |before|
    requires after == before[..8 * n] + Store(bs[n])[..r] + before[8 * n + r..]
    ensures Spells(after[..8 * n + r], bs)
  {
    hide Store;
    var m := after[..8 * n + r];
    forall j | 0 <= j < |bs|
      ensures Slice(m, j) == Store(bs[j])[..|Slice(m, j)|]
    {
      if j < n {
        assert Slice(m, j) == before[8 * j..8 * j + 8];
        assert Store(bs[j])[..8] == Store(bs[j]);
      }
    }
  }

  lemma CountWhole(n: nat)
    ensures Count(8 * n) == n
  {
  }

  /** Block `n` of the text masked by the block before it, enciphered and sent. */
  method SendBlock(tin0: Word32, tin1: Word32, iv: Block, out: array<Byte>, at: nat, ks: Schedule,
                   ghost v: Block, ghost ps: seq<Block>, ghost n: nat)
    returns (tout0: Word32, tout1: Word32)
    requires n < |ps| && Block(tin0, tin1) == ps[n] && iv == Last(v, Seal(Sealing(ks), v, ps)[..n])
    requires at == 8 * n && at + 8 <= out.Length && Stored(out[..], Seal(Sealing(ks), v, ps), n)
    modifies out
    ensures Stored(out[..], Seal(Sealing(ks), v, ps), n + 1)
    ensures Block(tout0, tout1) == Last(v, Seal(Sealing(ks), v, ps)[..n + 1])
    ensures forall i | at + 8 <= i < out.Length :: out[i] == old(out[i])
  {
    hide Sealing, Store, Seal, Stored;
    ghost var cs, before := Seal(Sealing(ks), v, ps), out[..];
    SealAt(Sealing(ks), v, ps, n);
    tout0, tout1 := EncipherMasked(tin0, tin1, iv, ks);
    WriteBlock(tout0, tout1, out, at);
    StoredOneMore(before, out[..], cs, n);
  }

  /** A whole slice needs no padding. */
  lemma WholeBlock(m: seq<Byte>, j: nat)
    requires 8 * j + 8 <= |m|
    ensures j < Count(|m|) && Blocks(m)[j] == Load(m[8 * j..8 * j + 8])
  {
    hide Load;
    assert Pad(Slice(m, j)) == m[8 * j..8 * j + 8];
  }

  method EncryptCbc(input: array<Byte>, out: array<Byte>, length: nat, ks: Schedule, iv: array<Byte>)
    requires iv.Length == 8 && iv != input && iv != out
    requires length <= input.Length && 8 * Count(length) <= out.Length
    modifies out, iv
    ensures IsCiphertext(ks, Load(old(iv[..])), old(input[..length]), out[..8 * Count(length)])
    ensures forall i | 8 * Count(length) <= i < out.Length :: out[i] == old(out[i])
    ensures iv[..] == Store(Last(Load(old(iv[..])), Seal(Sealing(ks), Load(old(iv[..])), Blocks(old(input[..length])))))
  {
    hide Sealing, Load, Store, Pad, Seal, Count, Stored, Spells;
    ghost var v, m := Load(iv[..]), input[..length];
    ghost var ps, cs := Blocks(m), Seal(Sealing(ks), v, Blocks(m));
    assert iv[0..8] == iv[..];
    NothingStored(out[..], cs);
    var tout0, tout1 := ReadBlock(iv, 0);
    var at := 0;
    var l: int := length - 8;
    ghost var n := 0;
    while l >= 0
      invariant at == 8 * n && l == length - 8 - at && at <= length
      invariant forall i | at <= i < length :: input[i] == m[i]
      invariant forall i | 8 * Count(length) <= i < out.Length :: out[i] == old(out[i])
      invariant n <= |cs| && Block(tout0, tout1) == Last(v, cs[..n])
      invariant Stored(out[..], cs, n)
    {
      WholeBlock(m, n);
      assert input[at..at + 8] == m[at..at + 8];
      var tin0, tin1 := ReadBlock(input, at);
      tout0, tout1 := SendBlock(tin0, tin1, Block(tout0, tout1), out, at, ks, v, ps, n);
      at := at + 8;
      l := l - 8;
      n := n + 1;
    }
    if l != -8 {
      assert input[at..at + (l + 8)] == Slice(m, n);
      var tin0, tin1 := ReadPartial(input, at, l + 8);
      tout0, tout1 := SendBlock(tin0, tin1, Block(tout0, tout1), out, at, ks, v, ps, n);
      n := n + 1;
    }
    assert n == |cs| && cs[..n] == cs;
    StoredPrefix(out[..], cs);
    WriteBlock(tout0, tout1, iv, 0);
    assert iv[..] == iv[0..8];
  }

  /** Block `n` of the ciphertext deciphered and unmasked with the block before it. */
  method OpenBlock(tin0: Word32, tin1: Word32, xor: Block, ks: Schedule,
                   ghost v: Block, ghost cs: seq<Block>, ghost n: nat)
    returns (p: Block)
    requires n < |cs| && Block(tin0, tin1) == cs[n] && xor == Last(v, cs[..n])
    ensures p == Open(Opening(ks), v, cs)[n]
    ensures Block(tin0, tin1) == Last(v, cs[..n + 1])
  {
    hide Encipher, Xor32, Open;
    OpenAt(Opening(ks), v, cs, n);
    var tin := new ULong[2];
    tin[0] := tin0;
    tin[1] := tin1;
    EncipherPair(tin, ks);
    p := Block(Xor32(tin[0], xor.hi), Xor32(tin[1], xor.lo));
  }

  method ReceiveBlock(tin0: Word32, tin1: Word32, xor: Block, out: array<Byte>, at: nat, ks: Schedule,
                      ghost v: Block, ghost cs: seq<Block>, ghost n: nat)
    requires n < |cs| && Block(tin0, tin1) == cs[n] && xor == Last(v, cs[..n])
    requires at == 8 * n && at + 8 <= out.Length && Stored(out[..], Open(Opening(ks), v, cs), n)
    modifies out
    ensures Stored(out[..], Open(Opening(ks), v, cs), n + 1)
    ensures forall i | at + 8 <= i < out.Length :: out[i] == old(out[i])
  {
    hide Opening, Store, Open, Stored;
    ghost var before := out[..];
    var p := OpenBlock(tin0, tin1, xor, ks, v, cs, n);
    WriteBlock(p.hi, p.lo, out, at);
    StoredOneMore(before, out[..], Open(Opening(ks), v, cs), n);
  }

  /** The last block, of which only `r` bytes are wanted. */
  method ReceiveTail(tin0: Word32, tin1: Word32, xor: Block, out: array<Byte>, at: nat, r: nat, ks: Schedule,
                     ghost v: Block, ghost cs: seq<Block>, ghost n: nat)
    requires |cs| == n + 1 && Block(tin0, tin1) == cs[n] && xor == Last(v, cs[..n])
    requires 0 < r < 8 && at == 8 * n && at + r <= out.Length && Stored(out[..], Open(Opening(ks), v, cs), n)
    modifies out
    ensures Spells(out[..at + r], Open(Opening(ks), v, cs))
    ensures forall i | at + r <= i < out.Length :: out[i] == old(out[i])
  {
    hide Opening, Store, Open, Stored, Spells;
    ghost var before := out[..];
    var p := OpenBlock(tin0, tin1, xor, ks, v, cs, n);
    WritePartial(p, out, at, r);
    StoredFinal(before, out[..], Open(Opening(ks), v, cs), n, r);
    assert forall i | at + r <= i < out.Length :: out[i] == before[i];
  }

  /** One pass of the decryption loop; the block it read is the next one's mask. */
  method ReceiveNext(input: array<Byte>, xor: Block, out: array<Byte>, at: nat, ks: Schedule,
                     ghost v: Block, ghost c: seq<Byte>, ghost n: nat)
    returns (tin0: Word32, tin1: Word32)
    requires at == 8 * n && at + 8 <= input.Length && at + 8 <= out.Length && at + 8 <= |c|
    requires input[at..at + 8] == c[8 * n..8 * n + 8] && n < |Blocks(c)| && xor == Last(v, Blocks(c)[..n])
    requires Stored(out[..], Open(Opening(ks), v, Blocks(c)), n)
    modifies out
    ensures Stored(out[..], Open(Opening(ks), v, Blocks(c)), n + 1)
    ensures Block(tin0, tin1) == Last(v, Blocks(c)[..n + 1])
    ensures forall i | at + 8 <= i < out.Length :: out[i] == old(out[i])
  {
    hide Opening, Load, Open, Stored, Blocks;
    WholeBlock(c, n);
    tin0, tin1 := ReadBlock(input, at);
    ReceiveBlock(tin0, tin1, xor, out, at, ks, v, Blocks(c), n);
  }

  method DecryptCbc(input: array<Byte>, out: array<Byte>, length: nat, ks: Schedule, iv: array<Byte>)
    requires iv.Length == 8 && iv != input && iv != out
    requires 8 * Count(length) <= input.Length && length <= out.Length
    modifies out, iv
    ensures IsPlaintext(ks, Load(old(iv[..])), old(input[..8 * Count(length)]), out[..length])
    ensures forall i | length <= i < out.Length :: out[i] == old(out[i])
    ensures iv[..] == Store(Last(Load(old(iv[..])), Blocks(old(input[..8 * Count(length)]))))
  {
    hide Opening, Load, Store, Pad, Open, Count, Stored, Spells, Blocks;
    ghost var v, c := Load(iv[..]), input[..8 * Count(length)];
    ghost var cs, ps := Blocks(c), Open(Opening(ks), v, Blocks(c));
    CountWhole(Count(length));
    assert iv[0..8] == iv[..];
    NothingStored(out[..], ps);
    var xor0, xor1 := ReadBlock(iv, 0);
    var at := 0;
    var l: int := length - 8;
    ghost var n := 0;
    while l >= 0
      invariant at == 8 * n && l == length - 8 - at && at <= length
      invariant forall i | at <= i < |c| :: input[i] == c[i]
      invariant forall i | length <= i < out.Length :: out[i] == old(out[i])
      invariant n <= |cs| && Block(xor0, xor1) == Last(v, cs[..n])
      invariant Stored(out[..], ps, n)
    {
      assert input[at..at + 8] == c[at..at + 8];
      xor0, xor1 := ReceiveNext(input, Block(xor0, xor1), out, at, ks, v, c, n);
      at := at + 8;
      l := l - 8;
      n := n + 1;
    }
    if l != -8 {
      WholeBlock(c, n);
      assert input[at..at + 8] == c[at..at + 8];
      var tin0, tin1 := ReadBlock(input, at);
      ReceiveTail(tin0, tin1, Block(xor0, xor1), out, at, l + 8, ks, v, cs, n);
      xor0 := tin0;
      xor1 := tin1;
      n := n + 1;
    } else {
      StoredPrefix(out[..], ps);
    }
    assert n == |cs| && cs[..n] == cs;
    WriteBlock(xor0, xor1, iv, 0);
    assert iv[..] == iv[0..8];
  }

  /** Working in place: a buffer encrypted and then decrypted from the same vector under the derived
      schedule holds its text again, and both calls hand back the same vector. */
  method InPlaceRoundTrip(buffer: array<Byte>, length: nat, ek: Schedule, dk: Schedule,
                          iv: array<Byte>, iv': array<Byte>)
    requires iv.Length == 8 && iv'.Length == 8 && iv != iv' && buffer != iv && buffer != iv'
    requires 8 * Count(length) <= buffer.Length
    requires iv[..] == iv'[..] && IsDecryptSchedule(ek, dk)
    modifies buffer, iv, iv'
    ensures buffer[..length] == old(buffer[..length])
    ensures iv[..] == iv'[..]
  {
    hide IsDecryptSchedule, Spells, Load, Store, Sealing, Opening, Count;
    ghost var v, m := Load(iv[..]), buffer[..length];
    EncryptCbc(buffer, buffer, length, ek, iv);
    ghost var c := buffer[..8 * Count(length)];
    DecryptCbc(buffer, buffer, length, dk, iv');
    CountWhole(Count(length));
    BlocksOfSpelled(c, Seal(Sealing(ek), v, Blocks(m)));
    CbcRoundTrip(ek, dk, v, m, c, buffer[..length]);
  }

  /** Bytes that spell whole blocks, with more bytes behind them. */
  lemma SpellsConcat(c: seq<Byte>, bs: seq<Block>, c': seq<Byte>, bs': seq<Block>)
    requires Spells(c, bs) && |c| == 8 * |bs| && Spells(c', bs')
    ensures Spells(c + c', bs + bs')
  {
    hide Store;
    assert Count(|c + c'|) == |bs| + Count(|c'|);
    forall j | 0 <= j < |bs + bs'|
      ensures Slice(c + c', j) == Store((bs + bs')[j])[..|Slice(c + c', j)|]
    {
      SliceConcat(c, c', |bs|, j);
    }
  }

  lemma CountSum(n1: nat, n2: nat)
    requires n1 % 8 == 0
    ensures 8 * Count(n1) == n1 && Count(n1 + n2) == Count(n1) + Count(n2)
  {
  }

  /** The same bytes in one call and in two, the second going on with the vector the first left: the
      ciphertexts are the same, and so is the vector in the end. */
  method EncryptInTwo(whole: array<Byte>, first: array<Byte>, second: array<Byte>, n1: nat, n2: nat,
                      ks: Schedule, iv: array<Byte>, iv': array<Byte>)
    requires n1 % 8 == 0 && n1 <= first.Length && 8 * Count(n2) <= second.Length && n1 + 8 * Count(n2) <= whole.Length
    requires whole[..n1 + n2] == first[..n1] + second[..n2]
    requires iv.Length == 8 && iv'.Length == 8 && iv[..] == iv'[..] && iv != iv'
    requires iv !in [whole, first, second] && iv' !in [whole, first, second]
    requires whole != first && whole != second && first != second
    modifies whole, first, second, iv, iv'
    ensures whole[..n1 + 8 * Count(n2)] == first[..n1] + second[..8 * Count(n2)]
    ensures iv[..] == iv'[..]
  {
    hide Spells, Load, Store, Sealing, Seal, Blocks, Count;
    ghost var v, m, m' := Load(iv[..]), first[..n1], second[..n2];
    ghost var cs := Seal(Sealing(ks), v, Blocks(m));
    CountSum(n1, n2);
    EncryptCbc(whole, whole, n1 + n2, ks, iv);
    EncryptCbc(first, first, n1, ks, iv');
    ghost var c := first[..n1];
    LoadStore(Last(v, cs));
    ghost var cs' := Seal(Sealing(ks), Last(v, cs), Blocks(m'));
    EncryptCbc(second, second, n2, ks, iv');
    ghost var c' := second[..8 * Count(n2)];
    assert first[..n1] == c;
    CbcConcat(ks, v, m, m');
    SpellsConcat(c, cs, c', cs');
    SpellsUnique(whole[..n1 + 8 * Count(n2)], c + c', cs + cs');
  }

  /** The same for opening. */
  method DecryptInTwo(whole: array<Byte>, first: array<Byte>, second: array<Byte>, n1: nat, n2: nat,
                      ks: Schedule, iv: array<Byte>, iv': array<Byte>)
    requires n1 % 8 == 0 && n1 <= first.Length && 8 * Count(n2) <= second.Length && n1 + 8 * Count(n2) <= whole.Length
    requires whole[..n1 + 8 * Count(n2)] == first[..n1] + second[..8 * Count(n2)]
    requires iv.Length == 8 && iv'.Length == 8 && iv[..] == iv'[..] && iv != iv'
    requires iv !in [whole, first, second] && iv' !in [whole, first, second]
    requires whole != first && whole != second && first != second
    modifies whole, first, second, iv, iv'
    ensures whole[..n1 + n2] == first[..n1] + second[..n2]
    ensures iv[..] == iv'[..]
  {
    hide Spells, Load, Store, Opening, Open, Blocks, Count;
    ghost var v, c, c' := Load(iv[..]), first[..n1], second[..8 * Count(n2)];
    ghost var ps := Open(Opening(ks), v, Blocks(c));
    CountSum(n1, n2);
    DecryptCbc(whole, whole, n1 + n2, ks, iv);
    DecryptCbc(first, first, n1, ks, iv');
    ghost var m := first[..n1];
    LoadStore(Last(v, Blocks(c)));
    ghost var ps' := Open(Opening(ks), Last(v, Blocks(c)), Blocks(c'));
    DecryptCbc(second, second, n2, ks, iv');
    ghost var m' := second[..n2];
    assert first[..n1] == m;
    CbcOpenConcat(ks, v, c, c');
    BlocksConcat(c, c');
    SpellsConcat(m, ps, m', ps');
    SpellsUnique(whole[..n1 + n2], m + m', ps + ps');
  }
}
