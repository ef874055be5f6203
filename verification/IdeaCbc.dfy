/** Cipher block chaining over IDEA, with a last partial block that is padded with zeros before
    encryption and cut off after decryption. */
module IdeaCbc {
  import opened Bits
  import opened IdeaCipher
  import opened Chaining

  /** A block as two big-endian 32-bit halves. */
  datatype Block = Block(hi: Word32, lo: Word32)

  function BigEndian32(a: Byte, b: Byte, c: Byte, d: Byte): (r: Word32)
    ensures r == ((a as int * 0x100 + b) * 0x100 + c) * 0x100 + d
  {
    a as int * 0x100_0000 + b as int * 0x1_0000 + c as int * 0x100 + d
  }

  function Bytes32(l: Word32): (s: seq<Byte>)
    ensures |s| == 4
  {
    [l / 0x100_0000, l / 0x1_0000 % 0x100, l / 0x100 % 0x100, l % 0x100]
  }

  lemma DigitsOfWord(l: int)
    ensures l == ((l / 0x100_0000 * 0x100 + l / 0x1_0000 % 0x100) * 0x100 + l / 0x100 % 0x100) * 0x100 + l % 0x100
  {
    var x := l / 0x100;
    var y := x / 0x100;
    assert l / 0x1_0000 == y;
    assert l / 0x100_0000 == y / 0x100;
  }

  lemma WordOfDigits(a: int, b: int, c: int, d: int)
    requires 0 <= a < 0x100 && 0 <= b < 0x100 && 0 <= c < 0x100 && 0 <= d < 0x100
    ensures var r := ((a * 0x100 + b) * 0x100 + c) * 0x100 + d;
            r / 0x100_0000 == a && r / 0x1_0000 % 0x100 == b && r / 0x100 % 0x100 == c && r % 0x100 == d
  {
  }

  lemma LoadStore32(l: Word32)
    ensures var s := Bytes32(l); BigEndian32(s[0], s[1], s[2], s[3]) == l
  {
    DigitsOfWord(l);
  }

  lemma StoreLoad32(a: Byte, b: Byte, c: Byte, d: Byte)
    ensures Bytes32(BigEndian32(a, b, c, d)) == [a, b, c, d]
  {
    WordOfDigits(a, b, c, d);
  }

  function Load(s: seq<Byte>): Block
    requires |s| == 8
  {
    Block(BigEndian32(s[0], s[1], s[2], s[3]), BigEndian32(s[4], s[5], s[6], s[7]))
  }

  function Store(b: Block): (s: seq<Byte>)
    ensures |s| == 8
  {
    Bytes32(b.hi) + Bytes32(b.lo)
  }

  lemma LoadStore(b: Block)
    ensures Load(Store(b)) == b
  {
    hide BigEndian32, Bytes32;
    LoadStore32(b.hi);
    LoadStore32(b.lo);
  }

  lemma StoreLoad(s: seq<Byte>)
    requires |s| == 8
    ensures Store(Load(s)) == s
  {
    hide BigEndian32, Bytes32;
    StoreLoad32(s[0], s[1], s[2], s[3]);
    StoreLoad32(s[4], s[5], s[6], s[7]);
  }

  function Xor32(a: Word32, b: Word32): Word32 {
    Pow2Values();
    XorBound(a, b, 32);
    Xor(a, b)
  }

  function BlockXor(a: Block, b: Block): Block {
    Block(Xor32(a.hi, b.hi), Xor32(a.lo, b.lo))
  }

  lemma BlockXorTwice(a: Block, b: Block)
    ensures BlockXor(BlockXor(a, b), b) == a
  {
    XorTwice(a.hi, b.hi);
    XorTwice(a.lo, b.lo);
  }

  function ToState(b: Block): State {
    State(b.hi / 0x1_0000, b.hi % 0x1_0000, b.lo / 0x1_0000, b.lo % 0x1_0000)
  }

  function FromState(s: State): Block {
    Block(s.x1 as int * 0x1_0000 + s.x2, s.x3 as int * 0x1_0000 + s.x4)
  }

  function Encipher(b: Block, k: Schedule): Block {
    FromState(Crypt(ToState(b), k))
  }

  /** Mask with the chaining value, then encipher. */
  function Sealing(k: Schedule): Step<Block> {
    (iv, p) => Encipher(BlockXor(p, iv), k)
  }

  /** Decipher, then unmask with the chaining value. */
  function Opening(k: Schedule): Step<Block> {
    (iv, c) => BlockXor(Encipher(c, k), iv)
  }

  lemma DecipherEncipher(b: Block, ek: Schedule, dk: Schedule)
    requires IsDecryptSchedule(ek, dk)
    ensures Encipher(Encipher(b, ek), dk) == b
  {
    hide Crypt, IsDecryptSchedule;
    DecryptUndoesEncrypt(ToState(b), ek, dk);
    assert ToState(FromState(Crypt(ToState(b), ek))) == Crypt(ToState(b), ek);
  }

  /** Opening under the derived schedule undoes sealing. */
  lemma OpeningUndoesSealing(ek: Schedule, dk: Schedule)
    requires IsDecryptSchedule(ek, dk)
    ensures Undoes(Opening(dk), Sealing(ek))
  {
    hide Encipher, IsDecryptSchedule, BlockXor;
    forall iv, b
      ensures Opening(dk)(iv, Sealing(ek)(iv, b)) == b
    {
      DecipherEncipher(BlockXor(b, iv), ek, dk);
      BlockXorTwice(b, iv);
    }
  }

  // ----- Messages of any length

  /** How many blocks `n` bytes occupy. */
  function Count(n: nat): (c: nat)
    ensures n <= 8 * c < n + 8
  {
    (n + 7) / 8
  }

  /** The bytes of `m` that belong to block `j`; the last block may be short. */
  function Slice(m: seq<Byte>, j: nat): (s: seq<Byte>)
    requires 8 * j <= |m|
    ensures |s| == if 8 * j + 8 <= |m| then 8 else |m| - 8 * j
  {
    m[8 * j..if 8 * j + 8 <= |m| then 8 * j + 8 else |m|]
  }

  /** A message of up to eight bytes filled up with zeros. */
  function Pad(m: seq<Byte>): (s: seq<Byte>)
    requires |m| <= 8
    ensures |s| == 8
  {
    m + seq(8 - |m|, _ => 0)
  }

  function BlockAt(m: seq<Byte>, j: nat): Block
    requires 8 * j <= |m|
  {
    Load(Pad(Slice(m, j)))
  }

  /** The blocks of a message, the last one padded with zeros. */
  function Blocks(m: seq<Byte>): (bs: seq<Block>)
    ensures |bs| == Count(|m|)
  {
    seq(Count(|m|), j requires 0 <= j < Count(|m|) => BlockAt(m, j))
  }

  /** The bytes of `m` are those of the blocks `bs`, as far as they reach. */
  ghost predicate Spells(m: seq<Byte>, bs: seq<Block>) {
    |bs| == Count(|m|) && forall j | 0 <= j < |bs| :: Slice(m, j) == Store(bs[j])[..|Slice(m, j)|]
  }

  /** What `EncryptCbc` sends for `m`: whole blocks, each sealed under the one before. */
  ghost predicate IsCiphertext(k: Schedule, iv: Block, m: seq<Byte>, c: seq<Byte>) {
    |c| == 8 * Count(|m|) && Spells(c, Seal(Sealing(k), iv, Blocks(m)))
  }

  /** What `DecryptCbc` returns for `c`: as many bytes of the opened blocks as were asked for. */
  ghost predicate IsPlaintext(k: Schedule, iv: Block, c: seq<Byte>, m: seq<Byte>) {
    |c| == 8 * Count(|m|) && Spells(m, Open(Opening(k), iv, Blocks(c)))
  }

  /** Whole blocks are read back as they were spelled. */
  lemma BlocksOfSpelled(c: seq<Byte>, bs: seq<Block>)
    requires Spells(c, bs) && |c| == 8 * |bs|
    ensures Blocks(c) == bs
  {
    forall j | 0 <= j < |bs|
      ensures BlockAt(c, j) == bs[j]
    {
      hide Load, Store;
      assert Slice(c, j) == Store(bs[j])[..8];
      assert Pad(Slice(c, j)) == Slice(c, j);
      LoadStore(bs[j]);
    }
  }

  lemma SpellsBlocks(m: seq<Byte>)
    ensures Spells(m, Blocks(m))
  {
    forall j | 0 <= j < Count(|m|)
      ensures Slice(m, j) == Store(Blocks(m)[j])[..|Slice(m, j)|]
    {
      hide Load, Store;
      StoreLoad(Pad(Slice(m, j)));
    }
  }

  /** Blocks and a length determine the bytes. */
  lemma SpellsUnique(m: seq<Byte>, m': seq<Byte>, bs: seq<Block>)
    requires |m| == |m'| && Spells(m, bs) && Spells(m', bs)
    ensures m == m'
  {
    hide Store;
    forall i | 0 <= i < |m|
      ensures m[i] == m'[i]
    {
      var j := i / 8;
      assert m[i] == Slice(m, j)[i - 8 * j] && m'[i] == Slice(m', j)[i - 8 * j];
    }
  }

  /** Decryption under the derived schedule returns every message, whatever its length. */
  lemma CbcRoundTrip(ek: Schedule, dk: Schedule, iv: Block, m: seq<Byte>, c: seq<Byte>, m': seq<Byte>)
    requires IsDecryptSchedule(ek, dk)
    requires IsCiphertext(ek, iv, m, c)
    requires |m'| == |m| && IsPlaintext(dk, iv, c, m')
    ensures m' == m
  {
    hide Sealing, Opening, Spells;
    var cs := Seal(Sealing(ek), iv, Blocks(m));
    BlocksOfSpelled(c, cs);
    OpeningUndoesSealing(ek, dk);
    OpenSeal(Sealing(ek), Opening(dk), iv, Blocks(m));
    SpellsBlocks(m);
    SpellsUnique(m, m', Blocks(m));
  }

  /** One block of the chain: masked with what came before it and enciphered ... */
  ghost predicate Sealed(k: Schedule, v: Block, p: Block, c: Block) {
    c == FromState(Crypt(ToState(Block(Xor32(p.hi, v.hi), Xor32(p.lo, v.lo))), k))
  }

  /** ... or deciphered and unmasked. */
  ghost predicate Opened(k: Schedule, v: Block, c: Block, p: Block) {
    var q := FromState(Crypt(ToState(c), k));
    p == Block(Xor32(q.hi, v.hi), Xor32(q.lo, v.lo))
  }

  /** The eight bytes of block `j`, zeros after the end of the message. */
  ghost predicate Padded(m: seq<Byte>, j: nat, p: seq<Byte>) {
    |p| == 8 && forall i | 0 <= i < 8 :: p[i] == if 8 * j + i < |m| then m[8 * j + i] else 0
  }

  /** Section 6.2 of NIST SP 800-38A, block by block: `cs` starts with the vector and goes on with the
      ciphertext. */
  lemma CbcLaw(k: Schedule, iv: Block, m: seq<Byte>, c: seq<Byte>) returns (ps: seq<Block>, cs: seq<Block>)
    requires IsCiphertext(k, iv, m, c)
    ensures |cs| == |ps| + 1 && cs[0] == iv && |c| == 8 * |ps| && |m| <= |c| < |m| + 8
    ensures forall j | 0 <= j < |ps| :: Padded(m, j, Store(ps[j]))
    ensures forall j | 0 < j <= |ps| :: Padded(c, j - 1, Store(cs[j]))
    ensures forall j | 0 <= j < |ps| :: Sealed(k, cs[j], ps[j], cs[j + 1])
  {
    hide Load, Store, Crypt, Xor32, FromState, ToState;
    ps := Blocks(m);
    var s := Seal(Sealing(k), iv, ps);
    cs := [iv] + s;
    forall j | 0 <= j < |ps|
      ensures Padded(m, j, Store(ps[j])) && Sealed(k, cs[j], ps[j], cs[j + 1])
    {
      StoreLoad(Pad(Slice(m, j)));
      SealAt(Sealing(k), iv, ps, j);
    }
    forall j | 0 < j <= |ps|
      ensures Padded(c, j - 1, Store(cs[j]))
    {
      assert Slice(c, j - 1) == Store(s[j - 1])[..8];
    }
  }

  lemma CbcOpenLaw(k: Schedule, iv: Block, c: seq<Byte>, m: seq<Byte>) returns (cs: seq<Block>, ps: seq<Block>)
    requires IsPlaintext(k, iv, c, m)
    ensures |cs| == |ps| + 1 && cs[0] == iv && |c| == 8 * |ps| && |m| <= |c| < |m| + 8
    ensures forall j | 0 < j <= |ps| :: Padded(c, j - 1, Store(cs[j]))
    ensures forall j, i | 0 <= j < |ps| && 0 <= i < 8 && 8 * j + i < |m| :: m[8 * j + i] == Store(ps[j])[i]
    ensures forall j | 0 <= j < |ps| :: Opened(k, cs[j], cs[j + 1], ps[j])
  {
    hide Load, Store, Crypt, Xor32, FromState, ToState;
    var s := Blocks(c);
    cs := [iv] + s;
    ps := Open(Opening(k), iv, s);
    forall j | 0 <= j < |ps|
      ensures Opened(k, cs[j], cs[j + 1], ps[j])
    {
      OpenAt(Opening(k), iv, s, j);
      assert Opening(k)(cs[j], s[j]) == BlockXor(Encipher(s[j], k), cs[j]);
    }
    forall j | 0 < j <= |ps|
      ensures Padded(c, j - 1, Store(cs[j]))
    {
      StoreLoad(Pad(Slice(c, j - 1)));
    }
    forall j, i | 0 <= j < |ps| && 0 <= i < 8 && 8 * j + i < |m|
      ensures m[8 * j + i] == Store(ps[j])[i]
    {
      assert Slice(m, j)[i] == m[8 * j + i];
    }
  }

  lemma SliceConcat(m: seq<Byte>, m': seq<Byte>, n: nat, j: nat)
    requires |m| == 8 * n && 8 * j <= |m + m'|
    ensures j < n ==> Slice(m + m', j) == Slice(m, j)
    ensures j >= n ==> Slice(m + m', j) == Slice(m', j - n)
  {
  }

  lemma BlocksConcat(m: seq<Byte>, m': seq<Byte>)
    requires |m| % 8 == 0
    ensures Blocks(m + m') == Blocks(m) + Blocks(m')
  {
    hide Load;
    var n := |m| / 8;
    assert Count(|m|) == n && Count(|m + m'|) == n + Count(|m'|);
    forall j | 0 <= j < Count(|m + m'|)
      ensures Blocks(m + m')[j] == (Blocks(m) + Blocks(m'))[j]
    {
      SliceConcat(m, m', n, j);
    }
  }

  /** Two calls chained through the returned vector equal one call on the concatenation. */
  lemma CbcConcat(k: Schedule, iv: Block, m: seq<Byte>, m': seq<Byte>)
    requires |m| % 8 == 0
    ensures var cs := Seal(Sealing(k), iv, Blocks(m));
            Seal(Sealing(k), iv, Blocks(m + m')) == cs + Seal(Sealing(k), Last(iv, cs), Blocks(m'))
  {
    hide Sealing, Blocks;
    BlocksConcat(m, m');
    SealConcat(Sealing(k), iv, Blocks(m), Blocks(m'));
  }

  lemma CbcOpenConcat(k: Schedule, iv: Block, c: seq<Byte>, c': seq<Byte>)
    requires |c| % 8 == 0
    ensures Open(Opening(k), iv, Blocks(c + c'))
         == Open(Opening(k), iv, Blocks(c)) + Open(Opening(k), Last(iv, Blocks(c)), Blocks(c'))
  {
    hide Opening, Blocks;
    BlocksConcat(c, c');
    OpenConcat(Opening(k), iv, Blocks(c), Blocks(c'));
  }
}
