/** Table DES on byte blocks, and the in-place decryption loop of two-key triple DES in CBC mode,
    which remembers the last ciphertext block in one of two slots while it overwrites it. */
module TableDesCbc {
  import opened Common
  import opened Chaining
  import Feistel
  import opened TableDes

  type Byte = bv8

  type ByteBlock = s: seq<Byte> | |s| == 8 witness [0, 0, 0, 0, 0, 0, 0, 0]

  /** Four bytes, the first one lowest. */
  function Get32(a: Byte, b: Byte, c: Byte, d: Byte): bv32 {
    (a as bv32) | ((b as bv32) << 8) | ((c as bv32) << 16) | ((d as bv32) << 24)
  }

  function Put32(l: bv32): (s: seq<Byte>)
    ensures |s| == 4
  {
    [(l & 0xff) as Byte, ((l >> 8) & 0xff) as Byte, ((l >> 16) & 0xff) as Byte, ((l >> 24) & 0xff) as Byte]
  }

  lemma GetPut(l: bv32)
    ensures var s := Put32(l); Get32(s[0], s[1], s[2], s[3]) == l
  {
  }

  lemma PutGet(a: Byte, b: Byte, c: Byte, d: Byte)
    ensures Put32(Get32(a, b, c, d)) == [a, b, c, d]
  {
  }

  function Load(s: ByteBlock): Feistel.Block<bv32> {
    Feistel.Block(Get32(s[0], s[1], s[2], s[3]), Get32(s[4], s[5], s[6], s[7]))
  }

  function Store(b: Feistel.Block<bv32>): (s: ByteBlock) {
    Put32(b.l) + Put32(b.r)
  }

  lemma LoadStore(b: Feistel.Block<bv32>)
    ensures Load(Store(b)) == b
  {
    hide Get32, Put32;
    GetPut(b.l);
    GetPut(b.r);
  }

  lemma StoreLoad(s: ByteBlock)
    ensures Store(Load(s)) == s
  {
    hide Get32, Put32;
    PutGet(s[0], s[1], s[2], s[3]);
    PutGet(s[4], s[5], s[6], s[7]);
  }

  function DesBlock(f: RoundFunction, ks: Schedule, encrypt: bool, s: ByteBlock): ByteBlock {
    Store(Crypt(f, ks, encrypt, Load(s)))
  }

  lemma DesBlockInverse(f: RoundFunction, ks: Schedule, encrypt: bool, s: ByteBlock)
    ensures DesBlock(f, ks, !encrypt, DesBlock(f, ks, encrypt, s)) == s
  {
    hide Load, Store, Crypt;
    LoadStore(Crypt(f, ks, encrypt, Load(s)));
    CryptInverse(f, ks, encrypt, Load(s));
    StoreLoad(s);
  }

  /** Encrypt, decrypt, encrypt with the first, the second and again the first key. */
  function EdeEncrypt(f: RoundFunction, ks1: Schedule, ks2: Schedule, s: ByteBlock): ByteBlock {
    DesBlock(f, ks1, true, DesBlock(f, ks2, false, DesBlock(f, ks1, true, s)))
  }

  function EdeDecrypt(f: RoundFunction, ks1: Schedule, ks2: Schedule, s: ByteBlock): ByteBlock {
    DesBlock(f, ks1, false, DesBlock(f, ks2, true, DesBlock(f, ks1, false, s)))
  }

  lemma EdeInverse(f: RoundFunction, ks1: Schedule, ks2: Schedule, s: ByteBlock)
    ensures EdeDecrypt(f, ks1, ks2, EdeEncrypt(f, ks1, ks2, s)) == s
  {
    hide DesBlock;
    var a := DesBlock(f, ks1, true, s);
    var b := DesBlock(f, ks2, false, a);
    DesBlockInverse(f, ks1, true, b);
    DesBlockInverse(f, ks2, false, a);
    DesBlockInverse(f, ks1, true, s);
  }

  function XorBlock(a: ByteBlock, b: ByteBlock): (r: ByteBlock)
    ensures forall j | 0 <= j < 8 :: r[j] == a[j] ^ b[j]
  {
    seq(8, j requires 0 <= j < 8 => a[j] ^ b[j])
  }

  lemma XorByteTwice(a: Byte, b: Byte)
    ensures (a ^ b) ^ b == a
  {
  }

  lemma XorBlockTwice(a: ByteBlock, b: ByteBlock)
    ensures XorBlock(XorBlock(a, b), b) == a
  {
    var r := XorBlock(XorBlock(a, b), b);
    forall j | 0 <= j < 8
      ensures r[j] == a[j]
    {
      XorByteTwice(a[j], b[j]);
    }
  }

  function Sealing(f: RoundFunction, ks1: Schedule, ks2: Schedule): Step<ByteBlock> {
    (iv, p) => EdeEncrypt(f, ks1, ks2, XorBlock(p, iv))
  }

  function Opening(f: RoundFunction, ks1: Schedule, ks2: Schedule): Step<ByteBlock> {
    (iv, c) => XorBlock(EdeDecrypt(f, ks1, ks2, c), iv)
  }

  lemma OpeningUndoesSealing(f: RoundFunction, ks1: Schedule, ks2: Schedule)
    ensures Undoes(Opening(f, ks1, ks2), Sealing(f, ks1, ks2))
  {
    forall iv, p
      ensures Opening(f, ks1, ks2)(iv, Sealing(f, ks1, ks2)(iv, p)) == p
    {
      hide EdeEncrypt, EdeDecrypt, XorBlock;
      EdeInverse(f, ks1, ks2, XorBlock(p, iv));
      XorBlockTwice(p, iv);
    }
  }

  /** What was chained under the two keys is read back. */
  lemma EdeCbcRoundTrip(f: RoundFunction, ks1: Schedule, ks2: Schedule, iv: ByteBlock, ps: seq<ByteBlock>)
    ensures Open(Opening(f, ks1, ks2), iv, Seal(Sealing(f, ks1, ks2), iv, ps)) == ps
  {
    hide Opening, Sealing;
    OpeningUndoesSealing(f, ks1, ks2);
    OpenSeal(Sealing(f, ks1, ks2), Opening(f, ks1, ks2), iv, ps);
  }

  // ----- In place

  function BlockAt(m: seq<Byte>, j: nat): ByteBlock
    requires 8 * j + 8 <= |m|
  {
    m[8 * j..8 * j + 8]
  }

  /** The whole blocks of a buffer. */
  function Blocks(m: seq<Byte>): (bs: seq<ByteBlock>)
    ensures |bs| == |m| / 8
  {
    seq(|m| / 8, j requires 0 <= j < |m| / 8 => BlockAt(m, j))
  }

  method PutAt(data: array<Byte>, at: nat, l: bv32)
    requires at + 4 <= data.Length
    modifies data
    ensures data[at..at + 4] == Put32(l)
    ensures forall i | 0 <= i < at || at + 4 <= i < data.Length :: data[i] == old(data[i])
  {
    data[at] := (l & 0xff) as Byte;
    data[at + 1] := ((l >> 8) & 0xff) as Byte;
    data[at + 2] := ((l >> 16) & 0xff) as Byte;
    data[at + 3] := ((l >> 24) & 0xff) as Byte;
  }

  method Des(data: array<Byte>, at: nat, ks: Schedule, f: RoundFunction, encrypt: bool)
    requires at + 8 <= data.Length
    modifies data
    ensures data[at..at + 8] == DesBlock(f, ks, encrypt, old(data[at..at + 8]))
    ensures forall i | 0 <= i < at || at + 8 <= i < data.Length :: data[i] == old(data[i])
  {
    hide Crypt, Get32;
    ghost var s: ByteBlock := data[at..at + 8];
    var ll := new bv32[2];
    ll[0] := Get32(data[at], data[at + 1], data[at + 2], data[at + 3]);
    ll[1] := Get32(data[at + 4], data[at + 5], data[at + 6], data[at + 7]);
    EncryptInt(ll, ks, f, encrypt);
    PutAt(data, at, ll[0]);
    PutAt(data, at + 4, ll[1]);
    assert data[at..at + 8] == data[at..at + 4] + data[at + 4..at + 8];
  }

  /** Decrypt, encrypt, decrypt in place. */
  method EdeInPlace(data: array<Byte>, at: nat, ks1: Schedule, ks2: Schedule, f: RoundFunction)
    requires at + 8 <= data.Length
    modifies data
    ensures data[at..at + 8]
         == DesBlock(f, ks1, false, DesBlock(f, ks2, true, DesBlock(f, ks1, false, old(data[at..at + 8]))))
    ensures forall i | 0 <= i < at || at + 8 <= i < data.Length :: data[i] == old(data[i])
  {
    hide DesBlock;
    Des(data, at, ks1, f, false);
    Des(data, at, ks2, f, true);
    Des(data, at, ks1, f, false);
  }

  method XorInPlace(data: array<Byte>, at: nat, slots: array<Byte>, from: nat)
    requires at + 8 <= data.Length && from + 8 <= slots.Length && data != slots
    modifies data
    ensures data[at..at + 8] == XorBlock(old(data[at..at + 8]), slots[from..from + 8])
    ensures forall i | 0 <= i < at || at + 8 <= i < data.Length :: data[i] == old(data[i])
  {
    var j := 0;
    while j < 8
      invariant 0 <= j <= 8
      invariant forall k | at <= k < at + j :: data[k] == old(data[k]) ^ slots[from + (k - at)]
      invariant forall k | at + j <= k < at + 8 :: data[k] == old(data[k])
      invariant forall i | 0 <= i < at || at + 8 <= i < data.Length :: data[i] == old(data[i])
    {
      data[at + j] := data[at + j] ^ slots[from + j];
      j := j + 1;
    }
  }

  /** One pass: slot `n` holds the ciphertext block before, the other one takes this block's. */
  method OpenInPlace(data: array<Byte>, at: nat, civ: array<Byte>, n: nat, ks1: Schedule, ks2: Schedule,
                     f: RoundFunction)
    requires at + 8 <= data.Length && civ.Length == 16 && civ != data && n < 2
    modifies data, civ
    ensures data[at..at + 8] == Opening(f, ks1, ks2)(old(civ[8 * n..8 * n + 8]), old(data[at..at + 8]))
    ensures civ[8 * (1 - n)..8 * (1 - n) + 8] == old(data[at..at + 8])
    ensures forall i | 0 <= i < at || at + 8 <= i < data.Length :: data[i] == old(data[i])
  {
    hide DesBlock, XorBlock;
    ghost var c: ByteBlock, v := data[at..at + 8], civ[8 * n..8 * n + 8];
    Put(civ, 8 * (1 - n), data[at..at + 8]);
    assert civ[8 * n..8 * n + 8] == v && data[at..at + 8] == c;
    EdeInPlace(data, at, ks1, ks2, f);
    assert data[at..at + 8] == EdeDecrypt(f, ks1, ks2, c);
    XorInPlace(data, at, civ, 8 * n);
  }

  /** The first `n` blocks of `bs` stand at the start of `m`. */
  ghost predicate Stored(m: seq<Byte>, bs: seq<ByteBlock>, n: nat) {
    n <= |bs| && 8 * n <= |m| && forall j | 0 <= j < n :: BlockAt(m, j) == bs[j]
  }

  lemma StoredOneMore(before: seq<Byte>, after: seq<Byte>, bs: seq<ByteBlock>, n: nat)
    requires Stored(before, bs, n) && n < |bs| && 8 * n + 8 <= |after| && |before| == |after|
    requires forall i | 0 <= i < 8 * n :: before[i] == after[i]
    requires after[8 * n..8 * n + 8] == bs[n]
    ensures Stored(after, bs, n + 1)
  {
    forall j | 0 <= j < n
      ensures BlockAt(after, j) == bs[j]
    {
      assert BlockAt(before, j) == bs[j];
      assert after[8 * j..8 * j + 8] == before[8 * j..8 * j + 8];
    }
  }

  lemma StoredAll(m: seq<Byte>, bs: seq<ByteBlock>, n: nat)
    requires Stored(m, bs, n) && n == |bs|
    ensures Blocks(m[..8 * n]) == bs
  {
    forall j | 0 <= j < n
      ensures BlockAt(m[..8 * n], j) == bs[j]
    {
      assert BlockAt(m, j) == bs[j];
      assert m[..8 * n][8 * j..8 * j + 8] == m[8 * j..8 * j + 8];
    }
  }

  /** The plaintext blocks of a buffer. */
  function Opened(f: RoundFunction, ks1: Schedule, ks2: Schedule, iv: ByteBlock, m: seq<Byte>): (ps: seq<ByteBlock>)
    ensures |ps| == |m| / 8
  {
    Open(Opening(f, ks1, ks2), iv, Blocks(m))
  }

  lemma BlockIs(m: seq<Byte>, j: nat)
    requires 8 * j + 8 <= |m|
    ensures j < |Blocks(m)| && Blocks(m)[j] == m[8 * j..8 * j + 8]
  {
  }

  /** The plaintext block by block: decrypted under the first key, encrypted under the second, decrypted under the
      first, and masked with the ciphertext before it or the vector. */
  ghost predicate OpenedBlock(f: RoundFunction, ks1: Schedule, ks2: Schedule, v: ByteBlock, c: ByteBlock,
                              p: ByteBlock) {
    var q := DesBlock(f, ks1, false, DesBlock(f, ks2, true, DesBlock(f, ks1, false, c)));
    forall i | 0 <= i < 8 :: p[i] == q[i] ^ v[i]
  }

  lemma OpenedEquations(f: RoundFunction, ks1: Schedule, ks2: Schedule, iv: ByteBlock, m: seq<Byte>)
    returns (ps: seq<ByteBlock>, cs: seq<ByteBlock>)
    ensures ps == Opened(f, ks1, ks2, iv, m) && |cs| == |ps| + 1 && |ps| == |m| / 8 && cs[0] == iv
    ensures forall j | 0 < j <= |ps| :: cs[j] == m[8 * j - 8..8 * j]
    ensures forall j | 0 <= j < |ps| :: OpenedBlock(f, ks1, ks2, cs[j], cs[j + 1], ps[j])
  {
    hide DesBlock, Open;
    ps := Opened(f, ks1, ks2, iv, m);
    cs := [iv] + Blocks(m);
    forall j | 0 < j <= |ps|
      ensures cs[j] == m[8 * j - 8..8 * j]
    {
      BlockIs(m, j - 1);
    }
    forall j | 0 <= j < |ps|
      ensures OpenedBlock(f, ks1, ks2, cs[j], cs[j + 1], ps[j])
    {
      OpenAt(Opening(f, ks1, ks2), iv, Blocks(m), j);
      assert ps[j] == XorBlock(EdeDecrypt(f, ks1, ks2, cs[j + 1]), cs[j]);
    }
  }

  /** The loop body, keeping track of which blocks are done. */
  method OpenNext(data: array<Byte>, i: nat, civ: array<Byte>, n: nat, ks1: Schedule, ks2: Schedule, f: RoundFunction,
                  ghost v: ByteBlock, ghost m: seq<Byte>, ghost j: nat)
    requires i == 8 * j && i + 8 <= |m| <= data.Length && civ.Length == 16 && civ != data && n < 2
    requires civ[8 * n..8 * n + 8] == Last(v, Blocks(m)[..j])
    requires Stored(data[..], Opened(f, ks1, ks2, v, m), j)
    requires forall k | i <= k < |m| :: data[k] == m[k]
    modifies data, civ
    ensures civ[8 * (1 - n)..8 * (1 - n) + 8] == Last(v, Blocks(m)[..j + 1])
    ensures Stored(data[..], Opened(f, ks1, ks2, v, m), j + 1)
    ensures forall k | i + 8 <= k < data.Length :: data[k] == old(data[k])
  {
    hide Opening, Stored;
    ghost var cs, before := Blocks(m), data[..];
    BlockIs(m, j);
    OpenAt(Opening(f, ks1, ks2), v, cs, j);
    hide Open, Blocks;
    assert data[i..i + 8] == m[i..i + 8];
    OpenInPlace(data, i, civ, n, ks1, ks2, f);
    StoredOneMore(before, data[..], Opened(f, ks1, ks2, v, m), j);
  }

  lemma NothingStored(m: seq<Byte>, bs: seq<ByteBlock>)
    ensures Stored(m, bs, 0)
  {
  }

  method CopyIn(iv: array<Byte>, civ: array<Byte>)
    requires iv.Length == 8 && civ.Length == 16 && iv != civ
    modifies civ
    ensures civ[0..8] == iv[..]
  {
    Put(civ, 0, iv[..]);
    assert iv[0..8] == iv[..];
  }

  /** Of `len` bytes the whole blocks are decrypted in place, as the definition of the mode has it, and
      the rest is left alone. */
  method EdeCbcDecrypt(data: array<Byte>, iv: array<Byte>, ks1: Schedule, ks2: Schedule, len: nat, f: RoundFunction)
    requires len <= data.Length && iv.Length == 8
    modifies data
    ensures Blocks(data[..8 * (len / 8)]) == Opened(f, ks1, ks2, old(iv[..]), old(data[..8 * (len / 8)]))
    ensures forall i | 8 * (len / 8) <= i < data.Length :: data[i] == old(data[i])
  {
    hide Opening, Open, Blocks, Stored;
    var whole := len - len % 8;
    ghost var m := data[..whole];
    ghost var v: ByteBlock, cs := iv[..], Blocks(m);
    ghost var ps := Opened(f, ks1, ks2, v, m);
    var civ := new Byte[16](_ => 0);
    CopyIn(iv, civ);
    NothingStored(data[..], ps);
    var n := 0;
    var i := 0;
    ghost var j := 0;
    while i < whole
      invariant i == 8 * j <= whole && n < 2
      invariant fresh(civ) && civ.Length == 16
      invariant civ[8 * n..8 * n + 8] == Last(v, cs[..j])
      invariant Stored(data[..], ps, j)
      invariant forall k | i <= k < data.Length :: data[k] == old(data[k])
    {
      OpenNext(data, i, civ, n, ks1, ks2, f, v, m, j);
      i := i + 8;
      j := j + 1;
      n := 1 - n;
    }
    StoredAll(data[..], ps, j);
    assert data[..][..whole] == data[..whole];
  }
}
