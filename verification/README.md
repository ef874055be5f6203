# Verified model of a card sharing server's core algorithms

A Dafny model of the self-contained algorithms of a multi-client server written in C: its ciphers and
frame formats, its reference-counted client pool, its control word cache and request pipeline, its
session protocol, and some smaller codecs. What the source updates in place - cipher states, message
buffers, linked nodes, slots and counters - is updated in place here, by methods over arrays and class
fields that are proved against specification functions; input that is only read is a sequence, and a
macro or a short expression is a function. What the system relies on is proved about the specification
functions, over all inputs and over all runs.

`dafny verify dfyconfig.toml` checks the whole project.

## What is modelled

- **IDEA** (`Bits`, `IdeaGroup`, `IdeaCipher`, `Idea`, `IdeaKeys`, `Chaining`, `IdeaCbc`,
  `IdeaCbcBuffers`, `IdeaLaws`). The specification works on 16-bit words and a group of order 65536. The code works
  on 64-bit registers whose upper bits hold garbage, multiplies by a low-minus-high trick, inverts by
  Euclid's algorithm, derives the decryption schedule through moving indices, and chains blocks in the
  caller's buffers with a partial last block. What the cipher is, is said again as equations in which every
  subkey has its place, and by its published answer.
- **DES** (`Feistel`, `TableDes`, `TableDesCbc`, `TableDesBits`; `NcDesBits`, `NcDes`, `NcDesCode`, `NcDesLaws`).
  Two Feistel networks whose round functions are parameters, so that the inversion theorems hold for any tables: one permutes
  by delta swaps, the other by shifting bits through bytes and turns its key halves left by turning them
  right 27 times. Both are tied to FIPS 46-3: bit by bit for the permutations, round by round for the keys.
- **Newcamd frames** (`Newcamd`, `NewcamdCode`, `NewcamdKey`). Padding, checksum, chained triple DES and a
  trailing vector, all in one buffer, on whole frames; and the derivation of session keys, from mixing and
  spreading to the permuted choice of their bits.
- **RC4** (`Rc4`). A keystream that continues from message to message.
- **Client pool** (`PoolModel`, `ClientPool`). Each mutex section, close and free is an atomic step of a
  state machine. What threads still have to do is a ledger apart from the heap, so that they never meet
  freed memory is a theorem; the class performs the same steps on slots, counters and the heap.
- **Cache and request pipeline** (`CacheModel`, `CacheRuns`, `Cache`, `CacheLaws`, `HopControl`, `EcmModel`,
  `Ecm`, `EcmLaws`). The cache is a doubly linked list of heap nodes, proved to refine a list of entries, which is proved to
  refine an unbounded table. A request is two atomic steps, and steps of different requests interleave.
- **Session protocol** (`Wire`, `Session`, `SessionCode`, `SessionLaws`, `Nonces`, `Messages`, `MessagesCode`,
  `Framing`, `Traffic`). Two endpoints with messages under way in both directions; when a nonce comes back;
  builders, parser and payload formats; whole messages out of a byte stream that arrives in pieces of any size; and
  all of it joined.
- **Checksums, readers, codecs** (`Crc`, `CrcCode`, `Readers`, `ReadersCode`, `Base64`, `Sections`,
  `KnownAnswers`).

`Bits` and `Common` hold what several of these share.

AES, triple DES from the library, GCM and SHA-256 are parameters with the laws that are used
(`Session.Lawful`). Clock readings, random bytes, socket outcomes and readers' answers are parameters;
a clock never runs backwards.

## What the code does that one might not expect

- In GCM mode the message builders pass the cipher a capacity equal to a length that already includes the
  tag, so they always fail (`Messages.BuildSucceeds`). Encryption and decryption called directly are fine.
- A control word message is 27 bytes of payload, not a multiple of a block: it can be built only in clear
  and under RC4 (`Messages.CwModes`).
- The incremented hop is capped at the limit it is then compared with, so the server's own limit never
  blocks a request (`EcmModel.OnlyClientLimitBlocks`). A source hop of 255 wraps to a served hop of 0
  (`HopControl.IncrementMeaning`).
- The cache's comments speak of eviction by least recent use; a lookup does not move its entry, so the
  order is that of last addition (`CacheRuns.EvictsOldest`). The model follows the code.
- A message of fewer than two bytes cannot make the trip through the frame codec: its frame is too short
  for the receiver (`NewcamdCode.RoundTrip`).

## Model

| member | source | states |
|---|---|---|
| IdeaCipher.DecryptUndoesEncrypt | src/CCshare/cccam3_emu_idea.c:181-214 | for every block and every pair of schedules in the derived relation, eight and a half rounds under the one and then under the other return the block |
| IdeaCipher.EncryptUndoesDecrypt | src/CCshare/cccam3_emu_idea.c:181-214 | the same in the other order |
| IdeaCipher.Meet | src/CCshare/cccam3_emu_idea.c:117-144 | after n rounds of decryption the state is, up to the swap and key layer, that of encryption after 8 - n rounds; this is where the swapped inner words and the unswapped outer ones are needed |
| IdeaCipher.DecryptScheduleUnique | src/CCshare/cccam3_emu_idea.c:117-144 | the 52 words of the derived schedule are determined by the encryption schedule |
| IdeaCipher.DecryptScheduleSymmetric | src/CCshare/cccam3_emu_idea.c:117-144 | deriving twice returns the original: the relation is symmetric |
| IdeaCipher.MixInvolution | src/CCshare/cccam3_emu_idea.c:64-73 | the middle part of a round, with its multiply-add structure, undoes itself under the same two subkeys |
| IdeaGroup.MulUnit | src/CCshare/cccam3_emu_idea.c:5-13 | multiplication of words is the product modulo 65537 of their units, 0 standing for 65536, and never leaves the group |
| IdeaGroup.PrimeModulus | src/CCshare/cccam3_emu_idea.c:5-13 | 65537 has no divisor from 2 to 65536 |
| IdeaGroup.NoZeroDivisors | src/CCshare/cccam3_emu_idea.c:5-13 | a product is divisible by 65537 only if a factor is |
| IdeaGroup.MulAssoc | src/CCshare/cccam3_emu_idea.c:5-13 | word multiplication is associative |
| IdeaGroup.MulUndo | src/CCshare/cccam3_emu_idea.c:146-179 | multiplying by a key word and by its inverse returns the word |
| IdeaGroup.InverseUnique | src/CCshare/cccam3_emu_idea.c:146-179 | a word has one inverse |
| Idea.LowMinusHigh | src/CCshare/cccam3_emu_idea.c:5-13 | the remainder modulo 65537 of a nonzero product is its low half minus its high half, plus 65537 if that is negative |
| Idea.BorrowFolds | src/CCshare/cccam3_emu_idea.c:5-13 | on a wide register, subtracting the shifted difference folds the borrow in: the low 16 bits are that remainder |
| Idea.MulByZero | src/CCshare/cccam3_emu_idea.c:5-13 | with a zero operand the group product is one minus both operands modulo 65536 |
| Idea.IdeaMul | src/CCshare/cccam3_emu_idea.c:5-13 | the low 16 bits of the macro's result are the group product, for all words |
| Idea.AddWide | src/CCshare/cccam3_emu_idea.c:60-73 | an unmasked sum has the low bits of the sum of the low bits |
| Idea.XorWide | src/CCshare/cccam3_emu_idea.c:60-73 | the same for exclusive or |
| Idea.EIdea | src/CCshare/cccam3_emu_idea.c:57-73 | one round on registers with garbage above bit 15 computes one round of the equations below over exact words |
| Idea.EightRounds | src/CCshare/cccam3_emu_idea.c:181-207 | eight of them compute eight rounds and leave the key index at word 48 |
| Idea.Encrypt | src/CCshare/cccam3_emu_idea.c:181-214 | the cipher on wide registers, masked only at a few places, computes the cipher of the equations below and leaves 32-bit values |
| IdeaLaws.CryptEquations | src/CCshare/cccam3_emu_idea.c:57-73 | for every block and every schedule: each of the eight rounds is a solution of equations of units modulo 65537, sums modulo 65536 and exclusive or in which every subkey has its place, and so is the output layer |
| IdeaLaws.RoundUnique | src/CCshare/cccam3_emu_idea.c:57-73 | those equations have one solution |
| IdeaLaws.KnownAnswer | src/CCshare/cccam3_emu_idea.c:77-214 | the published answer: any schedule filled from the key words 1 to 8 seals the bytes of 0000 0001 0002 0003 as 11fb ed2b 0198 6de5 |
| IdeaKeys.Inverse | src/CCshare/cccam3_emu_idea.c:146-179 | the extended Euclid loop ends with the inverse in the group, in 0..65535, for every word including 0 |
| IdeaKeys.EuclidStep | src/CCshare/cccam3_emu_idea.c:156-172 | one pass keeps the invariant: Bezout relations, alternating signs and bounded coefficients |
| IdeaKeys.EuclidEnd | src/CCshare/cccam3_emu_idea.c:156-178 | when the remainder is used up the coefficient times the input is one modulo 65537, and it is in range before the final sign correction |
| IdeaKeys.SubKeyIsGroupWord | src/CCshare/cccam3_emu_idea.c:77-115 | word n of the schedule is 16 bits of the 128-bit key rotated left by 25 bits per group of eight |
| IdeaKeys.NextGroupRotates | src/CCshare/cccam3_emu_idea.c:92-114 | the shift-and-or expressions of one group rotate the whole 128-bit value by 25 bits |
| IdeaKeys.GroupRotates | src/CCshare/cccam3_emu_idea.c:92-114 | after g groups the rotation is by 25 g bits |
| IdeaKeys.FillGroup | src/CCshare/cccam3_emu_idea.c:92-114 | one pass writes the next group, of which only six words fit at the end, and leaves everything before it alone |
| IdeaKeys.SetEncryptKey | src/CCshare/cccam3_emu_idea.c:77-115 | the 54 words written are the subkeys of the rotated key |
| IdeaKeys.SetDecryptKey | src/CCshare/cccam3_emu_idea.c:117-144 | the schedule written stands in the derived relation to the encryption schedule |
| IdeaCbc.CbcRoundTrip | src/CCshare/cccam3_emu_idea.c:216-296 | for every length, a last partial block included, opening a sealed message under the derived schedule returns it; section 6.2 of NIST SP 800-38A |
| IdeaCbc.CbcConcat | src/CCshare/cccam3_emu_idea.c:216-255 | sealing a concatenation is sealing the first part and then the second with the returned vector, when the first is block-aligned |
| IdeaCbc.CbcOpenConcat | src/CCshare/cccam3_emu_idea.c:256-295 | the same for opening |
| IdeaCbc.CbcLaw | src/CCshare/cccam3_emu_idea.c:216-255 | section 6.2 of NIST SP 800-38A block by block: each block of the message, zeros after its end, is masked with the ciphertext before it or the vector, and enciphered |
| IdeaCbc.CbcOpenLaw | src/CCshare/cccam3_emu_idea.c:256-295 | each block of ciphertext is deciphered and masked with the one before it or the vector, and the message is as much of that as there is room for |
| IdeaCbc.OpeningUndoesSealing | src/CCshare/cccam3_emu_idea.c:216-296 | one chained block is undone by the opening step |
| IdeaCbc.LoadStore | src/CCshare/cccam3_emu_idea.c:44-52 | a block written to bytes reads back |
| IdeaCbc.StoreLoad | src/CCshare/cccam3_emu_idea.c:44-52 | eight bytes read as a block write back |
| IdeaCbcBuffers.ReadPartial | src/CCshare/cccam3_emu_idea.c:15-28 | the fall-through switch reads a short block as if padded with zeros |
| IdeaCbcBuffers.WritePartial | src/CCshare/cccam3_emu_idea.c:30-42 | its counterpart writes exactly the first n bytes of a block |
| IdeaCbcBuffers.EncryptCbc | src/CCshare/cccam3_emu_idea.c:216-255 | the encryption branch writes the chained blocks of the zero-padded message, also in place, and leaves the last one in the vector |
| IdeaCbcBuffers.DecryptCbc | src/CCshare/cccam3_emu_idea.c:256-295 | the decryption branch writes the opened blocks cut to the length, also in place, and leaves the last ciphertext block in the vector |
| IdeaCbcBuffers.InPlaceRoundTrip | src/CCshare/cccam3_emu_idea.c:216-296 | one buffer encrypted and decrypted in place under the derived schedule is unchanged, and both vectors end equal |
| IdeaCbcBuffers.EncryptInTwo | src/CCshare/cccam3_emu_idea.c:216-255 | the same bytes encrypted in one call and in two, the second going on with the vector the first left, give the same ciphertext and the same vector |
| IdeaCbcBuffers.DecryptInTwo | src/CCshare/cccam3_emu_idea.c:256-295 | the same for decryption |
| Chaining.OpenSeal | src/CCshare/cccam3_emu_idea.c:216-296 | cipher block chaining over any block step that is undone: opening undoes sealing |
| Chaining.SealConcat | src/CCshare/cccam3_emu_idea.c:216-255 | sealing two sequences in turn is sealing their concatenation |
| Chaining.OpenConcat | src/CCshare/cccam3_emu_des.c:904-929 | the same for opening |
| Rc4.AlwaysPermutation | src/network/cccam3_crypto.c:7-39 | key setup yields a permutation of 0..255 and every byte streamed keeps it one |
| Rc4.StreamConcat | src/network/cccam3_crypto.c:27-39 | streaming a concatenation is streaming the pieces in turn, and ends in the same state |
| Rc4.StreamTwice | src/network/cccam3_crypto.c:27-39 | two streams from equal states undo each other |
| Rc4.SetupEquations | src/network/cccam3_crypto.c:7-25 | key setup is 256 steps from the identity: the index moves by the entry and the key byte, the key taken cyclically, and the two entries trade places while all others stay |
| Rc4.StreamEquations | src/network/cccam3_crypto.c:27-39 | each byte moves the first index by one and the second by the entry found there, exchanges the two entries and is masked with the entry their sum points at |
| Rc4.Cipher.Init | src/network/cccam3_crypto.c:7-25 | in-place key setup computes the specified state, for keys of 1 to 256 bytes, and refuses others unchanged |
| Rc4.Cipher.Apply | src/network/cccam3_crypto.c:27-39 | the in-place loop writes the specified stream, advances the state by as many bytes and touches nothing else; without a key it refuses |
| PoolModel.RunSafe | src/core/cccam3_client.c:23-186 | over every interleaving of all threads' steps the invariant holds in every state and no step touches freed memory; what a thread may do depends on what it still has to do, never on the heap |
| PoolModel.StepInv | src/core/cccam3_client.c:23-142 | every section, close and free keeps the invariant |
| PoolModel.AllowedIsSafe | src/core/cccam3_client.c:23-186 | whatever a thread that still has something to do does, and whatever a search of the table does, touches allocated memory only |
| PoolModel.HoldersFindIt | src/core/cccam3_client.c:23-142 | a creator, the owner of a destroy, a holder of a reference and a thread told to close or free find the client allocated, in every reachable state |
| PoolModel.CountsExact | src/core/cccam3_client.c:31-142 | in every reachable state the counter equals the occupied slots, and a client's refs are the pool's own, until its destroy, plus the references handed out and not returned |
| PoolModel.ZombieGainsNothing | src/core/cccam3_client.c:23-29 | a client marked for removal stays marked and never gains a reference |
| PoolModel.FreedOnlyWhenUnheld | src/core/cccam3_client.c:104-110 | memory is freed only when no thread but the one freeing it has anything left to do with the client, it is in no slot, and its socket is closed or was never published |
| PoolModel.OneReport | src/core/cccam3_client.c:98-142 | at most one section per lifetime of a client tells its thread to free, and that thread alone is to close it |
| PoolModel.NoneForgotten | src/core/cccam3_client.c:73-142 | whenever every client has been destroyed and every reference returned, the table is empty and every client still allocated is one thread's to close or free |
| PoolModel.NothingLeaks | src/core/cccam3_client.c:73-142 | once no thread has anything left to do, nothing is allocated, every allocation of the run was freed and every socket closed exactly once |
| PoolModel.Drains | src/core/cccam3_client.c:104-142 | from every such state without users, steps of closing and freeing, each of them safe, lead to that end |
| PoolModel.SearchFindsFirst | src/core/cccam3_client.c:155-167 | the search by number, whatever the other slots hold, returns the client of the least slot that holds one with the number |
| PoolModel.SearchFindsNone | src/core/cccam3_client.c:155-167 | it returns nothing only if no slot holds one |
| ClientPool.Pool.Publish | src/core/cccam3_client.c:56-70 | the slot search publishes the client in the first free slot and counts it, or refuses; the new state is the model's step |
| ClientPool.Pool.Destroy | src/core/cccam3_client.c:85-102 | the destroy section removes the slot, drops the pool reference and says whether to free; the new state is the model's step |
| ClientPool.Pool.AcquireLocked | src/core/cccam3_client.c:23-29 | adds a reference unless the client is marked |
| ClientPool.Pool.Ref | src/core/cccam3_client.c:113-119 | returns a reference exactly if the client is not marked |
| ClientPool.Pool.Unref | src/core/cccam3_client.c:122-134 | drops a reference and says whether the caller must free |
| ClientPool.Pool.FindById | src/core/cccam3_client.c:155-167 | returns the client of the least slot that holds one with the number, with one more reference; it returns nothing, and takes none, exactly if no slot does |
| ClientPool.Pool.GetByIndexRef | src/core/cccam3_client.c:177-186 | returns the client of a slot with one more reference, or nothing, and takes none, if the index is out of range, the slot empty or the client marked |
| ClientPool.Pool.CloseSocket | src/core/cccam3_client.c:105-108 | a client's open socket is closed, once, before it is freed |
| ClientPool.Pool.IsFull | src/core/cccam3_client.c:32-35 | the counter is at its limit exactly if every slot is taken |
| ClientPool.Pool.Create | src/core/cccam3_client.c:31-71 | the client is in the table exactly if the counter read before was below the limit and a slot is free; otherwise nothing is left of it |
| ClientPool.Pool.DestroyWhole | src/core/cccam3_client.c:73-111 | section, then close, then free, the latter two exactly if the section said so |
| ClientPool.Pool.UnrefWhole | src/core/cccam3_client.c:122-143 | the same for the last holder of a reference |
| ClientPool.Pool.Release | src/core/cccam3_client.c:248-256 | the last reference closes the socket and frees the memory, an earlier one is only counted down |
| ClientPool.Pool.CloseAll | src/core/cccam3_client.c:219-258 | once nobody holds a reference, every slot is emptied, every client freed, and the calls of close made by the whole pool are exactly one for each socket opened |
| Feistel.ReversedRoundsUndo | src/CCshare/cccam3_emu_des.c:774-825 | for any round function whose mask is taken off by applying it twice, rounds under the reversed keys undo the rounds |
| TableDes.ExchangeTwice | src/CCshare/cccam3_emu_des.c:761-775 | a delta swap is its own inverse, for each of the five distances and masks |
| TableDes.FinalInitial | src/CCshare/cccam3_emu_des.c:761-780 | the final permutation undoes the initial one through the half swap and the rotations |
| TableDes.InitialFinal | src/CCshare/cccam3_emu_des.c:834-858 | and the other way round |
| TableDes.CryptInverse | src/CCshare/cccam3_emu_des.c:752-859 | for every block, every 32-word schedule and either direction, the opposite run returns the block |
| TableDes.CryptEquations | src/CCshare/cccam3_emu_des.c:785-838 | for every schedule and block: eighteen halves, the first two those of the permuted block, each other one the one two before it masked with what the round makes of the one before it, under subkey words 2 i and 2 i + 1 to encipher and 30 - 2 i and 31 - 2 i to decipher |
| TableDesBits.InitialTable | src/CCshare/cccam3_emu_des.c:762-783 | bit m + 1 of the permuted block is the bit the initial permutation of FIPS 46-3 names, counted over the eight bytes; it stands at place (m + 1) % 32 of its half |
| TableDes.EncryptInt | src/CCshare/cccam3_emu_des.c:752-859 | the unrolled in-place code with its two loops computes the function of the equations above |
| TableDesCbc.DesBlockInverse | src/CCshare/cccam3_emu_des.c:861-884 | the same on eight bytes, least significant byte of each word first |
| TableDesCbc.EdeInverse | src/CCshare/cccam3_emu_des.c:893-902 | decrypt, encrypt, decrypt with two schedules undoes its opposite |
| TableDesCbc.EdeCbcRoundTrip | src/CCshare/cccam3_emu_des.c:904-929 | opening undoes sealing for every sequence of blocks and every vector |
| TableDesCbc.OpenedEquations | src/CCshare/cccam3_emu_des.c:904-929 | each plaintext block is D E D of its ciphertext under first, second and first schedule, masked with the ciphertext before it or the vector |
| TableDesCbc.Des | src/CCshare/cccam3_emu_des.c:861-884 | eight bytes at an offset are transformed in place and nothing else changes |
| TableDesCbc.EdeInPlace | src/CCshare/cccam3_emu_des.c:918-920 | decryption under the first schedule, encryption under the second and decryption under the first, on the same eight bytes |
| TableDesCbc.OpenInPlace | src/CCshare/cccam3_emu_des.c:915-925 | one pass of the loop opens a block in place and leaves its ciphertext in the other of two slots |
| TableDesCbc.EdeCbcDecrypt | src/CCshare/cccam3_emu_des.c:904-929 | for every length the two-slot in-place loop equals the simple definition on whole blocks and leaves the rest alone |
| NcDesBits.FinalInitial | src/CCshare/cccam3_emu_des.c:122-181 | nc_doIp_1 undoes nc_doIp, for every eight bytes |
| NcDesBits.InitialFinal | src/CCshare/cccam3_emu_des.c:122-181 | and the other way round |
| NcDesBits.CollectorCollected | src/CCshare/cccam3_emu_des.c:122-181 | which byte collects which bit: the two index maps are inverse to each other |
| NcDesBits.DoIp | src/CCshare/cccam3_emu_des.c:122-151 | the shifting loop gathers the bit columns in place |
| NcDesBits.DoIp1 | src/CCshare/cccam3_emu_des.c:153-181 | its counterpart scatters them back |
| NcDes.RightRotTurns | src/CCshare/cccam3_emu_des.c:213-231 | shifting four bytes with carry turns the 28-bit number right by one |
| NcDes.TurnByParts | src/CCshare/cccam3_emu_des.c:213-231 | n turns move the low n bits to the top |
| NcDes.FullRightRot | src/CCshare/cccam3_emu_des.c:213-231 | 28 right turns are none |
| NcDes.LeftRotUndoes | src/CCshare/cccam3_emu_des.c:239-248 | 27 right turns are one left turn: each undoes the other |
| NcDes.FullLeft | src/CCshare/cccam3_emu_des.c:363-390 | over sixteen rounds the key halves turn 28 times and are back where they started |
| NcDes.CoreInverse | src/CCshare/cccam3_emu_des.c:370-393 | the right-mode run undoes the left-mode run and the other way round, for any key, because both visit the same turned keys in opposite order |
| NcDes.CryptInverse | src/CCshare/cccam3_emu_des.c:352-394 | with the permutations chosen by the mode bits exchanged too, the opposite mode returns the block |
| NcDesLaws.CryptEquations | src/CCshare/cccam3_emu_des.c:352-394 | for every key, mode and block: eighteen halves, each made from the two before it under the key of its round, whose halves are the 28-bit halves of the first seven key bytes turned left by 1, 2, 4, 6, 8, 10, 12, 14, 15, 17, 19, 21, 23, 25, 27 and 28 places, to the right in the opposite order; the permutations on either side are the mode's choice |
| NcDesLaws.InitialTable | src/CCshare/cccam3_emu_des.c:122-151 | bit m + 1 of the permuted bytes is the one the initial permutation of FIPS 46-3 names |
| NcDesCode.RightRotInPlace | src/CCshare/cccam3_emu_des.c:213-231 | the loop with carry computes the turn |
| NcDesCode.LeftRotInPlace | src/CCshare/cccam3_emu_des.c:239-248 | 27 passes of it compute the left turn |
| NcDesCode.ShiftBits | src/CCshare/cccam3_emu_des.c:356-390 | the 16-bit shift word is exhausted after exactly sixteen rounds, and its top bit tells the rounds with a single turn |
| NcDesCode.DesRound | src/CCshare/cccam3_emu_des.c:315-350 | one round masks the left half and exchanges the halves in the caller's buffer |
| NcDesCode.SixteenRounds | src/CCshare/cccam3_emu_des.c:370-392 | the loop over the shift word computes in place the core of the equations above |
| NcDesCode.CryptBlock | src/CCshare/cccam3_emu_des.c:352-394 | the whole function, with the permutations the mode asks for, computes the function of the equations above |
| Newcamd.TripleInverse | src/CCshare/cccam3_emu_des.c:1048-1059 | the triple-DES branch in decryption mode undoes it in encryption mode |
| Newcamd.ChecksumZero | src/CCshare/cccam3_emu_des.c:1087-1092 | after padding and checksum the exclusive or from byte 2 on is zero |
| Newcamd.FrameRoundTrip | src/CCshare/cccam3_emu_des.c:1078-1132 | whatever was framed opens to the padded message, with zero checksum |
| Newcamd.FrameEquations | src/CCshare/cccam3_emu_des.c:1048-1105 | a frame byte by byte: message, fewer than eight bytes of padding and the sum; two bytes in clear; each block masked with the one before it and taken through the rounds left under the first key, right under the second, left under the first; then the vector |
| Newcamd.OneByteTold | src/CCshare/cccam3_emu_des.c:1091-1092 | the sum tells any change of a single byte |
| Newcamd.LongestMessage | src/CCshare/cccam3_emu_des.c:1087-1088 | a frame fits exactly for messages of up to 1009 bytes |
| NewcamdCode.EuroDes | src/CCshare/cccam3_emu_des.c:1036-1059 | for keys whose byte 7 is zero the function is the triple-DES construction |
| NewcamdCode.EncryptFrame | src/CCshare/cccam3_emu_des.c:1078-1105 | the in-place encoder writes a frame: two bytes in clear, sealed body, trailing vector; it refuses exactly messages of more than 1009 bytes |
| NewcamdCode.DecryptFrame | src/CCshare/cccam3_emu_des.c:1107-1132 | the in-place decoder opens a frame of the right size and reports the length exactly if the checksum is zero |
| NewcamdCode.RoundTrip | src/CCshare/cccam3_emu_des.c:1078-1132 | encrypting and decrypting in one buffer succeeds exactly for messages of at least two bytes, and then returns every byte of the message |
| NewcamdKey.MixedTwice | src/CCshare/cccam3_emu_des.c:1140-1141 | laying the same bytes over a base key twice, cyclically, changes nothing |
| NewcamdKey.MixedFirst | src/CCshare/cccam3_emu_des.c:1140-1141 | the first fourteen bytes of the mask lie over the base key one by one |
| NewcamdKey.MixedMore | src/CCshare/cccam3_emu_des.c:1140-1141 | what follows them lies over the result from the first byte on |
| NewcamdKey.SpreadHalf | src/CCshare/cccam3_emu_des.c:959-966 | bit m of seven bytes, the highest first, becomes bit 7 - m % 7 of byte m / 7 of eight |
| NewcamdKey.AdjustParity | src/CCshare/cccam3_emu_des.c:945-955 | every byte whose lowest bit was zero ends with an odd number of ones, and nothing above the lowest bit changes |
| NewcamdKey.KeySpread | src/CCshare/cccam3_emu_des.c:957-978 | both halves hold their 56 bits, and all sixteen bytes have odd parity |
| NewcamdKey.PC1Covers | src/CCshare/cccam3_emu_des.c:91-100 | the table has every position that is not a parity bit |
| NewcamdKey.PC1IsStandard | src/CCshare/cccam3_emu_des.c:91-100 | the table is permuted choice 1 of FIPS 46-3 |
| NewcamdKey.DoPC1 | src/CCshare/cccam3_emu_des.c:103-120 | the two loops gather the bits the table names, in place; the eighth byte stays zero, because no pass of the outer loop writes it |
| NewcamdKey.LoginKey | src/CCshare/cccam3_emu_des.c:1134-1145 | the sixteen bytes hold the 112 mixed bits in the table's order, and bytes 7 and 15 are zero |
| NewcamdKey.SessionKeyBits | src/CCshare/cccam3_emu_des.c:1134-1145 | bit n of either half is the mixed bit at place n + 1 of permuted choice 1, the parity places not counted |
| NewcamdKey.KeysDiffer | src/CCshare/cccam3_emu_des.c:1134-1145 | with the same bytes mixed in, two base keys give the same session key if and only if they are equal |
| NewcamdKey.Exchange | src/CCshare/cccam3_emu_des.c:1078-1145 | each end derives its key, the two come out equal, and under every key so derived a message makes the trip through the frame codec: no assumption on the key is left |
| CacheModel.AddedInv | src/CCshare/cccam3_cache.c:115-175 | an addition keeps at most 1024 entries, in the order of their stamps, one valid entry per key, invalid ones expired |
| CacheModel.RemovedInv | src/CCshare/cccam3_cache.c:222-242 | so does a removal, after which no valid entry has the key |
| CacheModel.AfterLookInv | src/CCshare/cccam3_cache.c:177-220 | so does a lookup, which may only invalidate an expired entry |
| CacheModel.KeptInv | src/CCshare/cccam3_cache.c:244-270 | so does a cleaning, even with a clock read before the lock was waited for |
| CacheModel.KeptMembers | src/CCshare/cccam3_cache.c:244-270 | a cleaning keeps exactly the entries not yet expired |
| CacheRuns.StepRefines | src/CCshare/cccam3_cache.c:115-270 | one operation on the bounded list, on an unbounded table of latest values and on the set of evicted keys keeps them in step |
| CacheRuns.RunRefines | src/CCshare/cccam3_cache.c:115-270 | so does every run of operations |
| CacheRuns.AnswersAgree | src/CCshare/cccam3_cache.c:177-220 | a hit is what the table answers; and what the table answers the list answers too, if and only if the key has not been evicted since |
| CacheRuns.FindAfterRun | src/CCshare/cccam3_cache.c:115-270 | the same after every run from an empty cache: the list forgets an unexpired key exactly when an addition for a new key drops its entry from a full list |
| CacheRuns.EvictsOldest | src/CCshare/cccam3_cache.c:141-144 | a full list drops one entry for a new key, and none was added before it |
| CacheRuns.EvictionTakesAll | src/CCshare/cccam3_cache.c:141-144 | it takes 1024 additions since its own to evict a key |
| CacheRuns.ReplacingEvictsNothing | src/CCshare/cccam3_cache.c:122-139 | additions for keys that are in the list evict nothing, however many there are |
| Cache.Cache.Unlink | src/CCshare/cccam3_cache.c:47-54 | takes the node out: the list is well-formed without it, and its own links are empty |
| Cache.Cache.LinkFirst | src/CCshare/cccam3_cache.c:164-168 | puts an unlinked node in front of a well-formed list |
| Cache.Cache.MoveToHead | src/CCshare/cccam3_cache.c:57-64 | the node goes to the front, the others keep their order |
| Cache.Cache.EvictLru | src/CCshare/cccam3_cache.c:67-73 | drops the last node and counts it |
| Cache.Cache.Add | src/CCshare/cccam3_cache.c:115-175 | the stored list is changed as the model's addition says, whichever branch is taken; the eviction loop ends |
| Cache.Cache.Find | src/CCshare/cccam3_cache.c:177-220 | answers as the model does, counts a hit or a miss, and at most invalidates one entry |
| Cache.Cache.Remove | src/CCshare/cccam3_cache.c:222-242 | removes the first match and says whether there was one |
| Cache.Cache.CleanExpired | src/CCshare/cccam3_cache.c:244-270 | removes exactly the expired nodes and returns their number |
| Cache.Cache.Cleanup | src/CCshare/cccam3_cache.c:100-113 | empties the cache and its counters |
| Cache.Cache.SetTimeout | src/CCshare/cccam3_cache.c:278-283 | only positive timeouts are taken |
| CacheLaws.AddThenFind | src/CCshare/cccam3_cache.c:115-220 | a word just added is found exactly until the expiry asked for, or a timeout from now |
| CacheLaws.AddKeepsOthers | src/CCshare/cccam3_cache.c:115-220 | no other key's answer changes unless 1024 entries are there and the key is new, and never are there more |
| CacheLaws.FindCounts | src/CCshare/cccam3_cache.c:177-220 | a lookup is counted once, as a hit exactly if it found something |
| CacheLaws.SwitchedOff | src/CCshare/cccam3_cache.c:115-220 | a cache switched off answers nothing and keeps nothing |
| HopControl.IncrementMeaning | src/CCshare/cccam3_hop_control.c:136-142 | the served hop is the source's plus one, capped at the limit, if and only if the source is not 255: the eight-bit sum wraps to 0 there |
| HopControl.HopControl.Check | src/CCshare/cccam3_hop_control.c:57-79 | blocks exactly hops above the limit, and checks are blocked ones plus allowed ones |
| HopControl.HopControl.IncrementHop | src/CCshare/cccam3_hop_control.c:136-142 | returns the incremented hop |
| HopControl.HopControl.SetLimit | src/CCshare/cccam3_hop_control.c:148-155 | only limits from 1 to 20 are taken |
| EcmModel.Transparent | src/CCshare/cccam3_ecm.c:87-192 | after every run of interleaved requests, answers, cleanings and reconfigurations, a word served from the cache is one a reader produced for that key, stored no longer ago than the timeout then in force, with a hop within both limits |
| EcmModel.ServedFromCache | src/CCshare/cccam3_ecm.c:128-148 | the same for every state that satisfies the invariant, with the record it came from |
| EcmModel.OnlyAnswersLog | src/CCshare/cccam3_ecm.c:161-185 | a record of a produced word comes only from a reader's answer to a waiting request for that key |
| EcmModel.CountersBalance | src/CCshare/cccam3_ecm.c:100-191 | total is hits plus misses plus blocked hits; misses are successes plus failures plus blocked answers plus requests still waiting |
| EcmLaws.CountersCount | src/CCshare/cccam3_ecm.c:100-191 | over every run each counter grows by the number of what it stands for: failures by answers without a word, successes by words handed out, hits by words served from the cache, misses by lookups that found none, the total by requests not refused |
| EcmLaws.AskLaw | src/CCshare/cccam3_ecm.c:100-159 | refused exactly without data, with more than 256 bytes of it or for neither system nor service; otherwise waiting exactly if nothing is cached, served with the next hop if the client takes it, and held back if not |
| EcmLaws.AnswerLaw | src/CCshare/cccam3_ecm.c:161-191 | a reader's word is served with the next hop if the client takes it and held back if not |
| EcmLaws.StoresWhatItServes | src/CCshare/cccam3_ecm.c:161-185 | only a word that is served is stored, with the hop of its source |
| EcmModel.OnlyClientLimitBlocks | src/CCshare/cccam3_ecm.c:132-141 | a cached word is held back exactly if the client set a limit and the capped hop exceeds it: the server's own limit never blocks |
| EcmModel.HopDoesNotGrow | src/CCshare/cccam3_ecm.c:128-147 | however many requests hit in between, a later one gets the same word with the same hop |
| EcmModel.HitServesSame | src/CCshare/cccam3_ecm.c:161-185 | while it lasts, the cache serves what the first requester got |
| EcmModel.NextGood | src/CCshare/cccam3_ecm.c:87-192 | every step keeps the invariant |
| Ecm.Handler.Process | src/CCshare/cccam3_ecm.c:87-192 | the handler over the stored cache changes state and replies as the two model steps say |
| Ecm.Handler.Lookup | src/CCshare/cccam3_ecm.c:87-149 | its first half, up to the answer from the cache |
| Ecm.Handler.Settle | src/CCshare/cccam3_ecm.c:155-191 | its second half, from the readers' answer on |
| Session.MessageRoundTrip | src/network/cccam3_protocol.c:145-262 | in every mode, what one endpoint encrypted the other, being in step, decrypts to the plaintext, and they are in step again |
| Session.EncryptSucceeds | src/network/cccam3_protocol.c:145-202 | encryption succeeds exactly for nonempty data of a whole number of blocks, with room for the tag in GCM mode |
| Session.Synchrony | src/network/cccam3_protocol.c:145-262 | whatever two endpoints send, receive and reject in both directions, each oldest message under way decrypts to what was sent, and a direction with nothing under way is in step |
| Session.RunSound | src/network/cccam3_protocol.c:145-262 | the invariant behind it holds over every run |
| Session.NonceInjective | src/network/cccam3_protocol.c:57-66 | message number and counter can be read off the twelve bytes |
| SessionLaws.EncryptLaw | src/network/cccam3_protocol.c:145-202 | what each mode hands to which cipher: the number and the counter, most significant byte first, as nonce, their digest cut to a block as vector, the number as additional data; and the counter moves by one modulo 2^64 |
| SessionLaws.DecryptLaw | src/network/cccam3_protocol.c:204-262 | the same on the receiving side, the last sixteen bytes being the tag in GCM mode |
| Session.MaskBits | src/network/cccam3_protocol.c:37-58 | mask bits 0x01, 0x02, 0x04 and 0x10 let in RC4, AES, triple DES and AES-GCM besides clear text, the mask the configuration ships all four, and mask 0 everything |
| Session.MaskUnion | src/network/cccam3_protocol.c:37-58 | a mask with the bits of two nonzero ones lets in what either does |
| Session.NoncesDistinct | src/network/cccam3_protocol.c:57-66 | two messages of one direction share a nonce if and only if they carry the same number and a multiple of 2^64 messages lies between; section 8 of NIST SP 800-38D |
| Nonces.StepTx | src/network/cccam3_protocol.c:145-200 | every message that goes out moves its sender's counter by one, and nothing else, received, rejected or refused, moves a sending counter |
| Nonces.TxIsRank | src/network/cccam3_protocol.c:145-200 | over every run of a connection each message carries its sender's first counter plus the number of messages the same end sent before it, modulo 2^64 |
| Nonces.SameNonce | src/network/cccam3_protocol.c:57-90 | over every run, in GCM, AES and 3DES mode, two messages, of one end or of both, use the same twelve bytes if and only if they carry the same number and their ranks among their senders' messages agree modulo 2^64 |
| Nonces.DisjointNumbers | src/network/cccam3_protocol.c:57-90 | if the two ends have no message number in common, no twelve bytes are used twice while neither has sent more than 2^64 messages |
| Nonces.SafeIffDirectional | src/network/cccam3_protocol.c:57-90 | from fresh contexts under one key that promise holds for every run if and only if no number belongs to both ends; a shared number breaks it with the first message of each |
| Nonces.ClientAndServer | src/network/cccam3_protocol.c:57-66 | requests and management messages one way and control words the other have no number in common, so TX and RX nonces never collide |
| Session.DirectionsIndependent | src/network/cccam3_protocol.c:145-262 | sending does not touch the receiving state, nor receiving the sending state |
| SessionCode.BuildNonce | src/network/cccam3_protocol.c:60-66 | the shift loop writes number and counter most significant byte first |
| SessionCode.BuildIv | src/network/cccam3_protocol.c:75-86 | the vector is the truncated digest of the same twelve bytes |
| SessionCode.Context.SetCrypto | src/network/cccam3_protocol.c:109-143 | a mode is accepted exactly if it is clear text or its bit is in the mask, or the mask is zero, and the key has 1 to 32 bytes for RC4, 16, 24 or 32 for AES, 24 for triple DES; then the session starts anew, and otherwise nothing changes |
| SessionCode.Context.Encrypt | src/network/cccam3_protocol.c:145-202 | in place, every branch computes the specified message and state; a failure changes neither |
| SessionCode.Context.Decrypt | src/network/cccam3_protocol.c:204-262 | likewise; a message that fails, an unauthentic one included, leaves the state unchanged |
| Wire.ValueOfBig | src/network/cccam3_protocol.c:16-36 | bytes written most significant first read back as the number modulo the width |
| Wire.BigAt | src/network/cccam3_protocol.c:63-65 | byte i is the number shifted right past the bytes after it |
| Messages.BuildSucceeds | src/network/cccam3_protocol.c:389-437 | exactly when a builder succeeds: room, whole blocks, and never in GCM mode |
| Messages.BuildThenParse | src/network/cccam3_protocol.c:266-319 | what a builder makes, a receiver in step parses back, whatever follows it in the buffer |
| Messages.EcmEndToEnd | src/core/cccam3_server.c:726-742 | a built request is parsed to the same fields, when its data fits |
| Messages.EcmRoundTrip | src/core/cccam3_server.c:726-742 | the payload parser returns the fields exactly for data of at most 256 bytes |
| Messages.CwModes | src/network/cccam3_protocol.c:487-537 | a control word message can be built exactly in clear or under RC4, given 39 bytes of room |
| Messages.CwEndToEnd | src/CCshare/cccam3_card_manager.c:397-404 | a built control word is read back with its hop |
| Messages.CwRoundTrip | src/network/cccam3_protocol.c:513-525 | every field of the payload can be read back |
| Messages.LoginEndToEnd | src/core/cccam3_server.c:613-642 | a login message yields the handshake, both names and the version |
| Messages.LoginRoundTrip | src/core/cccam3_server.c:625-642 | the same for the payload, for all names of 1 to 63 bytes without a zero byte |
| SessionLaws.FramedBytes | src/network/cccam3_protocol.c:408-415 | number, length with the header, no flags, mode, nothing, payload |
| SessionLaws.KindsOnTheWire | include/cccam3.h:36-40 | logins, requests, control words and management messages are numbers 1, 3, 4 and 5 in four bytes |
| SessionLaws.ParseLaw | src/network/cccam3_protocol.c:266-319 | refused if shorter than twelve bytes or if the length field is below 12, above 4096 or above what is there; otherwise the fields are those bytes, and in clear the payload is the rest |
| SessionLaws.EcmBytes | src/network/cccam3_protocol.c:417-423 | system, provider and service in two bytes each, then the data |
| SessionLaws.CwBytes | src/network/cccam3_protocol.c:513-525 | the time in four bytes, the word, its hop, then system, provider and service |
| SessionLaws.LoginBytes | src/network/cccam3_protocol.c:341-357 | handshake, two strings with their zero bytes, the version in four |
| MessagesCode.BuildEcm | src/network/cccam3_protocol.c:389-437 | the field by field writer builds the specified message and advances the session, or refuses and leaves it |
| MessagesCode.BuildCw | src/network/cccam3_protocol.c:487-537 | likewise for control words |
| MessagesCode.BuildLogin | src/network/cccam3_protocol.c:323-361 | likewise for logins; the buffer is untouched if it refuses |
| MessagesCode.ParseMessage | src/network/cccam3_protocol.c:266-319 | the parser computes the specified header, payload and session state, or refuses and leaves the session |
| Framing.SplitsBack | src/core/cccam3_server.c:551-573 | messages sent one after the other are split back exactly, up to where the stream breaks off |
| Framing.IncompleteBreaks | src/core/cccam3_server.c:551-573 | a message that is not all there is not taken for one |
| Framing.SplitLaw | src/core/cccam3_server.c:551-573 | a message is as long as bytes 4 to 7 say, unless that is below 12, above 4096, above the room or above what is there |
| Framing.Socket.RecvExact | src/core/cccam3_server.c:539-549 | however the bytes arrive, the loop reads exactly the next bytes of the stream or fails at its end |
| Framing.Socket.ReadMessage | src/core/cccam3_server.c:551-573 | one whole message is read, or refused, as the stream says |
| Framing.ReadAll | src/core/cccam3_server.c:551-573 | reading on until a failure yields all messages of the stream, for every chunking |
| Traffic.SentIsReceived | src/network/cccam3_protocol.c:266-437 | whatever messages are built and sent one after the other, in every mode: the byte stream splits back into them, they parse to what was sent, and the endpoints end in step |
| Traffic.NoneRefused | src/network/cccam3_protocol.c:389-437 | in clear and under RC4 every nonempty message that fits is sent |
| Crc.FastIsChecksum | src/CCshare/cccam3_emu_powervu.c:90-116 | for every message the table gives the remainder of long division of the message times x^32 plus the start value times x to the message length; Annex A of ISO/IEC 13818-1 |
| Crc.StepsAreDivision | src/CCshare/cccam3_emu_powervu.c:90-116 | one bit at a time, comparing with the bit shifted out, is that division |
| Crc.TableStepIsSteps | src/CCshare/cccam3_emu_powervu.c:110-114 | one table lookup does eight such steps |
| Crc.ResidueZero | src/CCshare/cccam3_emu_powervu.c:90-116 | appending the checksum, most significant byte first, gives checksum zero |
| Crc.BurstDetected | src/CCshare/cccam3_emu_powervu.c:90-116 | messages that differ only within four consecutive bytes, in whatever way, have different checksums |
| KnownAnswers.CheckValue32 | src/CCshare/cccam3_emu_powervu.c:90-116 | the check value of CRC-32/MPEG-2: "123456789" gives 0376e6e7 |
| CrcCode.Crc32.Fill | src/CCshare/cccam3_emu_powervu.c:96-108 | the nested loops fill the table |
| CrcCode.Crc32.Compute | src/CCshare/cccam3_emu_powervu.c:90-116 | the function returns the checksum, filling the table first if need be |
| CrcCode.TableIsDivision | src/CCshare/cccam3_emu_powervu.c:61-79 | each of the 256 literal entries is eight steps of division by x^8 + x^2 + x + 1 |
| CrcCode.Crc8 | src/CCshare/cccam3_emu_powervu.c:57-87 | the loop over the literal table returns the division's remainder |
| CrcCode.Residue8 | src/CCshare/cccam3_emu_powervu.c:57-87 | appending the checksum gives zero |
| KnownAnswers.CheckValue8 | src/CCshare/cccam3_emu_powervu.c:57-87 | the check value of the CRC-8: "123456789" gives f4 |
| Readers.NotChosenInBackoff | src/CCshare/cccam3_card_manager.c:562-655 | over every run of requests to a list of readers, however they overlap: a reader whose last three or more outcomes are failures when a request looks for a reader is not chosen in the thirty seconds after the last of them |
| Readers.FailuresSpread | src/CCshare/cccam3_card_manager.c:562-655 | so a reader that only fails, asked for one thing at a time, is asked at most once in thirty seconds after the first three times |
| Readers.BacksOff | src/CCshare/cccam3_card_manager.c:124-133 | a reader whose last three or more requests failed is not eligible for thirty seconds after the last of them |
| Readers.StaysEligible | src/CCshare/cccam3_card_manager.c:77-90 | with fewer failures at the end it stays eligible |
| Readers.BackAgain | src/CCshare/cccam3_card_manager.c:77-90 | thirty seconds after the last failure was recorded it is eligible again |
| Readers.RunCounts | src/CCshare/cccam3_card_manager.c:600-655 | successes and failures are counted apart, each as often as it happened |
| Readers.RunSane | src/CCshare/cccam3_card_manager.c:124-139 | over every run, requests are successes plus failures and the failure counter is the number of trailing failures |
| Readers.Score | src/CCshare/cccam3_card_manager.c:100-121 | every score is below the starting bound 9999 |
| Readers.ChosenUnique | src/CCshare/cccam3_card_manager.c:562-587 | the choice is determined |
| Readers.ChosenServes | src/CCshare/cccam3_card_manager.c:77-97 | the chosen reader is enabled, not waiting after an error, and bound to no other system or provider |
| Readers.ServesAll | src/CCshare/cccam3_card_manager.c:77-97 | a reader that is all of that can be chosen |
| Readers.ScoreOrder | src/CCshare/cccam3_card_manager.c:100-121 | the score counts ten for a priority, five for a hop, fifty for a timeout, a hundred for an error; local is ten ahead of the emulation and that twenty ahead of remote |
| Readers.ScoreOf | src/CCshare/cccam3_card_manager.c:100-121 | nothing else counts |
| Readers.LocalFirst | src/CCshare/cccam3_card_manager.c:562-587 | with equal priority, hop and health a local reader is chosen before the emulation and that before a remote one |
| Readers.RememberedIsRecent | src/CCshare/cccam3_card_manager.c:44-58 | within the window a message counts as seen until 64 others have been remembered |
| Readers.ForgottenIsNotRecent | src/CCshare/cccam3_card_manager.c:44-52 | a message that none of the last 64 is, or only ones a minute old, does not count as seen |
| ReadersCode.Select | src/CCshare/cccam3_card_manager.c:562-587 | the first of the best-scored eligible readers is chosen, and none only if none is eligible |
| ReadersCode.Card.MayAsk | src/CCshare/cccam3_card_manager.c:77-97 | eligibility: enabled, not in a backoff, and serving the system and provider asked for |
| ReadersCode.Card.Ask | src/CCshare/cccam3_card_manager.c:600-655 | what a request does to a reader is what its outcome does to its view; between requests the counters add up, a session implies a connection, and the one descriptor in use is the only one open |
| ReadersCode.Card.Connect | src/CCshare/cccam3_card_manager.c:184-254 | an old connection is closed before a new one is opened, and a socket that does not connect is closed again: only an open descriptor is ever closed, and none is leaked |
| ReadersCode.GetCw | src/CCshare/cccam3_card_manager.c:589-655 | selection and request over a list of readers: the best eligible one is asked, or none if none is eligible, the state of no other changes, and the run of requests is one longer |
| ReadersCode.Dedup.SeenRecently | src/CCshare/cccam3_card_manager.c:44-52 | a message counts as seen exactly if one of the last 64 remembered has its hash and is younger than 60 seconds |
| ReadersCode.Dedup.Remember | src/CCshare/cccam3_card_manager.c:54-58 | the ring replaces its oldest record |
| Base64.DecodeEncode | src/api/cccam3_rest_api.c:162-182 | decoding undoes section 4 of RFC 4648 for every string, whatever the never-emptied accumulator held before |
| KnownAnswers.Rfc4648 | src/api/cccam3_rest_api.c:157-182 | the encoding decoding undoes takes "foobar" to "Zm9vYmFy", as section 10 of RFC 4648 has it |
| KnownAnswers.Rfc4648Short | src/api/cccam3_rest_api.c:157-182 | and "f", "fo" and "foo" to "Zg==", "Zm8=" and "Zm9v" |
| Base64.CredentialsBack | src/api/cccam3_rest_api.c:162-182 | credentials of 1 to 255 bytes come back exactly; longer ones are refused by the length test |
| Base64.DecodeText | src/api/cccam3_rest_api.c:162-182 | the loop writes what decoding yields, never more than 255 of the 256 bytes, and the final zero |
| Base64.StrChr | src/api/cccam3_rest_api.c:157-175 | the position in the literal alphabet is the value of the symbol |
| Sections.ParsePat | src/hardware/cccam3_dvb.c:114-137 | the parser accepts exactly sections whose length field fits, and fills at most 256 channels |
| Sections.PatWithin | src/hardware/cccam3_dvb.c:114-137 | two buffers that start with the same whole section give the same result, whatever follows it |
| Sections.PatReadsBack | src/hardware/cccam3_dvb.c:114-137 | a well-formed section yields its programs other than number 0, in order, the first 256 of them; section 2.4.4.3 of ISO/IEC 13818-1 |
| Sections.NonZeroOne | src/hardware/cccam3_dvb.c:121-134 | one program counts exactly if its number is not 0 |
| Sections.NonZeroConcat | src/hardware/cccam3_dvb.c:121-134 | the programs of two lists in a row are those of the one and then those of the other |
| Sections.ParsePmt | src/hardware/cccam3_dvb.c:180-221 | the parser accepts exactly sections whose two length fields fit |
| Sections.PmtWithin | src/hardware/cccam3_dvb.c:180-221 | two buffers that start with the same whole section give the same result, whatever follows it |
| Sections.PmtReadsBack | src/hardware/cccam3_dvb.c:180-221 | a well-formed section yields system and stream of its last descriptor with tag 9 and at least four bytes, and its first stream of type 0x01, 0x02, 0x10, 0x1B or 0x24 with a stream number if none was known; without them nothing changes; section 2.4.4.8 of ISO/IEC 13818-1 |
| Sections.LastCaIs | src/hardware/cccam3_dvb.c:195-205 | the last descriptor with tag 9 and at least four bytes determines system and stream |
| Sections.FirstVideoIs | src/hardware/cccam3_dvb.c:207-219 | the first stream of a video type with a nonzero number determines the video stream, if none was known |

## Left out

- The S-boxes, key compression and round functions of both DES implementations and the table key schedule
  (`src/CCshare/cccam3_emu_des.c:183-211`, `256-304`, `400-745`): parameters of the model, because the inversion
  theorems hold for every choice of them.
- The Viaccess branch of the frame cipher and its mask (`src/CCshare/cccam3_emu_des.c:988-1047`): not reached
  by session keys, whose byte 7 is zero.
- Calls of the frame codec without a key, which return the length and do nothing.
- Negative lengths passed to the buffer routines: the callers never pass them.
- Unrolled loops and fall-through switches: modelled as calls and loops over the same bytes in the same order.
- Places in a schedule are indices, where the program moves addresses through it.
- The client lookup by socket and the fields a client has besides number, socket, references and mark.
- Closing all clients while client threads still run: threads are detached there and joined; modelled only
  after they have ended.
- Counters in 32-bit fields are modelled without wrap-around (cache hits and misses, request counters,
  reader statistics).
- Freeing a node is modelled as taking it out of the list; memory that runs out is not modelled.
- The locks of the cache: each operation is one atomic step, so two lookups that invalidate the same entry at
  once are not modelled.
- The request pipeline's per-client statistics and its response fields other than word, hop and outcome.
- A change of the hop limit between the increment and the check of one request.
- The register of hops and its expiry (`src/CCshare/cccam3_hop_control.c:81-134`): the pipeline never registers.
- Missing (null) arguments and the library's own failures: refusals without further effect.
- After a failed GCM decryption the contents of the data buffer are left unspecified, as the library leaves them.
- `MessagesCode.Finish`: the payload is encrypted in a copy and written back, where the program encrypts it in
  place behind the header.
- The builders of login acknowledgements and of EMM messages: the same shape as the builders modelled.
- The handshake, user accounts, rate limits and the login failure table.
- Reading the clock once per reader during a selection: one reading is used for the whole selection, and all
  readers are looked at in one moment.
- The list of readers is a sequence of reader objects; inserting and removing readers and the network calls of
  a connection are outcomes given from outside.
- A reader's state set from outside, which can end a backoff early, and failures marked while messages are
  forwarded to readers: the marking is the same as for requests.
- The hash of messages to be forwarded: the ring works on its value.
- The service description parser and channel names (`src/hardware/cccam3_dvb.c:139-178`): no harder than the two
  section parsers modelled.
- The comparison of decoded credentials with the configured ones.
- Conditional-access emulation, smartcards, the legacy protocol cipher, REST routing, configuration, logging and
  process management.
