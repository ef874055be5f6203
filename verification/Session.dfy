/** The session cipher: what one endpoint does to a message, and what two endpoints that share a key do to each
    other. AES, triple DES, GCM and SHA-256 are parameters with the laws they are used for; RC4 is the one of
    module Rc4. */
module Session {
  import opened Bits
  import opened Common
  import opened Wire
  import Rc4

  const NONE: Byte := 0x00
  const RC4: Byte := 0x01
  const AES: Byte := 0x02
  const TDES: Byte := 0x10
  const GCM: Byte := 0x11
  const TAG: nat := 16
  const COUNTERS: nat := 0x1_0000_0000_0000_0000

  type Bytes = seq<Byte>
  type Cbc = (Bytes, Bytes, Bytes) -> Bytes

  /** Arguments are key, initial vector and data; for GCM key, nonce, additional data and text, and for opening
      also the tag. */
  datatype Primitives = Primitives(
    aesSeal: Cbc, aesOpen: Cbc, tdesSeal: Cbc, tdesOpen: Cbc,
    gcmSeal: (Bytes, Bytes, Bytes, Bytes) -> (Bytes, Bytes),
    gcmOpen: (Bytes, Bytes, Bytes, Bytes, Bytes) -> Option<Bytes>,
    sha256: Bytes -> Bytes)

  ghost predicate CbcLaw(seal: Cbc, open: Cbc, block: nat)
    requires 0 < block
  {
    forall k, iv, d: Bytes :: |d| % block == 0 ==> |seal(k, iv, d)| == |d| && open(k, iv, seal(k, iv, d)) == d
  }

  ghost predicate CbcLength(open: Cbc, block: nat)
    requires 0 < block
  {
    forall k, iv, d: Bytes :: |d| % block == 0 ==> |open(k, iv, d)| == |d|
  }

  ghost predicate GcmLaw(p: Primitives) {
    && (forall k, n, a, d: Bytes ::
          && |p.gcmSeal(k, n, a, d).0| == |d| && |p.gcmSeal(k, n, a, d).1| == TAG
          && p.gcmOpen(k, n, a, p.gcmSeal(k, n, a, d).0, p.gcmSeal(k, n, a, d).1) == Some(d))
    && (forall k, n, a, c, t: Bytes :: p.gcmOpen(k, n, a, c, t).Some? ==> |p.gcmOpen(k, n, a, c, t).value| == |c|)
  }

  ghost predicate Lawful(p: Primitives) {
    && CbcLaw(p.aesSeal, p.aesOpen, 16) && CbcLength(p.aesOpen, 16)
    && CbcLaw(p.tdesSeal, p.tdesOpen, 8) && CbcLength(p.tdesOpen, 8)
    && GcmLaw(p)
    && (forall d: Bytes :: |p.sha256(d)| == 32)
  }

  // ----- One endpoint

  datatype Stream = Idle | Running(state: Rc4.State)

  datatype Ctx = Ctx(mode: Byte, key: Bytes, tx: nat, rx: nat, rc4tx: Stream, rc4rx: Stream)

  ghost predicate StreamOk(s: Stream) {
    s.Running? ==> |s.state.s| == 256
  }

  predicate KeyOk(mode: Byte, length: nat) {
    if mode == RC4 then 0 < length <= 32
    else if mode == AES || mode == GCM then length == 16 || length == 24 || length == 32
    else if mode == TDES then length == 24
    else mode == NONE
  }

  ghost predicate Valid(c: Ctx) {
    && KeyOk(c.mode, |c.key|) && c.tx < COUNTERS && c.rx < COUNTERS
    && StreamOk(c.rc4tx) && StreamOk(c.rc4rx)
  }

  function Fresh(mode: Byte, key: Bytes): Ctx {
    Ctx(mode, key, 0, 0, Idle, Idle)
  }

  function Tick(n: nat): (m: nat)
    ensures m < COUNTERS
  {
    (n + 1) % COUNTERS
  }

  /** Four bytes of message number, eight bytes of counter. */
  function Nonce(id: Word32, counter: nat): (s: Bytes)
    ensures |s| == 12
  {
    Big(id, 4) + Big(counter, 8)
  }

  function Iv(p: Primitives, id: Word32, counter: nat, n: nat): Bytes
    requires |p.sha256(Nonce(id, counter))| == 32 && n <= 32
  {
    p.sha256(Nonce(id, counter))[..n]
  }

  /** The direction's keystream, set up when it is first needed. */
  function Opened(s: Stream, key: Bytes): (st: Rc4.State)
    requires 0 < |key|
    requires s.Running? ==> |s.state.s| == 256
    ensures |st.s| == 256
  {
    if s.Running? then s.state else Rc4.Start(key)
  }

  datatype Result = Failed | Done(ctx: Ctx, data: Bytes)

  ghost function Encrypt(p: Primitives, c: Ctx, d: Bytes, capacity: nat, id: Word32): (r: Result)
    requires Lawful(p) && Valid(c)
    ensures r.Done? ==> Valid(r.ctx) && |r.data| == |d| + if c.mode == GCM then TAG else 0
  {
    if |d| == 0 then Failed
    else if c.mode == NONE then Done(c, d)
    else if c.mode == RC4 then
      var st := Opened(c.rc4tx, c.key);
      Done(c.(rc4tx := Running(Rc4.After(st, |d|))), Rc4.Stream(st, d))
    else if c.mode == AES then
      if |d| % 16 != 0 then Failed
      else Done(c.(tx := Tick(c.tx)), p.aesSeal(c.key, Iv(p, id, c.tx, 16), d))
    else if c.mode == TDES then
      if |d| % 8 != 0 then Failed
      else Done(c.(tx := Tick(c.tx)), p.tdesSeal(c.key, Iv(p, id, c.tx, 8), d))
    else
      if capacity < |d| + TAG then Failed
      else
        var s := p.gcmSeal(c.key, Nonce(id, c.tx), Big(id, 4), d);
        Done(c.(tx := Tick(c.tx)), s.0 + s.1)
  }

  ghost function Decrypt(p: Primitives, c: Ctx, d: Bytes, id: Word32): (r: Result)
    requires Lawful(p) && Valid(c)
    ensures r.Done? ==> Valid(r.ctx) && |r.data| == |d| - if c.mode == GCM then TAG else 0
  {
    if |d| == 0 then Failed
    else if c.mode == NONE then Done(c, d)
    else if c.mode == RC4 then
      var st := Opened(c.rc4rx, c.key);
      Done(c.(rc4rx := Running(Rc4.After(st, |d|))), Rc4.Stream(st, d))
    else if c.mode == AES then
      if |d| % 16 != 0 then Failed
      else Done(c.(rx := Tick(c.rx)), p.aesOpen(c.key, Iv(p, id, c.rx, 16), d))
    else if c.mode == TDES then
      if |d| % 8 != 0 then Failed
      else Done(c.(rx := Tick(c.rx)), p.tdesOpen(c.key, Iv(p, id, c.rx, 8), d))
    else
      if |d| < TAG then Failed
      else
        var n := |d| - TAG;
        match p.gcmOpen(c.key, Nonce(id, c.rx), Big(id, 4), d[..n], d[n..])
        case None => Failed
        case Some(text) => Done(c.(rx := Tick(c.rx)), text)
  }

  // ----- The modes an operator allows

  predicate Allowed(mask: bv32, mode: Byte) {
    mask == 0 || mode == NONE
    || (mode == RC4 && mask & 0x01 != 0) || (mode == AES && mask & 0x02 != 0)
    || (mode == TDES && mask & 0x04 != 0) || (mode == GCM && mask & 0x10 != 0)
  }

  /** What each bit of the mask lets in besides clear text: RC4, AES, triple DES and AES-GCM. */
  lemma MaskBits(mode: Byte)
    ensures Allowed(0x01, mode) <==> mode == 0x00 || mode == 0x01
    ensures Allowed(0x02, mode) <==> mode == 0x00 || mode == 0x02
    ensures Allowed(0x04, mode) <==> mode == 0x00 || mode == 0x10
    ensures Allowed(0x10, mode) <==> mode == 0x00 || mode == 0x11
    ensures Allowed(0x17, mode) <==> mode == 0x00 || mode == 0x01 || mode == 0x02 || mode == 0x10 || mode == 0x11
    ensures Allowed(0x00, mode)
  {
  }

  lemma UnionBits(a: bv32, b: bv32)
    ensures (a | b) & 0x01 != 0 <==> a & 0x01 != 0 || b & 0x01 != 0
    ensures (a | b) & 0x02 != 0 <==> a & 0x02 != 0 || b & 0x02 != 0
    ensures (a | b) & 0x04 != 0 <==> a & 0x04 != 0 || b & 0x04 != 0
    ensures (a | b) & 0x10 != 0 <==> a & 0x10 != 0 || b & 0x10 != 0
    ensures (a | b) == 0 <==> a == 0 && b == 0
  {
  }

  /** A mask with the bits of two lets in what either does. */
  lemma MaskUnion(a: bv32, b: bv32, mode: Byte)
    requires a != 0 && b != 0
    ensures Allowed(a | b, mode) <==> Allowed(a, mode) || Allowed(b, mode)
  {
    UnionBits(a, b);
  }

  /** The receiver is where the sender is. */
  predicate InStep(sender: Ctx, receiver: Ctx) {
    && sender.mode == receiver.mode && sender.key == receiver.key
    && sender.tx == receiver.rx && sender.rc4tx == receiver.rc4rx
  }

  lemma FreshInStep(mode: Byte, key: Bytes)
    requires KeyOk(mode, |key|)
    ensures Valid(Fresh(mode, key)) && InStep(Fresh(mode, key), Fresh(mode, key))
  {
  }

  /** One message: what was encrypted comes back, and the two are in step again. */
  lemma MessageRoundTrip(p: Primitives, sender: Ctx, receiver: Ctx, d: Bytes, capacity: nat, id: Word32)
    requires Lawful(p) && Valid(sender) && Valid(receiver) && InStep(sender, receiver)
    requires Encrypt(p, sender, d, capacity, id).Done?
    ensures
      var e := Encrypt(p, sender, d, capacity, id);
      var r := Decrypt(p, receiver, e.data, id);
      r.Done? && r.data == d && InStep(e.ctx, r.ctx)
  {
    hide Rc4.Stream, Rc4.After, Rc4.Start, Nonce, Big, Tick;
    var e := Encrypt(p, sender, d, capacity, id);
    if sender.mode == RC4 {
      Rc4.StreamTwice(Opened(sender.rc4tx, sender.key), d);
    } else if sender.mode == GCM {
      var s := p.gcmSeal(sender.key, Nonce(id, sender.tx), Big(id, 4), d);
      var n := |e.data| - TAG;
      assert e.data[..n] == s.0 && e.data[n..] == s.1;
    }
  }

  /** Exactly when a message can be encrypted. */
  lemma EncryptSucceeds(p: Primitives, c: Ctx, d: Bytes, capacity: nat, id: Word32)
    requires Lawful(p) && Valid(c)
    ensures Encrypt(p, c, d, capacity, id).Done? <==>
      && |d| != 0 && (c.mode == AES ==> |d| % 16 == 0) && (c.mode == TDES ==> |d| % 8 == 0)
      && (c.mode == GCM ==> |d| + TAG <= capacity)
  {
  }

  /** A decryption touches nothing of the other direction, so both directions of a connection stay in step
      independently. */
  lemma DirectionsIndependent(p: Primitives, c: Ctx, d: Bytes, capacity: nat, id: Word32)
    requires Lawful(p) && Valid(c)
    ensures Decrypt(p, c, d, id).Done? ==>
      Decrypt(p, c, d, id).ctx.tx == c.tx && Decrypt(p, c, d, id).ctx.rc4tx == c.rc4tx
    ensures Encrypt(p, c, d, capacity, id).Done? ==>
      Encrypt(p, c, d, capacity, id).ctx.rx == c.rx && Encrypt(p, c, d, capacity, id).ctx.rc4rx == c.rc4rx
  {
  }

  // ----- A connection with messages under way in both directions

  datatype Packet = Packet(id: Word32, data: Bytes, plain: Bytes)

  datatype End = Left | Right

  datatype Link = Link(left: Ctx, right: Ctx, toRight: seq<Packet>, toLeft: seq<Packet>)

  /** A message that arrives is either the oldest under way or, in GCM mode, one that does not authenticate. */
  datatype Event = Send(from: End, id: Word32, plain: Bytes, capacity: nat) | Receive(at: End)
    | Forged(at: End, id: Word32, data: Bytes)

  ghost predicate Ready(p: Primitives, receiver: Ctx, sender: Ctx, under: seq<Packet>)
    requires Lawful(p)
    decreases |under|
  {
    Valid(receiver) &&
    if under == [] then InStep(sender, receiver)
    else
      var r := Decrypt(p, receiver, under[0].data, under[0].id);
      r.Done? && r.data == under[0].plain && Ready(p, r.ctx, sender, under[1..])
  }

  ghost predicate Sound(p: Primitives, l: Link)
    requires Lawful(p)
  {
    && Valid(l.left) && Valid(l.right)
    && Ready(p, l.right, l.left, l.toRight) && Ready(p, l.left, l.right, l.toLeft)
  }

  ghost function Step(p: Primitives, l: Link, e: Event): Link
    requires Lawful(p) && Valid(l.left) && Valid(l.right)
  {
    match e
    case Send(Left, id, d, capacity) =>
      (match Encrypt(p, l.left, d, capacity, id)
       case Failed => l
       case Done(c, data) => l.(left := c, toRight := l.toRight + [Packet(id, data, d)]))
    case Send(Right, id, d, capacity) =>
      (match Encrypt(p, l.right, d, capacity, id)
       case Failed => l
       case Done(c, data) => l.(right := c, toLeft := l.toLeft + [Packet(id, data, d)]))
    case Receive(Right) =>
      if l.toRight == [] then l
      else (match Decrypt(p, l.right, l.toRight[0].data, l.toRight[0].id)
            case Failed => l.(toRight := l.toRight[1..])
            case Done(c, _) => l.(right := c, toRight := l.toRight[1..]))
    case Receive(Left) =>
      if l.toLeft == [] then l
      else (match Decrypt(p, l.left, l.toLeft[0].data, l.toLeft[0].id)
            case Failed => l.(toLeft := l.toLeft[1..])
            case Done(c, _) => l.(left := c, toLeft := l.toLeft[1..]))
    case Forged(Right, id, d) =>
      (match Decrypt(p, l.right, d, id) case Failed => l case Done(c, _) => l.(right := c))
    case Forged(Left, id, d) =>
      (match Decrypt(p, l.left, d, id) case Failed => l case Done(c, _) => l.(left := c))
  }

  /** What the mode rejects: foreign messages are let in only if they do not decrypt, which is what GCM's tag
      gives. */
  ghost predicate Fair(p: Primitives, l: Link, e: Event)
    requires Lawful(p) && Valid(l.left) && Valid(l.right)
  {
    match e
    case Forged(Right, id, d) => Decrypt(p, l.right, d, id).Failed?
    case Forged(Left, id, d) => Decrypt(p, l.left, d, id).Failed?
    case _ => true
  }

  lemma {:induction false} ReadySend(p: Primitives, receiver: Ctx, sender: Ctx, under: seq<Packet>,
      d: Bytes, capacity: nat, id: Word32)
    requires Lawful(p) && Valid(sender) && Ready(p, receiver, sender, under)
    requires Encrypt(p, sender, d, capacity, id).Done?
    ensures
      var e := Encrypt(p, sender, d, capacity, id);
      Ready(p, receiver, e.ctx, under + [Packet(id, e.data, d)])
    decreases |under|
  {
    hide Encrypt, Decrypt, InStep;
    var e := Encrypt(p, sender, d, capacity, id);
    var q := Packet(id, e.data, d);
    if under == [] {
      MessageRoundTrip(p, sender, receiver, d, capacity, id);
      assert (under + [q])[1..] == [];
    } else {
      var r := Decrypt(p, receiver, under[0].data, under[0].id);
      ReadySend(p, r.ctx, sender, under[1..], d, capacity, id);
      assert (under + [q])[1..] == under[1..] + [q];
    }
  }

  /** The sender's own receiving does not disturb what it has under way, and the receiver's own sending does
      not disturb what it is about to receive. */
  lemma {:induction false} ReadyOther(p: Primitives, receiver: Ctx, receiver': Ctx, sender: Ctx, sender': Ctx,
      under: seq<Packet>)
    requires Lawful(p) && Valid(receiver') && Ready(p, receiver, sender, under)
    requires sender'.mode == sender.mode && sender'.key == sender.key
    requires sender'.tx == sender.tx && sender'.rc4tx == sender.rc4tx
    requires receiver'.mode == receiver.mode && receiver'.key == receiver.key
    requires receiver'.rx == receiver.rx && receiver'.rc4rx == receiver.rc4rx
    ensures Ready(p, receiver', sender', under)
    decreases |under|
  {
    hide Rc4.Stream, Rc4.After, Rc4.Start, Nonce, Big, Tick, Lawful;
    if under != [] {
      var r := Decrypt(p, receiver, under[0].data, under[0].id);
      var r' := Decrypt(p, receiver', under[0].data, under[0].id);
      ReadyOther(p, r.ctx, r'.ctx, sender, sender', under[1..]);
    }
  }

  lemma SameKeys(p: Primitives, c: Ctx, d: Bytes, capacity: nat, id: Word32)
    requires Lawful(p) && Valid(c)
    ensures Decrypt(p, c, d, id).Done? ==>
      Decrypt(p, c, d, id).ctx.mode == c.mode && Decrypt(p, c, d, id).ctx.key == c.key
    ensures Encrypt(p, c, d, capacity, id).Done? ==>
      Encrypt(p, c, d, capacity, id).ctx.mode == c.mode && Encrypt(p, c, d, capacity, id).ctx.key == c.key
  {
  }

  lemma StepSound(p: Primitives, l: Link, e: Event)
    requires Lawful(p) && Sound(p, l) && Fair(p, l, e)
    ensures Sound(p, Step(p, l, e))
  {
    hide Encrypt, Decrypt, InStep, Lawful;
    match e
    case Send(Left, id, d, capacity) =>
      var r := Encrypt(p, l.left, d, capacity, id);
      if r.Done? {
        SameKeys(p, l.left, d, capacity, id);
        DirectionsIndependent(p, l.left, d, capacity, id);
        ReadySend(p, l.right, l.left, l.toRight, d, capacity, id);
        ReadyOther(p, l.left, r.ctx, l.right, l.right, l.toLeft);
      }
    case Send(Right, id, d, capacity) =>
      var r := Encrypt(p, l.right, d, capacity, id);
      if r.Done? {
        SameKeys(p, l.right, d, capacity, id);
        DirectionsIndependent(p, l.right, d, capacity, id);
        ReadySend(p, l.left, l.right, l.toLeft, d, capacity, id);
        ReadyOther(p, l.right, r.ctx, l.left, l.left, l.toRight);
      }
    case Receive(Right) =>
      if l.toRight != [] {
        var q := l.toRight[0];
        SameKeys(p, l.right, q.data, 0, q.id);
        DirectionsIndependent(p, l.right, q.data, 0, q.id);
        ReadyOther(p, l.left, l.left, l.right, Decrypt(p, l.right, q.data, q.id).ctx, l.toLeft);
      }
    case Receive(Left) =>
      if l.toLeft != [] {
        var q := l.toLeft[0];
        SameKeys(p, l.left, q.data, 0, q.id);
        DirectionsIndependent(p, l.left, q.data, 0, q.id);
        ReadyOther(p, l.right, l.right, l.left, Decrypt(p, l.left, q.data, q.id).ctx, l.toRight);
      }
    case Forged(_, _, _) =>
  }

  ghost predicate Happens(p: Primitives, l: Link, run: seq<Event>)
    requires Lawful(p) && Valid(l.left) && Valid(l.right)
    decreases |run|
  {
    run == [] || (Fair(p, l, run[0]) && Happens(p, Step(p, l, run[0]), run[1..]))
  }

  ghost function Run(p: Primitives, l: Link, run: seq<Event>): (r: Link)
    requires Lawful(p) && Valid(l.left) && Valid(l.right)
    ensures Valid(r.left) && Valid(r.right)
    decreases |run|
  {
    if run == [] then l else Run(p, Step(p, l, run[0]), run[1..])
  }

  /** Whatever is sent, received or rejected in either direction, every message under way will decrypt to what
      was sent, and a direction with nothing under way is in step. */
  lemma {:induction false} RunSound(p: Primitives, l: Link, run: seq<Event>)
    requires Lawful(p) && Sound(p, l) && Happens(p, l, run)
    ensures Sound(p, Run(p, l, run))
    decreases |run|
  {
    hide Encrypt, Decrypt, InStep, Lawful, Ready, Step;
    if run != [] {
      StepSound(p, l, run[0]);
      RunSound(p, Step(p, l, run[0]), run[1..]);
    }
  }

  lemma Synchrony(p: Primitives, mode: Byte, key: Bytes, run: seq<Event>)
    requires Lawful(p) && KeyOk(mode, |key|)
    requires
      var c := Fresh(mode, key);
      Valid(c) && Happens(p, Link(c, c, [], []), run)
    ensures
      var l := Run(p, Link(Fresh(mode, key), Fresh(mode, key), [], []), run);
      && (l.toRight == [] ==> InStep(l.left, l.right)) && (l.toLeft == [] ==> InStep(l.right, l.left))
      && (l.toRight != [] ==>
            Decrypt(p, l.right, l.toRight[0].data, l.toRight[0].id).Done?
            && Decrypt(p, l.right, l.toRight[0].data, l.toRight[0].id).data == l.toRight[0].plain)
      && (l.toLeft != [] ==>
            Decrypt(p, l.left, l.toLeft[0].data, l.toLeft[0].id).Done?
            && Decrypt(p, l.left, l.toLeft[0].data, l.toLeft[0].id).data == l.toLeft[0].plain)
  {
    hide Encrypt, Decrypt, Lawful, Happens, Run;
    FreshInStep(mode, key);
    RunSound(p, Link(Fresh(mode, key), Fresh(mode, key), [], []), run);
  }

  // ----- Nonces

  lemma NonceInjective(id: Word32, n: nat, id': Word32, n': nat)
    requires n < COUNTERS && n' < COUNTERS
    ensures Nonce(id, n) == Nonce(id', n') <==> id == id' && n == n'
  {
    if Nonce(id, n) == Nonce(id', n') {
      Pow256Values();
      assert Nonce(id, n)[..4] == Big(id, 4) && Nonce(id', n')[..4] == Big(id', 4);
      assert Nonce(id, n)[4..] == Big(n, 8) && Nonce(id', n')[4..] == Big(n', 8);
      BigInjective(id, id', 4);
      BigInjective(n, n', 8);
    }
  }

  datatype Message = Message(id: Word32, plain: Bytes, capacity: nat)

  /** The sender after some messages, those that failed included. */
  ghost function Sent(p: Primitives, c: Ctx, ms: seq<Message>): (r: Ctx)
    requires Lawful(p) && Valid(c)
    ensures Valid(r)
    decreases |ms|
  {
    if ms == [] then c
    else
      var n := |ms| - 1;
      var before := Sent(p, c, ms[..n]);
      match Encrypt(p, before, ms[n].plain, ms[n].capacity, ms[n].id)
      case Failed => before
      case Done(after, _) => after
  }

  ghost predicate Goes(p: Primitives, c: Ctx, ms: seq<Message>, i: nat)
    requires Lawful(p) && Valid(c) && i < |ms|
  {
    Encrypt(p, Sent(p, c, ms[..i]), ms[i].plain, ms[i].capacity, ms[i].id).Done?
  }

  /** The counter moves by one for every message that goes out and by none for one that fails. */
  ghost function Count(p: Primitives, c: Ctx, ms: seq<Message>): (n: nat)
    requires Lawful(p) && Valid(c)
    ensures n <= |ms|
    decreases |ms|
  {
    if ms == [] then 0
    else Count(p, c, ms[..|ms| - 1]) + if Goes(p, c, ms, |ms| - 1) then 1 else 0
  }

  lemma TickMod(n: nat)
    ensures Tick(n % COUNTERS) == (n + 1) % COUNTERS
  {
    var q, r := n / COUNTERS, n % COUNTERS;
    assert n == COUNTERS * q + r;
    if r + 1 < COUNTERS {
      DivModUnique(n + 1, COUNTERS, q, r + 1);
    } else {
      DivModUnique(n + 1, COUNTERS, q + 1, 0);
    }
  }

  lemma {:induction false} CounterIs(p: Primitives, c: Ctx, ms: seq<Message>)
    requires Lawful(p) && Valid(c) && c.mode == GCM
    ensures Sent(p, c, ms).mode == GCM && Sent(p, c, ms).key == c.key
    ensures Sent(p, c, ms).tx == (c.tx + Count(p, c, ms)) % COUNTERS
    decreases |ms|
  {
    hide Lawful, Nonce, Big;
    if ms == [] {
      Small(c.tx, COUNTERS);
    } else {
      var n := |ms| - 1;
      CounterIs(p, c, ms[..n]);
      TickMod(c.tx + Count(p, c, ms[..n]));
    }
  }

  lemma {:induction false} CountGrows(p: Primitives, c: Ctx, ms: seq<Message>, i: nat, j: nat)
    requires Lawful(p) && Valid(c) && i < j <= |ms|
    ensures Count(p, c, ms[..i]) + (if Goes(p, c, ms, i) then 1 else 0) <= Count(p, c, ms[..j]) <=
            Count(p, c, ms[..i]) + j - i
    decreases j
  {
    hide Encrypt, Lawful, Sent;
    assert ms[..j][..j - 1] == ms[..j - 1];
    if i + 1 < j {
      CountGrows(p, c, ms, i, j - 1);
    }
  }

  lemma SameRemainder(x: nat, y: nat, m: nat)
    requires x <= y && 0 < m
    ensures x % m == y % m <==> (y - x) % m == 0
  {
    var q, r := x / m, x % m;
    assert x == m * q + r;
    if (y - x) % m == 0 {
      var k := (y - x) / m;
      assert y - x == m * k;
      assert y == m * (q + k) + r by {
        assert m * (q + k) == m * q + m * k;
      }
      DivModUnique(y, m, q + k, r);
    } else if x % m == y % m {
      var k := y / m;
      assert y == m * k + r;
      assert y - x == m * (k - q) by {
        assert m * (k - q) == m * k - m * q;
      }
      DivModUnique(y - x, m, k - q, 0);
      assert false;
    }
  }

  /** Two messages of one direction use the same nonce only if they carry the same number and a multiple of
      2^64 messages went out from one to the other. */
  lemma NoncesDistinct(p: Primitives, c: Ctx, ms: seq<Message>, i: nat, j: nat)
    requires Lawful(p) && Valid(c) && c.mode == GCM && i < j < |ms|
    requires Goes(p, c, ms, i) && Goes(p, c, ms, j)
    ensures Nonce(ms[i].id, Sent(p, c, ms[..i]).tx) == Nonce(ms[j].id, Sent(p, c, ms[..j]).tx) <==>
      ms[i].id == ms[j].id && (Count(p, c, ms[..j]) - Count(p, c, ms[..i])) % COUNTERS == 0
    ensures j - i < COUNTERS ==>
      Nonce(ms[i].id, Sent(p, c, ms[..i]).tx) != Nonce(ms[j].id, Sent(p, c, ms[..j]).tx)
  {
    hide Lawful, Encrypt, Sent, Count, Nonce, Goes;
    var a, b := Count(p, c, ms[..i]), Count(p, c, ms[..j]);
    CounterIs(p, c, ms[..i]);
    CounterIs(p, c, ms[..j]);
    CountGrows(p, c, ms, i, j);
    NonceInjective(ms[i].id, (c.tx + a) % COUNTERS, ms[j].id, (c.tx + b) % COUNTERS);
    SameRemainder(c.tx + a, c.tx + b, COUNTERS);
    if b - a < COUNTERS {
      Small(b - a, COUNTERS);
    }
  }
}
