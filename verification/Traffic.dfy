/** A sender's messages through the session, the wire and the stream: built one after the other, read back from
    bytes that arrive in pieces, and parsed. */
module Traffic {
  import opened Bits
  import opened Session
  import opened Messages
  import Framing

  datatype Note = Note(id: Word32, plain: seq<Byte>)

  /** What is sent of some messages: their bytes, the messages that were not refused, and the sender
      afterwards. */
  datatype Outbound = Outbound(bytes: seq<seq<Byte>>, notes: seq<Note>, ctx: Ctx)

  datatype Inbound = Inbound(notes: seq<Note>, ctx: Ctx)

  ghost function SendAll(p: Primitives, c: Ctx, ms: seq<Note>, room: nat): (o: Outbound)
    requires Lawful(p) && Valid(c)
    ensures Valid(o.ctx)
    decreases |ms|
  {
    if ms == [] then Outbound([], [], c)
    else match Build(p, c, ms[0].id, ms[0].plain, room)
         case Refused => SendAll(p, c, ms[1..], room)
         case Built(buf, after) =>
           var o := SendAll(p, after, ms[1..], room);
           Outbound([buf] + o.bytes, [ms[0]] + o.notes, o.ctx)
  }

  /** The receiver parses message after message, up to the first that it refuses. */
  ghost function ParseAll(p: Primitives, c: Ctx, bs: seq<seq<Byte>>): (i: Inbound)
    requires Lawful(p) && Valid(c)
    ensures Valid(i.ctx)
    decreases |bs|
  {
    if bs == [] then Inbound([], c)
    else match Parse(p, bs[0], c)
         case Bad => Inbound([], c)
         case Good(h, payload, after) =>
           var i := ParseAll(p, after, bs[1..]);
           Inbound([Note(h.id, payload)] + i.notes, i.ctx)
  }

  lemma BuiltIsMessage(p: Primitives, c: Ctx, m: Note, room: nat)
    requires Lawful(p) && Valid(c) && Build(p, c, m.id, m.plain, room).Built?
    ensures Framing.IsMessage(Build(p, c, m.id, m.plain, room).buf)
    ensures |Build(p, c, m.id, m.plain, room).buf| <= LIMIT
  {
    hide Framed, Framing.IsMessage, Encrypt;
    var buf := Build(p, c, m.id, m.plain, room).buf;
    if c.mode == NONE {
      Framing.FramedIsMessage(m.id, NONE, m.plain);
    } else {
      BuildSucceeds(p, c, m.id, m.plain, room);
      var data := Encrypt(p, c, m.plain, |m.plain|, m.id).data;
      assert HEADER + |m.plain| - HEADER == |m.plain|;
      Framing.FramedIsMessage(m.id, c.mode, data);
    }
  }

  lemma {:induction false} AllAreMessages(p: Primitives, c: Ctx, ms: seq<Note>, room: nat)
    requires Lawful(p) && Valid(c)
    ensures forall b :: b in SendAll(p, c, ms, room).bytes ==> Framing.IsMessage(b) && |b| <= LIMIT
    decreases |ms|
  {
    hide Build, Framing.IsMessage, Lawful;
    if ms != [] {
      match Build(p, c, ms[0].id, ms[0].plain, room)
      case Refused => AllAreMessages(p, c, ms[1..], room);
      case Built(_, after) =>
        BuiltIsMessage(p, c, ms[0], room);
        AllAreMessages(p, after, ms[1..], room);
    }
  }

  lemma {:induction false} AllParse(p: Primitives, c: Ctx, receiver: Ctx, ms: seq<Note>, room: nat)
    requires Lawful(p) && Valid(c) && Valid(receiver) && InStep(c, receiver)
    ensures
      var o := SendAll(p, c, ms, room);
      var i := ParseAll(p, receiver, o.bytes);
      i.notes == o.notes && InStep(o.ctx, i.ctx)
    decreases |ms|
  {
    hide Build, Parse, Lawful, InStep;
    if ms != [] {
      match Build(p, c, ms[0].id, ms[0].plain, room)
      case Refused => AllParse(p, c, receiver, ms[1..], room);
      case Built(buf, after) =>
        BuildThenParse(p, c, receiver, ms[0].id, ms[0].plain, room, []);
        assert buf + [] == buf;
        AllParse(p, after, Parse(p, buf, receiver).ctx, ms[1..], room);
        var o := SendAll(p, after, ms[1..], room);
        assert SendAll(p, c, ms, room).bytes[1..] == o.bytes;
    }
  }

  /** Whatever is sent, and however the bytes are cut up on the way: the stream splits back into the messages
      that were built, they parse to what was sent, and the two endpoints end in step. */
  lemma SentIsReceived(p: Primitives, c: Ctx, receiver: Ctx, ms: seq<Note>, room: nat, tail: seq<Byte>)
    requires Lawful(p) && Valid(c) && Valid(receiver) && InStep(c, receiver)
    requires Framing.Split(tail, LIMIT).Broken?
    ensures
      var o := SendAll(p, c, ms, room);
      var bs := Framing.SplitAll(Framing.Flatten(o.bytes) + tail, LIMIT);
      var i := ParseAll(p, receiver, bs);
      bs == o.bytes && i.notes == o.notes && InStep(o.ctx, i.ctx)
  {
    hide SendAll, ParseAll, Framing.IsMessage, Framing.Split, Lawful, InStep;
    var o := SendAll(p, c, ms, room);
    AllAreMessages(p, c, ms, room);
    Framing.SplitsBack(o.bytes, tail, LIMIT);
    AllParse(p, c, receiver, ms, room);
  }

  lemma BuildKeepsMode(p: Primitives, c: Ctx, id: Word32, plain: seq<Byte>, room: nat)
    requires Lawful(p) && Valid(c)
    ensures Build(p, c, id, plain, room).Built? ==> Build(p, c, id, plain, room).ctx.mode == c.mode
  {
    hide Encrypt, Lawful, Framed;
    var total := HEADER + |plain| + if c.mode == GCM then TAG else 0;
    SameKeys(p, c, if c.mode == GCM then plain + seq(TAG, _ => 0) else plain, total - HEADER, id);
  }

  /** In clear and under RC4 no message that fits is refused. */
  lemma {:induction false} NoneRefused(p: Primitives, c: Ctx, ms: seq<Note>, room: nat)
    requires Lawful(p) && Valid(c) && (c.mode == NONE || c.mode == RC4)
    requires forall m :: m in ms ==> 0 < |m.plain| && HEADER + |m.plain| <= room && HEADER + |m.plain| <= LIMIT
    ensures SendAll(p, c, ms, room).notes == ms
    decreases |ms|
  {
    hide Lawful, Build;
    if ms != [] {
      BuildSucceeds(p, c, ms[0].id, ms[0].plain, room);
      BuildKeepsMode(p, c, ms[0].id, ms[0].plain, room);
      var after := Build(p, c, ms[0].id, ms[0].plain, room).ctx;
      NoneRefused(p, after, ms[1..], room);
    }
  }
}
