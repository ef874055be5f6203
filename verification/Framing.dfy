/** Reading whole messages from a byte stream that arrives in pieces of any size. */
module Framing {
  import opened Bits
  import opened Common
  import opened Wire
  import opened Messages

  type Bytes = seq<Byte>

  function Flatten(chunks: seq<Bytes>): Bytes {
    if chunks == [] then [] else chunks[0] + Flatten(chunks[1..])
  }

  /** The length field of a header that has just been read. */
  method TotalOf(header: array<Byte>, ghost all: Bytes) returns (total: nat)
    requires header.Length == HEADER <= |all| && header[..] == all[..HEADER]
    ensures total == Value(all[4..8])
  {
    assert header[4..8] == header[..][4..8] && all[..HEADER][4..8] == all[4..8];
    Value4(header[4..8]);
    total := header[4] as int * 0x100_0000 + header[5] as int * 0x1_0000 + header[6] as int * 0x100 + header[7] as int;
  }

  lemma Assemble(all: Bytes, total: nat)
    requires HEADER <= total <= |all|
    ensures all[..total] == all[..HEADER] + all[HEADER..][..total - HEADER]
    ensures all[total..] == all[HEADER..][total - HEADER..]
  {
  }

  /** The first message of a stream for a reader with this much room. */
  function Split(s: Bytes, room: nat): (c: Cut)
    ensures c.Message? ==> HEADER <= |c.bytes| && |c.bytes| + |c.rest| == |s|
  {
    if |s| < HEADER then Broken
    else
      var total := Value(s[4..8]);
      if total < HEADER || total > LIMIT || total > room || |s| < total then Broken
      else Message(s[..total], s[total..])
  }

  /** The length is four bytes of the header, the most significant first; it counts the header's twelve bytes, and
      neither it nor the reader's room may be exceeded, nor 4096. */
  lemma SplitLaw(s: Bytes, room: nat)
    ensures |s| < 12 ==> Split(s, room).Broken?
    ensures |s| >= 12 ==>
      var n := s[4] as int * 0x100_0000 + s[5] as int * 0x1_0000 + s[6] as int * 0x100 + s[7];
      Split(s, room) == if n < 12 || n > 4096 || n > room || n > |s| then Broken else Message(s[..n], s[n..])
  {
    hide Value;
    if |s| >= 12 {
      Value4(s[4..8]);
    }
  }

  /** `n` more bytes stand behind the `m` that were there. */
  lemma Grown(all: Bytes, before: Bytes, now: Bytes, at: nat, m: nat, n: nat)
    requires m + n <= |all| && at + m + n <= |now| == |before|
    requires before[at..at + m] == all[..m] && now[..at + m] == before[..at + m]
    requires now[at + m..at + m + n] == all[m..][..n]
    ensures now[at..at + m + n] == all[..m + n] && now[..at] == before[..at]
    ensures all[m..][n..] == all[m + n..]
  {
    assert now[at..at + m] == now[..at + m][at..] && before[at..at + m] == before[..at + m][at..];
    assert now[at..at + m + n] == now[at..at + m] + now[at + m..at + m + n];
    assert all[..m + n] == all[..m] + all[m..][..n];
    assert now[..at] == now[..at + m][..at] && before[..at] == before[..at + m][..at];
  }

  lemma TakenOff(first: Bytes, rest: Bytes, n: nat)
    requires n <= |first|
    ensures (first + rest)[..n] == first[..n] && (first + rest)[n..] == first[n..] + rest
    ensures n == |first| ==> (first + rest)[n..] == rest
  {
  }

  /** A socket: the pieces still to come, none of them empty. When they are used up the peer has closed the
      connection. */
  class Socket {
    var chunks: seq<Bytes>

    ghost predicate Valid()
      reads this
    {
      forall i :: 0 <= i < |chunks| ==> chunks[i] != []
    }

    ghost function Content(): Bytes
      reads this
    {
      Flatten(chunks)
    }

    constructor (chunks: seq<Bytes>)
      requires forall i :: 0 <= i < |chunks| ==> chunks[i] != []
      ensures Valid() && this.chunks == chunks
    {
      this.chunks := chunks;
    }

    /** At most `want` bytes, no more than the piece that is there; none at the end. */
    method Recv(a: array<Byte>, at: nat, want: nat) returns (n: nat)
      requires Valid() && 0 < want && at + want <= a.Length
      modifies this, a
      ensures Valid() && n <= want && n <= |old(Content())|
      ensures n == 0 <==> old(Content()) == []
      ensures a[at..at + n] == old(Content())[..n] && Content() == old(Content())[n..]
      ensures a[..at] == old(a[..at])
    {
      if chunks == [] {
        return 0;
      }
      ghost var all := Content();
      var first := chunks[0];
      ghost var rest := chunks[1..];
      n := if |first| <= want then |first| else want;
      Put(a, at, first[..n]);
      TakenOff(first, Flatten(rest), n);
      if n == |first| {
        chunks := chunks[1..];
      } else {
        chunks := [first[n..]] + chunks[1..];
        assert chunks[1..] == rest;
      }
    }

    /** One pass of the loop below: `received` bytes of the stream `all` are there, and `n` more come. */
    method RecvMore(a: array<Byte>, at: nat, received: nat, len: nat, ghost all: Bytes) returns (n: nat)
      requires Valid() && received < len && at + len <= a.Length && received <= |all|
      requires Content() == all[received..] && a[at..at + received] == all[..received]
      modifies this, a
      ensures Valid() && received + n <= len && received + n <= |all|
      ensures n == 0 <==> received == |all|
      ensures Content() == all[received + n..] && a[at..at + received + n] == all[..received + n]
      ensures a[..at] == old(a[..at])
    {
      hide Flatten;
      ghost var before := a[..];
      n := Recv(a, at + received, len - received);
      Grown(all, before, a[..], at, received, n);
    }

    /** Reads until `len` bytes are there or the stream ends. */
    method RecvExact(a: array<Byte>, at: nat, len: nat) returns (ok: bool)
      requires Valid() && at + len <= a.Length
      modifies this, a
      ensures Valid() && ok == (len <= |old(Content())|)
      ensures ok ==> a[at..at + len] == old(Content())[..len] && Content() == old(Content())[len..]
      ensures a[..at] == old(a[..at])
    {
      hide Flatten;
      ghost var all := Content();
      var received := 0;
      assert all[0..] == all && all[..0] == [] == a[at..at + 0];
      while received < len
        invariant Valid() && received <= len && received <= |all|
        invariant Content() == all[received..]
        invariant a[at..at + received] == all[..received]
        invariant a[..at] == old(a[..at])
      {
        var n := RecvMore(a, at, received, len, all);
        if n == 0 {
          return false;
        }
        received := received + n;
      }
      ok := true;
    }

    /** The header into the buffer, and what belongs to it behind it. */
    method ReadRest(header: array<Byte>, buffer: array<Byte>, total: nat, ghost all: Bytes) returns (ok: bool)
      requires Valid() && header.Length == HEADER <= total <= buffer.Length && header != buffer
      requires HEADER <= |all| && header[..] == all[..HEADER] && Content() == all[HEADER..]
      modifies this, buffer
      ensures Valid() && ok == (total <= |all|)
      ensures ok ==> buffer[..total] == all[..total] && Content() == all[total..]
    {
      hide Flatten;
      Put(buffer, 0, header[..]);
      assert buffer[..HEADER] == buffer[0..HEADER];
      ok := RecvExact(buffer, HEADER, total - HEADER);
      if ok {
        Assemble(all, total);
        assert buffer[HEADER..HEADER + (total - HEADER)] == buffer[HEADER..total];
        assert buffer[..total] == buffer[..HEADER] + buffer[HEADER..total];
      }
    }

    /** One whole message into the buffer, or a refusal. */
    method ReadMessage(buffer: array<Byte>) returns (ok: bool, len: nat)
      requires Valid()
      modifies this, buffer
      ensures Valid() && ok == Split(old(Content()), buffer.Length).Message?
      ensures ok ==> len <= buffer.Length
      ensures ok ==> Split(old(Content()), buffer.Length) == Message(buffer[..len], Content())
    {
      hide Value, Flatten;
      ghost var all := Content();
      var header := new Byte[HEADER](_ => 0);
      ok := RecvExact(header, 0, HEADER);
      if !ok {
        return false, 0;
      }
      assert header[..] == header[0..HEADER] == all[..HEADER];
      var total := TotalOf(header, all);
      if total < HEADER || total > LIMIT || total > buffer.Length {
        return false, 0;
      }
      ok := ReadRest(header, buffer, total, all);
      len := total;
    }
  }

  // ----- What a stream means

  datatype Cut = Message(bytes: Bytes, rest: Bytes) | Broken

  /** A message says its own length. */
  predicate IsMessage(m: Bytes) {
    HEADER <= |m| <= LIMIT && Value(m[4..8]) == |m|
  }

  lemma FramedIsMessage(id: Word32, mode: Byte, payload: Bytes)
    requires HEADER + |payload| <= LIMIT
    ensures IsMessage(Framed(id, mode, payload))
  {
    hide Framed;
    HeaderOfFramed(id, mode, payload, []);
    assert Framed(id, mode, payload) + [] == Framed(id, mode, payload);
  }

  lemma SplitFirst(m: Bytes, rest: Bytes, room: nat)
    requires IsMessage(m) && |m| <= room
    ensures Split(m + rest, room) == Message(m, rest)
  {
    hide Value;
    assert (m + rest)[4..8] == m[4..8];
    assert (m + rest)[..|m|] == m && (m + rest)[|m|..] == rest;
  }

  /** All the messages of a stream, up to where it breaks off. */
  function SplitAll(s: Bytes, room: nat): seq<Bytes>
    decreases |s|
  {
    match Split(s, room)
    case Broken => []
    case Message(m, rest) => [m] + SplitAll(rest, room)
  }

  /** However the bytes arrive, messages sent one after the other are read back one by one, and what was sent
      of an incomplete one is not delivered. */
  lemma {:induction false} SplitsBack(ms: seq<Bytes>, tail: Bytes, room: nat)
    requires forall i :: 0 <= i < |ms| ==> IsMessage(ms[i]) && |ms[i]| <= room
    requires Split(tail, room).Broken?
    ensures SplitAll(Flatten(ms) + tail, room) == ms
  {
    hide Split, Value;
    if ms == [] {
      assert Flatten(ms) + tail == tail;
    } else {
      SplitsBack(ms[1..], tail, room);
      assert Flatten(ms) + tail == ms[0] + (Flatten(ms[1..]) + tail);
      SplitFirst(ms[0], Flatten(ms[1..]) + tail, room);
    }
  }

  /** A message that is not all there yet is not taken for one. */
  lemma IncompleteBreaks(m: Bytes, n: nat, room: nat)
    requires IsMessage(m) && n < |m|
    ensures Split(m[..n], room).Broken?
  {
    hide Value;
    if HEADER <= n {
      assert m[..n][4..8] == m[4..8];
    }
  }

  /** Reads messages until the stream breaks off. */
  method ReadAll(socket: Socket, buffer: array<Byte>) returns (ms: seq<Bytes>)
    requires socket.Valid()
    modifies socket, buffer
    ensures ms == SplitAll(old(socket.Content()), buffer.Length)
  {
    hide Split;
    ghost var all := socket.Content();
    ms := [];
    var ok := true;
    while ok
      invariant socket.Valid()
      invariant ok ==> ms + SplitAll(socket.Content(), buffer.Length) == SplitAll(all, buffer.Length)
      invariant !ok ==> ms == SplitAll(all, buffer.Length)
      decreases ok, |socket.Content()|
    {
      ghost var before := socket.Content();
      var len: nat;
      ok, len := socket.ReadMessage(buffer);
      if ok {
        assert SplitAll(before, buffer.Length) == [buffer[..len]] + SplitAll(socket.Content(), buffer.Length);
        ms := ms + [buffer[..len]];
      } else {
        assert SplitAll(before, buffer.Length) == [];
      }
    }
  }
}
