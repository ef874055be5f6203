/** The builders and the parser over buffers: fields are written one after the other, and the payload is
    encrypted where the session has a cipher. */
module MessagesCode {
  import opened Bits
  import opened Common
  import opened Wire
  import opened Session
  import opened Messages
  import S = SessionCode

  /** Writes at the end of what is there already. */
  method Append(a: array<Byte>, at: nat, s: seq<Byte>) returns (end: nat)
    requires at + |s| <= a.Length
    modifies a
    ensures end == at + |s| && a[..end] == old(a[..at]) + s
  {
    Put(a, at, s);
    end := at + |s|;
    assert a[..end] == a[..at] + a[at..end];
  }

  method AppendBe32(a: array<Byte>, at: nat, v: Word32) returns (end: nat)
    requires at + 4 <= a.Length
    modifies a
    ensures end == at + 4 && a[..end] == old(a[..at]) + Big(v, 4)
  {
    S.WriteBe32(a, at, v);
    end := at + 4;
    assert a[..end] == a[..at] + a[at..end];
  }

  method AppendBe16(a: array<Byte>, at: nat, v: Word) returns (end: nat)
    requires at + 2 <= a.Length
    modifies a
    ensures end == at + 2 && a[..end] == old(a[..at]) + Big(v, 2)
  {
    assert Pow256(0) == 1 && Pow256(1) == 256;
    BigAt(v, 2, 0);
    BigAt(v, 2, 1);
    assert Big(v, 2) == [v / 256 % 256, v % 256];
    end := Append(a, at, [v / 256 % 256, v % 256]);
  }

  function HeaderBytes(id: Word32, total: nat, mode: Byte): (s: Bytes)
    requires total <= LIMIT
    ensures |s| == HEADER
  {
    Big(id, 4) + Big(total, 4) + [0, mode] + Big(0, 2)
  }

  method WriteHeader(buffer: array<Byte>, id: Word32, total: nat, mode: Byte)
    requires HEADER <= total <= LIMIT && HEADER <= buffer.Length
    modifies buffer
    ensures buffer[..HEADER] == HeaderBytes(id, total, mode)
  {
    hide Big;
    var at := AppendBe32(buffer, 0, id);
    at := AppendBe32(buffer, at, total);
    at := Append(buffer, at, [0]);
    at := Append(buffer, at, [mode]);
    at := AppendBe16(buffer, at, 0);
    assert Big(id, 4) + Big(total, 4) + [0] + [mode] + Big(0, 2) == HeaderBytes(id, total, mode);
  }

  lemma FramedIs(id: Word32, mode: Byte, payload: Bytes)
    requires HEADER + |payload| <= LIMIT
    ensures Framed(id, mode, payload) == HeaderBytes(id, HEADER + |payload|, mode) + payload
  {
  }

  function Total(mode: Byte, plain: nat): nat {
    HEADER + plain + if mode == GCM then TAG else 0
  }

  method Copy(a: array<Byte>, at: nat, n: nat) returns (b: array<Byte>)
    requires at + n <= a.Length
    ensures fresh(b) && b[..] == a[at..at + n]
  {
    b := new Byte[n](_ => 0);
    Put(b, 0, a[at..at + n]);
    assert b[..] == b[0..n];
  }

  /** The end of every builder: with header and payload in place, the payload is encrypted if there is a
      cipher. */
  method Finish(p: Primitives, buffer: array<Byte>, ghost plain: Bytes, ctx: S.Context, id: Word32, total: nat)
    returns (ok: bool)
    requires Lawful(p) && ctx.WellFormed() && total == Total(ctx.mode, |plain|) <= LIMIT && total <= buffer.Length
    requires buffer[..HEADER + |plain|] == HeaderBytes(id, total, ctx.mode) + plain
    requires buffer != ctx.key && buffer != ctx.rc4Tx.s && buffer != ctx.rc4Rx.s
    modifies buffer, ctx`txCounter, ctx.rc4Tx`i, ctx.rc4Tx`j, ctx.rc4Tx`ready, ctx.rc4Tx.s
    ensures ctx.WellFormed()
    ensures ok == Build(p, old(ctx.View()), id, plain, total).Built?
    ensures ok ==> Build(p, old(ctx.View()), id, plain, total) == Built(buffer[..total], ctx.View())
    ensures !ok ==> ctx.View() == old(ctx.View())
  {
    hide Big, HeaderBytes, Framed, Lawful;
    if ctx.mode == NONE {
      FramedIs(id, NONE, plain);
      return true;
    }
    var n := total - HEADER;
    var payload := Copy(buffer, HEADER, n);
    assert payload[..n] == payload[..];
    ghost var text := payload[..n];
    ghost var c := ctx.View();
    BuildSucceeds(p, c, id, plain, total);
    EncryptSucceeds(p, c, text, n, id);
    var outLen: nat;
    ok, outLen := ctx.Encrypt(p, payload, n, n, id);
    if ok {
      assert text == plain by {
        assert buffer[..HEADER + |plain|][HEADER..] == plain;
      }
      FramedIs(id, c.mode, payload[..n]);
      assert payload[..n] == payload[..];
      ghost var head := buffer[..HEADER];
      assert head == HeaderBytes(id, total, c.mode) by {
        assert buffer[..HEADER + |plain|][..HEADER] == HeaderBytes(id, total, c.mode);
      }
      var end := Append(buffer, HEADER, payload[..]);
    }
  }

  /** Only too little room or too long a message matters, not how much room. */
  lemma RoomEnough(p: Primitives, c: Ctx, id: Word32, plain: Bytes, room: nat)
    requires Lawful(p) && Valid(c)
    ensures Total(c.mode, |plain|) <= room ==>
      Build(p, c, id, plain, room) == Build(p, c, id, plain, Total(c.mode, |plain|))
    ensures room < Total(c.mode, |plain|) || Total(c.mode, |plain|) > LIMIT ==> Build(p, c, id, plain, room).Refused?
  {
  }

  method BuildEcm(p: Primitives, buffer: array<Byte>, caid: Word, provid: Word, sid: Word, data: Bytes,
      ctx: S.Context) returns (ok: bool, len: nat)
    requires Lawful(p) && ctx.WellFormed() && |data| < 0x1_0000
    requires buffer != ctx.key && buffer != ctx.rc4Tx.s && buffer != ctx.rc4Rx.s
    modifies buffer, ctx`txCounter, ctx.rc4Tx`i, ctx.rc4Tx`j, ctx.rc4Tx`ready, ctx.rc4Tx.s
    ensures ctx.WellFormed()
    ensures ok == Build(p, old(ctx.View()), ECM, EcmPayload(EcmFields(caid, provid, sid, data)), buffer.Length).Built?
    ensures ok ==> len <= buffer.Length
    ensures ok ==>
      Build(p, old(ctx.View()), ECM, EcmPayload(EcmFields(caid, provid, sid, data)), buffer.Length)
        == Built(buffer[..len], ctx.View())
    ensures !ok ==> ctx.View() == old(ctx.View())
  {
    hide Big, HeaderBytes, Build, Lawful;
    ghost var plain := EcmPayload(EcmFields(caid, provid, sid, data));
    var total := Total(ctx.mode, 6 + |data|);
    RoomEnough(p, ctx.View(), ECM, plain, buffer.Length);
    if buffer.Length < total || total > LIMIT {
      return false, buffer.Length;
    }
    WriteHeader(buffer, ECM, total, ctx.mode);
    var at := AppendBe16(buffer, HEADER, caid);
    at := AppendBe16(buffer, at, provid);
    at := AppendBe16(buffer, at, sid);
    at := Append(buffer, at, data);
    ghost var head := HeaderBytes(ECM, total, ctx.mode);
    assert head + Big(caid, 2) + Big(provid, 2) + Big(sid, 2) + data == head + plain;
    len := total;
    ok := Finish(p, buffer, plain, ctx, ECM, total);
  }

  method BuildCw(p: Primitives, buffer: array<Byte>, f: CwFields, ctx: S.Context) returns (ok: bool, len: nat)
    requires Lawful(p) && ctx.WellFormed() && |f.cw| == 16
    requires buffer != ctx.key && buffer != ctx.rc4Tx.s && buffer != ctx.rc4Rx.s
    modifies buffer, ctx`txCounter, ctx.rc4Tx`i, ctx.rc4Tx`j, ctx.rc4Tx`ready, ctx.rc4Tx.s
    ensures ctx.WellFormed()
    ensures ok == Build(p, old(ctx.View()), CW, CwPayload(f), buffer.Length).Built?
    ensures ok ==> len <= buffer.Length
    ensures ok ==>
      Build(p, old(ctx.View()), CW, CwPayload(f), buffer.Length) == Built(buffer[..len], ctx.View())
    ensures !ok ==> ctx.View() == old(ctx.View())
  {
    hide Big, HeaderBytes, Build, Lawful;
    ghost var plain := CwPayload(f);
    var total := Total(ctx.mode, 27);
    RoomEnough(p, ctx.View(), CW, plain, buffer.Length);
    if buffer.Length < total || total > LIMIT {
      return false, buffer.Length;
    }
    WriteHeader(buffer, CW, total, ctx.mode);
    var at := AppendBe32(buffer, HEADER, f.time);
    at := Append(buffer, at, f.cw);
    at := Append(buffer, at, [f.hop]);
    at := AppendBe16(buffer, at, f.caid);
    at := AppendBe16(buffer, at, f.provid);
    at := AppendBe16(buffer, at, f.sid);
    ghost var head := HeaderBytes(CW, total, ctx.mode);
    assert head + Big(f.time, 4) + f.cw + [f.hop] + Big(f.caid, 2) + Big(f.provid, 2) + Big(f.sid, 2) == head + plain;
    len := total;
    ok := Finish(p, buffer, plain, ctx, CW, total);
  }

  /** Refuses names that are empty or too long, and writes both with their zero. */
  method BuildLogin(buffer: array<Byte>, l: Login) returns (ok: bool, len: nat)
    requires |l.handshake| == 16 && 0 !in l.user && 0 !in l.pass
    modifies buffer
    ensures ok == (IsName(l.user) && IsName(l.pass) && HEADER + |LoginPayload(l)| <= buffer.Length)
    ensures ok ==> len <= buffer.Length && buffer[..len] == Framed(LOGIN, NONE, LoginPayload(l))
    ensures !ok ==> buffer[..] == old(buffer[..])
  {
    hide Big, HeaderBytes, Framed;
    len := buffer.Length;
    if |l.user| == 0 || |l.pass| == 0 || |l.user| > 63 || |l.pass| > 63 {
      return false, len;
    }
    var total := HEADER + 16 + |l.user| + 1 + |l.pass| + 1 + 4;
    if buffer.Length < total || total > LIMIT {
      return false, len;
    }
    WriteHeader(buffer, LOGIN, total, NONE);
    var at := Append(buffer, HEADER, l.handshake);
    at := Append(buffer, at, l.user + [0]);
    at := Append(buffer, at, l.pass + [0]);
    at := AppendBe32(buffer, at, l.version);
    ghost var head := HeaderBytes(LOGIN, total, NONE);
    assert head + l.handshake + (l.user + [0]) + (l.pass + [0]) + Big(l.version, 4) == head + LoginPayload(l);
    FramedIs(LOGIN, NONE, LoginPayload(l));
    ok, len := true, total;
  }

  method ReadBe32(a: array<Byte>, at: nat) returns (v: Word32)
    requires at + 4 <= a.Length
    ensures v == Value(a[at..at + 4])
  {
    Value4(a[at..at + 4]);
    v := a[at] as int * 0x100_0000 + a[at + 1] as int * 0x1_0000 + a[at + 2] as int * 0x100 + a[at + 3] as int;
  }

  method ReadHeader(buffer: array<Byte>) returns (h: Header)
    requires HEADER <= buffer.Length
    ensures h == HeaderOf(buffer[..])
  {
    hide Value;
    var id := ReadBe32(buffer, 0);
    var length := ReadBe32(buffer, 4);
    Value2(buffer[10..12]);
    var reserved := buffer[10] as int * 256 + buffer[11] as int;
    h := Header(id, length, buffer[8], buffer[9], reserved);
    assert buffer[..][..4] == buffer[0..4] && buffer[..][4..8] == buffer[4..8] && buffer[..][10..12] == buffer[10..12];
  }

  /** Copies the payload out of the buffer and decrypts the copy. */
  method ParseMessage(p: Primitives, buffer: array<Byte>, ctx: S.Context) returns (ok: bool, h: Header, payload: Bytes)
    requires Lawful(p) && ctx.WellFormed()
    requires buffer != ctx.key && buffer != ctx.rc4Tx.s && buffer != ctx.rc4Rx.s
    modifies ctx`rxCounter, ctx.rc4Rx`i, ctx.rc4Rx`j, ctx.rc4Rx`ready, ctx.rc4Rx.s
    ensures ctx.WellFormed()
    ensures ok == Parse(p, buffer[..], old(ctx.View())).Good?
    ensures ok ==> Parse(p, buffer[..], old(ctx.View())) == Good(h, payload, ctx.View())
    ensures !ok ==> ctx.View() == old(ctx.View())
  {
    hide HeaderOf, Lawful;
    h, payload := Header(0, 0, 0, 0, 0), [];
    if buffer.Length < HEADER {
      return false, h, payload;
    }
    h := ReadHeader(buffer);
    if h.length as int < HEADER {
      return false, h, payload;
    }
    if h.length as int > LIMIT || h.length as int > buffer.Length {
      return false, h, payload;
    }
    var n := h.length as int - HEADER;
    if n == 0 {
      return true, h, payload;
    }
    var copy := Copy(buffer, HEADER, n);
    assert copy[..n] == copy[..] == buffer[..][HEADER..h.length];
    if ctx.mode == NONE {
      payload := copy[..];
      ok := true;
    } else {
      var outLen: nat;
      ok, outLen := ctx.Decrypt(p, copy, n, h.id);
      if ok {
        payload := copy[..outLen];
      }
    }
  }
}
