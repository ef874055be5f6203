/** Messages: a twelve byte header, a payload that the session may have encrypted, and the payloads of logins,
    control word requests and control words. */
module Messages {
  import opened Bits
  import opened Common
  import opened Wire
  import opened Session

  const LOGIN: Word32 := 0x01
  const ECM: Word32 := 0x03
  const CW: Word32 := 0x04
  const EMM: Word32 := 0x05
  const HEADER: nat := 12
  const LIMIT: nat := 4096

  datatype Header = Header(id: Word32, length: Word32, flags: Byte, mode: Byte, reserved: Word)

  function Framed(id: Word32, mode: Byte, payload: Bytes): (s: Bytes)
    requires |payload| <= LIMIT
    ensures |s| == HEADER + |payload|
  {
    Big(id, 4) + Big(HEADER + |payload|, 4) + [0, mode] + Big(0, 2) + payload
  }

  function HeaderOf(buf: Bytes): Header
    requires HEADER <= |buf|
  {
    Value4(buf[..4]);
    Value4(buf[4..8]);
    Value2(buf[10..12]);
    Header(Value(buf[..4]), Value(buf[4..8]), buf[8], buf[9], Value(buf[10..12]))
  }

  datatype Parsed = Bad | Good(header: Header, payload: Bytes, ctx: Ctx)

  ghost function Parse(p: Primitives, buf: Bytes, c: Ctx): (r: Parsed)
    requires Lawful(p) && Valid(c)
    ensures r.Good? ==> Valid(r.ctx)
  {
    if |buf| < HEADER then Bad
    else
      var h := HeaderOf(buf);
      if h.length < HEADER || h.length > LIMIT || h.length > |buf| then Bad
      else if h.length == HEADER then Good(h, [], c)
      else if c.mode == NONE then Good(h, buf[HEADER..h.length], c)
      else match Decrypt(p, c, buf[HEADER..h.length], h.id)
           case Failed => Bad
           case Done(after, text) => Good(h, text, after)
  }

  lemma HeaderOfFramed(id: Word32, mode: Byte, payload: Bytes, rest: Bytes)
    requires HEADER + |payload| <= LIMIT
    ensures HeaderOf(Framed(id, mode, payload) + rest) == Header(id, HEADER + |payload|, 0, mode, 0)
    ensures (Framed(id, mode, payload) + rest)[HEADER..HEADER + |payload|] == payload
  {
    hide Big, Value, Pow256;
    var s := Framed(id, mode, payload) + rest;
    Pow256Values();
    assert s[..4] == Big(id, 4) && s[4..8] == Big(HEADER + |payload|, 4) && s[10..12] == Big(0, 2);
    assert s[8] == 0 && s[9] == mode;
    BigValue(id, 4);
    BigValue(HEADER + |payload|, 4);
    BigValue(0, 2);
  }

  // ----- Building

  datatype Built = Refused | Built(buf: Bytes, ctx: Ctx)

  /** A builder given room for `room` bytes: the length includes room for a tag in GCM mode, and the very same
      length is then the capacity the cipher may use. */
  ghost function Build(p: Primitives, c: Ctx, id: Word32, plain: Bytes, room: nat): (r: Built)
    requires Lawful(p) && Valid(c)
    ensures r.Built? ==> Valid(r.ctx)
  {
    var total := HEADER + |plain| + if c.mode == GCM then TAG else 0;
    if room < total || total > LIMIT then Refused
    else if c.mode == NONE then Built(Framed(id, NONE, plain), c)
    else
      // in GCM mode the tag's place is part of what is to be encrypted
      var text := if c.mode == GCM then plain + seq(TAG, _ => 0) else plain;
      match Encrypt(p, c, text, total - HEADER, id)
      case Failed => Refused
      case Done(after, data) =>
        if HEADER + |data| > LIMIT then Refused else Built(Framed(id, c.mode, data), after)
  }

  /** Exactly when a builder succeeds. In GCM mode it never does. */
  lemma BuildSucceeds(p: Primitives, c: Ctx, id: Word32, plain: Bytes, room: nat)
    requires Lawful(p) && Valid(c)
    ensures Build(p, c, id, plain, room).Built? <==>
      && 12 + |plain| <= room && 12 + |plain| <= 4096
      && c.mode != GCM && (c.mode == NONE || |plain| != 0)
      && (c.mode == AES ==> |plain| % 16 == 0) && (c.mode == TDES ==> |plain| % 8 == 0)
  {
    hide Framed;
    var total := HEADER + |plain| + if c.mode == GCM then TAG else 0;
    if room >= total && total <= LIMIT && c.mode != NONE {
      EncryptSucceeds(p, c, if c.mode == GCM then plain + seq(TAG, _ => 0) else plain, total - HEADER, id);
    }
  }

  /** What a builder makes, a receiver in step parses back, and both are in step again; what follows the
      message in the buffer does not matter. */
  lemma BuildThenParse(p: Primitives, c: Ctx, receiver: Ctx, id: Word32, plain: Bytes, room: nat, rest: Bytes)
    requires Lawful(p) && Valid(c) && Valid(receiver) && InStep(c, receiver)
    requires Build(p, c, id, plain, room).Built?
    ensures
      var b := Build(p, c, id, plain, room);
      var r := Parse(p, b.buf + rest, receiver);
      && r.Good? && r.header == Header(id, HEADER + |plain|, 0, c.mode, 0) && |b.buf| == HEADER + |plain|
      && r.payload == plain && InStep(b.ctx, r.ctx)
  {
    hide Framed, HeaderOf, Encrypt, Decrypt, Lawful;
    BuildSucceeds(p, c, id, plain, room);
    if c.mode == NONE {
      HeaderOfFramed(id, NONE, plain, rest);
    } else {
      var e := Encrypt(p, c, plain, |plain|, id);
      assert HEADER + |plain| - HEADER == |plain|;
      MessageRoundTrip(p, c, receiver, plain, |plain|, id);
      HeaderOfFramed(id, c.mode, e.data, rest);
    }
  }

  // ----- Control word requests

  datatype EcmFields = EcmFields(caid: Word, provid: Word, sid: Word, data: Bytes)

  function EcmPayload(f: EcmFields): (s: Bytes)
    ensures |s| == 6 + |f.data|
  {
    Big(f.caid, 2) + Big(f.provid, 2) + Big(f.sid, 2) + f.data
  }

  function ParseEcm(s: Bytes): Option<EcmFields> {
    if |s| < 6 then None
    else
      var n := (|s| - 6) % 0x1_0000;
      if n > 256 then None
      else Some(EcmFields(s[0] as int * 256 + s[1], s[2] as int * 256 + s[3], s[4] as int * 256 + s[5], s[6..6 + n]))
  }

  lemma WordBack(v: Word)
    ensures Big(v, 2)[0] as int * 256 + Big(v, 2)[1] as int == v
  {
    hide Big, Pow256;
    Pow256Values();
    BigValue(v, 2);
    Value2(Big(v, 2));
  }

  /** The request a server reads is the one sent, if and only if its data fits. */
  lemma EcmRoundTrip(f: EcmFields)
    requires 6 + |f.data| <= LIMIT
    ensures ParseEcm(EcmPayload(f)) == (if |f.data| <= 256 then Some(f) else None)
  {
    hide Big;
    var s := EcmPayload(f);
    WordBack(f.caid);
    WordBack(f.provid);
    WordBack(f.sid);
    assert s[0] == Big(f.caid, 2)[0] && s[1] == Big(f.caid, 2)[1];
    assert s[2] == Big(f.provid, 2)[0] && s[3] == Big(f.provid, 2)[1];
    assert s[4] == Big(f.sid, 2)[0] && s[5] == Big(f.sid, 2)[1];
    assert s[6..6 + |f.data|] == f.data;
  }

  lemma EcmEndToEnd(p: Primitives, c: Ctx, receiver: Ctx, f: EcmFields, room: nat, rest: Bytes)
    requires Lawful(p) && Valid(c) && Valid(receiver) && InStep(c, receiver)
    requires Build(p, c, ECM, EcmPayload(f), room).Built? && |f.data| <= 256
    ensures
      var r := Parse(p, Build(p, c, ECM, EcmPayload(f), room).buf + rest, receiver);
      r.Good? && r.header.id == ECM && ParseEcm(r.payload) == Some(f)
  {
    hide Build, Parse, EcmPayload, ParseEcm;
    BuildThenParse(p, c, receiver, ECM, EcmPayload(f), room, rest);
    EcmRoundTrip(f);
  }

  // ----- Control words

  datatype CwFields = CwFields(time: Word32, cw: Bytes, hop: Byte, caid: Word, provid: Word, sid: Word)

  function CwPayload(f: CwFields): (s: Bytes)
    requires |f.cw| == 16
    ensures |s| == 27
  {
    Big(f.time, 4) + f.cw + [f.hop] + Big(f.caid, 2) + Big(f.provid, 2) + Big(f.sid, 2)
  }

  /** All that the asking side reads of it. */
  function ParseCw(s: Bytes): Option<(Bytes, Byte)> {
    if |s| < 21 then None else Some((s[4..20], s[20]))
  }

  lemma CwRoundTrip(f: CwFields)
    requires |f.cw| == 16
    ensures ParseCw(CwPayload(f)) == Some((f.cw, f.hop))
    ensures Value(CwPayload(f)[..4]) == f.time && Value(CwPayload(f)[21..23]) == f.caid
    ensures Value(CwPayload(f)[23..25]) == f.provid && Value(CwPayload(f)[25..27]) == f.sid
  {
    hide Big, Value, Pow256;
    var s := CwPayload(f);
    Pow256Values();
    assert s[4..20] == f.cw && s[20] == f.hop;
    assert s[..4] == Big(f.time, 4) && s[21..23] == Big(f.caid, 2);
    assert s[23..25] == Big(f.provid, 2) && s[25..27] == Big(f.sid, 2);
    BigValue(f.time, 4);
    BigValue(f.caid, 2);
    BigValue(f.provid, 2);
    BigValue(f.sid, 2);
  }

  /** Its 27 bytes are no multiple of a block: a control word goes out in clear or under RC4, and in no other
      mode. */
  lemma CwModes(p: Primitives, c: Ctx, f: CwFields, room: nat)
    requires Lawful(p) && Valid(c) && |f.cw| == 16
    ensures Build(p, c, CW, CwPayload(f), room).Built? <==> 39 <= room && (c.mode == NONE || c.mode == RC4)
  {
    hide Build, CwPayload;
    BuildSucceeds(p, c, CW, CwPayload(f), room);
  }

  lemma CwEndToEnd(p: Primitives, c: Ctx, receiver: Ctx, f: CwFields, room: nat, rest: Bytes)
    requires Lawful(p) && Valid(c) && Valid(receiver) && InStep(c, receiver) && |f.cw| == 16
    requires Build(p, c, CW, CwPayload(f), room).Built?
    ensures
      var r := Parse(p, Build(p, c, CW, CwPayload(f), room).buf + rest, receiver);
      r.Good? && r.header.id == CW && ParseCw(r.payload) == Some((f.cw, f.hop))
  {
    hide Build, Parse, CwPayload, ParseCw;
    BuildThenParse(p, c, receiver, CW, CwPayload(f), room, rest);
    CwRoundTrip(f);
  }

  // ----- Logins, always in clear

  datatype Login = Login(handshake: Bytes, user: Bytes, pass: Bytes, version: Word32)

  /** C strings end at the first zero byte. */
  predicate IsName(s: Bytes) {
    0 < |s| <= 63 && 0 !in s
  }

  function LoginPayload(l: Login): (s: Bytes)
    requires |l.handshake| == 16
    ensures |s| == 22 + |l.user| + |l.pass|
  {
    l.handshake + l.user + [0] + l.pass + [0] + Big(l.version, 4)
  }

  /** The length of a string, no more than the bytes there are. */
  function StrnLen(s: Bytes): (n: nat)
    ensures n <= |s| && (n < |s| ==> s[n] == 0)
    ensures forall k :: 0 <= k < n ==> s[k] != 0
  {
    if s == [] || s[0] == 0 then 0 else 1 + StrnLen(s[1..])
  }

  function ParseLogin(s: Bytes): Option<Login> {
    if |s| < 22 then None
    else
      var u := StrnLen(s[16..]);
      if u >= |s| - 16 || u >= 64 then None
      else
        var off := 17 + u;
        var w := StrnLen(s[off..]);
        if w >= |s| - off || w >= 64 || off + w + 1 + 4 > |s| then None
        else
          var at := off + w + 1;
          Value4(s[at..at + 4]);
          Some(Login(s[..16], s[16..16 + u], s[off..off + w], Value(s[at..at + 4])))
  }

  lemma StrnLenIs(s: Bytes, n: nat)
    requires n < |s| && s[n] == 0 && forall k :: 0 <= k < n ==> s[k] != 0
    ensures StrnLen(s) == n
  {
    hide StrnLen;
  }

  lemma LoginRoundTrip(l: Login)
    requires |l.handshake| == 16 && IsName(l.user) && IsName(l.pass)
    ensures ParseLogin(LoginPayload(l)) == Some(l)
  {
    hide Big, Value, Pow256, StrnLen;
    var s := LoginPayload(l);
    var u, w := |l.user|, |l.pass|;
    Pow256Values();
    assert s[..16] == l.handshake && s[16..16 + u] == l.user && s[16 + u] == 0;
    assert s[17 + u..17 + u + w] == l.pass && s[17 + u + w] == 0;
    assert s[18 + u + w..22 + u + w] == Big(l.version, 4);
    StrnLenIs(s[16..], u) by {
      assert forall k :: 0 <= k < u ==> s[16..][k] == l.user[k];
    }
    StrnLenIs(s[17 + u..], w) by {
      assert forall k :: 0 <= k < w ==> s[17 + u..][k] == l.pass[k];
    }
    BigValue(l.version, 4);
  }

  lemma LoginEndToEnd(p: Primitives, c: Ctx, l: Login, rest: Bytes)
    requires Lawful(p) && Valid(c) && c.mode == NONE
    requires |l.handshake| == 16 && IsName(l.user) && IsName(l.pass)
    ensures
      var r := Parse(p, Framed(LOGIN, NONE, LoginPayload(l)) + rest, c);
      r.Good? && r.header.id == LOGIN && ParseLogin(r.payload) == Some(l)
  {
    hide Framed, HeaderOf, LoginPayload, ParseLogin, Decrypt;
    HeaderOfFramed(LOGIN, NONE, LoginPayload(l), rest);
    LoginRoundTrip(l);
  }
}
