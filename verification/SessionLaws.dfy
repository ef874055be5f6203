/** Sessions and messages in plain numbers: which bytes go into which cipher, and which byte of a message says
    what. */
module SessionLaws {
  import opened Bits
  import opened Common
  import opened Wire
  import opened Session
  import opened Messages
  import Rc4

  /** Two and four bytes, the most significant first. */
  ghost predicate Word2(s: Bytes, v: int)
    requires |s| == 2
  {
    v == s[0] as int * 0x100 + s[1]
  }

  ghost predicate Word4(s: Bytes, v: int)
    requires |s| == 4
  {
    v == s[0] as int * 0x100_0000 + s[1] as int * 0x1_0000 + s[2] as int * 0x100 + s[3]
  }

  lemma BigWord2(v: Word)
    ensures Word2(Big(v, 2), v)
  {
    hide Big, Value, Pow256;
    Pow256Values();
    BigValue(v, 2);
    Value2(Big(v, 2));
  }

  lemma BigWord4(v: Word32)
    ensures Word4(Big(v, 4), v)
  {
    hide Big, Value, Pow256;
    Pow256Values();
    BigValue(v, 4);
    Value4(Big(v, 4));
  }

  // ----- What goes into the ciphers

  /** The twelve bytes of a message: its number and then the counter. */
  ghost predicate IsNonce(id: Word32, counter: nat, n: Bytes) {
    && |n| == 12 && Word4(n[..4], id)
    && Word4(n[4..8], counter / 0x1_0000_0000) && Word4(n[8..], counter % 0x1_0000_0000)
  }

  lemma PowerTail(v: nat, k: nat)
    requires k < 4
    ensures v / 0x1_0000_0000 / Pow256(k) == v / Pow256(k + 4)
  {
    assert Pow256(1) == 0x100 && Pow256(2) == 0x1_0000 && Pow256(3) == 0x100_0000;
    Pow256Values();
    assert Pow256(5) == 256 * Pow256(4) && Pow256(6) == 256 * Pow256(5) && Pow256(7) == 256 * Pow256(6);
    assert k == 0 || k == 1 || k == 2 || k == 3;
  }

  lemma BigHalves(v: nat)
    ensures Big(v, 8) == Big(v / 0x1_0000_0000, 4) + Big(v, 4)
  {
    var s := Big(v, 8);
    forall i | 0 <= i < 8
      ensures s[i] == (Big(v / 0x1_0000_0000, 4) + Big(v, 4))[i]
    {
      hide Big;
      BigAt(v, 8, i);
      if i < 4 {
        BigAt(v / 0x1_0000_0000, 4, i);
        PowerTail(v, 3 - i);
      } else {
        BigAt(v, 4, i - 4);
      }
    }
  }

  lemma {:induction false} SameValue(s: Bytes, t: Bytes)
    requires |s| == |t| && Value(s) == Value(t)
    ensures s == t
  {
    if s == [] {
    } else {
      var n := |s| - 1;
      SameValue(s[..n], t[..n]);
      assert s == s[..n] + [s[n]] && t == t[..n] + [t[n]];
    }
  }

  lemma BigLow(v: nat)
    ensures Big(v, 4) == Big(v % 0x1_0000_0000, 4)
  {
    hide Big, Value, Pow256;
    Pow256Values();
    ValueOfBig(v, 4);
    ValueOfBig(v % 0x1_0000_0000, 4);
    SameValue(Big(v, 4), Big(v % 0x1_0000_0000, 4));
  }

  lemma NonceIs(id: Word32, counter: nat)
    requires counter < COUNTERS
    ensures IsNonce(id, counter, Nonce(id, counter))
  {
    hide Big;
    var n := Nonce(id, counter);
    BigHalves(counter);
    BigLow(counter);
    BigWord4(id);
    BigWord4(counter / 0x1_0000_0000);
    BigWord4(counter % 0x1_0000_0000);
    assert n[..4] == Big(id, 4) && n[4..8] == Big(counter / 0x1_0000_0000, 4) && n[8..] == Big(counter, 4);
  }

  /** What each mode sends, and what it does to the sending side. */
  lemma EncryptLaw(p: Primitives, c: Ctx, d: Bytes, capacity: nat, id: Word32) returns (n: Bytes)
    requires Lawful(p) && Valid(c) && Encrypt(p, c, d, capacity, id).Done?
    ensures IsNonce(id, c.tx, n) && |p.sha256(n)| == 32
    ensures
      var r := Encrypt(p, c, d, capacity, id);
      && (c.mode == 0x00 ==> r.data == d)
      && (c.mode == 0x01 ==>
            r.data == Rc4.Stream(if c.rc4tx.Running? then c.rc4tx.state else Rc4.Start(c.key), d))
      && (c.mode == 0x02 ==> r.data == p.aesSeal(c.key, p.sha256(n)[..16], d))
      && (c.mode == 0x10 ==> r.data == p.tdesSeal(c.key, p.sha256(n)[..8], d))
      && (c.mode == 0x11 ==> var s := p.gcmSeal(c.key, n, n[..4], d); r.data == s.0 + s.1)
      && r.ctx.mode == c.mode && r.ctx.key == c.key
      && r.ctx.tx == if c.mode >= 0x02 then (c.tx + 1) % 0x1_0000_0000_0000_0000 else c.tx
  {
    hide Big, IsNonce, Rc4.Stream, Rc4.Start, Rc4.After;
    n := Nonce(id, c.tx);
    NonceIs(id, c.tx);
    assert n[..4] == Big(id, 4);
  }

  /** What each mode makes of what it receives. */
  lemma DecryptLaw(p: Primitives, c: Ctx, d: Bytes, id: Word32) returns (n: Bytes)
    requires Lawful(p) && Valid(c) && Decrypt(p, c, d, id).Done?
    ensures IsNonce(id, c.rx, n) && |p.sha256(n)| == 32 && (c.mode == 0x11 ==> |d| >= 16)
    ensures
      var r := Decrypt(p, c, d, id);
      && (c.mode == 0x00 ==> r.data == d)
      && (c.mode == 0x01 ==>
            r.data == Rc4.Stream(if c.rc4rx.Running? then c.rc4rx.state else Rc4.Start(c.key), d))
      && (c.mode == 0x02 ==> r.data == p.aesOpen(c.key, p.sha256(n)[..16], d))
      && (c.mode == 0x10 ==> r.data == p.tdesOpen(c.key, p.sha256(n)[..8], d))
      && (c.mode == 0x11 ==> p.gcmOpen(c.key, n, n[..4], d[..|d| - 16], d[|d| - 16..]) == Some(r.data))
      && r.ctx.mode == c.mode && r.ctx.key == c.key
      && r.ctx.rx == if c.mode >= 0x02 then (c.rx + 1) % 0x1_0000_0000_0000_0000 else c.rx
  {
    hide Big, IsNonce, Rc4.Stream, Rc4.Start, Rc4.After;
    n := Nonce(id, c.rx);
    NonceIs(id, c.rx);
    assert n[..4] == Big(id, 4);
  }

  // ----- What the bytes of a message say

  /** Number, length with the header's twelve bytes, no flags, the mode, nothing, and the payload. */
  lemma FramedBytes(id: Word32, mode: Byte, payload: Bytes)
    requires |payload| <= 4096
    ensures
      var s := Framed(id, mode, payload);
      && |s| == 12 + |payload| && Word4(s[..4], id) && Word4(s[4..8], |s|)
      && s[8] == 0 && s[9] == mode && s[10] == s[11] == 0 && s[12..] == payload
  {
    hide Big;
    var s := Framed(id, mode, payload);
    BigWord4(id);
    BigWord4(|s|);
    BigWord2(0);
    assert s[..4] == Big(id, 4) && s[4..8] == Big(|s|, 4) && s[10] == Big(0, 2)[0] && s[11] == Big(0, 2)[1];
  }

  /** Logins are number 1 on the wire, requests 3, control words 4 and management messages 5. */
  lemma KindsOnTheWire(mode: Byte, payload: Bytes)
    requires |payload| <= 4096
    ensures Framed(LOGIN, mode, payload)[..4] == [0, 0, 0, 1] && Framed(ECM, mode, payload)[..4] == [0, 0, 0, 3]
    ensures Framed(CW, mode, payload)[..4] == [0, 0, 0, 4] && Framed(EMM, mode, payload)[..4] == [0, 0, 0, 5]
  {
    hide Framed, Big;
    FramedBytes(LOGIN, mode, payload);
    FramedBytes(ECM, mode, payload);
    FramedBytes(CW, mode, payload);
    FramedBytes(EMM, mode, payload);
  }

  /** A message is refused if it is shorter than a header, or if its length field says less than a header, more than
      4096 or more than there is; and of a message with nothing behind the header, or in clear, the fields are the
      bytes. */
  lemma ParseLaw(p: Primitives, buf: Bytes, c: Ctx)
    requires Lawful(p) && Valid(c)
    ensures |buf| < 12 ==> Parse(p, buf, c).Bad?
    ensures |buf| >= 12 ==> forall n | Word4(buf[4..8], n) ::
      && (n < 12 || n > 4096 || n > |buf| ==> Parse(p, buf, c).Bad?)
      && (12 <= n <= 4096 && n <= |buf| && (n == 12 || c.mode == 0x00) ==> Parse(p, buf, c).Good?)
    ensures
      var r := Parse(p, buf, c);
      r.Good? ==>
        && |buf| >= 12 && Word4(buf[..4], r.header.id) && Word4(buf[4..8], r.header.length)
        && r.header.flags == buf[8] && r.header.mode == buf[9] && Word2(buf[10..12], r.header.reserved)
        && 12 <= r.header.length <= |buf|
        && (c.mode == 0x00 ==> r.payload == buf[12..r.header.length] && r.ctx == c)
  {
    hide Big, Value, Decrypt;
    if |buf| >= 12 {
      Value4(buf[..4]);
      Value4(buf[4..8]);
      Value2(buf[10..12]);
    }
  }

  /** A request: system, provider and service in two bytes each, then its data. */
  lemma EcmBytes(f: EcmFields)
    ensures
      var s := EcmPayload(f);
      && |s| == 6 + |f.data| && s[6..] == f.data
      && Word2(s[..2], f.caid) && Word2(s[2..4], f.provid) && Word2(s[4..6], f.sid)
  {
    hide Big;
    var s := EcmPayload(f);
    BigWord2(f.caid);
    BigWord2(f.provid);
    BigWord2(f.sid);
    assert s[..2] == Big(f.caid, 2) && s[2..4] == Big(f.provid, 2) && s[4..6] == Big(f.sid, 2);
  }

  /** A control word: the time in four bytes, the word, its hop, and then system, provider and service. */
  lemma CwBytes(f: CwFields)
    requires |f.cw| == 16
    ensures
      var s := CwPayload(f);
      && |s| == 27 && Word4(s[..4], f.time) && s[4..20] == f.cw && s[20] == f.hop
      && Word2(s[21..23], f.caid) && Word2(s[23..25], f.provid) && Word2(s[25..], f.sid)
  {
    hide Big;
    var s := CwPayload(f);
    BigWord4(f.time);
    BigWord2(f.caid);
    BigWord2(f.provid);
    BigWord2(f.sid);
    assert s[..4] == Big(f.time, 4) && s[21..23] == Big(f.caid, 2);
    assert s[23..25] == Big(f.provid, 2) && s[25..] == Big(f.sid, 2);
  }

  /** A login: sixteen bytes, two strings with their zero bytes, and the version in four bytes. */
  lemma LoginBytes(l: Login)
    requires |l.handshake| == 16
    ensures
      var s, u := LoginPayload(l), 16 + |l.user|;
      && |s| == 22 + |l.user| + |l.pass| && s[..16] == l.handshake
      && s[16..u] == l.user && s[u] == 0 && s[u + 1..u + 1 + |l.pass|] == l.pass && s[u + 1 + |l.pass|] == 0
      && Word4(s[|s| - 4..], l.version)
  {
    hide Big;
    var s := LoginPayload(l);
    BigWord4(l.version);
    assert s[|s| - 4..] == Big(l.version, 4);
  }
}
