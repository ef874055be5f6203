/** Program tables of a transport stream: what a well-formed program association or program map section looks
    like, and the parsers that read them back. */
module Sections {
  import opened Bits

  const MAX_CHANNELS: nat := 256

  type Bytes = seq<Byte>
  type Pid = x: int | 0 <= x < 0x2000

  /** Two bytes, and the low twelve or thirteen bits of two bytes, the higher byte first. */
  function WordAt(buf: Bytes, i: nat): Word
    requires i + 2 <= |buf|
  {
    buf[i] as int * 256 + buf[i + 1] as int
  }

  function LengthAt(buf: Bytes, i: nat): (n: nat)
    requires i + 2 <= |buf|
    ensures n < 0x1000
  {
    buf[i] as int % 16 * 256 + buf[i + 1] as int
  }

  function PidAt(buf: Bytes, i: nat): Pid
    requires i + 2 <= |buf|
  {
    buf[i] as int % 32 * 256 + buf[i + 1] as int
  }

  // ----- Program association, section 2.4.4.3 of ISO/IEC 13818-1

  datatype Program = Program(number: Word, pid: Pid)

  /** The bits the standard reserves may have any value. */
  datatype Raw = Raw(number: Word, pid: Pid, reserved: nat)

  function Entry(p: Raw): (s: Bytes)
    requires p.reserved < 8
    ensures |s| == 4
  {
    [p.number / 256, p.number % 256, p.reserved * 32 + p.pid / 256, p.pid % 256]
  }

  predicate Fits(ps: seq<Raw>) {
    forall i :: 0 <= i < |ps| ==> ps[i].reserved < 8
  }

  function Entries(ps: seq<Raw>): (s: Bytes)
    requires Fits(ps)
    ensures |s| == 4 * |ps|
  {
    if ps == [] then [] else Entry(ps[0]) + Entries(ps[1..])
  }

  /** The programs that are not the network information table, in order. */
  function NonZero(ps: seq<Raw>): seq<Program> {
    if ps == [] then []
    else (if ps[0].number == 0 then [] else [Program(ps[0].number, ps[0].pid)]) + NonZero(ps[1..])
  }

  /** One program of a table counts by itself ... */
  lemma NonZeroOne(p: Raw)
    ensures NonZero([p]) == if p.number == 0 then [] else [Program(p.number, p.pid)]
  {
    assert [p][1..] == [];
  }

  /** ... and the programs keep their order. */
  lemma {:induction false} NonZeroConcat(ps: seq<Raw>, qs: seq<Raw>)
    ensures NonZero(ps + qs) == NonZero(ps) + NonZero(qs)
  {
    if ps == [] {
      assert ps + qs == qs;
    } else {
      assert (ps + qs)[1..] == ps[1..] + qs;
      NonZeroConcat(ps[1..], qs);
    }
  }

  function FirstOf<T>(s: seq<T>, n: nat): seq<T> {
    if |s| <= n then s else s[..n]
  }

  /** Length field and five bytes before the entries, a four byte checksum after. */
  ghost predicate IsPat(buf: Bytes, ps: seq<Raw>) {
    && Fits(ps) && 12 + 4 * |ps| <= |buf|
    && buf[0] == 0x00 && LengthAt(buf, 1) == 9 + 4 * |ps|
    && buf[8..8 + 4 * |ps|] == Entries(ps)
  }

  function ReadProgram(buf: Bytes, off: nat): Program
    requires off + 4 <= |buf|
  {
    Program(WordAt(buf, off), PidAt(buf, off + 2))
  }

  /** What the loop still adds from an offset on. */
  function Rest(buf: Bytes, off: nat, end: int, room: nat): seq<Program>
    requires end <= |buf|
    decreases end - off
  {
    if off + 4 > end || room == 0 then []
    else
      var p := ReadProgram(buf, off);
      if p.number == 0 then Rest(buf, off + 4, end, room)
      else [p] + Rest(buf, off + 4, end, room - 1)
  }

  lemma RestStep(buf: Bytes, off: nat, end: int, room: nat, channels: seq<Program>)
    requires off + 4 <= end <= |buf| && room > 0
    ensures
      var p := ReadProgram(buf, off);
      channels + Rest(buf, off, end, room)
      == if p.number == 0 then channels + Rest(buf, off + 4, end, room)
         else channels + [p] + Rest(buf, off + 4, end, room - 1)
  {
    hide ReadProgram;
    var p := ReadProgram(buf, off);
    if p.number != 0 {
      var rest := Rest(buf, off + 4, end, room - 1);
      assert channels + ([p] + rest) == channels + [p] + rest;
    }
  }

  lemma RestStops(buf: Bytes, off: nat, end: int, room: nat)
    requires end <= |buf| && (off + 4 > end || room == 0)
    ensures Rest(buf, off, end, room) == []
  {
  }

  method ParsePat(buf: Bytes, len: nat) returns (ok: bool, channels: seq<Program>)
    requires len <= |buf|
    ensures ok == (8 <= len && buf[0] == 0x00
                   && 9 <= LengthAt(buf, 1) <= len - 3)
    ensures ok ==> channels == Rest(buf, 8, LengthAt(buf, 1) - 1, 256)
    ensures |channels| <= 256 && (!ok ==> channels == [])
  {
    hide Rest;
    channels := [];
    if len < 8 || buf[0] != 0x00 {
      return false, [];
    }
    var sectionLength := LengthAt(buf, 1);
    if sectionLength + 3 > len || sectionLength < 9 {
      return false, [];
    }
    var end := 3 + sectionLength - 4;
    var off := 8;
    while off + 4 <= end && |channels| < MAX_CHANNELS
      invariant 8 <= off && |channels| <= MAX_CHANNELS
      invariant channels + Rest(buf, off, end, MAX_CHANNELS - |channels|) == Rest(buf, 8, end, MAX_CHANNELS)
      decreases end - off
    {
      var program := WordAt(buf, off);
      var pid := PidAt(buf, off + 2);
      RestStep(buf, off, end, MAX_CHANNELS - |channels|, channels);
      off := off + 4;
      if program != 0 {
        channels := channels + [Program(program, pid)];
      }
    }
    RestStops(buf, off, end, MAX_CHANNELS - |channels|);
    ok := true;
  }

  /** The bytes of the section that starts a buffer: its length field counts what follows the field. */
  function SectionOf(buf: Bytes): (n: nat)
    requires |buf| >= 3
    ensures n >= 3
  {
    LengthAt(buf, 1) + 3
  }

  /** Both buffers start with the same whole section; whatever follows it may differ. */
  ghost predicate SameSection(buf: Bytes, len: nat, buf': Bytes, len': nat) {
    && 3 <= len <= |buf| && 3 <= len' <= |buf'|
    && var n := SectionOf(buf);
    n <= len && n <= len' && buf[..n] == buf'[..n]
  }

  lemma SameByte(buf: Bytes, len: nat, buf': Bytes, len': nat, i: nat)
    requires SameSection(buf, len, buf', len') && i < SectionOf(buf)
    ensures i < |buf| && i < |buf'| && buf[i] == buf'[i]
  {
    var n := SectionOf(buf);
    assert buf[i] == buf[..n][i] == buf'[..n][i] == buf'[i];
  }

  lemma {:induction false} RestWithin(buf: Bytes, len: nat, buf': Bytes, len': nat, off: nat, end: int, room: nat)
    requires SameSection(buf, len, buf', len') && end <= SectionOf(buf) <= |buf| && end <= |buf'|
    ensures Rest(buf, off, end, room) == Rest(buf', off, end, room)
    decreases end - off
  {
    hide SameSection;
    if off + 4 <= end && room > 0 {
      SameByte(buf, len, buf', len', off);
      SameByte(buf, len, buf', len', off + 1);
      SameByte(buf, len, buf', len', off + 2);
      SameByte(buf, len, buf', len', off + 3);
      RestWithin(buf, len, buf', len', off + 4, end, if ReadProgram(buf, off).number == 0 then room else room - 1);
    }
  }

  /** The parser's result depends on the section alone. */
  method PatWithin(buf: Bytes, len: nat, buf': Bytes, len': nat)
    returns (ok: bool, channels: seq<Program>, ok': bool, channels': seq<Program>)
    requires SameSection(buf, len, buf', len')
    ensures ok == ok' && channels == channels'
  {
    hide Rest;
    ok, channels := ParsePat(buf, len);
    ok', channels' := ParsePat(buf', len');
    SameByte(buf, len, buf', len', 0);
    SameByte(buf, len, buf', len', 1);
    SameByte(buf, len, buf', len', 2);
    RestWithin(buf, len, buf', len', 8, SectionOf(buf) - 4, MAX_CHANNELS);
  }

  lemma ReadEntry(buf: Bytes, off: nat, p: Raw)
    requires off + 4 <= |buf| && p.reserved < 8 && buf[off..off + 4] == Entry(p)
    ensures ReadProgram(buf, off) == Program(p.number, p.pid)
  {
    assert buf[off] == buf[off..off + 4][0] && buf[off + 1] == buf[off..off + 4][1];
    assert buf[off + 2] == buf[off..off + 4][2] && buf[off + 3] == buf[off..off + 4][3];
  }

  lemma {:induction false} RestOfEntries(buf: Bytes, off: nat, ps: seq<Raw>, room: nat)
    requires Fits(ps) && off + 4 * |ps| <= |buf| && buf[off..off + 4 * |ps|] == Entries(ps)
    ensures Rest(buf, off, off + 4 * |ps|, room) == FirstOf(NonZero(ps), room)
    decreases |ps|
  {
    hide Entry, ReadProgram;
    if ps != [] && room > 0 {
      var s := buf[off..off + 4 * |ps|];
      assert s[..4] == Entry(ps[0]) && s[4..] == Entries(ps[1..]);
      assert buf[off..off + 4] == s[..4] && buf[off + 4..off + 4 + 4 * |ps[1..]|] == s[4..];
      ReadEntry(buf, off, ps[0]);
      RestOfEntries(buf, off + 4, ps[1..], if ps[0].number == 0 then room else room - 1);
    }
  }

  /** A well-formed section yields its programs, whatever follows it in the buffer. */
  lemma PatBack(buf: Bytes, ps: seq<Raw>)
    requires IsPat(buf, ps)
    ensures Rest(buf, 8, LengthAt(buf, 1) - 1, MAX_CHANNELS) == FirstOf(NonZero(ps), MAX_CHANNELS)
  {
    RestOfEntries(buf, 8, ps, MAX_CHANNELS);
  }

  method PatReadsBack(buf: Bytes, ghost ps: seq<Raw>) returns (channels: seq<Program>)
    requires IsPat(buf, ps)
    ensures channels == if |NonZero(ps)| <= 256 then NonZero(ps) else NonZero(ps)[..256]
  {
    hide Rest;
    var ok: bool;
    ok, channels := ParsePat(buf, |buf|);
    PatBack(buf, ps);
  }

  // ----- Program map, section 2.4.4.8 of ISO/IEC 13818-1

  datatype Descriptor = Descriptor(tag: Byte, data: Bytes)

  datatype Stream = Stream(kind: Byte, pid: Pid, info: Bytes, high: nat, low: nat)

  datatype Found = Found(caid: Word, ecmPid: Pid)

  predicate Short(d: Descriptor) {
    |d.data| < 256
  }

  function DescriptorBytes(ds: seq<Descriptor>): (s: Bytes)
    requires forall i :: 0 <= i < |ds| ==> Short(ds[i])
  {
    if ds == [] then []
    else
      assert Short(ds[0]);
      [ds[0].tag, |ds[0].data| as Byte] + ds[0].data + DescriptorBytes(ds[1..])
  }

  predicate Narrow(s: Stream) {
    |s.info| < 0x1000 && s.high < 8 && s.low < 16
  }

  function StreamHead(s: Stream): (b: Bytes)
    requires Narrow(s)
    ensures |b| == 5
  {
    [s.kind, s.high * 32 + s.pid / 256, s.pid % 256, s.low * 16 + |s.info| / 256, |s.info| % 256]
  }

  function StreamBytes(ss: seq<Stream>): (b: Bytes)
    requires forall i :: 0 <= i < |ss| ==> Narrow(ss[i])
  {
    if ss == [] then [] else StreamHead(ss[0]) + ss[0].info + StreamBytes(ss[1..])
  }

  /** A descriptor that says which system and which stream carry the keys. */
  predicate IsCa(d: Descriptor) {
    d.tag == 0x09 && |d.data| >= 4
  }

  function CaOf(d: Descriptor): Found
    requires IsCa(d)
  {
    Found(WordAt(d.data, 0), PidAt(d.data, 2))
  }

  /** The last one at program level counts; without any, what was there stays. */
  function LastCa(ds: seq<Descriptor>, before: Found): Found {
    if ds == [] then before
    else LastCa(ds[1..], if IsCa(ds[0]) then CaOf(ds[0]) else before)
  }

  predicate IsVideo(kind: Byte) {
    kind == 0x01 || kind == 0x02 || kind == 0x10 || kind == 0x1B || kind == 0x24
  }

  function FirstVideo(ss: seq<Stream>, before: Pid): Pid {
    if ss == [] then before
    else FirstVideo(ss[1..], if before == 0 && IsVideo(ss[0].kind) then ss[0].pid else before)
  }

  lemma {:induction false} NoCa(ds: seq<Descriptor>, before: Found)
    requires forall i :: 0 <= i < |ds| ==> !IsCa(ds[i])
    ensures LastCa(ds, before) == before
    decreases |ds|
  {
    if ds != [] {
      NoCa(ds[1..], before);
    }
  }

  /** Every CA descriptor is overridden by a later one. */
  lemma {:induction false} LastCaIs(ds: seq<Descriptor>, before: Found, k: nat)
    requires k < |ds| && IsCa(ds[k]) && forall i :: k < i < |ds| ==> !IsCa(ds[i])
    ensures LastCa(ds, before) == CaOf(ds[k])
    decreases |ds|
  {
    var now := if IsCa(ds[0]) then CaOf(ds[0]) else before;
    if k == 0 {
      NoCa(ds[1..], now);
    } else {
      LastCaIs(ds[1..], now, k - 1);
    }
  }

  lemma {:induction false} KnownStays(ss: seq<Stream>, before: Pid)
    requires before != 0
    ensures FirstVideo(ss, before) == before
    decreases |ss|
  {
    if ss != [] {
      KnownStays(ss[1..], before);
    }
  }

  /** The first video stream with a stream number counts, if none was known before. */
  lemma {:induction false} FirstVideoIs(ss: seq<Stream>, k: nat)
    requires k < |ss| && IsVideo(ss[k].kind) && ss[k].pid != 0
    requires forall i :: 0 <= i < k ==> !(IsVideo(ss[i].kind) && ss[i].pid != 0)
    ensures FirstVideo(ss, 0) == ss[k].pid
    decreases |ss|
  {
    if k == 0 {
      KnownStays(ss[1..], ss[0].pid);
    } else {
      FirstVideoIs(ss[1..], k - 1);
    }
  }

  // ----- The two loops as functions of the buffer

  function ScanCa(buf: Bytes, d: nat, dend: nat, before: Found): Found
    requires d <= dend <= |buf|
    decreases dend - d
  {
    if d + 2 > dend || d + 2 + buf[d + 1] as int > dend then before
    else
      var n := buf[d + 1] as int;
      ScanCa(buf, d + 2 + n, dend,
        if buf[d] == 0x09 && n >= 4
        then Found(WordAt(buf, d + 2), PidAt(buf, d + 4))
        else before)
  }

  function ScanVideo(buf: Bytes, off: nat, end: nat, before: Pid): Pid
    requires off <= end <= |buf|
    decreases end - off
  {
    if off + 5 > end then before
    else
      var n := LengthAt(buf, off + 3);
      if off + 5 + n > end then before
      else ScanVideo(buf, off + 5 + n, end,
        if before == 0 && IsVideo(buf[off]) then PidAt(buf, off + 1) else before)
  }

  method CaLoop(buf: Bytes, start: nat, dend: nat, ca0: Found) returns (ca: Found)
    requires start <= dend <= |buf|
    ensures ca == ScanCa(buf, start, dend, ca0)
  {
    ca := ca0;
    var d := start;
    while d + 2 <= dend
      invariant start <= d <= dend
      invariant ScanCa(buf, d, dend, ca) == ScanCa(buf, start, dend, ca0)
    {
      var tag, dlen := buf[d], buf[d + 1] as int;
      if d + 2 + dlen > dend {
        break;
      }
      if tag == 0x09 && dlen >= 4 {
        ca := Found(WordAt(buf, d + 2), PidAt(buf, d + 4));
      }
      d := d + 2 + dlen;
    }
  }

  method VideoLoop(buf: Bytes, start: nat, end: nat, video0: Pid) returns (video: Pid)
    requires start <= end <= |buf|
    ensures video == ScanVideo(buf, start, end, video0)
  {
    video := video0;
    var off := start;
    while off + 5 <= end
      invariant start <= off <= end
      invariant ScanVideo(buf, off, end, video) == ScanVideo(buf, start, end, video0)
    {
      var kind := buf[off];
      var pid := PidAt(buf, off + 1);
      var infoLength := LengthAt(buf, off + 3);
      if off + 5 + infoLength > end {
        break;
      }
      if video == 0 && IsVideo(kind) {
        video := pid;
      }
      off := off + 5 + infoLength;
    }
  }

  method ParsePmt(buf: Bytes, len: nat, ca0: Found, video0: Pid) returns (ok: bool, ca: Found, video: Pid)
    requires len <= |buf|
    ensures ok == (12 <= len && buf[0] == 0x02
                   && LengthAt(buf, 1) + 3 <= len
                   && 13 + LengthAt(buf, 10) <= LengthAt(buf, 1))
    ensures ok ==>
      var end := LengthAt(buf, 1) - 1;
      var dend := 12 + LengthAt(buf, 10);
      ca == ScanCa(buf, 12, dend, ca0) && video == ScanVideo(buf, dend, end, video0)
    ensures !ok ==> ca == ca0 && video == video0
  {
    ca, video := ca0, video0;
    if len < 12 || buf[0] != 0x02 {
      return false, ca, video;
    }
    var sectionLength := LengthAt(buf, 1);
    if sectionLength + 3 > len {
      return false, ca, video;
    }
    var end := 3 + sectionLength - 4;
    var infoLength := LengthAt(buf, 10);
    var off := 12;
    if off > end || off + infoLength > end {
      return false, ca, video;
    }
    var dend := off + infoLength;
    ca := CaLoop(buf, off, dend, ca);
    video := VideoLoop(buf, dend, end, video);
    ok := true;
  }

  lemma {:induction false} ScanCaWithin(buf: Bytes, len: nat, buf': Bytes, len': nat, d: nat, dend: nat, before: Found)
    requires SameSection(buf, len, buf', len') && d <= dend <= SectionOf(buf) <= |buf| && dend <= |buf'|
    ensures ScanCa(buf, d, dend, before) == ScanCa(buf', d, dend, before)
    decreases dend - d
  {
    hide SameSection;
    if d + 2 <= dend {
      SameByte(buf, len, buf', len', d);
      SameByte(buf, len, buf', len', d + 1);
      var n := buf[d + 1] as int;
      if d + 2 + n <= dend {
        if n >= 4 {
          SameByte(buf, len, buf', len', d + 2);
          SameByte(buf, len, buf', len', d + 3);
          SameByte(buf, len, buf', len', d + 4);
          SameByte(buf, len, buf', len', d + 5);
        }
        ScanCaWithin(buf, len, buf', len', d + 2 + n, dend,
          if buf[d] == 0x09 && n >= 4
          then Found(WordAt(buf, d + 2), PidAt(buf, d + 4))
          else before);
      }
    }
  }

  lemma {:induction false} ScanVideoWithin(buf: Bytes, len: nat, buf': Bytes, len': nat,
                                           off: nat, end: nat, before: Pid)
    requires SameSection(buf, len, buf', len') && off <= end <= SectionOf(buf) <= |buf| && end <= |buf'|
    ensures ScanVideo(buf, off, end, before) == ScanVideo(buf', off, end, before)
    decreases end - off
  {
    hide SameSection, IsVideo;
    if off + 5 <= end {
      SameByte(buf, len, buf', len', off);
      SameByte(buf, len, buf', len', off + 1);
      SameByte(buf, len, buf', len', off + 2);
      SameByte(buf, len, buf', len', off + 3);
      SameByte(buf, len, buf', len', off + 4);
      var n := LengthAt(buf, off + 3);
      if off + 5 + n <= end {
        ScanVideoWithin(buf, len, buf', len', off + 5 + n, end,
          if before == 0 && IsVideo(buf[off]) then PidAt(buf, off + 1) else before);
      }
    }
  }

  /** The parser's result depends on the section alone. */
  method PmtWithin(buf: Bytes, len: nat, buf': Bytes, len': nat, ca0: Found, video0: Pid)
    returns (ok: bool, ca: Found, video: Pid, ok': bool, ca': Found, video': Pid)
    requires SameSection(buf, len, buf', len')
    ensures ok == ok' && ca == ca' && video == video'
  {
    hide ScanCa, ScanVideo;
    ok, ca, video := ParsePmt(buf, len, ca0, video0);
    ok', ca', video' := ParsePmt(buf', len', ca0, video0);
    SameByte(buf, len, buf', len', 0);
    SameByte(buf, len, buf', len', 1);
    SameByte(buf, len, buf', len', 2);
    ghost var n := SectionOf(buf);
    if n > 11 {
      SameByte(buf, len, buf', len', 10);
      SameByte(buf, len, buf', len', 11);
      if ok {
        ghost var dend := 12 + LengthAt(buf, 10);
        ScanCaWithin(buf, len, buf', len', 12, dend, ca0);
        ScanVideoWithin(buf, len, buf', len', dend, n - 4, video0);
      }
    }
  }

  // ----- Reading back what was written

  lemma SliceOfSlice(buf: Bytes, lo: nat, hi: nat, a: nat, b: nat)
    requires lo <= hi <= |buf| && a <= b <= hi - lo
    ensures buf[lo..hi][a..b] == buf[lo + a..lo + b]
  {
    forall k | 0 <= k < b - a
      ensures buf[lo..hi][a..b][k] == buf[lo + a..lo + b][k]
    {
      assert buf[lo..hi][a + k] == buf[lo + (a + k)];
    }
  }

  lemma Pieces(head: Bytes, body: Bytes, rest: Bytes, s: Bytes)
    requires s == head + body + rest
    ensures forall k :: 0 <= k < |head| ==> s[k] == head[k]
    ensures s[|head|..|head| + |body|] == body && s[|head| + |body|..] == rest
  {
  }

  lemma ReadCa(buf: Bytes, at: nat, c: Descriptor)
    requires IsCa(c) && at + |c.data| <= |buf| && buf[at..at + |c.data|] == c.data
    ensures
      CaOf(c) == Found(WordAt(buf, at), PidAt(buf, at + 2))
  {
    var part := buf[at..at + |c.data|];
    assert buf[at] == part[0] && buf[at + 1] == part[1] && buf[at + 2] == part[2] && buf[at + 3] == part[3];
  }

  lemma ReadDescriptor(buf: Bytes, d: nat, dend: nat, ds: seq<Descriptor>)
    requires ds != [] && forall i :: 0 <= i < |ds| ==> Short(ds[i])
    requires d <= dend <= |buf| && buf[d..dend] == DescriptorBytes(ds)
    ensures
      var n := |ds[0].data|;
      && d + 2 + n <= dend && buf[d] == ds[0].tag && buf[d + 1] == n
      && buf[d + 2..d + 2 + n] == ds[0].data && buf[d + 2 + n..dend] == DescriptorBytes(ds[1..])
    ensures IsCa(ds[0]) ==>
      CaOf(ds[0]) == Found(WordAt(buf, d + 2), PidAt(buf, d + 4))
  {
    assert Short(ds[0]);
    var s, data, n := buf[d..dend], ds[0].data, |ds[0].data|;
    assert s == [ds[0].tag, n as Byte] + data + DescriptorBytes(ds[1..]);
    hide DescriptorBytes;
    Pieces([ds[0].tag, n as Byte], data, DescriptorBytes(ds[1..]), s);
    assert buf[d] == s[0] && buf[d + 1] == s[1];
    SliceOfSlice(buf, d, dend, 2, 2 + n);
    SliceOfSlice(buf, d, dend, 2 + n, dend - d);
    if IsCa(ds[0]) {
      hide CaOf, WordAt, PidAt;
      ReadCa(buf, d + 2, ds[0]);
    }
  }

  lemma ScanCaNext(buf: Bytes, d: nat, dend: nat, before: Found, c: Descriptor)
    requires Short(c) && d + 2 + |c.data| <= dend <= |buf| && buf[d] == c.tag && buf[d + 1] == |c.data|
    requires IsCa(c) ==>
      CaOf(c) == Found(WordAt(buf, d + 2), PidAt(buf, d + 4))
    ensures ScanCa(buf, d, dend, before)
            == ScanCa(buf, d + 2 + |c.data|, dend, if IsCa(c) then CaOf(c) else before)
  {
    hide CaOf, WordAt, PidAt;
  }

  lemma {:induction false} ScanCaBack(buf: Bytes, d: nat, dend: nat, ds: seq<Descriptor>, before: Found)
    requires forall i :: 0 <= i < |ds| ==> Short(ds[i])
    requires d <= dend <= |buf| && buf[d..dend] == DescriptorBytes(ds)
    ensures ScanCa(buf, d, dend, before) == LastCa(ds, before)
    decreases |ds|
  {
    if ds == [] {
      assert |buf[d..dend]| == 0;
    } else {
      hide DescriptorBytes, ScanCa, IsCa, CaOf, Short, WordAt, PidAt;
      var n := |ds[0].data|;
      ReadDescriptor(buf, d, dend, ds);
      ScanCaNext(buf, d, dend, before, ds[0]);
      ScanCaBack(buf, d + 2 + n, dend, ds[1..], if IsCa(ds[0]) then CaOf(ds[0]) else before);
    }
  }

  lemma ReadHead(buf: Bytes, off: nat, s: Stream)
    requires Narrow(s) && off + 5 <= |buf| && buf[off..off + 5] == StreamHead(s)
    ensures buf[off] == s.kind && PidAt(buf, off + 1) == s.pid
    ensures LengthAt(buf, off + 3) == |s.info|
  {
    var h := buf[off..off + 5];
    assert buf[off] == h[0] && buf[off + 1] == h[1] && buf[off + 2] == h[2];
    assert buf[off + 3] == h[3] && buf[off + 4] == h[4];
  }

  lemma ReadStream(buf: Bytes, off: nat, end: nat, ss: seq<Stream>)
    requires ss != [] && forall i :: 0 <= i < |ss| ==> Narrow(ss[i])
    requires off <= end <= |buf| && buf[off..end] == StreamBytes(ss)
    ensures
      var n := |ss[0].info|;
      && off + 5 + n <= end && buf[off + 5 + n..end] == StreamBytes(ss[1..])
      && buf[off] == ss[0].kind && PidAt(buf, off + 1) == ss[0].pid
      && LengthAt(buf, off + 3) == n
  {
    hide StreamHead, PidAt, LengthAt;
    var b, n := buf[off..end], |ss[0].info|;
    assert b == StreamHead(ss[0]) + ss[0].info + StreamBytes(ss[1..]);
    assert b[..5] == StreamHead(ss[0]) && b[5 + n..] == StreamBytes(ss[1..]);
    SliceOfSlice(buf, off, end, 0, 5);
    SliceOfSlice(buf, off, end, 5 + n, end - off);
    ReadHead(buf, off, ss[0]);
  }

  lemma ScanVideoNext(buf: Bytes, off: nat, end: nat, before: Pid, s: Stream)
    requires off + 5 + |s.info| <= end <= |buf| && buf[off] == s.kind
    requires PidAt(buf, off + 1) == s.pid
    requires LengthAt(buf, off + 3) == |s.info|
    ensures ScanVideo(buf, off, end, before)
            == ScanVideo(buf, off + 5 + |s.info|, end, if before == 0 && IsVideo(s.kind) then s.pid else before)
  {
    hide IsVideo, PidAt, LengthAt;
  }

  lemma NoStreams(buf: Bytes, off: nat, end: nat, before: Pid)
    requires off <= end <= |buf| && buf[off..end] == StreamBytes([])
    ensures ScanVideo(buf, off, end, before) == before
  {
    assert |buf[off..end]| == 0;
  }

  lemma {:induction false} ScanVideoBack(buf: Bytes, off: nat, end: nat, ss: seq<Stream>, before: Pid)
    requires forall i :: 0 <= i < |ss| ==> Narrow(ss[i])
    requires off <= end <= |buf| && buf[off..end] == StreamBytes(ss)
    ensures ScanVideo(buf, off, end, before) == FirstVideo(ss, before)
    decreases |ss|
  {
    hide StreamBytes, ScanVideo, IsVideo, Narrow, PidAt, LengthAt;
    if ss == [] {
      NoStreams(buf, off, end, before);
    } else {
      var rest, n := ss[1..], |ss[0].info|;
      var now := if before == 0 && IsVideo(ss[0].kind) then ss[0].pid else before;
      ReadStream(buf, off, end, ss);
      ScanVideoNext(buf, off, end, before, ss[0]);
      forall i | 0 <= i < |rest|
        ensures Narrow(rest[i])
      {
        assert rest[i] == ss[i + 1];
      }
      ScanVideoBack(buf, off + 5 + n, end, rest, now);
    }
  }

  ghost predicate IsPmt(buf: Bytes, ds: seq<Descriptor>, ss: seq<Stream>) {
    && (forall i :: 0 <= i < |ds| ==> Short(ds[i])) && (forall i :: 0 <= i < |ss| ==> Narrow(ss[i]))
    && var n, m := |DescriptorBytes(ds)|, |StreamBytes(ss)|;
    && 16 + n + m <= |buf| && buf[0] == 0x02
    && LengthAt(buf, 1) == 13 + n + m
    && LengthAt(buf, 10) == n
    && buf[12..12 + n] == DescriptorBytes(ds) && buf[12 + n..12 + n + m] == StreamBytes(ss)
  }

  /** Descriptor `k` is the last one of tag 9 with at least four bytes. */
  ghost predicate LastKeys(ds: seq<Descriptor>, k: int) {
    && 0 <= k < |ds| && ds[k].tag == 0x09 && |ds[k].data| >= 4
    && forall i :: k < i < |ds| ==> ds[i].tag != 0x09 || |ds[i].data| < 4
  }

  /** Stream `k` is the first of the five video types with a stream number. */
  ghost predicate FirstPicture(ss: seq<Stream>, k: int) {
    && 0 <= k < |ss| && ss[k].kind in {0x01, 0x02, 0x10, 0x1B, 0x24} && ss[k].pid != 0
    && forall i :: 0 <= i < k ==> ss[i].kind !in {0x01, 0x02, 0x10, 0x1B, 0x24} || ss[i].pid == 0
  }

  ghost predicate NoPicture(ss: seq<Stream>) {
    forall i :: 0 <= i < |ss| ==> ss[i].kind !in {0x01, 0x02, 0x10, 0x1B, 0x24} || ss[i].pid == 0
  }

  lemma VideoTypes(kind: Byte)
    ensures IsVideo(kind) <==> kind in {0x01, 0x02, 0x10, 0x1B, 0x24}
  {
  }

  lemma {:induction false} NoVideo(ss: seq<Stream>, before: Pid)
    requires before != 0 || forall i :: 0 <= i < |ss| ==> !IsVideo(ss[i].kind) || ss[i].pid == 0
    ensures FirstVideo(ss, before) == before
    decreases |ss|
  {
    hide IsVideo;
    if ss != [] {
      NoVideo(ss[1..], before);
    }
  }

  lemma PictureFound(ss: seq<Stream>, video0: Pid)
    ensures forall k | FirstPicture(ss, k) && video0 == 0 :: FirstVideo(ss, video0) == ss[k].pid
    ensures video0 != 0 || NoPicture(ss) ==> FirstVideo(ss, video0) == video0
  {
    hide IsVideo, FirstVideo;
    forall i | 0 <= i < |ss|
      ensures IsVideo(ss[i].kind) <==> ss[i].kind in {0x01, 0x02, 0x10, 0x1B, 0x24}
    {
      VideoTypes(ss[i].kind);
    }
    forall k | FirstPicture(ss, k) && video0 == 0
      ensures FirstVideo(ss, video0) == ss[k].pid
    {
      FirstVideoIs(ss, k);
    }
    if video0 != 0 || NoPicture(ss) {
      NoVideo(ss, video0);
    }
  }

  lemma KeysFound(ds: seq<Descriptor>, ca0: Found)
    ensures forall k | LastKeys(ds, k) ::
      var d, ca := ds[k].data, LastCa(ds, ca0);
      ca.caid == d[0] as int * 256 + d[1] && ca.ecmPid == d[2] as int % 32 * 256 + d[3]
    ensures (forall i | 0 <= i < |ds| :: ds[i].tag != 0x09 || |ds[i].data| < 4) ==> LastCa(ds, ca0) == ca0
  {
    hide LastCa;
    forall k | LastKeys(ds, k)
      ensures LastCa(ds, ca0) == CaOf(ds[k])
    {
      LastCaIs(ds, ca0, k);
    }
    if forall i | 0 <= i < |ds| :: ds[i].tag != 0x09 || |ds[i].data| < 4 {
      NoCa(ds, ca0);
    }
  }

  /** A well-formed section yields its last program-level CA descriptor and its first video stream; what was known
      of the picture stays, and without such a descriptor or stream nothing changes. */
  method PmtReadsBack(buf: Bytes, ghost ds: seq<Descriptor>, ghost ss: seq<Stream>, ca0: Found, video0: Pid)
    returns (ok: bool, ca: Found, video: Pid)
    requires IsPmt(buf, ds, ss)
    ensures ok
    ensures forall k | LastKeys(ds, k) ::
      var d := ds[k].data;
      ca.caid == d[0] as int * 256 + d[1] && ca.ecmPid == d[2] as int % 32 * 256 + d[3]
    ensures (forall i | 0 <= i < |ds| :: ds[i].tag != 0x09 || |ds[i].data| < 4) ==> ca == ca0
    ensures forall k | FirstPicture(ss, k) && video0 == 0 :: video == ss[k].pid
    ensures video0 != 0 || NoPicture(ss) ==> video == video0
  {
    hide ScanCa, ScanVideo, LastCa, FirstVideo, DescriptorBytes, StreamBytes, FirstPicture, NoPicture, LastKeys;
    ghost var n, m := |DescriptorBytes(ds)|, |StreamBytes(ss)|;
    ok, ca, video := ParsePmt(buf, |buf|, ca0, video0);
    ScanCaBack(buf, 12, 12 + n, ds, ca0);
    ScanVideoBack(buf, 12 + n, 12 + n + m, ss, video0);
    KeysFound(ds, ca0);
    PictureFound(ss, video0);
  }
}
