/**
 The 9P2000.L messages read back as what they mean, by the numbers that the protocol gives them: the
 server's reading of requests, and a reading of replies that knows nothing of the driver's constants.
 */
module Decoding {
  import opened Ints
  import opened Bytes
  import opened P9Strings
  import opened Statuses
  import opened ReadLaws
  import opened Wire
  import opened Protocol
  import opened Replies

  // ----- Requests -----

  lemma {:induction false} TakeNamesCount(b: seq<u8>, n: nat)
    ensures TakeNames(b, n).Taken? ==> |TakeNames(b, n).value| == n
  {
    if n > 0 && TakeString(b).Taken? {
      TakeNamesCount(TakeString(b).rest, n - 1);
    }
  }

  /** What the parser has read fits the fields of the message. */
  lemma ParsedShape(b: seq<u8>)
    ensures var p := Parse(b);
      p.Parsed? ==> FitWidths(p.ints, FieldWidths(p.id)) && |p.strings| == StringCount(p.id, p.ints)
  {
    hide FromLE;
    if Parse(b).Parsed? {
      var widths := FieldWidths(b[4]);
      TakeIntsLength(b[7..], widths);
      TakeIntsFit(b[7..], widths);
      var ints := TakeInts(b[7..], widths);
      TakeNamesCount(ints.rest, StringCount(b[4], ints.value));
    }
  }

  /** The request in the bytes of one message, by its message number. */
  function DecodeRequest(b: seq<u8>): Option<(nat, Request)> {
    ParsedShape(b);
    Widths();
    match Parse(b)
    case Malformed => None
    case Parsed(tag, id, v, s) =>
      if id == 100 then Some((tag, Tversion(v[0], s[0])))
      else if id == 104 then Some((tag, Tattach(v[0], v[1], s[0], s[1])))
      else if id == 110 then Some((tag, Twalk(v[0], v[1], s)))
      else if id == 12 then Some((tag, Tlopen(v[0], v[1])))
      else if id == 24 then Some((tag, Tgetattr(v[0], v[1])))
      else if id == 22 then Some((tag, Treadlink(v[0])))
      else if id == 40 then Some((tag, Treaddir(v[0], v[1], v[2])))
      else if id == 116 then Some((tag, Tread(v[0], v[1], v[2])))
      else if id == 120 then Some((tag, Tclunk(v[0])))
      else None
  }

  /**
   A request is read back from its bytes as itself, with its tag, if and only if all its lengths fit
   their fields.
   */
  lemma DecodeInvertsEncode(tag: u16, r: Request)
    ensures FitsFields(r) <==> DecodeRequest(Encode(tag, r)) == Some((tag, r))
  {
    hide Parse, Encode, FitsFields, Pow256;
    ParseInvertsEncode(tag, r);
    ParsedShape(Encode(tag, r));
    if DecodeRequest(Encode(tag, r)) == Some((tag, r)) {
      var p := Parse(Encode(tag, r));
      assert p.ints == IntFields(r) && p.strings == StringFields(r) && p.id == Id(r);
    }
  }

  /** Requests without strings always fit. */
  lemma PlainFits(r: Request)
    requires !r.Tversion? && !r.Tattach? && !r.Twalk?
    ensures FitsFields(r)
  {
    hide LE;
  }

  // ----- Replies -----

  datatype Response =
    | Rlerror(ecode: u32)
    | Rlopen(qid: Qid, ioUnit: u32)
    | Rreadlink(target: Name)
    | Rgetattr(qid: Qid, attr: Attr, other: Unread)
    | Rreaddir(data: seq<u8>)
    | Rversion(msize: u32, version: seq<u8>)
    | Rattach(qid: Qid)
    | Rwalk(qids: seq<Qid>)
    | Rread(data: seq<u8>)
    | Rclunk

  /** The integers that fill a body, if they do so exactly. */
  function AllInts(b: seq<u8>, widths: seq<nat>): (vs: seq<nat>)
    ensures vs != [] ==> FitWidths(vs, widths)
  {
    match TakeInts(b, widths)
    case Short => []
    case Taken(vs, rest) =>
      TakeIntsFit(b, widths);
      if rest == [] then vs else []
  }

  /** A counted string or block of data that fills a body. */
  function AllData(b: seq<u8>, k: nat): Option<seq<u8>> {
    match TakeInt(b, k)
    case Short => None
    case Taken(n, rest) => if |rest| == n then Some(rest) else None
  }

  function DecodeQid(kind: nat, version: nat, path: nat): Qid {
    Qid(kind % 0x100, version % 0x1_0000_0000, path % TWO64)
  }

  /** The body of a reply, by its message number. */
  function DecodeBody(id: nat, c: seq<u8>): Option<Response> {
    Widths();
    if id == 7 then
      (var v := AllInts(c, [4]); if v == [] then None else Some(Rlerror(v[0])))
    else if id == 13 then
      (var v := AllInts(c, [1, 4, 8, 4]); if v == [] then None else Some(Rlopen(DecodeQid(v[0], v[1], v[2]), v[3])))
    else if id == 23 then
      (var d := AllData(c, 2); if d.None? then None else Some(Rreadlink(d.value)))
    else if id == 25 then DecodeAttr(AllInts(c, [8, 1, 4, 8, 4, 4, 4, 8, 8, 8, 8, 8, 8, 8, 8, 8, 8, 8, 8, 8, 8, 8]))
    else if id == 41 then
      (var d := AllData(c, 4); if d.None? then None else Some(Rreaddir(d.value)))
    else if id == 101 then
      (match TakeInt(c, 4)
       case Short => None
       case Taken(msize, rest) =>
         var d := AllData(rest, 2);
         if d.None? then None else Some(Rversion(msize % 0x1_0000_0000, d.value)))
    else if id == 105 then
      (var v := AllInts(c, [1, 4, 8]); if v == [] then None else Some(Rattach(DecodeQid(v[0], v[1], v[2]))))
    else if id == 111 then
      (if AllInts(c, [2]) == [0] then Some(Rwalk([]))
       else
         var v := AllInts(c, [2, 1, 4, 8]);
         if v == [] || v[0] != 1 then None else Some(Rwalk([DecodeQid(v[1], v[2], v[3])])))
    else if id == 117 then
      (var d := AllData(c, 4); if d.None? then None else Some(Rread(d.value)))
    else if id == 121 then (if c == [] then Some(Rclunk) else None)
    else None
  }

  /** valid qid mode uid gid nlink rdev size blksize blocks atime mtime ctime btime gen data_version */
  function DecodeAttr(v: seq<nat>): Option<Response> {
    if |v| != 22 || (exists i :: 0 <= i < 22 && v[i] >= TWO64) then None
    else if v[4] >= 0x1_0000_0000 || v[5] >= 0x1_0000_0000 || v[6] >= 0x1_0000_0000 then None
    else Some(Rgetattr(DecodeQid(v[1], v[2], v[3]),
                       Attr(v[4], v[9], v[11], v[12], v[13], v[14], v[15], v[16], v[17]),
                       Unread(v[0], v[5], v[6], v[7], v[8], v[10], v[18], v[19], v[20], v[21])))
  }

  /** The reply in the bytes of one message: size[4] kind[1] tag[2] and the body. */
  function DecodeReply(b: seq<u8>): Option<(nat, Response)> {
    if |b| < 7 || FromLE(b[..4]) != |b| then None
    else
      var r := DecodeBody(b[4], b[7..]);
      if r.None? then None else Some((FromLE(b[5..7]), r.value))
  }

  /** The bytes of a reply, as the server lays it out. */
  function EncodeReply(tag: u16, r: Response): seq<u8>
    requires FitsReply(r)
  {
    match r
    case Rlerror(ecode) => ErrorReply(tag, ecode)
    case Rlopen(qid, ioUnit) => OpenReply(tag, qid, ioUnit)
    case Rreadlink(target) => LinkReply(tag, target)
    case Rgetattr(qid, attr, other) => GetAttrReply(tag, qid, attr, other)
    case Rreaddir(data) => DirReply(tag, data)
    case Rversion(msize, version) => VersionReply(tag, msize, version)
    case Rattach(qid) => AttachReply(tag, qid)
    case Rwalk(qids) => if qids == [] then CloneReply(tag) else WalkReply(tag, qids[0])
    case Rread(data) => ReplyBytes(tag, data)
    case Rclunk => ClunkReply(tag)
  }

  /** Strings and data that their length fields can hold, and at most one Qid, as the driver's walks ask for. */
  predicate FitsReply(r: Response) {
    match r
    case Rreadlink(target) => |target| < 0x1_0000
    case Rversion(_, version) => |version| < 0x1_0000
    case Rreaddir(data) => 11 + |data| < 0x1_0000_0000
    case Rread(data) => 11 + |data| < 0x1_0000_0000
    case Rwalk(qids) => |qids| <= 1
    case _ => true
  }

  lemma MessageDecodes(b: seq<u8>, id: u8, tag: u16, body: seq<u8>, r: Response)
    requires b == Header(7 + |body|, id, tag) + body && 7 + |body| < 0x1_0000_0000
    requires DecodeBody(id, body) == Some(r)
    ensures DecodeReply(b) == Some((tag, r))
  {
    hide LE, FromLE, DecodeBody;
    Widths();
    FromLEInverts(7 + |body|, 4);
    FromLEInverts(tag, 2);
    assert b[..4] == LE(7 + |body|, 4) && b[5..7] == LE(tag, 2) && b[7..] == body;
  }

  lemma AllIntsInverts(vs: seq<nat>, widths: seq<nat>)
    requires FitWidths(vs, widths)
    ensures AllInts(IntBytes(vs, widths), widths) == vs
  {
    hide TakeInts, IntBytes;
    TakeIntsInverts(vs, widths, []);
    assert IntBytes(vs, widths) + [] == IntBytes(vs, widths);
  }

  lemma AllDataInverts(data: seq<u8>, k: nat)
    requires |data| < Pow256(k)
    ensures AllData(LE(|data|, k) + data, k) == Some(data)
  {
    hide LE, FromLE;
    FromLEInverts(|data|, k);
    TakeIntAtFront(LE(|data|, k), data);
  }

  lemma QidDecodes(q: Qid)
    ensures DecodeQid(q.kind, q.version, q.path) == q
  {
  }

  lemma ErrorDecodes(tag: u16, ecode: u32)
    ensures DecodeReply(ErrorReply(tag, ecode)) == Some((tag, Rlerror(ecode)))
  {
    hide LE, IntBytes, AllInts, DecodeReply, Pow256;
    Widths();
    OneInt(ecode, 4);
    AllIntsInverts([ecode], [4]);
    assert ErrorReply(tag, ecode) == Header(11, 7, tag) + LE(ecode, 4);
    MessageDecodes(ErrorReply(tag, ecode), 7, tag, LE(ecode, 4), Rlerror(ecode));
  }

  lemma OpenDecodes(tag: u16, q: Qid, ioUnit: u32)
    ensures DecodeReply(OpenReply(tag, q, ioUnit)) == Some((tag, Rlopen(q, ioUnit)))
  {
    hide LE, IntBytes, AllInts, DecodeReply, Pow256, DecodeQid, Header;
    Widths();
    OneByte();
    QidDecodes(q);
    var vs, widths := [q.kind, q.version, q.path, ioUnit], [1, 4, 8, 4];
    AllIntsInverts(vs, widths);
    IntBytesLength(vs, widths);
    MessageDecodes(OpenReply(tag, q, ioUnit), 13, tag, IntBytes(vs, widths), Rlopen(q, ioUnit));
  }

  lemma AttachDecodes(tag: u16, q: Qid)
    ensures DecodeReply(AttachReply(tag, q)) == Some((tag, Rattach(q)))
  {
    hide LE, IntBytes, AllInts, DecodeReply, Pow256, DecodeQid, Header;
    Widths();
    OneByte();
    QidDecodes(q);
    var vs, widths := [q.kind, q.version, q.path], [1, 4, 8];
    AllIntsInverts(vs, widths);
    IntBytesLength(vs, widths);
    MessageDecodes(AttachReply(tag, q), 105, tag, IntBytes(vs, widths), Rattach(q));
  }

  lemma LongerInts(b: seq<u8>)
    requires |b| == 15
    ensures AllInts(b, [2]) == []
  {
    hide FromLE;
    assert [2][1..] == [] && TakeInts(b[2..], []) == Taken([], b[2..]);
    assert TakeInts(b, [2]) == Taken([FromLE(b[..2])] + [], b[2..]);
  }

  lemma WalkDecodes(tag: u16, q: Qid)
    ensures DecodeReply(WalkReply(tag, q)) == Some((tag, Rwalk([q])))
  {
    hide LE, IntBytes, AllInts, DecodeReply, Pow256, DecodeQid, Header;
    Widths();
    OneByte();
    QidDecodes(q);
    var vs, widths := [1, q.kind, q.version, q.path], [2, 1, 4, 8];
    AllIntsInverts(vs, widths);
    IntBytesLength(vs, widths);
    LongerInts(IntBytes(vs, widths));
    MessageDecodes(WalkReply(tag, q), 111, tag, IntBytes(vs, widths), Rwalk([q]));
  }

  lemma CloneDecodes(tag: u16)
    ensures DecodeReply(CloneReply(tag)) == Some((tag, Rwalk([])))
  {
    hide LE, IntBytes, AllInts, DecodeReply, Pow256, Header;
    Widths();
    OneInt(0, 2);
    AllIntsInverts([0], [2]);
    MessageDecodes(CloneReply(tag), 111, tag, LE(0, 2), Rwalk([]));
  }

  lemma AttrDecodes(q: Qid, a: Attr, o: Unread)
    ensures DecodeAttr(AttrFields(q, a, o)) == Some(Rgetattr(q, a, o))
    ensures ATTR_WIDTHS == [8, 1, 4, 8, 4, 4, 4, 8, 8, 8, 8, 8, 8, 8, 8, 8, 8, 8, 8, 8, 8, 8]
  {
    QidDecodes(q);
    hide DecodeQid;
  }

  lemma GetAttrDecodes(tag: u16, q: Qid, a: Attr, o: Unread)
    ensures DecodeReply(GetAttrReply(tag, q, a, o)) == Some((tag, Rgetattr(q, a, o)))
  {
    hide LE, IntBytes, AllInts, DecodeReply, Pow256, Header, AttrFields, ATTR_WIDTHS, DecodeAttr;
    AttrDecodes(q, a, o);
    AttrFit(q, a, o);
    AllIntsInverts(AttrFields(q, a, o), ATTR_WIDTHS);
    AttrLength(tag, q, a, o);
    MessageDecodes(GetAttrReply(tag, q, a, o), 25, tag, IntBytes(AttrFields(q, a, o), ATTR_WIDTHS),
      Rgetattr(q, a, o));
  }

  lemma LinkDecodes(tag: u16, target: Name)
    requires |target| < 0x1_0000
    ensures DecodeReply(LinkReply(tag, target)) == Some((tag, Rreadlink(target)))
  {
    hide LE, AllData, DecodeReply, Pow256, Header;
    Widths();
    AllDataInverts(target, 2);
    MessageDecodes(LinkReply(tag, target), 23, tag, P9Bytes(target), Rreadlink(target));
  }

  lemma DataDecodes(tag: u16, data: seq<u8>)
    requires 11 + |data| < 0x1_0000_0000
    ensures DecodeReply(DirReply(tag, data)) == Some((tag, Rreaddir(data)))
    ensures DecodeReply(ReplyBytes(tag, data)) == Some((tag, Rread(data)))
  {
    hide LE, AllData, DecodeReply, Pow256;
    Widths();
    AllDataInverts(data, 4);
    var body := LE(|data|, 4) + data;
    MessageDecodes(DirReply(tag, data), 41, tag, body, Rreaddir(data));
    assert ReplyBytes(tag, data) == Header(11 + |data|, 117, tag) + body;
    MessageDecodes(ReplyBytes(tag, data), 117, tag, body, Rread(data));
  }

  lemma VersionDecodes(tag: u16, msize: u32, version: seq<u8>)
    requires |version| < 0x1_0000
    ensures DecodeReply(VersionReply(tag, msize, version)) == Some((tag, Rversion(msize, version)))
  {
    hide LE, FromLE, AllData, DecodeReply, Pow256, Header;
    Widths();
    AllDataInverts(version, 2);
    FromLEInverts(msize, 4);
    TakeIntAtFront(LE(msize, 4), P9Bytes(version));
    MessageDecodes(VersionReply(tag, msize, version), 101, tag, LE(msize, 4) + P9Bytes(version),
      Rversion(msize, version));
  }

  /** Every reply is read back from its bytes as itself, with its tag. */
  lemma DecodeInvertsEncodeReply(tag: u16, r: Response)
    requires FitsReply(r)
    ensures DecodeReply(EncodeReply(tag, r)) == Some((tag, r))
  {
    hide DecodeReply, ErrorReply, OpenReply, LinkReply, GetAttrReply, DirReply, VersionReply, AttachReply, WalkReply,
      CloneReply, ReplyBytes, ClunkReply;
    match r
    case Rlerror(ecode) => ErrorDecodes(tag, ecode);
    case Rlopen(qid, ioUnit) => OpenDecodes(tag, qid, ioUnit);
    case Rreadlink(target) => LinkDecodes(tag, target);
    case Rgetattr(qid, attr, other) => GetAttrDecodes(tag, qid, attr, other);
    case Rreaddir(data) => DataDecodes(tag, data);
    case Rversion(msize, version) => VersionDecodes(tag, msize, version);
    case Rattach(qid) => AttachDecodes(tag, qid);
    case Rwalk(qids) =>
      if qids == [] {
        CloneDecodes(tag);
      } else {
        WalkDecodes(tag, qids[0]);
        assert qids == [qids[0]];
      }
    case Rread(data) => DataDecodes(tag, data);
    case Rclunk => ClunkDecodes(tag);
  }

  lemma ClunkDecodes(tag: u16)
    ensures DecodeReply(ClunkReply(tag)) == Some((tag, Rclunk))
  {
    hide LE, DecodeReply;
    assert ClunkReply(tag) == Header(7, 121, tag) + [];
    MessageDecodes(ClunkReply(tag), 121, tag, [], Rclunk);
  }
}
