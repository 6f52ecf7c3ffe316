/**
 The replies of 9P2000.L as the server lays them out, and the fields of Rgetattr, Rwalk, Rlopen and
 Rattach as the driver reads them, by the offsets of packed structures.
 */
module Replies {
  import opened Ints
  import opened Bytes
  import opened Statuses
  import opened P9Strings
  import opened Wire
  import opened Protocol

  const RLOPEN: u8 := 13
  const RREADLINK: u8 := 23
  const RGETATTR: u8 := 25
  const RREADDIR: u8 := 41
  const RVERSION: u8 := 101
  const RATTACH: u8 := 105
  const RWALK: u8 := 111
  const RCLUNK: u8 := 121

  // ----- The receive buffer -----

  /** A zeroed receive buffer of n bytes with as much of a message as it holds. */
  function InBuffer(b: seq<u8>, n: nat): (rx: seq<u8>)
    ensures |rx| == n && (|b| == n ==> rx == b)
  {
    if |b| < n then b + Zeros(n - |b|) else b[..n]
  }

  /** An Rlerror is known by its kind in any buffer of 5 bytes or more, and its code if all of it is there. */
  lemma ErrorInBuffer(tag: u16, ecode: u32, n: nat, dataSize: nat)
    requires 5 <= n && dataSize <= n
    ensures var rx := InBuffer(ErrorReply(tag, ecode), n);
      && rx[4] == RLERROR
      && (dataSize < 11 ==> ErrorOf(rx, dataSize) == BufferTooSmall)
      && (dataSize >= 11 ==> ErrorOf(rx, dataSize) == CodeStatus(ecode))
  {
    hide LE;
    if dataSize >= 11 {
      ErrorReplyStatus(tag, ecode, Zeros(n - 11), dataSize);
    }
  }

  // ----- Replies without packed fields to read -----

  /** size[4] Rversion tag[2] msize[4] version[s] */
  function VersionReply(tag: u16, msize: u32, version: seq<u8>): seq<u8> {
    Header(13 + |version|, RVERSION, tag) + (LE(msize, 4) + P9Bytes(version))
  }

  /** size[4] Rclunk tag[2] */
  function ClunkReply(tag: u16): (b: seq<u8>)
    ensures |b| == 7
  {
    Header(7, RCLUNK, tag)
  }

  /** size[4] Rwalk tag[2] nwqid[2] for a walk without a name */
  function CloneReply(tag: u16): (b: seq<u8>)
    ensures |b| == 9
  {
    Header(9, RWALK, tag) + LE(0, 2)
  }

  /** size[4] Rreadlink tag[2] target[s] */
  function LinkReply(tag: u16, target: Name): seq<u8> {
    Header(9 + |target|, RREADLINK, tag) + P9Bytes(target)
  }

  /** size[4] Rreaddir tag[2] count[4] data[count] */
  function DirReply(tag: u16, data: seq<u8>): (b: seq<u8>)
    ensures |b| == 11 + |data|
  {
    Header(11 + |data|, RREADDIR, tag) + (LE(|data| % 0x1_0000_0000, 4) + data)
  }

  lemma KindsOf(tag: u16, target: Name, data: seq<u8>)
    ensures ClunkReply(tag)[4] == RCLUNK && CloneReply(tag)[4] == RWALK
    ensures InBuffer(LinkReply(tag, target), 9 + 4096)[4] == RREADLINK
  {
    hide LE;
  }

  /** The count of an Rreaddir and its data, in a buffer that has room for it. */
  lemma DirReplyReadsBack(tag: u16, data: seq<u8>, count: u32)
    requires |data| <= count
    ensures var rx := InBuffer(DirReply(tag, data), 11 + count);
      rx[4] == RREADDIR && FromLE(rx[7..11]) == |data| && rx[11..11 + |data|] == data
  {
    hide LE, FromLE;
    Widths();
    FromLEInverts(|data|, 4);
    assert InBuffer(DirReply(tag, data), 11 + count)[7..11] == LE(|data|, 4);
  }

  /** The message size of an Rversion, and the comparison of its first 8 characters, in a buffer for 8 characters. */
  lemma VersionReplyReadsBack(tag: u16, msize: u32, version: seq<u8>, expected: seq<u8>)
    requires |expected| == 8 && 0 !in expected
    ensures var rx := InBuffer(VersionReply(tag, msize, version), 21);
      rx[4] == RVERSION && FromLE(rx[7..11]) == msize && (rx[13..21] == expected <==> expected <= version)
  {
    hide LE, FromLE;
    Widths();
    FromLEInverts(msize, 4);
    var b, rx := VersionReply(tag, msize, version), InBuffer(VersionReply(tag, msize, version), 21);
    assert b[13..] == version;
    assert rx[7..11] == LE(msize, 4);
    if |version| < 8 {
      assert rx[20] == 0 && rx[13..21][7] == rx[20];
    } else {
      assert rx[13..21] == version[..8];
    }
  }

  // ----- Fields behind one another -----

  /** Where field i starts. */
  function Offset(widths: seq<nat>, i: nat): nat
    requires i <= |widths|
  {
    if i == 0 then 0 else Offset(widths, i - 1) + widths[i - 1]
  }

  lemma {:induction false} OffsetTail(widths: seq<nat>, i: nat)
    requires 0 < i <= |widths|
    ensures Offset(widths, i) == widths[0] + Offset(widths[1..], i - 1)
  {
    if i > 1 {
      OffsetTail(widths, i - 1);
    }
  }

  lemma {:induction false} IntBytesLength(vs: seq<nat>, widths: seq<nat>)
    requires |vs| == |widths|
    ensures |IntBytes(vs, widths)| == Offset(widths, |widths|)
  {
    if vs != [] {
      IntBytesLength(vs[1..], widths[1..]);
      OffsetTail(widths, |widths|);
    }
  }

  lemma {:induction false} OffsetGrows(widths: seq<nat>, i: nat, j: nat)
    requires i <= j <= |widths|
    ensures Offset(widths, i) <= Offset(widths, j)
  {
    if i < j {
      OffsetGrows(widths, i, j - 1);
    }
  }

  /** Reading k bytes at a position of a message. */
  function IntAt(b: seq<u8>, at: nat, k: nat): nat { if at + k <= |b| then FromLE(b[at..at + k]) else 0 }

  lemma IntAtFront(front: seq<u8>, v: nat, k: nat, back: seq<u8>)
    requires v < Pow256(k)
    ensures IntAt(front + (LE(v, k) + back), |front|, k) == v
  {
    hide LE, FromLE;
    FromLEInverts(v, k);
    var b := front + (LE(v, k) + back);
    assert b[|front|..|front| + k] == LE(v, k);
  }

  /** Every field reads back from its own offset. */
  lemma {:induction false} FieldReadsBack(front: seq<u8>, vs: seq<nat>, widths: seq<nat>, i: nat)
    requires FitWidths(vs, widths) && i < |vs|
    ensures IntAt(front + IntBytes(vs, widths), |front| + Offset(widths, i), widths[i]) == vs[i]
    decreases i
  {
    hide LE, IntAt;
    var first, rest := LE(vs[0], widths[0]), IntBytes(vs[1..], widths[1..]);
    if i == 0 {
      IntAtFront(front, vs[0], widths[0], rest);
    } else {
      FieldReadsBack(front + first, vs[1..], widths[1..], i - 1);
      OffsetTail(widths, i);
      assert front + first + rest == front + (first + rest);
    }
  }

  // ----- Qids -----

  /** CopyMem from a packed Qid: type[1] version[4] path[8]. */
  function QidAt(b: seq<u8>, at: nat): Qid {
    Qid(IntAt(b, at, 1) % 0x100, IntAt(b, at + 1, 4) % 0x1_0000_0000, IntAt(b, at + 5, 8) % TWO64)
  }

  lemma QidReadsBack(b: seq<u8>, at: nat, q: Qid)
    requires IntAt(b, at, 1) == q.kind && IntAt(b, at + 1, 4) == q.version && IntAt(b, at + 5, 8) == q.path
    ensures QidAt(b, at) == q
  {
    hide IntAt;
  }

  lemma OneByte()
    ensures Pow256(1) == 0x100
  {
  }

  // ----- Rlopen, Rattach, Rwalk -----

  const QID_UNIT_WIDTHS: seq<nat> := [1, 4, 8, 4]

  /** size[4] Rlopen tag[2] qid[13] iounit[4] */
  function OpenReply(tag: u16, q: Qid, ioUnit: u32): seq<u8> {
    Header(24, RLOPEN, tag) + IntBytes([q.kind, q.version, q.path, ioUnit], QID_UNIT_WIDTHS)
  }

  lemma OpenReplyReadsBack(tag: u16, q: Qid, ioUnit: u32)
    ensures var b := OpenReply(tag, q, ioUnit);
      |b| == 24 && b[4] == RLOPEN && QidAt(b, 7) == q && IntAt(b, 20, 4) == ioUnit
  {
    Widths();
    OneByte();
    hide IntAt, IntBytes, Pow256;
    var h, vs := Header(24, RLOPEN, tag), [q.kind, q.version, q.path, ioUnit];
    IntBytesLength(vs, QID_UNIT_WIDTHS);
    FieldReadsBack(h, vs, QID_UNIT_WIDTHS, 0);
    FieldReadsBack(h, vs, QID_UNIT_WIDTHS, 1);
    FieldReadsBack(h, vs, QID_UNIT_WIDTHS, 2);
    FieldReadsBack(h, vs, QID_UNIT_WIDTHS, 3);
    QidReadsBack(OpenReply(tag, q, ioUnit), 7, q);
  }

  const QID_WIDTHS: seq<nat> := [1, 4, 8]

  /** size[4] Rattach tag[2] qid[13] */
  function AttachReply(tag: u16, q: Qid): seq<u8> {
    Header(20, RATTACH, tag) + IntBytes([q.kind, q.version, q.path], QID_WIDTHS)
  }

  lemma AttachReplyReadsBack(tag: u16, q: Qid)
    ensures var b := AttachReply(tag, q); |b| == 20 && b[4] == RATTACH && QidAt(b, 7) == q
  {
    Widths();
    OneByte();
    hide IntAt, IntBytes, Pow256;
    var h, vs := Header(20, RATTACH, tag), [q.kind, q.version, q.path];
    IntBytesLength(vs, QID_WIDTHS);
    FieldReadsBack(h, vs, QID_WIDTHS, 0);
    FieldReadsBack(h, vs, QID_WIDTHS, 1);
    FieldReadsBack(h, vs, QID_WIDTHS, 2);
    QidReadsBack(AttachReply(tag, q), 7, q);
  }

  const COUNT_QID_WIDTHS: seq<nat> := [2, 1, 4, 8]

  /** size[4] Rwalk tag[2] nwqid[2] qid[13] for a walk with one name */
  function WalkReply(tag: u16, q: Qid): seq<u8> {
    Header(22, RWALK, tag) + IntBytes([1, q.kind, q.version, q.path], COUNT_QID_WIDTHS)
  }

  lemma WalkReplyReadsBack(tag: u16, q: Qid)
    ensures var b := WalkReply(tag, q); |b| == 22 && b[4] == RWALK && QidAt(b, 9) == q
  {
    Widths();
    OneByte();
    hide IntAt, IntBytes, Pow256;
    var h, vs := Header(22, RWALK, tag), [1, q.kind, q.version, q.path];
    IntBytesLength(vs, COUNT_QID_WIDTHS);
    FieldReadsBack(h, vs, COUNT_QID_WIDTHS, 1);
    FieldReadsBack(h, vs, COUNT_QID_WIDTHS, 2);
    FieldReadsBack(h, vs, COUNT_QID_WIDTHS, 3);
    QidReadsBack(WalkReply(tag, q), 9, q);
  }

  // ----- Rgetattr -----

  /** The fields of an Rgetattr that the driver does not read. */
  datatype Unread = Unread(
    valid: u64, uid: u32, gid: u32, nlink: u64, rdev: u64, blksize: u64,
    btimeSec: u64, btimeNSec: u64, gen: u64, dataVersion: u64)

  /** valid, qid, mode, uid, gid, nlink, rdev, size, blksize, blocks, four times, gen, data version */
  const ATTR_WIDTHS: seq<nat> := [8, 1, 4, 8, 4, 4, 4, 8, 8, 8, 8, 8, 8, 8, 8, 8, 8, 8, 8, 8, 8, 8]

  function AttrFields(q: Qid, a: Attr, o: Unread): (vs: seq<nat>)
    ensures |vs| == |ATTR_WIDTHS|
  {
    [o.valid, q.kind, q.version, q.path, a.mode, o.uid, o.gid, o.nlink, o.rdev, a.size, o.blksize, a.blocks,
     a.atimeSec, a.atimeNSec, a.mtimeSec, a.mtimeNSec, a.ctimeSec, a.ctimeNSec, o.btimeSec, o.btimeNSec,
     o.gen, o.dataVersion]
  }

  function GetAttrReply(tag: u16, q: Qid, a: Attr, o: Unread): seq<u8> {
    Header(160, RGETATTR, tag) + IntBytes(AttrFields(q, a, o), ATTR_WIDTHS)
  }

  /** The fields that P9GetAttr reads, by their offsets in P9RGetAttr. */
  function AttrOf(b: seq<u8>): Attr {
    Attr(IntAt(b, 28, 4) % 0x1_0000_0000, IntAt(b, 56, 8) % TWO64, IntAt(b, 72, 8) % TWO64,
         IntAt(b, 80, 8) % TWO64, IntAt(b, 88, 8) % TWO64, IntAt(b, 96, 8) % TWO64, IntAt(b, 104, 8) % TWO64,
         IntAt(b, 112, 8) % TWO64, IntAt(b, 120, 8) % TWO64)
  }

  lemma AttrFit(q: Qid, a: Attr, o: Unread)
    ensures FitWidths(AttrFields(q, a, o), ATTR_WIDTHS)
  {
    Widths();
    OneByte();
    hide Pow256;
  }

  lemma OffsetNext(widths: seq<nat>, i: nat, at: nat, w: nat)
    requires i < |widths| && Offset(widths, i) == at && widths[i] == w
    ensures Offset(widths, i + 1) == at + w
  {
  }

  /** The offsets of the packed structure are those of the fields behind one another. */
  lemma AttrOffsets()
    ensures Offset(ATTR_WIDTHS, 1) == 8 && Offset(ATTR_WIDTHS, 2) == 9 && Offset(ATTR_WIDTHS, 3) == 13
    ensures Offset(ATTR_WIDTHS, 4) == 21 && Offset(ATTR_WIDTHS, 7) == 33
  {
    hide Offset;
    assert Offset(ATTR_WIDTHS, 0) == 0 by { NoOffset(); }
    OffsetNext(ATTR_WIDTHS, 0, 0, 8);
    OffsetNext(ATTR_WIDTHS, 1, 8, 1);
    OffsetNext(ATTR_WIDTHS, 2, 9, 4);
    OffsetNext(ATTR_WIDTHS, 3, 13, 8);
    OffsetNext(ATTR_WIDTHS, 4, 21, 4);
    OffsetNext(ATTR_WIDTHS, 5, 25, 4);
    OffsetNext(ATTR_WIDTHS, 6, 29, 4);
  }

  lemma NoOffset()
    ensures Offset(ATTR_WIDTHS, 0) == 0
  {
  }

  lemma {:induction false} EightWide(from: nat, at: nat, n: nat)
    requires 7 <= from && from + n <= |ATTR_WIDTHS| && Offset(ATTR_WIDTHS, from) == at
    ensures Offset(ATTR_WIDTHS, from + n) == at + 8 * n
  {
    hide Offset;
    if n > 0 {
      EightWide(from, at, n - 1);
      assert forall i :: 7 <= i < |ATTR_WIDTHS| ==> ATTR_WIDTHS[i] == 8;
      OffsetNext(ATTR_WIDTHS, from + n - 1, at + 8 * (n - 1), 8);
    }
  }

  lemma AttrFieldIs(tag: u16, q: Qid, a: Attr, o: Unread, i: nat, at: nat, v: nat)
    requires i < |ATTR_WIDTHS| && Offset(ATTR_WIDTHS, i) == at && AttrFields(q, a, o)[i] == v
    ensures IntAt(GetAttrReply(tag, q, a, o), 7 + at, ATTR_WIDTHS[i]) == v
  {
    hide IntAt, IntBytes, AttrFields, Offset, FitWidths;
    AttrFit(q, a, o);
    FieldReadsBack(Header(160, RGETATTR, tag), AttrFields(q, a, o), ATTR_WIDTHS, i);
  }

  lemma AttrWideFieldIs(tag: u16, q: Qid, a: Attr, o: Unread, n: nat, v: nat)
    requires 7 + n < |ATTR_WIDTHS| && AttrFields(q, a, o)[7 + n] == v
    ensures IntAt(GetAttrReply(tag, q, a, o), 40 + 8 * n, 8) == v
  {
    hide IntAt, GetAttrReply, AttrFields, Offset;
    AttrOffsets();
    EightWide(7, 33, n);
    assert forall i :: 7 <= i < |ATTR_WIDTHS| ==> ATTR_WIDTHS[i] == 8;
    AttrFieldIs(tag, q, a, o, 7 + n, 33 + 8 * n, v);
  }

  lemma AttrFieldsAre(q: Qid, a: Attr, o: Unread)
    ensures |ATTR_WIDTHS| == 22
    ensures var vs := AttrFields(q, a, o);
      && vs[7 + 2] == a.size && vs[7 + 4] == a.blocks && vs[7 + 5] == a.atimeSec && vs[7 + 6] == a.atimeNSec
      && vs[7 + 7] == a.mtimeSec && vs[7 + 8] == a.mtimeNSec && vs[7 + 9] == a.ctimeSec && vs[7 + 10] == a.ctimeNSec
  {
  }

  lemma AttrQid(tag: u16, q: Qid, a: Attr, o: Unread)
    ensures QidAt(GetAttrReply(tag, q, a, o), 15) == q && IntAt(GetAttrReply(tag, q, a, o), 28, 4) == a.mode
  {
    hide IntAt, GetAttrReply, Offset;
    AttrOffsets();
    AttrFieldIs(tag, q, a, o, 1, 8, q.kind);
    AttrFieldIs(tag, q, a, o, 2, 9, q.version);
    AttrFieldIs(tag, q, a, o, 3, 13, q.path);
    AttrFieldIs(tag, q, a, o, 4, 21, a.mode);
    QidReadsBack(GetAttrReply(tag, q, a, o), 15, q);
  }

  lemma AttrLength(tag: u16, q: Qid, a: Attr, o: Unread)
    ensures |GetAttrReply(tag, q, a, o)| == 160 && GetAttrReply(tag, q, a, o)[4] == RGETATTR
  {
    hide Offset, IntBytes;
    AttrOffsets();
    EightWide(7, 33, 15);
    IntBytesLength(AttrFields(q, a, o), ATTR_WIDTHS);
  }

  /** The 160 bytes of an Rgetattr give back the Qid and every attribute that the driver reads. */
  lemma GetAttrReplyReadsBack(tag: u16, q: Qid, a: Attr, o: Unread)
    ensures var b := GetAttrReply(tag, q, a, o);
      |b| == 160 && b[4] == RGETATTR && QidAt(b, 15) == q && AttrOf(b) == a
  {
    hide IntAt, GetAttrReply, QidAt, AttrFields, ATTR_WIDTHS;
    AttrFieldsAre(q, a, o);
    AttrLength(tag, q, a, o);
    AttrQid(tag, q, a, o);
    AttrWideFieldIs(tag, q, a, o, 2, a.size);
    AttrWideFieldIs(tag, q, a, o, 4, a.blocks);
    AttrWideFieldIs(tag, q, a, o, 5, a.atimeSec);
    AttrWideFieldIs(tag, q, a, o, 6, a.atimeNSec);
    AttrWideFieldIs(tag, q, a, o, 7, a.mtimeSec);
    AttrWideFieldIs(tag, q, a, o, 8, a.mtimeNSec);
    AttrWideFieldIs(tag, q, a, o, 9, a.ctimeSec);
    AttrWideFieldIs(tag, q, a, o, 10, a.ctimeNSec);
  }
}
