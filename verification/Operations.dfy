/** The file operations of the driver as functions of the connection and of one handle. */
module Operations {
  import opened Ints
  import opened Bytes
  import opened Statuses
  import opened Paths
  import opened P9Strings
  import opened Calendar
  import opened EfiTimes
  import opened Protocol
  import opened Walking

  /** The fields of P9_IFILE that change. */
  datatype Handle = Handle(fid: u32, qid: Qid, position: u64, isOpened: bool, fileName: Text)

  const P9_MAX_FLEN: nat := 255
  const EFI_FILE_MODE_READ: u64 := 1
  const QTDIR: u8 := 0x80
  const QTSYMLINK: u8 := 0x02

  /** StrCpyS into FileName: a name that does not fit leaves the zeroed field empty. */
  function FileNameField(name: Text): Text { if |name| <= P9_MAX_FLEN then name else [] }

  // ----- Open and close -----

  datatype OpenResult = OpenResult(status: Status, link: Link, handle: Option<Handle>)

  /** P9Open relative to the handle with the given fid. */
  function OpenFile(tree: Tree, l: Link, rootFid: u32, fid: u32, name: Option<Text>, mode: u64, stale: Target)
    : OpenResult
  {
    if name.None? || mode != EFI_FILE_MODE_READ then OpenResult(InvalidParameter, l, None)
    else
      var w := Walk(tree, l, rootFid, fid, name.value, stale);
      if w.status.IsError() then OpenResult(w.status, w.link, None)
      else
        var (status, l', qid) := LOpen(tree, w.link, w.target.fid, w.target.qid);
        if status.IsError() then OpenResult(status, l', None)
        else OpenResult(Success, l', Some(Handle(w.target.fid, qid, 0, true, FileNameField(FileNameOf(name.value)))))
  }

  // ----- File information -----

  const SIZE_OF_EFI_FILE_INFO: nat := 80
  const EFI_FILE_DIRECTORY: u64 := 0x10
  const EFI_FILE_ARCHIVE: u64 := 0x20

  datatype FileInfo = FileInfo(
    size: nat, fileSize: u64, physicalSize: u64,
    createTime: EfiTime, lastAccessTime: EfiTime, modificationTime: EfiTime,
    attribute: u64, fileName: Text)

  /** (mode & 0170000) == 0040000 */
  predicate IsDirMode(mode: u32) { mode / 0x1000 % 0x10 == 4 }

  /** Bytes of an EFI_FILE_INFO with a file name of n characters. */
  function InfoSize(n: nat): nat { SIZE_OF_EFI_FILE_INFO + 2 * (n + 1) }

  function TimeOf(seconds: u64, nanoseconds: u64): EfiTime {
    hide EpochToEfiTime;
    EpochToEfiTime(seconds).(nanosecond := nanoseconds % 0x1_0000_0000)
  }

  /** What P9GetAttr fills in for the attributes a of a file called name. */
  function InfoOf(a: Attr, name: Text): FileInfo {
    FileInfo(InfoSize(|name|), a.size, Mul64(512, a.blocks),
             TimeOf(a.ctimeSec, a.ctimeNSec), TimeOf(a.atimeSec, a.atimeNSec), TimeOf(a.mtimeSec, a.mtimeNSec),
             if IsDirMode(a.mode) then EFI_FILE_DIRECTORY else EFI_FILE_ARCHIVE, name)
  }

  // ----- Directory entries on the wire -----

  const ENTRY_HEAD: nat := 24
  const NAME_LENGTH: nat := 255
  const ENTRY_SIZE: nat := ENTRY_HEAD + NAME_LENGTH

  function QidBytes(q: Qid): (b: seq<u8>)
    ensures |b| == 13
  {
    [q.kind] + LE(q.version, 4) + LE(q.path, 8)
  }

  /** P9DirEnt: qid[13] offset[8] type[1] name[s]. */
  function EntryBytes(q: Qid, offset: nat, kind: u8, name: Name): (b: seq<u8>)
    ensures |b| == ENTRY_HEAD + |name|
  {
    QidBytes(q) + LE(offset, 8) + [kind] + P9Bytes(name)
  }

  /** The data of an Rreaddir: the entry at the cookie, and possibly bytes of later entries. */
  function DirPayload(tree: Tree, node: Node, cookie: nat, count: nat, more: seq<u8>): (b: seq<u8>)
    ensures |b| <= count
  {
    var entries := tree.listing(node);
    if cookie >= |entries| then []
    else
      var e := entries[cookie];
      var first := EntryBytes(tree.qid(e.node), cookie + 1, e.kind, e.name);
      if |first| > count then [] else first + more[..Min(|more|, count - |first|)]
  }

  function ServeReadDir(fids: Table, fid: u32): Decision {
    if fid !in fids || !fids[fid].isOpen then Reject(EBADF) else Accept(fids)
  }

  datatype ReadDirResult = ReadDirResult(status: Status, link: Link, count: nat, data: seq<u8>)

  /** P9LReadDir into a zeroed buffer; an early exit leaves the count as it was. */
  function ReadDir(tree: Tree, l: Link, fid: u32, cookie: u64, count: nat): (r: ReadDirResult)
    ensures |r.data| == count
  {
    var (reply, l') := Exchange(l, ServeReadDir(l.fids, fid), l.fids);
    if reply == Answer then
      var more := if FateOf(l).Served? then FateOf(l).more else [];
      var payload := DirPayload(tree, l.fids[fid].node, cookie, count, more);
      ReadDirResult(Success, l', |payload|, payload + Zeros(count - |payload|))
    else ReadDirResult(ReplyStatus(reply, true), l', count, Zeros(count))
  }

  function EntryOffset(data: seq<u8>): nat
    requires |data| == ENTRY_SIZE
  {
    FromLE(data[13..21])
  }

  function EntryName(data: seq<u8>): Name
    requires |data| == ENTRY_SIZE
  {
    data[ENTRY_HEAD..Min(ENTRY_HEAD + FromLE(data[22..24]), ENTRY_SIZE)]
  }

  /** The string up to its first NUL. */
  function UpToNul(s: Text): (t: Text)
    ensures IsText(t) && |t| <= |s|
    ensures IsText(s) ==> t == s
  {
    if s == [] || s[0] == 0 then [] else [s[0]] + UpToNul(s[1..])
  }

  /** Path as P9DirRead obtains it from an entry's name. */
  function EntryPath(name: Name, signedChar: bool): Text { UpToNul(Widen(name, signedChar)) }

  // ----- Reading a directory -----

  datatype DirResult = DirResult(status: Status, link: Link, handle: Handle, size: nat, info: Option<FileInfo>)

  /** The part of P9DirRead after an entry has been received. */
  function DeliverEntry(tree: Tree, l: Link, rootFid: u32, h: Handle, size: nat, data: seq<u8>,
                        signedChar: bool, stale: Target): DirResult
    requires |data| == ENTRY_SIZE
  {
    var name := EntryName(data);
    var needed := InfoSize(|name|);
    if size < needed then DirResult(BufferTooSmall, l, h, needed, None)
    else
      var path := EntryPath(name, signedChar);
      var w := Walk(tree, l, rootFid, h.fid, path, stale);
      if w.status.IsError() then DirResult(w.status, w.link, h, size, None)
      else
        var (status, l', node) := GetAttr(tree, w.link, w.target.fid);
        if status.IsError() then DirResult(status, l', h, size, None)
        else DirResult(Success, l', h.(position := EntryOffset(data) % TWO64), needed,
                       if node.Some? then Some(InfoOf(tree.attr(node.value), FileNameField(path))) else None)
  }

  /** P9DirRead with a buffer of size bytes. */
  function DirRead(tree: Tree, l: Link, rootFid: u32, h: Handle, size: nat, signedChar: bool, stale: Target)
    : DirResult
  {
    var (status, l0, qid) := if h.isOpened then (Success, l, h.qid) else LOpen(tree, l, h.fid, h.qid);
    if status.IsError() then DirResult(status, l0, h, size, None)
    else
      var h0 := h.(qid := qid, isOpened := true);
      var r := ReadDir(tree, l0, h.fid, h.position, ENTRY_SIZE);
      if r.status.IsError() then DirResult(r.status, r.link, h0, size, None)
      else if r.count == 0 then DirResult(Success, r.link, h0, 0, None)
      else DeliverEntry(tree, r.link, rootFid, h0, size, r.data, signedChar, stale)
  }

  // ----- Reading by kind of file -----

  predicate HasBit(kind: u8, bit: u8)
    requires bit > 0
  {
    kind / bit % 2 == 1
  }

  function ServeReadLink(fids: Table, fid: u32): Decision { ServeLive(fids, fid) }

  const P9_MAX_PATH: nat := 4096

  /** The exchange of P9LReadLink. */
  function ReadLink(l: Link, fid: u32): (Status, Link) {
    var (reply, l') := Exchange(l, ServeReadLink(l.fids, fid), l.fids);
    (ReplyStatus(reply, true), l')
  }

  /** AsciiStrnToUnicodeStrS into SymLinkTarget: text that does not fit leaves it as before. */
  function LinkText(target: Name, before: Text, signedChar: bool): Text {
    var text := EntryPath(target[..Min(|target|, P9_MAX_PATH)], signedChar);
    if |text| < P9_MAX_PATH then text else before
  }

  /** SymLinkTarget after P9LReadLink. */
  function LinkTarget(tree: Tree, l: Link, fid: u32, before: Text, signedChar: bool): Text {
    if FateOf(l).Served? && fid in l.fids then LinkText(tree.target(l.fids[fid].node), before, signedChar) else before
  }

  /** StrSize */
  function TextSize(s: Text): nat { 2 * (|s| + 1) }

  /** What P9SymLinkRead returns; text is what it puts into the buffer. */
  datatype LinkResult = LinkResult(status: Status, link: Link, target: Text, size: nat, text: Option<Text>)

  /** P9SymLinkRead with a buffer of size bytes. The size is not touched on success. */
  function SymLinkRead(tree: Tree, l: Link, fid: u32, before: Text, size: nat, signedChar: bool): LinkResult {
    var (status, l') := ReadLink(l, fid);
    var target := LinkTarget(tree, l, fid, before, signedChar);
    if status.IsError() then LinkResult(status, l', target, size, None)
    else if size < TextSize(target) then LinkResult(BufferTooSmall, l', target, TextSize(target), None)
    else LinkResult(Success, l', target, size, Some(target))
  }

  /** P9SetPosition. */
  function SetPosition(h: Handle, position: u64): (Status, Handle) {
    if h.qid.kind == QTDIR && position != 0 then (Unsupported, h) else (Success, h.(position := position))
  }

  // ----- What the caller sees -----

  /** The file information carries the server's attributes: sizes, and times that convert back while their years fit. */
  lemma InfoCarriesAttributes(a: Attr, name: Text)
    ensures var i := InfoOf(a, name);
      && (a.ctimeSec < YEAR_OVERFLOW ==> IsValid(DateOf(i.createTime)) && EfiTimeToEpoch(i.createTime) == a.ctimeSec)
      && (a.mtimeSec < YEAR_OVERFLOW ==>
            IsValid(DateOf(i.modificationTime)) && EfiTimeToEpoch(i.modificationTime) == a.mtimeSec)
      && (a.atimeSec < YEAR_OVERFLOW ==>
            IsValid(DateOf(i.lastAccessTime)) && EfiTimeToEpoch(i.lastAccessTime) == a.atimeSec)
      && (a.ctimeNSec < 1_000_000_000 ==> i.createTime.nanosecond == a.ctimeNSec)
      && (a.mtimeNSec < 1_000_000_000 ==> i.modificationTime.nanosecond == a.mtimeNSec)
      && (a.atimeNSec < 1_000_000_000 ==> i.lastAccessTime.nanosecond == a.atimeNSec)
      && i.fileSize == a.size && (i.physicalSize == 512 * a.blocks <==> 512 * a.blocks < TWO64)
      && i.size == 8 + 8 + 8 + 3 * 16 + 8 + 2 * |name| + 2 && i.fileName == name
  {
    hide TimeOf, IsDirMode, EfiTimeToEpoch, IsValid, DateOf;
    TimeRoundTrip(a.ctimeSec, a.ctimeNSec);
    TimeRoundTrip(a.mtimeSec, a.mtimeNSec);
    TimeRoundTrip(a.atimeSec, a.atimeNSec);
  }

  lemma TimeRoundTrip(seconds: u64, nanoseconds: u64)
    ensures var t := TimeOf(seconds, nanoseconds);
      && (seconds < YEAR_OVERFLOW ==> IsValid(DateOf(t)) && EfiTimeToEpoch(t) == seconds)
      && (nanoseconds < 1_000_000_000 ==> t.nanosecond == nanoseconds)
  {
    hide EpochToEfiTime, DayNumber, IsValid, YEAR_OVERFLOW;
    ConversionInvertible(seconds);
  }

  /** The directory attribute depends on the four type bits of the mode alone, and marks type 4. */
  lemma DirectoryAttribute(a: Attr, name: Text, high: nat, kind: nat, low: nat)
    requires kind < 0x10 && low < 0x1000 && a.mode == 0x1_0000 * high + 0x1000 * kind + low
    ensures InfoOf(a, name).attribute == (if kind == 4 then 0x10 else 0x20)
  {
    hide TimeOf;
    DivUnique(a.mode, 0x1000, 0x10 * high + kind, low);
    DivUnique(0x10 * high + kind, 0x10, high, kind);
  }

  /** The highest bit of a Qid type marks directories, and the second lowest symbolic links, whatever the others are. */
  lemma QidTypeBits(kind: u8, dir: nat, high: nat, link: nat, low: nat)
    requires dir < 2 && high < 32 && link < 2 && low < 2 && kind == 128 * dir + 4 * high + 2 * link + low
    ensures (HasBit(kind, QTDIR) <==> dir == 1) && (HasBit(kind, QTSYMLINK) <==> link == 1)
  {
    DivUnique(kind, 128, dir, 4 * high + 2 * link + low);
    DivUnique(kind, 2, 64 * dir + 2 * high + link, low);
    DivUnique(64 * dir + 2 * high + link, 2, 32 * dir + high, link);
  }

  /**
   A handle is named after the last component of the path scanned by the walk, exactly when the
   path has no trailing separator (and the name fits its field).
   */
  lemma HandleNamedAfterLastComponent(path: Text)
    requires Relative(path) != [] && Relative(path)[0] != SEP
    ensures var scanned := Scan(Relative(path));
      && scanned != []
      && (FileNameOf(path) == scanned[|scanned| - 1] <==> path[|path| - 1] != SEP)
  {
    hide Scan, FileNameOf;
    var p := Relative(path);
    BackwardMeetsForward(p);
    if IsAbsolute(path) {
      assert path == [] + Seps(1) + p;
      FileNameOfSuffix([], 1, p);
    }
  }
}
