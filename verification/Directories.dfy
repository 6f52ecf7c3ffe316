/** Reading a whole directory through P9DirRead. */
module Directories {
  import opened Ints
  import opened Bytes
  import opened Statuses
  import opened Paths
  import opened P9Strings
  import opened Wire
  import opened Protocol
  import opened Walking
  import opened WalkLaws
  import opened WalkFates
  import opened Operations

  // ----- Entries survive the wire -----

  lemma EntryReadsBack(q: Qid, offset: nat, kind: u8, name: Name, more: seq<u8>)
    requires |name| <= NAME_LENGTH && ENTRY_HEAD + |name| + |more| == ENTRY_SIZE
    ensures var data := EntryBytes(q, offset, kind, name) + more;
      EntryName(data) == name && (offset < TWO64 ==> EntryOffset(data) == offset)
  {
    hide LE, FromLE, QidBytes;
    var head, data := QidBytes(q), EntryBytes(q, offset, kind, name) + more;
    Widths();
    if offset < TWO64 {
      FromLEInverts(offset, 8);
    }
    FromLEInverts(|name|, 2);
    assert data[13..21] == LE(offset, 8);
    assert data[22..24] == LE(|name| % 0x1_0000, 2);
    assert data[24..24 + |name|] == name;
  }

  /** An entry is laid out as qid[13] offset[8] type[1] name[s]. */
  lemma EntryParses(q: Qid, offset: nat, kind: u8, name: Name, more: seq<u8>)
    requires offset < TWO64 && |name| < 0x1_0000
    ensures var r := TakeInts(EntryBytes(q, offset, kind, name) + more, [1, 4, 8, 8, 1]);
      r.Taken? && r.value == [q.kind, q.version, q.path, offset, kind] && TakeString(r.rest) == Taken(name, more)
  {
    hide LE, FromLE, P9Bytes, TakeString;
    Widths();
    assert Pow256(1) == 0x100;
    var vs, widths := [q.kind, q.version, q.path, offset, kind], [1, 4, 8, 8, 1];
    EntryInts(q, offset, kind);
    var ints := IntBytes(vs, widths);
    assert EntryBytes(q, offset, kind, name) + more == ints + (P9Bytes(name) + more);
    hide TakeInts, IntBytes, Pow256;
    TakeIntsInverts(vs, widths, P9Bytes(name) + more);
    TakeStringOf(name, more);
  }

  lemma EntryInts(q: Qid, offset: nat, kind: u8)
    ensures IntBytes([q.kind, q.version, q.path, offset, kind], [1, 4, 8, 8, 1])
      == QidBytes(q) + LE(offset, 8) + [kind]
  {
    OneByteLE(q.kind);
    OneByteLE(kind);
    hide LE, IntBytes, QidBytes;
    ThreeInts(q.path, offset, kind, 8, 8, 1);
    IntBytesCons(q.version, [q.path, offset, kind], 4, [8, 8, 1]);
    IntBytesCons(q.kind, [q.version, q.path, offset, kind], 1, [4, 8, 8, 1]);
    assert [q.version, q.path, offset, kind] == [q.version] + [q.path, offset, kind];
    assert [q.kind, q.version, q.path, offset, kind] == [q.kind] + [q.version, q.path, offset, kind];
    assert [4, 8, 8, 1] == [4] + [8, 8, 1] && [1, 4, 8, 8, 1] == [1] + [4, 8, 8, 1];
    Regroup([q.kind], LE(q.version, 4), LE(q.path, 8), LE(offset, 8), [kind]);
    QidInts(q);
  }

  lemma OneByteLE(v: u8)
    ensures LE(v, 1) == [v]
  {
    assert LE(v / 256, 0) == [];
  }

  lemma QidInts(q: Qid)
    ensures QidBytes(q) == [q.kind] + LE(q.version, 4) + LE(q.path, 8)
  {
  }

  lemma Regroup(a: seq<u8>, b: seq<u8>, c: seq<u8>, d: seq<u8>, e: seq<u8>)
    ensures a + (b + (c + d + e)) == a + b + c + d + e
  {
  }

  // ----- Listings -----

  /** A name that P9DirRead can look up as one component. */
  predicate IsEntryName(name: Name) {
    0 < |name| <= NAME_LENGTH && 0 !in name && 0x5C !in name
  }

  /** "." names the directory itself, and every other entry is found by walking to its name. */
  predicate IsConsistent(tree: Tree, node: Node) {
    && |tree.listing(node)| < 0x1_0000_0000
    && forall i :: 0 <= i < |tree.listing(node)| ==>
         var e := tree.listing(node)[i];
         IsEntryName(e.name) && (if e.name == [0x2E] then e.node == node else tree.child(node, e.name) == Some(e.node))
  }

  /** The names that the root guard refuses. */
  predicate DotDotName(name: Name) { |name| >= 2 && name[0] == 0x2E && name[1] == 0x2E }

  lemma EntryPathOf(name: Name, signedChar: bool)
    requires IsEntryName(name)
    ensures var path := EntryPath(name, signedChar);
      && path == Widen(name, signedChar) && IsComponent(path) && Narrow(path) == name
      && Relative(path) == path && !IsAbsolute(path)
      && (IsDot(path) <==> name == [0x2E])
      && (StartsWithDots(path) <==> DotDotName(name))
      && (IsDot(path) ==> IsSpecial(path) && Route(path) == [])
      && (!IsDot(path) ==> !IsSpecial(path) && Route(path) == [path])
      && FidCost(path) == 1 && IsDefined(path) && |path| <= NAME_LENGTH
  {
    var w := Widen(name, signedChar);
    assert forall i :: 0 <= i < |name| ==> w[i] == WideChar(name[i], signedChar) && w[i] != 0 && w[i] != SEP;
    NarrowInvertsWiden(name, signedChar);
    assert w[0] != SEP;
    OneComponent(w);
  }

  lemma OneComponent(c: Text)
    requires IsComponent(c)
    ensures Scan(c) == [c] && Names(c) == if IsDot(c) then [] else [c]
  {
    ScanEmpty([]);
    assert c + Seps(0) + [] == c;
    ScanStep(c, 0, []);
    assert NonDot([c][1..]) == [];
  }

  /** What one call delivers for an entry. */
  function EntryInfo(tree: Tree, e: DirEntry, signedChar: bool): FileInfo {
    InfoOf(tree.attr(e.node), Widen(e.name, signedChar))
  }

  /** A handle over a connection that serves the next n exchanges. */
  ghost predicate Live(l: Link, rootFid: u32, h: Handle, n: nat) {
    && rootFid in l.fids && h.fid in l.fids && Below(l) && Healthy(l, n)
    && l.fids[h.fid].isOpen == h.isOpened
  }

  /** The same on a consistent directory. */
  ghost predicate Ready(tree: Tree, l: Link, rootFid: u32, h: Handle, n: nat) {
    Live(l, rootFid, h, n) && IsConsistent(tree, l.fids[h.fid].node)
  }

  /** The handle after a first P9LOpen, if it was still to be opened. */
  function Opened(tree: Tree, l: Link, h: Handle): Handle
    requires h.fid in l.fids
  {
    if h.isOpened then h else h.(qid := tree.qid(l.fids[h.fid].node), isOpened := true)
  }

  /** The connection after it. */
  function AfterOpening(l: Link, h: Handle): Link
    requires h.fid in l.fids
  {
    if h.isOpened then l else Spent(l).(fids := l.fids[h.fid := l.fids[h.fid].(isOpen := true)])
  }

  lemma DirReadOpens(tree: Tree, l: Link, rootFid: u32, h: Handle, size: nat, signedChar: bool, stale: Target)
    requires Live(l, rootFid, h, 1)
    ensures DirRead(tree, l, rootFid, h, size, signedChar, stale)
      == DirRead(tree, AfterOpening(l, h), rootFid, Opened(tree, l, h), size, signedChar, stale)
    ensures AfterOpening(l, h).fids.Keys == l.fids.Keys
    ensures forall f :: f in l.fids ==> AfterOpening(l, h).fids[f].node == l.fids[f].node
    ensures forall n: nat :: 0 < n && Healthy(l, n) ==> Live(AfterOpening(l, h), rootFid, Opened(tree, l, h), n - 1)
  {
    hide ReadDir, DeliverEntry;
    if !h.isOpened {
      assert FateOf(l).Served?;
      assert LOpen(tree, l, h.fid, h.qid) == (Success, AfterOpening(l, h), tree.qid(l.fids[h.fid].node));
    }
  }

  // ----- One call -----

  function Entries(tree: Tree, l: Link, h: Handle): seq<DirEntry>
    requires h.fid in l.fids
  {
    tree.listing(l.fids[h.fid].node)
  }

  /** P9LReadDir by its fate: the entry at the cookie, or an error, the end, or nothing but zeros. */
  lemma ReadDirByFate(tree: Tree, l: Link, fid: u32, cookie: u64)
    ensures var r := ReadDir(tree, l, fid, cookie, ENTRY_SIZE);
      && r.link == Spent(l)
      && if fid in l.fids && l.fids[fid].isOpen && FateAt(l.fates, 0).Served?
            && cookie < |tree.listing(l.fids[fid].node)| && |tree.listing(l.fids[fid].node)[cookie].name| <= NAME_LENGTH
         then r.status == Success && r.count > 0 && EntryName(r.data) == tree.listing(l.fids[fid].node)[cookie].name
              && (cookie + 1 < TWO64 ==> EntryOffset(r.data) == cookie + 1)
         else r.status != Success || r.count == 0 || EntryName(r.data) == []
    ensures var r := ReadDir(tree, l, fid, cookie, ENTRY_SIZE);
      fid in l.fids && l.fids[fid].isOpen && FateAt(l.fates, 0).Served? ==>
        r.status == Success && (r.count == 0 <==> cookie >= |tree.listing(l.fids[fid].node)|
                                                  || |tree.listing(l.fids[fid].node)[cookie].name| > NAME_LENGTH)
  {
    hide EntryBytes, FromLE;
    var r := ReadDir(tree, l, fid, cookie, ENTRY_SIZE);
    ZeroEntry();
    if r.count > 0 && fid in l.fids && l.fids[fid].isOpen && FateAt(l.fates, 0).Served? {
      var entries := tree.listing(l.fids[fid].node);
      var e, more := entries[cookie], l.fates[0].more;
      var first := EntryBytes(tree.qid(e.node), cookie + 1, e.kind, e.name);
      var rest := more[..Min(|more|, ENTRY_SIZE - |first|)];
      EntryReadsBack(tree.qid(e.node), cookie + 1, e.kind, e.name, rest + Zeros(ENTRY_SIZE - |first + rest|));
      assert first + rest + Zeros(ENTRY_SIZE - |first + rest|) == first + (rest + Zeros(ENTRY_SIZE - |first + rest|));
    }
  }

  lemma ZeroEntry()
    ensures EntryName(Zeros(ENTRY_SIZE)) == []
  {
    assert Zeros(ENTRY_SIZE)[22..24] == [] + Zeros(2);
    FromLEPads([], 2);
  }

  lemma ReadDirDelivers(tree: Tree, l: Link, rootFid: u32, h: Handle)
    requires Ready(tree, l, rootFid, h, 1) && h.isOpened
    ensures var r, entries := ReadDir(tree, l, h.fid, h.position, ENTRY_SIZE), Entries(tree, l, h);
      && r.status == Success && r.link == l.(fates := l.fates[1..])
      && (h.position < |entries| ==>
            r.count > 0 && EntryOffset(r.data) == h.position + 1 && EntryName(r.data) == entries[h.position].name)
      && (h.position >= |entries| ==> r.count == 0)
  {
    hide ReadDir, EntryName, EntryOffset;
    ReadDirByFate(tree, l, h.fid, h.position);
    if h.position < |Entries(tree, l, h)| {
      assert IsEntryName(Entries(tree, l, h)[h.position].name);
    }
  }

  /** Walking to one listed name from the directory's handle. */
  lemma WalkToEntry(tree: Tree, l: Link, rootFid: u32, h: Handle, i: nat, signedChar: bool, stale: Target)
    requires Ready(tree, l, rootFid, h, 1) && i < |Entries(tree, l, h)| && CanIssue(l, 1)
    ensures var e := Entries(tree, l, h)[i];
      var w := Walk(tree, l, rootFid, h.fid, EntryPath(e.name, signedChar), stale);
      if h.fid == rootFid && DotDotName(e.name) then w.status == NotFound && w.link == l
      else w.status == Success && w.target.fid == l.issued
           && w.link == Link(l.fids[l.issued := FidState(e.node, false)], l.issued + 1, l.fates[1..])
  {
    hide Scan, NonDot;
    var e := Entries(tree, l, h)[i];
    var path := EntryPath(e.name, signedChar);
    assert IsEntryName(e.name);
    EntryPathOf(e.name, signedChar);
    if IsDot(path) {
      CloneExact(tree, l, h.fid);
    } else if !(h.fid == rootFid && DotDotName(e.name)) {
      WalkOne(tree, l, h.fid, path, stale);
    }
  }

  lemma WalkOne(tree: Tree, l: Link, fid: u32, name: Text, stale: Target)
    requires Below(l) && fid in l.fids && Healthy(l, 1) && CanIssue(l, 1) && name != []
    requires tree.child(l.fids[fid].node, Narrow(name)).Some?
    ensures var w, n := WalkNames(tree, l, fid, [name], stale), tree.child(l.fids[fid].node, Narrow(name)).value;
      w.status == Success && w.target.fid == l.issued
      && w.link == Link(l.fids[l.issued := FidState(n, false)], l.issued + 1, l.fates[1..])
  {
    hide DoP9Walk;
    WalkStep(tree, l, fid, name);
    assert [name][1..] == [];
  }

  /** Result of one call at position i of the listing, with a buffer of size bytes. */
  function Delivered(tree: Tree, l: Link, rootFid: u32, h: Handle, size: nat, signedChar: bool): DirResult
    requires h.fid in l.fids && |Entries(tree, l, h)| < 0x1_0000_0000
  {
    var entries, fates := Entries(tree, l, h), l.fates;
    if h.position >= |entries| then DirResult(Success, l.(fates := DropUpTo(fates, 1)), h, 0, None)
    else
      var e := entries[h.position];
      if size < InfoSize(|e.name|) then
        DirResult(BufferTooSmall, l.(fates := DropUpTo(fates, 1)), h, InfoSize(|e.name|), None)
      else if h.fid == rootFid && DotDotName(e.name) then
        DirResult(NotFound, l.(fates := DropUpTo(fates, 1)), h, size, None)
      else
        DirResult(Success,
          Link(l.fids[l.issued := FidState(e.node, false)], l.issued + 1, DropUpTo(fates, 3)),
          h.(position := h.position + 1), InfoSize(|e.name|), Some(EntryInfo(tree, e, signedChar)))
  }

  function DropUpTo(fates: seq<Fate>, n: nat): seq<Fate> { if n <= |fates| then fates[n..] else [] }

  /**
   One P9DirRead on an open directory handle: the entry at Position with its information and the
   next position, or BUFFER_TOO_SMALL with the needed size and nothing else changed, or size 0 at
   the end, or NOT_FOUND where the root guard fires.
   */
  lemma DirReadDelivers(tree: Tree, l: Link, rootFid: u32, h: Handle, size: nat, signedChar: bool, stale: Target)
    requires Ready(tree, l, rootFid, h, 3) && h.isOpened && CanIssue(l, 1)
    ensures DirRead(tree, l, rootFid, h, size, signedChar, stale) == Delivered(tree, l, rootFid, h, size, signedChar)
  {
    hide ReadDir, Walk, EntryPath, EntryName, EntryOffset, InfoOf, InfoSize;
    var entries := Entries(tree, l, h);
    ReadDirDelivers(tree, l, rootFid, h);
    var r := ReadDir(tree, l, h.fid, h.position, ENTRY_SIZE);
    assert h.(qid := h.qid, isOpened := true) == h;
    if h.position < |entries| {
      var e := entries[h.position];
      if size >= InfoSize(|e.name|) {
        WalkToEntry(tree, r.link, rootFid, h, h.position, signedChar, stale);
        var w := Walk(tree, r.link, rootFid, h.fid, EntryPath(e.name, signedChar), stale);
        EntryPathName(tree, l, h, signedChar);
        if w.status == Success {
          assert FateOf(w.link).Served?;
        }
      }
    }
  }

  lemma EntryPathName(tree: Tree, l: Link, h: Handle, signedChar: bool)
    requires h.fid in l.fids && IsConsistent(tree, l.fids[h.fid].node) && h.position < |Entries(tree, l, h)|
    ensures var name := Entries(tree, l, h)[h.position].name;
      FileNameField(EntryPath(name, signedChar)) == Widen(name, signedChar)
  {
    EntryPathOf(Entries(tree, l, h)[h.position].name, signedChar);
  }

  /** A refusal for a short buffer keeps the position, and a retry with the returned size gets the entry. */
  lemma RetryGetsTheEntry(tree: Tree, l: Link, rootFid: u32, h: Handle, size: nat, signedChar: bool, stale: Target)
    requires Ready(tree, l, rootFid, h, 4) && h.isOpened && CanIssue(l, 1)
    ensures var first := DirRead(tree, l, rootFid, h, size, signedChar, stale);
      first.status == BufferTooSmall ==>
        && first.handle == h && h.position < |Entries(tree, l, h)|
        && var e := Entries(tree, l, h)[h.position];
        && var again := DirRead(tree, first.link, rootFid, first.handle, first.size, signedChar, stale);
        && (!(h.fid == rootFid && DotDotName(e.name)) ==>
              again.status == Success && again.info == Some(EntryInfo(tree, e, signedChar)) && again.size == first.size)
  {
    hide DirRead, EntryInfo, InfoSize;
    DirReadDelivers(tree, l, rootFid, h, size, signedChar, stale);
    var first := DirRead(tree, l, rootFid, h, size, signedChar, stale);
    if first.status == BufferTooSmall {
      DirReadDelivers(tree, first.link, rootFid, h, first.size, signedChar, stale);
    }
  }

  // ----- Seeking in a directory -----

  const LARGEST_INFO: nat := SIZE_OF_EFI_FILE_INFO + 2 * (NAME_LENGTH + 1)

  lemma NameFits(tree: Tree, l: Link, h: Handle)
    requires h.fid in l.fids && IsConsistent(tree, l.fids[h.fid].node)
    ensures |Entries(tree, l, h)| < 0x1_0000_0000
    ensures h.position < |Entries(tree, l, h)| ==> InfoSize(|Entries(tree, l, h)[h.position].name|) <= LARGEST_INFO
  {
    if h.position < |Entries(tree, l, h)| {
      assert IsEntryName(Entries(tree, l, h)[h.position].name);
    }
  }

  /**
   Seeking elsewhere is refused, with no effect, only when the Qid type is exactly QTDIR. A directory
   whose Qid type has further bits can be positioned anywhere, and the next call delivers the entry there.
   */
  lemma SeekInDirectory(tree: Tree, l: Link, rootFid: u32, h: Handle, position: u64, size: nat,
                        signedChar: bool, stale: Target)
    requires Ready(tree, l, rootFid, h, 3) && h.isOpened && CanIssue(l, 1) && HasBit(h.qid.kind, QTDIR)
    ensures var (status, h') := SetPosition(h, position);
      var r, entries := DirRead(tree, l, rootFid, h', size, signedChar, stale), Entries(tree, l, h);
      && (status != Success <==> h.qid.kind == 0x80 && position > 0)
      && (status != Success ==> status == Unsupported && h' == h)
      && (status == Success && position >= |entries| ==> r.status == Success && r.size == 0 && r.info == None)
      && (status == Success && position < |entries| && size >= LARGEST_INFO
          && !(h.fid == rootFid && DotDotName(entries[position].name)) ==>
            r.status == Success && r.info == Some(EntryInfo(tree, entries[position], signedChar))
            && r.handle.position == position + 1)
  {
    hide DirRead, EntryInfo, IsConsistent, InfoSize, DotDotName;
    var (status, h') := SetPosition(h, position);
    if status == Success {
      assert Ready(tree, l, rootFid, h', 3);
      DirReadDelivers(tree, l, rootFid, h', size, signedChar, stale);
      NameFits(tree, l, h');
    }
  }

  // ----- Symbolic links -----

  lemma {:induction false} UpToNulOfText(s: Text)
    requires 0 !in s
    ensures UpToNul(s) == s
  {
    if s != [] {
      UpToNulOfText(s[1..]);
    }
  }

  lemma WholeText(target: Name, signedChar: bool)
    requires 0 !in target
    ensures EntryPath(target, signedChar) == Widen(target, signedChar)
  {
    var w := Widen(target, signedChar);
    assert forall i :: 0 <= i < |w| ==> w[i] == WideChar(target[i], signedChar) != 0;
    UpToNulOfText(w);
  }

  /**
   Reading a symbolic link whose target has no NUL: a target of at most 4095 bytes is delivered,
   byte for byte, if and only if it fits the buffer with its NUL; otherwise the size it needs is
   returned, and a second read with that size delivers it. A longer target is reported as success
   with the text of an earlier read.
   */
  lemma SymLinkDelivered(tree: Tree, l: Link, fid: u32, before: Text, size: nat, signedChar: bool)
    requires fid in l.fids && Healthy(l, 2) && 0 !in tree.target(l.fids[fid].node)
    ensures var target := tree.target(l.fids[fid].node);
      var first := SymLinkRead(tree, l, fid, before, size, signedChar);
      var again := SymLinkRead(tree, first.link, fid, first.target, first.size, signedChar);
      var text := if |target| < 4096 then Widen(target, signedChar) else before;
      && (|target| < 4096 ==> Narrow(text) == target)
      && (first.status == Success <==> size >= 2 * |text| + 2)
      && (first.status == Success ==> first.text == Some(text) && first.size == size)
      && (first.status != Success ==>
            first.status == BufferTooSmall && again.status == Success && again.text == Some(text))
  {
    hide Widen, Narrow, UpToNul;
    var target := tree.target(l.fids[fid].node);
    var cut := target[..Min(|target|, P9_MAX_PATH)];
    WholeText(cut, signedChar);
    NarrowInvertsWiden(target, signedChar);
    assert |target| < P9_MAX_PATH ==> cut == target;
    assert FateOf(Spent(l)).Served?;
  }

  // ----- Opening a directory and listing it -----

  lemma OpenServed(tree: Tree, l: Link, rootFid: u32, fid: u32, path: Text, stale: Target)
    requires WalkReady(l, rootFid, fid, path) && path != [] && IsDefined(path)
    requires Healthy(l, FidCost(path) + 1) && Resolves(tree, l, rootFid, fid, path)
    ensures var r := OpenFile(tree, l, rootFid, fid, Some(path), EFI_FILE_MODE_READ, stale);
      var node := Resolve(tree, StartNode(l, rootFid, fid, path), Route(path)).value;
      && r.status == Success && r.handle.Some? && r.handle.value.fid != rootFid
      && r.handle.value.fid in r.link.fids && r.link.fids[r.handle.value.fid] == FidState(node, true)
      && r.handle.value.isOpened && r.handle.value.position == 0 && r.handle.value.qid == tree.qid(node)
      && rootFid in r.link.fids && Below(r.link)
      && r.link.issued == l.issued + FidCost(path) && r.link.fates == l.fates[FidCost(path) + 1..]
  {
    hide Walk, FileNameOf, FidsLeft, FidCost, StartNode, Route, Resolve, IsDefined, Guarded, AddsRange;
    var w := Walk(tree, l, rootFid, fid, path, stale);
    WalkRefinesResolve(tree, l, rootFid, fid, path, stale);
    RootStays(l.fids, w.link.fids, l.issued, FidsLeft(tree, l, rootFid, fid, path), rootFid);
    assert FateOf(w.link).Served?;
  }
}
