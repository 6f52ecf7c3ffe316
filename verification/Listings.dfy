/** Whole directories through P9DirRead: what repeated calls deliver for any names and any buffer sizes. */
module Listings {
  import opened Ints
  import opened Statuses
  import opened Paths
  import opened P9Strings
  import opened Protocol
  import opened Walking
  import opened WalkLaws
  import opened Operations
  import opened Directories

  // ----- Looking up a name -----

  /** A directory as its handle sees it: where absolute and relative names start, and whether it is the root handle. */
  datatype Dir = Dir(rootNode: Node, node: Node, onRoot: bool)

  function DirOf(l: Link, rootFid: u32, h: Handle): Dir
    requires rootFid in l.fids && h.fid in l.fids
  {
    Dir(l.fids[rootFid].node, l.fids[h.fid].node, h.fid == rootFid)
  }

  datatype Lookup = Found(node: Node) | Missing(status: Status)

  /** What the walk to a listed name finds; the name may be any bytes, and is walked as the path that it spells. */
  function Look(tree: Tree, d: Dir, name: Name, signedChar: bool): Lookup {
    var path := EntryPath(name, signedChar);
    if path == [] then Missing(InvalidParameter)
    else if (d.onRoot || IsAbsolute(path)) && StartsWithDots(Relative(path)) then Missing(NotFound)
    else match Resolve(tree, if IsAbsolute(path) then d.rootNode else d.node, Route(path))
      case None => Missing(NotFound)
      case Some(n) => Found(n)
  }

  /** The information delivered for an entry, if it can be delivered at all. */
  function FoundInfo(tree: Tree, d: Dir, e: DirEntry, signedChar: bool): Option<FileInfo> {
    if |e.name| > NAME_LENGTH then None
    else match Look(tree, d, e.name, signedChar)
      case Missing(_) => None
      case Found(n) => Some(InfoOf(tree.attr(n), EntryPath(e.name, signedChar)))
  }

  /** Every name sets the target of its walk, which has at most c steps. */
  predicate Tame(tree: Tree, node: Node, c: nat, signedChar: bool) {
    && 0 < c && |tree.listing(node)| < 0x1_0000_0000
    && forall i :: 0 <= i < |tree.listing(node)| ==> IsTame(tree.listing(node)[i].name, c, signedChar)
  }

  predicate IsTame(name: Name, c: nat, signedChar: bool) {
    IsDefined(EntryPath(name, signedChar)) && FidCost(EntryPath(name, signedChar)) <= c
  }

  lemma ResolveOne(tree: Tree, node: Node, name: Text)
    ensures Resolve(tree, node, [name]) == tree.child(node, Narrow(name)) && Resolve(tree, node, []) == Some(node)
  {
    var names: seq<Text> := [name];
    assert names[1..] == [];
  }

  lemma ResolveTwo(tree: Tree, node: Node, a: Text, b: Text)
    ensures Resolve(tree, node, [a, b]) ==
      match tree.child(node, Narrow(a)) case None => None case Some(n) => tree.child(n, Narrow(b))
  {
    var names: seq<Text> := [a, b];
    assert names[1..] == [b];
    if tree.child(node, Narrow(a)).Some? {
      ResolveOne(tree, tree.child(node, Narrow(a)).value, b);
    }
  }

  /** A name of one component that the server looks up as its entry is found, unless the root guard refuses it. */
  lemma OneComponentFound(tree: Tree, d: Dir, e: DirEntry, signedChar: bool)
    requires IsEntryName(e.name)
    requires if e.name == [0x2E] then e.node == d.node else tree.child(d.node, e.name) == Some(e.node)
    ensures IsTame(e.name, 1, signedChar)
    ensures FoundInfo(tree, d, e, signedChar)
      == if d.onRoot && DotDotName(e.name) then None else Some(EntryInfo(tree, e, signedChar))
  {
    hide Scan, NonDot, InfoOf, EntryPath, DotDotName;
    EntryPathOf(e.name, signedChar);
    ResolveOne(tree, d.node, EntryPath(e.name, signedChar));
    hide Resolve, Route;
  }

  /** A name with a backslash is walked as several components, so that it is found only if they happen to resolve. */
  lemma SeparatorsSplit(tree: Tree, d: Dir, first: Name, rest: Name, signedChar: bool)
    requires IsEntryName(first) && IsEntryName(rest) && first != [0x2E] && rest != [0x2E] && !DotDotName(first)
    ensures Look(tree, d, first + [0x5C] + rest, signedChar) ==
      match tree.child(d.node, first)
      case None => Missing(NotFound)
      case Some(n) => match tree.child(n, rest) case None => Missing(NotFound) case Some(m) => Found(m)
  {
    hide Scan, NonDot, EntryPath, DotDotName, IsEntryName, Names;
    EntryPathOf(first, signedChar);
    EntryPathOf(rest, signedChar);
    SpelledTogether(first, rest, signedChar);
    var p, q := EntryPath(first, signedChar), EntryPath(rest, signedChar);
    JoinedRoute(p, q);
    ResolveTwo(tree, d.node, p, q);
    hide Resolve;
    assert Route(p + [SEP] + q) == [p, q];
    assert StartsWithDots(p + [SEP] + q) <==> StartsWithDots(p);
  }

  lemma SpelledTogether(first: Name, rest: Name, signedChar: bool)
    requires IsEntryName(first) && IsEntryName(rest)
    ensures EntryPath(first + [0x5C] + rest, signedChar)
      == EntryPath(first, signedChar) + [SEP] + EntryPath(rest, signedChar)
  {
    var name := first + [0x5C] + rest;
    assert 0 !in name;
    WholeText(name, signedChar);
    WholeText(first, signedChar);
    WholeText(rest, signedChar);
  }

  // ----- One call -----

  datatype Item = Item(status: Status, size: nat, info: Option<FileInfo>)

  /** What one call at position i returns. */
  function CallItem(tree: Tree, d: Dir, i: nat, size: nat, signedChar: bool): Item {
    var entries := tree.listing(d.node);
    if i >= |entries| || |entries[i].name| > NAME_LENGTH then Item(Success, 0, None)
    else if size < InfoSize(|entries[i].name|) then Item(BufferTooSmall, InfoSize(|entries[i].name|), None)
    else match Look(tree, d, entries[i].name, signedChar)
      case Missing(status) => Item(status, size, None)
      case Found(_) => Item(Success, InfoSize(|entries[i].name|), FoundInfo(tree, d, entries[i], signedChar))
  }

  lemma LookFails(tree: Tree, d: Dir, name: Name, signedChar: bool)
    ensures Look(tree, d, name, signedChar).Missing? ==> Look(tree, d, name, signedChar).status != Success
  {
    hide Resolve, Route, EntryPath;
  }

  /** The walk to an entry finds what Look says, and leaves the fids that exist as they are. */
  lemma WalkLooks(tree: Tree, l: Link, rootFid: u32, h: Handle, name: Name, signedChar: bool, stale: Target,
                  c: nat, n: nat)
    requires Live(l, rootFid, h, n) && n >= c && CanIssue(l, c) && IsTame(name, c, signedChar)
    ensures var w := Walk(tree, l, rootFid, h.fid, EntryPath(name, signedChar), stale);
      && (match Look(tree, DirOf(l, rootFid, h), name, signedChar)
          case Missing(status) => w.status == status
          case Found(node) =>
            w.status == Success && w.target.fid in w.link.fids && w.link.fids[w.target.fid].node == node)
      && Live(w.link, rootFid, h, n - c) && DirOf(w.link, rootFid, h) == DirOf(l, rootFid, h)
      && w.link.issued <= l.issued + c
  {
    hide EntryPath, Resolve, Route, FidCost, IsDefined, IsSpecial, AddsRange, Below;
    var path := EntryPath(name, signedChar);
    if path != [] {
      hide Walk;
      WalkRefinesResolve(tree, l, rootFid, h.fid, path, stale);
      var w := Walk(tree, l, rootFid, h.fid, path, stale);
      FidsLeftBounded(tree, l, rootFid, h.fid, path);
      var left := FidsLeft(tree, l, rootFid, h.fid, path);
      RootStays(l.fids, w.link.fids, l.issued, left, rootFid);
      RootStays(l.fids, w.link.fids, l.issued, left, h.fid);
    }
  }

  /** A walk that fails has not bound all its fids, so one more number stays within its cost. */
  lemma FidsLeftBounded(tree: Tree, l: Link, rootFid: u32, fid: u32, path: Text)
    requires rootFid in l.fids && fid in l.fids && path != []
    ensures FidsLeft(tree, l, rootFid, fid, path) <= FidCost(path)
    ensures !Resolves(tree, l, rootFid, fid, path) && !Guarded(rootFid, fid, path) ==>
      FidsLeft(tree, l, rootFid, fid, path) < FidCost(path)
  {
    hide Scan, NonDot;
  }

  lemma GetAttrServed(tree: Tree, l: Link, rootFid: u32, h: Handle, fid: u32, n: nat)
    requires Live(l, rootFid, h, n) && 0 < n && fid in l.fids
    ensures var (status, l', node) := GetAttr(tree, l, fid);
      && status == Success && node == Some(l.fids[fid].node) && l' == Spent(l) && Live(l', rootFid, h, n - 1)
  {
    assert FateOf(l).Served?;
  }

  lemma DeliverAnyName(tree: Tree, l: Link, rootFid: u32, h: Handle, size: nat, data: seq<u8>, signedChar: bool,
                       stale: Target, c: nat, n: nat)
    requires |data| == ENTRY_SIZE && |EntryName(data)| <= NAME_LENGTH && EntryOffset(data) < TWO64
    requires Live(l, rootFid, h, n) && n >= c + 1 && CanIssue(l, c) && IsTame(EntryName(data), c, signedChar)
    ensures var r, name := DeliverEntry(tree, l, rootFid, h, size, data, signedChar, stale), EntryName(data);
      var look := Look(tree, DirOf(l, rootFid, h), name, signedChar);
      && (if size < InfoSize(|name|) then r.status == BufferTooSmall && r.size == InfoSize(|name|) && r.info == None
          else match look
            case Missing(status) => r.status == status && r.size == size && r.info == None
            case Found(node) =>
              r.status == Success && r.size == InfoSize(|name|)
              && r.info == Some(InfoOf(tree.attr(node), EntryPath(name, signedChar))))
      && Live(r.link, rootFid, r.handle, n - (c + 1)) && DirOf(r.link, rootFid, r.handle) == DirOf(l, rootFid, h)
      && r.handle == h.(position := if r.info.Some? then EntryOffset(data) else h.position)
      && r.link.issued <= l.issued + c
  {
    hide Walk, GetAttr, Look, InfoOf, InfoSize, EntryName, EntryOffset, IsTame, Below;
    PathShort(EntryName(data), signedChar);
    hide EntryPath;
    var path := EntryPath(EntryName(data), signedChar);
    WalkLooks(tree, l, rootFid, h, EntryName(data), signedChar, stale, c, n);
    LookFails(tree, DirOf(l, rootFid, h), EntryName(data), signedChar);
    var w := Walk(tree, l, rootFid, h.fid, path, stale);
    if w.status == Success {
      GetAttrServed(tree, w.link, rootFid, h, w.target.fid, n - c);
    }
  }

  lemma PathShort(name: Name, signedChar: bool)
    requires |name| <= NAME_LENGTH
    ensures FileNameField(EntryPath(name, signedChar)) == EntryPath(name, signedChar)
  {
  }

  /** One P9DirRead on an open handle, for any name at its position. */
  lemma CallAnyName(tree: Tree, l: Link, rootFid: u32, h: Handle, size: nat, signedChar: bool, stale: Target,
                    c: nat, n: nat)
    requires Live(l, rootFid, h, n) && n >= c + 2 && h.isOpened && CanIssue(l, c)
    requires Tame(tree, l.fids[h.fid].node, c, signedChar)
    ensures var r, d := DirRead(tree, l, rootFid, h, size, signedChar, stale), DirOf(l, rootFid, h);
      && Item(r.status, r.size, r.info) == CallItem(tree, d, h.position, size, signedChar)
      && Live(r.link, rootFid, r.handle, n - (c + 2)) && DirOf(r.link, rootFid, r.handle) == d
      && r.handle == h.(position := if r.info.Some? then h.position + 1 else h.position)
      && r.link.issued <= l.issued + c
  {
    hide ReadDir, DeliverEntry, EntryName, EntryOffset, Look, IsTame, InfoSize, InfoOf, EntryPath, Below;
    ReadDirByFate(tree, l, h.fid, h.position);
    var entries, r := tree.listing(l.fids[h.fid].node), ReadDir(tree, l, h.fid, h.position, ENTRY_SIZE);
    assert h.(qid := h.qid, isOpened := true) == h;
    SpentLive(l, rootFid, h, n);
    if r.count != 0 {
      assert IsTame(entries[h.position].name, c, signedChar);
      DeliverAnyName(tree, r.link, rootFid, h, size, r.data, signedChar, stale, c, n - 1);
    }
  }

  lemma SpentLive(l: Link, rootFid: u32, h: Handle, n: nat)
    requires Live(l, rootFid, h, n) && 0 < n
    ensures Live(Spent(l), rootFid, h, n - 1) && FateOf(l).Served?
    ensures DirOf(Spent(l), rootFid, h) == DirOf(l, rootFid, h)
  {
  }

  // ----- The whole listing -----

  /** The results of calls of P9DirRead one after the other, with the given buffer sizes. */
  function DirReads(tree: Tree, l: Link, rootFid: u32, h: Handle, sizes: seq<nat>, signedChar: bool, stale: Target)
    : seq<Item>
    decreases |sizes|
  {
    if sizes == [] then []
    else
      var r := DirRead(tree, l, rootFid, h, sizes[0], signedChar, stale);
      [Item(r.status, r.size, r.info)] + DirReads(tree, r.link, rootFid, r.handle, sizes[1..], signedChar, stale)
  }

  /** The connection and the handle after the calls. */
  function DirReadsEnd(tree: Tree, l: Link, rootFid: u32, h: Handle, sizes: seq<nat>, signedChar: bool, stale: Target)
    : (Link, Handle)
    decreases |sizes|
  {
    if sizes == [] then (l, h)
    else
      var r := DirRead(tree, l, rootFid, h, sizes[0], signedChar, stale);
      DirReadsEnd(tree, r.link, rootFid, r.handle, sizes[1..], signedChar, stale)
  }

  /** The position of the first entry that cannot be delivered, or the length of the listing. */
  function Obstacle(tree: Tree, d: Dir, entries: seq<DirEntry>, signedChar: bool): (k: nat)
    ensures k <= |entries|
  {
    hide FoundInfo;
    if entries == [] || FoundInfo(tree, d, entries[0], signedChar).None? then 0
    else 1 + Obstacle(tree, d, entries[1..], signedChar)
  }

  function ObstacleOf(tree: Tree, d: Dir, signedChar: bool): nat {
    Obstacle(tree, d, tree.listing(d.node), signedChar)
  }

  lemma {:induction false} ObstacleIs(tree: Tree, d: Dir, entries: seq<DirEntry>, signedChar: bool)
    ensures var k := Obstacle(tree, d, entries, signedChar);
      && (forall i :: 0 <= i < k ==> FoundInfo(tree, d, entries[i], signedChar).Some?)
      && (k < |entries| ==> FoundInfo(tree, d, entries[k], signedChar).None?)
  {
    hide FoundInfo;
    if entries != [] && FoundInfo(tree, d, entries[0], signedChar).Some? {
      ObstacleIs(tree, d, entries[1..], signedChar);
      assert forall i :: 0 < i < |entries| ==> entries[i] == entries[1..][i - 1];
    }
  }

  /** What the i-th of several calls returns: they stay at the obstacle. */
  function ExpectedItem(tree: Tree, d: Dir, i: nat, size: nat, signedChar: bool): Item {
    CallItem(tree, d, Min(i, ObstacleOf(tree, d, signedChar)), size, signedChar)
  }

  /** A call up to the obstacle delivers its entry and moves on, or stays; with a large buffer it stays only there. */
  lemma ItemMoves(tree: Tree, d: Dir, i: nat, size: nat, signedChar: bool)
    requires i <= ObstacleOf(tree, d, signedChar)
    ensures var item, entries := CallItem(tree, d, i, size, signedChar), tree.listing(d.node);
      && (item.info.Some? ==>
            i < ObstacleOf(tree, d, signedChar) && item.info == FoundInfo(tree, d, entries[i], signedChar))
      && (item.info.None? && size >= LARGEST_INFO ==> i == ObstacleOf(tree, d, signedChar))
  {
    ObstacleIs(tree, d, tree.listing(d.node), signedChar);
    CallItemIs(tree, d, i, size, signedChar);
    hide CallItem, FoundInfo, InfoSize;
  }

  lemma CallItemIs(tree: Tree, d: Dir, i: nat, size: nat, signedChar: bool)
    ensures var item, entries := CallItem(tree, d, i, size, signedChar), tree.listing(d.node);
      && (item.info.Some? ==> i < |entries| && item.info == FoundInfo(tree, d, entries[i], signedChar))
      && (item.info.None? && size >= LARGEST_INFO && i < |entries| ==>
            FoundInfo(tree, d, entries[i], signedChar).None?)
  {
    hide Look, InfoOf, EntryPath;
  }

  /** The exchanges and fids for m calls are those for one and those for m - 1. */
  lemma CallsBudget(c: nat, m: nat)
    requires m > 0
    ensures (c + 2) * m == (c + 2) + (c + 2) * (m - 1) && c * m == c + c * (m - 1)
    ensures (c + 2) * (m - 1) >= 0 && c * (m - 1) >= 0
  {
  }

  lemma {:induction false} DirReadsFrom(tree: Tree, l: Link, rootFid: u32, h: Handle, sizes: seq<nat>,
                                        signedChar: bool, stale: Target, c: nat)
    requires Live(l, rootFid, h, (c + 2) * |sizes|) && h.isOpened && CanIssue(l, c * |sizes|)
    requires Tame(tree, l.fids[h.fid].node, c, signedChar)
    requires h.position <= ObstacleOf(tree, DirOf(l, rootFid, h), signedChar)
    requires forall i :: 0 <= i < |sizes| ==> sizes[i] >= LARGEST_INFO
    ensures var items, d := DirReads(tree, l, rootFid, h, sizes, signedChar, stale), DirOf(l, rootFid, h);
      && |items| == |sizes|
      && forall i :: 0 <= i < |sizes| ==>
           items[i] == ExpectedItem(tree, d, h.position + i, sizes[i], signedChar)
    decreases |sizes|
  {
    hide DirRead, CallItem, FoundInfo, Live, Tame, ObstacleOf, ExpectedItem;
    LiveFids(l, rootFid, h, (c + 2) * |sizes|);
    if sizes != [] {
      var d, p, n := DirOf(l, rootFid, h), h.position, (c + 2) * |sizes|;
      var r, rest := DirRead(tree, l, rootFid, h, sizes[0], signedChar, stale), sizes[1..];
      CallsBudget(c, |sizes|);
      CallAnyName(tree, l, rootFid, h, sizes[0], signedChar, stale, c, n);
      ItemMoves(tree, d, p, sizes[0], signedChar);
      ExpectedHere(tree, d, p, sizes[0], signedChar);
      LiveFids(r.link, rootFid, r.handle, n - (c + 2));
      DirReadsFrom(tree, r.link, rootFid, r.handle, rest, signedChar, stale, c);
      forall i | 0 < i < |sizes|
        ensures DirReads(tree, l, rootFid, h, sizes, signedChar, stale)[i]
          == ExpectedItem(tree, d, p + i, sizes[i], signedChar)
      {
        assert sizes[i] == rest[i - 1];
        if r.info.None? {
          ExpectedStays(tree, d, p + (i - 1), p + i, sizes[i], signedChar);
        }
      }
    }
  }

  lemma ExpectedHere(tree: Tree, d: Dir, i: nat, size: nat, signedChar: bool)
    requires i <= ObstacleOf(tree, d, signedChar)
    ensures ExpectedItem(tree, d, i, size, signedChar) == CallItem(tree, d, i, size, signedChar)
  {
    hide CallItem, ObstacleOf;
  }

  lemma ExpectedStays(tree: Tree, d: Dir, i: nat, j: nat, size: nat, signedChar: bool)
    requires ObstacleOf(tree, d, signedChar) <= i && ObstacleOf(tree, d, signedChar) <= j
    ensures ExpectedItem(tree, d, i, size, signedChar) == ExpectedItem(tree, d, j, size, signedChar)
  {
    hide CallItem, ObstacleOf;
  }

  lemma LiveFids(l: Link, rootFid: u32, h: Handle, n: nat)
    requires Live(l, rootFid, h, n)
    ensures rootFid in l.fids && h.fid in l.fids
  {
  }

  lemma OpenedLive(tree: Tree, l: Link, rootFid: u32, h: Handle, n: nat)
    requires Live(l, rootFid, h, n + 1)
    ensures var l', h' := AfterOpening(l, h), Opened(tree, l, h);
      && Live(l', rootFid, h', n) && DirOf(l', rootFid, h') == DirOf(l, rootFid, h)
      && h'.isOpened && h'.fid == h.fid && h'.position == h.position && l'.issued == l.issued
  {
    assert FateOf(l).Served?;
  }

  /**
   Calling P9DirRead again and again on a directory, with buffers large enough, delivers every
   entry once and in order and then size 0 for ever. The exception is a listing with an entry that
   cannot be delivered: from the first of these on, every call has its outcome. On the root handle
   such are names starting with "..".
   */
  lemma ListingDelivered(tree: Tree, l: Link, rootFid: u32, h: Handle, sizes: seq<nat>, signedChar: bool,
                         stale: Target, c: nat)
    requires Live(l, rootFid, h, (c + 2) * |sizes| + 1) && h.position == 0 && CanIssue(l, c * |sizes|)
    requires Tame(tree, l.fids[h.fid].node, c, signedChar)
    requires forall i :: 0 <= i < |sizes| ==> sizes[i] >= LARGEST_INFO
    ensures var items, d := DirReads(tree, l, rootFid, h, sizes, signedChar, stale), DirOf(l, rootFid, h);
      && |items| == |sizes|
      && forall i :: 0 <= i < |sizes| ==> items[i] == ExpectedItem(tree, d, i, sizes[i], signedChar)
  {
    hide DirRead, ExpectedItem, Tame, ObstacleOf;
    if sizes != [] {
      LiveSplit(l, rootFid, h, 1, (c + 2) * |sizes| + 1);
      DirReadOpens(tree, l, rootFid, h, sizes[0], signedChar, stale);
      OpenedLive(tree, l, rootFid, h, (c + 2) * |sizes|);
      hide Live, AfterOpening, Opened;
      var l', h' := AfterOpening(l, h), Opened(tree, l, h);
      assert DirReads(tree, l, rootFid, h, sizes, signedChar, stale)
          == DirReads(tree, l', rootFid, h', sizes, signedChar, stale);
      DirReadsFrom(tree, l', rootFid, h', sizes, signedChar, stale, c);
    }
  }

  lemma LiveSplit(l: Link, rootFid: u32, h: Handle, n: nat, m: nat)
    requires Live(l, rootFid, h, m) && n <= m
    ensures Live(l, rootFid, h, n)
  {
  }

  // ----- Any buffer sizes -----

  /** The file information delivered by the calls, in order. */
  function Infos(items: seq<Item>): seq<FileInfo> {
    if items == [] then [] else (if items[0].info.Some? then [items[0].info.value] else []) + Infos(items[1..])
  }

  /** The information of those entries that can be delivered. */
  function FoundInfos(tree: Tree, d: Dir, entries: seq<DirEntry>, signedChar: bool): seq<FileInfo> {
    if entries == [] then []
    else (match FoundInfo(tree, d, entries[0], signedChar) case Some(info) => [info] case None => [])
         + FoundInfos(tree, d, entries[1..], signedChar)
  }

  /** Calls whose buffer holds any entry. */
  function LargeCount(sizes: seq<nat>): nat {
    if sizes == [] then 0 else (if sizes[0] >= LARGEST_INFO then 1 else 0) + LargeCount(sizes[1..])
  }

  lemma ItemsCons(item: Item, items: seq<Item>)
    ensures Infos([item] + items) == (if item.info.Some? then [item.info.value] else []) + Infos(items)
  {
    assert ([item] + items)[1..] == items;
  }

  lemma FoundCons(tree: Tree, d: Dir, entries: seq<DirEntry>, from: nat, to: nat, signedChar: bool)
    requires from < to <= |entries| && FoundInfo(tree, d, entries[from], signedChar).Some?
    ensures FoundInfos(tree, d, entries[from..to], signedChar)
      == [FoundInfo(tree, d, entries[from], signedChar).value] + FoundInfos(tree, d, entries[from + 1..to], signedChar)
  {
    hide FoundInfo;
    assert entries[from..to][1..] == entries[from + 1..to];
  }

  /** How far calls with these buffers get from position i. */
  function Reach(tree: Tree, d: Dir, i: nat, sizes: seq<nat>, signedChar: bool): (p: nat)
    requires i <= ObstacleOf(tree, d, signedChar)
    ensures i <= p <= ObstacleOf(tree, d, signedChar)
    ensures p >= Min(i + LargeCount(sizes), ObstacleOf(tree, d, signedChar))
    decreases |sizes|
  {
    hide FoundInfo, CallItem, ObstacleOf;
    if sizes == [] then i
    else
      ItemMoves(tree, d, i, sizes[0], signedChar);
      Reach(tree, d, if CallItem(tree, d, i, sizes[0], signedChar).info.Some? then i + 1 else i, sizes[1..], signedChar)
  }

  /**
   However the buffer sizes vary, the successful calls deliver consecutive entries, in order and
   without gap or repetition, from the position at the start on and never past the obstacle; calls
   whose buffer holds any entry always move on until they reach it.
   */
  lemma {:induction false} AnySizesFrom(tree: Tree, l: Link, rootFid: u32, h: Handle, sizes: seq<nat>,
                                        signedChar: bool, stale: Target, c: nat, n: nat)
    requires Live(l, rootFid, h, n) && n >= (c + 2) * |sizes| && h.isOpened && CanIssue(l, c * |sizes|)
    requires Tame(tree, l.fids[h.fid].node, c, signedChar)
    requires h.position <= ObstacleOf(tree, DirOf(l, rootFid, h), signedChar)
    ensures var d, items := DirOf(l, rootFid, h), DirReads(tree, l, rootFid, h, sizes, signedChar, stale);
      var (l', h') := DirReadsEnd(tree, l, rootFid, h, sizes, signedChar, stale);
      && Live(l', rootFid, h', n - (c + 2) * |sizes|) && DirOf(l', rootFid, h') == d
      && l'.issued <= l.issued + c * |sizes|
      && h' == h.(position := Reach(tree, d, h.position, sizes, signedChar))
      && Infos(items) == FoundInfos(tree, d, tree.listing(d.node)[h.position..h'.position], signedChar)
    decreases |sizes|
  {
    hide DirRead, CallItem, FoundInfo, Live, Tame, ObstacleOf, Infos, FoundInfos;
    LiveFids(l, rootFid, h, n);
    var d, p := DirOf(l, rootFid, h), h.position;
    var entries := tree.listing(d.node);
    ObstacleWithin(tree, d, signedChar);
    if sizes != [] {
      CallsBudget(c, |sizes|);
      CallAnyName(tree, l, rootFid, h, sizes[0], signedChar, stale, c, n);
      ItemMoves(tree, d, p, sizes[0], signedChar);
      var r, rest := DirRead(tree, l, rootFid, h, sizes[0], signedChar, stale), sizes[1..];
      LiveFids(r.link, rootFid, r.handle, n - (c + 2));
      AnySizesFrom(tree, r.link, rootFid, r.handle, rest, signedChar, stale, c, n - (c + 2));
      ItemsCons(Item(r.status, r.size, r.info), DirReads(tree, r.link, rootFid, r.handle, rest, signedChar, stale));
      if r.info.Some? {
        FoundCons(tree, d, entries, p, Reach(tree, d, p, sizes, signedChar), signedChar);
      }
    } else {
      NoInfos(tree, d, entries, p, signedChar);
    }
  }

  lemma ObstacleWithin(tree: Tree, d: Dir, signedChar: bool)
    ensures ObstacleOf(tree, d, signedChar) <= |tree.listing(d.node)|
  {
  }

  lemma NoInfos(tree: Tree, d: Dir, entries: seq<DirEntry>, i: nat, signedChar: bool)
    requires i <= |entries|
    ensures Infos([]) == FoundInfos(tree, d, entries[i..i], signedChar) == []
  {
  }

  /** The same from a handle that may still have to be opened. */
  lemma AnySizes(tree: Tree, l: Link, rootFid: u32, h: Handle, sizes: seq<nat>, signedChar: bool, stale: Target,
                 c: nat, n: nat)
    requires Live(l, rootFid, h, n) && n >= (c + 2) * |sizes| + 1 && h.position == 0 && CanIssue(l, c * |sizes|)
    requires Tame(tree, l.fids[h.fid].node, c, signedChar)
    ensures var d, items := DirOf(l, rootFid, h), DirReads(tree, l, rootFid, h, sizes, signedChar, stale);
      var (l', h') := DirReadsEnd(tree, l, rootFid, h, sizes, signedChar, stale);
      && Live(l', rootFid, h', n - (c + 2) * |sizes| - 1) && DirOf(l', rootFid, h') == d
      && l'.issued <= l.issued + c * |sizes|
      && h'.position <= ObstacleOf(tree, d, signedChar) <= |tree.listing(d.node)|
      && h'.position >= Min(LargeCount(sizes), ObstacleOf(tree, d, signedChar))
      && Infos(items) == FoundInfos(tree, d, tree.listing(d.node)[..h'.position], signedChar)
  {
    hide DirRead, Tame, ObstacleOf, Infos, FoundInfos, Reach;
    var d := DirOf(l, rootFid, h);
    ObstacleWithin(tree, d, signedChar);
    if sizes != [] {
      LiveSplit(l, rootFid, h, 1, n);
      DirReadOpens(tree, l, rootFid, h, sizes[0], signedChar, stale);
      OpenedLive(tree, l, rootFid, h, n - 1);
      hide Live, AfterOpening, Opened;
      var l', h' := AfterOpening(l, h), Opened(tree, l, h);
      assert DirReads(tree, l, rootFid, h, sizes, signedChar, stale)
          == DirReads(tree, l', rootFid, h', sizes, signedChar, stale);
      assert DirReadsEnd(tree, l, rootFid, h, sizes, signedChar, stale)
          == DirReadsEnd(tree, l', rootFid, h', sizes, signedChar, stale);
      AnySizesFrom(tree, l', rootFid, h', sizes, signedChar, stale, c, n - 1);
    } else {
      LiveSplit(l, rootFid, h, n - 1, n);
      NoInfos(tree, d, tree.listing(d.node), 0, signedChar);
    }
  }

  // ----- When a listing is complete -----

  function EntryInfos(tree: Tree, entries: seq<DirEntry>, signedChar: bool): seq<FileInfo> {
    seq(|entries|, i requires 0 <= i < |entries| => EntryInfo(tree, entries[i], signedChar))
  }

  lemma {:induction false} AllFound(tree: Tree, d: Dir, entries: seq<DirEntry>, signedChar: bool)
    requires forall i :: 0 <= i < |entries| ==> FoundInfo(tree, d, entries[i], signedChar).Some?
    ensures |FoundInfos(tree, d, entries, signedChar)| == |entries|
    ensures forall i :: 0 <= i < |entries| ==>
      FoundInfos(tree, d, entries, signedChar)[i] == FoundInfo(tree, d, entries[i], signedChar).value
  {
    hide FoundInfo;
    if entries != [] {
      AllFound(tree, d, entries[1..], signedChar);
    }
  }

  /**
   Enough calls with large buffers deliver the whole listing, each entry with its own attributes, if
   and only if the walk to every entry's name finds them. For names of one component that the
   server looks up this is so unless the root guard refuses one.
   */
  lemma CompleteIff(tree: Tree, l: Link, rootFid: u32, h: Handle, sizes: seq<nat>, signedChar: bool, stale: Target,
                    c: nat)
    requires Live(l, rootFid, h, (c + 2) * |sizes| + 1) && h.position == 0 && CanIssue(l, c * |sizes|)
    requires Tame(tree, l.fids[h.fid].node, c, signedChar)
    requires LargeCount(sizes) >= |tree.listing(l.fids[h.fid].node)|
    ensures var d, entries := DirOf(l, rootFid, h), tree.listing(l.fids[h.fid].node);
      Infos(DirReads(tree, l, rootFid, h, sizes, signedChar, stale)) == EntryInfos(tree, entries, signedChar)
      <==> forall i :: 0 <= i < |entries| ==>
             FoundInfo(tree, d, entries[i], signedChar) == Some(EntryInfo(tree, entries[i], signedChar))
  {
    var d, entries := DirOf(l, rootFid, h), tree.listing(l.fids[h.fid].node);
    hide EntryInfo, FoundInfo, FoundInfos, DirReads, Live, Tame, Infos, ObstacleOf, EntryInfos, LargeCount;
    LargeInfos(tree, l, rootFid, h, sizes, signedChar, stale, c);
    FoundAreEntries(tree, d, signedChar);
  }

  lemma LargeInfos(tree: Tree, l: Link, rootFid: u32, h: Handle, sizes: seq<nat>, signedChar: bool, stale: Target,
                   c: nat)
    requires Live(l, rootFid, h, (c + 2) * |sizes| + 1) && h.position == 0 && CanIssue(l, c * |sizes|)
    requires Tame(tree, l.fids[h.fid].node, c, signedChar)
    requires LargeCount(sizes) >= |tree.listing(l.fids[h.fid].node)|
    ensures var d := DirOf(l, rootFid, h);
      && ObstacleOf(tree, d, signedChar) <= |tree.listing(d.node)|
      && Infos(DirReads(tree, l, rootFid, h, sizes, signedChar, stale))
         == FoundInfos(tree, d, tree.listing(d.node)[..ObstacleOf(tree, d, signedChar)], signedChar)
  {
    hide FoundInfos, DirReads, DirReadsEnd, Live, Tame, Infos, ObstacleOf, LargeCount;
    LiveFids(l, rootFid, h, (c + 2) * |sizes| + 1);
    AnySizes(tree, l, rootFid, h, sizes, signedChar, stale, c, (c + 2) * |sizes| + 1);
  }

  lemma FoundAreEntries(tree: Tree, d: Dir, signedChar: bool)
    ensures ObstacleOf(tree, d, signedChar) <= |tree.listing(d.node)|
    ensures var entries := tree.listing(d.node);
      FoundInfos(tree, d, entries[..ObstacleOf(tree, d, signedChar)], signedChar)
        == EntryInfos(tree, entries, signedChar)
      <==> forall i :: 0 <= i < |entries| ==>
             FoundInfo(tree, d, entries[i], signedChar) == Some(EntryInfo(tree, entries[i], signedChar))
  {
    hide EntryInfo, FoundInfo, FoundInfos;
    var entries := tree.listing(d.node);
    var k := ObstacleOf(tree, d, signedChar);
    ObstacleIs(tree, d, entries, signedChar);
    AllFound(tree, d, entries[..k], signedChar);
    var infos, wanted := FoundInfos(tree, d, entries[..k], signedChar), EntryInfos(tree, entries, signedChar);
    if infos == wanted {
      assert k == |wanted| == |entries|;
      assert forall i :: 0 <= i < |entries| ==> infos[i] == wanted[i];
    } else if k == |entries| {
      var i :| 0 <= i < |entries| && infos[i] != wanted[i];
    }
  }

  // ----- Consistent directories -----

  lemma ConsistentTame(tree: Tree, node: Node, signedChar: bool)
    requires IsConsistent(tree, node)
    ensures Tame(tree, node, 1, signedChar)
  {
    hide IsTame, IsEntryName;
    forall i | 0 <= i < |tree.listing(node)|
      ensures IsTame(tree.listing(node)[i].name, 1, signedChar)
    {
      OneComponentFound(tree, Dir(node, node, false), tree.listing(node)[i], signedChar);
    }
  }

  lemma ConsistentFound(tree: Tree, d: Dir, signedChar: bool, i: nat)
    requires IsConsistent(tree, d.node) && i < |tree.listing(d.node)|
    ensures var e := tree.listing(d.node)[i];
      && FoundInfo(tree, d, e, signedChar)
         == (if d.onRoot && DotDotName(e.name) then None else Some(EntryInfo(tree, e, signedChar)))
      && |e.name| <= NAME_LENGTH
  {
    OneComponentFound(tree, d, tree.listing(d.node)[i], signedChar);
  }

  /** On a directory whose names are looked up as one component, only the root guard makes a listing incomplete. */
  lemma ConsistentCompleteIff(tree: Tree, l: Link, rootFid: u32, h: Handle, sizes: seq<nat>, signedChar: bool,
                              stale: Target)
    requires Ready(tree, l, rootFid, h, 3 * |sizes| + 1) && h.position == 0 && CanIssue(l, |sizes|)
    requires LargeCount(sizes) >= |Entries(tree, l, h)|
    ensures var entries := Entries(tree, l, h);
      Infos(DirReads(tree, l, rootFid, h, sizes, signedChar, stale)) == EntryInfos(tree, entries, signedChar)
      <==> !(h.fid == rootFid && exists i :: 0 <= i < |entries| && DotDotName(entries[i].name))
  {
    hide EntryInfo, FoundInfo, DirReads, Infos, IsConsistent, Tame, EntryInfos, DotDotName;
    ConsistentTame(tree, l.fids[h.fid].node, signedChar);
    CompleteIff(tree, l, rootFid, h, sizes, signedChar, stale, 1);
    var d, entries := DirOf(l, rootFid, h), Entries(tree, l, h);
    forall i | 0 <= i < |entries|
      ensures FoundInfo(tree, d, entries[i], signedChar) == Some(EntryInfo(tree, entries[i], signedChar))
        <==> !(h.fid == rootFid && DotDotName(entries[i].name))
    {
      ConsistentFound(tree, d, signedChar, i);
    }
  }

  // ----- Rewinding, and opening before listing -----

  /**
   Rewinding a directory handle to position 0 succeeds, and then the listing is delivered again from
   its first entry, whatever was read before and with whatever buffers.
   */
  lemma RewindListsAgain(tree: Tree, l: Link, rootFid: u32, h: Handle, before: seq<nat>, sizes: seq<nat>,
                         signedChar: bool, stale: Target, c: nat)
    requires Live(l, rootFid, h, (c + 2) * |before| + (c + 2) * |sizes| + 2) && h.position == 0
    requires CanIssue(l, c * |before| + c * |sizes|) && Tame(tree, l.fids[h.fid].node, c, signedChar)
    requires forall i :: 0 <= i < |sizes| ==> sizes[i] >= LARGEST_INFO
    ensures var (l', h') := DirReadsEnd(tree, l, rootFid, h, before, signedChar, stale);
      var (status, rewound) := SetPosition(h', 0);
      var items := DirReads(tree, l', rootFid, rewound, sizes, signedChar, stale);
      && status == Success && |items| == |sizes|
      && forall i :: 0 <= i < |sizes| ==> items[i] == ExpectedItem(tree, DirOf(l, rootFid, h), i, sizes[i], signedChar)
  {
    hide DirReads, DirReadsEnd, ExpectedItem, Tame, ObstacleOf, Infos, FoundInfos, Reach;
    var n := (c + 2) * |before| + (c + 2) * |sizes| + 2;
    assert (c + 2) * |sizes| >= 0 && c * |sizes| >= 0;
    AnySizes(tree, l, rootFid, h, before, signedChar, stale, c, n);
    var (l', h') := DirReadsEnd(tree, l, rootFid, h, before, signedChar, stale);
    var rewound := SetPosition(h', 0).1;
    assert Live(l', rootFid, rewound, (c + 2) * |sizes| + 1);
    hide Live;
    ListingDelivered(tree, l', rootFid, rewound, sizes, signedChar, stale, c);
  }

  /**
   A directory opened by any path that resolves is then listed completely and in order, whatever
   its names: its handle never has the root's fid, so the guard cannot fire.
   */
  lemma OpenThenList(tree: Tree, l: Link, rootFid: u32, fid: u32, path: Text, stale: Target,
                     sizes: seq<nat>, signedChar: bool)
    requires WalkReady(l, rootFid, fid, path) && path != [] && IsDefined(path)
    requires Resolves(tree, l, rootFid, fid, path)
    requires Healthy(l, FidCost(path) + 3 * |sizes| + 2) && CanIssue(l, FidCost(path) + |sizes|)
    requires IsConsistent(tree, Resolve(tree, StartNode(l, rootFid, fid, path), Route(path)).value)
    requires forall i :: 0 <= i < |sizes| ==> sizes[i] >= LARGEST_INFO
    ensures var r := OpenFile(tree, l, rootFid, fid, Some(path), EFI_FILE_MODE_READ, stale);
      var entries := tree.listing(Resolve(tree, StartNode(l, rootFid, fid, path), Route(path)).value);
      && r.handle.Some?
      && var items := DirReads(tree, r.link, rootFid, r.handle.value, sizes, signedChar, stale);
      && |items| == |sizes|
      && forall i :: 0 <= i < |sizes| ==>
           items[i] == if i < |entries|
                       then Item(Success, InfoSize(|entries[i].name|), Some(EntryInfo(tree, entries[i], signedChar)))
                       else Item(Success, 0, None)
  {
    hide OpenFile, FidCost, StartNode, Route, Resolve, IsDefined, Guarded, IsConsistent, EntryInfo, InfoSize, DirReads;
    OpenServed(tree, l, rootFid, fid, path, stale);
    var r := OpenFile(tree, l, rootFid, fid, Some(path), EFI_FILE_MODE_READ, stale);
    var h := r.handle.value;
    assert Healthy(r.link, 3 * |sizes| + 1);
    var d := DirOf(r.link, rootFid, h);
    ConsistentTame(tree, d.node, signedChar);
    ListingDelivered(tree, r.link, rootFid, h, sizes, signedChar, stale, 1);
    forall i | 0 <= i < |sizes|
      ensures ExpectedItem(tree, d, i, sizes[i], signedChar)
        == if i < |tree.listing(d.node)|
           then Item(Success, InfoSize(|tree.listing(d.node)[i].name|),
                     Some(EntryInfo(tree, tree.listing(d.node)[i], signedChar)))
           else Item(Success, 0, None)
    {
      ConsistentItem(tree, d, i, sizes[i], signedChar);
    }
  }

  lemma ConsistentItem(tree: Tree, d: Dir, i: nat, size: nat, signedChar: bool)
    requires IsConsistent(tree, d.node) && !d.onRoot && size >= LARGEST_INFO
    ensures ExpectedItem(tree, d, i, size, signedChar)
      == if i < |tree.listing(d.node)|
         then Item(Success, InfoSize(|tree.listing(d.node)[i].name|),
                   Some(EntryInfo(tree, tree.listing(d.node)[i], signedChar)))
         else Item(Success, 0, None)
  {
    hide EntryInfo, IsConsistent, Look, FoundInfo;
    var entries, k := tree.listing(d.node), ObstacleOf(tree, d, signedChar);
    ObstacleIs(tree, d, entries, signedChar);
    if k < |entries| {
      ConsistentFound(tree, d, signedChar, k);
    }
    if i < |entries| {
      ConsistentFound(tree, d, signedChar, i);
      FoundLooks(tree, d, entries[i], signedChar);
      EntryFits(|entries[i].name|);
    }
  }

  lemma FoundLooks(tree: Tree, d: Dir, e: DirEntry, signedChar: bool)
    ensures FoundInfo(tree, d, e, signedChar).Some? ==> Look(tree, d, e.name, signedChar).Found?
  {
    hide Look, InfoOf, EntryPath;
  }

  lemma EntryFits(n: nat)
    requires n <= NAME_LENGTH
    ensures InfoSize(n) <= LARGEST_INFO
  {
  }
}
