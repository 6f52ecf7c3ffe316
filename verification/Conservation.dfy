/**
 Accounting of fids over sessions, for every script of fates: what each call binds and closes on
 the server is read off the fates alone, and the number of live fids follows it exactly.
 */
module Conservation {
  import opened Ints
  import opened Statuses
  import opened Paths
  import opened P9Strings
  import opened Protocol
  import opened Walking
  import opened WalkFates
  import opened Operations
  import opened Directories
  import opened Sessions
  import opened Volumes

  // ----- What a call does to the server, by fates -----

  /** The open that a directory call starts with, if the handle is not marked as opened, leads on to the readdir. */
  predicate GoesOn(l: Link, h: Handle) {
    h.isOpened || FateAt(l.fates, 0) == Refused(0)
    || (FateAt(l.fates, 0).Served? && h.fid in l.fids && !l.fids[h.fid].isOpen)
  }

  /** The server has the fid open when the readdir comes. */
  predicate OpenByThen(l: Link, h: Handle) {
    h.fid in l.fids && (l.fids[h.fid].isOpen || (!h.isOpened && FateAt(l.fates, 0).Served?))
  }

  /** Exchanges in front of the readdir. */
  function Opens(h: Handle): nat { if h.isOpened then 0 else 1 }

  /** The directory entry that the exchanges of a call bring to the driver. */
  function Received(tree: Tree, l: Link, h: Handle): Option<DirEntry> {
    if !GoesOn(l, h) || !OpenByThen(l, h) || !FateAt(l.fates, Opens(h)).Served? then None
    else
      var entries := tree.listing(l.fids[h.fid].node);
      if h.position < |entries| && |entries[h.position].name| <= NAME_LENGTH then Some(entries[h.position]) else None
  }

  /** Fids that P9DirRead binds: those of the walk to the entry, if one is received and its information fits. */
  function DirReadBinds(tree: Tree, l: Link, rootFid: u32, h: Handle, size: nat, signedChar: bool): nat {
    match Received(tree, l, h)
    case None => 0
    case Some(e) =>
      if size < InfoSize(|e.name|) then 0
      else WalkBinds(tree, SkipFates(l, Opens(h) + 1), rootFid, h.fid, EntryPath(e.name, signedChar))
  }

  /** Fids that a call binds. */
  function Bound<H(==)>(tree: Tree, signedChar: bool, s: Session<H>, op: Op<H>): nat
    requires Applies(s, op)
  {
    match op
    case Open(base, _, name, mode, _) =>
      if name.None? || mode != EFI_FILE_MODE_READ then 0
      else WalkBinds(tree, s.link, RootFid(s), s.handles[base].fid, name.value)
    case Read(h, size, _, _, _) =>
      if HasBit(s.handles[h].qid.kind, QTDIR)
      then DirReadBinds(tree, s.link, RootFid(s), s.handles[h], size, signedChar) else 0
    case _ => 0
  }

  /** Handles that a call closes: none for the root. */
  function Dropped<H(==)>(s: Session<H>, op: Op<H>): nat { if op.Close? && op.handle != s.root then 1 else 0 }

  /** Fids that a call closes: the clunk of a live fid must have reached the server, whatever it answers. */
  function Closed<H(==)>(s: Session<H>, op: Op<H>): nat
    requires Applies(s, op)
  {
    if op.Close? && op.handle != s.root && s.handles[op.handle].fid in s.link.fids && FateAt(s.link.fates, 0) != NotSent
    then 1 else 0
  }

  /** Handles that a call creates: all walks and the open are served, and the path resolves past the guard. */
  function Created<H(==)>(tree: Tree, s: Session<H>, op: Op<H>): nat
    requires Applies(s, op)
  {
    if op.Open? && op.name.Some? && op.mode == EFI_FILE_MODE_READ
       && WalkServed(tree, s.link, RootFid(s), s.handles[op.base].fid, op.name.value)
       && Healthy(s.link, FidCost(op.name.value) + 1) then 1 else 0
  }

  // ----- Open -----

  lemma LOpenSize(tree: Tree, l: Link, fid: u32, qid: Qid)
    ensures var l' := LOpen(tree, l, fid, qid).1;
      |l'.fids| == |l.fids| && l'.fids.Keys == l.fids.Keys && l'.issued == l.issued && (Below(l) ==> Below(l'))
  {
    var l' := LOpen(tree, l, fid, qid).1;
    assert l'.fids.Keys == l.fids.Keys;
    assert |l'.fids.Keys| == |l.fids.Keys|;
  }

  lemma AddsRangeSize(before: Table, after: Table, first: nat, n: nat)
    requires AddsRange(before, after, first, n)
    ensures |after| == |before| + n
    ensures forall f :: f in before ==> f in after && after[f] == before[f]
  {
  }

  lemma OpenFileBinds(tree: Tree, l: Link, rootFid: u32, fid: u32, name: Option<Text>, mode: u64, stale: Target)
    requires Below(l) && OpenFile(tree, l, rootFid, fid, name, mode, stale).link.issued <= P9_NOFID
    ensures var r := OpenFile(tree, l, rootFid, fid, name, mode, stale);
      && |r.link.fids| == |l.fids| + (if name.None? || mode != EFI_FILE_MODE_READ then 0
                                      else WalkBinds(tree, l, rootFid, fid, name.value))
      && Below(r.link)
  {
    hide Walk, LOpen, FileNameOf, WalkBinds, AddsRange;
    if name.Some? && mode == EFI_FILE_MODE_READ {
      var w := Walk(tree, l, rootFid, fid, name.value, stale);
      LOpenSize(tree, w.link, w.target.fid, w.target.qid);
      WalkBindsExactly(tree, l, rootFid, fid, name.value, stale);
      AddsRangeSize(l.fids, w.link.fids, l.issued, WalkBinds(tree, l, rootFid, fid, name.value));
    }
  }

  /** A handle is returned exactly when all walks and the open are served and the path resolves. */
  lemma OpenFileCreatesIff(tree: Tree, l: Link, rootFid: u32, fid: u32, path: Text, mode: u64, stale: Target)
    requires Below(l) && ErrnosNonZero(l.fates) && IsDefined(path)
    requires OpenFile(tree, l, rootFid, fid, Some(path), mode, stale).link.issued <= P9_NOFID
    ensures OpenFile(tree, l, rootFid, fid, Some(path), mode, stale).handle.Some?
      <==> mode == EFI_FILE_MODE_READ && WalkServed(tree, l, rootFid, fid, path) && Healthy(l, FidCost(path) + 1)
  {
    hide Walk, FileNameOf, WalkServed, FidCost, IsDefined, Resolve, Route, StartFid;
    if mode == EFI_FILE_MODE_READ {
      var w, n := Walk(tree, l, rootFid, fid, path, stale), FidCost(path);
      LOpenSize(tree, w.link, w.target.fid, w.target.qid);
      WalkLiveIff(tree, l, rootFid, fid, path, stale);
      if w.status == Success {
        assert FateOf(w.link) == FateAt(l.fates, n);
        ServedHealthy(tree, l, rootFid, fid, path);
      }
    }
  }

  lemma ServedHealthy(tree: Tree, l: Link, rootFid: u32, fid: u32, path: Text)
    ensures WalkServed(tree, l, rootFid, fid, path) ==> Healthy(l, FidCost(path))
  {
    hide FidCost, Resolve, Route, Guarded;
  }

  // ----- Directory reads -----

  lemma OpeningByFate(tree: Tree, l: Link, h: Handle)
    requires !h.isOpened
    ensures var (status, l0, qid) := LOpen(tree, l, h.fid, h.qid);
      && (status == Success <==> GoesOn(l, h))
      && l0.fates == SkipFates(l, 1).fates && |l0.fids| == |l.fids| && l0.issued == l.issued
      && (forall f :: f in l0.fids <==> f in l.fids) && (forall f :: f in l.fids ==> l0.fids[f].node == l.fids[f].node)
      && (GoesOn(l, h) ==> (OpenByThen(l, h) <==> h.fid in l0.fids && l0.fids[h.fid].isOpen))
  {
    LOpenSize(tree, l, h.fid, h.qid);
  }

  lemma DeliverBinds(tree: Tree, l: Link, rootFid: u32, h: Handle, size: nat, data: seq<u8>,
                     signedChar: bool, stale: Target)
    requires |data| == ENTRY_SIZE && Below(l)
    requires DeliverEntry(tree, l, rootFid, h, size, data, signedChar, stale).link.issued <= P9_NOFID
    ensures var r, name := DeliverEntry(tree, l, rootFid, h, size, data, signedChar, stale), EntryName(data);
      && |r.link.fids| == |l.fids| + (if size < InfoSize(|name|) then 0
                                      else WalkBinds(tree, l, rootFid, h.fid, EntryPath(name, signedChar)))
      && Below(r.link) && (forall f :: f in l.fids ==> f in r.link.fids && r.link.fids[f] == l.fids[f])
      && r.handle.fid == h.fid && r.handle.isOpened == h.isOpened
  {
    hide Walk, InfoOf, InfoSize, EntryPath, EntryName, EntryOffset, WalkBinds, AddsRange;
    if size >= InfoSize(|EntryName(data)|) {
      var path := EntryPath(EntryName(data), signedChar);
      var w := Walk(tree, l, rootFid, h.fid, path, stale);
      WalkBindsExactly(tree, l, rootFid, h.fid, path, stale);
      AddsRangeSize(l.fids, w.link.fids, l.issued, WalkBinds(tree, l, rootFid, h.fid, path));
      GetAttrKeeps(tree, w.link, w.target.fid);
    }
  }

  lemma GetAttrKeeps(tree: Tree, l: Link, fid: u32)
    ensures GetAttr(tree, l, fid).1.fids == l.fids && GetAttr(tree, l, fid).1.issued == l.issued
  {
  }

  lemma NoPathNoFids(tree: Tree, l: Link, rootFid: u32, fid: u32, signedChar: bool)
    ensures WalkBinds(tree, l, rootFid, fid, EntryPath([], signedChar)) == 0
  {
  }

  lemma SameBinds(tree: Tree, l: Link, m: Link, rootFid: u32, fid: u32, path: Text)
    requires l.fates == m.fates && (forall f :: f in l.fids <==> f in m.fids)
    requires forall f :: f in l.fids ==> m.fids[f].node == l.fids[f].node
    ensures WalkBinds(tree, l, rootFid, fid, path) == WalkBinds(tree, m, rootFid, fid, path)
  {
  }

  lemma OpenedDirReadBinds(tree: Tree, l: Link, rootFid: u32, h: Handle, size: nat, signedChar: bool, stale: Target)
    requires h.isOpened && Below(l) && DirRead(tree, l, rootFid, h, size, signedChar, stale).link.issued <= P9_NOFID
    ensures var r := DirRead(tree, l, rootFid, h, size, signedChar, stale);
      && |r.link.fids| == |l.fids| + DirReadBinds(tree, l, rootFid, h, size, signedChar)
      && Below(r.link) && r.handle.fid == h.fid && r.handle.isOpened
      && (forall f :: f in l.fids ==> f in r.link.fids && r.link.fids[f] == l.fids[f])
  {
    hide ReadDir, DeliverEntry, WalkBinds, EntryPath, EntryName, InfoSize;
    var r := ReadDir(tree, l, h.fid, h.position, ENTRY_SIZE);
    ReadDirByFate(tree, l, h.fid, h.position);
    if !r.status.IsError() && r.count != 0 {
      assert h.(qid := h.qid, isOpened := true) == h;
      DeliverBinds(tree, r.link, rootFid, h, size, r.data, signedChar, stale);
      NoPathNoFids(tree, r.link, rootFid, h.fid, signedChar);
    }
  }

  lemma OpeningKeepsBinds(tree: Tree, l: Link, rootFid: u32, h: Handle, size: nat, signedChar: bool)
    requires !h.isOpened && GoesOn(l, h)
    ensures var (status, l0, qid) := LOpen(tree, l, h.fid, h.qid);
      DirReadBinds(tree, l, rootFid, h, size, signedChar)
      == DirReadBinds(tree, l0, rootFid, h.(qid := qid, isOpened := true), size, signedChar)
  {
    OpeningByFate(tree, l, h);
    hide LOpen, WalkBinds, EntryPath, InfoSize;
    var l0, qid := LOpen(tree, l, h.fid, h.qid).1, LOpen(tree, l, h.fid, h.qid).2;
    var h0 := h.(qid := qid, isOpened := true);
    assert Received(tree, l, h) == Received(tree, l0, h0);
    if Received(tree, l, h).Some? {
      SameBinds(tree, SkipFates(l0, 1), SkipFates(l, 2), rootFid, h.fid,
        EntryPath(Received(tree, l, h).value.name, signedChar));
    }
  }

  lemma DirReadAfterOpening(tree: Tree, l: Link, rootFid: u32, h: Handle, size: nat, signedChar: bool, stale: Target)
    requires !h.isOpened
    ensures var (status, l0, qid) := LOpen(tree, l, h.fid, h.qid);
      DirRead(tree, l, rootFid, h, size, signedChar, stale)
      == if status.IsError() then DirResult(status, l0, h, size, None)
         else DirRead(tree, l0, rootFid, h.(qid := qid, isOpened := true), size, signedChar, stale)
  {
    hide LOpen, ReadDir, DeliverEntry;
  }

  /** P9DirRead binds exactly the fids read off the fates, and keeps track of what is open. */
  lemma DirReadBindsExactly(tree: Tree, l: Link, rootFid: u32, h: Handle, size: nat, signedChar: bool, stale: Target)
    requires Below(l) && DirRead(tree, l, rootFid, h, size, signedChar, stale).link.issued <= P9_NOFID
    ensures var r := DirRead(tree, l, rootFid, h, size, signedChar, stale);
      && |r.link.fids| == |l.fids| + DirReadBinds(tree, l, rootFid, h, size, signedChar)
      && Below(r.link) && r.handle.fid == h.fid
      && (r.handle.isOpened <==> GoesOn(l, h))
      && (h.fid in l.fids && GoesOn(l, h) ==>
            h.fid in r.link.fids && (r.link.fids[h.fid].isOpen <==> OpenByThen(l, h)))
  {
    if h.isOpened {
      hide DirRead, DirReadBinds;
      OpenedDirReadBinds(tree, l, rootFid, h, size, signedChar, stale);
    } else {
      OpeningByFate(tree, l, h);
      DirReadAfterOpening(tree, l, rootFid, h, size, signedChar, stale);
      if GoesOn(l, h) {
        OpeningKeepsBinds(tree, l, rootFid, h, size, signedChar);
        hide DirRead, DirReadBinds, LOpen, GoesOn, OpenByThen;
        var (status, l0, qid) := LOpen(tree, l, h.fid, h.qid);
        OpenedDirReadBinds(tree, l0, rootFid, h.(qid := qid, isOpened := true), size, signedChar, stale);
      }
    }
  }

  // ----- One call -----

  lemma ClunkUnbinds(l: Link, fid: u32)
    ensures var l' := Clunk(l, fid).1;
      && |l'.fids| == |l.fids| - (if fid in l.fids && FateAt(l.fates, 0) != NotSent then 1 else 0)
      && (Below(l) ==> Below(l'))
  {
    var l' := Clunk(l, fid).1;
    if fid in l.fids && FateAt(l.fates, 0) != NotSent {
      RemovedKey(l.fids, fid);
    } else {
      assert l'.fids == l.fids;
    }
  }

  lemma RemovedKey<K, V>(m: map<K, V>, k: K)
    requires k in m
    ensures |m - {k}| == |m| - 1
  {
    assert (m - {k}).Keys == m.Keys - {k};
    assert |(m - {k}).Keys| == |m.Keys| - 1;
  }

  lemma CloseBinds<H(!new)>(tree: Tree, signedChar: bool, s: Session<H>, op: Op<H>)
    requires Applies(s, op) && op.Close? && Below(s.link)
    ensures var t := Step(tree, signedChar, s, op);
      && |t.link.fids| == |s.link.fids| - Closed(s, op) && Below(t.link) && |t.handles| == |s.handles| - Dropped(s, op)
  {
    hide Clunk, Below;
    if op.handle != s.root {
      ClunkUnbinds(s.link, s.handles[op.handle].fid);
      RemovedKey(s.handles, op.handle);
    }
  }

  lemma ReplacedHandle<H>(handles: map<H, Handle>, h: H, v: Handle)
    requires h in handles
    ensures |handles[h := v]| == |handles|
  {
    assert handles[h := v].Keys == handles.Keys;
    assert |handles[h := v].Keys| == |handles.Keys|;
  }

  lemma InsertedHandle<H>(handles: map<H, Handle>, h: H, v: Handle)
    requires h !in handles
    ensures |handles[h := v]| == |handles| + 1
  {
    assert handles[h := v].Keys == handles.Keys + {h};
    assert |handles[h := v].Keys| == |handles.Keys| + 1;
  }

  lemma OpenBinds<H(!new)>(tree: Tree, signedChar: bool, s: Session<H>, op: Op<H>)
    requires Applies(s, op) && op.Open? && Below(s.link) && Step(tree, signedChar, s, op).link.issued <= P9_NOFID
    ensures var t := Step(tree, signedChar, s, op);
      && |t.link.fids| == |s.link.fids| + Bound(tree, signedChar, s, op) && Below(t.link)
      && (ErrnosNonZero(s.link.fates) && Sound(op) ==> |t.handles| == |s.handles| + Created(tree, s, op))
  {
    hide OpenFile, WalkBinds, WalkServed, FidCost, IsDefined, Below, ErrnosNonZero, Healthy;
    var Open(base, created, name, mode, stale) := op;
    var rootFid, fid := RootFid(s), s.handles[base].fid;
    var r := OpenFile(tree, s.link, rootFid, fid, name, mode, stale);
    OpenFileBinds(tree, s.link, rootFid, fid, name, mode, stale);
    if name.None? {
      NoName(tree, s.link, rootFid, fid, mode, stale);
    } else if ErrnosNonZero(s.link.fates) && Sound(op) {
      OpenFileCreatesIff(tree, s.link, rootFid, fid, name.value, mode, stale);
    }
    if r.handle.Some? {
      InsertedHandle(s.handles, created, r.handle.value);
    }
  }

  lemma NoName(tree: Tree, l: Link, rootFid: u32, fid: u32, mode: u64, stale: Target)
    ensures OpenFile(tree, l, rootFid, fid, None, mode, stale) == OpenResult(InvalidParameter, l, None)
  {
  }

  lemma ReadBinds<H(!new)>(tree: Tree, signedChar: bool, s: Session<H>, op: Op<H>)
    requires Applies(s, op) && op.Read? && Below(s.link) && Step(tree, signedChar, s, op).link.issued <= P9_NOFID
    ensures var t := Step(tree, signedChar, s, op);
      && |t.link.fids| == |s.link.fids| + Bound(tree, signedChar, s, op) && Below(t.link)
      && |t.handles| == |s.handles|
  {
    hide DirRead, DirReadBinds, WalkBinds;
    var Read(h, size, stale, spent, position) := op;
    var l, rootFid, d := s.link, RootFid(s), s.handles[h];
    if HasBit(d.qid.kind, QTDIR) {
      DirReadBindsExactly(tree, l, rootFid, d, size, signedChar, stale);
    }
    ReplacedHandle(s.handles, h, ReadHandle(tree, l, rootFid, d, size, signedChar, stale, spent, position).1);
  }

  /**
   One call, for every script of fates: the live fids change by those bound minus those closed. If
   errnos are not 0 and the path sets NewFid, the handles change by those created minus those dropped.
   */
  lemma StepConserves<H(!new)>(tree: Tree, signedChar: bool, s: Session<H>, op: Op<H>)
    requires Applies(s, op) && Below(s.link) && Step(tree, signedChar, s, op).link.issued <= P9_NOFID
    ensures var t := Step(tree, signedChar, s, op);
      && |t.link.fids| == |s.link.fids| + Bound(tree, signedChar, s, op) - Closed(s, op) && Below(t.link)
      && (ErrnosNonZero(s.link.fates) && Sound(op) ==>
            |t.handles| == |s.handles| + Created(tree, s, op) - Dropped(s, op))
  {
    hide Step, Below, ErrnosNonZero, WalkBinds, WalkServed, DirReadBinds, Healthy;
    match op
    case Open(_, _, _, _, _) => OpenBinds(tree, signedChar, s, op);
    case Close(_) => CloseBinds(tree, signedChar, s, op);
    case Read(_, _, _, _, _) => ReadBinds(tree, signedChar, s, op);
    case Seek(_, _) => SeekBinds(tree, signedChar, s, op);
  }

  lemma SeekBinds<H(!new)>(tree: Tree, signedChar: bool, s: Session<H>, op: Op<H>)
    requires Applies(s, op) && op.Seek?
    ensures Step(tree, signedChar, s, op).link == s.link && |Step(tree, signedChar, s, op).handles| == |s.handles|
  {
    ReplacedHandle(s.handles, op.handle, SetPosition(s.handles[op.handle], op.position).1);
  }

  // ----- Whole runs -----

  datatype Ledger = Ledger(bound: nat, closed: nat, created: nat, dropped: nat)

  /** Fids bound, fids closed, handles created and handles dropped over a run. */
  function Tally<H(==)>(tree: Tree, signedChar: bool, s: Session<H>, ops: seq<Op<H>>): Ledger
    requires RunApplies(tree, signedChar, s, ops)
    decreases |ops|
  {
    if ops == [] then Ledger(0, 0, 0, 0)
    else
      var op, rest := ops[0], Tally(tree, signedChar, Step(tree, signedChar, s, ops[0]), ops[1..]);
      Ledger(Bound(tree, signedChar, s, op) + rest.bound, Closed(s, op) + rest.closed,
             Created(tree, s, op) + rest.created, Dropped(s, op) + rest.dropped)
  }

  /**
   Fid conservation over every run and every script of fates: the live fids are those at the start
   plus those bound minus those closed.
   */
  lemma {:induction false} RunConserves<H(!new)>(tree: Tree, signedChar: bool, s: Session<H>, ops: seq<Op<H>>)
    requires RunApplies(tree, signedChar, s, ops) && Below(s.link)
    requires Run(tree, signedChar, s, ops).link.issued <= P9_NOFID
    ensures var t, tally := Run(tree, signedChar, s, ops), Tally(tree, signedChar, s, ops);
      |t.link.fids| == |s.link.fids| + tally.bound - tally.closed
    decreases |ops|
  {
    hide Step, Below, Bound, Closed, Created, Dropped;
    if ops != [] {
      var t := Step(tree, signedChar, s, ops[0]);
      RunIssues(tree, signedChar, t, ops[1..]);
      StepConserves(tree, signedChar, s, ops[0]);
      RunConserves(tree, signedChar, t, ops[1..]);
    }
  }

  lemma {:induction false} ActedAll(tree: Tree, l: Link, node: Node, names: seq<Text>)
    requires Healthy(l, |names|) && Resolve(tree, node, names).Some?
    ensures Acted(tree, l.fates, Some(node), names) == |names|
  {
    ActedServed(tree, l.fates, node, names);
  }

  /** A handle created has one of the fids bound; a fid closed belonged to a handle dropped. */
  lemma HandlesHaveFids<H(!new)>(tree: Tree, signedChar: bool, s: Session<H>, op: Op<H>)
    requires Applies(s, op) && Sound(op)
    ensures Created(tree, s, op) <= Bound(tree, signedChar, s, op) && Closed(s, op) <= Dropped(s, op)
  {
    hide Scan, NonDot, Names;
    if Created(tree, s, op) == 1 {
      var path, l := op.name.value, s.link;
      var start := StartFid(RootFid(s), s.handles[op.base].fid, path);
      if !IsSpecial(path) {
        ActedAll(tree, l, l.fids[start].node, Route(path));
      }
    }
  }

  /**
   In a safe session the handles are those at the start plus those created minus those dropped, and
   the fids that no handle holds never become fewer: intermediate fids are never clunked, and
   neither is the fid of a file whose open is refused.
   */
  lemma {:induction false} RunLeaks<H(!new)>(tree: Tree, signedChar: bool, s: Session<H>, ops: seq<Op<H>>)
    requires Safe(tree, s) && ErrnosNonZero(s.link.fates) && AllSound(ops) && RunApplies(tree, signedChar, s, ops)
    requires Run(tree, signedChar, s, ops).link.issued <= P9_NOFID
    ensures var t, tally := Run(tree, signedChar, s, ops), Tally(tree, signedChar, s, ops);
      && |t.handles| == |s.handles| + tally.created - tally.dropped
      && tally.created <= tally.bound && tally.closed <= tally.dropped
      && |t.link.fids| - |t.handles| >= |s.link.fids| - |s.handles|
    decreases |ops|
  {
    hide Step, Safe, Below, ErrnosNonZero, Sound, Bound, Closed, Created, Dropped;
    SafeBelow(tree, s);
    RunConserves(tree, signedChar, s, ops);
    if ops != [] {
      var t := Step(tree, signedChar, s, ops[0]);
      RunIssues(tree, signedChar, t, ops[1..]);
      assert Sound(ops[0]);
      assert AllSound(ops[1..]);
      StepConserves(tree, signedChar, s, ops[0]);
      HandlesHaveFids(tree, signedChar, s, ops[0]);
      StepSafe(tree, signedChar, s, ops[0]);
      RunLeaks(tree, signedChar, t, ops[1..]);
    }
  }

  lemma SafeBelow<H(!new)>(tree: Tree, s: Session<H>)
    requires Safe(tree, s)
    ensures Below(s.link)
  {
  }

  /** From OpenVolume on: one fid for the root, plus the fids bound, minus those closed, in every run. */
  lemma VolumeConserves<H(!new)>(tree: Tree, signedChar: bool, l: Link, v: Volume, u: Startup, root: H, ops: seq<Op<H>>)
    requires !v.isConfigured && v.root == None && u.connect.Some? && l.fids == map[] && l.issued < P9_NOFID
    requires ErrnosNonZero(l.fates) && AllSound(ops)
    ensures var r := OpenVolume(tree, l, v, u);
      r.status == Success ==>
        && r.volume.root.Some?
        && var s := Started(r.link, root, r.volume.root.value);
        && (RunApplies(tree, signedChar, s, ops) && Run(tree, signedChar, s, ops).link.issued <= P9_NOFID ==>
              var t, tally := Run(tree, signedChar, s, ops), Tally(tree, signedChar, s, ops);
              && Safe(tree, t) && root in t.handles && t.link.fids[t.handles[root].fid].node == tree.root
              && |t.link.fids| == 1 + tally.bound - tally.closed
              && |t.handles| == 1 + tally.created - tally.dropped
              && |t.link.fids| >= |t.handles|)
  {
    hide OpenVolume, Safe, ErrnosNonZero, AllSound, Step;
    OpenVolumeStartsSafely(tree, l, v, u, root);
    var r := OpenVolume(tree, l, v, u);
    if r.status == Success {
      var s := Started(r.link, root, r.volume.root.value);
      SafeBelow(tree, s);
      assert s.handles.Keys == {root};
      assert |s.handles.Keys| == 1;
      if RunApplies(tree, signedChar, s, ops) && Run(tree, signedChar, s, ops).link.issued <= P9_NOFID {
        RunSafe(tree, signedChar, s, ops);
        RunKeepsHandle(tree, signedChar, s, ops, root);
        RunConserves(tree, signedChar, s, ops);
        RunLeaks(tree, signedChar, s, ops);
      }
    }
  }

  // ----- Served calls -----

  /** A directory call that reaches an entry, has room for it, and is not stopped by the root guard. */
  predicate ReadsEntry(tree: Tree, l: Link, rootFid: u32, h: Handle, size: nat)
    requires h.fid in l.fids
  {
    && h.position < |Entries(tree, l, h)|
    && var name := Entries(tree, l, h)[h.position].name;
    && size >= InfoSize(|name|) && !(h.fid == rootFid && DotDotName(name))
  }

  /** Over served exchanges, a call on a consistent directory binds one fid if it delivers an entry, otherwise none. */
  lemma DirReadBindsServed(tree: Tree, l: Link, rootFid: u32, h: Handle, size: nat, signedChar: bool)
    requires Ready(tree, l, rootFid, h, 3)
    ensures DirReadBinds(tree, l, rootFid, h, size, signedChar)
      == if ReadsEntry(tree, l, rootFid, h, size) then 1 else 0
  {
    hide InfoSize, EntryPath, DotDotName, Scan, NonDot, Acted;
    if h.position < |Entries(tree, l, h)| {
      var e, m := Entries(tree, l, h)[h.position], SkipFates(l, Opens(h) + 1);
      assert IsEntryName(e.name);
      EntryPathOf(e.name, signedChar);
      assert Received(tree, l, h) == Some(e);
      EntryBinds(tree, m, rootFid, h.fid, EntryPath(e.name, signedChar));
    }
  }

  lemma EntryBinds(tree: Tree, l: Link, rootFid: u32, fid: u32, path: Text)
    requires rootFid in l.fids && fid in l.fids && FateAt(l.fates, 0).Served? && path != [] && !IsAbsolute(path)
    requires IsSpecial(path) || (Route(path) == [path] && tree.child(l.fids[fid].node, Narrow(path)).Some?)
    ensures WalkBinds(tree, l, rootFid, fid, path) == if Guarded(rootFid, fid, path) then 0 else 1
  {
    hide Scan, NonDot, Names;
    if !IsSpecial(path) {
      assert [path][1..] == [];
    }
  }
}
