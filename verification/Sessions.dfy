/** Whole sessions after a successful OpenVolume: any sequence of calls on any handles, with any exchanges. */
module Sessions {
  import opened Ints
  import opened Statuses
  import opened Paths
  import opened Protocol
  import opened Walking
  import opened WalkLaws
  import opened Operations

  /** Handles are identified by values of type H (the P9_IFILE objects of the driver). */
  datatype Session<H> = Session(link: Link, root: H, handles: map<H, Handle>)

  datatype Op<H> =
    | Open(base: H, created: H, name: Option<Text>, mode: u64, stale: Target)
    | Close(handle: H)
    /** A file read may use any number of exchanges and leave any position. */
    | Read(handle: H, size: nat, stale: Target, spent: nat, position: u64)
    | Seek(handle: H, position: u64)

  function RootFid<H>(s: Session<H>): u32
    requires s.root in s.handles
  {
    s.handles[s.root].fid
  }

  /** The call refers to existing handles, and a new P9_IFILE is a new object. */
  predicate Applies<H(==)>(s: Session<H>, op: Op<H>) {
    && s.root in s.handles
    && match op
       case Open(base, created, _, _, _) => base in s.handles && created !in s.handles
       case Close(h) => h in s.handles
       case Read(h, _, _, _, _) => h in s.handles
       case Seek(h, _) => h in s.handles
  }

  function SkipFates(l: Link, n: nat): Link { l.(fates := if n <= |l.fates| then l.fates[n..] else []) }

  /** P9Read: by the kind of file, a directory entry, a link target or file data. */
  function ReadHandle(tree: Tree, l: Link, rootFid: u32, h: Handle, size: nat, signedChar: bool, stale: Target,
                      spent: nat, position: u64): (Link, Handle) {
    if HasBit(h.qid.kind, QTDIR) then
      var r := DirRead(tree, l, rootFid, h, size, signedChar, stale);
      (r.link, r.handle)
    else if HasBit(h.qid.kind, QTSYMLINK) then (ReadLink(l, h.fid).1, h)
    else (SkipFates(l, spent), h.(position := position))
  }

  function Step<H(==)>(tree: Tree, signedChar: bool, s: Session<H>, op: Op<H>): Session<H>
    requires Applies(s, op)
  {
    match op
    case Open(base, created, name, mode, stale) =>
      var r := OpenFile(tree, s.link, RootFid(s), s.handles[base].fid, name, mode, stale);
      Session(r.link, s.root, if r.handle.Some? then s.handles[created := r.handle.value] else s.handles)
    case Close(h) =>
      if h == s.root then s
      else Session(Clunk(s.link, s.handles[h].fid).1, s.root, s.handles - {h})
    case Read(h, size, stale, spent, position) =>
      var (l, h') := ReadHandle(tree, s.link, RootFid(s), s.handles[h], size, signedChar, stale, spent, position);
      Session(l, s.root, s.handles[h := h'])
    case Seek(h, position) =>
      s.(handles := s.handles[h := SetPosition(s.handles[h], position).1])
  }

  // ----- The invariant -----

  /**
   Handles are live, hold distinct fids and the Qid of the node they are bound to; a handle marked
   as opened is open on the server; the root handle is bound to the root; live fids are below mFid.
   */
  ghost predicate Safe<H(!new)>(tree: Tree, s: Session<H>) {
    && s.root in s.handles && Below(s.link)
    && (forall h :: h in s.handles ==> s.handles[h].fid in s.link.fids)
    && (forall h :: h in s.handles ==> s.handles[h].qid == tree.qid(s.link.fids[s.handles[h].fid].node))
    && (forall h :: h in s.handles && s.handles[h].isOpened ==> s.link.fids[s.handles[h].fid].isOpen)
    && (forall g, h :: g in s.handles && h in s.handles && g != h ==> s.handles[g].fid != s.handles[h].fid)
    && s.link.fids[RootFid(s)].node == tree.root
  }

  /** A path given to Open sets NewFid. */
  predicate Sound<H>(op: Op<H>) {
    op.Open? && op.name.Some? ==> IsDefined(op.name.value)
  }

  /** Handles that survive keep their fid and the node it is bound to. */
  ghost predicate KeepsBindings<H(!new)>(s: Session<H>, t: Session<H>) {
    forall h :: h in s.handles && h in t.handles && s.handles[h].fid in s.link.fids ==>
      && t.handles[h].fid == s.handles[h].fid
      && t.handles[h].fid in t.link.fids && t.link.fids[t.handles[h].fid].node == s.link.fids[s.handles[h].fid].node
  }

  // ----- What the single operations keep -----

  lemma LOpenLater(tree: Tree, l: Link, fid: u32, qid: Qid)
    ensures Later(l, LOpen(tree, l, fid, qid).1) && LOpen(tree, l, fid, qid).1.issued == l.issued
  {
    ErrnosTail(l);
  }

  lemma LOpenQid(tree: Tree, l: Link, fid: u32, qid: Qid)
    ensures var (status, l', qid') := LOpen(tree, l, fid, qid);
      && (fid in l.fids ==> qid' in {qid, tree.qid(l.fids[fid].node)})
      && (status == Success && FateOf(l) != Refused(0) ==>
            fid in l.fids && qid' == tree.qid(l.fids[fid].node) && fid in l'.fids && l'.fids[fid].isOpen)
  {
  }

  lemma ReadDirLater(tree: Tree, l: Link, fid: u32, cookie: u64, count: nat)
    ensures Later(l, ReadDir(tree, l, fid, cookie, count).link)
    ensures ReadDir(tree, l, fid, cookie, count).link.issued == l.issued
  {
    ErrnosTail(l);
  }

  lemma GetAttrLater(tree: Tree, l: Link, fid: u32)
    ensures Later(l, GetAttr(tree, l, fid).1) && GetAttr(tree, l, fid).1.issued == l.issued
  {
    ErrnosTail(l);
  }

  lemma ReadLinkLater(l: Link, fid: u32)
    ensures Later(l, ReadLink(l, fid).1) && ReadLink(l, fid).1.issued == l.issued
  {
    ErrnosTail(l);
  }

  lemma WalkIssues(tree: Tree, l: Link, rootFid: u32, fid: u32, path: Text, stale: Target)
    ensures l.issued <= Walk(tree, l, rootFid, fid, path, stale).link.issued
    ensures IsSpecial(path) ==> l.issued < Walk(tree, l, rootFid, fid, path, stale).link.issued
  {
    hide Scan, NonDot, Names, WalkNames, StartFid, Relative, Guarded;
    WalkNamesIssues(tree, l, StartFid(rootFid, fid, path), Names(Relative(path)), stale);
  }

  /** Every walk only adds bindings; a successful walk over a path that sets NewFid binds a new fid. */
  lemma WalkLater(tree: Tree, l: Link, rootFid: u32, fid: u32, path: Text, stale: Target)
    requires Below(l) && Walk(tree, l, rootFid, fid, path, stale).link.issued <= P9_NOFID
    ensures var w := Walk(tree, l, rootFid, fid, path, stale);
      && Later(l, w.link)
      && (ErrnosNonZero(l.fates) && w.status == Success && IsDefined(path) ==>
            && l.issued <= w.target.fid && w.target.fid in w.link.fids && path != []
            && StartFid(rootFid, fid, path) in l.fids
            && Resolve(tree, l.fids[StartFid(rootFid, fid, path)].node, Route(path)).Some?
            && w.link.fids[w.target.fid]
                 == FidState(Resolve(tree, l.fids[StartFid(rootFid, fid, path)].node, Route(path)).value, false))
  {
    hide Scan, NonDot, DoP9Walk, Later;
    LaterReflexive(l);
    if IsSpecial(path) {
      WalkIssues(tree, l, rootFid, fid, path, stale);
      DoP9WalkLater(tree, l, if path == [SEP] then rootFid else fid, []);
    } else if path != [] && !Guarded(rootFid, fid, path) {
      NamesAreComponents(Relative(path));
      WalkNamesLater(tree, l, StartFid(rootFid, fid, path), Names(Relative(path)), stale);
    }
  }

  // ----- One step -----

  lemma DirReadLater(tree: Tree, l: Link, rootFid: u32, h: Handle, size: nat, signedChar: bool, stale: Target)
    requires Below(l) && DirRead(tree, l, rootFid, h, size, signedChar, stale).link.issued <= P9_NOFID
    ensures var r := DirRead(tree, l, rootFid, h, size, signedChar, stale);
      && Later(l, r.link) && r.handle.fid == h.fid
      && (h.fid in l.fids ==> r.handle.qid in {h.qid, tree.qid(l.fids[h.fid].node)})
      && (ErrnosNonZero(l.fates) && r.handle.isOpened && !h.isOpened ==>
            h.fid in r.link.fids && r.link.fids[h.fid].isOpen)
  {
    LOpenQid(tree, l, h.fid, h.qid);
    ErrnosTail(l);
    hide LOpen, ReadDir, DeliverEntry, Later;
    var l0 := if h.isOpened then l else LOpen(tree, l, h.fid, h.qid).1;
    LaterReflexive(l);
    LOpenLater(tree, l, h.fid, h.qid);
    LaterKeepsBelow(l, l0);
    var r := ReadDir(tree, l0, h.fid, h.position, ENTRY_SIZE);
    ReadDirLater(tree, l0, h.fid, h.position, ENTRY_SIZE);
    LaterTransitive(l, l0, r.link);
    LaterBindings(l0, r.link);
    var qid := if h.isOpened then h.qid else LOpen(tree, l, h.fid, h.qid).2;
    var h0 := h.(qid := qid, isOpened := true);
    var d := DeliverEntry(tree, r.link, rootFid, h0, size, r.data, signedChar, stale);
    if d.link.issued <= P9_NOFID {
      DeliverLater(tree, r.link, rootFid, h0, size, r.data, signedChar, stale);
      LaterTransitive(l, r.link, d.link);
      LaterBindings(r.link, d.link);
    }
  }

  lemma DeliverLater(tree: Tree, l: Link, rootFid: u32, h: Handle, size: nat, data: seq<u8>, signedChar: bool,
                     stale: Target)
    requires |data| == ENTRY_SIZE && Below(l)
    requires DeliverEntry(tree, l, rootFid, h, size, data, signedChar, stale).link.issued <= P9_NOFID
    ensures var r := DeliverEntry(tree, l, rootFid, h, size, data, signedChar, stale);
      && Later(l, r.link) && r.handle.fid == h.fid && r.handle.qid == h.qid
      && r.handle.isOpened == h.isOpened
  {
    hide Walk, GetAttr, Later, InfoOf, EntryPath, EntryName, EntryOffset;
    LaterReflexive(l);
    if size >= InfoSize(|EntryName(data)|) {
      var w := Walk(tree, l, rootFid, h.fid, EntryPath(EntryName(data), signedChar), stale);
      GetAttrLater(tree, w.link, w.target.fid);
      WalkLater(tree, l, rootFid, h.fid, EntryPath(EntryName(data), signedChar), stale);
      LaterTransitive(l, w.link, GetAttr(tree, w.link, w.target.fid).1);
    }
  }

  lemma SkipLater(l: Link, n: nat)
    ensures Later(l, SkipFates(l, n))
  {
  }

  lemma ReadHandleLater(tree: Tree, l: Link, rootFid: u32, h: Handle, size: nat, signedChar: bool, stale: Target,
                        spent: nat, position: u64)
    requires Below(l) && ReadHandle(tree, l, rootFid, h, size, signedChar, stale, spent, position).0.issued <= P9_NOFID
    ensures var (l', h') := ReadHandle(tree, l, rootFid, h, size, signedChar, stale, spent, position);
      && Later(l, l') && h'.fid == h.fid
      && (h.fid in l.fids ==> h'.qid in {h.qid, tree.qid(l.fids[h.fid].node)})
      && (ErrnosNonZero(l.fates) && h'.isOpened && !h.isOpened ==> h.fid in l'.fids && l'.fids[h.fid].isOpen)
  {
    hide DirRead, Later, ReadLink, SkipFates;
    if HasBit(h.qid.kind, QTDIR) {
      DirReadLater(tree, l, rootFid, h, size, signedChar, stale);
    } else {
      ReadLinkLater(l, h.fid);
      SkipLater(l, spent);
    }
  }

  lemma LaterBindings(before: Link, after: Link)
    requires Later(before, after)
    ensures forall f :: f in before.fids ==> f in after.fids && after.fids[f].node == before.fids[f].node
    ensures forall f :: f in before.fids && before.fids[f].isOpen ==> f in after.fids && after.fids[f].isOpen
    ensures Below(before) ==> Below(after)
    ensures ErrnosNonZero(before.fates) ==> ErrnosNonZero(after.fates)
  {
  }

  /** The connection moves on and the handles stay as they are. */
  lemma SafeAfterLink<H(!new)>(tree: Tree, s: Session<H>, l: Link)
    requires Safe(tree, s) && Later(s.link, l)
    ensures Safe(tree, Session(l, s.root, s.handles)) && KeepsBindings(s, Session(l, s.root, s.handles))
  {
    LaterBindings(s.link, l);
    hide Below, ErrnosNonZero, Later;
  }

  /** A handle is replaced by one with the same fid. */
  lemma SafeAfterRead<H(!new)>(tree: Tree, s: Session<H>, h: H, l: Link, v: Handle)
    requires Safe(tree, s) && h in s.handles && Later(s.link, l) && v.fid == s.handles[h].fid
    requires v.qid in {s.handles[h].qid, tree.qid(s.link.fids[v.fid].node)}
    ensures v.fid in l.fids
    ensures var t := Session(l, s.root, s.handles[h := v]);
      KeepsBindings(s, t) && (Safe(tree, t) <==> (v.isOpened ==> l.fids[v.fid].isOpen))
  {
    LaterBindings(s.link, l);
    hide Below, ErrnosNonZero, Later;
    var t := Session(l, s.root, s.handles[h := v]);
    assert t.handles[h] == v;
  }

  /** A handle is added with a new fid. */
  lemma SafeAfterOpen<H(!new)>(tree: Tree, s: Session<H>, h: H, l: Link, v: Handle)
    requires Safe(tree, s) && h !in s.handles && Later(s.link, l) && v.fid !in s.link.fids
    requires v.fid in l.fids ==> v.isOpened && (l.fids[v.fid].isOpen ==> v.qid == tree.qid(l.fids[v.fid].node))
    ensures var t := Session(l, s.root, s.handles[h := v]);
      KeepsBindings(s, t) && (Safe(tree, t) <==> v.fid in l.fids && l.fids[v.fid].isOpen)
  {
    LaterBindings(s.link, l);
    hide Below, ErrnosNonZero, Later;
    var t := Session(l, s.root, s.handles[h := v]);
    assert t.handles[h] == v;
  }

  lemma SafeHandle<H(!new)>(tree: Tree, s: Session<H>, h: H)
    requires Safe(tree, s) && h in s.handles
    ensures Below(s.link) && s.handles[h].fid in s.link.fids
    ensures s.handles[h].isOpened ==> s.link.fids[s.handles[h].fid].isOpen
  {
  }

  lemma ReadSafe<H(!new)>(tree: Tree, signedChar: bool, s: Session<H>, op: Op<H>)
    requires Safe(tree, s) && Applies(s, op) && op.Read? && ErrnosNonZero(s.link.fates)
    requires Step(tree, signedChar, s, op).link.issued <= P9_NOFID
    ensures var t := Step(tree, signedChar, s, op);
      Safe(tree, t) && KeepsBindings(s, t) && ErrnosNonZero(t.link.fates)
  {
    var Read(h, size, stale, spent, position) := op;
    SafeHandle(tree, s, h);
    hide Safe, KeepsBindings, ReadHandle, Below, ErrnosNonZero, Later;
    var (l', h') := ReadHandle(tree, s.link, RootFid(s), s.handles[h], size, signedChar, stale, spent, position);
    ReadHandleLater(tree, s.link, RootFid(s), s.handles[h], size, signedChar, stale, spent, position);
    LaterBindings(s.link, l');
    SafeAfterRead(tree, s, h, l', h');
  }

  lemma ClunkKeeps(l: Link, fid: u32)
    ensures var l' := Clunk(l, fid).1;
      && (forall f :: f in l.fids && f != fid ==> f in l'.fids && l'.fids[f] == l.fids[f])
      && l'.issued == l.issued && (Below(l) ==> Below(l'))
      && (ErrnosNonZero(l.fates) ==> ErrnosNonZero(l'.fates))
  {
    ErrnosTail(l);
  }

  lemma CloseSafe<H(!new)>(tree: Tree, signedChar: bool, s: Session<H>, op: Op<H>)
    requires Safe(tree, s) && Applies(s, op) && op.Close?
    ensures var t := Step(tree, signedChar, s, op);
      Safe(tree, t) && KeepsBindings(s, t) && (ErrnosNonZero(s.link.fates) ==> ErrnosNonZero(t.link.fates))
  {
    hide Clunk, Below, ErrnosNonZero;
    ClunkKeeps(s.link, s.handles[op.handle].fid);
  }

  lemma SeekSafe<H(!new)>(tree: Tree, signedChar: bool, s: Session<H>, op: Op<H>)
    requires Safe(tree, s) && Applies(s, op) && op.Seek?
    ensures var t := Step(tree, signedChar, s, op);
      Safe(tree, t) && KeepsBindings(s, t) && (ErrnosNonZero(s.link.fates) ==> ErrnosNonZero(t.link.fates))
  {
    var h := op.handle;
    SafeHandle(tree, s, h);
    LaterReflexive(s.link);
    var v := SetPosition(s.handles[h], op.position).1;
    SafeQid(tree, s, h);
    SafeAfterRead(tree, s, h, s.link, v);
    hide Safe, KeepsBindings, Below, ErrnosNonZero;
  }

  lemma SafeQid<H(!new)>(tree: Tree, s: Session<H>, h: H)
    requires Safe(tree, s) && h in s.handles
    ensures s.handles[h].fid in s.link.fids && s.handles[h].qid == tree.qid(s.link.fids[s.handles[h].fid].node)
  {
  }

  /** P9Open only adds bindings, and returns a handle exactly for a new live fid bound to the node resolved. */
  lemma OpenFileLater(tree: Tree, l: Link, rootFid: u32, fid: u32, name: Option<Text>, mode: u64, stale: Target)
    requires Below(l) && ErrnosNonZero(l.fates) && (name.Some? ==> IsDefined(name.value))
    requires OpenFile(tree, l, rootFid, fid, name, mode, stale).link.issued <= P9_NOFID
    ensures var r := OpenFile(tree, l, rootFid, fid, name, mode, stale);
      && Later(l, r.link) && (r.status == Success <==> r.handle.Some?)
      && (r.status == Success ==>
            var f := r.handle.value.fid;
            && l.issued <= f && f in r.link.fids && name.Some? && StartFid(rootFid, fid, name.value) in l.fids
            && Resolve(tree, l.fids[StartFid(rootFid, fid, name.value)].node, Route(name.value))
                 == Some(r.link.fids[f].node)
            && r.handle.value.qid == tree.qid(r.link.fids[f].node) && r.link.fids[f].isOpen
            && r.handle.value.position == 0 && r.handle.value.isOpened
            && r.handle.value.fileName == FileNameField(FileNameOf(name.value)))
  {
    hide Walk, LOpen, Later, FileNameOf, Route, Resolve;
    LaterReflexive(l);
    if name.Some? && mode == EFI_FILE_MODE_READ {
      var w := Walk(tree, l, rootFid, fid, name.value, stale);
      LOpenLater(tree, w.link, w.target.fid, w.target.qid);
      LOpenQid(tree, w.link, w.target.fid, w.target.qid);
      ErrnosTail(w.link);
      WalkLater(tree, l, rootFid, fid, name.value, stale);
      LaterBindings(l, w.link);
      LaterTransitive(l, w.link, LOpen(tree, w.link, w.target.fid, w.target.qid).1);
      LaterBindings(w.link, LOpen(tree, w.link, w.target.fid, w.target.qid).1);
    }
  }

  lemma OpenSafe<H(!new)>(tree: Tree, signedChar: bool, s: Session<H>, op: Op<H>)
    requires Safe(tree, s) && Applies(s, op) && op.Open? && Sound(op) && ErrnosNonZero(s.link.fates)
    requires Step(tree, signedChar, s, op).link.issued <= P9_NOFID
    ensures var t := Step(tree, signedChar, s, op);
      Safe(tree, t) && KeepsBindings(s, t) && ErrnosNonZero(t.link.fates)
  {
    var Open(base, created, name, mode, stale) := op;
    SafeHandle(tree, s, base);
    var r := OpenFile(tree, s.link, RootFid(s), s.handles[base].fid, name, mode, stale);
    hide Safe, KeepsBindings, OpenFile, ErrnosNonZero, IsDefined, Later;
    OpenFileLater(tree, s.link, RootFid(s), s.handles[base].fid, name, mode, stale);
    LaterBindings(s.link, r.link);
    if r.handle.Some? {
      SafeAfterOpen(tree, s, created, r.link, r.handle.value);
    } else {
      SafeAfterLink(tree, s, r.link);
    }
  }

  /** Every call keeps the invariant. */
  lemma StepSafe<H(!new)>(tree: Tree, signedChar: bool, s: Session<H>, op: Op<H>)
    requires Safe(tree, s) && Applies(s, op) && Sound(op) && ErrnosNonZero(s.link.fates)
    requires Step(tree, signedChar, s, op).link.issued <= P9_NOFID
    ensures var t := Step(tree, signedChar, s, op);
      Safe(tree, t) && KeepsBindings(s, t) && ErrnosNonZero(t.link.fates)
  {
    hide Safe, KeepsBindings, Step, ErrnosNonZero;
    match op
    case Open(_, _, _, _, _) => OpenSafe(tree, signedChar, s, op);
    case Close(_) => CloseSafe(tree, signedChar, s, op);
    case Read(_, _, _, _, _) => ReadSafe(tree, signedChar, s, op);
    case Seek(_, _) => SeekSafe(tree, signedChar, s, op);
  }

  // ----- Whole runs -----

  lemma DirReadIssues(tree: Tree, l: Link, rootFid: u32, h: Handle, size: nat, signedChar: bool, stale: Target)
    ensures l.issued <= DirRead(tree, l, rootFid, h, size, signedChar, stale).link.issued
  {
    hide Walk, InfoOf, EntryPath, EntryName, EntryOffset, LOpen, ReadDir, GetAttr;
    LOpenLater(tree, l, h.fid, h.qid);
    var l0 := if h.isOpened then l else LOpen(tree, l, h.fid, h.qid).1;
    var r := ReadDir(tree, l0, h.fid, h.position, ENTRY_SIZE);
    ReadDirLater(tree, l0, h.fid, h.position, ENTRY_SIZE);
    var path := EntryPath(EntryName(r.data), signedChar);
    WalkIssues(tree, r.link, rootFid, h.fid, path, stale);
    var w := Walk(tree, r.link, rootFid, h.fid, path, stale);
    GetAttrLater(tree, w.link, w.target.fid);
  }

  lemma StepIssues<H(!new)>(tree: Tree, signedChar: bool, s: Session<H>, op: Op<H>)
    requires Applies(s, op)
    ensures s.link.issued <= Step(tree, signedChar, s, op).link.issued
  {
    hide Walk, LOpen, DirRead;
    match op
    case Open(base, created, name, mode, stale) =>
      if name.Some? {
        WalkIssues(tree, s.link, RootFid(s), s.handles[base].fid, name.value, stale);
        var w := Walk(tree, s.link, RootFid(s), s.handles[base].fid, name.value, stale);
        LOpenLater(tree, w.link, w.target.fid, w.target.qid);
      }
    case Close(_) =>
    case Read(h, size, stale, spent, position) =>
      DirReadIssues(tree, s.link, RootFid(s), s.handles[h], size, signedChar, stale);
    case Seek(_, _) =>
  }

  predicate RunApplies<H(==)>(tree: Tree, signedChar: bool, s: Session<H>, ops: seq<Op<H>>)
    decreases |ops|
  {
    ops == [] || (Applies(s, ops[0]) && RunApplies(tree, signedChar, Step(tree, signedChar, s, ops[0]), ops[1..]))
  }

  function Run<H(==)>(tree: Tree, signedChar: bool, s: Session<H>, ops: seq<Op<H>>): Session<H>
    requires RunApplies(tree, signedChar, s, ops)
    decreases |ops|
  {
    if ops == [] then s else Run(tree, signedChar, Step(tree, signedChar, s, ops[0]), ops[1..])
  }

  lemma {:induction false} RunIssues<H(!new)>(tree: Tree, signedChar: bool, s: Session<H>, ops: seq<Op<H>>)
    requires RunApplies(tree, signedChar, s, ops)
    ensures s.link.issued <= Run(tree, signedChar, s, ops).link.issued
    decreases |ops|
  {
    if ops != [] {
      StepIssues(tree, signedChar, s, ops[0]);
      RunIssues(tree, signedChar, Step(tree, signedChar, s, ops[0]), ops[1..]);
    }
  }

  predicate AllSound<H>(ops: seq<Op<H>>) { forall i :: 0 <= i < |ops| ==> Sound(ops[i]) }

  /**
   Safety over whole runs: whatever calls are made and whatever becomes of their exchanges, as long
   as the counter has not reached NOFID, every open handle is live, distinct handles have distinct
   fids, the root handle stays bound to the root, and live fids are below the counter.
   */
  lemma {:induction false} RunSafe<H(!new)>(tree: Tree, signedChar: bool, s: Session<H>, ops: seq<Op<H>>)
    requires Safe(tree, s) && ErrnosNonZero(s.link.fates) && AllSound(ops) && RunApplies(tree, signedChar, s, ops)
    requires Run(tree, signedChar, s, ops).link.issued <= P9_NOFID
    ensures Safe(tree, Run(tree, signedChar, s, ops))
    decreases |ops|
  {
    hide Safe, Step, ErrnosNonZero, Sound;
    if ops != [] {
      var t := Step(tree, signedChar, s, ops[0]);
      RunIssues(tree, signedChar, t, ops[1..]);
      assert Sound(ops[0]);
      StepSafe(tree, signedChar, s, ops[0]);
      assert AllSound(ops[1..]);
      RunSafe(tree, signedChar, t, ops[1..]);
    }
  }

  /** h is not closed in the run. */
  predicate Unclosed<H(==)>(ops: seq<Op<H>>, h: H) { forall i :: 0 <= i < |ops| ==> ops[i] != Op.Close(h) }

  lemma StepKeepsHandle<H(!new)>(tree: Tree, signedChar: bool, s: Session<H>, op: Op<H>, h: H)
    requires Applies(s, op) && h in s.handles && (op != Op.Close(h) || h == s.root)
    ensures h in Step(tree, signedChar, s, op).handles && Step(tree, signedChar, s, op).root == s.root
  {
    hide OpenFile, ReadHandle;
  }

  /** A handle that is not closed, and the root handle in any case, denotes the same node throughout a run. */
  lemma {:induction false} RunKeepsHandle<H(!new)>(tree: Tree, signedChar: bool, s: Session<H>, ops: seq<Op<H>>, h: H)
    requires Safe(tree, s) && ErrnosNonZero(s.link.fates) && AllSound(ops) && RunApplies(tree, signedChar, s, ops)
    requires Run(tree, signedChar, s, ops).link.issued <= P9_NOFID
    requires h in s.handles && (h == s.root || Unclosed(ops, h))
    ensures var t := Run(tree, signedChar, s, ops);
      && h in t.handles && t.handles[h].fid == s.handles[h].fid
      && s.handles[h].fid in s.link.fids && t.handles[h].fid in t.link.fids
      && t.link.fids[t.handles[h].fid].node == s.link.fids[s.handles[h].fid].node
    decreases |ops|
  {
    hide Step, ErrnosNonZero, Sound, Below;
    if ops != [] {
      var t := Step(tree, signedChar, s, ops[0]);
      RunIssues(tree, signedChar, t, ops[1..]);
      assert Sound(ops[0]);
      StepSafe(tree, signedChar, s, ops[0]);
      StepKeepsHandle(tree, signedChar, s, ops[0], h);
      assert AllSound(ops[1..]);
      assert Unclosed(ops, h) ==> Unclosed(ops[1..], h);
      RunKeepsHandle(tree, signedChar, t, ops[1..], h);
    }
  }
}
