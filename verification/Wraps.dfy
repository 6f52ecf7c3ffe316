/**
 Sessions with any value of the 32-bit fid counter: for every script without code 0, exactly which
 calls break the session invariant or a binding, and safety of every run that has none of them.
 */
module Wraps {
  import opened Ints
  import opened Statuses
  import opened Paths
  import opened Protocol
  import opened Walking
  import opened WalkLaws
  import opened WalkFates
  import opened Operations
  import opened Directories
  import opened Sessions
  import opened Conservation

  // ----- One open -----

  /** A start fid bound anew is open again: its walk had one step and was served, and the open was done. */
  predicate Reopened(l: Link, path: Text) {
    FidCost(path) == 1 && FateAt(l.fates, 0).Served? && Reaches(FateAt(l.fates, 1))
  }

  lemma LOpenByFate(tree: Tree, l: Link, fid: u32, qid: Qid)
    requires fid in l.fids && !l.fids[fid].isOpen && FateAt(l.fates, 0) != Refused(0)
    ensures var (status, l', qid') := LOpen(tree, l, fid, qid);
      && l'.fids == (if Reaches(FateAt(l.fates, 0)) then l.fids[fid := FidState(l.fids[fid].node, true)] else l.fids)
      && l'.issued == l.issued && l'.fates == Spent(l).fates
      && (status == Success <==> FateAt(l.fates, 0).Served?)
      && (status == Success ==> qid' == tree.qid(l.fids[fid].node))
  {
  }

  lemma OpenFileSteps(tree: Tree, l: Link, rootFid: u32, fid: u32, path: Text, stale: Target)
    ensures var r := OpenFile(tree, l, rootFid, fid, Some(path), EFI_FILE_MODE_READ, stale);
      var w := Walk(tree, l, rootFid, fid, path, stale);
      var (status, l', qid) := LOpen(tree, w.link, w.target.fid, w.target.qid);
      && r.link == (if w.status == Success then l' else w.link)
      && (r.handle.Some? <==> w.status == Success && status == Success)
      && (r.handle.Some? ==> var h := r.handle.value; h.fid == w.target.fid && h.qid == qid && h.isOpened)
  {
    hide Walk, LOpen, FileNameOf;
  }

  /** P9Open with any counter, by the fates: what becomes of the fids that exist, and which fid the handle has. */
  lemma OpenAnyCounter(tree: Tree, l: Link, rootFid: u32, fid: u32, path: Text, stale: Target)
    requires ErrnosNonZero(l.fates) && IsDefined(path)
    ensures var r := OpenFile(tree, l, rootFid, fid, Some(path), EFI_FILE_MODE_READ, stale);
      var start, taken := StartFid(rootFid, fid, path), TakesStart(tree, l, rootFid, fid, path);
      && (forall f :: f in l.fids && !(taken && f == start) ==> f in r.link.fids && r.link.fids[f] == l.fids[f])
      && (taken ==> start in r.link.fids
                    && r.link.fids[start] == FidState(FirstNode(tree, l, rootFid, fid, path).value, Reopened(l, path)))
      && (Below(l) ==> Below(r.link)) && ErrnosNonZero(r.link.fates)
      && (r.handle.Some? ==>
            var h := r.handle.value;
            && h.fid in r.link.fids && r.link.fids[h.fid].isOpen && h.isOpened
            && start in l.fids && Resolve(tree, l.fids[start].node, Route(path)) == Some(r.link.fids[h.fid].node)
            && h.qid == tree.qid(r.link.fids[h.fid].node)
            && (h.fid in l.fids <==> taken && FidCost(path) == 1))
      && (taken && FidCost(path) == 1 ==>
            (r.handle.Some? <==> FateAt(l.fates, 0).Served? && FateAt(l.fates, 1).Served?)
            && (r.handle.Some? ==> r.handle.value.fid == start))
  {
    hide Walk, LOpen, OpenFile, FidCost, IsDefined, Resolve, Route, TakesStart, FirstNode, Guarded, StartFid;
    OpenFileSteps(tree, l, rootFid, fid, path, stale);
    WalkAnyCounter(tree, l, rootFid, fid, path, stale);
    var w := Walk(tree, l, rootFid, fid, path, stale);
    ErrnosTail(w.link);
    if w.status == Success {
      assert FateAt(w.link.fates, 0) == FateAt(l.fates, FidCost(path));
      LOpenByFate(tree, w.link, w.target.fid, w.target.qid);
    }
  }

  /** For every counter, a handle has a fid that was in use exactly when a walk of one step started from its number. */
  lemma HandleSharesIff(tree: Tree, l: Link, rootFid: u32, fid: u32, name: Option<Text>, mode: u64, stale: Target)
    requires ErrnosNonZero(l.fates) && (name.Some? ==> IsDefined(name.value))
    ensures var r := OpenFile(tree, l, rootFid, fid, name, mode, stale);
      r.handle.Some? ==>
        name.Some? && (r.handle.value.fid in l.fids
                       <==> FidCost(name.value) == 1 && MFid(l) == StartFid(rootFid, fid, name.value))
  {
    hide Walk, LOpen, FidCost, IsDefined, Resolve, Route, FirstNode, MFid, FileNameOf;
    if name.Some? && mode == EFI_FILE_MODE_READ {
      OpenAnyCounter(tree, l, rootFid, fid, name.value, stale);
      OpenFileSteps(tree, l, rootFid, fid, name.value, stale);
      if MFid(l) == StartFid(rootFid, fid, name.value)
         && Walk(tree, l, rootFid, fid, name.value, stale).status == Success {
        OneStepTakes(tree, l, rootFid, fid, name.value, stale);
      }
    }
  }

  /** A successful walk whose first number is that of its start takes it. */
  lemma OneStepTakes(tree: Tree, l: Link, rootFid: u32, fid: u32, path: Text, stale: Target)
    requires ErrnosNonZero(l.fates) && IsDefined(path)
    requires MFid(l) == StartFid(rootFid, fid, path) && Walk(tree, l, rootFid, fid, path, stale).status == Success
    ensures TakesStart(tree, l, rootFid, fid, path)
  {
    hide Scan, NonDot, Names, WalkNames, CloneFid;
    if path != [] && !IsSpecial(path) && !Guarded(rootFid, fid, path) {
      NamesAreComponents(Relative(path));
      var start, names := StartFid(rootFid, fid, path), Route(path);
      WalkNamesUnfold(tree, l, start, names, stale);
      assert IsComponent(names[0]);
      StepAnyCounter(tree, l, start, names[0]);
    } else if IsSpecial(path) {
      CloneTakes(tree, l, StartFid(rootFid, fid, path));
    }
  }

  lemma CloneTakes(tree: Tree, l: Link, fid: u32)
    ensures CloneFid(tree, l, fid).status == Success ==>
      MFid(l) != P9_NOFID && fid in l.fids && FateAt(l.fates, 0).Served?
  {
  }

  lemma DotTakesStart(tree: Tree, l: Link, rootFid: u32, fid: u32, stale: Target)
    requires fid in l.fids && Healthy(l, 2) && MFid(l) == fid != P9_NOFID
    ensures var r := OpenFile(tree, l, rootFid, fid, Some([DOT]), EFI_FILE_MODE_READ, stale);
      && r.link.fids == l.fids[fid := FidState(l.fids[fid].node, true)] && r.link.fates == l.fates[2..]
      && r.handle.Some? && r.handle.value.fid == fid
  {
    hide FileNameOf;
    assert FateAt(l.fates, 0).Served? && FateAt(l.fates, 1).Served?;
    var w := CloneFid(tree, l, fid);
    assert w == WalkResult(Success, w.link, Target(fid, ZERO_QID));
    assert w.link.fids == l.fids[fid := FidState(l.fids[fid].node, false)];
    LOpenByFate(tree, w.link, fid, ZERO_QID);
    hide LOpen;
  }

  /**
   Opening "." when the counter has come round to the handle's own fid makes two handles share it,
   and closing one takes it from the other.
   */
  lemma WrappedCounterSharesFid<H(!new)>(tree: Tree, signedChar: bool, s: Session<H>, h: H, created: H, stale: Target)
    requires Safe(tree, s) && h in s.handles && created !in s.handles
    requires Healthy(s.link, 3) && MFid(s.link) == s.handles[h].fid != P9_NOFID
    ensures var open := Op.Open(h, created, Some([DOT]), EFI_FILE_MODE_READ, stale);
      && Applies(s, open)
      && var t := Step(tree, signedChar, s, open);
      && created in t.handles && t.handles[created].fid == t.handles[h].fid
      && Applies(t, Op.Close(created))
      && t.handles[h].fid !in Step(tree, signedChar, t, Op.Close(created)).link.fids
  {
    SafeHandle(tree, s, h);
    hide Safe, OpenFile;
    DotTakesStart(tree, s.link, RootFid(s), s.handles[h].fid, stale);
    var t := Step(tree, signedChar, s, Op.Open(h, created, Some([DOT]), EFI_FILE_MODE_READ, stale));
    assert FateOf(t.link).Served?;
  }

  // ----- The invariant after a call -----

  /** The call keeps the session invariant, and the bindings of the handles that survive it. */
  ghost predicate Keeps<H(!new)>(tree: Tree, s: Session<H>, t: Session<H>) { Safe(tree, t) && KeepsBindings(s, t) }

  /** The connection after a call: every fid as before, but possibly that of the handle g, which is bound anew. */
  ghost predicate Around<H(!new)>(s: Session<H>, l: Link, g: H, taken: bool, state: FidState)
    requires g in s.handles
  {
    var start := s.handles[g].fid;
    && (forall f :: f in s.link.fids && !(taken && f == start) ==> f in l.fids && l.fids[f] == s.link.fids[f])
    && (taken ==> start in l.fids && l.fids[start] == state) && Below(l)
  }

  /** What is lost when the fid of the handle g is bound anew with the given state. */
  predicate Loses<H(==)>(s: Session<H>, g: H, state: FidState)
    requires g in s.handles && s.handles[g].fid in s.link.fids
  {
    state.node != s.link.fids[s.handles[g].fid].node || (s.handles[g].isOpened && !state.isOpen)
  }

  lemma KeepsAround<H(!new)>(tree: Tree, s: Session<H>, l: Link, g: H, taken: bool, state: FidState)
    requires Safe(tree, s) && g in s.handles && Around(s, l, g, taken, state)
    ensures s.handles[g].fid in s.link.fids
    ensures Keeps(tree, s, Session(l, s.root, s.handles)) <==> !(taken && Loses(s, g, state))
  {
    hide Below;
    var t := Session(l, s.root, s.handles);
    if taken && !Loses(s, g, state) {
      assert forall h :: h in s.handles && h != g ==> s.handles[h].fid != s.handles[g].fid;
    }
  }

  /** A handle with a new fid that is bound, open and of the right type does not change that. */
  lemma KeepsWithNew<H(!new)>(tree: Tree, s: Session<H>, l: Link, h: H, v: Handle)
    requires Safe(tree, s) && h !in s.handles && v.fid !in s.link.fids && v.fid in l.fids
    requires l.fids[v.fid].isOpen && v.qid == tree.qid(l.fids[v.fid].node)
    ensures Keeps(tree, s, Session(l, s.root, s.handles[h := v])) <==> Keeps(tree, s, Session(l, s.root, s.handles))
  {
    hide Below;
    var t, u := Session(l, s.root, s.handles), Session(l, s.root, s.handles[h := v]);
    assert u.handles[h] == v;
    assert forall g :: g in s.handles ==> u.handles[g] == s.handles[g];
    if Keeps(tree, s, u) {
      SubSession(tree, u, h, v, t);
    }
  }

  lemma SubSession<H(!new)>(tree: Tree, u: Session<H>, h: H, v: Handle, t: Session<H>)
    requires Safe(tree, u) && h !in t.handles && t.root in t.handles
    requires u == Session(t.link, t.root, t.handles[h := v])
    ensures Safe(tree, t)
  {
    hide Below;
    assert forall g :: g in t.handles ==> g in u.handles && u.handles[g] == t.handles[g];
  }

  lemma SharedBreaks<H(!new)>(tree: Tree, s: Session<H>, l: Link, h: H, v: Handle, g: H)
    requires g in s.handles && h !in s.handles && v.fid == s.handles[g].fid
    ensures !Safe(tree, Session(l, s.root, s.handles[h := v]))
  {
    var u := Session(l, s.root, s.handles[h := v]);
    assert u.handles[g].fid == u.handles[h].fid && g != h;
  }

  // ----- Which calls collide -----

  /** The handle from whose fid the walk for a path starts. */
  function StartHandle<H>(s: Session<H>, base: H, path: Text): H { if IsAbsolute(path) then s.root else base }

  /** An open whose walk takes its start: two handles share the fid, or the old one loses its node or open state. */
  predicate OpenCollides<H(==)>(tree: Tree, s: Session<H>, base: H, path: Text)
    requires s.root in s.handles && base in s.handles
  {
    var l, rootFid, fid := s.link, RootFid(s), s.handles[base].fid;
    var g, first := StartHandle(s, base, path), FirstNode(tree, l, rootFid, fid, path);
    && TakesStart(tree, l, rootFid, fid, path)
    && ((FidCost(path) == 1 && FateAt(l.fates, 0).Served? && FateAt(l.fates, 1).Served?)
        || first.value != l.fids[s.handles[g].fid].node || (s.handles[g].isOpened && !Reopened(l, path)))
  }

  lemma OpenCollidesIff<H(!new)>(tree: Tree, signedChar: bool, s: Session<H>, op: Op<H>)
    requires Safe(tree, s) && Applies(s, op) && op.Open? && Sound(op) && ErrnosNonZero(s.link.fates)
    ensures var t := Step(tree, signedChar, s, op);
      && ErrnosNonZero(t.link.fates)
      && (Keeps(tree, s, t) <==>
            !(op.name.Some? && op.mode == EFI_FILE_MODE_READ && OpenCollides(tree, s, op.base, op.name.value)))
  {
    var Open(base, created, name, mode, stale) := op;
    var l, rootFid, fid := s.link, RootFid(s), s.handles[base].fid;
    SafeHandle(tree, s, base);
    SafeHandle(tree, s, s.root);
    hide Safe, Keeps, Around, OpenFile, IsDefined, FidCost, TakesStart, FirstNode, Reopened, Resolve, Route,
      ErrnosNonZero, Below;
    var r := OpenFile(tree, l, rootFid, fid, name, mode, stale);
    if name.None? || mode != EFI_FILE_MODE_READ {
      RefusedAtOnce(tree, l, rootFid, fid, name, mode, stale);
      AroundNothing(s, s.root);
      KeepsAround(tree, s, l, s.root, false, FidState(0, false));
    } else {
      var path := name.value;
      var g, taken := StartHandle(s, base, path), TakesStart(tree, l, rootFid, fid, path);
      var state := FidState(if taken then FirstNode(tree, l, rootFid, fid, path).value else 0, Reopened(l, path));
      OpenAnyCounter(tree, l, rootFid, fid, path, stale);
      TakenIsLive(tree, l, rootFid, fid, path);
      AroundIs(s, r.link, g, taken, state);
      KeepsAround(tree, s, r.link, g, taken, state);
      if r.handle.Some? {
        if r.handle.value.fid in l.fids {
          SharedBreaks(tree, s, r.link, created, r.handle.value, g);
          BrokenIsLost(tree, s, Session(r.link, s.root, s.handles[created := r.handle.value]));
        } else {
          KeepsWithNew(tree, s, r.link, created, r.handle.value);
        }
      }
    }
  }

  lemma RefusedAtOnce(tree: Tree, l: Link, rootFid: u32, fid: u32, name: Option<Text>, mode: u64, stale: Target)
    requires name.None? || mode != EFI_FILE_MODE_READ
    ensures OpenFile(tree, l, rootFid, fid, name, mode, stale) == OpenResult(InvalidParameter, l, None)
  {
  }

  lemma TakenIsLive(tree: Tree, l: Link, rootFid: u32, fid: u32, path: Text)
    ensures TakesStart(tree, l, rootFid, fid, path) ==>
      FirstNode(tree, l, rootFid, fid, path).Some? && StartFid(rootFid, fid, path) in l.fids
  {
    hide Route, Guarded;
  }

  lemma AroundIs<H(!new)>(s: Session<H>, l: Link, g: H, taken: bool, state: FidState)
    requires g in s.handles && Below(l)
    requires forall f :: f in s.link.fids && !(taken && f == s.handles[g].fid) ==>
      f in l.fids && l.fids[f] == s.link.fids[f]
    requires taken ==> s.handles[g].fid in l.fids && l.fids[s.handles[g].fid] == state
    ensures Around(s, l, g, taken, state)
  {
  }

  lemma AroundNothing<H(!new)>(s: Session<H>, g: H)
    requires g in s.handles && Below(s.link)
    ensures Around(s, s.link, g, false, FidState(0, false))
  {
  }

  lemma BrokenIsLost<H(!new)>(tree: Tree, s: Session<H>, t: Session<H>)
    requires !Safe(tree, t)
    ensures !Keeps(tree, s, t)
  {
  }

  // ----- One directory read -----

  /** Handle and connection when P9DirRead has received an entry or given up. */
  function BeforeEntry(tree: Tree, l: Link, h: Handle): (Link, Handle) {
    var (status, l0, qid) := if h.isOpened then (Success, l, h.qid) else LOpen(tree, l, h.fid, h.qid);
    if status.IsError() then (l0, h)
    else (ReadDir(tree, l0, h.fid, h.position, ENTRY_SIZE).link, h.(qid := qid, isOpened := true))
  }

  /** The name that the driver reads in the entry it received. */
  function ReceivedName(tree: Tree, l: Link, h: Handle): Name {
    var e := Received(tree, l, h);
    if e.None? then [] else e.value.name
  }

  lemma BeforeEntryLater(tree: Tree, l: Link, h: Handle)
    requires ErrnosNonZero(l.fates)
    ensures var (l1, v) := BeforeEntry(tree, l, h);
      && Later(l, l1) && v.fid == h.fid && l1.issued == l.issued
      && (h.fid in l.fids ==> v.qid in {h.qid, tree.qid(l.fids[h.fid].node)})
      && (v.isOpened && !h.isOpened ==> h.fid in l1.fids && l1.fids[h.fid].isOpen)
      && (v.isOpened <==> GoesOn(l, h)) && (GoesOn(l, h) ==> l1.fates == SkipFates(l, Opens(h) + 1).fates)
      && (forall f :: f in l1.fids <==> f in l.fids) && (forall f :: f in l.fids ==> l1.fids[f].node == l.fids[f].node)
  {
    LOpenQid(tree, l, h.fid, h.qid);
    LOpenLater(tree, l, h.fid, h.qid);
    LaterReflexive(l);
    ErrnosTail(l);
    if !h.isOpened {
      OpeningByFate(tree, l, h);
    }
    hide LOpen, ReadDir, Later, ErrnosNonZero;
    var l0 := if h.isOpened then l else LOpen(tree, l, h.fid, h.qid).1;
    var r := ReadDir(tree, l0, h.fid, h.position, ENTRY_SIZE);
    ReadDirLater(tree, l0, h.fid, h.position, ENTRY_SIZE);
    ReadDirByFate(tree, l0, h.fid, h.position);
    LaterTransitive(l, l0, r.link);
    LaterBindings(l, l0);
    LaterBindings(l0, r.link);
  }

  lemma DeliverAnyCounter(tree: Tree, l: Link, rootFid: u32, h: Handle, size: nat, data: seq<u8>, signedChar: bool,
                          stale: Target)
    requires |data| == ENTRY_SIZE && ErrnosNonZero(l.fates)
    ensures var r, path := DeliverEntry(tree, l, rootFid, h, size, data, signedChar, stale),
                           EntryPath(EntryName(data), signedChar);
      var taken := size >= InfoSize(|EntryName(data)|) && TakesStart(tree, l, rootFid, h.fid, path);
      && TakenFrom(l, r.link, StartFid(rootFid, h.fid, path), taken, FirstNode(tree, l, rootFid, h.fid, path))
      && r.handle == h.(position := r.handle.position)
  {
    hide Walk, GetAttr, InfoOf, InfoSize, EntryPath, EntryName, EntryOffset, TakesStart, FirstNode, StartFid,
      ErrnosNonZero;
    var path := EntryPath(EntryName(data), signedChar);
    if size >= InfoSize(|EntryName(data)|) {
      var w := Walk(tree, l, rootFid, h.fid, path, stale);
      WalkAnyCounter(tree, l, rootFid, h.fid, path, stale);
      GetAttrLink(tree, w.link, w.target.fid);
    } else {
      NothingTaken(l, StartFid(rootFid, h.fid, path), FirstNode(tree, l, rootFid, h.fid, path));
    }
  }

  lemma GetAttrLink(tree: Tree, l: Link, fid: u32)
    ensures var l' := GetAttr(tree, l, fid).1;
      && l'.fids == l.fids && l'.issued == l.issued
      && (ErrnosNonZero(l.fates) ==> ErrnosNonZero(l'.fates)) && (Below(l) ==> Below(l'))
  {
    ErrnosTail(l);
  }

  /** A directory read in two parts: up to the entry, and its delivery. */
  lemma DirReadAnyCounter(tree: Tree, l: Link, rootFid: u32, h: Handle, size: nat, signedChar: bool, stale: Target)
    requires ErrnosNonZero(l.fates)
    ensures var r, (l1, v) := DirRead(tree, l, rootFid, h, size, signedChar, stale), BeforeEntry(tree, l, h);
      var name := ReceivedName(tree, l, h);
      var path := EntryPath(name, signedChar);
      var taken := size >= InfoSize(|name|) && TakesStart(tree, l1, rootFid, h.fid, path);
      && TakenFrom(l1, r.link, StartFid(rootFid, h.fid, path), taken, FirstNode(tree, l1, rootFid, h.fid, path))
      && r.handle == v.(position := r.handle.position)
  {
    BeforeEntryLater(tree, l, h);
    if !h.isOpened {
      OpeningByFate(tree, l, h);
    }
    hide LOpen, ReadDir, DeliverEntry, EntryPath, EntryName, InfoSize, TakesStart, FirstNode, StartFid, TakenFrom,
      Later, ErrnosNonZero;
    var (l1, v) := BeforeEntry(tree, l, h);
    var (status, l0, qid) := if h.isOpened then (Success, l, h.qid) else LOpen(tree, l, h.fid, h.qid);
    LaterBindings(l, l1);
    NoPathTakesNothing(tree, l1, rootFid, h.fid, signedChar);
    var path := EntryPath(ReceivedName(tree, l, h), signedChar);
    NothingTaken(l1, StartFid(rootFid, h.fid, path), FirstNode(tree, l1, rootFid, h.fid, path));
    if status == Success {
      var r := ReadDir(tree, l0, h.fid, h.position, ENTRY_SIZE);
      ReadDirByFate(tree, l0, h.fid, h.position);
      if r.status == Success && r.count != 0 {
        DeliverAnyCounter(tree, l1, rootFid, v, size, r.data, signedChar, stale);
      }
    }
  }

  lemma NoPathTakesNothing(tree: Tree, l: Link, rootFid: u32, fid: u32, signedChar: bool)
    ensures !TakesStart(tree, l, rootFid, fid, EntryPath([], signedChar))
  {
  }

  /**
   A directory read that receives an entry, has room for it, and whose walk to the entry takes its
   start: the directory's own fid, which loses its open state, or for an absolute name the root's.
   */
  predicate ReadCollides<H(==)>(tree: Tree, signedChar: bool, s: Session<H>, h: H, size: nat)
    requires s.root in s.handles && h in s.handles
  {
    var d, rootFid := s.handles[h], RootFid(s);
    var m := SkipFates(s.link, Opens(d) + 1);
    match Received(tree, s.link, d)
    case None => false
    case Some(e) =>
      var path := EntryPath(e.name, signedChar);
      var g := StartHandle(s, h, path);
      && HasBit(d.qid.kind, QTDIR) && size >= InfoSize(|e.name|) && TakesStart(tree, m, rootFid, d.fid, path)
      && (FirstNode(tree, m, rootFid, d.fid, path).value != s.link.fids[s.handles[g].fid].node
          || g == h || s.handles[g].isOpened)
  }

  lemma SameTakes(tree: Tree, l: Link, m: Link, rootFid: u32, fid: u32, path: Text)
    requires l.fates == m.fates && l.issued == m.issued && (forall f :: f in l.fids <==> f in m.fids)
    requires forall f :: f in l.fids ==> m.fids[f].node == l.fids[f].node
    ensures FirstNode(tree, l, rootFid, fid, path) == FirstNode(tree, m, rootFid, fid, path)
    ensures TakesStart(tree, l, rootFid, fid, path) == TakesStart(tree, m, rootFid, fid, path)
  {
    hide Route, Guarded, StartFid;
  }

  /** Handles and nodes of s1 are those of s, so whatever keeps those of s1 keeps those of s. */
  lemma KeepsVia<H(!new)>(tree: Tree, s: Session<H>, s1: Session<H>, t: Session<H>)
    requires Safe(tree, s) && Safe(tree, s1) && KeepsBindings(s, s1) && s.handles.Keys == s1.handles.Keys
    ensures Keeps(tree, s, t) <==> Keeps(tree, s1, t)
  {
    hide Below;
    assert forall h :: h in s.handles <==> h in s1.handles;
  }

  lemma PositionAside<H(!new)>(tree: Tree, s: Session<H>, l: Link, h: H, position: u64)
    requires Safe(tree, s) && h in s.handles
    ensures Keeps(tree, s, Session(l, s.root, s.handles[h := s.handles[h].(position := position)]))
      <==> Keeps(tree, s, Session(l, s.root, s.handles))
  {
    hide Below;
    var t, u := Session(l, s.root, s.handles), Session(l, s.root, s.handles[h := s.handles[h].(position := position)]);
    assert forall g :: g in s.handles <==> g in u.handles;
    assert forall g :: g in s.handles ==>
      u.handles[g].fid == t.handles[g].fid && u.handles[g].qid == t.handles[g].qid
      && u.handles[g].isOpened == t.handles[g].isOpened;
  }

  /** A read that first opens its handle and then binds at most the fid of the handle g anew. */
  lemma KeepsTwoParts<H(!new)>(tree: Tree, s: Session<H>, h: H, l1: Link, v: Handle, l2: Link, position: u64, g: H,
                               taken: bool, state: FidState)
    requires Safe(tree, s) && h in s.handles && g in s.handles && Later(s.link, l1) && v.fid == s.handles[h].fid
    requires v.qid in {s.handles[h].qid, tree.qid(s.link.fids[v.fid].node)}
    requires v.isOpened ==> v.fid in l1.fids && l1.fids[v.fid].isOpen
    requires Around(Session(l1, s.root, s.handles[h := v]), l2, g, taken, state)
    ensures s.handles[g].fid in s.link.fids
    ensures Keeps(tree, s, Session(l2, s.root, s.handles[h := v.(position := position)]))
      <==> !(taken && (state.node != s.link.fids[s.handles[g].fid].node
                       || ((if g == h then v.isOpened else s.handles[g].isOpened) && !state.isOpen)))
  {
    SafeHandle(tree, s, g);
    SafeAfterRead(tree, s, h, l1, v);
    LaterBindings(s.link, l1);
    hide Safe, Keeps, KeepsBindings, Around, Later, Below, ErrnosNonZero;
    var s1 := Session(l1, s.root, s.handles[h := v]);
    KeepsAround(tree, s1, l2, g, taken, state);
    PositionAside(tree, s1, l2, h, position);
    assert s1.handles[h := v.(position := position)] == s.handles[h := v.(position := position)];
    assert s1.handles.Keys == s.handles.Keys;
    KeepsVia(tree, s, s1, Session(l2, s.root, s.handles[h := v.(position := position)]));
  }

  lemma DirReadKeepsIff<H(!new)>(tree: Tree, signedChar: bool, s: Session<H>, h: H, size: nat, stale: Target)
    requires Safe(tree, s) && h in s.handles && s.root in s.handles && ErrnosNonZero(s.link.fates)
    requires HasBit(s.handles[h].qid.kind, QTDIR)
    ensures var r := DirRead(tree, s.link, RootFid(s), s.handles[h], size, signedChar, stale);
      && ErrnosNonZero(r.link.fates)
      && (Keeps(tree, s, Session(r.link, s.root, s.handles[h := r.handle]))
          <==> !ReadCollides(tree, signedChar, s, h, size))
  {
    var l, d, rootFid := s.link, s.handles[h], RootFid(s);
    SafeHandle(tree, s, h);
    DirReadAnyCounter(tree, l, rootFid, d, size, signedChar, stale);
    BeforeEntryLater(tree, l, d);
    hide Safe, Keeps, Around, DirRead, BeforeEntry, EntryPath, InfoSize, TakesStart, FirstNode, Received,
      Later, ErrnosNonZero, Below, GoesOn;
    var r := DirRead(tree, l, rootFid, d, size, signedChar, stale);
    var (l1, v) := BeforeEntry(tree, l, d);
    LaterBindings(l, l1);
    var name := ReceivedName(tree, l, d);
    var path := EntryPath(name, signedChar);
    var first, taken := FirstNode(tree, l1, rootFid, d.fid, path),
                        size >= InfoSize(|name|) && TakesStart(tree, l1, rootFid, d.fid, path);
    var g, state := StartHandle(s, h, path), FidState(if taken then first.value else 0, false);
    AroundIs(Session(l1, s.root, s.handles[h := v]), r.link, g, taken, state);
    KeepsTwoParts(tree, s, h, l1, v, r.link, r.handle.position, g, taken, state);
    if Received(tree, l, d).Some? {
      ReceivedGoesOn(tree, l, d);
      SameTakes(tree, l1, SkipFates(l, Opens(d) + 1), rootFid, d.fid, path);
    } else {
      NoPathTakesNothing(tree, l1, rootFid, d.fid, signedChar);
    }
  }

  lemma ReceivedGoesOn(tree: Tree, l: Link, h: Handle)
    ensures Received(tree, l, h).Some? ==> GoesOn(l, h)
  {
    hide GoesOn, OpenByThen;
  }

  // ----- Every call, every run -----

  /** The calls whose walk starts from the fid that the counter has come round to, and does harm by it. */
  predicate Collides<H(==)>(tree: Tree, signedChar: bool, s: Session<H>, op: Op<H>)
    requires Applies(s, op)
  {
    match op
    case Open(base, _, name, mode, _) =>
      name.Some? && mode == EFI_FILE_MODE_READ && OpenCollides(tree, s, base, name.value)
    case Read(h, size, _, _, _) => ReadCollides(tree, signedChar, s, h, size)
    case _ => false
  }

  lemma ReadCollidesIff<H(!new)>(tree: Tree, signedChar: bool, s: Session<H>, op: Op<H>)
    requires Safe(tree, s) && Applies(s, op) && op.Read? && ErrnosNonZero(s.link.fates)
    ensures var t := Step(tree, signedChar, s, op);
      && ErrnosNonZero(t.link.fates)
      && (Keeps(tree, s, t) <==> !ReadCollides(tree, signedChar, s, op.handle, op.size))
  {
    var Read(h, size, stale, spent, position) := op;
    var d := s.handles[h];
    if HasBit(d.qid.kind, QTDIR) {
      DirReadKeepsIff(tree, signedChar, s, h, size, stale);
    } else {
      SafeHandle(tree, s, h);
      SafeQid(tree, s, h);
      ReadLinkLater(s.link, d.fid);
      SkipLater(s.link, spent);
      LaterErrnos(s.link, ReadLink(s.link, d.fid).1);
      LaterErrnos(s.link, SkipFates(s.link, spent));
      hide Safe, KeepsBindings, ReadLink, SkipFates, Later, ErrnosNonZero, Received, TakesStart, FirstNode;
      var (l, v) := ReadHandle(tree, s.link, RootFid(s), d, size, signedChar, stale, spent, position);
      SafeAfterRead(tree, s, h, l, v);
      ReadLinkKeepsFids(s.link, d.fid, spent);
    }
  }

  lemma LaterErrnos(a: Link, b: Link)
    requires Later(a, b)
    ensures ErrnosNonZero(a.fates) ==> ErrnosNonZero(b.fates)
  {
  }

  lemma ReadLinkKeepsFids(l: Link, fid: u32, spent: nat)
    ensures ReadLink(l, fid).1.fids == l.fids && SkipFates(l, spent).fids == l.fids
  {
  }

  /**
   For every counter and every script without code 0, a call keeps the session invariant and all
   bindings if and only if it does not collide.
   */
  lemma StepKeepsIff<H(!new)>(tree: Tree, signedChar: bool, s: Session<H>, op: Op<H>)
    requires Safe(tree, s) && Applies(s, op) && Sound(op) && ErrnosNonZero(s.link.fates)
    ensures var t := Step(tree, signedChar, s, op);
      && ErrnosNonZero(t.link.fates)
      && (Keeps(tree, s, t) <==> !Collides(tree, signedChar, s, op))
  {
    hide Safe, KeepsBindings, Step, OpenCollides, ReadCollides, ErrnosNonZero;
    match op
    case Open(_, _, _, _, _) => OpenCollidesIff(tree, signedChar, s, op);
    case Read(_, _, _, _, _) => ReadCollidesIff(tree, signedChar, s, op);
    case Close(_) => CloseSafe(tree, signedChar, s, op);
    case Seek(_, _) => SeekSafe(tree, signedChar, s, op);
  }

  /** No call of the run collides. */
  predicate NeverCollides<H(==)>(tree: Tree, signedChar: bool, s: Session<H>, ops: seq<Op<H>>)
    requires RunApplies(tree, signedChar, s, ops)
    decreases |ops|
  {
    ops == [] || (!Collides(tree, signedChar, s, ops[0])
                  && NeverCollides(tree, signedChar, Step(tree, signedChar, s, ops[0]), ops[1..]))
  }

  /** Every call of the run keeps the invariant and all bindings. */
  ghost predicate KeptThroughout<H(!new)>(tree: Tree, signedChar: bool, s: Session<H>, ops: seq<Op<H>>)
    requires RunApplies(tree, signedChar, s, ops)
    decreases |ops|
  {
    ops == [] || (Keeps(tree, s, Step(tree, signedChar, s, ops[0]))
                  && KeptThroughout(tree, signedChar, Step(tree, signedChar, s, ops[0]), ops[1..]))
  }

  /**
   Safety with no bound on the counter: every call of a run keeps the session invariant and all
   bindings if and only if none collides; the run then ends in a safe session.
   */
  lemma {:induction false} RunKeepsIff<H(!new)>(tree: Tree, signedChar: bool, s: Session<H>, ops: seq<Op<H>>)
    requires Safe(tree, s) && ErrnosNonZero(s.link.fates) && AllSound(ops) && RunApplies(tree, signedChar, s, ops)
    ensures KeptThroughout(tree, signedChar, s, ops) <==> NeverCollides(tree, signedChar, s, ops)
    ensures NeverCollides(tree, signedChar, s, ops) ==> Safe(tree, Run(tree, signedChar, s, ops))
    decreases |ops|
  {
    hide Safe, KeepsBindings, Step, Collides, ErrnosNonZero, Sound;
    if ops != [] {
      assert Sound(ops[0]);
      assert AllSound(ops[1..]);
      StepKeepsIff(tree, signedChar, s, ops[0]);
      if Keeps(tree, s, Step(tree, signedChar, s, ops[0])) {
        RunKeepsIff(tree, signedChar, Step(tree, signedChar, s, ops[0]), ops[1..]);
      }
    }
  }

  /** A call collides only if the counter has come round to the fid of the root or of the handle it is made on. */
  lemma CollidesOnlyAtStart<H(!new)>(tree: Tree, signedChar: bool, s: Session<H>, op: Op<H>)
    requires Applies(s, op) && Collides(tree, signedChar, s, op)
    ensures op.Open? || op.Read?
    ensures MFid(s.link) in {RootFid(s), s.handles[if op.Open? then op.base else op.handle].fid}
  {
    hide Received, FirstNode, FidCost, InfoSize, Reopened, EntryPath;
  }

  lemma NotYetIssued<H(!new)>(tree: Tree, s: Session<H>, h: H)
    requires Safe(tree, s) && h in s.handles && s.link.issued < P9_NOFID
    ensures s.handles[h].fid != MFid(s.link)
  {
    SafeHandle(tree, s, h);
  }

  /** Below NOFID no call collides: the counter is above every fid. */
  lemma NoCollisionBelow<H(!new)>(tree: Tree, signedChar: bool, s: Session<H>, op: Op<H>)
    requires Safe(tree, s) && Applies(s, op) && s.link.issued < P9_NOFID
    ensures !Collides(tree, signedChar, s, op)
  {
    hide Safe, Collides, MFid;
    if Collides(tree, signedChar, s, op) {
      CollidesOnlyAtStart(tree, signedChar, s, op);
      NotYetIssued(tree, s, s.root);
      NotYetIssued(tree, s, if op.Open? then op.base else op.handle);
    }
  }
}
