/**
 Why each assumption of the session theorem is needed: for Rlerror codes that are 0, exactly which
 calls break the invariant; for each assumption, a call that does.
 */
module Limits {
  import opened Ints
  import opened Statuses
  import opened Paths
  import opened P9Strings
  import opened Protocol
  import opened Walking
  import opened WalkLaws
  import opened WalkFates
  import opened Operations
  import opened Answers
  import opened Sessions
  import opened Directories
  import opened Conservation

  // ----- Code 0 -----

  /**
   For every script: a handle that P9Open returns has a live fid exactly when its last walk was not
   answered by an Rlerror with code 0, and a fid that is open on the server exactly when its open
   was not either.
   */
  lemma OpenLiveIff(tree: Tree, l: Link, rootFid: u32, fid: u32, name: Option<Text>, mode: u64, stale: Target)
    requires Below(l) && (name.Some? ==> IsDefined(name.value))
    requires OpenFile(tree, l, rootFid, fid, name, mode, stale).link.issued <= P9_NOFID
    ensures var r := OpenFile(tree, l, rootFid, fid, name, mode, stale);
      r.handle.Some? ==>
        && name.Some? && FidCost(name.value) > 0
        && var f, n := r.handle.value.fid, FidCost(name.value);
        && f == l.issued + n - 1 && r.handle.value.isOpened
        && (f in r.link.fids <==> FateAt(l.fates, n - 1) != Refused(0))
        && (f in r.link.fids && r.link.fids[f].isOpen
            <==> FateAt(l.fates, n - 1) != Refused(0) && FateAt(l.fates, n) != Refused(0))
        && (f in r.link.fids && r.link.fids[f].isOpen ==> r.handle.value.qid == tree.qid(r.link.fids[f].node))
  {
    hide Walk, FileNameOf, FidCost, IsDefined, WalkServed, Resolve, Route, Below;
    if name.Some? && mode == EFI_FILE_MODE_READ {
      var w := Walk(tree, l, rootFid, fid, name.value, stale);
      LOpenSize(tree, w.link, w.target.fid, w.target.qid);
      WalkLiveIff(tree, l, rootFid, fid, name.value, stale);
      if w.status == Success {
        assert FateAt(l.fates, FidCost(name.value)) == FateOf(w.link);
      }
    }
  }

  lemma OpenFileKeeps(tree: Tree, l: Link, rootFid: u32, fid: u32, name: Option<Text>, mode: u64, stale: Target)
    requires Below(l) && OpenFile(tree, l, rootFid, fid, name, mode, stale).link.issued <= P9_NOFID
    ensures Later(l, OpenFile(tree, l, rootFid, fid, name, mode, stale).link)
  {
    hide Walk, LOpen, Later, FileNameOf;
    LaterReflexive(l);
    if name.Some? && mode == EFI_FILE_MODE_READ {
      var w := Walk(tree, l, rootFid, fid, name.value, stale);
      LOpenLater(tree, w.link, w.target.fid, w.target.qid);
      WalkLater(tree, l, rootFid, fid, name.value, stale);
      LaterTransitive(l, w.link, LOpen(tree, w.link, w.target.fid, w.target.qid).1);
    }
  }

  /** P9Open returns a handle exactly when its path ends and the open is answered or refused with code 0. */
  lemma OpenReturnsIff(tree: Tree, l: Link, rootFid: u32, fid: u32, path: Text, mode: u64, stale: Target)
    requires Below(l) && IsDefined(path)
    requires OpenFile(tree, l, rootFid, fid, Some(path), mode, stale).link.issued <= P9_NOFID
    ensures var r := OpenFile(tree, l, rootFid, fid, Some(path), mode, stale);
      var c, answer := CourseOf(tree, l, rootFid, fid, path, stale), FateAt(l.fates, FidCost(path));
      r.handle.Some? <==> mode == EFI_FILE_MODE_READ && c.Ends?
                          && (answer == Refused(0) || (answer.Served? && c.state.Some?))
  {
    hide OpenFile, CourseOf, FidCost, ErrnosNonZero, Below;
    OpenAnswers(tree, l, rootFid, fid, Some(path), mode, stale);
    CourseEndsClosed(tree, l, rootFid, fid, path, stale);
  }

  /** A handle whose last walk was answered with code 0 is returned only if its open was answered so, too. */
  lemma OpenNeedsLive(tree: Tree, l: Link, rootFid: u32, fid: u32, path: Text, mode: u64, stale: Target)
    requires Below(l) && IsDefined(path)
    requires OpenFile(tree, l, rootFid, fid, Some(path), mode, stale).link.issued <= P9_NOFID
    ensures OpenFile(tree, l, rootFid, fid, Some(path), mode, stale).handle.Some? && FidCost(path) > 0
            && FateAt(l.fates, FidCost(path) - 1) == Refused(0) ==>
      FateAt(l.fates, FidCost(path)) == Refused(0)
  {
    hide Walk, FileNameOf, FidCost, IsDefined, WalkServed, Resolve, Route, Below;
    if mode == EFI_FILE_MODE_READ {
      var w := Walk(tree, l, rootFid, fid, path, stale);
      LOpenSize(tree, w.link, w.target.fid, w.target.qid);
      WalkLiveIff(tree, l, rootFid, fid, path, stale);
      if w.status == Success {
        assert FateAt(l.fates, FidCost(path)) == FateOf(w.link);
      }
    }
  }

  /**
   The calls that take an Rlerror with code 0 for success where it matters: an open whose path ends
   and that is answered so itself, and the first read of a directory whose open is answered so,
   unless the server has it open already.
   */
  predicate Misled<H(==)>(tree: Tree, s: Session<H>, op: Op<H>)
    requires Applies(s, op)
  {
    match op
    case Open(base, _, name, mode, stale) =>
      && name.Some? && mode == EFI_FILE_MODE_READ
      && CourseOf(tree, s.link, RootFid(s), s.handles[base].fid, name.value, stale).Ends?
      && FateAt(s.link.fates, FidCost(name.value)) == Refused(0)
    case Read(h, _, _, _, _) =>
      var d := s.handles[h];
      HasBit(d.qid.kind, QTDIR) && !d.isOpened && FateAt(s.link.fates, 0) == Refused(0)
      && !(d.fid in s.link.fids && s.link.fids[d.fid].isOpen)
    case _ => false
  }

  lemma OpenSafeIff<H(!new)>(tree: Tree, signedChar: bool, s: Session<H>, op: Op<H>)
    requires Safe(tree, s) && Applies(s, op) && op.Open? && Sound(op)
    requires Step(tree, signedChar, s, op).link.issued <= P9_NOFID
    ensures Safe(tree, Step(tree, signedChar, s, op)) <==> !Misled(tree, s, op)
  {
    var Open(base, created, name, mode, stale) := op;
    var fid := s.handles[base].fid;
    SafeHandle(tree, s, base);
    var r := OpenFile(tree, s.link, RootFid(s), fid, name, mode, stale);
    hide Safe, OpenFile, IsDefined, FidCost, CourseOf, ErrnosNonZero, Later;
    OpenLiveIff(tree, s.link, RootFid(s), fid, name, mode, stale);
    OpenFileKeeps(tree, s.link, RootFid(s), fid, name, mode, stale);
    if name.Some? {
      OpenReturnsIff(tree, s.link, RootFid(s), fid, name.value, mode, stale);
      OpenNeedsLive(tree, s.link, RootFid(s), fid, name.value, mode, stale);
    } else {
      NoName(tree, s.link, RootFid(s), fid, mode, stale);
    }
    if r.handle.Some? {
      SafeAfterOpen(tree, s, created, r.link, r.handle.value);
    } else {
      SafeAfterLink(tree, s, r.link);
    }
  }

  lemma ReadSafeIff<H(!new)>(tree: Tree, signedChar: bool, s: Session<H>, op: Op<H>)
    requires Safe(tree, s) && Applies(s, op) && op.Read?
    requires Step(tree, signedChar, s, op).link.issued <= P9_NOFID
    ensures Safe(tree, Step(tree, signedChar, s, op)) <==> !Misled(tree, s, op)
  {
    var Read(h, size, stale, spent, position) := op;
    var l, rootFid, d := s.link, RootFid(s), s.handles[h];
    SafeHandle(tree, s, h);
    hide Safe, DirRead, ReadLink, SkipFates, ErrnosNonZero, Below, Later, DirReadBinds;
    var (l', d') := ReadHandle(tree, l, rootFid, d, size, signedChar, stale, spent, position);
    ReadHandleLater(tree, l, rootFid, d, size, signedChar, stale, spent, position);
    SafeAfterRead(tree, s, h, l', d');
    if HasBit(d.qid.kind, QTDIR) {
      DirReadBindsExactly(tree, l, rootFid, d, size, signedChar, stale);
    } else {
      OtherReadKeeps(tree, l, rootFid, d, size, signedChar, stale, spent, position);
    }
  }

  lemma OtherReadKeeps(tree: Tree, l: Link, rootFid: u32, h: Handle, size: nat, signedChar: bool, stale: Target,
                       spent: nat, position: u64)
    requires !HasBit(h.qid.kind, QTDIR)
    ensures var (l', h') := ReadHandle(tree, l, rootFid, h, size, signedChar, stale, spent, position);
      l'.fids == l.fids && h'.isOpened == h.isOpened
  {
  }

  /** For every script of fates, a call keeps the session invariant if and only if code 0 does not mislead it. */
  lemma StepSafeIff<H(!new)>(tree: Tree, signedChar: bool, s: Session<H>, op: Op<H>)
    requires Safe(tree, s) && Applies(s, op) && Sound(op)
    requires Step(tree, signedChar, s, op).link.issued <= P9_NOFID
    ensures Safe(tree, Step(tree, signedChar, s, op)) <==> !Misled(tree, s, op)
  {
    match op
    case Open(_, _, _, _, _) => OpenSafeIff(tree, signedChar, s, op);
    case Read(_, _, _, _, _) => ReadSafeIff(tree, signedChar, s, op);
    case Close(_) => CloseSafe(tree, signedChar, s, op);
    case Seek(_, _) => SeekSafe(tree, signedChar, s, op);
  }

  /** No call of the run is misled. */
  predicate NeverMisled<H(==)>(tree: Tree, signedChar: bool, s: Session<H>, ops: seq<Op<H>>)
    requires RunApplies(tree, signedChar, s, ops)
    decreases |ops|
  {
    ops == [] || (!Misled(tree, s, ops[0])
                  && NeverMisled(tree, signedChar, Step(tree, signedChar, s, ops[0]), ops[1..]))
  }

  /** The invariant holds after every call of a run, for every script of fates, if and only if no call is misled. */
  lemma {:induction false} RunSafeIff<H(!new)>(tree: Tree, signedChar: bool, s: Session<H>, ops: seq<Op<H>>)
    requires Safe(tree, s) && AllSound(ops) && RunApplies(tree, signedChar, s, ops)
    requires Run(tree, signedChar, s, ops).link.issued <= P9_NOFID
    ensures SafeThroughout(tree, signedChar, s, ops) <==> NeverMisled(tree, signedChar, s, ops)
    decreases |ops|
  {
    hide Safe, Step, Misled, Sound;
    if ops != [] {
      var t := Step(tree, signedChar, s, ops[0]);
      RunIssues(tree, signedChar, t, ops[1..]);
      assert Sound(ops[0]);
      assert AllSound(ops[1..]);
      StepSafeIff(tree, signedChar, s, ops[0]);
      if Safe(tree, t) {
        RunSafeIff(tree, signedChar, t, ops[1..]);
      } else {
        UnsafeAtOnce(tree, signedChar, t, ops[1..]);
      }
    }
  }

  /** The invariant holds at the start and after every call. */
  ghost predicate SafeThroughout<H(!new)>(tree: Tree, signedChar: bool, s: Session<H>, ops: seq<Op<H>>)
    requires RunApplies(tree, signedChar, s, ops)
    decreases |ops|
  {
    Safe(tree, s)
    && (ops == [] || SafeThroughout(tree, signedChar, Step(tree, signedChar, s, ops[0]), ops[1..]))
  }

  lemma UnsafeAtOnce<H(!new)>(tree: Tree, signedChar: bool, s: Session<H>, ops: seq<Op<H>>)
    requires RunApplies(tree, signedChar, s, ops) && !Safe(tree, s)
    ensures !SafeThroughout(tree, signedChar, s, ops)
  {
    hide Safe, Step;
  }

  /** A one-component name that no special case of P9Walk catches. */
  predicate IsPlainName(name: Text) {
    IsComponent(name) && !IsDot(name) && !StartsWithDots(name)
  }

  lemma PlainNameWalks(tree: Tree, l: Link, rootFid: u32, fid: u32, name: Text, stale: Target)
    requires IsPlainName(name)
    ensures Walk(tree, l, rootFid, fid, name, stale) == WalkNames(tree, l, fid, [name], stale) && IsDefined(name)
  {
    OneComponent(name);
  }

  /** An Rlerror with code 0 is taken for success: the new handle has a fid that the server does not know. */
  lemma ZeroErrnoBreaksSafety<H(!new)>(tree: Tree, signedChar: bool, s: Session<H>, created: H, name: Text,
                                       stale: Target)
    requires Safe(tree, s) && created !in s.handles && IsPlainName(name)
    requires s.link.issued < P9_NOFID && s.link.fates == [Refused(0), Refused(0)]
    ensures var op := Op.Open(s.root, created, Some(name), EFI_FILE_MODE_READ, stale);
      var t := Step(tree, signedChar, s, op);
      && Applies(s, op) && Sound(op) && t.link.issued <= P9_NOFID
      && created in t.handles && t.handles[created].fid !in t.link.fids && !Safe(tree, t)
  {
    hide FileNameOf, Safe, Walk;
    SafeRoot(tree, s);
    var fid := RootFid(s);
    ZeroWalk(tree, s.link, fid, name, stale);
    var op := Op.Open(s.root, created, Some(name), EFI_FILE_MODE_READ, stale);
    var t := Step(tree, signedChar, s, op);
    assert t.link.fids == s.link.fids && t.handles[created].fid == s.link.issued;
    NotSafe(tree, t, created);
  }

  lemma ZeroWalk(tree: Tree, l: Link, fid: u32, name: Text, stale: Target)
    requires IsPlainName(name) && l.issued < P9_NOFID && l.fates == [Refused(0), Refused(0)]
    ensures Walk(tree, l, fid, fid, name, stale)
      == WalkResult(Success, Link(l.fids, l.issued + 1, [Refused(0)]), Target(l.issued, ZERO_QID)) && IsDefined(name)
  {
    PlainNameWalks(tree, l, fid, fid, name, stale);
    hide Walk, IsDefined, IsPlainName;
    assert [Refused(0), Refused(0)][1..] == [Refused(0)];
    assert [name][1..] == [];
  }

  lemma SafeRoot<H(!new)>(tree: Tree, s: Session<H>)
    requires Safe(tree, s)
    ensures s.root in s.handles && RootFid(s) in s.link.fids && Below(s.link)
    ensures s.link.fids[RootFid(s)].node == tree.root
  {
  }

  lemma NotSafe<H(!new)>(tree: Tree, s: Session<H>, h: H)
    requires h in s.handles && s.handles[h].fid !in s.link.fids
    ensures !Safe(tree, s)
  {
  }

  // ----- Wrap-around of the counter -----

  lemma LOpenNodes(tree: Tree, l: Link, fid: u32, qid: Qid)
    ensures var l' := LOpen(tree, l, fid, qid).1;
      forall f :: (f in l'.fids <==> f in l.fids) && (f in l.fids ==> l'.fids[f].node == l.fids[f].node)
  {
  }

  /**
   For every counter, table and script: P9Open takes no fid from the node it stands for, except
   exactly when the counter has come round to the fid that its walk starts from, the first walk
   reaches the server and its name leads to another node. Any other number in use is refused.
   */
  lemma OpenKeepsIff(tree: Tree, l: Link, rootFid: u32, fid: u32, name: Option<Text>, mode: u64, stale: Target)
    ensures Extends(l.fids, OpenFile(tree, l, rootFid, fid, name, mode, stale).link.fids)
      <==> !(name.Some? && mode == EFI_FILE_MODE_READ && !Guarded(rootFid, fid, name.value)
             && MovesStart(tree, l, StartFid(rootFid, fid, name.value), Route(name.value)))
  {
    hide Walk, LOpen, FileNameOf, MovesStart, Guarded, StartFid, Route;
    if name.Some? && mode == EFI_FILE_MODE_READ {
      var w := Walk(tree, l, rootFid, fid, name.value, stale);
      WalkKeepsIff(tree, l, rootFid, fid, name.value, stale);
      LOpenNodes(tree, w.link, w.target.fid, w.target.qid);
    }
  }

  /**
   Once the 32-bit counter has wrapped around to the root's fid, opening a file from the root makes
   the server move the root's fid to that file.
   */
  lemma WrappedCounterMovesRoot<H(!new)>(tree: Tree, signedChar: bool, s: Session<H>, created: H, name: Text,
                                         stale: Target)
    requires Safe(tree, s) && created !in s.handles && IsPlainName(name)
    requires s.link.issued == 0x1_0000_0000 + RootFid(s) && RootFid(s) != P9_NOFID
    requires Healthy(s.link, 2)
    requires tree.child(tree.root, Narrow(name)).Some? && tree.child(tree.root, Narrow(name)).value != tree.root
    ensures var op := Op.Open(s.root, created, Some(name), EFI_FILE_MODE_READ, stale);
      var t := Step(tree, signedChar, s, op);
      && Applies(s, op) && Sound(op)
      && RootFid(t) in t.link.fids && t.link.fids[RootFid(t)].node == tree.child(tree.root, Narrow(name)).value
      && !Safe(tree, t)
  {
    hide FileNameOf, Safe, Walk;
    SafeRoot(tree, s);
    var fid, n := RootFid(s), tree.child(tree.root, Narrow(name)).value;
    WrappedWalk(tree, s.link, fid, name, stale);
    var l1 := Link(s.link.fids[fid := FidState(n, false)], s.link.issued + 1, s.link.fates[1..]);
    assert FateOf(l1).Served?;
    var t := Step(tree, signedChar, s, Op.Open(s.root, created, Some(name), EFI_FILE_MODE_READ, stale));
    assert t.link.fids == l1.fids[fid := FidState(n, true)] && RootFid(t) == fid;
    MovedRoot(tree, t);
  }

  lemma WrappedWalk(tree: Tree, l: Link, fid: u32, name: Text, stale: Target)
    requires IsPlainName(name) && fid in l.fids && MFid(l) == fid != P9_NOFID && Healthy(l, 1)
    requires tree.child(l.fids[fid].node, Narrow(name)).Some?
    ensures IsDefined(name)
    ensures var n := tree.child(l.fids[fid].node, Narrow(name)).value;
      Walk(tree, l, fid, fid, name, stale)
      == WalkResult(Success, Link(l.fids[fid := FidState(n, false)], l.issued + 1, l.fates[1..]),
                    Target(fid, tree.qid(n)))
  {
    PlainNameWalks(tree, l, fid, fid, name, stale);
    hide Walk, IsDefined, IsPlainName;
    assert FateOf(AfterGetFid(l)).Served?;
    assert [name][1..] == [];
    assert name != [] by { PlainNotEmpty(name); }
  }

  lemma PlainNotEmpty(name: Text)
    requires IsPlainName(name)
    ensures name != []
  {
  }

  lemma MovedRoot<H(!new)>(tree: Tree, s: Session<H>)
    requires s.root in s.handles && RootFid(s) in s.link.fids && s.link.fids[RootFid(s)].node != tree.root
    ensures !Safe(tree, s)
  {
  }

  /** The path ".\." */
  const DOT_DOT_PATH: Text := [DOT, SEP, DOT]

  lemma TwoDotsSpelled()
    ensures AreComponents([[DOT], [DOT]]) && Spell([[DOT], [DOT]], [1, 0]) == DOT_DOT_PATH
  {
    var cs: seq<Text> := [[DOT], [DOT]];
    assert IsComponent([DOT]);
    assert cs[1..] == [[DOT]] && [1, 0][1..] == [0] && [[DOT]][1..] == [];
    assert Spell([[DOT]], [0]) == [DOT];
  }

  lemma DotDotPathUndefined()
    ensures !IsDefined(DOT_DOT_PATH) && !StartsWithDots(DOT_DOT_PATH)
  {
    hide Spell, Scan;
    var cs: seq<Text> := [[DOT], [DOT]];
    TwoDotsSpelled();
    ScanInvertsSpell(cs, [1, 0]);
    NonDotDot();
    NonDotConcat([[DOT]], [[DOT]]);
    assert cs == [[DOT]] + [[DOT]];
  }

  /**
   Opening ".\." hands out whatever NewFid happened to hold. If that is the root's fid, two handles
   share it, and closing the new one takes the root's fid away.
   */
  lemma UnsetTargetClunksRoot<H(!new)>(tree: Tree, signedChar: bool, s: Session<H>, created: H, qid: Qid)
    requires Safe(tree, s) && created !in s.handles && Healthy(s.link, 2) && !s.link.fids[RootFid(s)].isOpen
    ensures var open := Op.Open(s.root, created, Some(DOT_DOT_PATH), EFI_FILE_MODE_READ, Target(RootFid(s), qid));
      && Applies(s, open)
      && var t := Step(tree, signedChar, s, open);
      && t.link.issued == s.link.issued && created in t.handles && t.handles[created].fid == RootFid(t)
      && Applies(t, Op.Close(created))
      && RootFid(t) !in Step(tree, signedChar, t, Op.Close(created)).link.fids
  {
    hide FileNameOf;
    var fid := RootFid(s);
    DotDotPathUndefined();
    TargetSetIff(tree, s.link, fid, fid, DOT_DOT_PATH);
    assert FateOf(s.link).Served?;
    var w := Walk(tree, s.link, fid, fid, DOT_DOT_PATH, Target(fid, qid));
    assert w == WalkResult(Success, s.link, Target(fid, qid));
    var op := Op.Open(s.root, created, Some(DOT_DOT_PATH), EFI_FILE_MODE_READ, Target(fid, qid));
    var t := Step(tree, signedChar, s, op);
    assert t.link.fates == s.link.fates[1..];
    assert FateOf(t.link).Served?;
  }
}
