/** What a walk leaves on the server for every script of fates: the fids it binds, those it moves, and dead ones. */
module WalkFates {
  import opened Ints
  import opened Statuses
  import opened Paths
  import opened P9Strings
  import opened Protocol
  import opened Walking
  import opened WalkLaws

  /** The request reaches the server, which answers it by the protocol, heard or not. */
  predicate Reaches(f: Fate) { f.Served? || f.LostReply? }

  function FateAt(fates: seq<Fate>, i: nat): Fate { if i < |fates| then fates[i] else NotSent }

  /** The node that a fid stands for, if it is live. */
  function NodeAt(fids: Table, fid: nat): Option<Node> { if fid in fids then Some(fids[fid].node) else None }

  function ChildOf(tree: Tree, node: Option<Node>, name: Text): Option<Node> {
    if node.None? then None else tree.child(node.value, Narrow(name))
  }

  /** Number of walk requests that the server acts on: all must be served but the last, whose reply may be lost. */
  function Acted(tree: Tree, fates: seq<Fate>, node: Option<Node>, names: seq<Text>): (n: nat)
    ensures n <= |names|
    decreases |names|
  {
    if names == [] || ChildOf(tree, node, names[0]).None? || !Reaches(FateAt(fates, 0)) then 0
    else if fates[0].LostReply? then 1
    else 1 + Acted(tree, fates[1..], ChildOf(tree, node, names[0]), names[1..])
  }

  // ----- Fids bound -----

  /** One step from any fid, live or not, with any fate. */
  lemma StepByFate(tree: Tree, l: Link, fid: u32, name: Text)
    requires Below(l) && l.issued < P9_NOFID && name != []
    ensures var (status, l', qid) := DoP9Walk(tree, AfterGetFid(l), fid, MFid(l), name);
      var f, child := FateAt(l.fates, 0), ChildOf(tree, NodeAt(l.fids, fid), name);
      && MFid(l) == l.issued && l.issued !in l.fids && l' == Link(l'.fids, l.issued + 1, Spent(l).fates) && Below(l')
      && l'.fids == (if Reaches(f) && child.Some? then l.fids[l.issued := FidState(child.value, false)] else l.fids)
      && (status == Success <==> (f.Served? && child.Some?) || f == Refused(0))
  {
  }

  /** The loop binds consecutive fids from the counter on, one for each request that the server acts on. */
  lemma {:induction false} WalkNamesBinds(tree: Tree, l: Link, fid: u32, names: seq<Text>, target: Target)
    requires Below(l) && AreComponents(names)
    requires WalkNames(tree, l, fid, names, target).link.issued <= P9_NOFID
    ensures var r := WalkNames(tree, l, fid, names, target);
      && AddsRange(l.fids, r.link.fids, l.issued, Acted(tree, l.fates, NodeAt(l.fids, fid), names))
      && Below(r.link)
    decreases |names|
  {
    hide AddsRange, WalkNames;
    AddsNothing(l.fids, l.issued);
    WalkNamesUnfold(tree, l, fid, names, target);
    if names != [] {
      assert IsComponent(names[0]);
      WalkNamesIssues(tree, l, fid, names, target);
      StepByFate(tree, l, fid, names[0]);
      hide DoP9Walk, MFid, Below;
      var newFid, child := MFid(l), ChildOf(tree, NodeAt(l.fids, fid), names[0]);
      var (status, l', qid) := DoP9Walk(tree, AfterGetFid(l), fid, newFid, names[0]);
      if status == Success {
        WalkNamesBinds(tree, l', newFid, names[1..], Target(newFid, qid));
        var after := WalkNames(tree, l', newFid, names[1..], Target(newFid, qid)).link.fids;
        if FateAt(l.fates, 0).Served? {
          AddsRangeStep(l.fids, FidState(child.value, false), after, l.issued,
            Acted(tree, l.fates[1..], child, names[1..]));
        } else {
          AddsNone(l.fids, after, l.issued + 1, l.issued);
        }
      } else if Reaches(FateAt(l.fates, 0)) && child.Some? {
        AddsRangeStep1(l.fids, FidState(child.value, false), l.issued);
      }
    }
  }

  lemma AddsNone(before: Table, after: Table, first: nat, other: nat)
    requires AddsRange(before, after, first, 0)
    ensures AddsRange(before, after, other, 0)
  {
  }

  /** Number of fids that P9Walk binds. */
  function WalkBinds(tree: Tree, l: Link, rootFid: u32, fid: u32, path: Text): nat {
    var node := NodeAt(l.fids, StartFid(rootFid, fid, path));
    if path == [] || Guarded(rootFid, fid, path) then 0
    else if IsSpecial(path) then (if node.Some? && Reaches(FateAt(l.fates, 0)) then 1 else 0)
    else Acted(tree, l.fates, node, Route(path))
  }

  lemma CloneByFate(tree: Tree, l: Link, fid: u32)
    requires Below(l) && l.issued < P9_NOFID
    ensures var r := CloneFid(tree, l, fid);
      && r.link == Link(r.link.fids, l.issued + 1, Spent(l).fates) && r.target.fid == l.issued && l.issued !in l.fids
      && r.link.fids == (if Reaches(FateAt(l.fates, 0)) && fid in l.fids
                         then l.fids[l.issued := FidState(l.fids[fid].node, false)] else l.fids)
      && (r.status == Success <==> FateAt(l.fates, 0).Served? && fid in l.fids)
  {
  }

  /** P9Walk keeps every fid and binds, for every script, exactly as many consecutive new ones as WalkBinds says. */
  lemma WalkBindsExactly(tree: Tree, l: Link, rootFid: u32, fid: u32, path: Text, stale: Target)
    requires Below(l) && Walk(tree, l, rootFid, fid, path, stale).link.issued <= P9_NOFID
    ensures var r := Walk(tree, l, rootFid, fid, path, stale);
      AddsRange(l.fids, r.link.fids, l.issued, WalkBinds(tree, l, rootFid, fid, path)) && Below(r.link)
  {
    hide AddsRange, Scan, NonDot, CloneFid;
    AddsNothing(l.fids, l.issued);
    if IsSpecial(path) {
      var start := StartFid(rootFid, fid, path);
      CloneIssues(tree, l, start);
      CloneByFate(tree, l, start);
      if start in l.fids {
        AddsRangeStep1(l.fids, FidState(l.fids[start].node, false), l.issued);
      }
    } else if path != [] && !Guarded(rootFid, fid, path) {
      NamesAreComponents(Relative(path));
      WalkNamesBinds(tree, l, StartFid(rootFid, fid, path), Names(Relative(path)), stale);
    }
  }

  lemma CloneIssues(tree: Tree, l: Link, fid: u32)
    ensures CloneFid(tree, l, fid).link.issued == l.issued + 1
  {
  }

  /** Over served exchanges the fids bound are those of the names that resolve. */
  lemma {:induction false} ActedServed(tree: Tree, fates: seq<Fate>, node: Node, names: seq<Text>)
    requires |names| <= |fates| && forall i :: 0 <= i < |names| ==> fates[i].Served?
    ensures Acted(tree, fates, Some(node), names) == Reached(tree, node, names)
    decreases |names|
  {
    if names != [] {
      var child := tree.child(node, Narrow(names[0]));
      if child.Some? {
        ActedServed(tree, fates[1..], child.value, names[1..]);
      }
    }
  }

  /** With a server whose only errors are missing components, the tree alone decides how many fids are bound. */
  lemma WalkBindsServed(tree: Tree, l: Link, rootFid: u32, fid: u32, path: Text)
    requires WalkReady(l, rootFid, fid, path)
    ensures WalkBinds(tree, l, rootFid, fid, path) == FidsLeft(tree, l, rootFid, fid, path)
  {
    hide Scan, NonDot;
    if path != [] && !IsSpecial(path) && !Guarded(rootFid, fid, path) {
      ActedServed(tree, l.fates, StartNode(l, rootFid, fid, path), Route(path));
    }
  }

  // ----- Fids that do not exist -----

  /**
   A successful loop ends at a fid that is live exactly when the last walk was not answered by an
   Rlerror with code 0; then every walk was served, and the fid is bound to the node that the names
   resolve to. Names that resolve over served walks give success.
   */
  lemma {:induction false} WalkNamesLiveIff(tree: Tree, l: Link, fid: u32, names: seq<Text>, target: Target)
    requires Below(l) && AreComponents(names) && names != []
    requires WalkNames(tree, l, fid, names, target).link.issued <= P9_NOFID
    ensures var r := WalkNames(tree, l, fid, names, target);
      && (Healthy(l, |names|) && fid in l.fids && Resolve(tree, l.fids[fid].node, names).Some? ==> r.status == Success)
      && (r.status == Success ==>
        && |names| <= |l.fates| && r.link == Link(r.link.fids, l.issued + |names|, l.fates[|names|..])
        && r.target.fid == l.issued + |names| - 1
        && (r.target.fid in r.link.fids <==> l.fates[|names| - 1] != Refused(0))
        && (r.target.fid in r.link.fids ==>
              && fid in l.fids && Resolve(tree, l.fids[fid].node, names).Some? && Healthy(l, |names|)
              && r.link.fids[r.target.fid] == FidState(Resolve(tree, l.fids[fid].node, names).value, false)))
    decreases |names|
  {
    hide WalkNames, Healthy;
    WalkNamesUnfold(tree, l, fid, names, target);
    assert IsComponent(names[0]);
    WalkNamesIssues(tree, l, fid, names, target);
    StepByFate(tree, l, fid, names[0]);
    hide DoP9Walk, MFid, Below;
    var newFid := MFid(l);
    var (status, l', qid) := DoP9Walk(tree, AfterGetFid(l), fid, newFid, names[0]);
    HealthyCons(l, l', |names|);
    if |names| == 1 {
      assert names[1..] == [];
      WalkNamesUnfold(tree, l', newFid, [], Target(newFid, qid));
    } else if status == Success {
      WalkNamesLiveIff(tree, l', newFid, names[1..], Target(newFid, qid));
    }
  }

  lemma HealthyCons(l: Link, l': Link, n: nat)
    requires 0 < n && l'.fates == Spent(l).fates
    ensures Healthy(l, n) <==> FateAt(l.fates, 0).Served? && Healthy(l', n - 1)
    ensures n == 1 ==> Healthy(l', n - 1)
  {
    if FateAt(l.fates, 0).Served? && Healthy(l', n - 1) {
      assert forall i :: 0 < i < n ==> l.fates[i] == l'.fates[i - 1];
    }
    if Healthy(l, n) {
      assert forall i :: 0 <= i < n - 1 ==> l'.fates[i] == l.fates[i + 1];
    }
  }

  /** The same for P9Walk on every path that sets NewFid. */
  lemma WalkLiveIff(tree: Tree, l: Link, rootFid: u32, fid: u32, path: Text, stale: Target)
    requires Below(l) && IsDefined(path) && Walk(tree, l, rootFid, fid, path, stale).link.issued <= P9_NOFID
    ensures var r, start := Walk(tree, l, rootFid, fid, path, stale), StartFid(rootFid, fid, path);
      && (WalkServed(tree, l, rootFid, fid, path) ==> r.status == Success)
      && (r.status == Success ==>
        && 0 < FidCost(path) <= |l.fates|
        && r.link == Link(r.link.fids, l.issued + FidCost(path), l.fates[FidCost(path)..])
        && r.target.fid == l.issued + FidCost(path) - 1
        && (r.target.fid in r.link.fids <==> l.fates[FidCost(path) - 1] != Refused(0))
        && (r.target.fid in r.link.fids ==>
              && WalkServed(tree, l, rootFid, fid, path)
              && r.link.fids[r.target.fid] == FidState(Resolve(tree, l.fids[start].node, Route(path)).value, false)))
  {
    hide Scan, NonDot, CloneFid, Names;
    NamesAreComponents(Relative(path));
    if IsSpecial(path) {
      var start := StartFid(rootFid, fid, path);
      CloneIssues(tree, l, start);
      CloneByFate(tree, l, start);
    } else if path != [] && !Guarded(rootFid, fid, path) {
      WalkNamesLiveIff(tree, l, StartFid(rootFid, fid, path), Route(path), stale);
    }
  }

  /** Every walk for the path is served, from a live fid, and the path resolves past the guard. */
  predicate WalkServed(tree: Tree, l: Link, rootFid: u32, fid: u32, path: Text) {
    var start := StartFid(rootFid, fid, path);
    && path != [] && !Guarded(rootFid, fid, path) && Healthy(l, FidCost(path))
    && start in l.fids && Resolve(tree, l.fids[start].node, Route(path)).Some?
  }

  // ----- The course of a walk, by fates -----

  /**
   What an exchange whose receive buffer has room for an Rlerror makes of its fate, if the server
   would refuse the request with the given code, or carry it out for code 0.
   */
  function Answered(f: Fate, refusal: u32): Status {
    match f
    case Served(_) => CodeStatus(refusal)
    case Refused(ecode) => CodeStatus(ecode)
    case NotSent => TransportError
    case LostReply => TransportError
  }

  /** The same for a buffer of less than 11 bytes. */
  function AnsweredShort(f: Fate, refusal: u32): Status {
    match f
    case Served(_) => if refusal == 0 then Success else BufferTooSmall
    case Refused(_) => BufferTooSmall
    case NotSent => TransportError
    case LostReply => TransportError
  }

  /** What the server knows of a fid. */
  function StateAt(fids: Table, fid: nat): Option<FidState> { if fid in fids then Some(fids[fid]) else None }

  /**
   A walk fails with a status, or ends at a fid in some state, or at one that the server does not
   know, because an Rlerror with code 0 was taken for success.
   */
  datatype Course = Fails(status: Status) | Ends(state: Option<FidState>) {
    function Outcome(): Status { if Fails? then status else Success }

    /** The node at the end. */
    function Node(): Option<Node> { if Ends? && state.Some? then Some(state.value.node) else None }
  }

  /** The code with which the server refuses a walk from source to the fid number n because of the fids in use. */
  predicate Busy(used: set<nat>, source: nat, n: nat) { n == 0xFFFF_FFFF || (n in used && n != source) }

  /** The course over the names from a fid that stands for node, or for nothing. */
  function CourseFrom(tree: Tree, fates: seq<Fate>, used: set<nat>, issued: nat, source: nat, state: Option<FidState>,
                      names: seq<Text>): (c: Course)
    ensures c.Fails? ==> c.status != Success
    decreases |names|
  {
    var n := issued % 0x1_0000_0000;
    if names == [] then Ends(state)
    else match FateAt(fates, 0)
      case NotSent => Fails(TransportError)
      case LostReply => Fails(TransportError)
      case Refused(ecode) =>
        if ecode != 0 then Fails(CodeStatus(ecode))
        else CourseFrom(tree, fates[1..], used, issued + 1, n, None, names[1..])
      case Served(_) =>
        if state.None? || Busy(used, source, n) then Fails(DeviceError)
        else match tree.child(state.value.node, Narrow(names[0]))
          case None => Fails(NotFound)
          case Some(c) =>
            CourseFrom(tree, fates[1..], used + {n}, issued + 1, n, Some(FidState(c, false)), names[1..])
  }

  /** The course of P9Walk for a path; a path that names nothing "succeeds" at the fid that NewFid held. */
  function CourseOf(tree: Tree, l: Link, rootFid: u32, fid: u32, path: Text, stale: Target): (c: Course)
    ensures c.Fails? ==> c.status != Success
  {
    var start := StartFid(rootFid, fid, path);
    var state := StateAt(l.fids, start);
    if path == [] then Fails(InvalidParameter)
    else if Guarded(rootFid, fid, path) then Fails(NotFound)
    else if IsSpecial(path) then
      var refused := state.None? || Busy(l.fids.Keys, start, l.issued % 0x1_0000_0000);
      var status := AnsweredShort(FateAt(l.fates, 0), if refused then EBADF else 0);
      if status != Success then Fails(status) else Ends(Some(FidState(state.value.node, false)))
    else if Route(path) == [] then Ends(StateAt(l.fids, stale.fid))
    else CourseFrom(tree, l.fates, l.fids.Keys, l.issued, start, state, Route(path))
  }

  /** No code 0 is met, or the counter has not come round: then fids can be followed by their numbers. */
  predicate Followed(before: Link, after: Link) {
    ErrnosNonZero(before.fates) || (Below(before) && after.issued <= P9_NOFID)
  }

  /** One step with any fate and any counter. */
  lemma StepCourse(tree: Tree, l: Link, fid: u32, name: Text)
    requires name != []
    ensures var (status, l', qid) := DoP9Walk(tree, AfterGetFid(l), fid, MFid(l), name);
      var n, f, state := MFid(l), FateAt(l.fates, 0), StateAt(l.fids, fid);
      var child := if state.None? then None else tree.child(state.value.node, Narrow(name));
      && l'.issued == l.issued + 1 && l'.fates == Spent(l).fates
      && status == (match f
                    case NotSent => TransportError
                    case LostReply => TransportError
                    case Refused(ecode) => CodeStatus(ecode)
                    case Served(_) => if state.None? || Busy(l.fids.Keys, fid, n) then DeviceError
                                      else if child.None? then NotFound else Success)
      && (status == Success ==> l'.fids == if f.Served? then l.fids[n := FidState(child.value, false)] else l.fids)
  {
  }

  lemma StepFollowed(tree: Tree, l: Link, fid: u32, name: Text, after: Link)
    requires name != [] && Followed(l, after) && l.issued < after.issued
    ensures var (status, l', qid) := DoP9Walk(tree, AfterGetFid(l), fid, MFid(l), name);
      && (status == Success ==> Followed(l', after))
      && (FateAt(l.fates, 0) == Refused(0) ==> MFid(l) !in l.fids)
  {
    ErrnosTail(l);
  }

  /** Every loop takes its course, and a success has used one exchange for each name. */
  lemma {:induction false} WalkNamesCourse(tree: Tree, l: Link, fid: u32, names: seq<Text>, target: Target)
    requires AreComponents(names) && Followed(l, WalkNames(tree, l, fid, names, target).link)
    ensures var r := WalkNames(tree, l, fid, names, target);
      var c := CourseFrom(tree, l.fates, l.fids.Keys, l.issued, fid, StateAt(l.fids, fid), names);
      && r.status == c.Outcome()
      && (c.Ends? ==> |names| <= |l.fates| && r.link.fates == l.fates[|names|..]
                      && (names != [] ==> StateAt(r.link.fids, r.target.fid) == c.state))
    decreases |names|
  {
    hide WalkNames, Followed, Busy;
    WalkNamesUnfold(tree, l, fid, names, target);
    if names != [] {
      assert IsComponent(names[0]);
      var r := WalkNames(tree, l, fid, names, target);
      WalkNamesIssues(tree, l, fid, names, target);
      StepCourse(tree, l, fid, names[0]);
      StepFollowed(tree, l, fid, names[0], r.link);
      assert MFid(l) == l.issued % 0x1_0000_0000;
      hide DoP9Walk, Below, MFid;
      var newFid, f := MFid(l), FateAt(l.fates, 0);
      var (status, l', qid) := DoP9Walk(tree, AfterGetFid(l), fid, newFid, names[0]);
      if status == Success {
        assert f.Served? ==> l'.fids.Keys == l.fids.Keys + {newFid};
        WalkNamesUnfold(tree, l', newFid, [], Target(newFid, qid));
        WalkNamesCourse(tree, l', newFid, names[1..], Target(newFid, qid));
      }
    }
  }

  lemma CloneCourse(tree: Tree, l: Link, fid: u32)
    ensures var r, state := CloneFid(tree, l, fid), StateAt(l.fids, fid);
      var refused := state.None? || Busy(l.fids.Keys, fid, MFid(l));
      && r.status == AnsweredShort(FateAt(l.fates, 0), if refused then EBADF else 0)
      && (r.status == Success ==> l.fates != [] && r.link.fates == l.fates[1..] && state.Some?
                                  && StateAt(r.link.fids, r.target.fid) == Some(FidState(state.value.node, false)))
  {
  }

  /**
   P9Walk takes the course that the fates, the tree and the fids in use give it: its status is that
   of the first exchange that fails, and its target is the fid where the course ends.
   */
  lemma WalkCourse(tree: Tree, l: Link, rootFid: u32, fid: u32, path: Text, stale: Target)
    requires Followed(l, Walk(tree, l, rootFid, fid, path, stale).link)
    ensures var r, c := Walk(tree, l, rootFid, fid, path, stale), CourseOf(tree, l, rootFid, fid, path, stale);
      && r.status == c.Outcome()
      && (c.Ends? ==> FidCost(path) <= |l.fates| && r.link.fates == l.fates[FidCost(path)..]
                      && StateAt(r.link.fids, r.target.fid) == c.state)
  {
    hide Scan, NonDot, CloneFid, Names, CourseFrom, WalkNames, Followed;
    var start := StartFid(rootFid, fid, path);
    NamesAreComponents(Relative(path));
    if IsSpecial(path) {
      CloneCourse(tree, l, start);
    } else if path != [] && !Guarded(rootFid, fid, path) {
      WalkNamesUnfold(tree, l, start, Route(path), stale);
      WalkNamesCourse(tree, l, start, Route(path), stale);
    }
  }

  // ----- Any value of the counter -----

  /** Every fid is as before, and the counter still is above them; code 0 does not come from nowhere. */
  ghost predicate Untouched(before: Link, after: Link) {
    && (forall f :: f in before.fids ==> f in after.fids && after.fids[f] == before.fids[f])
    && (Below(before) ==> Below(after))
    && (ErrnosNonZero(before.fates) ==> ErrnosNonZero(after.fates))
  }

  lemma UntouchedTransitive(a: Link, b: Link, c: Link)
    requires Untouched(a, b) && Untouched(b, c)
    ensures Untouched(a, c)
  {
  }

  /** One step with any counter, over a table that may hold its number. */
  lemma StepAnyCounter(tree: Tree, l: Link, fid: u32, name: Text)
    requires ErrnosNonZero(l.fates) && name != []
    ensures var (status, l', qid) := DoP9Walk(tree, AfterGetFid(l), fid, MFid(l), name);
      var n, f, child := MFid(l), FateAt(l.fates, 0), ChildOf(tree, NodeAt(l.fids, fid), name);
      var binds := Reaches(f) && child.Some? && n != P9_NOFID && (n == fid || n !in l.fids);
      && l'.fids == (if binds then l.fids[n := FidState(child.value, false)] else l.fids)
      && MFid(l') != n && l'.fates == Spent(l).fates && ErrnosNonZero(l'.fates) && (Below(l) ==> Below(l'))
      && (status == Success <==> binds && f.Served?)
  {
    ErrnosTail(l);
  }

  lemma StepUntouched(tree: Tree, l: Link, fid: u32, name: Text)
    requires ErrnosNonZero(l.fates) && name != [] && MFid(l) != fid
    ensures Untouched(l, DoP9Walk(tree, AfterGetFid(l), fid, MFid(l), name).1)
  {
    StepAnyCounter(tree, l, fid, name);
    hide DoP9Walk, ErrnosNonZero, Below;
  }

  /**
   With any counter, a loop that does not start from the fid that the counter has come round to
   touches no fid that exists, and a success binds a new fid to the node resolved.
   */
  lemma {:induction false} WalkNamesAnyCounter(tree: Tree, l: Link, fid: u32, names: seq<Text>, target: Target)
    requires ErrnosNonZero(l.fates) && AreComponents(names) && MFid(l) != fid
    ensures var r := WalkNames(tree, l, fid, names, target);
      && Untouched(l, r.link)
      && (r.status == Success && names != [] ==>
            && fid in l.fids && Resolve(tree, l.fids[fid].node, names).Some?
            && |names| <= |l.fates| && r.link.fates == l.fates[|names|..]
            && r.target.fid !in l.fids && r.target.fid in r.link.fids
            && r.link.fids[r.target.fid] == FidState(Resolve(tree, l.fids[fid].node, names).value, false))
    decreases |names|
  {
    hide WalkNames, Untouched, ErrnosNonZero, Below;
    WalkNamesUnfold(tree, l, fid, names, target);
    if names == [] {
      UntouchedReflexive(l);
    } else {
      assert IsComponent(names[0]);
      StepAnyCounter(tree, l, fid, names[0]);
      StepUntouched(tree, l, fid, names[0]);
      hide DoP9Walk, MFid;
      var newFid := MFid(l);
      var (status, l', qid) := DoP9Walk(tree, AfterGetFid(l), fid, newFid, names[0]);
      if status == Success {
        WalkNamesUnfold(tree, l', newFid, [], Target(newFid, qid));
        assert |names| == 1 ==> names[1..] == [];
        WalkNamesAnyCounter(tree, l', newFid, names[1..], Target(newFid, qid));
        var r := WalkNames(tree, l', newFid, names[1..], Target(newFid, qid));
        UntouchedTransitive(l, l', r.link);
        UntouchedFids(l', r.link);
      }
    }
  }

  lemma UntouchedReflexive(l: Link)
    ensures Untouched(l, l)
  {
  }

  lemma UntouchedFids(before: Link, after: Link)
    requires Untouched(before, after)
    ensures forall f :: f in before.fids ==> f in after.fids && after.fids[f] == before.fids[f]
    ensures Below(before) ==> Below(after)
    ensures ErrnosNonZero(before.fates) ==> ErrnosNonZero(after.fates)
  {
    hide Below, ErrnosNonZero;
  }

  // ----- Walks that start from the fid that the counter has come round to -----

  /** The node to which the first request of the walk for a path leads, if it names one. */
  function FirstNode(tree: Tree, l: Link, rootFid: u32, fid: u32, path: Text): Option<Node> {
    var node := NodeAt(l.fids, StartFid(rootFid, fid, path));
    if path == [] || Guarded(rootFid, fid, path) then None
    else if IsSpecial(path) then node
    else if Route(path) == [] then None
    else ChildOf(tree, node, Route(path)[0])
  }

  /** The walk for a path binds its own start fid anew. */
  predicate TakesStart(tree: Tree, l: Link, rootFid: u32, fid: u32, path: Text) {
    && MFid(l) == StartFid(rootFid, fid, path) != P9_NOFID && Reaches(FateAt(l.fates, 0))
    && FirstNode(tree, l, rootFid, fid, path).Some?
  }

  /** What the table holds after a walk from start, of which first is the node it may have been bound to anew. */
  ghost predicate TakenFrom(l: Link, after: Link, start: nat, taken: bool, first: Option<Node>) {
    && (forall f :: f in l.fids && !(taken && f == start) ==> f in after.fids && after.fids[f] == l.fids[f])
    && (taken ==> first.Some? && start in after.fids && after.fids[start] == FidState(first.value, false))
    && (Below(l) ==> Below(after)) && ErrnosNonZero(after.fates)
  }

  lemma CloneAnyCounter(tree: Tree, l: Link, fid: u32)
    requires ErrnosNonZero(l.fates)
    ensures var r, n := CloneFid(tree, l, fid), MFid(l);
      var taken := n == fid != P9_NOFID && Reaches(FateAt(l.fates, 0)) && fid in l.fids;
      && TakenFrom(l, r.link, fid, taken, NodeAt(l.fids, fid))
      && (r.status == Success ==>
            && fid in l.fids && |l.fates| > 0 && r.link.fates == l.fates[1..] && r.target.fid == n
            && n in r.link.fids && r.link.fids[n] == FidState(l.fids[fid].node, false) && (n in l.fids <==> taken))
      && (taken ==> (r.status == Success <==> FateAt(l.fates, 0).Served?))
  {
    ErrnosTail(l);
  }

  lemma NamesAfterStart(tree: Tree, l: Link, fid: u32, names: seq<Text>, target: Target)
    requires ErrnosNonZero(l.fates) && AreComponents(names) && names != []
    ensures var r, child := WalkNames(tree, l, fid, names, target), ChildOf(tree, NodeAt(l.fids, fid), names[0]);
      var taken := MFid(l) == fid != P9_NOFID && Reaches(FateAt(l.fates, 0)) && child.Some?;
      && TakenFrom(l, r.link, fid, taken, child)
      && (r.status == Success ==>
            && fid in l.fids && Resolve(tree, l.fids[fid].node, names).Some?
            && |names| <= |l.fates| && r.link.fates == l.fates[|names|..]
            && r.target.fid in r.link.fids
            && r.link.fids[r.target.fid] == FidState(Resolve(tree, l.fids[fid].node, names).value, false)
            && (r.target.fid in l.fids <==> taken && |names| == 1) && (taken && |names| == 1 ==> r.target.fid == fid))
      && (taken && |names| == 1 ==> (r.status == Success <==> FateAt(l.fates, 0).Served?))
  {
    hide WalkNames, ErrnosNonZero, Below, Untouched;
    WalkNamesUnfold(tree, l, fid, names, target);
    assert IsComponent(names[0]);
    StepAnyCounter(tree, l, fid, names[0]);
    hide DoP9Walk, MFid;
    var newFid := MFid(l);
    var (status, l', qid) := DoP9Walk(tree, AfterGetFid(l), fid, newFid, names[0]);
    if status == Success {
      WalkNamesUnfold(tree, l', newFid, [], Target(newFid, qid));
      assert |names| == 1 ==> names[1..] == [];
      WalkNamesAnyCounter(tree, l', newFid, names[1..], Target(newFid, qid));
      UntouchedFids(l', WalkNames(tree, l', newFid, names[1..], Target(newFid, qid)).link);
    }
  }

  /**
   P9Walk with any counter: all fids stay as they are but its own start fid, which is bound anew
   exactly when TakesStart says so. A success ends at a fid bound to the node resolved; it is one
   that existed before exactly when the walk has one step and takes its start.
   */
  lemma WalkAnyCounter(tree: Tree, l: Link, rootFid: u32, fid: u32, path: Text, stale: Target)
    requires ErrnosNonZero(l.fates)
    ensures var r, start := Walk(tree, l, rootFid, fid, path, stale), StartFid(rootFid, fid, path);
      var taken := TakesStart(tree, l, rootFid, fid, path);
      && TakenFrom(l, r.link, start, taken, FirstNode(tree, l, rootFid, fid, path))
      && (r.status == Success && IsDefined(path) ==>
            && path != [] && !Guarded(rootFid, fid, path)
            && start in l.fids && Resolve(tree, l.fids[start].node, Route(path)).Some?
            && 0 < FidCost(path) <= |l.fates| && r.link.fates == l.fates[FidCost(path)..]
            && r.target.fid in r.link.fids
            && r.link.fids[r.target.fid] == FidState(Resolve(tree, l.fids[start].node, Route(path)).value, false)
            && (r.target.fid in l.fids <==> taken && FidCost(path) == 1)
            && (taken && FidCost(path) == 1 ==> r.target.fid == start))
      && (taken && FidCost(path) == 1 ==> (r.status == Success <==> FateAt(l.fates, 0).Served?))
  {
    hide Scan, NonDot, CloneFid, Names, WalkNames, TakenFrom, ErrnosNonZero;
    var start := StartFid(rootFid, fid, path);
    NamesAreComponents(Relative(path));
    NothingTaken(l, start, FirstNode(tree, l, rootFid, fid, path));
    if IsSpecial(path) {
      CloneAnyCounter(tree, l, start);
    } else if path != [] && !Guarded(rootFid, fid, path) {
      if Route(path) != [] {
        NamesAfterStart(tree, l, start, Route(path), stale);
      } else {
        WalkNamesUnfold(tree, l, start, Route(path), stale);
      }
    }
  }

  lemma NothingTaken(l: Link, start: nat, first: Option<Node>)
    requires ErrnosNonZero(l.fates)
    ensures TakenFrom(l, l, start, false, first)
  {
  }

  // ----- Fids moved -----

  /** The counter has come round to the fid that the walk starts from, and the first name leads elsewhere. */
  predicate MovesStart(tree: Tree, l: Link, fid: u32, names: seq<Text>) {
    && names != [] && fid in l.fids && MFid(l) == fid != P9_NOFID && Reaches(FateAt(l.fates, 0))
    && var child := tree.child(l.fids[fid].node, Narrow(names[0]));
    child.Some? && child.value != l.fids[fid].node
  }

  /**
   NOFID, or a number in use but not by the walk's own source, is refused by the server and nothing
   changes; an Rlerror fits the receive buffer only of a walk with a name.
   */
  lemma BusyFidRefused(tree: Tree, l: Link, fid: u32, path: Text)
    requires (MFid(l) in l.fids && MFid(l) != fid) || MFid(l) == P9_NOFID
    ensures var (status, l', qid) := DoP9Walk(tree, AfterGetFid(l), fid, MFid(l), path);
      && l'.fids == l.fids
      && (FateOf(l).Served? ==> status == if path == [] then BufferTooSmall else DeviceError)
  {
  }

  lemma StepKeeps(tree: Tree, l: Link, fid: u32, name: Text)
    requires name != []
    ensures var (status, l', qid) := DoP9Walk(tree, AfterGetFid(l), fid, MFid(l), name);
      && MFid(l') != MFid(l)
      && (if MovesStart(tree, l, fid, [name])
          then fid in l'.fids && l'.fids[fid].node != l.fids[fid].node
          else Extends(l.fids, l'.fids))
  {
  }

  lemma {:induction false} WalkNamesKeeps(tree: Tree, l: Link, fid: u32, names: seq<Text>, target: Target)
    requires AreComponents(names) && MFid(l) != fid
    ensures Extends(l.fids, WalkNames(tree, l, fid, names, target).link.fids)
    decreases |names|
  {
    if names != [] {
      assert IsComponent(names[0]);
      StepKeeps(tree, l, fid, names[0]);
      hide DoP9Walk, MFid;
      var newFid := MFid(l);
      var (status, l', qid) := DoP9Walk(tree, AfterGetFid(l), fid, newFid, names[0]);
      if !status.IsError() {
        WalkNamesKeeps(tree, l', newFid, names[1..], Target(newFid, qid));
      }
    }
  }

  /** For every counter, table and script: the loop changes no binding, except exactly when it moves its own source. */
  lemma WalkNamesKeepsIff(tree: Tree, l: Link, fid: u32, names: seq<Text>, target: Target)
    requires AreComponents(names)
    ensures Extends(l.fids, WalkNames(tree, l, fid, names, target).link.fids) <==> !MovesStart(tree, l, fid, names)
  {
    if names != [] {
      assert IsComponent(names[0]);
      StepKeeps(tree, l, fid, names[0]);
      assert MovesStart(tree, l, fid, names) == MovesStart(tree, l, fid, [names[0]]);
      hide DoP9Walk, MFid, MovesStart;
      var newFid := MFid(l);
      var (status, l', qid) := DoP9Walk(tree, AfterGetFid(l), fid, newFid, names[0]);
      if !status.IsError() {
        WalkNamesKeeps(tree, l', newFid, names[1..], Target(newFid, qid));
      }
    }
  }

  /** P9Walk loses or moves a binding exactly when its start fid has the number that the counter has come round to. */
  lemma WalkKeepsIff(tree: Tree, l: Link, rootFid: u32, fid: u32, path: Text, stale: Target)
    ensures Extends(l.fids, Walk(tree, l, rootFid, fid, path, stale).link.fids)
      <==> !(!Guarded(rootFid, fid, path) && MovesStart(tree, l, StartFid(rootFid, fid, path), Route(path)))
  {
    hide Scan, NonDot, Names;
    NamesAreComponents(Relative(path));
    if IsSpecial(path) {
      CloneKeeps(tree, l, StartFid(rootFid, fid, path));
    } else if path == [] {
      NoNames(path);
    } else {
      WalkNamesKeepsIff(tree, l, StartFid(rootFid, fid, path), Route(path), stale);
    }
  }

  lemma CloneKeeps(tree: Tree, l: Link, fid: u32)
    ensures Extends(l.fids, CloneFid(tree, l, fid).link.fids)
  {
  }
}
