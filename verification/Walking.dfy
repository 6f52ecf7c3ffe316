/** P9Walk as a function of the connection, and its proof against path resolution in the server's tree. */
module Walking {
  import opened Ints
  import opened Statuses
  import opened Paths
  import opened P9Strings
  import opened Protocol

  /** NewFid and NewQid. */
  datatype Target = Target(fid: u32, qid: Qid)

  datatype WalkResult = WalkResult(status: Status, link: Link, target: Target)

  /** The walking loop from fid over the remaining names; target is what NewFid and NewQid hold so far. */
  function WalkNames(tree: Tree, l: Link, fid: u32, names: seq<Text>, target: Target): WalkResult
    decreases |names|
  {
    if names == [] then WalkResult(Success, l, target)
    else
      var newFid := MFid(l);
      var (status, l', qid) := DoP9Walk(tree, AfterGetFid(l), fid, newFid, names[0]);
      if status.IsError() then WalkResult(status, l', Target(newFid, qid))
      else WalkNames(tree, l', newFid, names[1..], Target(newFid, qid))
  }

  lemma WalkNamesUnfold(tree: Tree, l: Link, fid: u32, names: seq<Text>, target: Target)
    ensures WalkNames(tree, l, fid, names, target) ==
      if names == [] then WalkResult(Success, l, target)
      else
        var newFid := MFid(l);
        var (status, l', qid) := DoP9Walk(tree, AfterGetFid(l), fid, newFid, names[0]);
        if status.IsError() then WalkResult(status, l', Target(newFid, qid))
        else WalkNames(tree, l', newFid, names[1..], Target(newFid, qid))
  {
    hide DoP9Walk, MFid;
  }

  /** The special cases: a walk without names to a new fid. */
  function CloneFid(tree: Tree, l: Link, fid: u32): WalkResult {
    var newFid := MFid(l);
    var (status, l', qid) := DoP9Walk(tree, AfterGetFid(l), fid, newFid, []);
    WalkResult(status, l', Target(newFid, qid))
  }

  predicate IsAbsolute(path: Text) { path != [] && path[0] == SEP }

  /** The path after its one leading separator has been dropped. */
  function Relative(path: Text): Text { if IsAbsolute(path) then path[1..] else path }

  predicate IsSpecial(path: Text) { path == [SEP] || path == [DOT] }

  /** StrnCmp (Path, L"..", 2) == 0 */
  predicate StartsWithDots(p: Text) { |p| >= 2 && p[0] == DOT && p[1] == DOT }

  function StartFid(rootFid: u32, fid: u32, path: Text): u32 {
    if IsAbsolute(path) then rootFid else fid
  }

  /** The check that keeps a walk from leaving the root directory upwards. */
  predicate Guarded(rootFid: u32, fid: u32, path: Text) {
    StartFid(rootFid, fid, path) == rootFid && StartsWithDots(Relative(path))
  }

  /** P9Walk; stale is the uninitialised content of NewFid and NewQid. */
  function Walk(tree: Tree, l: Link, rootFid: u32, fid: u32, path: Text, stale: Target): WalkResult {
    if path == [] then WalkResult(InvalidParameter, l, stale)
    else if path == [SEP] then CloneFid(tree, l, rootFid)
    else if path == [DOT] then CloneFid(tree, l, fid)
    else if Guarded(rootFid, fid, path) then WalkResult(NotFound, l, stale)
    else WalkNames(tree, l, StartFid(rootFid, fid, path), Names(Relative(path)), stale)
  }

  /** The paths for which P9Walk sets NewFid. */
  predicate IsDefined(path: Text) {
    path == [] || IsSpecial(path) || Names(Relative(path)) != []
  }

  /** The names a path walks through: none for the special paths. */
  function Route(path: Text): seq<Text> { if IsSpecial(path) then [] else Names(Relative(path)) }

  /** Number of fids a complete walk uses. */
  function FidCost(path: Text): nat {
    if IsSpecial(path) then 1 else |Names(Relative(path))|
  }

  // ----- Path resolution in the tree -----

  function Resolve(tree: Tree, node: Node, names: seq<Text>): Option<Node>
    decreases |names|
  {
    if names == [] then Some(node)
    else match tree.child(node, Narrow(names[0]))
      case None => None
      case Some(n) => Resolve(tree, n, names[1..])
  }

  /** Number of leading names that resolve. */
  function Reached(tree: Tree, node: Node, names: seq<Text>): (j: nat)
    ensures j <= |names|
    ensures j == |names| <==> Resolve(tree, node, names).Some?
    decreases |names|
  {
    if names == [] then 0
    else match tree.child(node, Narrow(names[0]))
      case None => 0
      case Some(n) => 1 + Reached(tree, n, names[1..])
  }

  /** The table after the steps that resolve, each binding the next fid number from first. */
  function Trail(tree: Tree, fids: Table, node: Node, names: seq<Text>, first: nat): Table
    decreases |names|
  {
    if names == [] then fids
    else match tree.child(node, Narrow(names[0]))
      case None => fids
      case Some(n) => Trail(tree, fids[first := FidState(n, false)], n, names[1..], first + 1)
  }

  /** after is before with exactly the n fids from first added. */
  ghost predicate AddsRange(before: Table, after: Table, first: nat, n: nat) {
    && (forall f :: f in after <==> f in before || first <= f < first + n)
    && (forall f :: f in before ==> after[f] == before[f])
    && |after| == |before| + n
  }

  lemma AddsRangeStep(before: Table, state: FidState, after: Table, first: nat, n: nat)
    requires first !in before && AddsRange(before[first := state], after, first + 1, n)
    ensures AddsRange(before, after, first, n + 1)
    ensures after[first] == state
  {
    var mid := before[first := state];
    InsertSize(before, first, state);
    assert forall f :: f in before ==> f in mid && mid[f] == before[f];
    assert forall f :: f in mid <==> f in before || f == first;
  }

  lemma InsertSize(fids: Table, f: nat, state: FidState)
    requires f !in fids
    ensures |fids[f := state]| == |fids| + 1
  {
    assert fids[f := state].Keys == fids.Keys + {f};
    assert |fids[f := state].Keys| == |fids.Keys| + 1;
  }

  /** A trail of j steps adds exactly j consecutive fids. */
  lemma {:induction false} TrailAdds(tree: Tree, fids: Table, node: Node, names: seq<Text>, first: nat)
    requires forall f :: f in fids ==> f < first
    ensures AddsRange(fids, Trail(tree, fids, node, names, first), first, Reached(tree, node, names))
    decreases |names|
  {
    hide AddsRange;
    if names != [] && tree.child(node, Narrow(names[0])).Some? {
      var n := tree.child(node, Narrow(names[0])).value;
      TrailAdds(tree, fids[first := FidState(n, false)], n, names[1..], first + 1);
      var after := Trail(tree, fids, node, names, first);
      AddsRangeStep(fids, FidState(n, false), after, first, Reached(tree, n, names[1..]));
    } else {
      AddsNothing(fids, first);
    }
  }

  /** The last fid of a complete trail is bound to the node resolved. */
  lemma {:induction false} TrailEnds(tree: Tree, fids: Table, node: Node, names: seq<Text>, first: nat)
    requires Resolve(tree, node, names).Some? && names != []
    requires forall f :: f in fids ==> f < first
    ensures var t := Trail(tree, fids, node, names, first);
      first + |names| - 1 in t && t[first + |names| - 1] == FidState(Resolve(tree, node, names).value, false)
    decreases |names|
  {
    var n := tree.child(node, Narrow(names[0])).value;
    var fids' := fids[first := FidState(n, false)];
    if |names| > 1 {
      TrailEnds(tree, fids', n, names[1..], first + 1);
    } else {
      assert names[1..] == [];
    }
  }

  lemma AddsNothing(fids: Table, first: nat)
    ensures AddsRange(fids, fids, first, 0)
  {
  }

  // ----- Walks without server errors other than missing components -----

  predicate CanIssue(l: Link, n: nat) { l.issued + n <= P9_NOFID }

  lemma WalkStep(tree: Tree, l: Link, fid: u32, name: Text)
    requires Below(l) && fid in l.fids && FateOf(l).Served? && CanIssue(l, 1) && name != []
    ensures MFid(l) == l.issued
    ensures DoP9Walk(tree, AfterGetFid(l), fid, MFid(l), name) ==
      match tree.child(l.fids[fid].node, Narrow(name))
      case None => (NotFound, Link(l.fids, l.issued + 1, l.fates[1..]), ZERO_QID)
      case Some(n) => (Success, Link(l.fids[l.issued := FidState(n, false)], l.issued + 1, l.fates[1..]), tree.qid(n))
  {
  }

  /** The step, and what is left for the steps after it. */
  lemma WalkStepReady(tree: Tree, l: Link, fid: u32, name: Text, n: nat)
    requires Below(l) && fid in l.fids && 0 < n && Healthy(l, n) && CanIssue(l, n) && name != []
    ensures n <= |l.fates| && MFid(l) == l.issued
    ensures DoP9Walk(tree, AfterGetFid(l), fid, MFid(l), name) ==
      match tree.child(l.fids[fid].node, Narrow(name))
      case None => (NotFound, Link(l.fids, l.issued + 1, l.fates[1..]), ZERO_QID)
      case Some(n) => (Success, Link(l.fids[l.issued := FidState(n, false)], l.issued + 1, l.fates[1..]), tree.qid(n))
    ensures forall m: Node :: Below(Link(l.fids[l.issued := FidState(m, false)], l.issued + 1, l.fates[1..]))
    ensures forall m: Node ::
      Healthy(Link(l.fids[l.issued := FidState(m, false)], l.issued + 1, l.fates[1..]), n - 1)
  {
    hide DoP9Walk, MFid;
    WalkStep(tree, l, fid, name);
  }

  /**
   The exact outcome of the loop: it succeeds exactly when the names resolve; j resolved names
   leave exactly j consecutive new fids bound to the nodes passed, and one more fid number is used
   up when the next name is missing.
   */
  lemma {:induction false} WalkNamesExact(tree: Tree, l: Link, fid: u32, names: seq<Text>, target: Target)
    requires Below(l) && fid in l.fids && Healthy(l, |names|) && CanIssue(l, |names|)
    requires AreComponents(names)
    ensures var r, node := WalkNames(tree, l, fid, names, target), l.fids[fid].node;
      var j := Reached(tree, node, names);
      var spent := if j < |names| then j + 1 else j;
      && r.status == (if j == |names| then Success else NotFound)
      && r.link == Link(Trail(tree, l.fids, node, names, l.issued), l.issued + spent, l.fates[spent..])
      && (j == |names| > 0 ==>
            r.target == Target(l.issued + |names| - 1, tree.qid(Resolve(tree, node, names).value)))
      && (names == [] ==> r.target == target)
    decreases |names|
  {
    hide DoP9Walk, MFid, WalkNames, Below, Healthy;
    WalkNamesUnfold(tree, l, fid, names, target);
    if names != [] {
      assert IsComponent(names[0]);
      WalkStepReady(tree, l, fid, names[0], |names|);
      var child := tree.child(l.fids[fid].node, Narrow(names[0]));
      if child.Some? {
        var l' := Link(l.fids[l.issued := FidState(child.value, false)], l.issued + 1, l.fates[1..]);
        WalkNamesExact(tree, l', l.issued, names[1..], Target(l.issued, tree.qid(child.value)));
      }
    }
  }

  /** The node from which a path is resolved. */
  function StartNode(l: Link, rootFid: u32, fid: u32, path: Text): Node
    requires rootFid in l.fids && fid in l.fids
  {
    if IsAbsolute(path) then l.fids[rootFid].node else l.fids[fid].node
  }

  lemma {:induction false} NonDotNames(cs: seq<Text>)
    requires AreComponents(cs)
    ensures AreComponents(NonDot(cs))
  {
    if cs != [] {
      NonDotNames(cs[1..]);
      assert IsComponent(cs[0]);
    }
  }

  lemma NamesAreComponents(p: Text)
    ensures AreComponents(Names(p))
  {
    if p != [] && p[0] == SEP {
      assert Scan(p) == [];
    } else {
      SpellInvertsScan(p);
      NonDotNames(Scan(p));
    }
  }

  // ----- P9Walk on every path -----

  lemma CloneExact(tree: Tree, l: Link, fid: u32)
    requires Below(l) && fid in l.fids && Healthy(l, 1) && CanIssue(l, 1)
    ensures CloneFid(tree, l, fid) == WalkResult(Success,
      Link(l.fids[l.issued := FidState(l.fids[fid].node, false)], l.issued + 1, l.fates[1..]),
      Target(l.issued, ZERO_QID))
  {
    assert FateOf(AfterGetFid(l)).Served?;
  }

  /** Fids left bound by a walk: those of the names that resolve, none if the root guard fires. */
  function FidsLeft(tree: Tree, l: Link, rootFid: u32, fid: u32, path: Text): nat
    requires rootFid in l.fids && fid in l.fids
  {
    if path == [] || Guarded(rootFid, fid, path) then 0
    else if IsSpecial(path) then 1
    else Reached(tree, StartNode(l, rootFid, fid, path), Route(path))
  }

  /** The path resolves from where the walk starts, and the root guard lets it through. */
  predicate Resolves(tree: Tree, l: Link, rootFid: u32, fid: u32, path: Text)
    requires rootFid in l.fids && fid in l.fids
  {
    !Guarded(rootFid, fid, path) && Resolve(tree, StartNode(l, rootFid, fid, path), Route(path)).Some?
  }

  predicate WalkReady(l: Link, rootFid: u32, fid: u32, path: Text) {
    && rootFid in l.fids && fid in l.fids && Below(l)
    && Healthy(l, FidCost(path)) && CanIssue(l, FidCost(path))
  }

  /**
   P9Walk refines path resolution: with a server whose only errors are missing components it
   succeeds exactly when no component is missing and the root guard stays silent. Every earlier
   binding is unchanged, the new fids are consecutive, and on success the last one is the target,
   bound to the node that the names resolve to.
   */
  lemma WalkRefinesResolve(tree: Tree, l: Link, rootFid: u32, fid: u32, path: Text, stale: Target)
    requires WalkReady(l, rootFid, fid, path) && path != [] && IsDefined(path)
    ensures var r := Walk(tree, l, rootFid, fid, path, stale);
      && r.status == (if Resolves(tree, l, rootFid, fid, path) then Success else NotFound)
      && AddsRange(l.fids, r.link.fids, l.issued, FidsLeft(tree, l, rootFid, fid, path))
      && Below(r.link)
      && r.link.issued == l.issued + FidsLeft(tree, l, rootFid, fid, path)
           + (if r.status == Success || Guarded(rootFid, fid, path) then 0 else 1)
      && r.link.fates == l.fates[r.link.issued - l.issued..]
      && (r.status == Success ==>
            && FidsLeft(tree, l, rootFid, fid, path) == FidCost(path) > 0
            && r.target.fid == l.issued + FidCost(path) - 1 && r.target.fid in r.link.fids
            && var node := Resolve(tree, StartNode(l, rootFid, fid, path), Route(path)).value;
               && r.link.fids[r.target.fid] == FidState(node, false)
               && r.target.qid == if IsSpecial(path) then ZERO_QID else tree.qid(node))
  {
    hide AddsRange, Scan, NonDot, CloneFid;
    AddsNothing(l.fids, l.issued);
    if IsSpecial(path) {
      var start := if path == [SEP] then rootFid else fid;
      CloneExact(tree, l, start);
      AddsRangeStep1(l.fids, FidState(l.fids[start].node, false), l.issued);
    } else if !Guarded(rootFid, fid, path) {
      var start, names := StartFid(rootFid, fid, path), Names(Relative(path));
      var node := l.fids[start].node;
      NamesAreComponents(Relative(path));
      WalkNamesExact(tree, l, start, names, stale);
      TrailAdds(tree, l.fids, node, names, l.issued);
      AddsRangeBelow(l.fids, Trail(tree, l.fids, node, names, l.issued), l.issued, Reached(tree, node, names));
      if Resolve(tree, node, names).Some? {
        TrailEnds(tree, l.fids, node, names, l.issued);
      }
    }
  }

  lemma AddsRangeStep1(fids: Table, state: FidState, first: nat)
    requires forall f :: f in fids ==> f < first
    ensures AddsRange(fids, fids[first := state], first, 1)
  {
    InsertSize(fids, first, state);
  }

  lemma AddsRangeBelow(before: Table, after: Table, first: nat, n: nat)
    requires AddsRange(before, after, first, n) && forall f :: f in before ==> f < first
    ensures forall f :: f in after ==> f < first + n
  {
  }

  // ----- When NewFid is never set -----

  lemma WalkNamesSetsTarget(tree: Tree, l: Link, fid: u32, names: seq<Text>, t1: Target, t2: Target)
    requires names != []
    ensures WalkNames(tree, l, fid, names, t1) == WalkNames(tree, l, fid, names, t2)
  {
  }

  /**
   A successful P9Walk delivers the same result whatever its uninitialised locals held, if and only
   if the path is special, or has a component other than "." in its scan, or is refused by the guard.
   Otherwise it reports success without any exchange and hands out the uninitialised values.
   */
  lemma TargetSetIff(tree: Tree, l: Link, rootFid: u32, fid: u32, path: Text)
    ensures (forall t1, t2 :: Walk(tree, l, rootFid, fid, path, t1).status == Success ==>
               Walk(tree, l, rootFid, fid, path, t1) == Walk(tree, l, rootFid, fid, path, t2))
      <==> IsDefined(path) || Guarded(rootFid, fid, path)
    ensures !IsDefined(path) && !Guarded(rootFid, fid, path) ==>
      forall t :: Walk(tree, l, rootFid, fid, path, t) == WalkResult(Success, l, t)
  {
    var start, names := StartFid(rootFid, fid, path), Names(Relative(path));
    if IsDefined(path) || Guarded(rootFid, fid, path) {
      if !IsSpecial(path) && path != [] && !Guarded(rootFid, fid, path) {
        forall t1, t2
          ensures Walk(tree, l, rootFid, fid, path, t1) == Walk(tree, l, rootFid, fid, path, t2)
        {
          WalkNamesSetsTarget(tree, l, start, names, t1, t2);
        }
      }
    } else {
      var t1, t2 := Target(0, ZERO_QID), Target(1, ZERO_QID);
      assert Walk(tree, l, rootFid, fid, path, t1) == WalkResult(Success, l, t1);
      assert Walk(tree, l, rootFid, fid, path, t2) == WalkResult(Success, l, t2);
    }
  }
}
