/** Algebraic laws of P9Walk, and what every walk keeps whatever happens to its exchanges. */
module WalkLaws {
  import opened Ints
  import opened Statuses
  import opened Paths
  import opened P9Strings
  import opened Protocol
  import opened Walking

  // ----- Dots and separators -----

  lemma SpellHead(cs: seq<Text>, gaps: seq<nat>)
    requires AreComponents(cs) && IsSpacing(cs, gaps) && cs != []
    ensures Spell(cs, gaps) != [] && Spell(cs, gaps)[0] == cs[0][0] != SEP
    ensures StartsWithDots(Spell(cs, gaps)) <==> StartsWithDots(cs[0])
  {
    assert IsComponent(cs[0]) && cs[0][0] in cs[0];
    var p, tail := Spell(cs, gaps), Spell(cs[1..], gaps[1..]);
    assert p == cs[0] + (Seps(gaps[0]) + tail);
    if |cs| == 1 {
      assert tail == [];
    }
    assert |cs[0]| == 1 && gaps[0] > 0 ==> p[1] == Seps(gaps[0])[0] == SEP;
  }

  /**
   Inserting a "." component, and any other choice of separator runs inside or at the end, gives
   exactly the same walk: same status, same node, same fids. The one exception is a "." put in
   front of a name starting with "..", at the root: it disarms the guard.
   */
  lemma DotInsertion(tree: Tree, l: Link, rootFid: u32, fid: u32, stale: Target,
                     absolute: bool, a: seq<Text>, b: seq<Text>, dotted: seq<nat>, plain: seq<nat>)
    requires AreComponents(a) && AreComponents(b) && NonDot(a) + NonDot(b) != []
    requires IsSpacing(a + [[DOT]] + b, dotted) && IsSpacing(a + b, plain)
    ensures var lead := if absolute then [SEP] else [];
      var p, q := lead + Spell(a + [[DOT]] + b, dotted), lead + Spell(a + b, plain);
      Walk(tree, l, rootFid, fid, p, stale) == Walk(tree, l, rootFid, fid, q, stale)
      <==> !((absolute || fid == rootFid) && a == [] && StartsWithDots(b[0]))
  {
    hide Spell, Scan, NonDot, WalkNames, CloneFid, Names;
    var lead := if absolute then [SEP] else [];
    var ps, qs := Spell(a + [[DOT]] + b, dotted), Spell(a + b, plain);
    var p, q := lead + ps, lead + qs;
    NamesIgnoreDotsAndGaps(a, b, dotted, plain);
    NonDotConcat(a, b);
    assert IsComponent([DOT]);
    SpellHead(a + [[DOT]] + b, dotted);
    SpellHead(a + b, plain);
    assert Relative(p) == ps && Relative(q) == qs;
    NotSpecial(p);
    NotSpecial(q);
    var start, names := StartFid(rootFid, fid, q), Names(qs);
    WalkNamesIssues(tree, l, start, names, stale);
  }

  lemma NotSpecial(path: Text)
    requires Names(Relative(path)) != []
    ensures !IsSpecial(path)
  {
    NoNames(Relative(path));
    DotHasNoNames();
  }

  lemma NoNames(p: Text)
    ensures p == [] || p[0] == SEP ==> Names(p) == []
  {
    if p == [] || p[0] == SEP {
      assert Scan(p) == [];
    }
  }

  lemma DotHasNoNames()
    ensures Names([DOT]) == []
  {
    assert IsComponent([DOT]);
    assert [DOT] + Seps(0) + [] == [DOT];
    ScanStep([DOT], 0, []);
    assert Scan([]) == [];
    NonDotDot();
  }

  /** A walk over at least one name takes a fid number, so it is never a refusal by the guard. */
  lemma {:induction false} WalkNamesIssues(tree: Tree, l: Link, fid: u32, names: seq<Text>, target: Target)
    ensures WalkNames(tree, l, fid, names, target).link.issued >= l.issued + (if names == [] then 0 else 1)
    decreases |names|
  {
    if names != [] {
      var newFid := MFid(l);
      var (status, l', qid) := DoP9Walk(tree, AfterGetFid(l), fid, newFid, names[0]);
      if !status.IsError() {
        WalkNamesIssues(tree, l', newFid, names[1..], Target(newFid, qid));
      }
    }
  }

  // ----- Walking p\q at once or in two walks -----

  lemma {:induction false} ResolveConcat(tree: Tree, node: Node, a: seq<Text>, b: seq<Text>)
    ensures Resolve(tree, node, a + b) ==
      match Resolve(tree, node, a) case None => None case Some(n) => Resolve(tree, n, b)
    decreases |a|
  {
    if a == [] {
      assert a + b == b;
    } else {
      assert (a + b)[1..] == a[1..] + b;
      match tree.child(node, Narrow(a[0]))
      case None =>
      case Some(n) => ResolveConcat(tree, n, a[1..], b);
    }
  }

  /** The paths p and q that can be joined: p is not just "\", q is relative, and not both are ".". */
  predicate Joinable(p: Text, q: Text) {
    && p != [] && q != [] && !IsAbsolute(q)
    && p != [SEP] && IsDefined(p) && IsDefined(q)
    && !(p == [DOT] && q == [DOT])
  }

  lemma JoinedRoute(p: Text, q: Text)
    requires Joinable(p, q)
    ensures var pq := p + [SEP] + q;
      && Route(pq) == Route(p) + Route(q) != [] && !IsSpecial(pq)
      && IsAbsolute(pq) == IsAbsolute(p)
      && (forall rootFid, fid :: Guarded(rootFid, fid, pq) <==> Guarded(rootFid, fid, p))
  {
    hide Scan, NonDot, Names;
    var pq, rp := p + [SEP] + q, Relative(p);
    assert Relative(pq) == rp + [SEP] + q;
    DotHasNoNames();
    NoNames(rp);
    NoNames([]);
    NamesAppend(rp, q);
    assert Route(p) == Names(rp);
    assert Route(q) == Names(q);
    NotSpecial(pq);
  }

  /**
   Walking p and then the relative path q from its result succeeds exactly when walking p\q does,
   and both end at the same node.
   */
  lemma WalkComposes(tree: Tree, l: Link, rootFid: u32, fid: u32, p: Text, q: Text, stale: Target)
    requires Joinable(p, q) && rootFid in l.fids && fid in l.fids && Below(l)
    requires Healthy(l, FidCost(p) + FidCost(q)) && CanIssue(l, FidCost(p) + FidCost(q))
    ensures var first := Walk(tree, l, rootFid, fid, p, stale);
      var joined := Walk(tree, l, rootFid, fid, p + [SEP] + q, stale);
      var second := Walk(tree, first.link, rootFid, first.target.fid, q, stale);
      && (joined.status == Success <==> first.status == Success && second.status == Success)
      && (joined.status == Success ==>
            && joined.target.fid in joined.link.fids && second.target.fid in second.link.fids
            && joined.link.fids[joined.target.fid] == second.link.fids[second.target.fid])
  {
    hide Walk, Route, FidCost, Scan, NonDot, Resolve, AddsRange;
    var pq := p + [SEP] + q;
    JoinedRoute(p, q);
    Costs(p, q);
    var first, node := Walk(tree, l, rootFid, fid, p, stale), StartNode(l, rootFid, fid, p);
    WalkRefinesResolve(tree, l, rootFid, fid, p, stale);
    WalkRefinesResolve(tree, l, rootFid, fid, pq, stale);
    ResolveConcat(tree, node, Route(p), Route(q));
    if first.status == Success {
      RootStays(l.fids, first.link.fids, l.issued, FidCost(p), rootFid);
      assert Healthy(first.link, FidCost(q));
      WalkRefinesResolve(tree, first.link, rootFid, first.target.fid, q, stale);
    }
  }

  lemma Costs(p: Text, q: Text)
    requires Joinable(p, q)
    ensures IsDefined(p + [SEP] + q) && FidCost(p + [SEP] + q) <= FidCost(p) + FidCost(q)
    ensures FidCost(p) > 0
  {
    JoinedRoute(p, q);
  }

  lemma RootStays(before: Table, after: Table, first: nat, n: nat, f: nat)
    requires AddsRange(before, after, first, n) && f in before
    ensures f in after && after[f] == before[f]
  {
  }

  // ----- Whatever happens to the exchanges -----

  /** A later state of the connection: bindings kept, counter not decreased, script partly used. */
  ghost predicate Later(before: Link, after: Link) {
    && Extends(before.fids, after.fids) && KeepsOpen(before.fids, after.fids)
    && before.issued <= after.issued
    && (Below(before) ==> Below(after))
    && (ErrnosNonZero(before.fates) ==> ErrnosNonZero(after.fates))
  }

  lemma LaterTransitive(a: Link, b: Link, c: Link)
    requires Later(a, b) && Later(b, c)
    ensures Later(a, c)
  {
  }

  lemma DoP9WalkLater(tree: Tree, l: Link, fid: u32, path: Text)
    requires Below(l) && l.issued < P9_NOFID
    ensures var (status, l', qid) := DoP9Walk(tree, AfterGetFid(l), fid, MFid(l), path);
      && Later(l, l') && l'.issued == l.issued + 1
      && (ErrnosNonZero(l.fates) && status == Success ==>
            && fid in l.fids && MFid(l) == l.issued && l.issued in l'.fids
            && (path == [] ==> l'.fids[l.issued] == FidState(l.fids[fid].node, false))
            && (path != [] ==> tree.child(l.fids[fid].node, Narrow(path)).Some?)
            && (path != [] ==> l'.fids[l.issued] == FidState(tree.child(l.fids[fid].node, Narrow(path)).value, false)))
  {
    ErrnosTail(l);
  }

  /** What the loop keeps and, on success, establishes, for every script of fates. */
  lemma {:induction false} WalkNamesLater(tree: Tree, l: Link, fid: u32, names: seq<Text>, target: Target)
    requires Below(l) && AreComponents(names)
    requires WalkNames(tree, l, fid, names, target).link.issued <= P9_NOFID
    ensures var r := WalkNames(tree, l, fid, names, target);
      && Later(l, r.link)
      && (ErrnosNonZero(l.fates) && r.status == Success && names != [] ==>
            && fid in l.fids && Resolve(tree, l.fids[fid].node, names).Some?
            && l.issued <= r.target.fid && r.target.fid in r.link.fids
            && r.link.fids[r.target.fid] == FidState(Resolve(tree, l.fids[fid].node, names).value, false))
    decreases |names|
  {
    if names != [] {
      assert IsComponent(names[0]);
      WalkNamesIssues(tree, l, fid, names, target);
      DoP9WalkLater(tree, l, fid, names[0]);
      hide DoP9Walk, Later, MFid;
      var newFid := MFid(l);
      var (status, l', qid) := DoP9Walk(tree, AfterGetFid(l), fid, newFid, names[0]);
      if !status.IsError() {
        LaterKeepsBelow(l, l');
        WalkNamesLater(tree, l', newFid, names[1..], Target(newFid, qid));
        LaterTransitive(l, l', WalkNames(tree, l', newFid, names[1..], Target(newFid, qid)).link);
      }
    } else {
      LaterReflexive(l);
    }
  }

  lemma LaterReflexive(l: Link)
    ensures Later(l, l)
  {
  }

  lemma LaterKeepsBelow(a: Link, b: Link)
    requires Later(a, b)
    ensures Below(a) ==> Below(b)
    ensures ErrnosNonZero(a.fates) ==> ErrnosNonZero(b.fates)
    ensures a.issued <= b.issued
    ensures Extends(a.fids, b.fids)
  {
  }
}
