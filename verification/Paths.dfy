/** Backslash-separated CHAR16 paths: the forward tokeniser, the backward file-name scan, and their laws. */
module Paths {
  import opened Ints

  const SEP: u16 := 0x5C
  const DOT: u16 := 0x2E

  /** The characters of a C string, without its terminating NUL. */
  type Text = seq<u16>

  ghost predicate IsText(s: Text) { 0 !in s }

  /** What reading position i of the terminated string yields. */
  function CharAt(s: Text, i: nat): u16
    requires i <= |s|
  {
    if i < |s| then s[i] else 0
  }

  /** Number of leading characters that are not separators. */
  function NameRun(p: Text): (n: nat)
    ensures n <= |p|
  {
    if p == [] || p[0] == SEP then 0 else 1 + NameRun(p[1..])
  }

  /** Number of leading separators. */
  function SepRun(p: Text): (n: nat)
    ensures n <= |p|
  {
    if p == [] || p[0] != SEP then 0 else 1 + SepRun(p[1..])
  }

  function First(p: Text): Text { p[..NameRun(p)] }

  function Rest(p: Text): Text {
    var q := p[NameRun(p)..];
    q[SepRun(q)..]
  }

  /** The components met by fetching the next one until it is empty. */
  function Scan(p: Text): seq<Text>
    decreases |p|
  {
    if First(p) == [] then [] else [First(p)] + Scan(Rest(p))
  }

  predicate IsDot(c: Text) { c == [DOT] }

  function NonDot(cs: seq<Text>): seq<Text> {
    if cs == [] then [] else (if IsDot(cs[0]) then [] else [cs[0]]) + NonDot(cs[1..])
  }

  /** The components that P9Walk steps into. */
  function Names(p: Text): seq<Text> { NonDot(Scan(p)) }

  // ----- The two scanning loops -----

  /**
   P9GetNextNameComponent on the string path from position start: the component goes to the
   caller's buffer with a NUL after it, and the result is where the next component starts.
   */
  method P9GetNextNameComponent(path: Text, start: nat, name: array<u16>) returns (next: nat)
    requires IsText(path) && start <= |path| && NameRun(path[start..]) < name.Length
    modifies name
    ensures next <= |path| && path[next..] == Rest(path[start..])
    ensures var n := |First(path[start..])|;
      name[..n] == First(path[start..]) && name[n] == 0 && name[n + 1..] == old(name[n + 1..])
  {
    hide NameRun, SepRun;
    ghost var rest := path[start..];
    var i, k := start, 0;
    RunsNext(path, i);
    while CharAt(path, i) != 0 && CharAt(path, i) != SEP
      invariant i == start + k <= |path|
      invariant NameRun(rest) == k + NameRun(path[i..])
      invariant forall x :: 0 <= x < k ==> name[x] == path[start + x]
      invariant forall x :: k <= x < name.Length ==> name[x] == old(name[x])
      decreases |path| - i
    {
      RunsNext(path, i);
      name[k] := CharAt(path, i);
      i, k := i + 1, k + 1;
    }
    name[k] := 0;
    RunsNext(path, i);
    assert k == NameRun(rest);
    assert name[..k] == First(rest);
    ghost var j, filled := i, name[..];
    while CharAt(path, i) == SEP
      invariant name[..] == filled
      invariant j <= i <= |path| && SepRun(path[j..]) == i - j + SepRun(path[i..])
      decreases |path| - i
    {
      RunsNext(path, i);
      i := i + 1;
    }
    RunsNext(path, i);
    assert path[j..] == rest[NameRun(rest)..];
    assert path[i..] == path[j..][SepRun(path[j..])..];
    assert name[..k] == filled[..k];
    next := i;
  }

  lemma RunsNext(path: Text, i: nat)
    requires i <= |path|
    ensures NameRun(path[i..]) == if i == |path| || path[i] == SEP then 0 else 1 + NameRun(path[i + 1..])
    ensures SepRun(path[i..]) == if i == |path| || path[i] != SEP then 0 else 1 + SepRun(path[i + 1..])
  {
    if i < |path| {
      assert path[i..][1..] == path[i + 1..];
    }
  }

  /** The longest suffix without a separator. */
  function FileNameOf(p: Text): (s: Text)
  {
    if p == [] || p[|p| - 1] == SEP then [] else FileNameOf(p[..|p| - 1]) + [p[|p| - 1]]
  }

  /** GetFileNameFromPath: the position in path where the file name starts. */
  method GetFileNameFromPath(path: Text) returns (head: nat)
    requires IsText(path)
    ensures head <= |path| && path[head..] == FileNameOf(path)
  {
    var pathLength: int := |path|;
    var pathHead := pathLength - 1;
    assert path[..pathLength] == path;
    while pathLength > 0 && path[pathHead] != 0 && path[pathHead] != SEP
      invariant -1 <= pathHead == pathLength - 1 < |path|
      invariant FileNameOf(path) == FileNameOf(path[..pathLength]) + path[pathLength..]
    {
      assert path[..pathLength][..pathLength - 1] == path[..pathLength - 1];
      assert [path[pathHead]] + path[pathLength..] == path[pathHead..];
      pathLength, pathHead := pathLength - 1, pathHead - 1;
    }
    head := pathHead + 1;
  }

  // ----- Spelling a list of components as a path -----

  function Seps(n: nat): (s: Text)
    ensures |s| == n && forall i :: 0 <= i < n ==> s[i] == SEP
  {
    seq(n, i => SEP)
  }

  /** A component that the tokeniser can deliver. */
  predicate IsComponent(c: Text) { c != [] && SEP !in c }

  predicate AreComponents(cs: seq<Text>) { forall i :: 0 <= i < |cs| ==> IsComponent(cs[i]) }

  /** Positive gaps between components; the last gap is the number of trailing separators. */
  predicate IsSpacing(cs: seq<Text>, gaps: seq<nat>) {
    |gaps| == |cs| && forall i :: 0 <= i < |cs| - 1 ==> gaps[i] > 0
  }

  function Spell(cs: seq<Text>, gaps: seq<nat>): Text
    requires |gaps| == |cs|
  {
    if cs == [] then [] else cs[0] + Seps(gaps[0]) + Spell(cs[1..], gaps[1..])
  }

  lemma {:induction false} NameRunOf(c: Text, q: Text)
    requires SEP !in c && (q == [] || q[0] == SEP)
    ensures NameRun(c + q) == |c|
  {
    if c != [] {
      assert (c + q)[1..] == c[1..] + q;
      NameRunOf(c[1..], q);
    } else {
      assert c + q == q;
    }
  }

  lemma {:induction false} SepRunOf(n: nat, r: Text)
    requires r == [] || r[0] != SEP
    ensures SepRun(Seps(n) + r) == n
  {
    if n > 0 {
      assert (Seps(n) + r)[1..] == Seps(n - 1) + r;
      SepRunOf(n - 1, r);
    } else {
      assert Seps(n) + r == r;
    }
  }

  lemma OneStep(c: Text, n: nat, r: Text)
    requires SEP !in c && (r == [] || (n > 0 && r[0] != SEP))
    ensures First(c + Seps(n) + r) == c && Rest(c + Seps(n) + r) == r
  {
    var p, q := c + Seps(n) + r, Seps(n) + r;
    assert p == c + q;
    NameRunOf(c, q);
    assert p[|c|..] == q;
    SepRunOf(n, r);
  }

  lemma ScanStep(c: Text, n: nat, r: Text)
    requires IsComponent(c) && (r == [] || (n > 0 && r[0] != SEP))
    ensures Scan(c + Seps(n) + r) == [c] + Scan(r)
  {
    OneStep(c, n, r);
  }

  lemma {:induction false} SpellStarts(cs: seq<Text>, gaps: seq<nat>)
    requires AreComponents(cs) && |gaps| == |cs| > 0
    ensures Spell(cs, gaps) != [] && Spell(cs, gaps)[0] != SEP
  {
    assert IsComponent(cs[0]) && cs[0][0] in cs[0];
  }

  /** Tokenising undoes joining, whatever the number of separators. */
  lemma {:induction false} ScanInvertsSpell(cs: seq<Text>, gaps: seq<nat>)
    requires AreComponents(cs) && IsSpacing(cs, gaps)
    ensures Scan(Spell(cs, gaps)) == cs
  {
    if cs != [] {
      assert IsComponent(cs[0]);
      if |cs| > 1 {
        SpellStarts(cs[1..], gaps[1..]);
      }
      OneStep(cs[0], gaps[0], Spell(cs[1..], gaps[1..]));
      ScanInvertsSpell(cs[1..], gaps[1..]);
    }
  }

  function Gaps(p: Text): seq<nat>
    decreases |p|
  {
    if First(p) == [] then [] else [SepRun(p[NameRun(p)..])] + Gaps(Rest(p))
  }

  lemma {:induction false} NameRunStops(p: Text)
    ensures SEP !in First(p)
    ensures NameRun(p) < |p| ==> p[NameRun(p)] == SEP
  {
    if p != [] && p[0] != SEP {
      NameRunStops(p[1..]);
      assert First(p) == [p[0]] + First(p[1..]);
    }
  }

  lemma {:induction false} SepRunStops(p: Text)
    ensures p[..SepRun(p)] == Seps(SepRun(p))
    ensures SepRun(p) < |p| ==> p[SepRun(p)] != SEP
    ensures p != [] && p[0] == SEP ==> SepRun(p) > 0
  {
    if p != [] && p[0] == SEP {
      SepRunStops(p[1..]);
      assert p[..SepRun(p)] == [p[0]] + p[1..][..SepRun(p[1..])];
    }
  }

  lemma TwoCuts(p: Text, n: nat, m: nat)
    requires n <= |p| && m <= |p[n..]|
    ensures p == p[..n] + p[n..][..m] + p[n..][m..]
    ensures p[n..][m..] != [] ==> p[n..][m..][0] == p[n..][m]
    ensures n < |p| ==> p[n..][0] == p[n]
  {
  }

  /** How one component and its separators sit at the front of a path. */
  lemma SplitFront(p: Text)
    ensures p == First(p) + Seps(SepRun(p[NameRun(p)..])) + Rest(p)
    ensures SEP !in First(p)
    ensures Rest(p) != [] ==> Rest(p)[0] != SEP && SepRun(p[NameRun(p)..]) > 0
  {
    NameRunStops(p);
    SepRunStops(p[NameRun(p)..]);
    hide NameRun, SepRun, Seps;
    TwoCuts(p, NameRun(p), SepRun(p[NameRun(p)..]));
  }

  lemma ScanUnfolds(p: Text)
    requires p != [] && p[0] != SEP
    ensures IsComponent(First(p)) && |Rest(p)| < |p|
    ensures Scan(p) == [First(p)] + Scan(Rest(p))
    ensures Gaps(p) == [SepRun(p[NameRun(p)..])] + Gaps(Rest(p))
  {
    SplitFront(p);
  }

  lemma SpellCons(c: Text, n: nat, cs: seq<Text>, gaps: seq<nat>)
    requires |gaps| == |cs|
    ensures Spell([c] + cs, [n] + gaps) == c + Seps(n) + Spell(cs, gaps)
  {
  }

  /** Every path without a leading separator is the spelling of the components scanned from it. */
  lemma {:induction false} SpellInvertsScan(p: Text)
    requires p == [] || p[0] != SEP
    ensures AreComponents(Scan(p)) && IsSpacing(Scan(p), Gaps(p))
    ensures Spell(Scan(p), Gaps(p)) == p
    decreases |p|
  {
    hide Scan, Gaps, Spell, First, Rest, NameRun, SepRun, AreComponents, IsSpacing, IsComponent;
    if p != [] {
      SplitFront(p);
      ScanUnfolds(p);
      var c, n, r := First(p), SepRun(p[NameRun(p)..]), Rest(p);
      SpellInvertsScan(r);
      ScanEmpty(r);
      SpacingCons(c, n, Scan(r), Gaps(r));
      SpellCons(c, n, Scan(r), Gaps(r));
    } else {
      SpellNothing(p);
    }
  }

  lemma SpacingCons(c: Text, n: nat, cs: seq<Text>, gaps: seq<nat>)
    requires IsComponent(c) && AreComponents(cs) && IsSpacing(cs, gaps) && (cs != [] ==> n > 0)
    ensures |gaps| == |cs| && AreComponents([c] + cs) && IsSpacing([c] + cs, [n] + gaps)
  {
    hide IsComponent;
  }

  lemma SpellNothing(p: Text)
    requires p == []
    ensures Scan(p) == [] && Gaps(p) == [] && AreComponents([]) && IsSpacing([], []) && Spell([], []) == []
  {
  }

  lemma ScanEmpty(r: Text)
    ensures r == [] ==> Scan(r) == []
  {
  }

  // ----- Appending and inserting -----

  /** Scanning p\q scans p and then q. */
  lemma {:induction false} ScanAppends(p: Text, q: Text)
    requires p != [] && p[0] != SEP && (q == [] || q[0] != SEP)
    ensures Scan(p + [SEP] + q) == Scan(p) + Scan(q)
    decreases |p|
  {
    SplitFront(p);
    var c, n, r := First(p), SepRun(p[NameRun(p)..]), Rest(p);
    if r != [] {
      ScanAppends(r, q);
    }
    ScanAppendsFrom(c, n, r, q);
  }

  lemma ScanAppendsFrom(c: Text, n: nat, r: Text, q: Text)
    requires IsComponent(c) && (r == [] || (n > 0 && r[0] != SEP)) && (q == [] || q[0] != SEP)
    requires r != [] ==> Scan(r + [SEP] + q) == Scan(r) + Scan(q)
    ensures var p := c + Seps(n) + r; Scan(p + [SEP] + q) == Scan(p) + Scan(q)
  {
    hide Scan;
    ScanStep(c, n, r);
    AppendStep(c, n, r, q);
    if r != [] {
      assert [c] + (Scan(r) + Scan(q)) == [c] + Scan(r) + Scan(q);
    } else {
      ScanEmpty(r);
    }
  }

  lemma AppendStep(c: Text, n: nat, r: Text, q: Text)
    requires IsComponent(c) && (r == [] || (n > 0 && r[0] != SEP)) && (q == [] || q[0] != SEP)
    ensures Scan(c + Seps(n) + r + [SEP] + q) == [c] + Scan(if r == [] then q else r + [SEP] + q)
  {
    hide Scan;
    var p := c + Seps(n) + r;
    if r == [] {
      assert p + [SEP] + q == c + Seps(n + 1) + q;
      ScanStep(c, n + 1, q);
    } else {
      assert p + [SEP] + q == c + Seps(n) + (r + [SEP] + q);
      ScanStep(c, n, r + [SEP] + q);
    }
  }

  lemma {:induction false} NonDotConcat(a: seq<Text>, b: seq<Text>)
    ensures NonDot(a + b) == NonDot(a) + NonDot(b)
  {
    if a == [] {
      assert a + b == b;
    } else {
      assert (a + b)[1..] == a[1..] + b;
      NonDotConcat(a[1..], b);
    }
  }

  lemma NamesAppend(p: Text, q: Text)
    requires p != [] && p[0] != SEP && (q == [] || q[0] != SEP)
    ensures Names(p + [SEP] + q) == Names(p) + Names(q)
  {
    ScanAppends(p, q);
    NonDotConcat(Scan(p), Scan(q));
  }

  /** Inserting a "." component anywhere, and any choice of separator runs, leaves the names unchanged. */
  lemma NamesIgnoreDotsAndGaps(a: seq<Text>, b: seq<Text>, dotted: seq<nat>, plain: seq<nat>)
    requires AreComponents(a) && AreComponents(b)
    requires IsSpacing(a + [[DOT]] + b, dotted) && IsSpacing(a + b, plain)
    ensures Names(Spell(a + [[DOT]] + b, dotted)) == Names(Spell(a + b, plain)) == NonDot(a) + NonDot(b)
  {
    hide Spell, Scan, NonDot;
    assert IsComponent([DOT]);
    ScanInvertsSpell(a + [[DOT]] + b, dotted);
    ScanInvertsSpell(a + b, plain);
    NonDotConcat(a, b);
    NonDotConcat(a + [[DOT]], b);
    NonDotConcat(a, [[DOT]]);
    NonDotDot();
  }

  lemma NonDotDot()
    ensures NonDot([[DOT]]) == []
  {
  }

  // ----- Forward and backward scans -----

  /** The file name is separator-free and cannot be extended to the left. */
  lemma {:induction false} FileNameIsLongestSuffix(p: Text)
    ensures var n := |FileNameOf(p)|;
      n <= |p| && p[|p| - n..] == FileNameOf(p) && SEP !in FileNameOf(p) && (n < |p| ==> p[|p| - n - 1] == SEP)
  {
    if p != [] && p[|p| - 1] != SEP {
      FileNameIsLongestSuffix(p[..|p| - 1]);
    }
  }

  lemma {:induction false} FileNameOfSuffix(a: Text, n: nat, b: Text)
    requires n > 0
    ensures FileNameOf(a + Seps(n) + b) == FileNameOf(b)
  {
    var p := a + Seps(n) + b;
    if b == [] {
      assert p[|p| - 1] == SEP;
    } else {
      assert p[..|p| - 1] == a + Seps(n) + b[..|b| - 1];
      FileNameOfSuffix(a, n, b[..|b| - 1]);
    }
  }

  lemma {:induction false} FileNameOfPlain(c: Text)
    requires SEP !in c
    ensures FileNameOf(c) == c
  {
    if c != [] {
      assert c[|c| - 1] in c;
      FileNameOfPlain(c[..|c| - 1]);
    }
  }

  /**
   For a path without a leading separator the backward scan finds the last component of the
   forward scan exactly when there is no trailing separator.
   */
  lemma {:induction false} BackwardMeetsForward(p: Text)
    requires p != [] && p[0] != SEP
    ensures Scan(p) != []
    ensures FileNameOf(p) == Scan(p)[|Scan(p)| - 1] <==> p[|p| - 1] != SEP
    decreases |p|
  {
    hide Scan, First, Rest, NameRun, SepRun, FileNameOf;
    SplitFront(p);
    ScanUnfolds(p);
    var c, n, r := First(p), SepRun(p[NameRun(p)..]), Rest(p);
    if r != [] {
      BackwardMeetsForward(r);
      FileNameOfSuffix(c, n, r);
      assert Scan(p)[|Scan(p)| - 1] == Scan(r)[|Scan(r)| - 1];
    } else {
      ScanEmpty(r);
      FileNameOfLast(c, n);
      assert p == c + Seps(n);
    }
  }

  lemma FileNameOfLast(c: Text, n: nat)
    requires IsComponent(c)
    ensures FileNameOf(c + Seps(n)) == if n == 0 then c else []
    ensures (c + Seps(n))[|c| + n - 1] == SEP <==> n > 0
  {
    if n == 0 {
      assert c + Seps(n) == c;
      FileNameOfPlain(c);
      assert c[|c| - 1] in c;
    }
  }
}
