/**
 What the calls return, for every script of fates, any state of the handle and any tree: the status
 of the first exchange that fails, and what the server has when none does.
 */
module Answers {
  import opened Ints
  import opened Statuses
  import opened Paths
  import opened P9Strings
  import opened Protocol
  import opened Walking
  import opened WalkFates
  import opened Operations
  import opened Directories

  // ----- P9Open and P9Close -----

  /** The status of a Tlopen with the given fate, for a fid in the given state on the server. */
  function OpenAnswer(f: Fate, state: Option<FidState>): Status {
    Answered(f, if state.Some? && !state.value.isOpen then 0 else EBADF)
  }

  lemma LOpenAnswers(tree: Tree, l: Link, fid: u32, qid: Qid)
    ensures var (status, l', qid') := LOpen(tree, l, fid, qid);
      && status == OpenAnswer(FateAt(l.fates, 0), StateAt(l.fids, fid)) && l'.issued == l.issued
      && l'.fates == Spent(l).fates
      && (status == Success && FateAt(l.fates, 0).Served? ==>
            fid in l.fids && l'.fids == l.fids[fid := FidState(l.fids[fid].node, true)]
            && qid' == tree.qid(l.fids[fid].node))
      && (!Reaches(FateAt(l.fates, 0)) ==> l'.fids == l.fids)
      && (!(status == Success && FateAt(l.fates, 0).Served?) ==> qid' == qid)
  {
  }

  /** What P9Open answers for a name, if it is given. */
  function OpenStatus(tree: Tree, l: Link, rootFid: u32, fid: u32, name: Option<Text>, mode: u64, stale: Target)
    : Status
  {
    if name.None? || mode != 1 then InvalidParameter
    else match CourseOf(tree, l, rootFid, fid, name.value, stale)
      case Fails(status) => status
      case Ends(state) => OpenAnswer(FateAt(l.fates, FidCost(name.value)), state)
  }

  lemma OpenFileParts(tree: Tree, l: Link, rootFid: u32, fid: u32, path: Text, stale: Target)
    ensures var r, w := OpenFile(tree, l, rootFid, fid, Some(path), EFI_FILE_MODE_READ, stale),
                        Walk(tree, l, rootFid, fid, path, stale);
      var (status, l', qid) := LOpen(tree, w.link, w.target.fid, w.target.qid);
      && (w.status != Success ==> r == OpenResult(w.status, w.link, None))
      && (w.status == Success ==> r.status == status && r.link == l' && (r.handle.Some? <==> status == Success))
  {
    hide Walk, LOpen, FileNameOf, FileNameField;
  }

  /**
   The status of P9Open for every script: INVALID_PARAMETER without a name or in another mode than
   reading; else that of the walk, if it fails; else that of the Tlopen.
   */
  lemma OpenAnswers(tree: Tree, l: Link, rootFid: u32, fid: u32, name: Option<Text>, mode: u64, stale: Target)
    requires Followed(l, OpenFile(tree, l, rootFid, fid, name, mode, stale).link)
    ensures OpenFile(tree, l, rootFid, fid, name, mode, stale).status
      == OpenStatus(tree, l, rootFid, fid, name, mode, stale)
    ensures var r := OpenFile(tree, l, rootFid, fid, name, mode, stale); r.handle.Some? <==> r.status == Success
  {
    hide Walk, LOpen, FileNameOf, FileNameField, CourseOf, FidCost, OpenAnswer, Followed, StateAt;
    if name.Some? && mode == EFI_FILE_MODE_READ {
      var w := Walk(tree, l, rootFid, fid, name.value, stale);
      LOpenAnswers(tree, w.link, w.target.fid, w.target.qid);
      SameFollowed(l, w.link, OpenFile(tree, l, rootFid, fid, name, mode, stale).link);
      WalkCourse(tree, l, rootFid, fid, name.value, stale);
      if w.status == Success {
        assert FateAt(w.link.fates, 0) == FateAt(l.fates, FidCost(name.value));
      }
    }
  }

  /** A path that names something ends at a fid that is not open. */
  lemma CourseEndsClosed(tree: Tree, l: Link, rootFid: u32, fid: u32, path: Text, stale: Target)
    requires IsDefined(path)
    ensures var c := CourseOf(tree, l, rootFid, fid, path, stale);
      c.Ends? && c.state.Some? ==> !c.state.value.isOpen
  {
    hide Names, Busy;
    if path != [] && !IsSpecial(path) {
      NamesEndClosed(tree, l.fates, l.fids.Keys, l.issued, StartFid(rootFid, fid, path),
        StateAt(l.fids, StartFid(rootFid, fid, path)), Route(path));
    }
  }

  lemma {:induction false} NamesEndClosed(tree: Tree, fates: seq<Fate>, used: set<nat>, issued: nat, source: nat,
                                          state: Option<FidState>, names: seq<Text>)
    requires names == [] && state.Some? ==> !state.value.isOpen
    ensures var c := CourseFrom(tree, fates, used, issued, source, state, names);
      c.Ends? && c.state.Some? ==> !c.state.value.isOpen
    decreases |names|
  {
    hide Busy;
    if names != [] {
      var n, f := issued % 0x1_0000_0000, FateAt(fates, 0);
      if f == Refused(0) {
        NamesEndClosed(tree, fates[1..], used, issued + 1, n, None, names[1..]);
      } else if f.Served? && state.Some? && tree.child(state.value.node, Narrow(names[0])).Some? {
        var c := tree.child(state.value.node, Narrow(names[0])).value;
        NamesEndClosed(tree, fates[1..], used + {n}, issued + 1, n, Some(FidState(c, false)), names[1..]);
      }
    }
  }

  lemma SameFollowed(l: Link, a: Link, b: Link)
    requires Followed(l, b) && a.issued == b.issued
    ensures Followed(l, a)
  {
  }

  /**
   Over served exchanges P9Open answers by the path alone: NOT_FOUND exactly when it does not resolve
   past the guard, INVALID_PARAMETER for no name, the empty one, or a mode other than 1.
   */
  lemma OpenAnswersServed(tree: Tree, l: Link, rootFid: u32, fid: u32, name: Option<Text>, mode: u64, stale: Target)
    requires name.Some? ==> WalkReady(l, rootFid, fid, name.value) && IsDefined(name.value)
                            && Healthy(l, FidCost(name.value) + 1)
    ensures OpenFile(tree, l, rootFid, fid, name, mode, stale).status ==
      if name.None? || mode != 1 || name.value == [] then InvalidParameter
      else if Resolves(tree, l, rootFid, fid, name.value) then Success else NotFound
  {
    hide Walk, LOpen, FileNameOf, FileNameField, FidCost, StartNode, Route, Resolves, IsDefined, Guarded, AddsRange;
    if name.Some? && mode == EFI_FILE_MODE_READ {
      var path := name.value;
      OpenFileParts(tree, l, rootFid, fid, path, stale);
      if path == [] {
        EmptyWalk(tree, l, rootFid, fid, stale);
      } else {
        WalkRefinesResolve(tree, l, rootFid, fid, path, stale);
        if Resolves(tree, l, rootFid, fid, path) {
          OpenServed(tree, l, rootFid, fid, path, stale);
        }
      }
    }
  }

  lemma EmptyWalk(tree: Tree, l: Link, rootFid: u32, fid: u32, stale: Target)
    ensures Walk(tree, l, rootFid, fid, [], stale).status == InvalidParameter
  {
  }

  /**
   The first exchange of an open that is not served, after k names have been walked, decides: an
   Rlerror gives the status of its code, anything lost a transport error.
   */
  lemma OpenFailsAt(tree: Tree, l: Link, rootFid: u32, fid: u32, path: Text, stale: Target, k: nat)
    requires WalkPlain(l, rootFid, fid, path) && Below(l) && l.issued + |Route(path)| <= P9_NOFID && k <= |Route(path)|
    requires Healthy(l, k) && Reached(tree, l.fids[StartFid(rootFid, fid, path)].node, Route(path)) >= k
    requires !FateAt(l.fates, k).Served? && FateAt(l.fates, k) != Refused(0)
    ensures OpenFile(tree, l, rootFid, fid, Some(path), 1, stale).status ==
      match FateAt(l.fates, k) case Refused(ecode) => CodeStatus(ecode) case _ => TransportError
  {
    hide OpenFile, Names, ErrnosNonZero;
    OpenIssues(tree, l, rootFid, fid, path, stale);
    OpenAnswers(tree, l, rootFid, fid, Some(path), 1, stale);
    var start := StartFid(rootFid, fid, path);
    CourseFailsAt(tree, l.fates, l.fids.Keys, l.issued, start, l.fids[start], Route(path), k);
  }

  lemma OpenIssues(tree: Tree, l: Link, rootFid: u32, fid: u32, path: Text, stale: Target)
    requires WalkPlain(l, rootFid, fid, path)
    ensures OpenFile(tree, l, rootFid, fid, Some(path), 1, stale).link.issued <= l.issued + |Route(path)|
  {
    hide WalkNames, LOpen, Names, FileNameOf, FileNameField;
    OpenFileParts(tree, l, rootFid, fid, path, stale);
    var w := Walk(tree, l, rootFid, fid, path, stale);
    LOpenAnswers(tree, w.link, w.target.fid, w.target.qid);
    WalkIssuesAtMost(tree, l, StartFid(rootFid, fid, path), Route(path), stale);
  }

  lemma {:induction false} WalkIssuesAtMost(tree: Tree, l: Link, fid: u32, names: seq<Text>, target: Target)
    ensures WalkNames(tree, l, fid, names, target).link.issued <= l.issued + |names|
    decreases |names|
  {
    WalkNamesUnfold(tree, l, fid, names, target);
    if names != [] {
      var newFid := MFid(l);
      var (status, l', qid) := DoP9Walk(tree, AfterGetFid(l), fid, newFid, names[0]);
      hide WalkNames;
      if status == Success {
        WalkIssuesAtMost(tree, l', newFid, names[1..], Target(newFid, qid));
      }
    }
  }

  /** A path with names, walked from a fid that exists. */
  predicate WalkPlain(l: Link, rootFid: u32, fid: u32, path: Text) {
    path != [] && !IsSpecial(path) && !Guarded(rootFid, fid, path) && Route(path) != []
    && StartFid(rootFid, fid, path) in l.fids
  }

  lemma ServedCourse(tree: Tree, fates: seq<Fate>, used: set<nat>, issued: nat, source: nat, state: FidState,
                     names: seq<Text>)
    requires names != [] && FateAt(fates, 0).Served? && tree.child(state.node, Narrow(names[0])).Some?
    requires issued < P9_NOFID && issued !in used
    ensures CourseFrom(tree, fates, used, issued, source, Some(state), names)
      == CourseFrom(tree, fates[1..], used + {issued}, issued + 1, issued,
                    Some(FidState(tree.child(state.node, Narrow(names[0])).value, false)), names[1..])
  {
  }

  lemma {:induction false} CourseFailsAt(tree: Tree, fates: seq<Fate>, used: set<nat>, issued: nat, source: nat,
                                         state: FidState, names: seq<Text>, k: nat)
    requires k <= |names| && k <= |fates| && (forall i :: 0 <= i < k ==> fates[i].Served?)
    requires Reached(tree, state.node, names) >= k && issued + |names| <= P9_NOFID
    requires forall f :: f in used ==> f < issued
    requires !FateAt(fates, k).Served? && FateAt(fates, k) != Refused(0)
    ensures var c := CourseFrom(tree, fates, used, issued, source, Some(state), names);
      if k == |names| then c.Ends? && c.state.Some? && (names != [] ==> !c.state.value.isOpen)
      else c == Fails(match FateAt(fates, k) case Refused(ecode) => CodeStatus(ecode) case _ => TransportError)
    decreases |names|
  {
    hide CourseFrom;
    if k == 0 {
      CourseAtOnce(tree, fates, used, issued, source, state, names);
    } else {
      ReachedTail(tree, state.node, names, k);
      ServedCourse(tree, fates, used, issued, source, state, names);
      hide Reached;
      var child := tree.child(state.node, Narrow(names[0])).value;
      assert forall i :: 0 <= i < k - 1 ==> fates[1..][i] == fates[i + 1];
      assert FateAt(fates[1..], k - 1) == FateAt(fates, k);
      CourseFailsAt(tree, fates[1..], used + {issued}, issued + 1, issued, FidState(child, false), names[1..], k - 1);
      CourseAtOnce(tree, fates[1..], used + {issued}, issued + 1, issued, FidState(child, false), names[1..]);
    }
  }

  lemma ReachedTail(tree: Tree, node: Node, names: seq<Text>, k: nat)
    requires 0 < k <= |names| && Reached(tree, node, names) >= k
    ensures tree.child(node, Narrow(names[0])).Some?
            && Reached(tree, tree.child(node, Narrow(names[0])).value, names[1..]) >= k - 1
  {
  }

  /** Without names a course is at its end, and otherwise a first exchange that is not served ends it. */
  lemma CourseAtOnce(tree: Tree, fates: seq<Fate>, used: set<nat>, issued: nat, source: nat, state: FidState,
                     names: seq<Text>)
    ensures var c := CourseFrom(tree, fates, used, issued, source, Some(state), names);
      && (names == [] ==> c == Ends(Some(state)))
      && (names != [] && !FateAt(fates, 0).Served? && FateAt(fates, 0) != Refused(0) ==>
            c == Fails(match FateAt(fates, 0) case Refused(ecode) => CodeStatus(ecode) case _ => TransportError))
  {
  }

  /**
   A handle is named after the last component of its path, if that has at most 255 characters; after
   a trailing separator, or a longer component, its name is empty.
   */
  lemma OpenedName(tree: Tree, l: Link, rootFid: u32, fid: u32, path: Text, stale: Target)
    requires Relative(path) != [] && Relative(path)[0] != SEP
    ensures var r, cs := OpenFile(tree, l, rootFid, fid, Some(path), 1, stale), Scan(Relative(path));
      r.handle.Some? ==>
        cs != [] && r.handle.value.fileName
          == if path[|path| - 1] == SEP || |cs[|cs| - 1]| > 255 then [] else cs[|cs| - 1]
  {
    hide OpenFile, Scan, FileNameOf;
    HandleNamedAfterLastComponent(path);
    NameAfterSeparator(path);
    OpenFileName(tree, l, rootFid, fid, path, stale);
  }

  lemma NameAfterSeparator(path: Text)
    ensures path != [] && path[|path| - 1] == SEP ==> FileNameOf(path) == []
  {
  }

  lemma OpenFileName(tree: Tree, l: Link, rootFid: u32, fid: u32, path: Text, stale: Target)
    ensures var r := OpenFile(tree, l, rootFid, fid, Some(path), 1, stale);
      r.handle.Some? ==>
        r.handle.value.fileName == if |FileNameOf(path)| <= 255 then FileNameOf(path) else []
  {
    hide Walk, LOpen, FileNameOf;
  }

  /** The fid of a handle is gone whatever P9Close is answered; an Rlerror does not fit its 7-byte buffer. */
  lemma ClunkAnswers(l: Link, fid: u32)
    ensures Clunk(l, fid).0 ==
      match FateAt(l.fates, 0)
      case Served(_) => if fid in l.fids then Success else BufferTooSmall
      case Refused(_) => BufferTooSmall
      case _ => TransportError
  {
  }

  // ----- P9DirRead -----

  /** The status of the open with which P9DirRead starts, if the handle has not been opened. */
  function OpeningAnswer(l: Link, h: Handle): Status {
    if h.isOpened then Success else OpenAnswer(FateAt(l.fates, 0), StateAt(l.fids, h.fid))
  }

  /** The connection after that, if it went well. */
  function OpenedLink(l: Link, h: Handle): Link {
    if h.isOpened then l
    else if FateAt(l.fates, 0).Served? && h.fid in l.fids
    then Spent(l).(fids := l.fids[h.fid := FidState(l.fids[h.fid].node, true)])
    else Spent(l)
  }

  /** The server has the fid of the handle open. */
  predicate IsReadable(l: Link, h: Handle) { h.fid in l.fids && l.fids[h.fid].isOpen }

  /** The status of the Treaddir. */
  function ReadingAnswer(l: Link, h: Handle): Status {
    Answered(FateAt(l.fates, 0), if IsReadable(l, h) then 0 else EBADF)
  }

  /** No entry comes with an Rreaddir: the listing is at its end, or the name does not fit the count asked for. */
  predicate NothingLeft(tree: Tree, l: Link, h: Handle) {
    IsReadable(l, h)
    && var entries := tree.listing(l.fids[h.fid].node);
       h.position >= |entries| || |entries[h.position].name| > 255
  }

  datatype DirReturn = DirReturn(status: Status, size: nat, info: Option<FileInfo>)

  /** The rest of P9DirRead once it has a name: the buffer is too small for it, or it is walked to and looked at. */
  function EntryReturn(tree: Tree, l: Link, rootFid: u32, fid: u32, size: nat, name: Name, signedChar: bool,
                       stale: Target): DirReturn {
    var needed, path := 80 + 2 * (|name| + 1), EntryPath(name, signedChar);
    if size < needed then DirReturn(BufferTooSmall, needed, None)
    else match CourseOf(tree, l, rootFid, fid, path, stale)
      case Fails(status) => DirReturn(status, size, None)
      case Ends(state) =>
        var f := FateAt(l.fates, FidCost(path));
        var status := Answered(f, if state.Some? then 0 else EBADF);
        if status != Success then DirReturn(status, size, None)
        else DirReturn(Success, needed,
                       if f.Served? then Some(InfoOf(tree.attr(state.value.node), FileNameField(path))) else None)
  }

  /** What P9DirRead returns; an Rlerror with code 0 to the Treaddir leaves it with an empty name. */
  function DirAnswer(tree: Tree, l: Link, rootFid: u32, h: Handle, size: nat, signedChar: bool, stale: Target)
    : DirReturn
  {
    var l1 := OpenedLink(l, h);
    if OpeningAnswer(l, h) != Success then DirReturn(OpeningAnswer(l, h), size, None)
    else if ReadingAnswer(l1, h) != Success then DirReturn(ReadingAnswer(l1, h), size, None)
    else if FateAt(l1.fates, 0) == Refused(0)
    then EntryReturn(tree, Spent(l1), rootFid, h.fid, size, [], signedChar, stale)
    else if NothingLeft(tree, l1, h) then DirReturn(Success, 0, None)
    else EntryReturn(tree, Spent(l1), rootFid, h.fid, size, tree.listing(l1.fids[h.fid].node)[h.position].name,
                     signedChar, stale)
  }

  lemma ReadDirAnswers(tree: Tree, l: Link, h: Handle)
    ensures var r := ReadDir(tree, l, h.fid, h.position, ENTRY_SIZE);
      && r.status == ReadingAnswer(l, h) && r.link == Spent(l)
      && (r.status == Success && FateAt(l.fates, 0) == Refused(0) ==> r.count > 0 && EntryName(r.data) == [])
      && (r.status == Success && FateAt(l.fates, 0) != Refused(0) ==>
            && IsReadable(l, h) && (r.count == 0 <==> NothingLeft(tree, l, h))
            && (r.count > 0 ==> EntryName(r.data) == tree.listing(l.fids[h.fid].node)[h.position].name
                                && (h.position + 1 < TWO64 ==> EntryOffset(r.data) == h.position + 1)))
  {
    hide DirPayload, EntryName, EntryOffset;
    ReadDirByFate(tree, l, h.fid, h.position);
    ZeroEntry();
  }

  lemma GetAttrAnswers(tree: Tree, l: Link, fid: u32)
    ensures var (status, l', node) := GetAttr(tree, l, fid);
      && status == Answered(FateAt(l.fates, 0), if StateAt(l.fids, fid).Some? then 0 else EBADF)
      && l'.issued == l.issued
      && (status == Success ==>
            node == if FateAt(l.fates, 0).Served? then Some(l.fids[fid].node) else None)
  {
  }

  lemma EntryAnswers(tree: Tree, l: Link, rootFid: u32, h: Handle, size: nat, data: seq<u8>, signedChar: bool,
                     stale: Target)
    requires |data| == ENTRY_SIZE
    requires Followed(l, DeliverEntry(tree, l, rootFid, h, size, data, signedChar, stale).link)
    ensures var r := DeliverEntry(tree, l, rootFid, h, size, data, signedChar, stale);
      && DirReturn(r.status, r.size, r.info)
           == EntryReturn(tree, l, rootFid, h.fid, size, EntryName(data), signedChar, stale)
      && r.handle == (if r.status == Success then h.(position := EntryOffset(data) % TWO64) else h)
      && (r.status == Success ==> r.size > 0)
  {
    hide Walk, GetAttr, EntryName, EntryOffset, EntryPath, InfoOf, FileNameField, CourseOf, FidCost, Followed;
    var name := EntryName(data);
    if size >= InfoSize(|name|) {
      var path := EntryPath(name, signedChar);
      var w := Walk(tree, l, rootFid, h.fid, path, stale);
      GetAttrAnswers(tree, w.link, w.target.fid);
      SameFollowed(l, w.link, DeliverEntry(tree, l, rootFid, h, size, data, signedChar, stale).link);
      WalkCourse(tree, l, rootFid, h.fid, path, stale);
      if w.status == Success {
        assert FateAt(w.link.fates, 0) == FateAt(l.fates, FidCost(path));
      }
    }
  }

  lemma OpeningAnswers(tree: Tree, l: Link, h: Handle)
    ensures var (status, l0, qid) := if h.isOpened then (Success, l, h.qid) else LOpen(tree, l, h.fid, h.qid);
      status == OpeningAnswer(l, h) && (status == Success ==> l0 == OpenedLink(l, h)) && l0.issued == l.issued
  {
    if !h.isOpened {
      LOpenAnswers(tree, l, h.fid, h.qid);
      hide LOpen;
    }
  }

  lemma OpenedFollowed(l: Link, h: Handle, after: Link)
    requires Followed(l, after)
    ensures Followed(OpenedLink(l, h), after) && Followed(Spent(OpenedLink(l, h)), after)
  {
    ErrnosTail(l);
    ErrnosTail(OpenedLink(l, h));
  }

  /** P9DirRead in its three exchanges before a name is known. */
  lemma DirReadParts(tree: Tree, l: Link, rootFid: u32, h: Handle, size: nat, signedChar: bool, stale: Target)
    ensures var r := DirRead(tree, l, rootFid, h, size, signedChar, stale);
      var (status, l0, qid) := if h.isOpened then (Success, l, h.qid) else LOpen(tree, l, h.fid, h.qid);
      var h0, d := h.(qid := qid, isOpened := true), ReadDir(tree, l0, h.fid, h.position, ENTRY_SIZE);
      r == if status != Success then DirResult(status, l0, h, size, None)
           else if d.status != Success then DirResult(d.status, d.link, h0, size, None)
           else if d.count == 0 then DirResult(Success, d.link, h0, 0, None)
           else DeliverEntry(tree, d.link, rootFid, h0, size, d.data, signedChar, stale)
  {
    hide LOpen, ReadDir, DeliverEntry;
  }

  /**
   P9DirRead for every script, tree and state of the handle: status, size and information follow from
   the fates of its open, readdir, walks and getattr. Position moves by one entry exactly when an
   entry is delivered, and any error leaves it where it was.
   */
  lemma DirReadAnswers(tree: Tree, l: Link, rootFid: u32, h: Handle, size: nat, signedChar: bool, stale: Target)
    requires Followed(l, DirRead(tree, l, rootFid, h, size, signedChar, stale).link)
    ensures var r := DirRead(tree, l, rootFid, h, size, signedChar, stale);
      && DirReturn(r.status, r.size, r.info) == DirAnswer(tree, l, rootFid, h, size, signedChar, stale)
      && (r.status != Success || r.size == 0 ==> r.handle.position == h.position)
      && (r.status == Success && r.size > 0 && FateAt(OpenedLink(l, h).fates, 0).Served? && h.position + 1 < TWO64 ==>
            r.handle.position == h.position + 1)
      && r.handle.isOpened == (h.isOpened || OpeningAnswer(l, h) == Success)
  {
    hide LOpen, ReadDir, DeliverEntry, EntryName, EntryOffset, EntryReturn, DirRead, Followed, OpenedLink;
    DirReadParts(tree, l, rootFid, h, size, signedChar, stale);
    OpeningAnswers(tree, l, h);
    var r := DirRead(tree, l, rootFid, h, size, signedChar, stale);
    var (status, l0, qid) := if h.isOpened then (Success, l, h.qid) else LOpen(tree, l, h.fid, h.qid);
    if status == Success {
      var h0, d := h.(qid := qid, isOpened := true), ReadDir(tree, l0, h.fid, h.position, ENTRY_SIZE);
      ReadDirAnswers(tree, l0, h);
      OpenedFollowed(l, h, r.link);
      if d.status == Success && d.count > 0 {
        EntryAnswers(tree, d.link, rootFid, h0, size, d.data, signedChar, stale);
      }
    }
  }

  /**
   The end of a listing: for every script, P9DirRead reports success with size 0 if and only if its
   Treaddir was served on an open fid and no entry came with it.
   */
  lemma EndOfListingIff(tree: Tree, l: Link, rootFid: u32, h: Handle, size: nat, signedChar: bool, stale: Target)
    requires Followed(l, DirRead(tree, l, rootFid, h, size, signedChar, stale).link)
    ensures var r, l1 := DirRead(tree, l, rootFid, h, size, signedChar, stale), OpenedLink(l, h);
      r.status == Success && r.size == 0 <==>
        OpeningAnswer(l, h) == Success && FateAt(l1.fates, 0).Served? && NothingLeft(tree, l1, h)
  {
    hide DirRead, CourseOf, EntryPath, InfoOf, FileNameField, FidCost, Followed;
    DirReadAnswers(tree, l, rootFid, h, size, signedChar, stale);
  }

  /** A Treaddir that is refused or lost fails an opened handle's call with its status and changes nothing else. */
  lemma RefusedListing(tree: Tree, l: Link, rootFid: u32, h: Handle, size: nat, signedChar: bool, stale: Target)
    requires h.isOpened && !FateAt(l.fates, 0).Served? && FateAt(l.fates, 0) != Refused(0)
    ensures DirRead(tree, l, rootFid, h, size, signedChar, stale) ==
      DirResult(match FateAt(l.fates, 0) case Refused(ecode) => CodeStatus(ecode) case _ => TransportError,
                Spent(l), h, size, None)
  {
    hide ReadDir, DeliverEntry;
    ReadDirAnswers(tree, l, h);
    assert h.(qid := h.qid, isOpened := true) == h;
  }

  // ----- P9SymLinkRead -----

  /** A readlink that is not served fails with its status, or with code 0 delivers the text of an earlier read. */
  lemma SymLinkAnswers(tree: Tree, l: Link, fid: u32, before: Text, size: nat, signedChar: bool)
    requires !(FateAt(l.fates, 0).Served? && fid in l.fids)
    ensures var r := SymLinkRead(tree, l, fid, before, size, signedChar);
      var status := Answered(FateAt(l.fates, 0), EBADF);
      && r.target == before && r.link == Spent(l)
      && (status != Success ==> r.status == status && r.size == size && r.text == None)
      && (status == Success ==>
            FateAt(l.fates, 0) == Refused(0)
            && (if size < 2 * |before| + 2
                then r.status == BufferTooSmall && r.size == 2 * |before| + 2 && r.text == None
                else r.status == Success && r.text == Some(before)))
  {
  }
}
