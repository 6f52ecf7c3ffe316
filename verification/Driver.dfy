/** P9_VOLUME as an object: walking, opening, reading and closing, each call proved against its function. */
module Driver {
  import opened Ints
  import opened Bytes
  import opened Statuses
  import opened Paths
  import opened P9Strings
  import opened Wire
  import opened Protocol
  import opened Walking
  import opened Operations
  import opened Sessions
  import opened Volumes
  import opened Reading
  import opened Chunks
  import opened Files
  import opened Server
  import opened Decoding
  import Ipv4
  import Messages
  import Replies

  const O_RDONLY: u32 := 0
  const P9_GETATTR_ALL: u64 := 0x3FFF

  /** Every component fits the ComponentName buffer of P9Walk. */
  predicate ComponentsFit(path: Text) {
    forall i :: 0 <= i < |Scan(Relative(path))| ==> |Scan(Relative(path))[i]| < P9_MAX_PATH
  }

  lemma NamesUnfold(p: Text)
    ensures Names(p) == if First(p) == [] then []
                        else (if IsDot(First(p)) then [] else [First(p)]) + Names(Rest(p))
    ensures First(p) != [] ==> Scan(p) == [First(p)] + Scan(Rest(p))
    ensures |Rest(p)| + |First(p)| <= |p|
  {
    SplitFront(p);
  }

  lemma {:induction false} UpToNulOf(s: Text, rest: Text)
    requires IsText(s)
    ensures UpToNul(s + [0] + rest) == s
  {
    if s != [] {
      assert (s + [0] + rest)[1..] == s[1..] + [0] + rest;
      assert s == [s[0]] + s[1..];
      UpToNulOf(s[1..], rest);
    }
  }

  lemma WalkNamesCons(tree: Tree, l: Link, fid: u32, name: Text, rest: seq<Text>, target: Target)
    ensures WalkNames(tree, l, fid, [name] + rest, target) ==
      var newFid := MFid(l);
      var (status, l', qid) := Protocol.DoP9Walk(tree, AfterGetFid(l), fid, newFid, name);
      if status.IsError() then WalkResult(status, l', Target(newFid, qid))
      else WalkNames(tree, l', newFid, rest, Target(newFid, qid))
  {
    hide Protocol.DoP9Walk;
    assert ([name] + rest)[1..] == rest;
  }

  /** Fetches the next component into the buffer and looks at it as a C string. */
  method NextComponent(path: Text, start: nat, componentName: array<u16>) returns (component: Text, next: nat)
    requires IsText(path) && start <= |path| && |First(path[start..])| < componentName.Length
    modifies componentName
    ensures component == First(path[start..]) && IsText(component) && |component| < componentName.Length
    ensures start <= next <= |path| && path[next..] == Rest(path[start..])
    ensures componentName[0] == 0 <==> component == []
    ensures component != [] ==> start < next
  {
    hide Scan, NonDot, NameRun, SepRun;
    ghost var p := path[start..];
    next := P9GetNextNameComponent(path, start, componentName);
    ghost var n := |First(p)|;
    assert componentName[..] == componentName[..n] + [0] + componentName[n + 1..];
    assert forall i :: 0 <= i < n ==> First(p)[i] == path[start + i] && componentName[i] == First(p)[i];
    UpToNulOf(First(p), componentName[n + 1..]);
    component := UpToNul(componentName[..]);
    NamesUnfold(p);
    assert |Rest(p)| == |path| - next;
  }

  lemma DirReadHandle(tree: Tree, l: Link, rootFid: u32, d: Handle, size: nat, signedChar: bool, stale: Target,
                      spent: nat, position: u64)
    requires HasBit(d.qid.kind, QTDIR)
    ensures var r := DirRead(tree, l, rootFid, d, size, signedChar, stale);
      ReadHandle(tree, l, rootFid, d, size, signedChar, stale, spent, position) == (r.link, r.handle)
  {
    hide DirRead;
  }

  lemma SymLinkReadHandle(tree: Tree, l: Link, rootFid: u32, d: Handle, size: nat, signedChar: bool, stale: Target,
                          spent: nat)
    requires !HasBit(d.qid.kind, QTDIR) && HasBit(d.qid.kind, QTSYMLINK)
    ensures forall target, n ::
      ReadHandle(tree, l, rootFid, d, size, signedChar, stale, spent, d.position)
      == (SymLinkRead(tree, l, d.fid, target, n, signedChar).link, d)
  {
    hide ReadLink, LinkTarget;
  }

  lemma FileReadHandle(tree: Tree, l: Link, rootFid: u32, d: Handle, size: nat, signedChar: bool, stale: Target,
                       spent: nat, position: u64)
    requires !HasBit(d.qid.kind, QTDIR) && !HasBit(d.qid.kind, QTSYMLINK)
    ensures ReadHandle(tree, l, rootFid, d, size, signedChar, stale, spent, position)
      == (SkipFates(l, spent), d.(position := position))
  {
  }

  lemma ReadIsStep<H>(tree: Tree, signedChar: bool, s: Session<H>, h: H, size: nat, stale: Target, spent: nat,
                      position: u64, l: Link, d: Handle)
    requires s.root in s.handles && h in s.handles
    requires ReadHandle(tree, s.link, RootFid(s), s.handles[h], size, signedChar, stale, spent, position) == (l, d)
    ensures Step(tree, signedChar, s, Op.Read(h, size, stale, spent, position))
      == Session(l, s.root, s.handles[h := d])
  {
    hide ReadHandle;
  }

  lemma OpenIsStep<H>(tree: Tree, signedChar: bool, s: Session<H>, base: H, created: H, name: Option<Text>, mode: u64,
                      stale: Target, r: OpenResult)
    requires s.root in s.handles && base in s.handles && created !in s.handles && r.handle.Some?
    requires r == OpenFile(tree, s.link, RootFid(s), s.handles[base].fid, name, mode, stale)
    ensures Step(tree, signedChar, s, Op.Open(base, created, name, mode, stale))
      == Session(r.link, s.root, s.handles[created := r.handle.value])
  {
    hide OpenFile;
  }

  class P9Volume {
    /** The server's tree and the compiler's CHAR8, both fixed. */
    const tree: Tree
    const signedChar: bool
    const tag: u16
    /** What the server puts into the fields of an Rgetattr that the driver does not read. */
    const unread: Replies.Unread

    var link: Link
    var root: P9IFile?
    var isConfigured: bool
    var mSize: u32

    /** The requests handed to TransmitTcp4; those of file reads are returned by P9LRead instead. */
    ghost var sent: seq<u8>

    /** The handles given out and not closed. */
    ghost var handles: set<P9IFile>

    constructor (tree: Tree, signedChar: bool, link: Link, unread: Replies.Unread)
      ensures this.tree == tree && this.signedChar == signedChar && this.link == link
      ensures root == null && !isConfigured && handles == {} && tag == 1
    {
      this.tree, this.signedChar, this.tag, this.unread := tree, signedChar, 1, unread;
      this.link, root, isConfigured, mSize, handles, sent := link, null, false, 0, {}, [];
    }

    /** The session that the objects stand for. */
    ghost function Abs(): Session<P9IFile>
      requires root != null
      reads this, handles
    {
      Session(link, root, map f | f in handles :: f.Value())
    }

    lemma AbsParts(f: P9IFile)
      requires Valid() && f in handles
      ensures Abs().link == link && Abs().root == root && Abs().handles.Keys == handles
      ensures Abs().handles[f] == f.Value() && Abs().handles[root] == root.Value()
    {
    }

    twostate lemma SameHandles()
      requires old(root != null) && root == old(root) && handles == old(handles)
      requires forall f :: f in handles ==> f.Value() == old(f.Value())
      ensures Abs() == old(Abs()).(link := link)
    {
      assert Abs().handles == old(Abs()).handles;
    }

    twostate lemma OneHandle(f: P9IFile)
      requires old(root != null) && root == old(root) && handles == old(handles) && f in handles
      requires forall g :: g in handles && g != f ==> g.Value() == old(g.Value())
      ensures Abs() == Session(link, old(Abs()).root, old(Abs()).handles[f := f.Value()])
    {
      assert Abs().handles == old(Abs()).handles[f := f.Value()];
    }

    twostate lemma NewHandle(new f: P9IFile)
      requires old(root != null) && root == old(root) && handles == old(handles) + {f} && f !in old(handles)
      requires forall g :: g in old(handles) ==> g.Value() == old(g.Value())
      ensures Abs() == Session(link, old(Abs()).root, old(Abs()).handles[f := f.Value()])
    {
      assert Abs().handles == old(Abs()).handles[f := f.Value()];
    }

    // ----- Exchanges -----

    method GetFid() returns (fid: u32)
      modifies this`link
      ensures fid == MFid(old(link)) && link == AfterGetFid(old(link))
    {
      fid := link.issued % 0x1_0000_0000;
      link := link.(issued := link.issued + 1);
    }

    /** The first half of DoP9: the request goes out, and the server decides on the bytes that it gets. */
    method Transmit(tx: array<u8>) returns (reply: Reply)
      modifies this`link, this`sent
      ensures (reply, link) == Exchange(old(link), Decide(tree, old(link).fids, tx[..]),
                                        AfterRefusal(old(link).fids, tx[..]))
      ensures sent == old(sent) + tx[..]
    {
      var (r, l) := Exchange(link, Decide(tree, link.fids, tx[..]), AfterRefusal(link.fids, tx[..]));
      reply, link := r, l;
      sent := sent + tx[..];
    }

    /** The second half: the zeroed receive buffer takes as much of the reply as it holds. */
    method Receive(reply: Reply, answer: seq<u8>, rxSize: nat) returns (status: Status, rx: seq<u8>)
      requires 7 <= rxSize
      ensures |rx| == rxSize && status == if reply == Silence then TransportError else Success
      ensures reply == Answer ==> rx == Replies.InBuffer(answer, rxSize)
      ensures reply.Error? ==>
        && rx[4] == RLERROR && ErrorOf(rx, rxSize) == ReplyStatus(reply, rxSize >= RLERROR_SIZE)
        && (rxSize >= 8 ==> ErrorOf(rx, 8) == BufferTooSmall)
    {
      match reply
      case Answer => status, rx := Success, Replies.InBuffer(answer, rxSize);
      case Silence => status, rx := TransportError, Zeros(rxSize);
      case Error(ecode) =>
        status, rx := Success, Replies.InBuffer(ErrorReply(tag, ecode), rxSize);
        Replies.ErrorInBuffer(tag, ecode, rxSize, rxSize);
        Replies.ErrorInBuffer(tag, ecode, rxSize, Min(8, rxSize));
    }

    method DoP9Walk(fid: u32, newFid: u32, path: Text) returns (status: Status, newQid: Qid)
      requires IsText(path) && |path| < 0x1_0000
      modifies this`link, this`sent
      ensures (status, link, newQid) == Protocol.DoP9Walk(tree, old(link), fid, newFid, path)
      ensures sent == old(sent) + Encode(tag, Twalk(fid, newFid, if path == [] then [] else [Narrow(path)]))
    {
      hide Replies.QidAt, Replies.WalkReply, Replies.CloneReply, Replies.InBuffer, Decide, AfterRefusal, Narrow,
        FitsFields, ErrorOf;
      newQid := ZERO_QID;
      var nwname := if |path| == 0 then 0 else 1;
      var txWalk := Messages.BuildWalk(tag, fid, newFid, path);
      WalkFits(fid, newFid, path);
      Hears(tree, link.fids, tag, Twalk(fid, newFid, if path == [] then [] else [Narrow(path)]));
      var reply := Transmit(txWalk);
      var answer, rxWalk := [], [];
      if reply == Answer {
        var qid := tree.qid(link.fids[newFid].node);
        answer := if nwname == 0 then Replies.CloneReply(tag) else Replies.WalkReply(tag, qid);
        Replies.WalkReplyReadsBack(tag, qid);
        Replies.KindsOf(tag, [], []);
      }
      status, rxWalk := Receive(reply, answer, 9 + 13 * nwname);
      if status.IsError() {
        return;
      }
      if rxWalk[4] != Replies.RWALK {
        status := P9Error(rxWalk, 9 + 13 * nwname);
        return;
      }
      if nwname != 0 {
        newQid := Replies.QidAt(rxWalk, 9);
      }
    }

    method P9LOpen(ifile: P9IFile) returns (status: Status)
      modifies this`link, this`sent, ifile`qid, ifile`ioUnit
      ensures (status, link, ifile.qid) == LOpen(tree, old(link), ifile.fid, old(ifile.qid))
      ensures ifile.ioUnit == if FateOf(old(link)).Served? && ServeOpen(old(link).fids, ifile.fid).Accept?
                              then tree.ioUnit(old(link).fids[ifile.fid].node) else old(ifile.ioUnit)
      ensures sent == old(sent) + Encode(tag, Tlopen(ifile.fid, 0))
    {
      hide Replies.QidAt, Replies.IntAt, Replies.OpenReply, Replies.InBuffer, Decide, AfterRefusal, ErrorOf;
      var txOpen := Messages.BuildOpen(tag, ifile.fid, O_RDONLY);
      PlainFits(Tlopen(ifile.fid, O_RDONLY));
      Hears(tree, link.fids, tag, Tlopen(ifile.fid, O_RDONLY));
      var reply := Transmit(txOpen);
      var answer, rxOpen := [], [];
      if reply == Answer {
        var node := link.fids[ifile.fid].node;
        answer := Replies.OpenReply(tag, tree.qid(node), tree.ioUnit(node));
        Replies.OpenReplyReadsBack(tag, tree.qid(node), tree.ioUnit(node));
      }
      status, rxOpen := Receive(reply, answer, 24);
      if status.IsError() {
        return;
      }
      if rxOpen[4] != Replies.RLOPEN {
        status := P9Error(rxOpen, 24);
        return;
      }
      ifile.qid := Replies.QidAt(rxOpen, 7);
      ifile.ioUnit := Replies.IntAt(rxOpen, 20, 4);
    }

    method P9Clunk(ifile: P9IFile) returns (status: Status)
      modifies this`link, this`sent
      ensures (status, link) == Clunk(old(link), ifile.fid)
      ensures sent == old(sent) + Encode(tag, Tclunk(ifile.fid))
    {
      hide Replies.ClunkReply, Replies.InBuffer, Decide, AfterRefusal, ErrorOf;
      var txClunk := Messages.BuildClunk(tag, ifile.fid);
      PlainFits(Tclunk(ifile.fid));
      Hears(tree, link.fids, tag, Tclunk(ifile.fid));
      var reply := Transmit(txClunk);
      Replies.KindsOf(tag, [], []);
      var rxClunk;
      status, rxClunk := Receive(reply, Replies.ClunkReply(tag), 7);
      if status.IsError() {
        return;
      }
      if rxClunk[4] != Replies.RCLUNK {
        status := P9Error(rxClunk, 7);
      }
    }

    /** P9GetAttr: the node answered for, whose attributes InfoOf turns into EFI_FILE_INFO. */
    method P9GetAttr(ifile: P9IFile) returns (status: Status, info: Option<FileInfo>)
      modifies this`link, this`sent, ifile`qid
      ensures var (s, l, node) := GetAttr(tree, old(link), ifile.fid);
        && status == s && link == l
        && info == (if node.Some? then Some(InfoOf(tree.attr(node.value), ifile.fileName)) else None)
        && ifile.qid == (if node.Some? then tree.qid(node.value) else old(ifile.qid))
      ensures sent == old(sent) + Encode(tag, Tgetattr(ifile.fid, 0x3FFF))
    {
      hide Replies.QidAt, Replies.AttrOf, Replies.GetAttrReply, Replies.InBuffer, Decide, AfterRefusal, ErrorOf, InfoOf;
      info := None;
      var txGetAttr := Messages.BuildGetAttr(tag, ifile.fid, P9_GETATTR_ALL);
      PlainFits(Tgetattr(ifile.fid, P9_GETATTR_ALL));
      Hears(tree, link.fids, tag, Tgetattr(ifile.fid, P9_GETATTR_ALL));
      var reply := Transmit(txGetAttr);
      var answer, rxGetAttr := [], [];
      if reply == Answer {
        var node := link.fids[ifile.fid].node;
        answer := Replies.GetAttrReply(tag, tree.qid(node), tree.attr(node), unread);
        Replies.GetAttrReplyReadsBack(tag, tree.qid(node), tree.attr(node), unread);
      }
      status, rxGetAttr := Receive(reply, answer, 160);
      if status.IsError() {
        return;
      }
      if rxGetAttr[4] != Replies.RGETATTR {
        status := P9Error(rxGetAttr, 160);
        return;
      }
      ifile.qid := Replies.QidAt(rxGetAttr, 15);
      info := Some(InfoOf(Replies.AttrOf(rxGetAttr), ifile.fileName));
    }

    // ----- Walk -----

    /** The three statements that P9Walk repeats: a new fid, a zeroed Qid, and a walk to the fid. */
    method WalkToNewFid(fid: u32, path: Text) returns (status: Status, newFid: u32, newQid: Qid)
      requires IsText(path) && |path| < 0x1_0000
      modifies this`link, this`sent
      ensures newFid == MFid(old(link))
      ensures (status, link, newQid) == Protocol.DoP9Walk(tree, AfterGetFid(old(link)), fid, newFid, path)
    {
      hide Protocol.DoP9Walk, Encode, Narrow;
      newFid := GetFid();
      newQid := ZERO_QID;
      status, newQid := DoP9Walk(fid, newFid, path);
    }

    /** P9Walk; stale is the uninitialised content of its locals NewFid and NewQid. */
    method P9Walk(ifile: P9IFile, newIFile: P9IFile, path: Text, stale: Target) returns (status: Status)
      requires root != null && newIFile != ifile && newIFile != root && IsText(path) && ComponentsFit(path)
      modifies this`link, this`sent, newIFile`fid, newIFile`qid
      ensures var w := Walk(tree, old(link), root.fid, ifile.fid, path, stale);
        && status == w.status && link == w.link
        && Target(newIFile.fid, newIFile.qid)
             == if status == Success then w.target else old(Target(newIFile.fid, newIFile.qid))
    {
      hide Protocol.DoP9Walk, Scan, NonDot, First, Rest, WalkNames, MFid;
      var newFid, newQid := stale.fid, stale.qid;
      if |path| == 0 {
        return InvalidParameter;
      }
      if path == [SEP] || path == [DOT] {
        status, newFid, newQid := WalkToNewFid(if path == [SEP] then root.fid else ifile.fid, []);
        if status.IsError() {
          return;
        }
        newIFile.fid, newIFile.qid := newFid, newQid;
        return Success;
      }
      var fid, next := ifile.fid, 0;
      if path[0] == SEP {
        fid, next := root.fid, 1;
      }
      if fid == root.fid && |path| >= next + 2 && path[next] == DOT && path[next + 1] == DOT {
        return NotFound;
      }
      assert path[next..] == Relative(path);
      ghost var w := WalkNames(tree, link, fid, Names(path[next..]), stale);
      hide Walk, Names;
      var componentName := new u16[P9_MAX_PATH];
      while true
        invariant next <= |path| && fresh(componentName)
        invariant forall c :: c in Scan(path[next..]) ==> |c| < P9_MAX_PATH
        invariant WalkNames(tree, link, fid, Names(path[next..]), Target(newFid, newQid)) == w
        invariant newIFile.fid == old(newIFile.fid) && newIFile.qid == old(newIFile.qid)
        decreases |path| - next
      {
        ghost var p := path[next..];
        NamesUnfold(p);
        assert First(p) != [] ==> Scan(p)[0] == First(p);
        var component, following := NextComponent(path, next, componentName);
        next := following;
        if componentName[0] == 0 {
          WalkNamesNil(tree, link, fid, Target(newFid, newQid));
          break;
        }
        if component == [DOT] {
          assert Names(p) == Names(path[next..]);
          continue;
        }
        WalkNamesCons(tree, link, fid, component, Names(path[next..]), Target(newFid, newQid));
        status, newFid, newQid := WalkToNewFid(fid, component);
        if status.IsError() {
          return;
        }
        fid := newFid;
      }
      newIFile.fid, newIFile.qid := newFid, newQid;
      status := Success;
    }

    // ----- Open and close -----

    /** The volume is open and its root handle is among the handles. */
    ghost predicate Valid()
      reads this
    {
      root != null && root in handles
    }

    /** P9Open. */
    method P9Open(ifile: P9IFile, fileName: Option<Text>, openMode: u64, stale: Target)
      returns (status: Status, newHandle: P9IFile?)
      requires Valid() && ifile in handles
      requires fileName.Some? ==> IsText(fileName.value) && ComponentsFit(fileName.value)
      modifies this`link, this`sent, this`handles
      ensures Valid()
      ensures var r := OpenFile(tree, old(link), root.fid, ifile.fid, fileName, openMode, stale);
        status == r.status && link == r.link && (newHandle != null <==> r.handle.Some?)
      ensures newHandle == null ==> Abs() == old(Abs()).(link := link)
      ensures newHandle != null ==>
        && fresh(newHandle) && var created: P9IFile := newHandle;
        && Abs() == Step(tree, signedChar, old(Abs()), Op.Open(ifile, created, fileName, openMode, stale))
        && OpenFile(tree, old(link), root.fid, ifile.fid, fileName, openMode, stale).handle == Some(created.Value())
    {
      AbsParts(ifile);
      hide Walk, LOpen, FileNameOf, FileNameField, Step, Abs;
      newHandle := null;
      if fileName == None {
        SameHandles();
        return InvalidParameter, null;
      }
      if openMode != EFI_FILE_MODE_READ {
        SameHandles();
        return InvalidParameter, null;
      }
      var path := fileName.value;
      var head := GetFileNameFromPath(path);
      var newIFile := new P9IFile(path[head..]);
      status := P9Walk(ifile, newIFile, path, stale);
      if status.IsError() {
        SameHandles();
        return;
      }
      status := P9LOpen(newIFile);
      if status.IsError() {
        SameHandles();
        return;
      }
      newIFile.isOpened := true;
      newHandle := newIFile;
      ghost var r := OpenFile(tree, old(link), root.fid, ifile.fid, fileName, openMode, stale);
      assert r == OpenResult(Success, link, Some(newHandle.Value()));
      hide OpenFile;
      handles := handles + {newHandle};
      NewHandle(newHandle);
      OpenIsStep(tree, signedChar, old(Abs()), ifile, newHandle, fileName, openMode, stale, r);
      status := Success;
    }

    /** P9Close; for the root handle Status is never set, and stale is what it holds. */
    method P9Close(ifile: P9IFile, stale: Status) returns (status: Status)
      requires Valid() && ifile in handles
      modifies this`link, this`sent, this`handles
      ensures Valid()
      ensures status == if ifile == root then stale else Clunk(old(link), ifile.fid).0
      ensures Abs() == Step(tree, signedChar, old(Abs()), Op.Close(ifile))
    {
      hide Clunk;
      status := stale;
      ghost var before := old(Abs());
      if ifile != root {
        status := P9Clunk(ifile);
        handles := handles - {ifile};
        assert Abs().handles == before.handles - {ifile};
      }
    }

    // ----- Directories -----

    /** P9LReadDir into a zeroed buffer of count bytes. */
    method P9LReadDir(ifile: P9IFile, offset: u64, count: u32, data: array<u8>) returns (status: Status, got: nat)
      requires data[..] == Zeros(count)
      modifies this`link, this`sent, data
      ensures ReadDirResult(status, link, got, data[..]) == ReadDir(tree, old(link), ifile.fid, offset, count)
      ensures sent == old(sent) + Encode(tag, Treaddir(ifile.fid, offset, count))
    {
      hide DirPayload, Replies.DirReply, Replies.InBuffer, Decide, AfterRefusal, Listed, ErrorOf, Overwrite, FromLE;
      got := count;
      ghost var l0 := link;
      var fids, more := link.fids, if FateOf(link).Served? then FateOf(link).more else [];
      var txReadDir := Messages.BuildRead(tag, ifile.fid, offset, count, true);
      PlainFits(Treaddir(ifile.fid, offset, count));
      Hears(tree, link.fids, tag, Treaddir(ifile.fid, offset, count));
      var reply := Transmit(txReadDir);
      var answer, rxReadDir := [], [];
      if reply == Answer {
        HearsReadDir(tree, fids, tag, ifile.fid, offset, count, more);
        var payload := Listed(tree, fids, txReadDir[..], more);
        answer := Replies.DirReply(tag, payload);
        Replies.DirReplyReadsBack(tag, payload, count);
      }
      status, rxReadDir := Receive(reply, answer, 11 + count);
      if status.IsError() {
        return;
      }
      if rxReadDir[4] != Replies.RREADDIR {
        status := P9Error(rxReadDir, 11 + count);
        return;
      }
      got := FromLE(rxReadDir[7..11]);
      CopyMem(data, 0, rxReadDir[11..11 + got]);
      OverwriteZeros(count, rxReadDir[11..11 + got]);
    }

    /** The part of P9DirRead after an entry has been received into the buffer dirEnt. */
    method DeliverDirEntry(ifile: P9IFile, bufferSize: nat, dirEnt: array<u8>, stale: Target)
      returns (status: Status, size: nat, info: Option<FileInfo>)
      requires Valid() && ifile in handles && dirEnt.Length == ENTRY_SIZE
      modifies this`link, this`sent, ifile`position
      ensures DirResult(status, link, ifile.Value(), size, info)
        == DeliverEntry(tree, old(link), root.fid, old(ifile.Value()), bufferSize, dirEnt[..], signedChar, stale)
    {
      hide Walk, Protocol.GetAttr, FileNameField, EntryPath, InfoOf, FromLE;
      size, info := bufferSize, None;
      var name := EntryName(dirEnt[..]);
      var needed := SIZE_OF_EFI_FILE_INFO + 2 * (|name| + 1);
      if bufferSize < needed {
        return BufferTooSmall, needed, None;
      }
      var path := EntryPathText(name);
      PathFits(name, signedChar);
      var newIFile := new P9IFile(path);
      status := P9Walk(ifile, newIFile, path, stale);
      if status.IsError() {
        return;
      }
      status, info := P9GetAttr(newIFile);
      if status.IsError() {
        return status, bufferSize, None;
      }
      size := needed;
      ifile.position := EntryOffset(dirEnt[..]) % TWO64;
      status := Success;
    }

    /** P9DirRead. */
    method P9DirRead(ifile: P9IFile, bufferSize: nat, stale: Target)
      returns (status: Status, size: nat, info: Option<FileInfo>)
      requires Valid() && ifile in handles
      modifies this`link, this`sent, ifile`qid, ifile`isOpened, ifile`position, ifile`ioUnit
      ensures Valid()
      ensures DirResult(status, link, ifile.Value(), size, info)
        == DirRead(tree, old(link), old(root.fid), old(ifile.Value()), bufferSize, signedChar, stale)
    {
      hide LOpen, ReadDir, DeliverEntry;
      size, info := bufferSize, None;
      var dirEnt := Messages.AllocateZeroPool(ENTRY_SIZE);
      if !ifile.isOpened {
        LOpenErrorKeepsQid(tree, link, ifile.fid, ifile.qid);
        status := P9LOpen(ifile);
        if status.IsError() {
          return;
        }
        ifile.isOpened := true;
      }
      var count;
      status, count := P9LReadDir(ifile, ifile.position, ENTRY_SIZE, dirEnt);
      if status.IsError() {
        return;
      }
      if count == 0 {
        return Success, 0, None;
      }
      status, size, info := DeliverDirEntry(ifile, bufferSize, dirEnt, stale);
    }

    // ----- Read by kind of file, and startup -----

    /** P9SetPosition. */
    method P9SetPosition(ifile: P9IFile, position: u64) returns (status: Status)
      requires Valid() && ifile in handles
      modifies ifile`position
      ensures Valid()
      ensures (status, ifile.Value()) == SetPosition(old(ifile.Value()), position)
      ensures Abs() == Step(tree, signedChar, old(Abs()), Op.Seek(ifile, position))
    {
      status := ifile.P9SetPosition(position);
      OneHandle(ifile);
    }

    /** P9LReadLink, with SymLinkTarget filled on success. */
    method P9LReadLink(ifile: P9IFile) returns (status: Status)
      modifies this`link, this`sent, ifile`symLinkTarget
      ensures (status, link) == ReadLink(old(link), ifile.fid)
      ensures ifile.symLinkTarget == LinkTarget(tree, old(link), ifile.fid, old(ifile.symLinkTarget), signedChar)
      ensures sent == old(sent) + Encode(tag, Treadlink(ifile.fid))
    {
      hide LinkText, Replies.LinkReply, Replies.InBuffer, Decide, AfterRefusal, ErrorOf;
      var txReadLink := Messages.BuildReadLink(tag, ifile.fid);
      PlainFits(Treadlink(ifile.fid));
      Hears(tree, link.fids, tag, Treadlink(ifile.fid));
      var reply := Transmit(txReadLink);
      var target := if reply == Answer then tree.target(link.fids[ifile.fid].node) else [];
      Replies.KindsOf(tag, target, []);
      var rxReadLink;
      status, rxReadLink := Receive(reply, Replies.LinkReply(tag, target), 9 + P9_MAX_PATH);
      if status.IsError() {
        return;
      }
      if rxReadLink[4] != Replies.RREADLINK {
        status := P9Error(rxReadLink, 9 + P9_MAX_PATH);
        return;
      }
      ifile.symLinkTarget := LinkText(target, ifile.symLinkTarget, signedChar);
    }

    /** P9SymLinkRead; text is what goes into the buffer. */
    method P9SymLinkRead(ifile: P9IFile, bufferSize: nat) returns (status: Status, size: nat, text: Option<Text>)
      modifies this`link, this`sent, ifile`symLinkTarget
      ensures LinkResult(status, link, ifile.symLinkTarget, size, text)
        == SymLinkRead(tree, old(link), ifile.fid, old(ifile.symLinkTarget), bufferSize, signedChar)
    {
      hide ReadLink, LinkTarget;
      size, text := bufferSize, None;
      status := P9LReadLink(ifile);
      if status.IsError() {
        return;
      }
      var pathSize := 2 * (|ifile.symLinkTarget| + 1);
      if bufferSize < pathSize {
        return BufferTooSmall, pathSize, None;
      }
      text := Some(ifile.symLinkTarget);
    }

    /**
     P9Read. What TCP brings for the chunks of a file read is given as replies; spent is the number of
     exchanges that a file read uses.
     */
    method P9Read(ifile: P9IFile, bufferSize: u64, buffer: array<u8>, stale: Target, replies: seq<seq<Rx>>)
      returns (outcome: Outcome, size: nat, info: Option<FileInfo>, text: Option<Text>, ghost spent: nat)
      requires Valid() && ifile in handles && bufferSize <= buffer.Length && PoliteReplies(bufferSize, replies)
      modifies this`link, this`sent, buffer
      modifies ifile`qid, ifile`isOpened, ifile`position, ifile`ioUnit, ifile`symLinkTarget
      ensures Valid()
      ensures HasBit(old(ifile.qid.kind), QTDIR) ==>
        DirResult(if outcome.Done? then outcome.status else DeviceError, link, ifile.Value(), size, info)
          == DirRead(tree, old(link), old(root.fid), old(ifile.Value()), bufferSize, signedChar, stale)
        && buffer[..] == old(buffer[..]) && text == None
      ensures !HasBit(old(ifile.qid.kind), QTDIR) && HasBit(old(ifile.qid.kind), QTSYMLINK) ==>
        LinkResult(if outcome.Done? then outcome.status else DeviceError, link, ifile.symLinkTarget, size, text)
          == SymLinkRead(tree, old(link), ifile.fid, old(ifile.symLinkTarget), bufferSize, signedChar)
        && ifile.Value() == old(ifile.Value()) && info == None
      ensures !HasBit(old(ifile.qid.kind), QTDIR) && !HasBit(old(ifile.qid.kind), QTSYMLINK) ==>
        ReadResult(outcome, ifile.position, buffer[..])
          == FileRead(old(ifile.position), bufferSize, old(buffer[..]), replies)
        && size == bufferSize && info == None && text == None
        && spent == ChunksAsked(old(ifile.position), bufferSize, 0, replies)
      ensures Abs() == Step(tree, signedChar, old(Abs()), Op.Read(ifile, bufferSize, stale, spent, ifile.position))
    {
      hide DirRead, FileRead, SymLinkRead, ReadLink, SkipFates, PoliteReplies, Step, ReadHandle, ChunksAsked;
      ghost var d, l := ifile.Value(), link;
      size, info, text, spent := bufferSize, None, None, 0;
      ghost var before := old(Abs());
      if HasBit(ifile.qid.kind, QTDIR) {
        var status;
        status, size, info := P9DirRead(ifile, bufferSize, stale);
        outcome := Done(status);
        DirReadHandle(tree, l, root.fid, d, bufferSize, signedChar, stale, spent, ifile.position);
      } else if HasBit(ifile.qid.kind, QTSYMLINK) {
        var status;
        status, size, text := P9SymLinkRead(ifile, bufferSize);
        outcome := Done(status);
        SymLinkReadHandle(tree, l, root.fid, d, bufferSize, signedChar, stale, spent);
      } else {
        var asked;
        outcome, asked := ifile.P9FileRead(tag, bufferSize, buffer, replies);
        spent := asked;
        link := SkipFates(link, asked);
        FileReadHandle(tree, l, root.fid, d, bufferSize, signedChar, stale, spent, ifile.position);
      }
      OneHandle(ifile);
      ReadIsStep(tree, signedChar, before, ifile, bufferSize, stale, spent, ifile.position, link, ifile.Value());
    }

    /** P9OpenVolume: status and, on success, the root handle, which is null after a failed first start. */
    method P9OpenVolume(u: Startup) returns (status: Status, file: P9IFile?)
      requires root != null ==> Valid()
      requires IsText(u.station) && IsText(u.subnet) && IsText(u.remote)
      requires 0 !in u.uname && 0 !in u.aname && |u.uname| < 0x1_0000 && |u.aname| < 0x1_0000
      modifies this
      ensures root != null ==> Valid()
      ensures status == Success ==> file == root
      ensures old(root) != null && old(isConfigured) ==> root == old(root) && Abs() == old(Abs())
      ensures var before := old(Volume(isConfigured, if root == null then None else Some(root.Value()), mSize));
        var r := OpenVolume(tree, old(link), before, u);
        && status == r.status && link == r.link
        && (root == old(root) || fresh(root))
        && Volume(isConfigured, if root == null then None else Some(root.Value()), mSize) == r.volume
      ensures root != old(root) ==> handles == old(handles) + {root}
      ensures root != old(root) && root != null ==>
        sent == old(sent) + Encode(0xFFFF, Tversion(0x1_0000, Messages.P9_VERSION))
                          + Encode(tag, Tattach(root.fid, 0xFFFF_FFFF, u.uname, u.aname))
    {
      hide Version, Attach, Ipv4.ParseQuad, Encode, Abs;
      file := null;
      if isConfigured {
        return Success, root;
      }
      var accessPoint;
      status, accessPoint := ConfigureP9(u);
      if status.IsError() {
        return;
      }
      isConfigured := true;
      if u.connect.None? {
        return Success, root;
      }
      if u.connect.value.IsError() {
        return u.connect.value, null;
      }
      mSize := Messages.P9_MSIZE;
      status := P9Version(u);
      if status.IsError() {
        return;
      }
      var ifile := new P9IFile([]);
      ifile.fid := GetFid();
      status := P9Attach(ifile, u.uname, u.aname);
      if status.IsError() {
        return;
      }
      root := ifile;
      handles := handles + {ifile};
      return Success, ifile;
    }

    /** ConfigureP9; accessPoint is what it hands to the TCP4 protocol's Configure. */
    method ConfigureP9(u: Startup) returns (status: Status, accessPoint: Option<AccessPoint>)
      requires IsText(u.station) && IsText(u.subnet) && IsText(u.remote)
      ensures status == Configure(u) && accessPoint == Offered(u)
    {
      hide Ipv4.ParseQuad, Ipv4.ParsePort;
      accessPoint := None;
      if !u.hasTcp4 {
        return Unsupported, None;
      }
      var stationPort, remotePort := u.stalePort, u.staleRemotePort;
      var station, subnet, remote, port;
      status, station, port := AddressOf(u.station, true);
      if status.IsError() {
        return;
      }
      if port.Set? {
        stationPort := port.value;
      }
      status, subnet, port := AddressOf(u.subnet, false);
      if status.IsError() {
        return;
      }
      status, remote, port := AddressOf(u.remote, true);
      if status.IsError() {
        return;
      }
      if port.Set? {
        remotePort := port.value;
      }
      accessPoint := Some(AccessPoint(station, stationPort, subnet, remote, remotePort));
      status := u.configure;
    }

    method AddressOf(s: Text, wantPort: bool) returns (status: Status, octets: seq<u8>, port: Ipv4.Port)
      requires IsText(s)
      ensures var r := Ipv4.ParseQuad(s, 0, NO_ADDRESS);
        && status == AddressStatus(s) == r.status && octets == r.addr
        && port == if status == Success && wantPort then Ipv4.ParsePort(r.rest) else Ipv4.Unset
    {
      hide Ipv4.ParseQuad, Ipv4.ParsePort;
      var addr := new u8[4](i => 0);
      assert addr[..] == NO_ADDRESS;
      status, port := Ipv4.StrToIpv4Addr(s, addr, wantPort);
      octets := addr[..];
    }

    /** P9Version; the message size that the server offers replaces the one it was offered. */
    method P9Version(u: Startup) returns (status: Status)
      modifies this`link, this`sent, this`mSize
      ensures (status, link) == Version(old(link), u)
      ensures mSize == if status == Success then u.msize else old(mSize)
      ensures sent == old(sent) + Encode(0xFFFF, Tversion(old(mSize), Messages.P9_VERSION))
    {
      hide Replies.VersionReply, Replies.InBuffer, Decide, AfterRefusal, ErrorOf;
      var txVersion := Messages.BuildVersion(mSize);
      VersionFits(mSize, Messages.P9_VERSION);
      Hears(tree, link.fids, Messages.P9_NOTAG, Tversion(mSize, Messages.P9_VERSION));
      var reply := Transmit(txVersion);
      Replies.VersionReplyReadsBack(Messages.P9_NOTAG, u.msize, u.version, Messages.P9_VERSION);
      var rxVersion;
      status, rxVersion := Receive(reply, Replies.VersionReply(Messages.P9_NOTAG, u.msize, u.version), 21);
      if status.IsError() {
        return;
      }
      if rxVersion[4] != Replies.RVERSION {
        status := P9Error(rxVersion, 8);
        return;
      }
      if rxVersion[13..21] != Messages.P9_VERSION {
        status := Unsupported;
        return;
      }
      mSize := FromLE(rxVersion[7..11]);
    }

    method P9Attach(ifile: P9IFile, uname: seq<u8>, aname: seq<u8>) returns (status: Status)
      requires 0 !in uname && 0 !in aname && |uname| < 0x1_0000 && |aname| < 0x1_0000
      modifies this`link, this`sent, ifile`qid
      ensures var (s, l, qid) := Attach(tree, old(link), ifile.fid);
        status == s && link == l && (old(ifile.qid) == ZERO_QID ==> ifile.qid == qid)
      ensures sent == old(sent) + Encode(tag, Tattach(ifile.fid, 0xFFFF_FFFF, uname, aname))
    {
      hide Replies.QidAt, Replies.AttachReply, Replies.InBuffer, Decide, AfterRefusal, ErrorOf;
      var txAttach := Messages.BuildAttach(tag, ifile.fid, Protocol.P9_NOFID, uname, aname);
      AttachFits(ifile.fid, Protocol.P9_NOFID, uname, aname);
      Hears(tree, link.fids, tag, Tattach(ifile.fid, Protocol.P9_NOFID, uname, aname));
      var reply := Transmit(txAttach);
      Replies.AttachReplyReadsBack(tag, tree.qid(tree.root));
      var rxAttach;
      status, rxAttach := Receive(reply, Replies.AttachReply(tag, tree.qid(tree.root)), 20);
      if status.IsError() {
        return;
      }
      if rxAttach[4] != Replies.RATTACH {
        status := P9Error(rxAttach, 20);
        return;
      }
      ifile.qid := Replies.QidAt(rxAttach, 7);
    }

    /** The conversion of an entry's name to a NUL-terminated CHAR16 string. */
    method EntryPathText(name: Name) returns (path: Text)
      requires |name| <= NAME_LENGTH
      ensures path == EntryPath(name, signedChar) && IsText(path)
    {
      hide P9Bytes;
      var nameSize := 2 * (|name| + 1);
      var text := new u16[|name| + 1](i => 0);
      P9StringReadsBack(name, []);
      assert P9Bytes(name) + [] == P9Bytes(name);
      var _ := P9StringToUnicodeStrS(P9Bytes(name), text, nameSize, signedChar);
      UpToNulPads(Widen(name, signedChar), text[..]);
      path := UpToNul(text[..]);
    }
  }

  lemma OverwriteZeros(count: nat, data: seq<u8>)
    requires |data| <= count
    ensures Overwrite(Zeros(count), 0, data) == data + Zeros(count - |data|)
  {
  }

  lemma LOpenErrorKeepsQid(tree: Tree, l: Link, fid: u32, qid: Qid)
    ensures LOpen(tree, l, fid, qid).0 != Success ==> LOpen(tree, l, fid, qid).2 == qid
  {
  }

  lemma {:induction false} UpToNulPads(s: Text, buffer: seq<u16>)
    requires |s| < |buffer| && buffer[..|s|] == s && buffer[|s|] == 0
    ensures UpToNul(buffer) == UpToNul(s)
  {
    if s != [] {
      assert buffer[0] == buffer[..|s|][0] == s[0];
      assert buffer[1..][..|s| - 1] == s[1..];
      if s[0] != 0 {
        UpToNulPads(s[1..], buffer[1..]);
      }
    }
  }

  lemma {:induction false} ScannedShort(p: Text)
    ensures forall c :: c in Scan(p) ==> |c| <= |p|
    decreases |p|
  {
    if First(p) != [] {
      NamesUnfold(p);
      ScannedShort(Rest(p));
    }
  }

  lemma PathFits(name: Name, signedChar: bool)
    requires |name| <= NAME_LENGTH
    ensures ComponentsFit(EntryPath(name, signedChar))
  {
    hide Scan;
    var path := EntryPath(name, signedChar);
    ScannedShort(Relative(path));
  }

  lemma WalkNamesNil(tree: Tree, l: Link, fid: u32, target: Target)
    ensures WalkNames(tree, l, fid, [], target) == WalkResult(Success, l, target)
  {
  }
}
