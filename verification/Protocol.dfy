/**
 The server as abstract state, and the single exchanges of the driver with it. The server holds a
 tree and a table of fids (intro(5), walk(5) and clunk(5) of the Plan 9 manual); what happens to
 each exchange is scripted by a list of fates, over which the theorems quantify.
 */
module Protocol {
  import opened Ints
  import opened Statuses
  import opened Paths
  import opened P9Strings

  datatype Option<+T> = None | Some(value: T)

  type Node = nat
  type Name = seq<u8>

  datatype Qid = Qid(kind: u8, version: u32, path: u64)

  const ZERO_QID: Qid := Qid(0, 0, 0)

  datatype Attr = Attr(
    mode: u32, size: u64, blocks: u64,
    atimeSec: u64, atimeNSec: u64, mtimeSec: u64, mtimeNSec: u64, ctimeSec: u64, ctimeNSec: u64)

  datatype DirEntry = DirEntry(name: Name, node: Node, kind: u8)

  /** What the server exports. Cookies of directory reads are positions in the listing. */
  datatype Tree = Tree(
    root: Node,
    child: (Node, Name) -> Option<Node>,
    listing: Node -> seq<DirEntry>,
    qid: Node -> Qid,
    attr: Node -> Attr,
    ioUnit: Node -> u32,
    target: Node -> Name,     // of a symbolic link
    file: Node -> seq<u8>)    // the data of a file

  datatype FidState = FidState(node: Node, isOpen: bool)

  /** The live fids of the connection. */
  type Table = map<nat, FidState>

  /** What becomes of one exchange. */
  datatype Fate =
    | Served(more: seq<u8>) // the server follows the protocol; more are bytes after a first directory entry
    | Refused(ecode: u32)   // the server answers Rlerror without acting
    | NotSent               // an error before the request reaches the server
    | LostReply             // the server acts, but the driver gets an error

  /** The connection: live fids, fids handed out so far, and the fates of the exchanges to come. */
  datatype Link = Link(fids: Table, issued: nat, fates: seq<Fate>)

  const P9_NOFID: u32 := 0xFFFF_FFFF

  /** The driver's 32-bit counter mFid. */
  function MFid(l: Link): u32 { l.issued % 0x1_0000_0000 }

  function AfterGetFid(l: Link): Link { l.(issued := l.issued + 1) }

  function FateOf(l: Link): Fate { if l.fates == [] then NotSent else l.fates[0] }

  function Spent(l: Link): Link { l.(fates := if l.fates == [] then [] else l.fates[1..]) }

  /** The server's protocol decision on a request. */
  datatype Decision = Accept(fids: Table) | Reject(ecode: u32)

  const ENOENT: u32 := 2
  const EBADF: u32 := 9

  datatype Reply = Answer | Error(ecode: u32) | Silence

  /** One exchange; a refusal leaves the server with the table refused. */
  function Exchange(l: Link, decision: Decision, refused: Table): (Reply, Link) {
    match FateOf(l)
    case NotSent => (Silence, Spent(l))
    case Refused(ecode) => (Error(ecode), Spent(l).(fids := refused))
    case Served(_) =>
      (match decision
       case Accept(fids) => (Answer, Spent(l).(fids := fids))
       case Reject(ecode) => (Error(ecode), Spent(l)))
    case LostReply =>
      (match decision
       case Accept(fids) => (Silence, Spent(l).(fids := fids))
       case Reject(_) => (Silence, Spent(l)))
  }

  /** Status for a reply, given that the receive buffer has room for an Rlerror or not. */
  function ReplyStatus(r: Reply, roomForError: bool): Status {
    match r
    case Answer => Success
    case Silence => TransportError
    case Error(ecode) => if roomForError then CodeStatus(ecode) else BufferTooSmall
  }

  // ----- Walk -----

  /** walk(5) with at most one name; newFid must be unused or equal to fid. */
  function ServeWalk(tree: Tree, fids: Table, fid: u32, newFid: u32, names: seq<Name>): Decision
    requires |names| <= 1
  {
    if fid !in fids || newFid == P9_NOFID || (newFid != fid && newFid in fids) then Reject(EBADF)
    else if names == [] then Accept(fids[newFid := FidState(fids[fid].node, false)])
    else match tree.child(fids[fid].node, names[0])
      case None => Reject(ENOENT)
      case Some(n) => Accept(fids[newFid := FidState(n, false)])
  }

  /** DoP9Walk: status, connection and NewQid, which stays zero for a walk without a name. */
  function DoP9Walk(tree: Tree, l: Link, fid: u32, newFid: u32, path: Text): (Status, Link, Qid) {
    var names := if path == [] then [] else [Narrow(path)];
    var (reply, l') := Exchange(l, ServeWalk(tree, l.fids, fid, newFid, names), l.fids);
    var qid := if reply == Answer && path != [] then tree.qid(l'.fids[newFid].node) else ZERO_QID;
    (ReplyStatus(reply, path != []), l', qid)
  }

  // ----- Open, clunk, getattr, readdir -----

  function ServeOpen(fids: Table, fid: u32): Decision {
    if fid !in fids || fids[fid].isOpen then Reject(EBADF)
    else Accept(fids[fid := fids[fid].(isOpen := true)])
  }

  /** P9LOpen: status, connection and the Qid of the reply. */
  function LOpen(tree: Tree, l: Link, fid: u32, qid: Qid): (Status, Link, Qid) {
    var (reply, l') := Exchange(l, ServeOpen(l.fids, fid), l.fids);
    (ReplyStatus(reply, true), l', if reply == Answer then tree.qid(l'.fids[fid].node) else qid)
  }

  function ServeClunk(fids: Table, fid: u32): Decision {
    if fid !in fids then Reject(EBADF) else Accept(fids - {fid})
  }

  /** P9Clunk. The fid is gone even when the server reports an error. */
  function Clunk(l: Link, fid: u32): (Status, Link) {
    var (reply, l') := Exchange(l, ServeClunk(l.fids, fid), l.fids - {fid});
    (ReplyStatus(reply, false), l')
  }

  function ServeLive(fids: Table, fid: u32): Decision {
    if fid !in fids then Reject(EBADF) else Accept(fids)
  }

  /** The attributes brought back by P9GetAttr. */
  function GetAttr(tree: Tree, l: Link, fid: u32): (Status, Link, Option<Node>) {
    var (reply, l') := Exchange(l, ServeLive(l.fids, fid), l.fids);
    (ReplyStatus(reply, true), l', if reply == Answer then Some(l'.fids[fid].node) else None)
  }

  // ----- Invariants of the connection -----

  /** Every live fid is below the counter. */
  predicate Below(l: Link) { forall f :: f in l.fids ==> f < l.issued }

  /** No binding of the old table is lost or changed to another node. */
  predicate Extends(before: Table, after: Table) {
    forall f :: f in before ==> f in after && after[f].node == before[f].node
  }

  /** Fids that are open stay open. */
  predicate KeepsOpen(before: Table, after: Table) {
    forall f :: f in before && before[f].isOpen ==> f in after && after[f].isOpen
  }

  /** Rlerror carries an errno, which is not 0. */
  predicate ErrnosNonZero(fates: seq<Fate>) {
    forall i :: 0 <= i < |fates| ==> fates[i] != Refused(0)
  }

  predicate Healthy(l: Link, n: nat) {
    n <= |l.fates| && forall i :: 0 <= i < n ==> l.fates[i].Served?
  }

  lemma ErrnosTail(l: Link)
    ensures ErrnosNonZero(l.fates) ==> ErrnosNonZero(Spent(l).fates) && FateOf(l) != Refused(0)
  {
  }
}
