/** The server at the other end of the bytes: it decodes what the driver sends, and decides on that. */
module Server {
  import opened Ints
  import opened Bytes
  import opened P9Strings
  import opened Paths
  import opened Wire
  import opened Protocol
  import opened Operations
  import opened Volumes
  import opened Decoding

  /** The protocol's decision on each request that the driver knows. */
  function DecisionOn(tree: Tree, fids: Table, r: Request): Decision {
    match r
    case Tversion(_, _) => Accept(map[])
    case Tattach(fid, _, _, _) => ServeAttach(tree, fids, fid)
    case Twalk(fid, newFid, names) =>
      if |names| <= 1 then ServeWalk(tree, fids, fid, newFid, names) else Reject(EBADF)
    case Tlopen(fid, _) => ServeOpen(fids, fid)
    case Tgetattr(fid, _) => ServeLive(fids, fid)
    case Treadlink(fid) => ServeReadLink(fids, fid)
    case Treaddir(fid, _, _) => ServeReadDir(fids, fid)
    case Tread(fid, _, _) => ServeReadDir(fids, fid)
    case Tclunk(fid) => ServeClunk(fids, fid)
  }

  /** The decision on the bytes of a message; what cannot be decoded is refused. */
  function Decide(tree: Tree, fids: Table, b: seq<u8>): Decision {
    match DecodeRequest(b)
    case None => Reject(EBADF)
    case Some((_, r)) => DecisionOn(tree, fids, r)
  }

  /** The fids after a refusal: a clunk removes its fid all the same. */
  function AfterRefusal(fids: Table, b: seq<u8>): Table {
    match DecodeRequest(b)
    case Some((_, Tclunk(fid))) => fids - {fid}
    case _ => fids
  }

  /** The server decides on the request that the driver has encoded. */
  lemma Hears(tree: Tree, fids: Table, tag: u16, r: Request)
    requires FitsFields(r)
    ensures Decide(tree, fids, Encode(tag, r)) == DecisionOn(tree, fids, r)
    ensures AfterRefusal(fids, Encode(tag, r)) == if r.Tclunk? then fids - {r.fid} else fids
  {
    hide DecisionOn, DecodeRequest, Encode, FitsFields;
    DecodeInvertsEncode(tag, r);
  }

  /** The data of the Rreaddir that answers the bytes of a Treaddir. */
  function Listed(tree: Tree, fids: Table, b: seq<u8>, more: seq<u8>): seq<u8> {
    match DecodeRequest(b)
    case Some((_, Treaddir(fid, offset, count))) =>
      if fid in fids then DirPayload(tree, fids[fid].node, offset, count, more) else []
    case _ => []
  }

  lemma HearsReadDir(tree: Tree, fids: Table, tag: u16, fid: u32, offset: u64, count: u32, more: seq<u8>)
    requires fid in fids
    ensures Listed(tree, fids, Encode(tag, Treaddir(fid, offset, count)), more)
      == DirPayload(tree, fids[fid].node, offset, count, more)
  {
    hide DirPayload, DecodeRequest, Encode, FitsFields;
    PlainFits(Treaddir(fid, offset, count));
    DecodeInvertsEncode(tag, Treaddir(fid, offset, count));
  }

  lemma WalkFits(fid: u32, newFid: u32, path: Text)
    requires |path| < 0x1_0000
    ensures FitsFields(Twalk(fid, newFid, if path == [] then [] else [Narrow(path)]))
  {
    hide LE, Narrow;
    NameBytesOf(Narrow(path), []);
  }

  lemma AttachFits(fid: u32, afid: u32, uname: seq<u8>, aname: seq<u8>)
    requires |uname| < 0x1_0000 && |aname| < 0x1_0000
    ensures FitsFields(Tattach(fid, afid, uname, aname))
  {
    hide LE;
  }

  lemma VersionFits(msize: u32, version: seq<u8>)
    requires |version| < 0x1_0000
    ensures FitsFields(Tversion(msize, version))
  {
    hide LE;
  }
}
