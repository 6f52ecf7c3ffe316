/** Files read by many calls: from the open of a path on, successive reads deliver successive bytes of the file. */
module FileRuns {
  import opened Ints
  import opened Statuses
  import opened Paths
  import opened Protocol
  import opened Walking
  import opened Operations
  import opened Directories
  import opened Reading
  import opened Chunks

  /** A call of P9FileRead: its buffer, what TCP brings for its chunks, and the counts that the server returned. */
  datatype Call = Call(bufferSize: u64, buffer: seq<u8>, replies: seq<seq<Rx>>, ns: seq<nat>)

  predicate IsCall(c: Call) { c.bufferSize <= |c.buffer| && PoliteReplies(c.bufferSize, c.replies) }

  predicate AreCalls(calls: seq<Call>) { forall i :: 0 <= i < |calls| ==> IsCall(calls[i]) }

  /** The results of the calls one after the other, each from the position where the one before it ended. */
  function FileReads(position: u64, calls: seq<Call>): seq<ReadResult>
    requires AreCalls(calls)
    decreases |calls|
  {
    if calls == [] then []
    else
      var r := FileRead(position, calls[0].bufferSize, calls[0].buffer, calls[0].replies);
      [r] + FileReads(r.position, calls[1..])
  }

  /** Bytes that the server returns for all calls together. */
  function Total(calls: seq<Call>): nat { if calls == [] then 0 else Sum(calls[0].ns) + Total(calls[1..]) }

  /** The server answers every chunk from the file, with counts that end each call, and no reply is cut late. */
  ghost predicate ServesCalls(file: seq<u8>, position: nat, calls: seq<Call>, tag: u16)
    decreases |calls|
  {
    calls == [] ||
    (var c := calls[0];
     && c.bufferSize <= |c.buffer|
     && Serves(file, position, c.bufferSize, 0, c.replies, tag, c.ns)
     && EndsClean(c.bufferSize, c.replies) && AllReturn(c.bufferSize, 0, c.ns)
     && ServesCalls(file, position + Sum(c.ns), calls[1..], tag))
  }

  lemma {:induction false} ServedAreCalls(file: seq<u8>, position: nat, calls: seq<Call>, tag: u16)
    requires ServesCalls(file, position, calls, tag)
    ensures AreCalls(calls)
    decreases |calls|
  {
    hide Serves, EndsClean, AllReturn, PoliteReplies;
    if calls != [] {
      var c := calls[0];
      ServesPoliteReplies(file, position, c.bufferSize, c.replies, tag, c.ns);
      ServedAreCalls(file, position + Sum(c.ns), calls[1..], tag);
      assert forall i :: 0 < i < |calls| ==> calls[i] == calls[1..][i - 1];
    }
  }

  /** What the calls put into their buffers, one after the other. */
  function Delivered(results: seq<ReadResult>, calls: seq<Call>): seq<u8>
    requires |results| == |calls|
  {
    if calls == [] then []
    else results[0].buffer[..Min(Sum(calls[0].ns), |results[0].buffer|)] + Delivered(results[1..], calls[1..])
  }

  lemma OneCall(file: seq<u8>, position: u64, c: Call, tag: u16)
    requires c.bufferSize <= |c.buffer| && Serves(file, position, c.bufferSize, 0, c.replies, tag, c.ns)
    requires EndsClean(c.bufferSize, c.replies) && AllReturn(c.bufferSize, 0, c.ns) && |file| < TWO64
    ensures PoliteReplies(c.bufferSize, c.replies)
    ensures (Sum(c.ns) > 0 ==> position + Sum(c.ns) <= |file|) && Sum(c.ns) <= |c.buffer|
    ensures FileRead(position, c.bufferSize, c.buffer, c.replies) == WholeRead(file, position, Sum(c.ns), c.buffer)
  {
    hide Serves, EndsClean, AllReturn, PoliteReplies, FileRead, Slice;
    FileReadContiguous(file, position, c.bufferSize, c.buffer, c.replies, tag, c.ns);
  }

  lemma WholeReadFront(file: seq<u8>, position: u64, total: nat, buffer: seq<u8>)
    requires (total > 0 ==> position + total <= |file|) && total <= |buffer| && |file| < TWO64
    ensures var r := WholeRead(file, position, total, buffer);
      && r.outcome == Done(Success) && r.position == position + total && total <= |r.buffer|
      && r.buffer[..total] == Slice(file, position, total)
  {
    hide Slice;
  }

  /** The results are those of one read: all succeed, and together deliver the bytes from the position on. */
  ghost predicate OneRead(file: seq<u8>, position: nat, calls: seq<Call>, rs: seq<ReadResult>) {
    && |rs| == |calls| && (Total(calls) > 0 ==> position + Total(calls) <= |file|)
    && (forall i :: 0 <= i < |rs| ==> rs[i].outcome == Done(Success))
    && Delivered(rs, calls) == Slice(file, position, Total(calls))
    && (rs != [] ==> rs[|rs| - 1].position == position + Total(calls))
  }

  lemma FirstThenRest(file: seq<u8>, position: nat, calls: seq<Call>, r: ReadResult, rest: seq<ReadResult>)
    requires calls != [] && var total := Sum(calls[0].ns);
      && r.outcome == Done(Success) && r.position == position + total && total <= |r.buffer|
      && (total > 0 ==> position + total <= |file|) && r.buffer[..total] == Slice(file, position, total)
      && OneRead(file, position + total, calls[1..], rest)
    ensures OneRead(file, position, calls, [r] + rest)
  {
    hide Slice, Sum;
    assert ([r] + rest)[1..] == rest;
    SliceConcat(file, position, Sum(calls[0].ns), Total(calls[1..]));
  }

  /**
   Successive calls of P9FileRead are one read: every call succeeds, the next one goes on where it
   ended, and together they deliver the bytes of the file from the first position on, without gap or
   repetition, whatever buffer sizes are used and whatever counts the server returns.
   */
  lemma {:induction false} ReadsAreConsecutive(file: seq<u8>, position: u64, calls: seq<Call>, tag: u16)
    requires ServesCalls(file, position, calls, tag) && |file| < TWO64
    ensures AreCalls(calls) && OneRead(file, position, calls, FileReads(position, calls))
    decreases |calls|
  {
    hide Serves, EndsClean, AllReturn, PoliteReplies, FileRead, WholeRead, Slice, Sum, AreCalls;
    ServedAreCalls(file, position, calls, tag);
    if calls != [] {
      var c := calls[0];
      OneCall(file, position, c, tag);
      WholeReadFront(file, position, Sum(c.ns), c.buffer);
      CallsTail(calls);
      var r := FileRead(position, c.bufferSize, c.buffer, c.replies);
      ReadsAreConsecutive(file, r.position, calls[1..], tag);
      FirstThenRest(file, position, calls, r, FileReads(r.position, calls[1..]));
    } else {
      NoSlice(file, position);
    }
  }

  lemma CallsTail(calls: seq<Call>)
    requires AreCalls(calls) && calls != []
    ensures IsCall(calls[0]) && AreCalls(calls[1..])
  {
    hide PoliteReplies;
  }

  lemma NoSlice(file: seq<u8>, position: nat)
    ensures Slice(file, position, 0) == []
  {
  }

  /**
   A file opened by any path that resolves is delivered from its first byte on by successive reads
   of its handle, and wholly once the counts add up to its length.
   */
  lemma OpenThenRead(tree: Tree, l: Link, rootFid: u32, fid: u32, path: Text, stale: Target, calls: seq<Call>, tag: u16)
    requires WalkReady(l, rootFid, fid, path) && path != [] && IsDefined(path)
    requires Resolves(tree, l, rootFid, fid, path) && Healthy(l, FidCost(path) + 1)
    requires var file := tree.file(Resolve(tree, StartNode(l, rootFid, fid, path), Route(path)).value);
      |file| < TWO64 && ServesCalls(file, 0, calls, tag)
    ensures AreCalls(calls)
    ensures var r := OpenFile(tree, l, rootFid, fid, Some(path), EFI_FILE_MODE_READ, stale);
      var file := tree.file(Resolve(tree, StartNode(l, rootFid, fid, path), Route(path)).value);
      && r.status == Success && r.handle.Some? && r.handle.value.fid in r.link.fids
      && tree.file(r.link.fids[r.handle.value.fid].node) == file
      && var rs := FileReads(r.handle.value.position, calls);
      && |rs| == |calls| && (forall i :: 0 <= i < |rs| ==> rs[i].outcome == Done(Success))
      && Total(calls) <= |file| && Delivered(rs, calls) == file[..Total(calls)]
      && (Total(calls) == |file| ==> Delivered(rs, calls) == file)
  {
    hide OpenFile, FidCost, StartNode, Route, Resolve, IsDefined, Guarded, ServesCalls, AreCalls, FileReads;
    OpenServed(tree, l, rootFid, fid, path, stale);
    var file := tree.file(Resolve(tree, StartNode(l, rootFid, fid, path), Route(path)).value);
    ReadsAreConsecutive(file, 0, calls, tag);
    assert file[..|file|] == file;
  }

  /**
   Seeking in anything but a plain directory succeeds anywhere and moves Position only, and successive
   reads from there deliver the file from that byte on, wherever the handle was before.
   */
  lemma SeekThenRead(file: seq<u8>, h: Handle, p: u64, calls: seq<Call>, tag: u16)
    requires h.qid.kind != 0x80 && |file| < TWO64 && ServesCalls(file, p, calls, tag)
    ensures var (status, h') := SetPosition(h, p);
      && status == Success && h' == Handle(h.fid, h.qid, p, h.isOpened, h.fileName)
      && AreCalls(calls)
      && var rs := FileReads(h'.position, calls);
      && |rs| == |calls| && (forall i :: 0 <= i < |rs| ==> rs[i].outcome == Done(Success))
      && (Total(calls) > 0 ==> p + Total(calls) <= |file| && Delivered(rs, calls) == file[p..p + Total(calls)])
      && (rs != [] ==> rs[|rs| - 1].position == p + Total(calls))
  {
    hide ServesCalls, AreCalls, FileReads, Total, Delivered;
    ReadsAreConsecutive(file, p, calls, tag);
  }
}
