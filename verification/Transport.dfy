/** TCP4 fragment tables, the lock-step request/reply exchange DoP9, and stream alignment. */
module Transport {
  import opened Ints
  import opened Wire

  const FRAGMENT_SIZE: nat := 576

  datatype Fragment = Fragment(length: nat, offset: nat)

  function FragmentCount(dataSize: nat): nat {
    dataSize / FRAGMENT_SIZE + (if dataSize % FRAGMENT_SIZE != 0 then 1 else 0)
  }

  /** Entry index of the table for dataSize bytes. */
  function FragmentAt(dataSize: nat, index: nat): Fragment {
    Fragment(if index + 1 < FragmentCount(dataSize) then FRAGMENT_SIZE else dataSize % FRAGMENT_SIZE,
             FRAGMENT_SIZE * index)
  }

  function Fragments(dataSize: nat): seq<Fragment> {
    seq(FragmentCount(dataSize), i requires 0 <= i => FragmentAt(dataSize, i))
  }

  /** The fragment table that TransmitTcp4 and ReceiveTcp4 fill for a buffer. */
  method FillFragmentTable(dataSize: nat) returns (table: array<Fragment>)
    requires 0 < dataSize < 0x1_0000_0000
    ensures fresh(table) && table[..] == Fragments(dataSize)
  {
    var fragmentCount := dataSize / FRAGMENT_SIZE + (if dataSize % FRAGMENT_SIZE != 0 then 1 else 0);
    table := new Fragment[fragmentCount](i => Fragment(0, 0));
    for index := 0 to fragmentCount
      invariant forall i :: 0 <= i < index ==> table[i] == FragmentAt(dataSize, i)
    {
      table[index] := Fragment(
        if index < fragmentCount - 1 then FRAGMENT_SIZE else dataSize % FRAGMENT_SIZE,
        FRAGMENT_SIZE * index);
    }
  }

  /** The bytes of data that a table refers to, in table order. */
  function Gather(data: seq<u8>, table: seq<Fragment>): seq<u8>
    requires forall f :: f in table ==> f.offset + f.length <= |data|
  {
    if table == [] then [] else
      data[table[0].offset..table[0].offset + table[0].length] + Gather(data, table[1..])
  }

  /** Number of bytes of a buffer that its table refers to. */
  function Covered(dataSize: nat): nat {
    if dataSize > 0 && dataSize % FRAGMENT_SIZE == 0 then dataSize - FRAGMENT_SIZE else dataSize
  }

  lemma FragmentBounds(dataSize: nat, i: nat)
    requires i < FragmentCount(dataSize)
    ensures var f := FragmentAt(dataSize, i);
      && f.offset + f.length <= dataSize
      && f.offset + f.length == if i + 1 < FragmentCount(dataSize) then FRAGMENT_SIZE * (i + 1) else Covered(dataSize)
  {
  }

  lemma {:induction false} GatherFrom(data: seq<u8>, i: nat)
    requires i <= FragmentCount(|data|)
    requires forall f :: f in Fragments(|data|) ==> f.offset + f.length <= |data|
    ensures Covered(|data|) <= |data|
    ensures i < FragmentCount(|data|) ==> FRAGMENT_SIZE * i <= Covered(|data|)
    ensures i < FragmentCount(|data|) ==>
      Gather(data, Fragments(|data|)[i..]) == data[FRAGMENT_SIZE * i..Covered(|data|)]
    decreases FragmentCount(|data|) - i
  {
    var table := Fragments(|data|);
    if i < FragmentCount(|data|) {
      FragmentBounds(|data|, i);
      GatherFrom(data, i + 1);
      assert table[i..][0] == FragmentAt(|data|, i) && table[i..][1..] == table[i + 1..];
      if i + 1 < FragmentCount(|data|) {
        assert data[FRAGMENT_SIZE * i..FRAGMENT_SIZE * (i + 1)] + data[FRAGMENT_SIZE * (i + 1)..Covered(|data|)]
            == data[FRAGMENT_SIZE * i..Covered(|data|)];
      }
    }
  }

  /**
   The fragments lie side by side from the start of the buffer, and together they are the whole
   buffer exactly when its size is not a positive multiple of the fragment size; otherwise the
   last 576 bytes are missing.
   */
  lemma FragmentsTile(data: seq<u8>)
    ensures forall f :: f in Fragments(|data|) ==> f.offset + f.length <= |data|
    ensures forall i :: 0 <= i < |Fragments(|data|)| - 1 ==>
      Fragments(|data|)[i].offset + Fragments(|data|)[i].length == Fragments(|data|)[i + 1].offset
    ensures Gather(data, Fragments(|data|)) == data[..Covered(|data|)]
    ensures Gather(data, Fragments(|data|)) == data <==> |data| == 0 || |data| % 576 != 0
  {
    var table := Fragments(|data|);
    forall f | f in table
      ensures f.offset + f.length <= |data|
    {
      var i :| 0 <= i < |table| && table[i] == f;
      FragmentBounds(|data|, i);
    }
    GatherFrom(data, 0);
    assert table[0..] == table;
  }

  // ----- The byte stream between driver and server -----

  /** One receive posted with a buffer of the given size takes what is there and fits the table. */
  function Received(unread: seq<u8>, posted: nat): seq<u8> {
    unread[..Min(|unread|, Covered(posted))]
  }

  /** The two directions of the connection, as the driver sees them. */
  class Connection {
    var sent: seq<u8>
    var unread: seq<u8>
    var isTxDone: bool
    var isRxDone: bool

    /** TransmitTcp4, up to the completion callback. */
    method TransmitTcp4(data: array<u8>)
      requires 0 < data.Length < 0x1_0000_0000
      modifies this`sent, this`isTxDone
      ensures sent == old(sent) + data[..Covered(data.Length)] && isTxDone
    {
      var table := FillFragmentTable(data.Length);
      FragmentsTile(data[..]);
      sent := sent + Gather(data[..], table[..]);
      isTxDone := true;
    }

    /** ReceiveTcp4, up to the completion callback. */
    method ReceiveTcp4(data: array<u8>) returns (n: nat)
      requires 0 < data.Length < 0x1_0000_0000
      modifies this`unread, this`isRxDone, data
      ensures n == |Received(old(unread), data.Length)| <= data.Length && isRxDone
      ensures data[..n] == Received(old(unread), data.Length) && data[n..] == old(data[n..])
      ensures unread == old(unread)[n..]
    {
      n := Min(|unread|, Covered(data.Length));
      for i := 0 to n
        invariant unread == old(unread)
        invariant forall j :: 0 <= j < i ==> data[j] == unread[j]
        invariant forall j :: i <= j < data.Length ==> data[j] == old(data[j])
      {
        data[i] := unread[i];
      }
      unread := unread[n..];
      isRxDone := true;
    }

    /**
     DoP9: one request out, one receive of what has arrived by then, and the rest of the server's
     reply behind it. Tags are not looked at.
     */
    method DoP9(txData: array<u8>, rxData: array<u8>, arrived: seq<u8>, later: seq<u8>) returns (n: nat)
      requires 0 < txData.Length < 0x1_0000_0000 && 0 < rxData.Length < 0x1_0000_0000 && txData != rxData
      modifies this, rxData
      ensures sent == old(sent) + old(txData[..Covered(txData.Length)])
      ensures n <= rxData.Length && rxData[..n] == Received(old(unread) + arrived, rxData.Length)
      ensures unread == (old(unread) + arrived)[n..] + later
      ensures isTxDone && isRxDone
    {
      isTxDone := false;
      TransmitTcp4(txData);
      unread := unread + arrived;
      isRxDone := false;
      n := ReceiveTcp4(rxData);
      unread := unread + later;
    }
  }

  // ----- Alignment over whole runs -----

  /** A request and its reply in the segments in which TCP brings it, none of them empty. */
  datatype Exchange = Exchange(request: Request, segments: seq<seq<u8>>)

  function Joined(segments: seq<seq<u8>>): seq<u8> {
    if segments == [] then [] else segments[0] + Joined(segments[1..])
  }

  function ReplyOf(e: Exchange): seq<u8> { Joined(e.segments) }

  /** What is there when the receive completes, and what comes after it. */
  function Arrived(e: Exchange): seq<u8> { if e.segments == [] then [] else e.segments[0] }

  function Late(e: Exchange): seq<u8> { if e.segments == [] then [] else Joined(e.segments[1..]) }

  predicate AreSegments(segments: seq<seq<u8>>) {
    segments != [] && forall i :: 0 <= i < |segments| ==> segments[i] != []
  }

  /** sizeof of the receive buffer that the driver posts for a request sent through DoP9. */
  function PostedSize(r: Request): nat {
    match r
    case Tversion(_, version) => 13 + |version|
    case Tattach(_, _, _, _) => 20
    case Twalk(_, _, names) => 9 + 13 * |names|
    case Tlopen(_, _) => 24
    case Tgetattr(_, _) => 160
    case Treadlink(_) => 9 + 4096
    case Treaddir(_, _, count) => 11 + count
    case Tread(_, _, count) => 11 + count
    case Tclunk(_) => 7
  }

  /** Lengths a server may answer with: 11 for Rlerror, or the length of the success reply. */
  predicate Conforms(r: Request, reply: seq<u8>) {
    || |reply| == 11
    || match r
       case Tversion(_, version) => 13 <= |reply| <= 13 + |version|
       case Tattach(_, _, _, _) => |reply| == 20
       case Twalk(_, _, names) => |reply| == 9 + 13 * |names|
       case Tlopen(_, _) => |reply| == 24
       case Tgetattr(_, _) => |reply| == 160
       case Treadlink(_) => 9 <= |reply| <= 9 + 4096
       case Treaddir(_, _, count) => 11 <= |reply| <= 11 + count
       case Tread(_, _, count) => 11 <= |reply| <= 11 + count
       case Tclunk(_) => |reply| == 7
  }

  /** The requests the driver sends through DoP9. */
  predicate SentByDoP9(r: Request) {
    match r
    case Tversion(_, version) => |version| == 8
    case Twalk(_, _, names) => |names| <= 1
    case Treaddir(_, _, count) => count == 279
    case Tread(_, _, _) => false
    case _ => true
  }

  /** A request whose receive buffer cannot hold the 11 bytes of an Rlerror. */
  predicate TooSmallForError(r: Request) {
    r.Tclunk? || (r.Twalk? && r.names == [])
  }

  /** What the successive receives deliver, each posted once and completed by the first segment, behind unread bytes. */
  function Deliveries(unread: seq<u8>, run: seq<Exchange>): seq<seq<u8>>
    decreases |run|
  {
    if run == [] then []
    else
      var stream := unread + Arrived(run[0]);
      var got := Received(stream, PostedSize(run[0].request));
      [got] + Deliveries(stream[|got|..] + Late(run[0]), run[1..])
  }

  function Replies(run: seq<Exchange>): seq<seq<u8>> {
    seq(|run|, i requires 0 <= i < |run| => ReplyOf(run[i]))
  }

  /** The reply comes in one segment and fits its buffer. */
  predicate Fits(e: Exchange) { |e.segments| == 1 && |ReplyOf(e)| <= Covered(PostedSize(e.request)) }

  /** A conforming reply fits except in several segments, or as an Rlerror to a clunk or to a walk without names. */
  lemma FitsIff(e: Exchange)
    requires SentByDoP9(e.request) && Conforms(e.request, ReplyOf(e)) && AreSegments(e.segments)
    ensures Fits(e) <==> |e.segments| == 1 && !(|ReplyOf(e)| == 11 && TooSmallForError(e.request))
  {
    assert 290 % FRAGMENT_SIZE == 290;
    assert 4105 % FRAGMENT_SIZE == 73;
    match e.request
    case Twalk(_, _, names) => assert |names| == 0 || |names| == 1;
    case _ =>
  }

  lemma OneSegment(segments: seq<seq<u8>>)
    requires AreSegments(segments)
    ensures |segments| == 1 ==> Joined(segments) == segments[0] && Joined(segments[1..]) == []
    ensures |segments| > 1 ==> |segments[0]| < |Joined(segments)|
  {
    if |segments| > 1 {
      assert segments[1] != [] && Joined(segments[1..]) == segments[1] + Joined(segments[1..][1..]);
    }
  }

  /** The first receive delivers its reply, and leaves nothing for the next, exactly if the reply fits. */
  lemma FirstReceive(e: Exchange)
    requires AreSegments(e.segments)
    ensures var got := Received(Arrived(e), PostedSize(e.request));
      && (got == ReplyOf(e) <==> Fits(e))
      && (Fits(e) ==> Arrived(e)[|got|..] + Late(e) == [])
  {
    hide PostedSize, Covered;
    OneSegment(e.segments);
  }

  lemma {:induction false} AlignedIffFits(run: seq<Exchange>)
    requires forall i :: 0 <= i < |run| ==> AreSegments(run[i].segments)
    ensures Deliveries([], run) == Replies(run) <==> forall i :: 0 <= i < |run| ==> Fits(run[i])
  {
    hide Fits, Received, PostedSize, ReplyOf, Late;
    if run != [] {
      var first, reply := Arrived(run[0]), ReplyOf(run[0]);
      FirstReceive(run[0]);
      assert [] + first == first;
      assert Replies(run) == [reply] + Replies(run[1..]);
      assert Deliveries([], run)[0] == Received(first, PostedSize(run[0].request));
      if Fits(run[0]) {
        AlignedIffFits(run[1..]);
        assert forall i :: 0 < i < |run| ==> run[i] == run[1..][i - 1];
        assert Deliveries([], run) == [reply] + Deliveries([], run[1..]);
        assert Deliveries([], run)[1..] == Deliveries([], run[1..]) && Replies(run)[1..] == Replies(run[1..]);
      }
    }
  }

  /**
   Over any run of exchanges with conforming replies, the i-th receive delivers exactly the reply
   to the i-th request, for every i, if and only if every reply arrives in one segment and no clunk
   and no walk without names is answered by an Rlerror.
   */
  lemma LockStepAligned(run: seq<Exchange>)
    requires forall i :: 0 <= i < |run| ==>
      SentByDoP9(run[i].request) && Conforms(run[i].request, ReplyOf(run[i])) && AreSegments(run[i].segments)
    ensures Deliveries([], run) == Replies(run)
      <==> forall i :: 0 <= i < |run| ==>
             |run[i].segments| == 1 && !(|ReplyOf(run[i])| == 11 && TooSmallForError(run[i].request))
  {
    AlignedIffFits(run);
    forall i | 0 <= i < |run|
      ensures Fits(run[i])
        <==> |run[i].segments| == 1 && !(|ReplyOf(run[i])| == 11 && TooSmallForError(run[i].request))
    {
      FitsIff(run[i]);
    }
  }
}
