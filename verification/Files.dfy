/** P9_IFILE as an object, and the calls that change only one: seeking and reading file data. */
module Files {
  import opened Ints
  import opened Bytes
  import opened Statuses
  import opened Paths
  import opened Protocol
  import opened Operations
  import opened Reading
  import opened Chunks
  import opened Decoding
  import Wire
  import Messages

  method CopyMem(dest: array<u8>, at: nat, source: seq<u8>)
    requires at + |source| <= dest.Length
    modifies dest
    ensures dest[..] == Overwrite(old(dest[..]), at, source)
  {
    for i := 0 to |source|
      invariant dest[..at] == old(dest[..at]) && dest[at..at + i] == source[..i]
      invariant dest[at + i..] == old(dest[at + i..])
    {
      ghost var after := dest[at + i + 1..];
      dest[at + i] := source[i];
      assert dest[at + i + 1..] == after;
      assert dest[at..at + i + 1] == dest[at..at + i] + [source[i]];
    }
    assert dest[..] == dest[..at] + dest[at..at + |source|] + dest[at + |source|..];
  }

  lemma OverwriteNone(buffer: seq<u8>, at: nat)
    ensures Overwrite(buffer, at, []) == buffer
  {
  }

  lemma ReplyFits(incoming: seq<Rx>, count: u32)
    requires Polite(incoming, count)
    ensures |Stream(incoming)| <= RREAD_HEAD + count
  {
  }

  class P9IFile {
    var fid: u32
    var qid: Qid
    var position: u64
    var isOpened: bool
    var fileName: Text
    var ioUnit: u32
    var symLinkTarget: Text

    /** AllocateZeroPool, and the assignments that every new P9_IFILE gets. */
    constructor (name: Text)
      ensures Value() == Handle(0, ZERO_QID, 0, false, FileNameField(name)) && ioUnit == 0 && symLinkTarget == []
    {
      fid, qid, position, isOpened, ioUnit, symLinkTarget := 0, ZERO_QID, 0, false, 0, [];
      fileName := FileNameField(name);
    }

    function Value(): Handle
      reads this
    {
      Handle(fid, qid, position, isOpened, fileName)
    }

    /** P9SetPosition. */
    method P9SetPosition(newPosition: u64) returns (status: Status)
      modifies this`position
      ensures (status, Value()) == SetPosition(old(Value()), newPosition)
    {
      if qid.kind == QTDIR && newPosition != 0 {
        return Unsupported;
      }
      position := newPosition;
      status := Success;
    }

    /** P9LRead: the Tread it sends, and what it makes of the bytes that arrive. */
    method P9LRead(tag: u16, count: u32, incoming: seq<Rx>, data: array<u8>, at: nat)
      returns (outcome: Outcome, got: u32, ghost request: seq<u8>)
      requires Polite(incoming, count) && at + LRead(position, count, incoming).count <= data.Length
      modifies this`position, data
      ensures DecodeRequest(request) == Some((tag, Wire.Tread(fid, old(position), count)))
      ensures var r := LRead(old(position), count, incoming);
        && outcome == r.outcome && got == r.count && position == r.position
        && |r.data| <= r.count && data[..] == Overwrite(old(data[..]), at, r.data)
    {
      hide StopAt, Stream, FromLE, LE, Wire.Encode, Wire.FitsFields, Overwrite, LRead, Decode, Buffer, ErrorOf,
        DecodeRequest;
      DecodeBounds(position, count, incoming);
      LReadOutcome(position, count, incoming);
      ReplyFits(incoming, count);
      hide Polite;
      OverwriteNone(data[..], at);
      got := count;
      var txRead := Messages.BuildRead(tag, fid, position, count, false);
      request := txRead[..];
      PlainFits(Wire.Tread(fid, position, count));
      DecodeInvertsEncode(tag, Wire.Tread(fid, position, count));
      var rxRead := Messages.AllocateZeroPool(RREAD_HEAD + count);
      var arrival := ReceiveLoop(incoming, count, rxRead);
      if arrival == Blocked {
        return Hung, got, request;
      } else if arrival == Faulted {
        return Done(TransportError), got, request;
      }
      if rxRead[4] != RREAD {
        var status := P9Error(rxRead[..], rxRead.Length);
        return Done(status), got, request;
      }
      var n := FromLE(rxRead[7..11]);
      CopyMem(data, at, rxRead[RREAD_HEAD..RREAD_HEAD + n]);
      got := n;
      position := (position + n) % TWO64;
      outcome := Done(Success);
    }

    /** P9FileRead: the chunk loop, with the position restored when a chunk fails. */
    method P9FileRead(tag: u16, bufferSize: u64, buffer: array<u8>, replies: seq<seq<Rx>>)
      returns (outcome: Outcome, asked: nat)
      requires bufferSize <= buffer.Length && PoliteReplies(bufferSize, replies)
      modifies this`position, buffer
      ensures ReadResult(outcome, position, buffer[..]) == FileRead(old(position), bufferSize, old(buffer[..]), replies)
      ensures asked == ChunksAsked(old(position), bufferSize, 0, replies)
    {
      hide LRead, Polite, PoliteReplies, Overwrite;
      var start := position;
      var nReads := Add64(bufferSize, MAX_RX_SIZE - 1) / MAX_RX_SIZE;
      ghost var expected := FileRead(position, bufferSize, buffer[..], replies);
      var off: nat := 0;
      asked := 0;
      for index := 0 to nReads
        invariant off <= index * MAX_RX_SIZE
        invariant FileReadFrom(start, position, bufferSize, index, off, buffer[..], replies) == expected
        invariant asked + ChunksAsked(position, bufferSize, index, replies)
          == ChunksAsked(start, bufferSize, 0, replies)
      {
        var count := if index < nReads - 1 then MAX_RX_SIZE else bufferSize % MAX_RX_SIZE;
        PoliteAt(bufferSize, replies, index);
        PlanFits(bufferSize, index);
        DecodeBounds(position, count, ReplyAt(replies, index));
        OverwriteNone(buffer[..], off);
        asked := asked + 1;
        var result, got, _ := P9LRead(tag, count, ReplyAt(replies, index), buffer, off);
        if result == Hung {
          return Hung, asked;
        }
        if result.status.IsError() {
          position := start;
          return result, asked;
        }
        off := off + got;
      }
      outcome := Done(Success);
    }
  }
}
