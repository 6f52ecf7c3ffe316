/** P9FileRead: its chunks, and what it delivers for the replies of a 9P server. */
module Chunks {
  import opened Ints
  import opened Statuses
  import opened Reading
  import opened ReadLaws

  /** P9_MSIZE - 24 */
  const MAX_RX_SIZE: nat := 0x1_0000 - 24

  function NReads(bufferSize: u64): nat { Add64(bufferSize, MAX_RX_SIZE - 1) / MAX_RX_SIZE }

  function ChunkSize(bufferSize: u64, index: nat): u32 {
    if index + 1 < NReads(bufferSize) then MAX_RX_SIZE else bufferSize % MAX_RX_SIZE
  }

  function Overwrite(buffer: seq<u8>, at: nat, data: seq<u8>): (b: seq<u8>)
    requires data != [] ==> at + |data| <= |buffer|
    ensures |b| == |buffer|
  {
    if data == [] then buffer else buffer[..at] + data + buffer[at + |data|..]
  }

  datatype ReadResult = ReadResult(outcome: Outcome, position: u64, buffer: seq<u8>)

  function ReplyAt(replies: seq<seq<Rx>>, index: nat): seq<Rx> {
    if index < |replies| then replies[index] else []
  }

  /** Every chunk's stream fits its receive buffer and respects its count. */
  predicate PoliteReplies(bufferSize: u64, replies: seq<seq<Rx>>) {
    forall i :: 0 <= i < NReads(bufferSize) ==> Polite(ReplyAt(replies, i), ChunkSize(bufferSize, i))
  }

  lemma PlanFits(bufferSize: u64, index: nat)
    requires index < NReads(bufferSize)
    ensures index * MAX_RX_SIZE + ChunkSize(bufferSize, index) <= bufferSize
    ensures index + 1 < NReads(bufferSize) ==> ChunkSize(bufferSize, index) == MAX_RX_SIZE
  {
    var b := bufferSize;
    if b + MAX_RX_SIZE - 1 < TWO64 {
      var q, r := b / MAX_RX_SIZE, b % MAX_RX_SIZE;
      if r == 0 {
        DivUnique(b + MAX_RX_SIZE - 1, MAX_RX_SIZE, q, MAX_RX_SIZE - 1);
      } else {
        DivUnique(b + MAX_RX_SIZE - 1, MAX_RX_SIZE, q + 1, r - 1);
      }
    }
  }

  lemma DecodeBounds(position: u64, count: u32, incoming: seq<Rx>)
    requires Polite(incoming, count)
    ensures var r := LRead(position, count, incoming);
      |r.data| <= r.count <= count && (r.outcome != Done(Success) ==> r.data == [] && r.position == position)
  {
  }

  /** The loop of P9FileRead from chunk index on, with off bytes of the buffer passed so far. */
  function FileReadFrom(start: u64, position: u64, bufferSize: u64, index: nat, off: nat, buffer: seq<u8>,
                        replies: seq<seq<Rx>>): ReadResult
    requires index <= NReads(bufferSize) && off <= index * MAX_RX_SIZE && bufferSize <= |buffer|
    requires PoliteReplies(bufferSize, replies)
    decreases NReads(bufferSize) - index
  {
    if index == NReads(bufferSize) then ReadResult(Done(Success), position, buffer)
    else
      assert Polite(ReplyAt(replies, index), ChunkSize(bufferSize, index));
      PlanFits(bufferSize, index);
      DecodeBounds(position, ChunkSize(bufferSize, index), ReplyAt(replies, index));
      var r := LRead(position, ChunkSize(bufferSize, index), ReplyAt(replies, index));
      if r.outcome == Hung then ReadResult(Hung, position, buffer)
      else if r.outcome.status.IsError() then ReadResult(r.outcome, start, buffer)
      else FileReadFrom(start, r.position, bufferSize, index + 1, off + r.count, Overwrite(buffer, off, r.data),
                        replies)
  }

  /** P9FileRead at the given position into buffer. */
  function FileRead(position: u64, bufferSize: u64, buffer: seq<u8>, replies: seq<seq<Rx>>): ReadResult
    requires bufferSize <= |buffer| && PoliteReplies(bufferSize, replies)
  {
    FileReadFrom(position, position, bufferSize, 0, 0, buffer, replies)
  }

  /** Exchanges that the loop uses from chunk index on: it stops after the first that fails. */
  function ChunksAsked(position: u64, bufferSize: u64, index: nat, replies: seq<seq<Rx>>): nat
    requires index <= NReads(bufferSize) && PoliteReplies(bufferSize, replies)
    decreases NReads(bufferSize) - index
  {
    if index == NReads(bufferSize) then 0
    else
      assert Polite(ReplyAt(replies, index), ChunkSize(bufferSize, index));
      var r := LRead(position, ChunkSize(bufferSize, index), ReplyAt(replies, index));
      1 + if r.outcome == Done(Success) then ChunksAsked(r.position, bufferSize, index + 1, replies) else 0
  }

  /** A failing chunk restores the position. */
  lemma {:induction false} FailureRestoresFrom(start: u64, position: u64, bufferSize: u64, index: nat, off: nat,
                                               buffer: seq<u8>, replies: seq<seq<Rx>>)
    requires index <= NReads(bufferSize) && off <= index * MAX_RX_SIZE && bufferSize <= |buffer|
    requires PoliteReplies(bufferSize, replies)
    ensures var r := FileReadFrom(start, position, bufferSize, index, off, buffer, replies);
      r.outcome.Done? && r.outcome.status != Success ==> r.position == start
    decreases NReads(bufferSize) - index
  {
    hide NReads, LRead, Polite, PoliteReplies, FileReadFrom, Overwrite, ChunkSize, ReplyAt;
    if index < NReads(bufferSize) {
      PoliteAt(bufferSize, replies, index);
      FileReadUnfold(start, position, bufferSize, index, off, buffer, replies);
      var r := LRead(position, ChunkSize(bufferSize, index), ReplyAt(replies, index));
      if r.outcome == Done(Success) {
        FailureRestoresFrom(start, r.position, bufferSize, index + 1, off + r.count,
          Overwrite(buffer, off, r.data), replies);
      }
    } else {
      FileReadEnds(start, position, bufferSize, index, off, buffer, replies);
    }
  }

  lemma FileReadEnds(start: u64, position: u64, bufferSize: u64, index: nat, off: nat, buffer: seq<u8>,
                     replies: seq<seq<Rx>>)
    requires index == NReads(bufferSize) && off <= index * MAX_RX_SIZE && bufferSize <= |buffer|
    requires PoliteReplies(bufferSize, replies)
    ensures FileReadFrom(start, position, bufferSize, index, off, buffer, replies)
      == ReadResult(Done(Success), position, buffer)
  {
    hide NReads, PoliteReplies;
  }

  /** A read that succeeds has asked for every chunk, and one that does not stops at the chunk that failed. */
  lemma {:induction false} SuccessAsksAll(start: u64, position: u64, bufferSize: u64, index: nat, off: nat,
                                          buffer: seq<u8>, replies: seq<seq<Rx>>)
    requires index <= NReads(bufferSize) && off <= index * MAX_RX_SIZE && bufferSize <= |buffer|
    requires PoliteReplies(bufferSize, replies)
    ensures ChunksAsked(position, bufferSize, index, replies) <= NReads(bufferSize) - index
    ensures FileReadFrom(start, position, bufferSize, index, off, buffer, replies).outcome == Done(Success) ==>
      ChunksAsked(position, bufferSize, index, replies) == NReads(bufferSize) - index
    decreases NReads(bufferSize) - index
  {
    hide NReads, LRead, Polite, PoliteReplies, FileReadFrom, Overwrite, ChunkSize, ReplyAt;
    if index < NReads(bufferSize) {
      PoliteAt(bufferSize, replies, index);
      FileReadUnfold(start, position, bufferSize, index, off, buffer, replies);
      var r := LRead(position, ChunkSize(bufferSize, index), ReplyAt(replies, index));
      if r.outcome == Done(Success) {
        SuccessAsksAll(start, r.position, bufferSize, index + 1, off + r.count, Overwrite(buffer, off, r.data),
          replies);
      }
    }
  }

  lemma FailureRestoresPosition(position: u64, bufferSize: u64, buffer: seq<u8>, replies: seq<seq<Rx>>)
    requires bufferSize <= |buffer| && PoliteReplies(bufferSize, replies)
    ensures var r := FileRead(position, bufferSize, buffer, replies);
      r.outcome.Done? && r.outcome.status != Success ==> r.position == position
  {
    FailureRestoresFrom(position, position, bufferSize, 0, 0, buffer, replies);
  }

  // ----- A file read in chunks -----

  function Slice(file: seq<u8>, position: nat, n: nat): (b: seq<u8>)
    requires n > 0 ==> position + n <= |file|
    ensures |b| == n
  {
    if n == 0 then [] else file[position..position + n]
  }

  function Sum(ns: seq<nat>): nat { if ns == [] then 0 else ns[0] + Sum(ns[1..]) }

  /**
   The server answers every chunk from the position reached so far with some count of bytes of the
   file, at most the count asked for, and TCP cuts no reply but the last in its last bytes. (Chunks
   behind one that waits for ever are never requested; what is said of their replies has no effect.)
   */
  ghost predicate Serves(file: seq<u8>, position: nat, bufferSize: u64, index: nat, replies: seq<seq<Rx>>, tag: u16,
                         ns: seq<nat>)
    requires index <= NReads(bufferSize)
    decreases NReads(bufferSize) - index
  {
    if index == NReads(bufferSize) then ns == []
    else
      && ns != [] && ns[0] <= ChunkSize(bufferSize, index)
      && (ns[0] > 0 ==> position + ns[0] <= |file|)
      && BringsReply(ReplyAt(replies, index), tag, Slice(file, position, ns[0]))
      && (index + 1 < NReads(bufferSize) ==> CutsOutside(ReplyAt(replies, index), ChunkSize(bufferSize, index)))
      && Serves(file, position + ns[0], bufferSize, index + 1, replies, tag, ns[1..])
  }

  /** Bytes that the loop takes of the reply to the last chunk. */
  function LastTaken(bufferSize: u64, replies: seq<seq<Rx>>): nat {
    if NReads(bufferSize) == 0 then 0
    else Taken(ReplyAt(replies, NReads(bufferSize) - 1), ChunkSize(bufferSize, NReads(bufferSize) - 1))
  }

  /** The reply to the last chunk has no boundary in its last bytes either. */
  ghost predicate EndsClean(bufferSize: u64, replies: seq<seq<Rx>>) {
    NReads(bufferSize) > 0 ==>
      CutsOutside(ReplyAt(replies, NReads(bufferSize) - 1), ChunkSize(bufferSize, NReads(bufferSize) - 1))
  }

  /** No chunk asks for more than header and data together bring. */
  predicate AllReturn(bufferSize: u64, index: nat, ns: seq<nat>) {
    forall i :: 0 <= i < |ns| ==> ChunkSize(bufferSize, index + i) <= RREAD_HEAD + ns[i]
  }

  lemma AllReturnSplit(bufferSize: u64, index: nat, ns: seq<nat>)
    requires ns != []
    ensures AllReturn(bufferSize, index, ns)
      <==> ChunkSize(bufferSize, index) <= RREAD_HEAD + ns[0] && AllReturn(bufferSize, index + 1, ns[1..])
  {
    hide ChunkSize;
    if ChunkSize(bufferSize, index) <= RREAD_HEAD + ns[0] && AllReturn(bufferSize, index + 1, ns[1..]) {
      forall i | 0 <= i < |ns|
        ensures ChunkSize(bufferSize, index + i) <= RREAD_HEAD + ns[i]
      {
        if i > 0 {
          assert ns[1..][i - 1] == ns[i] && index + 1 + (i - 1) == index + i;
        }
      }
    }
    if AllReturn(bufferSize, index, ns) {
      assert ChunkSize(bufferSize, index + 0) <= RREAD_HEAD + ns[0];
      forall i | 0 <= i < |ns[1..]|
        ensures ChunkSize(bufferSize, index + 1 + i) <= RREAD_HEAD + ns[1..][i]
      {
        assert ChunkSize(bufferSize, index + (i + 1)) <= RREAD_HEAD + ns[i + 1];
        assert index + (i + 1) == index + 1 + i;
      }
    }
  }

  /** What Serves says about one chunk. */
  lemma ServesHead(file: seq<u8>, position: nat, bufferSize: u64, index: nat, replies: seq<seq<Rx>>, tag: u16,
                   ns: seq<nat>)
    requires index < NReads(bufferSize) && Serves(file, position, bufferSize, index, replies, tag, ns)
    ensures ns != [] && ns[0] <= ChunkSize(bufferSize, index) && (ns[0] > 0 ==> position + ns[0] <= |file|)
    ensures BringsReply(ReplyAt(replies, index), tag, Slice(file, position, ns[0]))
    ensures index + 1 < NReads(bufferSize) ==> CutsOutside(ReplyAt(replies, index), ChunkSize(bufferSize, index))
    ensures index + 1 == NReads(bufferSize) ==> ns[1..] == []
    ensures Serves(file, position + ns[0], bufferSize, index + 1, replies, tag, ns[1..])
    ensures Sum(ns) == ns[0] + Sum(ns[1..])
  {
    hide NReads, ChunkSize, BringsReply, CutsOutside, Slice;
  }

  lemma {:induction false} ServesPolite(file: seq<u8>, position: nat, bufferSize: u64, index: nat,
                                        replies: seq<seq<Rx>>, tag: u16, ns: seq<nat>)
    requires index <= NReads(bufferSize) && Serves(file, position, bufferSize, index, replies, tag, ns)
    ensures forall i :: index <= i < NReads(bufferSize) ==> Polite(ReplyAt(replies, i), ChunkSize(bufferSize, i))
    decreases NReads(bufferSize) - index
  {
    hide Polite, NReads, ChunkSize, CutsOutside, BringsReply, Serves, Slice, Sum, LRead, CutRead, Taken;
    if index < NReads(bufferSize) {
      ServesHead(file, position, bufferSize, index, replies, tag, ns);
      LReadAnyCut(0, ChunkSize(bufferSize, index), ReplyAt(replies, index), tag, Slice(file, position, ns[0]));
      ServesPolite(file, position + ns[0], bufferSize, index + 1, replies, tag, ns[1..]);
    }
  }

  lemma ServesPoliteReplies(file: seq<u8>, position: nat, bufferSize: u64, replies: seq<seq<Rx>>, tag: u16,
                            ns: seq<nat>)
    requires Serves(file, position, bufferSize, 0, replies, tag, ns)
    ensures PoliteReplies(bufferSize, replies)
  {
    hide Polite, Serves;
    ServesPolite(file, position, bufferSize, 0, replies, tag, ns);
  }

  lemma ServesEnd(file: seq<u8>, position: nat, bufferSize: u64, index: nat, replies: seq<seq<Rx>>, tag: u16,
                  ns: seq<nat>)
    requires index == NReads(bufferSize) && Serves(file, position, bufferSize, index, replies, tag, ns)
    ensures ns == [] && Sum(ns) == 0
  {
  }

  lemma RoomStep(bufferSize: u64, index: nat, n: nat, rest: nat)
    requires index < NReads(bufferSize) && n <= ChunkSize(bufferSize, index)
    requires if index + 1 < NReads(bufferSize) then (index + 1) * MAX_RX_SIZE + rest <= bufferSize else rest == 0
    ensures index * MAX_RX_SIZE + n + rest <= bufferSize
  {
    PlanFits(bufferSize, index);
    hide NReads, ChunkSize;
  }

  /** The counts stay within the file and within the buffer. */
  lemma {:induction false} ServedRoom(file: seq<u8>, position: nat, bufferSize: u64, index: nat, replies: seq<seq<Rx>>,
                                      tag: u16, ns: seq<nat>)
    requires index <= NReads(bufferSize) && Serves(file, position, bufferSize, index, replies, tag, ns)
    ensures Sum(ns) > 0 ==> position + Sum(ns) <= |file|
    ensures index < NReads(bufferSize) ==> index * MAX_RX_SIZE + Sum(ns) <= bufferSize
    ensures index == NReads(bufferSize) ==> ns == [] && Sum(ns) == 0
    decreases NReads(bufferSize) - index
  {
    hide NReads, ChunkSize, CutsOutside, BringsReply, Serves, Slice, Sum;
    if index == NReads(bufferSize) {
      ServesEnd(file, position, bufferSize, index, replies, tag, ns);
    } else {
      ServesHead(file, position, bufferSize, index, replies, tag, ns);
      ServedRoom(file, position + ns[0], bufferSize, index + 1, replies, tag, ns[1..]);
      RoomStep(bufferSize, index, ns[0], Sum(ns[1..]));
    }
  }

  lemma OverwriteTwice(buffer: seq<u8>, at: nat, a: seq<u8>, b: seq<u8>)
    requires a + b != [] ==> at + |a| + |b| <= |buffer|
    ensures Overwrite(Overwrite(buffer, at, a), at + |a|, b) == Overwrite(buffer, at, a + b)
  {
  }

  lemma SliceConcat(file: seq<u8>, position: nat, n: nat, m: nat)
    requires (n > 0 ==> position + n <= |file|) && (n + m > 0 ==> position + n + m <= |file|)
    ensures m > 0 ==> position + n + m <= |file|
    ensures Slice(file, position, n) + Slice(file, position + n, m) == Slice(file, position, n + m)
  {
  }

  lemma FileReadEnd(start: u64, position: u64, bufferSize: u64, index: nat, off: nat, buffer: seq<u8>,
                    replies: seq<seq<Rx>>)
    requires index == NReads(bufferSize) && off <= index * MAX_RX_SIZE && bufferSize <= |buffer|
    requires PoliteReplies(bufferSize, replies)
    ensures FileReadFrom(start, position, bufferSize, index, off, buffer, replies)
      == ReadResult(Done(Success), position, buffer)
  {
    hide PoliteReplies;
  }

  lemma FileReadUnfold(start: u64, position: u64, bufferSize: u64, index: nat, off: nat, buffer: seq<u8>,
                       replies: seq<seq<Rx>>)
    requires index < NReads(bufferSize) && off <= index * MAX_RX_SIZE && bufferSize <= |buffer|
    requires PoliteReplies(bufferSize, replies)
    requires Polite(ReplyAt(replies, index), ChunkSize(bufferSize, index))
    ensures var c := ChunkSize(bufferSize, index);
      var r := LRead(position, c, ReplyAt(replies, index));
      && |r.data| <= r.count <= c && off + r.count <= (index + 1) * MAX_RX_SIZE && off + c <= bufferSize
      && FileReadFrom(start, position, bufferSize, index, off, buffer, replies) ==
           if r.outcome == Hung then ReadResult(Hung, position, buffer)
           else if r.outcome.status.IsError() then ReadResult(r.outcome, start, buffer)
           else FileReadFrom(start, r.position, bufferSize, index + 1, off + r.count, Overwrite(buffer, off, r.data),
                             replies)
  {
    PlanFits(bufferSize, index);
    DecodeBounds(position, ChunkSize(bufferSize, index), ReplyAt(replies, index));
    hide NReads, LRead, Polite, PoliteReplies, Overwrite;
  }

  /** What the last chunk adds to the buffer when n bytes of its reply are taken. */
  function LastData(data: seq<u8>, n: nat): (tail: seq<u8>)
    ensures |tail| <= |data|
  {
    if n < 8 || n > RREAD_HEAD + |data| then [] else Kept(data, n)
  }

  function LastStatus(n: nat): Status { if n < 5 then InvalidParameter else Success }

  /** One chunk after which the loop goes on. */
  lemma ServedStep(start: u64, position: u64, bufferSize: u64, index: nat, off: nat, buffer: seq<u8>,
                   replies: seq<seq<Rx>>, tag: u16, data: seq<u8>)
    requires index < NReads(bufferSize) && off <= index * MAX_RX_SIZE && bufferSize <= |buffer|
    requires PoliteReplies(bufferSize, replies) && |data| <= ChunkSize(bufferSize, index) && position + |data| < TWO64
    requires BringsReply(ReplyAt(replies, index), tag, data)
    requires CutsOutside(ReplyAt(replies, index), ChunkSize(bufferSize, index))
    ensures off + |data| <= bufferSize && off + |data| <= (index + 1) * MAX_RX_SIZE
    ensures FileReadFrom(start, position, bufferSize, index, off, buffer, replies) ==
      if ChunkSize(bufferSize, index) > RREAD_HEAD + |data| then ReadResult(Hung, position, buffer)
      else FileReadFrom(start, position + |data|, bufferSize, index + 1, off + |data|, Overwrite(buffer, off, data),
                        replies)
  {
    hide NReads, LRead, Polite, PoliteReplies, ChunkSize, BringsReply, CutsOutside, Overwrite, FileReadFrom;
    PlanFits(bufferSize, index);
    LReadExact(position, ChunkSize(bufferSize, index), ReplyAt(replies, index), tag, data);
    FileReadUnfold(start, position, bufferSize, index, off, buffer, replies);
  }

  lemma CutReadDelivers(position: u64, count: u32, data: seq<u8>, n: nat)
    requires |data| <= count && n <= RREAD_HEAD + |data| && position + |data| < TWO64
    ensures CutRead(position, count, data, n) ==
      if n < 5 then LReadResult(Done(InvalidParameter), count, [], position)
      else LReadResult(Done(Success), |LastData(data, n)|, LastData(data, n), position + |LastData(data, n)|)
  {
    hide Kept;
  }

  lemma OverwriteNothing(buffer: seq<u8>, off: nat)
    ensures Overwrite(buffer, off, []) == buffer
  {
  }

  /** The last chunk, with its reply cut in any way. */
  lemma ServedLast(start: u64, position: u64, bufferSize: u64, off: nat, buffer: seq<u8>, replies: seq<seq<Rx>>,
                   tag: u16, data: seq<u8>)
    requires 0 < NReads(bufferSize) && off <= (NReads(bufferSize) - 1) * MAX_RX_SIZE && bufferSize <= |buffer|
    requires PoliteReplies(bufferSize, replies) && position + |data| < TWO64
    requires |data| <= ChunkSize(bufferSize, NReads(bufferSize) - 1)
    requires BringsReply(ReplyAt(replies, NReads(bufferSize) - 1), tag, data)
    ensures var index, n := NReads(bufferSize) - 1, LastTaken(bufferSize, replies);
      && off + |data| <= bufferSize && n <= RREAD_HEAD + |data|
      && FileReadFrom(start, position, bufferSize, index, off, buffer, replies) ==
           if ChunkSize(bufferSize, index) > RREAD_HEAD + |data| then ReadResult(Hung, position, buffer)
           else ReadResult(Done(LastStatus(n)), if n < 5 then start else position + |LastData(data, n)|,
                           Overwrite(buffer, off, LastData(data, n)))
  {
    hide LRead, Polite, PoliteReplies, ChunkSize, BringsReply, FileReadFrom, Taken, Kept, CutRead, Overwrite;
    OverwriteNothing(buffer, off);
    var index, n := NReads(bufferSize) - 1, LastTaken(bufferSize, replies);
    var c := ChunkSize(bufferSize, index);
    hide NReads, LastTaken;
    PlanFits(bufferSize, index);
    LReadAnyCut(position, c, ReplyAt(replies, index), tag, data);
    FileReadUnfold(start, position, bufferSize, index, off, buffer, replies);
    var r := LRead(position, c, ReplyAt(replies, index));
    if c <= RREAD_HEAD + |data| {
      CutReadDelivers(position, c, data, n);
    }
    hide LastData;
    if c <= RREAD_HEAD + |data| && 5 <= n {
      FileReadEnd(start, r.position, bufferSize, index + 1, off + r.count, Overwrite(buffer, off, r.data), replies);
    }
  }

  /**
   What a served read ends with, when no chunk waits for ever: front bytes from all chunks but the
   last, then the last bytes, of whose reply n bytes are taken.
   */
  function Expected(file: seq<u8>, start: u64, position: nat, off: nat, buffer: seq<u8>, front: nat, last: nat, n: nat)
    : ReadResult
    requires front + last > 0 ==> position + front + last <= |file| && off + front + last <= |buffer|
    requires |file| < TWO64 && position < TWO64
  {
    var tail := LastData(Slice(file, position + front, last), n);
    ReadResult(Done(LastStatus(n)), if n < 5 then start else position + front + |tail|,
               Overwrite(buffer, off, Slice(file, position, front) + tail))
  }

  function Last(ns: seq<nat>): nat
    requires ns != []
  {
    ns[|ns| - 1]
  }

  lemma {:induction false} LastBelow(ns: seq<nat>)
    requires ns != []
    ensures Last(ns) <= Sum(ns)
    ensures |ns| == 1 ==> Sum(ns) == ns[0]
    ensures |ns| > 1 ==> Last(ns[1..]) == Last(ns) <= Sum(ns[1..])
  {
    if |ns| > 1 {
      LastBelow(ns[1..]);
    } else {
      assert ns[1..] == [];
    }
  }

  lemma JoinReads(file: seq<u8>, position: nat, n: nat, m: nat, tail: seq<u8>, buffer: seq<u8>, off: nat)
    requires n + m > 0 ==> position + n + m <= |file|
    requires n > 0 ==> position + n <= |file|
    requires n + m + |tail| > 0 ==> off + n + m + |tail| <= |buffer|
    ensures n + m == 0 || m == 0 || position + n + m <= |file|
    ensures var d := Slice(file, position, n);
      Overwrite(Overwrite(buffer, off, d), off + n, Slice(file, position + n, m) + tail)
      == Overwrite(buffer, off, Slice(file, position, n + m) + tail)
  {
    hide Slice, Overwrite;
    var d, e := Slice(file, position, n), Slice(file, position + n, m);
    SliceConcat(file, position, n, m);
    OverwriteTwice(buffer, off, d, e + tail);
    assert d + (e + tail) == d + e + tail;
  }

  /** A chunk in front of others: what is expected after it is what is expected from it. */
  lemma ExpectedStep(file: seq<u8>, start: u64, position: nat, off: nat, buffer: seq<u8>, m: nat, front: nat, last: nat,
                     n: nat)
    requires |file| < TWO64 && position < TWO64 && (m > 0 ==> position + m <= |file|)
    requires m + front + last > 0 ==> position + m + front + last <= |file| && off + m + front + last <= |buffer|
    ensures position + m < TWO64
    ensures Expected(file, start, position + m, off + m, Overwrite(buffer, off, Slice(file, position, m)), front,
                     last, n)
      == Expected(file, start, position, off, buffer, m + front, last, n)
  {
    hide Slice, Overwrite, LastData;
    JoinReads(file, position, m, front, LastData(Slice(file, position + m + front, last), n), buffer, off);
  }

  lemma ExpectedLast(file: seq<u8>, start: u64, position: nat, off: nat, buffer: seq<u8>, last: nat, n: nat)
    requires |file| < TWO64 && position < TWO64
    requires last > 0 ==> position + last <= |file| && off + last <= |buffer|
    ensures var tail := LastData(Slice(file, position, last), n);
      Expected(file, start, position, off, buffer, 0, last, n)
      == ReadResult(Done(LastStatus(n)), if n < 5 then start else position + |tail|, Overwrite(buffer, off, tail))
  {
    hide LastData, Overwrite;
    assert Slice(file, position, 0) == [];
    assert position + 0 == position;
    var tail := LastData(Slice(file, position, last), n);
    assert [] + tail == tail;
  }

  /** The loop from chunk index on, whatever counts are served and however the last reply is cut. */
  lemma {:induction false} FileReadServedFrom(file: seq<u8>, start: u64, position: u64, bufferSize: u64, index: nat,
                                              off: nat, buffer: seq<u8>, replies: seq<seq<Rx>>, tag: u16, ns: seq<nat>)
    requires index <= NReads(bufferSize) && off <= index * MAX_RX_SIZE && bufferSize <= |buffer|
    requires PoliteReplies(bufferSize, replies) && |file| < TWO64
    requires Serves(file, position, bufferSize, index, replies, tag, ns)
    ensures Sum(ns) > 0 ==> position + Sum(ns) <= |file| && off + Sum(ns) <= |buffer|
    ensures ns != [] ==> Last(ns) <= Sum(ns)
    ensures FileReadFrom(start, position, bufferSize, index, off, buffer, replies).outcome == Hung
      <==> !AllReturn(bufferSize, index, ns)
    ensures AllReturn(bufferSize, index, ns) ==>
      FileReadFrom(start, position, bufferSize, index, off, buffer, replies) ==
        if ns == [] then ReadResult(Done(Success), position, buffer)
        else Expected(file, start, position, off, buffer, Sum(ns) - Last(ns), Last(ns), LastTaken(bufferSize, replies))
    decreases NReads(bufferSize) - index
  {
    hide Polite, NReads, ChunkSize, CutsOutside, BringsReply, LRead, AllReturn, PoliteReplies, Overwrite, Slice, Serves,
      Sum, Last, LastTaken, LastData, FileReadFrom, Expected;
    ServedRoom(file, position, bufferSize, index, replies, tag, ns);
    if index == NReads(bufferSize) {
      NoneLeft(bufferSize, index, ns);
      FileReadEnd(start, position, bufferSize, index, off, buffer, replies);
    } else {
      ServesHead(file, position, bufferSize, index, replies, tag, ns);
      AllReturnSplit(bufferSize, index, ns);
      LastBelow(ns);
      var data, rest := Slice(file, position, ns[0]), ns[1..];
      if index + 1 == NReads(bufferSize) {
        OneLeft(ns);
        NoneLeft(bufferSize, index + 1, rest);
        ServedLast(start, position, bufferSize, off, buffer, replies, tag, data);
        ExpectedLast(file, start, position, off, buffer, ns[0], LastTaken(bufferSize, replies));
        ExpectedDone(file, start, position, off, buffer, 0, ns[0], LastTaken(bufferSize, replies));
      } else {
        ServedStep(start, position, bufferSize, index, off, buffer, replies, tag, data);
        MoreLeft(file, position + ns[0], bufferSize, index + 1, replies, tag, rest);
        FileReadServedFrom(file, start, position + ns[0], bufferSize, index + 1, off + ns[0],
          Overwrite(buffer, off, data), replies, tag, rest);
        ExpectedStep(file, start, position, off, buffer, ns[0], Sum(rest) - Last(rest), Last(ns),
          LastTaken(bufferSize, replies));
      }
    }
  }

  lemma ExpectedDone(file: seq<u8>, start: u64, position: nat, off: nat, buffer: seq<u8>, front: nat, last: nat, n: nat)
    requires front + last > 0 ==> position + front + last <= |file| && off + front + last <= |buffer|
    requires |file| < TWO64 && position < TWO64
    ensures Expected(file, start, position, off, buffer, front, last, n).outcome == Done(LastStatus(n))
  {
    hide LastData, Slice, Overwrite;
  }

  lemma OneLeft(ns: seq<nat>)
    requires ns != [] && ns[1..] == []
    ensures |ns| == 1 && Last(ns) == ns[0] == Sum(ns)
  {
    LastBelow(ns);
  }

  lemma MoreLeft(file: seq<u8>, position: nat, bufferSize: u64, index: nat, replies: seq<seq<Rx>>, tag: u16,
                 ns: seq<nat>)
    requires index < NReads(bufferSize) && Serves(file, position, bufferSize, index, replies, tag, ns)
    ensures ns != []
  {
    hide NReads;
  }

  lemma PoliteAt(bufferSize: u64, replies: seq<seq<Rx>>, index: nat)
    requires PoliteReplies(bufferSize, replies) && index < NReads(bufferSize)
    ensures Polite(ReplyAt(replies, index), ChunkSize(bufferSize, index))
  {
  }

  lemma NoneLeft(bufferSize: u64, index: nat, ns: seq<nat>)
    requires ns == []
    ensures AllReturn(bufferSize, index, ns)
  {
  }

  // ----- Whole reads -----

  /** The reply to the last chunk, and how much of it the loop takes. */
  lemma {:induction false} ServesLast(file: seq<u8>, position: nat, bufferSize: u64, index: nat, replies: seq<seq<Rx>>,
                                      tag: u16, ns: seq<nat>)
    requires index < NReads(bufferSize) && Serves(file, position, bufferSize, index, replies, tag, ns)
    ensures |ns| == NReads(bufferSize) - index && Last(ns) <= Sum(ns)
    ensures Last(ns) > 0 ==> position + Sum(ns) <= |file|
    ensures Last(ns) <= ChunkSize(bufferSize, NReads(bufferSize) - 1)
    ensures BringsReply(ReplyAt(replies, NReads(bufferSize) - 1), tag,
                        Slice(file, position + Sum(ns) - Last(ns), Last(ns)))
    decreases NReads(bufferSize) - index
  {
    hide NReads, ChunkSize, BringsReply, CutsOutside, Serves, Sum, Slice;
    ServesHead(file, position, bufferSize, index, replies, tag, ns);
    LastBelow(ns);
    if index + 1 < NReads(bufferSize) {
      ServesLast(file, position + ns[0], bufferSize, index + 1, replies, tag, ns[1..]);
      assert position + ns[0] + Sum(ns[1..]) - Last(ns[1..]) == position + Sum(ns) - Last(ns);
    } else {
      OneLeft(ns);
      assert position + Sum(ns) - Last(ns) == position;
    }
  }

  lemma LastTakenBounds(bufferSize: u64, replies: seq<seq<Rx>>, tag: u16, data: seq<u8>)
    requires 0 < NReads(bufferSize) && |data| <= ChunkSize(bufferSize, NReads(bufferSize) - 1)
    requires BringsReply(ReplyAt(replies, NReads(bufferSize) - 1), tag, data)
    ensures var n, c := LastTaken(bufferSize, replies), ChunkSize(bufferSize, NReads(bufferSize) - 1);
      && n <= RREAD_HEAD + |data| && (c <= RREAD_HEAD + |data| ==> |data| <= c <= n)
      && (c <= RREAD_HEAD + |data| && EndsClean(bufferSize, replies) ==> n == RREAD_HEAD + |data|)
  {
    var index := NReads(bufferSize) - 1;
    var c, reply := ChunkSize(bufferSize, index), ReplyAt(replies, index);
    hide NReads, ChunkSize, BringsReply, CutsOutside, LRead, Polite, CutRead, StopAt, Stream, ReplyBytes;
    LReadAnyCut(0, c, reply, tag, data);
    BringsSome(reply, tag, data);
    if c <= RREAD_HEAD + |data| {
      ReplySegments(reply, tag, data);
      WholeIffCutsOutside(reply, c);
    }
  }

  lemma ReplySegments(incoming: seq<Rx>, tag: u16, data: seq<u8>)
    requires BringsReply(incoming, tag, data)
    ensures AreSegments(incoming)
  {
  }

  lemma AllReturnLast(bufferSize: u64, ns: seq<nat>)
    requires |ns| == NReads(bufferSize) > 0 && AllReturn(bufferSize, 0, ns)
    ensures ChunkSize(bufferSize, NReads(bufferSize) - 1) <= RREAD_HEAD + Last(ns)
  {
    hide NReads, ChunkSize;
    assert ChunkSize(bufferSize, 0 + (|ns| - 1)) <= RREAD_HEAD + ns[|ns| - 1];
  }

  lemma TailExactIff(tag: u16, data: seq<u8>, n: nat)
    requires n <= RREAD_HEAD + |data| && |data| < 0x1_0000_0000 && (n < RREAD_HEAD ==> |data| < 11)
    ensures LastStatus(n) == Success && LastData(data, n) == data <==> Harmless(ReplyBytes(tag, data), n)
  {
    hide Kept, ReplyBytes, ZeroFrom;
    KeptExactIff(data, n);
    if 5 <= n {
      hide Harmless;
      HarmlessIff(tag, data, n);
    }
  }

  /** A buffer whose front is replaced by the bytes of two reads. */
  lemma TailInPlace(file: seq<u8>, position: nat, front: nat, last: nat, tail: seq<u8>, buffer: seq<u8>)
    requires front + last > 0 ==> position + front + last <= |file|
    requires front + last <= |buffer| && |tail| <= last
    ensures front > 0 ==> position + front <= |file|
    ensures last > 0 ==> position + front + last <= |file|
    ensures Overwrite(buffer, 0, Slice(file, position, front) + tail)
      == Slice(file, position, front) + tail + buffer[front + |tail|..]
    ensures |tail| == last ==>
      (Overwrite(buffer, 0, Slice(file, position, front) + tail)
         == Slice(file, position, front + last) + buffer[front + last..]
       <==> tail == Slice(file, position + front, last))
  {
    hide Slice;
    SliceConcat(file, position, front, last);
    var a, b := Slice(file, position, front), Slice(file, position + front, last);
    var x, y := a + tail + buffer[front + |tail|..], a + b + buffer[front + last..];
    assert a + tail == [] ==> buffer == x;
    if |tail| == last && x == y {
      assert tail == x[front..front + last];
      assert b == y[front..front + last];
    }
  }

  /** The bytes of the file at the front of the buffer, and the position behind them. */
  function WholeRead(file: seq<u8>, position: u64, total: nat, buffer: seq<u8>): ReadResult
    requires (total > 0 ==> position + total <= |file|) && total <= |buffer| && |file| < TWO64
  {
    ReadResult(Done(Success), position + total, Slice(file, position, total) + buffer[total..])
  }

  /** The same when only n bytes of the last reply, with the data of the last bytes, are taken. */
  function CutFileRead(file: seq<u8>, position: u64, front: nat, last: nat, n: nat, buffer: seq<u8>): ReadResult
    requires (front + last > 0 ==> position + front + last <= |file|) && front + last <= |buffer| && |file| < TWO64
  {
    var tail := LastData(Slice(file, position + front, last), n);
    ReadResult(Done(LastStatus(n)), if n < 5 then position else position + front + |tail|,
               Slice(file, position, front) + tail + buffer[front + |tail|..])
  }

  lemma CutIsExpected(file: seq<u8>, position: u64, front: nat, last: nat, n: nat, buffer: seq<u8>)
    requires (front + last > 0 ==> position + front + last <= |file|) && front + last <= |buffer| && |file| < TWO64
    ensures Expected(file, position, position, 0, buffer, front, last, n)
      == CutFileRead(file, position, front, last, n, buffer)
    ensures CutFileRead(file, position, front, last, n, buffer) == WholeRead(file, position, front + last, buffer)
      <==> LastStatus(n) == Success
           && LastData(Slice(file, position + front, last), n) == Slice(file, position + front, last)
  {
    hide Slice, LastData, Overwrite, LastStatus;
    TailInPlace(file, position, front, last, LastData(Slice(file, position + front, last), n), buffer);
    TailNone(n, Slice(file, position + front, last));
  }

  lemma TailNone(n: nat, data: seq<u8>)
    ensures n < 5 ==> LastStatus(n) != Success && LastData(data, n) == []
  {
  }

  /**
   P9FileRead with the reply to its last chunk cut in any way, for any counts the server returns: it
   waits for ever exactly when some chunk asks for more than header and data bring. Otherwise all
   chunks but the last are delivered, and of the last the bytes taken, with zeros for the others;
   this is reported as success. The result is the bytes of the file if and only if the bytes of the
   last reply that were not taken are harmless.
   */
  lemma FileReadAnyCut(file: seq<u8>, position: u64, bufferSize: u64, buffer: seq<u8>, replies: seq<seq<Rx>>,
                       tag: u16, ns: seq<nat>)
    requires 0 < NReads(bufferSize) && bufferSize <= |buffer| && |file| < TWO64
    requires Serves(file, position, bufferSize, 0, replies, tag, ns)
    ensures PoliteReplies(bufferSize, replies) && |ns| == NReads(bufferSize) && Last(ns) <= Sum(ns) <= |buffer|
    ensures Sum(ns) > 0 ==> position + Sum(ns) <= |file|
    ensures Last(ns) < 0x1_0000_0000
    ensures FileRead(position, bufferSize, buffer, replies).outcome == Hung <==> !AllReturn(bufferSize, 0, ns)
    ensures AllReturn(bufferSize, 0, ns) ==>
      FileRead(position, bufferSize, buffer, replies)
      == CutFileRead(file, position, Sum(ns) - Last(ns), Last(ns), LastTaken(bufferSize, replies), buffer)
    ensures FileRead(position, bufferSize, buffer, replies) == WholeRead(file, position, Sum(ns), buffer)
      <==> AllReturn(bufferSize, 0, ns)
           && Harmless(ReplyBytes(tag, Slice(file, position + Sum(ns) - Last(ns), Last(ns))),
                       LastTaken(bufferSize, replies))
  {
    hide NReads, ChunkSize, CutsOutside, BringsReply, AllReturn, PoliteReplies, FileReadFrom, Serves, Sum, Last, Slice,
      LastTaken, LastData, Overwrite, Harmless, ReplyBytes, CutFileRead, Expected;
    ServesPoliteReplies(file, position, bufferSize, replies, tag, ns);
    ServesLast(file, position, bufferSize, 0, replies, tag, ns);
    ServedRoom(file, position, bufferSize, 0, replies, tag, ns);
    FileReadServedFrom(file, position, position, bufferSize, 0, 0, buffer, replies, tag, ns);
    var front, n := Sum(ns) - Last(ns), LastTaken(bufferSize, replies);
    var data := Slice(file, position + front, Last(ns));
    LastTakenBounds(bufferSize, replies, tag, data);
    if AllReturn(bufferSize, 0, ns) {
      AllReturnLast(bufferSize, ns);
      TailExactIff(tag, data, n);
      CutIsExpected(file, position, front, Last(ns), n, buffer);
    }
  }

  /**
   P9FileRead is one contiguous read: if TCP cuts no reply in its last bytes, then for any counts
   the server returns for the chunks it either waits for ever, exactly when some chunk asks for more
   than header and data bring, or puts the T bytes of the file from Position on at the front of the
   buffer, leaves the rest of the buffer alone and advances Position by T, the sum of the counts.
   */
  lemma FileReadContiguous(file: seq<u8>, position: u64, bufferSize: u64, buffer: seq<u8>, replies: seq<seq<Rx>>,
                           tag: u16, ns: seq<nat>)
    requires bufferSize <= |buffer| && |file| < TWO64 && Serves(file, position, bufferSize, 0, replies, tag, ns)
    requires EndsClean(bufferSize, replies)
    ensures PoliteReplies(bufferSize, replies)
    ensures var r, T := FileRead(position, bufferSize, buffer, replies), Sum(ns);
      && (r.outcome == Done(Success) <==> AllReturn(bufferSize, 0, ns))
      && (r.outcome != Done(Success) ==> r.outcome == Hung)
      && (T > 0 ==> position + T <= |file|) && T <= |buffer|
      && (r.outcome == Done(Success) ==>
            r.position == position + T && r.buffer == Slice(file, position, T) + buffer[T..])
  {
    hide NReads, ChunkSize, CutsOutside, BringsReply, AllReturn, PoliteReplies, FileReadFrom, Serves, Sum, Last,
      LastTaken, EndsClean, ReplyBytes;
    if NReads(bufferSize) == 0 {
      ServesPoliteReplies(file, position, bufferSize, replies, tag, ns);
      ServedRoom(file, position, bufferSize, 0, replies, tag, ns);
      NoneLeft(bufferSize, 0, ns);
      FileReadEnd(position, position, bufferSize, 0, 0, buffer, replies);
    } else {
      FileReadAnyCut(file, position, bufferSize, buffer, replies, tag, ns);
      ServesLast(file, position, bufferSize, 0, replies, tag, ns);
      var data := Slice(file, position + Sum(ns) - Last(ns), Last(ns));
      LastTakenBounds(bufferSize, replies, tag, data);
      if AllReturn(bufferSize, 0, ns) {
        AllReturnLast(bufferSize, ns);
        assert Harmless(ReplyBytes(tag, data), LastTaken(bufferSize, replies));
      }
    }
  }

  // ----- Reading against the end of the file -----

  /** Bytes that the chunks ask for together: an exact positive multiple of the chunk size loses its last chunk. */
  function Planned(bufferSize: u64): nat {
    if bufferSize > 0 && bufferSize % 65512 == 0 then bufferSize - 65512 else bufferSize
  }

  /** The counts of a server that returns as much as it can, with remaining bytes of file left. */
  function FullCounts(bufferSize: u64, index: nat, remaining: nat): seq<nat>
    requires index <= NReads(bufferSize)
    decreases NReads(bufferSize) - index
  {
    if index == NReads(bufferSize) then []
    else
      var n := Min(ChunkSize(bufferSize, index), remaining);
      [n] + FullCounts(bufferSize, index + 1, remaining - n)
  }

  /** Bytes asked for from chunk index on. */
  function LeftPlanned(bufferSize: u64, index: nat): nat
    requires index <= NReads(bufferSize)
  {
    if index == NReads(bufferSize) then 0
    else (NReads(bufferSize) - 1 - index) * MAX_RX_SIZE + bufferSize % MAX_RX_SIZE
  }

  lemma LeftPlannedStep(bufferSize: u64, index: nat)
    requires index < NReads(bufferSize)
    ensures LeftPlanned(bufferSize, index) == ChunkSize(bufferSize, index) + LeftPlanned(bufferSize, index + 1)
  {
    hide NReads;
  }

  lemma PlannedIsSum(bufferSize: u64)
    requires bufferSize + MAX_RX_SIZE - 1 < TWO64
    ensures LeftPlanned(bufferSize, 0) == Planned(bufferSize)
  {
    var q, r := bufferSize / MAX_RX_SIZE, bufferSize % MAX_RX_SIZE;
    if r == 0 {
      DivUnique(bufferSize + MAX_RX_SIZE - 1, MAX_RX_SIZE, q, MAX_RX_SIZE - 1);
    } else {
      DivUnique(bufferSize + MAX_RX_SIZE - 1, MAX_RX_SIZE, q + 1, r - 1);
    }
  }

  lemma {:induction false} FullSum(bufferSize: u64, index: nat, remaining: nat)
    requires index <= NReads(bufferSize)
    ensures Sum(FullCounts(bufferSize, index, remaining)) == Min(LeftPlanned(bufferSize, index), remaining)
    decreases NReads(bufferSize) - index
  {
    hide NReads, ChunkSize, LeftPlanned;
    if index < NReads(bufferSize) {
      LeftPlannedStep(bufferSize, index);
      FullSum(bufferSize, index + 1, remaining - Min(ChunkSize(bufferSize, index), remaining));
    } else {
      NonePlanned(bufferSize, index);
    }
  }

  lemma NonePlanned(bufferSize: u64, index: nat)
    requires index == NReads(bufferSize)
    ensures LeftPlanned(bufferSize, index) == 0
  {
  }

  /** Whether a server that returns as much as it can ends the read, in terms of the bytes left in the file. */
  predicate EndsNear(bufferSize: u64, index: nat, remaining: nat)
    requires index <= NReads(bufferSize)
  {
    index == NReads(bufferSize)
    || LeftPlanned(bufferSize, index) <= remaining + RREAD_HEAD
    || (bufferSize % MAX_RX_SIZE <= RREAD_HEAD
        && (NReads(bufferSize) - 1 - index) * MAX_RX_SIZE <= remaining + RREAD_HEAD)
  }

  lemma EndsNearStep(bufferSize: u64, index: nat, remaining: nat)
    requires index < NReads(bufferSize)
    ensures var n := Min(ChunkSize(bufferSize, index), remaining);
      EndsNear(bufferSize, index, remaining)
      <==> ChunkSize(bufferSize, index) <= RREAD_HEAD + n && EndsNear(bufferSize, index + 1, remaining - n)
  {
    hide NReads;
    var left := NReads(bufferSize) - 1 - index;
    if left >= 1 {
      assert left * MAX_RX_SIZE == (left - 1) * MAX_RX_SIZE + MAX_RX_SIZE;
      assert left == 1 || (left - 1) * MAX_RX_SIZE >= MAX_RX_SIZE;
    }
  }

  lemma {:induction false} FullReturns(bufferSize: u64, index: nat, remaining: nat)
    requires index <= NReads(bufferSize)
    ensures AllReturn(bufferSize, index, FullCounts(bufferSize, index, remaining))
      <==> EndsNear(bufferSize, index, remaining)
    decreases NReads(bufferSize) - index
  {
    hide NReads, ChunkSize, EndsNear, AllReturn;
    var ns := FullCounts(bufferSize, index, remaining);
    if index < NReads(bufferSize) {
      var n := Min(ChunkSize(bufferSize, index), remaining);
      FullReturns(bufferSize, index + 1, remaining - n);
      EndsNearStep(bufferSize, index, remaining);
      AllReturnSplit(bufferSize, index, ns);
    } else {
      NoneLeft(bufferSize, index, ns);
      AtTheEnd(bufferSize, index, remaining);
    }
  }

  lemma AtTheEnd(bufferSize: u64, index: nat, remaining: nat)
    requires index == NReads(bufferSize)
    ensures EndsNear(bufferSize, index, remaining)
  {
  }

  /** What a caller can check: the bytes asked for end at most 11 bytes behind the end of the file, or nearly so. */
  predicate EndsNearFile(bufferSize: u64, remaining: nat) {
    || Planned(bufferSize) <= remaining + 11
    || (bufferSize % 65512 <= 11 && Planned(bufferSize) - bufferSize % 65512 <= remaining + 11)
  }

  /**
   With a server that returns as much as it can, P9FileRead returns at all if and only if what it
   asks for ends close enough to the end of the file, and then it delivers min(asked, remaining)
   bytes. A read that goes further beyond the end waits for ever.
   */
  lemma FullReadIff(file: seq<u8>, position: u64, bufferSize: u64, buffer: seq<u8>, replies: seq<seq<Rx>>, tag: u16)
    requires bufferSize <= |buffer| && |file| < TWO64 && bufferSize + MAX_RX_SIZE - 1 < TWO64
    requires EndsClean(bufferSize, replies)
    requires var remaining := if position <= |file| then |file| - position else 0;
      Serves(file, position, bufferSize, 0, replies, tag, FullCounts(bufferSize, 0, remaining))
    ensures PoliteReplies(bufferSize, replies)
    ensures var r := FileRead(position, bufferSize, buffer, replies);
      var remaining := if position <= |file| then |file| - position else 0;
      var T := Min(Planned(bufferSize), remaining);
      && (r.outcome == Done(Success) <==> EndsNearFile(bufferSize, remaining))
      && (r.outcome == Done(Success) || r.outcome == Hung)
      && T <= |buffer| && (T > 0 ==> position + T <= |file|)
      && (r.outcome == Done(Success) ==>
            r.position == position + T && r.buffer == Slice(file, position, T) + buffer[T..])
  {
    hide FileRead, Serves, PoliteReplies, AllReturn, FullCounts, Sum, EndsClean;
    var remaining := if position <= |file| then |file| - position else 0;
    var ns := FullCounts(bufferSize, 0, remaining);
    FileReadContiguous(file, position, bufferSize, buffer, replies, tag, ns);
    FullSum(bufferSize, 0, remaining);
    FullReturns(bufferSize, 0, remaining);
    PlannedIsSum(bufferSize);
    NearIsNear(bufferSize, remaining);
  }

  lemma NearIsNear(bufferSize: u64, remaining: nat)
    requires bufferSize + MAX_RX_SIZE - 1 < TWO64
    ensures EndsNear(bufferSize, 0, remaining) <==> EndsNearFile(bufferSize, remaining)
  {
    PlannedIsSum(bufferSize);
    hide Planned;
  }
}
