/** What P9LRead and P9FileRead deliver for the replies of a 9P server, however TCP cuts them. */
module ReadLaws {
  import opened Ints
  import opened Bytes
  import opened Statuses
  import opened Reading

  // ----- One reply, cut into segments -----

  predicate AreSegments(incoming: seq<Rx>) {
    forall i :: 0 <= i < |incoming| ==> incoming[i].Segment? && incoming[i].data != []
  }

  /** The bytes of an Rread: size[4] Rread tag[2] count[4] data[count]. */
  function ReplyBytes(tag: u16, data: seq<u8>): (b: seq<u8>)
    requires |data| < 0x1_0000_0000
    ensures |b| == RREAD_HEAD + |data|
  {
    LE((RREAD_HEAD + |data|) % 0x1_0000_0000, 4) + [RREAD] + LE(tag, 2) + LE(|data|, 4) + data
  }

  /** No segment ends in [count, total) before the last one. */
  ghost predicate CutsOutside(incoming: seq<Rx>, count: nat) {
    forall k :: 0 < k < |incoming| ==> |Stream(incoming[..k])| < count
  }

  lemma StreamTail(incoming: seq<Rx>, k: nat)
    requires 0 < k <= |incoming| && incoming[0].Segment?
    ensures Stream(incoming[..k]) == incoming[0].data + Stream(incoming[1..][..k - 1])
  {
    assert incoming[..k][1..] == incoming[1..][..k - 1];
  }

  lemma SegmentsTail(incoming: seq<Rx>)
    requires AreSegments(incoming) && incoming != []
    ensures AreSegments(incoming[1..])
  {
  }

  /**
   Over non-empty segments the loop returns exactly when the stream holds the bytes asked for, and
   it stops at the first prefix that reaches them.
   */
  lemma {:induction false} LoopStops(incoming: seq<Rx>, need: int)
    requires AreSegments(incoming) && incoming != []
    ensures !StopAt(incoming, need).Faulted?
    ensures StopAt(incoming, need).Complete? <==> |Stream(incoming)| >= need
    ensures StopAt(incoming, need).Complete? ==> var used := StopAt(incoming, need).used;
      && 0 < used <= |incoming| && |Stream(incoming[..used])| >= need
      && forall k :: 0 < k < used ==> |Stream(incoming[..k])| < need
    decreases |incoming|
  {
    assert incoming[0].Segment?;
    var d, rest := incoming[0].data, incoming[1..];
    assert Stream(incoming[..1]) == d by { StreamTail(incoming, 1); }
    if |d| < need && rest != [] {
      SegmentsTail(incoming);
      LoopStops(rest, need - |d|);
      if StopAt(incoming, need).Complete? {
        var used := StopAt(incoming, need).used;
        StreamTail(incoming, used);
        forall k | 1 < k < used
          ensures |Stream(incoming[..k])| < need
        {
          StreamTail(incoming, k);
          assert |Stream(rest[..k - 1])| < need - |d|;
        }
      }
    }
  }

  /** A TCP4 error that comes before enough bytes ends the loop. */
  lemma {:induction false} FaultStops(before: seq<Rx>, after: seq<Rx>, need: int)
    requires AreSegments(before) && |Stream(before)| < need
    ensures StopAt(before + [Fault] + after, need) == Faulted
    decreases |before|
  {
    var incoming := before + [Fault] + after;
    if before != [] {
      assert incoming[0] == before[0] && before[0].Segment?;
      assert incoming[1..] == before[1..] + [Fault] + after;
      FaultStops(before[1..], after, need - |before[0].data|);
    }
  }

  /** It fails the read with a transport error, whatever has arrived, and Position stays. */
  lemma FaultFails(position: u64, count: u32, before: seq<Rx>, after: seq<Rx>)
    requires AreSegments(before) && |Stream(before)| < count && Polite(before + [Fault] + after, count)
    ensures LRead(position, count, before + [Fault] + after)
      == LReadResult(Done(TransportError), count, [], position)
  {
    FaultStops(before, after, count);
    LReadOutcome(position, count, before + [Fault] + after);
  }

  lemma StreamShorter(incoming: seq<Rx>, k: nat)
    requires AreSegments(incoming) && k < |incoming|
    ensures |Stream(incoming[..k])| < |Stream(incoming)|
  {
    StreamNext(incoming, k);
    assert incoming[k].Segment?;
  }

  /** The loop takes the whole stream exactly when no segment but the last ends at count or beyond. */
  lemma WholeIffCutsOutside(incoming: seq<Rx>, count: nat)
    requires AreSegments(incoming) && incoming != [] && |Stream(incoming)| >= count
    ensures StopAt(incoming, count).Complete? && StopAt(incoming, count).used <= |incoming|
    ensures Stream(incoming[..StopAt(incoming, count).used]) == Stream(incoming) <==> CutsOutside(incoming, count)
  {
    LoopStops(incoming, count);
    var used := StopAt(incoming, count).used;
    if used == |incoming| {
      assert incoming[..used] == incoming;
    } else {
      StreamShorter(incoming, used);
    }
  }

  /** The stream of one P9LRead is one Rread with the given data. */
  ghost predicate BringsReply(incoming: seq<Rx>, tag: u16, data: seq<u8>) {
    AreSegments(incoming) && |data| < 0x1_0000_0000 && Stream(incoming) == ReplyBytes(tag, data)
  }

  lemma BringsSome(incoming: seq<Rx>, tag: u16, data: seq<u8>)
    requires BringsReply(incoming, tag, data)
    ensures incoming != [] && |Stream(incoming)| == RREAD_HEAD + |data|
  {
    EmptyStream();
  }

  /** Number of bytes of the stream that the loop takes. */
  function Taken(incoming: seq<Rx>, count: nat): nat {
    match StopAt(incoming, count)
    case Complete(used) => if used <= |incoming| then |Stream(incoming[..used])| else 0
    case _ => 0
  }

  lemma StreamPrefix(incoming: seq<Rx>, k: nat)
    requires k <= |incoming|
    ensures |Stream(incoming[..k])| <= |Stream(incoming)|
    ensures Stream(incoming[..k]) == Stream(incoming)[..|Stream(incoming[..k])|]
    ensures Stream(incoming[k..]) == Stream(incoming)[|Stream(incoming[..k])|..]
  {
    assert incoming == incoming[..k] + incoming[k..];
    StreamConcat(incoming[..k], incoming[k..]);
  }

  /** The data of an Rread of which only the first n bytes are taken, and zeros for the rest. */
  function Kept(data: seq<u8>, n: nat): (b: seq<u8>)
    requires n <= RREAD_HEAD + |data|
    ensures |b| == |data|
  {
    data[..DataTaken(n)] + Zeros(|data| - DataTaken(n))
  }

  /** What P9LRead makes of the first n bytes of an Rread. */
  function CutRead(position: u64, count: u32, data: seq<u8>, n: nat): LReadResult
    requires |data| <= count && n <= RREAD_HEAD + |data|
  {
    if n < 5 then LReadResult(Done(InvalidParameter), count, [], position)
    else if n < 8 then LReadResult(Done(Success), 0, [], position)
    else LReadResult(Done(Success), |data|, Kept(data, n), (position + |data|) % TWO64)
  }

  /** Bytes of a little-endian number of four bytes from position 7 on among n bytes. */
  function CountBytes(n: nat): nat { if n < 7 then 0 else if n < 11 then n - 7 else 4 }

  /** The four bytes at position 7 of a message of which n bytes are kept. */
  lemma FieldOfPrefix(front: seq<u8>, v: nat, back: seq<u8>, n: nat, zeros: nat)
    requires |front| == 7 && n <= 11 + |back| && n + zeros >= 11 + |back|
    ensures var b := (front + LE(v, 4) + back)[..n] + Zeros(zeros);
      Pow256(CountBytes(n)) > 0 && FromLE(b[7..11]) == v % Pow256(CountBytes(n))
  {
    hide LE, FromLE, Pow256;
    var whole, j := front + LE(v, 4) + back, CountBytes(n);
    var b := whole[..n] + Zeros(zeros);
    LowBytes(v, 4, j);
    FromLEPads(LE(v, 4)[..j], 4 - j);
    assert whole[7..11] == LE(v, 4);
    assert b[7..11] == LE(v, 4)[..j] + Zeros(4 - j);
  }

  lemma SmallModulo(v: nat, j: nat)
    requires j <= 4 && (if j == 4 then v < 0x1_0000_0000 else v < 11)
    ensures Pow256(j) > 0 && v % Pow256(j) == if j == 0 then 0 else v
  {
    Widths();
    assert Pow256(1) == 256;
    assert Pow256(3) == 256 * Pow256(2);
  }

  lemma DataOfPrefix(head: seq<u8>, data: seq<u8>, n: nat, zeros: nat)
    requires |head| == RREAD_HEAD && n <= RREAD_HEAD + |data| <= n + zeros
    ensures ((head + data)[..n] + Zeros(zeros))[RREAD_HEAD..RREAD_HEAD + |data|] == Kept(data, n)
  {
    var b := (head + data)[..n] + Zeros(zeros);
    if n < RREAD_HEAD {
      assert Kept(data, n) == Zeros(|data|);
    } else {
      assert (head + data)[..n] == head + data[..n - RREAD_HEAD];
    }
  }

  lemma DecodeParts(position: u64, count: u32, buffer: seq<u8>, data: seq<u8>, n: nat)
    requires |data| <= count <= n <= RREAD_HEAD + |data| && |buffer| == RREAD_HEAD + count
    requires buffer[4] == if n < 5 then 0 else RREAD
    requires FromLE(buffer[7..11]) == if n <= 7 then 0 else |data|
    requires buffer[RREAD_HEAD..RREAD_HEAD + |data|] == Kept(data, n)
    ensures Decode(position, count, buffer) == CutRead(position, count, data, n)
  {
    hide FromLE, Kept;
  }

  lemma KindOfPrefix(reply: seq<u8>, n: nat, zeros: nat)
    requires 5 <= |reply| <= n + zeros && n <= |reply|
    ensures (reply[..n] + Zeros(zeros))[4] == if n < 5 then 0 else reply[4]
  {
  }

  lemma ReplyFront(tag: u16, data: seq<u8>) returns (front: seq<u8>)
    requires |data| < 0x1_0000_0000
    ensures |front| == 7 && front[4] == RREAD && ReplyBytes(tag, data) == front + LE(|data|, 4) + data
  {
    hide LE;
    front := LE((RREAD_HEAD + |data|) % 0x1_0000_0000, 4) + [RREAD] + LE(tag, 2);
  }

  lemma DecodePrefix(position: u64, count: u32, tag: u16, data: seq<u8>, n: nat)
    requires |data| <= count <= n <= RREAD_HEAD + |data|
    ensures var buffer := ReplyBytes(tag, data)[..n] + Zeros(RREAD_HEAD + count - n);
      && Decode(position, count, buffer) == CutRead(position, count, data, n)
      && FromLE(buffer[7..11]) <= count
  {
    hide LE, FromLE, Pow256, Kept, ReplyBytes, Decode, CutRead;
    var zeros := RREAD_HEAD + count - n;
    var front := ReplyFront(tag, data);
    KindOfPrefix(ReplyBytes(tag, data), n, zeros);
    FieldOfPrefix(front, |data|, data, n, zeros);
    SmallModulo(|data|, CountBytes(n));
    DataOfPrefix(front + LE(|data|, 4), data, n, zeros);
    DecodeParts(position, count, ReplyBytes(tag, data)[..n] + Zeros(zeros), data, n);
  }

  /**
   P9LRead of count bytes answered by an Rread of at most count bytes, cut in any way: it waits for
   ever exactly when header and data together are shorter than count. Otherwise it takes the first
   n bytes, up to the first boundary at count or beyond; from 8 bytes on it reports success and the
   full count, with zeros in place of the bytes not taken.
   */
  lemma LReadAnyCut(position: u64, count: u32, incoming: seq<Rx>, tag: u16, data: seq<u8>)
    requires BringsReply(incoming, tag, data) && |data| <= count
    ensures Polite(incoming, count) && Taken(incoming, count) <= RREAD_HEAD + |data|
    ensures count <= RREAD_HEAD + |data| ==> count <= Taken(incoming, count)
    ensures LRead(position, count, incoming) ==
      if RREAD_HEAD + |data| < count then LReadResult(Hung, count, [], position)
      else CutRead(position, count, data, Taken(incoming, count))
  {
    hide ReplyBytes, StopAt, Stream, FromLE, Decode, CutRead, Zeros;
    BringsSome(incoming, tag, data);
    LoopStops(incoming, count);
    if |Stream(incoming)| >= count {
      StreamPrefix(incoming, StopAt(incoming, count).used);
      DecodePrefix(position, count, tag, data, Taken(incoming, count));
    }
  }

  /** The bytes of a reply behind the first n matter to nobody: tag bytes, which are not looked at, or zeros. */
  predicate Harmless(reply: seq<u8>, n: nat) {
    5 <= n && forall i :: n <= i < |reply| && 7 <= i ==> reply[i] == 0
  }

  /** Data from position m on is zero. */
  predicate ZeroFrom(data: seq<u8>, m: nat) { forall i :: m <= i < |data| ==> data[i] == 0 }

  function DataTaken(n: nat): nat { if n < RREAD_HEAD then 0 else n - RREAD_HEAD }

  lemma KeptExactIff(data: seq<u8>, n: nat)
    requires n <= RREAD_HEAD + |data|
    ensures Kept(data, n) == data <==> ZeroFrom(data, DataTaken(n))
  {
    if Kept(data, n) == data {
      assert forall i :: DataTaken(n) <= i < |data| ==> data[i] == Kept(data, n)[i] == 0;
    }
  }

  lemma ReplyParts(tag: u16, data: seq<u8>)
    requires |data| < 0x1_0000_0000
    ensures ReplyBytes(tag, data)[7..11] == LE(|data|, 4) && ReplyBytes(tag, data)[11..] == data
  {
    hide LE;
  }

  lemma HarmlessIff(tag: u16, data: seq<u8>, n: nat)
    requires 5 <= n <= RREAD_HEAD + |data| && |data| < 0x1_0000_0000 && (n < RREAD_HEAD ==> |data| < 11)
    ensures Harmless(ReplyBytes(tag, data), n)
      <==> if n < 8 then data == [] else ZeroFrom(data, DataTaken(n))
  {
    var reply := ReplyBytes(tag, data);
    ReplyParts(tag, data);
    SmallBytes(|data|);
    hide ReplyBytes, LE;
    assert forall i :: 7 <= i < 11 ==> reply[i] == reply[7..11][i - 7];
    assert forall i :: 0 <= i < |data| ==> data[i] == reply[11..][i] == reply[11 + i];
    if Harmless(reply, n) {
      assert n < 8 ==> reply[7] == 0;
    }
  }

  lemma CutReadExactIff(position: u64, count: u32, tag: u16, data: seq<u8>, n: nat)
    requires |data| <= count <= n <= RREAD_HEAD + |data|
    ensures CutRead(position, count, data, n) == LReadResult(Done(Success), |data|, data, (position + |data|) % TWO64)
      <==> Harmless(ReplyBytes(tag, data), n)
  {
    hide Kept, ReplyBytes;
    KeptExactIff(data, n);
    if 5 <= n {
      hide Harmless, ZeroFrom;
      HarmlessIff(tag, data, n);
    }
  }

  lemma SmallBytes(v: nat)
    ensures v < 11 ==> LE(v, 4)[0] == v && LE(v, 4)[1] == LE(v, 4)[2] == LE(v, 4)[3] == 0
  {
    if v < 11 {
      assert v / 256 == 0 && v % 256 == v;
      assert LE(v, 4) == [v] + LE(0, 3);
      assert LE(0, 3) == [0] + LE(0, 2) && LE(0, 2) == [0] + LE(0, 1) && LE(0, 1) == [0];
    }
  }

  /** P9LRead delivers exactly the data of the reply if and only if the loop ends and leaves only harmless bytes. */
  lemma LReadExactIff(position: u64, count: u32, incoming: seq<Rx>, tag: u16, data: seq<u8>)
    requires BringsReply(incoming, tag, data) && |data| <= count
    ensures Polite(incoming, count)
    ensures LRead(position, count, incoming) == LReadResult(Done(Success), |data|, data, (position + |data|) % TWO64)
      <==> count <= RREAD_HEAD + |data| && Harmless(ReplyBytes(tag, data), Taken(incoming, count))
  {
    hide ReplyBytes, Harmless, CutRead, Taken, Polite, LRead;
    LReadAnyCut(position, count, incoming, tag, data);
    if count <= RREAD_HEAD + |data| {
      CutReadExactIff(position, count, tag, data, Taken(incoming, count));
    }
  }

  /** A reply with no boundary in [count, total) is delivered exactly, if the loop ends. */
  lemma LReadExact(position: u64, count: u32, incoming: seq<Rx>, tag: u16, data: seq<u8>)
    requires BringsReply(incoming, tag, data) && |data| <= count && CutsOutside(incoming, count)
    ensures Polite(incoming, count)
    ensures LRead(position, count, incoming) ==
      if RREAD_HEAD + |data| < count then LReadResult(Hung, count, [], position)
      else LReadResult(Done(Success), |data|, data, (position + |data|) % TWO64)
  {
    hide ReplyBytes, StopAt, Stream, CutRead, Polite, LRead, CutsOutside;
    BringsSome(incoming, tag, data);
    LReadAnyCut(position, count, incoming, tag, data);
    LReadExactIff(position, count, incoming, tag, data);
    if RREAD_HEAD + |data| >= count {
      WholeIffCutsOutside(incoming, count);
    }
  }

  /** With a boundary in [count, total), P9LRead leaves the end of the reply unread on the stream. */
  lemma CutInsideLosesSync(count: u32, incoming: seq<Rx>, tag: u16, data: seq<u8>)
    requires BringsReply(incoming, tag, data) && |data| <= count && !CutsOutside(incoming, count)
    ensures StopAt(incoming, count).Complete? && StopAt(incoming, count).used < |incoming|
    ensures Taken(incoming, count) < RREAD_HEAD + |data|
    ensures Stream(incoming[StopAt(incoming, count).used..]) == ReplyBytes(tag, data)[Taken(incoming, count)..]
  {
    hide ReplyBytes, StopAt, Stream;
    BringsSome(incoming, tag, data);
    var k :| 0 < k < |incoming| && |Stream(incoming[..k])| >= count;
    StreamShorter(incoming, k);
    LoopStops(incoming, count);
    StreamPrefix(incoming, StopAt(incoming, count).used);
    StreamShorter(incoming, StopAt(incoming, count).used);
  }

  /** The status for an Rlerror of which n bytes are taken. */
  function CutErrorStatus(ecode: u32, n: nat): Status {
    if n < 5 then InvalidParameter else CodeStatus(LowValue(ecode, CountBytes(n)))
  }

  /** The value of the first j bytes of a code. */
  function LowValue(ecode: u32, j: nat): u32 {
    if j == 0 then 0 else if j == 1 then ecode % 0x100 else if j == 2 then ecode % 0x1_0000
    else if j == 3 then ecode % 0x100_0000 else ecode
  }

  lemma LowValueIs(ecode: u32, j: nat)
    requires j <= 4
    ensures Pow256(j) > 0 && LowValue(ecode, j) == ecode % Pow256(j)
  {
    Widths();
    assert Pow256(1) == 256;
    assert Pow256(3) == 256 * Pow256(2);
  }

  lemma DecodeErrorPrefix(position: u64, count: u32, tag: u16, ecode: u32, n: nat)
    requires count <= n <= RLERROR_SIZE
    ensures var buffer := ErrorReply(tag, ecode)[..n] + Zeros(RREAD_HEAD + count - n);
      && buffer[4] != RREAD
      && Decode(position, count, buffer) == LReadResult(Done(CutErrorStatus(ecode, n)), count, [], position)
  {
    hide LE, FromLE, Pow256;
    var front := LE(11, 4) + [RLERROR] + LE(tag, 2);
    assert ErrorReply(tag, ecode) == front + LE(ecode, 4) + [];
    FieldOfPrefix(front, ecode, [], n, RREAD_HEAD + count - n);
    LowValueIs(ecode, CountBytes(n));
    KindOfPrefix(ErrorReply(tag, ecode), n, RREAD_HEAD + count - n);
    hide LowValue;
  }

  /**
   An Rlerror has 11 bytes: a read of more waits for ever, however it is cut. A smaller read returns
   the status of the code, or of its low bytes if the code is cut, or INVALID_PARAMETER if the
   message kind is cut off.
   */
  lemma ErrorReplyRead(position: u64, count: u32, incoming: seq<Rx>, tag: u16, ecode: u32)
    requires AreSegments(incoming) && Stream(incoming) == ErrorReply(tag, ecode)
    ensures Polite(incoming, count)
    ensures LRead(position, count, incoming).outcome == Hung <==> count > RLERROR_SIZE
    ensures count <= RLERROR_SIZE ==> var n := Taken(incoming, count);
      && count <= n <= RLERROR_SIZE
      && LRead(position, count, incoming) == LReadResult(Done(CutErrorStatus(ecode, n)), count, [], position)
      && (CutsOutside(incoming, count) ==> LRead(position, count, incoming).outcome == Done(CodeStatus(ecode)))
  {
    hide ErrorReply, StopAt, Stream, Decode, FromLE, Pow256, CutsOutside;
    EmptyStream();
    LoopStops(incoming, count);
    if count <= RLERROR_SIZE {
      StreamPrefix(incoming, StopAt(incoming, count).used);
      DecodeErrorPrefix(position, count, tag, ecode, Taken(incoming, count));
      WholeIffCutsOutside(incoming, count);
    }
  }

  lemma EmptyStream()
    ensures Stream([]) == []
  {
  }
}
