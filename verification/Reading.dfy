/**
 File reads: the receive loop of P9LRead over TCP segments, and the chunks of P9FileRead.
 A call that would wait for bytes that never come has the outcome Hung.
 */
module Reading {
  import opened Ints
  import opened Bytes
  import opened Statuses

  const RREAD: u8 := 117
  const RREAD_HEAD: nat := 11

  /** What one posted receive brings: a segment of the stream, or an error of the TCP4 protocol. */
  datatype Rx = Segment(data: seq<u8>) | Fault

  datatype Arrival = Complete(used: nat) | Faulted | Blocked

  /** Where the receive loop stops: at the first segment not shorter than what is still needed. */
  function StopAt(incoming: seq<Rx>, need: int): Arrival
    decreases |incoming|
  {
    if incoming == [] then Blocked
    else match incoming[0]
      case Fault => Faulted
      case Segment(data) =>
        if |data| >= need then Complete(1)
        else match StopAt(incoming[1..], need - |data|)
          case Complete(used) => Complete(used + 1)
          case other => other
  }

  /** The bytes of the segments, in order. */
  function Stream(incoming: seq<Rx>): seq<u8> {
    if incoming == [] then []
    else (match incoming[0] case Segment(data) => data case Fault => []) + Stream(incoming[1..])
  }

  /** The receive buffer after the loop: the received bytes, and zeros up to its size. */
  function Buffer(received: seq<u8>, count: nat): (b: seq<u8>)
    requires |received| <= RREAD_HEAD + count
    ensures |b| == RREAD_HEAD + count
  {
    received + Zeros(RREAD_HEAD + count - |received|)
  }

  datatype Outcome = Done(status: Status) | Hung

  datatype LReadResult = LReadResult(outcome: Outcome, count: u32, data: seq<u8>, position: u64)

  /** How P9LRead reads its buffer. */
  function Decode(position: u64, count: u32, buffer: seq<u8>): LReadResult
    requires |buffer| == RREAD_HEAD + count
  {
    if buffer[4] != RREAD then LReadResult(Done(ErrorOf(buffer, |buffer|)), count, [], position)
    else
      var n := FromLE(buffer[7..11]) % 0x1_0000_0000;
      LReadResult(Done(Success), n, buffer[RREAD_HEAD..RREAD_HEAD + Min(n, count)], (position + n) % TWO64)
  }

  /** The stream brings no more than the receive buffer holds, and the server's count respects the request. */
  predicate Polite(incoming: seq<Rx>, count: u32) {
    |Stream(incoming)| <= RREAD_HEAD + count
    && (StopAt(incoming, count).Complete? ==>
          StopAt(incoming, count).used <= |incoming|
          && var received := Stream(incoming[..StopAt(incoming, count).used]);
             |received| <= RREAD_HEAD + count
             && (Buffer(received, count)[4] == RREAD ==> FromLE(Buffer(received, count)[7..11]) <= count))
  }

  /** P9LRead of count bytes at position, given what the posted receives bring. */
  function LRead(position: u64, count: u32, incoming: seq<Rx>): LReadResult
    requires Polite(incoming, count)
  {
    match StopAt(incoming, count)
    case Blocked => LReadResult(Hung, count, [], position)
    case Faulted => LReadResult(Done(TransportError), count, [], position)
    case Complete(used) => Decode(position, count, Buffer(Stream(incoming[..used]), count))
  }

  // ----- The receive loop -----

  lemma {:induction false} StreamConcat(a: seq<Rx>, b: seq<Rx>)
    ensures Stream(a + b) == Stream(a) + Stream(b)
  {
    if a == [] {
      assert a + b == b;
    } else {
      assert (a + b)[1..] == a[1..] + b;
      StreamConcat(a[1..], b);
    }
  }

  lemma StreamNext(incoming: seq<Rx>, k: nat)
    requires k < |incoming|
    ensures Stream(incoming[..k + 1])
      == Stream(incoming[..k]) + (match incoming[k] case Segment(d) => d case Fault => [])
    ensures |Stream(incoming[..k + 1])| <= |Stream(incoming)|
  {
    assert incoming[..k + 1] == incoming[..k] + [incoming[k]];
    StreamConcat(incoming[..k], [incoming[k]]);
    assert [incoming[k]][1..] == [];
    assert incoming == incoming[..k + 1] + incoming[k + 1..];
    StreamConcat(incoming[..k + 1], incoming[k + 1..]);
  }

  function Shifted(a: Arrival, k: nat): Arrival {
    match a case Complete(used) => Complete(used + k) case other => other
  }

  lemma StopNext(incoming: seq<Rx>, k: nat, need: int)
    requires k < |incoming|
    ensures StopAt(incoming[k..], need) ==
      match incoming[k]
      case Fault => Faulted
      case Segment(d) => if |d| >= need then Complete(1) else Shifted(StopAt(incoming[k + 1..], need - |d|), 1)
  {
    assert incoming[k..][1..] == incoming[k + 1..];
  }

  /** What P9LRead returns, by the end of its loop. */
  lemma LReadOutcome(position: u64, count: u32, incoming: seq<Rx>)
    requires Polite(incoming, count)
    ensures match StopAt(incoming, count)
            case Blocked => LRead(position, count, incoming) == LReadResult(Hung, count, [], position)
            case Faulted => LRead(position, count, incoming) == LReadResult(Done(TransportError), count, [], position)
            case Complete(used) =>
              && used <= |incoming| && |Stream(incoming[..used])| <= RREAD_HEAD + count
              && var b := Buffer(Stream(incoming[..used]), count);
              if b[4] != RREAD
              then LRead(position, count, incoming) == LReadResult(Done(ErrorOf(b, |b|)), count, [], position)
              else var n := FromLE(b[7..11]);
                   n <= count && LRead(position, count, incoming)
                     == LReadResult(Done(Success), n, b[RREAD_HEAD..RREAD_HEAD + n], (position + n) % TWO64)
  {
    hide StopAt, Stream, FromLE, Buffer;
  }

  /** The bytes of one segment arrive in the buffer behind those received so far. */
  method Receive(rxRead: array<u8>, at: nat, data: seq<u8>)
    requires at + |data| <= rxRead.Length
    modifies rxRead
    ensures rxRead[..at + |data|] == old(rxRead[..at]) + data
    ensures forall j :: at + |data| <= j < rxRead.Length ==> rxRead[j] == old(rxRead[j])
  {
    ghost var before := rxRead[..at];
    for i := 0 to |data|
      invariant rxRead[..at] == before
      invariant forall j :: 0 <= j < i ==> rxRead[at + j] == data[j]
      invariant forall j :: at + i <= j < rxRead.Length ==> rxRead[j] == old(rxRead[j])
    {
      rxRead[at + i] := data[i];
    }
  }

  /** The loop of P9LRead over a zeroed buffer. CurrentRxReadSize decreases until the last segment. */
  method ReceiveLoop(incoming: seq<Rx>, count: u32, rxRead: array<u8>) returns (arrival: Arrival)
    requires rxRead[..] == Zeros(RREAD_HEAD + count) && |Stream(incoming)| <= RREAD_HEAD + count
    modifies rxRead
    ensures arrival == StopAt(incoming, count)
    ensures arrival.Complete? ==>
      && arrival.used <= |incoming| && |Stream(incoming[..arrival.used])| <= RREAD_HEAD + count
      && rxRead[..] == Buffer(Stream(incoming[..arrival.used]), count)
  {
    hide StopAt, Stream;
    var currentRxRead, currentRxReadSize: int := 0, count;
    var hasMoreData, next := true, 0;
    StartOfLoop(incoming, count);
    while hasMoreData
      invariant 0 <= next <= |incoming| && currentRxRead == |Stream(incoming[..next])|
      invariant currentRxRead <= RREAD_HEAD + count
      invariant rxRead[..currentRxRead] == Stream(incoming[..next])
      invariant forall i :: currentRxRead <= i < rxRead.Length ==> rxRead[i] == 0
      invariant hasMoreData ==> StopAt(incoming, count) == Shifted(StopAt(incoming[next..], currentRxReadSize), next)
      invariant !hasMoreData ==> StopAt(incoming, count) == Complete(next)
      decreases hasMoreData, |incoming| - next
    {
      if next == |incoming| {
        EndOfStream(incoming, currentRxReadSize);
        return Blocked;
      }
      StopNext(incoming, next, currentRxReadSize);
      StreamNext(incoming, next);
      if incoming[next].Fault? {
        return Faulted;
      }
      var data := incoming[next].data;
      Receive(rxRead, currentRxRead, data);
      currentRxRead := currentRxRead + |data|;
      if |data| < currentRxReadSize {
        currentRxReadSize := currentRxReadSize - |data|;
      } else {
        hasMoreData := false;
      }
      next := next + 1;
    }
    arrival := Complete(next);
  }

  lemma StartOfLoop(incoming: seq<Rx>, count: u32)
    ensures Stream(incoming[..0]) == []
    ensures StopAt(incoming, count) == Shifted(StopAt(incoming[0..], count), 0)
  {
    assert incoming[0..] == incoming;
  }

  lemma EndOfStream(incoming: seq<Rx>, need: int)
    ensures StopAt(incoming[|incoming|..], need) == Blocked
  {
  }
}
