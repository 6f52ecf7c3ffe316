/** EFI_STATUS values that the driver returns, and its reading of Rlerror replies. */
module Statuses {
  import opened Ints
  import opened Bytes

  datatype Status =
    | Success | InvalidParameter | Unsupported | BufferTooSmall | NotFound | AccessDenied | DeviceError
    | TransportError // whatever error the TCP4 protocol reports
  {
    predicate IsError() { this != Success }
  }

  const RLERROR: u8 := 7
  const RLERROR_SIZE: nat := 11

  const ECODE_TABLE: seq<(u32, Status)> := [(0, Success), (1, AccessDenied), (2, NotFound), (5, DeviceError)]

  /** The status for an error code of the server. */
  function CodeStatus(ecode: u32): (s: Status)
    ensures s == Success <==> ecode == 0
    ensures s == NotFound <==> ecode == 2
    ensures s == AccessDenied <==> ecode == 1
    ensures s in {Success, NotFound, AccessDenied, DeviceError}
  {
    if ecode == 0 then Success else if ecode == 1 then AccessDenied else if ecode == 2 then NotFound else DeviceError
  }

  /** The status P9Error gives for a receive buffer of the given size. */
  function ErrorOf(data: seq<u8>, dataSize: nat): Status
    requires dataSize <= |data|
  {
    if dataSize < RLERROR_SIZE then BufferTooSmall
    else if data[4] != RLERROR then InvalidParameter
    else CodeStatus(FromLE(data[7..11]) % 0x1_0000_0000)
  }

  /** P9Error, called when a reply is not the expected one. */
  method P9Error(data: seq<u8>, dataSize: nat) returns (status: Status)
    requires dataSize <= |data|
    ensures status == ErrorOf(data, dataSize)
  {
    if dataSize < RLERROR_SIZE {
      return BufferTooSmall;
    }
    if data[4] != RLERROR {
      return InvalidParameter;
    }
    var ecode := FromLE(data[7..11]) % 0x1_0000_0000;
    for index := 0 to |ECODE_TABLE|
      invariant forall i :: 0 <= i < index ==> ecode != ECODE_TABLE[i].0
    {
      if ecode == ECODE_TABLE[index].0 {
        return ECODE_TABLE[index].1;
      }
    }
    assert ecode != ECODE_TABLE[0].0 && ecode != ECODE_TABLE[1].0 && ecode != ECODE_TABLE[2].0;
    status := DeviceError;
  }

  /** The bytes of an Rlerror. */
  function ErrorReply(tag: u16, ecode: u32): (b: seq<u8>)
    ensures |b| == RLERROR_SIZE
  {
    LE(11, 4) + [RLERROR] + LE(tag, 2) + LE(ecode, 4)
  }

  /** An Rlerror is read as the status of its code, and as success exactly for code 0; 10 bytes are not enough. */
  lemma ErrorReplyStatus(tag: u16, ecode: u32, rest: seq<u8>, dataSize: nat)
    requires dataSize <= RLERROR_SIZE + |rest|
    ensures ErrorOf(ErrorReply(tag, ecode) + rest, dataSize)
      == if dataSize < 11 then BufferTooSmall else CodeStatus(ecode)
    ensures ErrorOf(ErrorReply(tag, ecode) + rest, dataSize) == Success <==> dataSize >= 11 && ecode == 0
  {
    hide LE, FromLE;
    var b := ErrorReply(tag, ecode) + rest;
    Widths();
    FromLEInverts(ecode, 4);
    assert b[7..11] == LE(ecode, 4);
  }
}
