/** How the driver fills its request buffers: zeroed memory, packed fields, strings copied in place. */
module Messages {
  import opened Ints
  import opened Bytes
  import opened Paths
  import opened P9Strings
  import opened Wire

  const P9_NOTAG: u16 := 0xFFFF
  const P9_MSIZE: u32 := 0x1_0000
  /** "9P2000.L" */
  const P9_VERSION: seq<u8> := [0x39, 0x50, 0x32, 0x30, 0x30, 0x30, 0x2E, 0x4C]

  /** The buffer holds a header, the body built so far, and zeros after it. */
  ghost predicate Filled(buf: array<u8>, header: seq<u8>, body: seq<u8>)
    reads buf
  {
    |header| + |body| <= buf.Length && buf[..] == header + body + Zeros(buf.Length - |header| - |body|)
  }

  method AllocateZeroPool(size: nat) returns (buf: array<u8>)
    ensures fresh(buf) && buf[..] == Zeros(size)
  {
    buf := new u8[size](i => 0);
  }

  /** The packed P9Header at the front of every message. */
  method PutHeader(buf: array<u8>, size: nat, id: u8, tag: u16)
    requires 7 <= buf.Length && buf[..] == Zeros(buf.Length)
    modifies buf
    ensures Filled(buf, Header(size, id, tag), [])
  {
    hide LE;
    Put(buf, 0, size % 0x1_0000_0000, 4);
    buf[4] := id;
    assert buf[0..4] == LE(size % 0x1_0000_0000, 4);
    Put(buf, 5, tag, 2);
    assert buf[..] == buf[0..4] + [buf[4]] + buf[5..7] + buf[7..];
  }

  /** Assigns the k-byte field that follows the fields filled so far. */
  method PutField(buf: array<u8>, at: nat, v: nat, k: nat, ghost header: seq<u8>, ghost body: seq<u8>)
    requires Filled(buf, header, body) && at == |header| + |body| && at + k <= buf.Length
    modifies buf
    ensures Filled(buf, header, body + LE(v, k))
  {
    hide LE;
    assert buf[..at] == header + body;
    Put(buf, at, v, k);
    assert buf[..] == buf[..at] + buf[at..at + k] + buf[at + k..];
    assert header + body + LE(v, k) == header + (body + LE(v, k));
  }

  /** Converts a name into the P9String that follows the fields filled so far. */
  method PutAscii(buf: array<u8>, at: nat, name: seq<u8>, ghost header: seq<u8>, ghost body: seq<u8>)
    requires Filled(buf, header, body) && at == |header| + |body| && at + 2 + |name| <= buf.Length && 0 !in name
    modifies buf
    ensures Filled(buf, header, body + P9Bytes(name))
  {
    EmptyString();
    hide LE, P9Bytes;
    assert buf[..at] == header + body;
    var _ := AsciiStrToP9StringS(name, buf, at, |name|);
    if |name| > 0 {
      assert buf[..] == buf[..at] + buf[at..at + 2 + |name|] + buf[at + 2 + |name|..];
    } else {
      assert buf[..] == header + body + [0, 0] + Zeros(buf.Length - at - 2);
    }
    assert header + body + P9Bytes(name) == header + (body + P9Bytes(name));
  }

  lemma EmptyString()
    ensures P9Bytes([]) == [0, 0]
  {
    assert LE(0, 1) == [0];
  }

  /** The Tversion of P9Version. */
  method BuildVersion(msize: u32) returns (buf: array<u8>)
    ensures fresh(buf) && P9_NOTAG == 0xFFFF
    ensures buf[..] == Encode(P9_NOTAG, Tversion(msize, [0x39, 0x50, 0x32, 0x30, 0x30, 0x30, 0x2E, 0x4C]))
  {
    hide LE, P9Bytes, Header;
    var txVersionSize := 13 + |P9_VERSION|;
    ghost var h := Header(txVersionSize, 100, P9_NOTAG);
    buf := AllocateZeroPool(txVersionSize);
    PutHeader(buf, txVersionSize, 100, P9_NOTAG);
    PutField(buf, 7, msize, 4, h, []);
    PutAscii(buf, 11, P9_VERSION, h, [] + LE(msize, 4));
  }

  /**
   The Tattach of P9Attach, with AName placed right after UName. For an empty name the converter
   refuses and writes nothing, and the zeroed buffer already holds the empty string.
   */
  method BuildAttach(tag: u16, fid: u32, afid: u32, uname: seq<u8>, aname: seq<u8>) returns (buf: array<u8>)
    requires 0 !in uname && 0 !in aname
    ensures fresh(buf) && buf[..] == Encode(tag, Tattach(fid, afid, uname, aname))
  {
    hide LE, P9Bytes, Header;
    var unameSize, anameSize := |uname|, |aname|;
    var txAttachSize := 19 + unameSize + anameSize;
    ghost var h, r := Header(txAttachSize, 104, tag), Tattach(fid, afid, uname, aname);
    buf := AllocateZeroPool(txAttachSize);
    PutHeader(buf, txAttachSize, 104, tag);
    PutField(buf, 7, fid, 4, h, []);
    PutField(buf, 11, afid, 4, h, [] + LE(fid, 4));
    PutAscii(buf, 15, uname, h, [] + LE(fid, 4) + LE(afid, 4));
    PutAscii(buf, 15 + 2 + unameSize, aname, h, [] + LE(fid, 4) + LE(afid, 4) + P9Bytes(uname));
    assert [] + LE(fid, 4) == LE(fid, 4);
    assert Filled(buf, h, Body(r));
  }

  /** The integer fields of a Twalk. */
  function WalkFront(fid: u32, newFid: u32, nwname: u16): seq<u8> { LE(fid, 4) + LE(newFid, 4) + LE(nwname, 2) }

  lemma WalkBody(fid: u32, newFid: u32, name: seq<u8>)
    ensures Body(Twalk(fid, newFid, [])) == WalkFront(fid, newFid, 0)
    ensures Body(Twalk(fid, newFid, [name])) == WalkFront(fid, newFid, 1) + P9Bytes(name)
  {
    hide LE, P9Bytes, NameBytes;
    NameBytesOf(name, []);
  }

  /** Fills header and integer fields of a Twalk. */
  method PutWalk(buf: array<u8>, tag: u16, fid: u32, newFid: u32, nwname: u16, ghost header: seq<u8>)
    requires 17 <= buf.Length && buf[..] == Zeros(buf.Length) && header == Header(buf.Length, 110, tag)
    modifies buf
    ensures Filled(buf, header, WalkFront(fid, newFid, nwname))
  {
    hide LE, Header;
    PutHeader(buf, buf.Length, 110, tag);
    PutField(buf, 7, fid, 4, header, []);
    PutField(buf, 11, newFid, 4, header, [] + LE(fid, 4));
    PutField(buf, 15, nwname, 2, header, [] + LE(fid, 4) + LE(newFid, 4));
    assert [] + LE(fid, 4) == LE(fid, 4);
  }

  /** The Twalk of DoP9Walk: no name for an empty path, one narrowed name otherwise. */
  method BuildWalk(tag: u16, fid: u32, newFid: u32, path: Text) returns (buf: array<u8>)
    requires IsText(path)
    ensures fresh(buf)
    ensures buf[..] == Encode(tag, Twalk(fid, newFid, if path == [] then [] else [Narrow(path)]))
  {
    hide LE, P9Bytes, Header, WalkFront, Body, Filled, Narrow;
    var pathSize := |path|;
    var nwname := if pathSize == 0 then 0 else 1;
    var txWalkSize := 17 + 2 * nwname + pathSize;
    ghost var header, front := Header(txWalkSize, 110, tag), WalkFront(fid, newFid, nwname);
    WalkFrontSize(fid, newFid, nwname);
    WalkBody(fid, newFid, Narrow(path));
    buf := AllocateZeroPool(txWalkSize);
    PutWalk(buf, tag, fid, newFid, nwname, header);
    FilledFront(buf, header, front);
    if nwname != 0 {
      var _ := UnicodeStrToP9StringS(path, buf, 17, pathSize);
      TwoParts(buf, 17, header + front, P9Bytes(Narrow(path)));
      ThreeParts(header, front, P9Bytes(Narrow(path)));
    }
  }

  lemma FilledFront(buf: array<u8>, header: seq<u8>, front: seq<u8>)
    requires Filled(buf, header, front)
    ensures buf[..|header| + |front|] == header + front
    ensures buf.Length == |header| + |front| ==> buf[..] == header + front
  {
  }

  lemma TwoParts(buf: array<u8>, mid: nat, a: seq<u8>, b: seq<u8>)
    requires mid <= buf.Length && buf[..mid] == a && buf[mid..buf.Length] == b
    ensures buf[..] == a + b
  {
  }

  lemma ThreeParts(a: seq<u8>, b: seq<u8>, c: seq<u8>)
    ensures a + b + c == a + (b + c)
  {
  }

  lemma WalkFrontSize(fid: u32, newFid: u32, nwname: u16)
    ensures |WalkFront(fid, newFid, nwname)| == 10
  {
    hide LE;
  }

  /** The Tread of P9LRead and, with its own id, the Treaddir of P9LReadDir. */
  method BuildRead(tag: u16, fid: u32, offset: u64, count: u32, directory: bool) returns (buf: array<u8>)
    ensures fresh(buf)
    ensures buf[..] == Encode(tag, if directory then Treaddir(fid, offset, count) else Tread(fid, offset, count))
  {
    hide LE, Header;
    var id := if directory then 40 else 116;
    ghost var h := Header(23, id, tag);
    buf := AllocateZeroPool(23);
    PutHeader(buf, 23, id, tag);
    PutField(buf, 7, fid, 4, h, []);
    PutField(buf, 11, offset, 8, h, [] + LE(fid, 4));
    PutField(buf, 19, count, 4, h, [] + LE(fid, 4) + LE(offset, 8));
    assert [] + LE(fid, 4) == LE(fid, 4);
    ghost var r := if directory then Treaddir(fid, offset, count) else Tread(fid, offset, count);
    assert Filled(buf, h, Body(r));
  }

  /** The Tlopen of P9LOpen. */
  method BuildOpen(tag: u16, fid: u32, flags: u32) returns (buf: array<u8>)
    ensures fresh(buf) && buf[..] == Encode(tag, Tlopen(fid, flags))
  {
    hide LE, Header;
    ghost var h := Header(15, 12, tag);
    buf := AllocateZeroPool(15);
    PutHeader(buf, 15, 12, tag);
    PutField(buf, 7, fid, 4, h, []);
    PutField(buf, 11, flags, 4, h, [] + LE(fid, 4));
    assert [] + LE(fid, 4) == LE(fid, 4);
    assert Filled(buf, h, Body(Tlopen(fid, flags)));
  }

  /** The Tgetattr of P9GetAttr. */
  method BuildGetAttr(tag: u16, fid: u32, mask: u64) returns (buf: array<u8>)
    ensures fresh(buf) && buf[..] == Encode(tag, Tgetattr(fid, mask))
  {
    hide LE, Header;
    ghost var h := Header(19, 24, tag);
    buf := AllocateZeroPool(19);
    PutHeader(buf, 19, 24, tag);
    PutField(buf, 7, fid, 4, h, []);
    PutField(buf, 11, mask, 8, h, [] + LE(fid, 4));
    assert [] + LE(fid, 4) == LE(fid, 4);
    assert Filled(buf, h, Body(Tgetattr(fid, mask)));
  }

  /** A message that consists of one fid. */
  method BuildFid(tag: u16, id: u8, fid: u32) returns (buf: array<u8>)
    ensures fresh(buf) && buf[..] == Header(11, id, tag) + LE(fid, 4)
  {
    hide LE, Header;
    ghost var h := Header(11, id, tag);
    buf := AllocateZeroPool(11);
    PutHeader(buf, 11, id, tag);
    PutField(buf, 7, fid, 4, h, []);
    assert [] + LE(fid, 4) == LE(fid, 4);
  }

  /** The Treadlink of P9LReadLink. */
  method BuildReadLink(tag: u16, fid: u32) returns (buf: array<u8>)
    ensures fresh(buf) && buf[..] == Encode(tag, Treadlink(fid))
  {
    buf := BuildFid(tag, 22, fid);
  }

  /** The Tclunk of P9Clunk. */
  method BuildClunk(tag: u16, fid: u32) returns (buf: array<u8>)
    ensures fresh(buf) && buf[..] == Encode(tag, Tclunk(fid))
  {
    buf := BuildFid(tag, 120, fid);
  }
}
