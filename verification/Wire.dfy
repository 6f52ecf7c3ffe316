/**
 The request messages as the driver lays them out in zeroed buffers, and a generic 9P parser
 (intro(5) of the Plan 9 manual, with the 9P2000.L requests) that reads them back.
 */
module Wire {
  import opened Ints
  import opened Bytes
  import opened P9Strings

  datatype Request =
    | Tversion(msize: u32, version: seq<u8>)
    | Tattach(fid: u32, afid: u32, uname: seq<u8>, aname: seq<u8>)
    | Twalk(fid: u32, newFid: u32, names: seq<seq<u8>>)
    | Tlopen(fid: u32, flags: u32)
    | Tgetattr(fid: u32, mask: u64)
    | Treadlink(fid: u32)
    | Treaddir(fid: u32, offset: u64, count: u32)
    | Tread(fid: u32, offset: u64, count: u32)
    | Tclunk(fid: u32)

  function Id(r: Request): u8 {
    match r
    case Tversion(_, _) => 100
    case Tattach(_, _, _, _) => 104
    case Twalk(_, _, _) => 110
    case Tlopen(_, _) => 12
    case Tgetattr(_, _) => 24
    case Treadlink(_) => 22
    case Treaddir(_, _, _) => 40
    case Tread(_, _, _) => 116
    case Tclunk(_) => 120
  }

  function NameBytes(names: seq<seq<u8>>): seq<u8> {
    if names == [] then [] else P9Bytes(names[0]) + NameBytes(names[1..])
  }

  function Body(r: Request): seq<u8> {
    match r
    case Tversion(msize, version) => LE(msize, 4) + P9Bytes(version)
    case Tattach(fid, afid, uname, aname) => LE(fid, 4) + LE(afid, 4) + P9Bytes(uname) + P9Bytes(aname)
    case Twalk(fid, newFid, names) => LE(fid, 4) + LE(newFid, 4) + LE(|names| % 0x1_0000, 2) + NameBytes(names)
    case Tlopen(fid, flags) => LE(fid, 4) + LE(flags, 4)
    case Tgetattr(fid, mask) => LE(fid, 4) + LE(mask, 8)
    case Treadlink(fid) => LE(fid, 4)
    case Treaddir(fid, offset, count) => LE(fid, 4) + LE(offset, 8) + LE(count, 4)
    case Tread(fid, offset, count) => LE(fid, 4) + LE(offset, 8) + LE(count, 4)
    case Tclunk(fid) => LE(fid, 4)
  }

  /** P9Header: size[4] id[1] tag[2]. */
  function Header(size: nat, id: u8, tag: u16): (b: seq<u8>)
    ensures |b| == 7
  {
    LE(size % 0x1_0000_0000, 4) + [id] + LE(tag, 2)
  }

  /** The bytes of a request on the wire. */
  function Encode(tag: u16, r: Request): (b: seq<u8>)
    ensures |b| == 7 + |Body(r)|
  {
    Header(7 + |Body(r)|, Id(r), tag) + Body(r)
  }

  // ----- A generic parser -----

  datatype Taken<T> = Short | Taken(value: T, rest: seq<u8>)

  function TakeInt(b: seq<u8>, k: nat): Taken<nat> {
    if |b| < k then Short else Taken(FromLE(b[..k]), b[k..])
  }

  function TakeString(b: seq<u8>): Taken<seq<u8>> {
    match TakeInt(b, 2)
    case Short => Short
    case Taken(n, c) => if |c| < n then Short else Taken(c[..n], c[n..])
  }

  function TakeNames(b: seq<u8>, n: nat): Taken<seq<seq<u8>>> {
    if n == 0 then Taken([], b)
    else match TakeString(b)
      case Short => Short
      case Taken(name, c) =>
        match TakeNames(c, n - 1)
        case Short => Short
        case Taken(names, d) => Taken([name] + names, d)
  }

  /** The integer fields of a body, by their widths. */
  function TakeInts(b: seq<u8>, widths: seq<nat>): Taken<seq<nat>> {
    if widths == [] then Taken([], b)
    else match TakeInt(b, widths[0])
      case Short => Short
      case Taken(v, c) =>
        match TakeInts(c, widths[1..])
        case Short => Short
        case Taken(vs, d) => Taken([v] + vs, d)
  }

  datatype Parsed = Malformed | Parsed(tag: nat, id: nat, ints: seq<nat>, strings: seq<seq<u8>>)

  /** Widths of the integer fields in front of the strings of each request. */
  function FieldWidths(id: nat): seq<nat> {
    if id == 100 || id == 22 || id == 120 then [4]
    else if id == 104 || id == 12 then [4, 4]
    else if id == 110 then [4, 4, 2]
    else if id == 24 then [4, 8]
    else if id == 40 || id == 116 then [4, 8, 4]
    else []
  }

  /** Number of strings that follow the integer fields. */
  function StringCount(id: nat, ints: seq<nat>): nat
    requires |ints| == |FieldWidths(id)|
  {
    if id == 100 then 1 else if id == 104 then 2 else if id == 110 then ints[2] else 0
  }

  lemma {:induction false} TakeIntsLength(b: seq<u8>, widths: seq<nat>)
    ensures TakeInts(b, widths).Taken? ==> |TakeInts(b, widths).value| == |widths|
  {
    if widths != [] && TakeInt(b, widths[0]).Taken? {
      TakeIntsLength(TakeInt(b, widths[0]).rest, widths[1..]);
    }
  }

  /** Reads a message that must fill its size field and b exactly. */
  function Parse(b: seq<u8>): Parsed {
    if |b| < 7 || FromLE(b[..4]) != |b| then Malformed
    else
      var id := b[4];
      TakeIntsLength(b[7..], FieldWidths(id));
      match TakeInts(b[7..], FieldWidths(id))
      case Short => Malformed
      case Taken(ints, c) =>
        match TakeNames(c, StringCount(id, ints))
        case Short => Malformed
        case Taken(strings, d) =>
          if d == [] then Parsed(FromLE(b[5..7]), id, ints, strings) else Malformed
  }

  function IntFields(r: Request): seq<nat> {
    match r
    case Tversion(msize, _) => [msize]
    case Tattach(fid, afid, _, _) => [fid, afid]
    case Twalk(fid, newFid, names) => [fid, newFid, |names|]
    case Tlopen(fid, flags) => [fid, flags]
    case Tgetattr(fid, mask) => [fid, mask]
    case Treadlink(fid) => [fid]
    case Treaddir(fid, offset, count) => [fid, offset, count]
    case Tread(fid, offset, count) => [fid, offset, count]
    case Tclunk(fid) => [fid]
  }

  function StringFields(r: Request): seq<seq<u8>> {
    match r
    case Tversion(_, version) => [version]
    case Tattach(_, _, uname, aname) => [uname, aname]
    case Twalk(_, _, names) => names
    case _ => []
  }

  function IntBytes(vs: seq<nat>, widths: seq<nat>): seq<u8>
    requires |vs| == |widths|
  {
    if vs == [] then [] else LE(vs[0], widths[0]) + IntBytes(vs[1..], widths[1..])
  }

  predicate FitWidths(vs: seq<nat>, widths: seq<nat>) {
    |vs| == |widths| && forall i :: 0 <= i < |vs| ==> vs[i] < Pow256(widths[i])
  }

  lemma {:induction false} TakeIntsInverts(vs: seq<nat>, widths: seq<nat>, rest: seq<u8>)
    requires FitWidths(vs, widths)
    ensures TakeInts(IntBytes(vs, widths) + rest, widths) == Taken(vs, rest)
  {
    hide LE, FromLE;
    if vs == [] {
      assert IntBytes(vs, widths) + rest == rest;
    } else {
      var first, others := LE(vs[0], widths[0]), IntBytes(vs[1..], widths[1..]);
      FromLEInverts(vs[0], widths[0]);
      TakeIntAtFront(first, others + rest);
      assert IntBytes(vs, widths) + rest == first + (others + rest);
      TakeIntsInverts(vs[1..], widths[1..], rest);
      assert vs == [vs[0]] + vs[1..];
    }
  }

  lemma TakeIntAtFront(first: seq<u8>, rest: seq<u8>)
    ensures TakeInt(first + rest, |first|) == Taken(FromLE(first), rest)
  {
    assert (first + rest)[..|first|] == first && (first + rest)[|first|..] == rest;
  }

  predicate ShortStrings(names: seq<seq<u8>>) {
    forall i :: 0 <= i < |names| ==> |names[i]| < 0x1_0000
  }

  lemma TakeStringOf(s: seq<u8>, rest: seq<u8>)
    ensures |s| < 0x1_0000 ==> TakeString(P9Bytes(s) + rest) == Taken(s, rest)
    ensures |s| >= 0x1_0000 ==> TakeString(P9Bytes(s) + rest).Taken?
                                && |TakeString(P9Bytes(s) + rest).value| < |s|
  {
    hide LE, FromLE;
    var size := LE(|s| % 0x1_0000, 2);
    Widths();
    FromLEInverts(|s| % 0x1_0000, 2);
    assert P9Bytes(s) + rest == size + (s + rest);
    TakeIntAtFront(size, s + rest);
    if |s| < 0x1_0000 {
      assert (s + rest)[..|s|] == s && (s + rest)[|s|..] == rest;
    }
  }

  /** A list of strings reads back as itself exactly when each length fits 16 bits. */
  lemma {:induction false} TakeNamesInverts(names: seq<seq<u8>>, rest: seq<u8>)
    ensures ShortStrings(names) <==> TakeNames(NameBytes(names) + rest, |names|) == Taken(names, rest)
  {
    hide LE, FromLE, P9Bytes, TakeString, ShortStrings;
    ShortStringsSplit(names);
    if names == [] {
      assert NameBytes(names) + rest == rest;
    } else {
      var tail := NameBytes(names[1..]) + rest;
      assert NameBytes(names) + rest == P9Bytes(names[0]) + tail;
      TakeStringOf(names[0], tail);
      TakeNamesInverts(names[1..], rest);
      assert names == [names[0]] + names[1..];
    }
  }

  lemma ShortStringsSplit(names: seq<seq<u8>>)
    ensures ShortStrings(names) <==> names == [] || (|names[0]| < 0x1_0000 && ShortStrings(names[1..]))
  {
    if names != [] && |names[0]| < 0x1_0000 && ShortStrings(names[1..]) {
      assert forall i :: 0 < i < |names| ==> names[i] == names[1..][i - 1];
    }
  }

  /** The lengths that the 16-bit string fields, the 16-bit name count and the 32-bit size can hold. */
  predicate FitsFields(r: Request) {
    7 + |Body(r)| < 0x1_0000_0000 && |StringFields(r)| < 0x1_0000 && ShortStrings(StringFields(r))
  }

  lemma IntBytesCons(v: nat, vs: seq<nat>, w: nat, ws: seq<nat>)
    requires |vs| == |ws|
    ensures IntBytes([v] + vs, [w] + ws) == LE(v, w) + IntBytes(vs, ws)
  {
    assert ([v] + vs)[1..] == vs && ([w] + ws)[1..] == ws;
  }

  lemma OneInt(a: nat, w: nat)
    ensures IntBytes([a], [w]) == LE(a, w)
  {
    IntBytesCons(a, [], w, []);
    assert [a] == [a] + [] && [w] == [w] + [];
  }

  lemma TwoInts(a: nat, b: nat, w: nat, x: nat)
    ensures IntBytes([a, b], [w, x]) == LE(a, w) + LE(b, x)
  {
    hide LE, IntBytes;
    OneInt(b, x);
    IntBytesCons(a, [b], w, [x]);
    assert [a, b] == [a] + [b] && [w, x] == [w] + [x];
  }

  lemma ThreeInts(a: nat, b: nat, c: nat, w: nat, x: nat, y: nat)
    ensures IntBytes([a, b, c], [w, x, y]) == LE(a, w) + LE(b, x) + LE(c, y)
  {
    hide LE, IntBytes;
    TwoInts(b, c, x, y);
    IntBytesCons(a, [b, c], w, [x, y]);
    assert [a, b, c] == [a] + [b, c] && [w, x, y] == [w] + [x, y];
    assert LE(a, w) + (LE(b, x) + LE(c, y)) == LE(a, w) + LE(b, x) + LE(c, y);
  }

  lemma NameBytesCons(s: seq<u8>, names: seq<seq<u8>>)
    ensures NameBytes([]) == []
    ensures NameBytes([s] + names) == P9Bytes(s) + NameBytes(names)
  {
    assert ([s] + names)[1..] == names;
  }

  lemma NameBytesOf(s: seq<u8>, t: seq<u8>)
    ensures NameBytes([]) == []
    ensures NameBytes([s]) == P9Bytes(s)
    ensures NameBytes([s, t]) == P9Bytes(s) + P9Bytes(t)
  {
    hide P9Bytes, NameBytes;
    NameBytesCons(s, []);
    NameBytesCons(t, []);
    NameBytesCons(s, [t]);
    assert [s] == [s] + [] && [t] == [t] + [] && [s, t] == [s] + [t];
  }

  /** The body of a request is its integer fields followed by its strings. */
  predicate HasParts(r: Request) {
    var ints, strings, widths := IntFields(r), StringFields(r), FieldWidths(Id(r));
    && |ints| == |widths| && FitWidths(ints, widths) && StringCount(Id(r), ints) == |strings|
    && Body(r) == IntBytes(ints, widths) + NameBytes(strings)
  }

  lemma VersionParts(msize: u32, version: seq<u8>)
    ensures HasParts(Tversion(msize, version))
  {
    hide LE, P9Bytes, IntBytes, NameBytes;
    Widths();
    OneInt(msize, 4);
    NameBytesOf(version, []);
  }

  lemma AttachParts(fid: u32, afid: u32, uname: seq<u8>, aname: seq<u8>)
    ensures HasParts(Tattach(fid, afid, uname, aname))
  {
    hide LE, P9Bytes, IntBytes, NameBytes;
    Widths();
    TwoInts(fid, afid, 4, 4);
    NameBytesOf(uname, aname);
  }

  lemma WalkParts(fid: u32, newFid: u32, names: seq<seq<u8>>)
    requires |names| < 0x1_0000
    ensures HasParts(Twalk(fid, newFid, names))
  {
    hide LE, P9Bytes, IntBytes, NameBytes;
    Widths();
    ThreeInts(fid, newFid, |names|, 4, 4, 2);
  }

  lemma OneIntParts(fid: u32)
    ensures HasParts(Treadlink(fid)) && HasParts(Tclunk(fid))
  {
    hide LE, P9Bytes, IntBytes, NameBytes;
    Widths();
    OneInt(fid, 4);
    NameBytesOf([], []);
  }

  lemma OpenParts(fid: u32, flags: u32)
    ensures HasParts(Tlopen(fid, flags))
  {
    hide LE, P9Bytes, IntBytes, NameBytes;
    Widths();
    TwoInts(fid, flags, 4, 4);
    NameBytesOf([], []);
  }

  lemma GetAttrParts(fid: u32, mask: u64)
    ensures HasParts(Tgetattr(fid, mask))
  {
    hide LE, P9Bytes, IntBytes, NameBytes;
    Widths();
    TwoInts(fid, mask, 4, 8);
    NameBytesOf([], []);
  }

  lemma ReadParts(fid: u32, offset: u64, count: u32)
    ensures HasParts(Tread(fid, offset, count)) && HasParts(Treaddir(fid, offset, count))
  {
    hide LE, P9Bytes, IntBytes, NameBytes;
    Widths();
    ThreeInts(fid, offset, count, 4, 8, 4);
    NameBytesOf([], []);
  }

  lemma BodyParts(r: Request)
    requires |StringFields(r)| < 0x1_0000
    ensures HasParts(r)
  {
    hide HasParts;
    match r
    case Tversion(msize, version) => VersionParts(msize, version);
    case Tattach(fid, afid, uname, aname) => AttachParts(fid, afid, uname, aname);
    case Twalk(fid, newFid, names) => WalkParts(fid, newFid, names);
    case Tlopen(fid, flags) => OpenParts(fid, flags);
    case Tgetattr(fid, mask) => GetAttrParts(fid, mask);
    case Treadlink(fid) => OneIntParts(fid);
    case Treaddir(fid, offset, count) => ReadParts(fid, offset, count);
    case Tread(fid, offset, count) => ReadParts(fid, offset, count);
    case Tclunk(fid) => OneIntParts(fid);
  }

  lemma HeaderReadsBack(tag: u16, r: Request)
    ensures var b, size := Encode(tag, r), 7 + |Body(r)|;
      && FromLE(b[..4]) == size % 0x1_0000_0000
      && b[4] == Id(r) && FromLE(b[5..7]) == tag && b[7..] == Body(r)
  {
    hide LE, FromLE, Body;
    var b, size := Encode(tag, r), 7 + |Body(r)|;
    Widths();
    FromLEInverts(size % 0x1_0000_0000, 4);
    assert b[..4] == LE(size % 0x1_0000_0000, 4);
    FromLEInverts(tag, 2);
    assert b[5..7] == LE(tag, 2);
  }

  /**
   The parser recovers tag, kind, every integer and every string of a request from its bytes,
   consuming exactly the announced size, if and only if all lengths fit their fields.
   */
  lemma ParseInvertsEncode(tag: u16, r: Request)
    ensures FitsFields(r) <==> Parse(Encode(tag, r)) == Parsed(tag, Id(r), IntFields(r), StringFields(r))
  {
    hide FromLE, Encode, Body, Id, IntFields, StringFields, FieldWidths, TakeInts, TakeNames, IntBytes, NameBytes;
    var size := 7 + |Body(r)|;
    HeaderReadsBack(tag, r);
    if size < 0x1_0000_0000 && |StringFields(r)| < 0x1_0000 {
      BodyParts(r);
      TakeIntsInverts(IntFields(r), FieldWidths(Id(r)), NameBytes(StringFields(r)));
      TakeNamesInverts(StringFields(r), []);
      assert NameBytes(StringFields(r)) + [] == NameBytes(StringFields(r));
    }
    if |StringFields(r)| >= 0x1_0000 {
      ParsedCountsFit(tag, r);
    }
  }

  /** A walk with 65536 names or more cannot be read back, its count being cut to 16 bits. */
  lemma ParsedCountsFit(tag: u16, r: Request)
    requires |StringFields(r)| >= 0x1_0000
    ensures Parse(Encode(tag, r)) != Parsed(tag, Id(r), IntFields(r), StringFields(r))
  {
    hide FromLE, Encode, TakeNames;
    HeaderReadsBack(tag, r);
    var b := Encode(tag, r);
    TakeIntsLength(b[7..], FieldWidths(110));
    assert FieldWidths(110)[2] == 2;
    if TakeInts(b[7..], FieldWidths(110)).Taken? {
      TakeIntsFit(b[7..], FieldWidths(110));
    }
    Widths();
  }

  lemma {:induction false} TakeIntsFit(b: seq<u8>, widths: seq<nat>)
    requires TakeInts(b, widths).Taken?
    ensures FitWidths(TakeInts(b, widths).value, widths)
  {
    if widths != [] {
      var first := TakeInt(b, widths[0]);
      FromLEBound(b[..widths[0]]);
      TakeIntsFit(first.rest, widths[1..]);
    }
  }
}
