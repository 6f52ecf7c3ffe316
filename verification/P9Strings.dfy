/** P9String: a 16-bit length followed by 8-bit characters, and its three conversions. */
module P9Strings {
  import opened Ints
  import opened Bytes
  import opened Statuses
  import opened Paths

  /** (CHAR8) of each CHAR16. */
  function Narrow(s: Text): (b: seq<u8>)
    ensures |b| == |s| && forall i :: 0 <= i < |s| ==> b[i] == s[i] % 0x100
  {
    seq(|s|, i requires 0 <= i < |s| => s[i] % 0x100)
  }

  /** (CHAR16)(CHAR8) of one byte, where CHAR8 is signed or not depending on the compiler. */
  function WideChar(b: u8, signedChar: bool): u16 {
    if signedChar && b >= 0x80 then 0xFF00 + b else b
  }

  function Widen(b: seq<u8>, signedChar: bool): (s: Text)
    ensures |s| == |b| && forall i :: 0 <= i < |b| ==> s[i] == WideChar(b[i], signedChar)
  {
    seq(|b|, i requires 0 <= i < |b| => WideChar(b[i], signedChar))
  }

  /** The bytes of a P9String: its Size field is the length cut to 16 bits. */
  function P9Bytes(s: seq<u8>): (b: seq<u8>)
    ensures |b| == 2 + |s|
  {
    LE(|s| % 0x1_0000, 2) + s
  }

  /** The string read back from a P9String at the front of b. */
  function P9Value(b: seq<u8>): Field
  {
    if |b| < 2 then Cut
    else if |b| < 2 + FromLE(b[..2]) then Cut
    else Value(b[2..2 + FromLE(b[..2])])
  }

  datatype Field = Cut | Value(chars: seq<u8>)

  function ByteAt(s: seq<u8>, i: nat): u8
    requires i <= |s|
  {
    if i < |s| then s[i] else 0
  }

  lemma Stretch(dest: array<u8>, from: nat, name: seq<u8>)
    requires from + |name| <= dest.Length && forall i :: 0 <= i < |name| ==> dest[from + i] == name[i]
    ensures dest[from..from + |name|] == name
  {
  }

  lemma JoinStretches(dest: array<u8>, a: nat, b: nat, c: nat)
    requires a <= b <= c <= dest.Length
    ensures dest[a..c] == dest[a..b] + dest[b..c]
  {
  }

  /** Size and characters in place are the P9String. */
  lemma BytesInPlace(dest: array<u8>, at: nat, mid: nat, name: seq<u8>)
    requires mid == at + 2 && mid + |name| <= dest.Length && dest[at..mid] == LE(|name| % 0x1_0000, 2)
    requires forall i :: 0 <= i < |name| ==> dest[mid + i] == name[i]
    ensures dest[at..mid + |name|] == P9Bytes(name)
  {
    hide LE;
    Stretch(dest, mid, name);
    JoinStretches(dest, at, mid, mid + |name|);
  }

  /** Stores one more character behind k others, and counts it in Size. */
  method AppendChar(dest: array<u8>, at: nat, k: nat, c: u8, size: u16) returns (newSize: u16)
    requires at + 2 + k < dest.Length
    modifies dest
    ensures newSize == (size + 1) % 0x1_0000 && dest[at..at + 2] == LE(newSize, 2) && dest[at + 2 + k] == c
    ensures forall i :: 0 <= i < dest.Length && !(at <= i < at + 2) && i != at + 2 + k ==> dest[i] == old(dest[i])
  {
    hide LE;
    dest[at + 2 + k] := c;
    newSize := (size + 1) % 0x1_0000;
    Put(dest, at, newSize, 2);
  }

  /**
   AsciiStrToP9StringS. The bounded length never exceeds the bound, so the size check never
   fires and the loop copies the whole source.
   */
  method AsciiStrToP9StringS(source: seq<u8>, dest: array<u8>, at: nat, destMax: nat) returns (status: Status)
    requires 0 !in source && at + 2 + |source| <= dest.Length
    modifies dest
    ensures status == if destMax == 0 then InvalidParameter else Success
    ensures destMax == 0 ==> dest[..] == old(dest[..])
    ensures destMax > 0 ==> dest[at..at + 2 + |source|] == P9Bytes(source)
    ensures forall i :: 0 <= i < dest.Length && !(at <= i < at + 2 + AsciiStored(source, destMax)) ==>
      dest[i] == old(dest[i])
  {
    hide LE, P9Bytes;
    if destMax == 0 {
      return InvalidParameter;
    }
    var sourceLen := if |source| <= destMax then |source| else destMax;
    if !(destMax >= sourceLen) {
      return BufferTooSmall;
    }
    var size := 0;
    Put(dest, at, size, 2);
    var k := 0;
    while ByteAt(source, k) != 0
      invariant k <= |source| && size == k % 0x1_0000
      invariant dest[at..at + 2] == LE(size, 2)
      invariant forall i :: 0 <= i < k ==> dest[at + 2 + i] == source[i]
      invariant forall i :: 0 <= i < dest.Length && !(at <= i < at + 2 + k) ==> dest[i] == old(dest[i])
      decreases |source| - k
    {
      size := AppendChar(dest, at, k, ByteAt(source, k), size);
      k := k + 1;
    }
    BytesInPlace(dest, at, at + 2, source);
    status := Success;
  }

  /** UnicodeStrToP9StringS. */
  method UnicodeStrToP9StringS(source: Text, dest: array<u8>, at: nat, destMax: nat) returns (status: Status)
    requires IsText(source) && (destMax > 0 && |source| <= destMax ==> at + 2 + |source| <= dest.Length)
    modifies dest
    ensures status == if destMax == 0 then InvalidParameter
                      else if destMax < |source| then BufferTooSmall else Success
    ensures status != Success ==> dest[..] == old(dest[..])
    ensures status == Success ==> dest[at..at + 2 + |source|] == P9Bytes(Narrow(source))
    ensures forall i :: 0 <= i < dest.Length && !(at <= i < at + 2 + UnicodeStored(source, destMax)) ==>
      dest[i] == old(dest[i])
  {
    hide LE, P9Bytes, Narrow;
    if destMax == 0 {
      return InvalidParameter;
    }
    if !(destMax >= |source|) {
      return BufferTooSmall;
    }
    ghost var name := Narrow(source);
    var size := 0;
    Put(dest, at, size, 2);
    var k := 0;
    while CharAt(source, k) != 0
      invariant k <= |source| && size == k % 0x1_0000
      invariant dest[at..at + 2] == LE(size, 2)
      invariant forall i :: 0 <= i < k ==> dest[at + 2 + i] == name[i]
      invariant forall i :: 0 <= i < dest.Length && !(at <= i < at + 2 + k) ==> dest[i] == old(dest[i])
      decreases |source| - k
    {
      size := AppendChar(dest, at, k, CharAt(source, k) % 0x100, size);
      k := k + 1;
    }
    BytesInPlace(dest, at, at + 2, name);
    status := Success;
  }

  /** P9StringToUnicodeStrS: the string with bytes source goes to dest with a NUL after it. */
  method P9StringToUnicodeStrS(source: seq<u8>, dest: array<u16>, destMax: nat, signedChar: bool)
    returns (status: Status)
    requires P9Value(source).Value?
    requires destMax > |P9Value(source).chars| ==> dest.Length > |P9Value(source).chars|
    modifies dest
    ensures status == if destMax == 0 then InvalidParameter
                      else if destMax <= |P9Value(source).chars| then BufferTooSmall else Success
    ensures var n := |P9Value(source).chars|;
      if status != Success then dest[..] == old(dest[..])
      else dest[..n] == Widen(P9Value(source).chars, signedChar) && dest[n] == 0
           && dest[n + 1..] == old(dest[n + 1..])
  {
    var size := FromLE(source[..2]);
    if destMax == 0 {
      return InvalidParameter;
    }
    if !(destMax > size) {
      return BufferTooSmall;
    }
    var sourceSize, k := size, 0;
    while sourceSize > 0
      invariant 0 <= sourceSize && k + sourceSize == size
      invariant forall i :: 0 <= i < k ==> dest[i] == WideChar(source[2 + i], signedChar)
      invariant forall i :: k <= i < dest.Length ==> dest[i] == old(dest[i])
    {
      dest[k] := WideChar(source[2 + k], signedChar);
      k, sourceSize := k + 1, sourceSize - 1;
    }
    dest[k] := 0;
    status := Success;
  }

  // ----- Laws -----

  /** Characters that AsciiStrToP9StringS stores. */
  function AsciiStored(source: seq<u8>, destMax: nat): nat { if destMax == 0 then 0 else |source| }

  /** Characters that UnicodeStrToP9StringS stores. */
  function UnicodeStored(source: Text, destMax: nat): nat { if |source| <= destMax then |source| else 0 }

  /** UnicodeStrToP9StringS always stays within DestMax, AsciiStrToP9StringS exactly for sources no longer than it. */
  lemma BoundKeptIff(ascii: seq<u8>, unicode: Text, destMax: nat)
    requires destMax > 0
    ensures AsciiStored(ascii, destMax) <= destMax <==> |ascii| <= destMax
    ensures UnicodeStored(unicode, destMax) <= destMax
  {
  }

  /** A P9String reads back as itself exactly when its length fits the 16-bit Size field. */
  lemma P9StringReadsBack(s: seq<u8>, rest: seq<u8>)
    ensures |s| < 0x1_0000 ==> P9Value(P9Bytes(s) + rest) == Value(s)
    ensures |s| >= 0x1_0000 ==> P9Value(P9Bytes(s) + rest).Value?
                                && |P9Value(P9Bytes(s) + rest).chars| == |s| % 0x1_0000 < |s|
  {
    var b := P9Bytes(s) + rest;
    Widths();
    FromLEInverts(|s| % 0x1_0000, 2);
    assert b[..2] == LE(|s| % 0x1_0000, 2);
    assert b[2..2 + |s|] == s;
  }

  /** Widening and narrowing again is harmless for every byte, whatever the signedness of CHAR8. */
  lemma NarrowInvertsWiden(b: seq<u8>, signedChar: bool)
    ensures Narrow(Widen(b, signedChar)) == b
  {
  }

  /** The characters that survive the trip through CHAR8. */
  predicate SurvivesChar8(c: u16, signedChar: bool) {
    c < 0x80 || (if signedChar then c >= 0xFF80 else c < 0x100)
  }

  /**
   UnicodeStrToP9StringS followed by P9StringToUnicodeStrS is the identity exactly on strings of
   at most 65535 characters that all survive CHAR8; 7-bit strings always do.
   */
  lemma UnicodeRoundTrip(s: Text, signedChar: bool)
    ensures P9Value(P9Bytes(Narrow(s))).Value?
    ensures Widen(P9Value(P9Bytes(Narrow(s))).chars, signedChar) == s
      <==> |s| < 0x1_0000 && forall i :: 0 <= i < |s| ==> SurvivesChar8(s[i], signedChar)
  {
    var b := Narrow(s);
    assert P9Bytes(b) + [] == P9Bytes(b);
    P9StringReadsBack(b, []);
    hide P9Bytes, P9Value;
    WideBack(s, signedChar);
  }

  lemma WideBack(s: Text, signedChar: bool)
    ensures Widen(Narrow(s), signedChar) == s <==> forall i :: 0 <= i < |s| ==> SurvivesChar8(s[i], signedChar)
  {
    hide Narrow, Widen;
    var b := Narrow(s);
    forall i | 0 <= i < |s|
      ensures WideChar(b[i], signedChar) == s[i] <==> SurvivesChar8(s[i], signedChar)
    {
      WideCharBack(s[i], signedChar);
    }
    hide WideChar, SurvivesChar8;
    var w := Widen(b, signedChar);
    assert forall i :: 0 <= i < |s| ==> (w[i] == s[i] <==> SurvivesChar8(s[i], signedChar));
    if w == s {
      assert forall i :: 0 <= i < |s| ==> w[i] == s[i];
    }
  }

  lemma WideCharBack(c: u16, signedChar: bool)
    ensures WideChar(c % 0x100, signedChar) == c <==> SurvivesChar8(c, signedChar)
  {
  }
}
