/** StrToIpv4Addr: "a.b.c.d:port" in decimal, with a wrapping UINT64 accumulator. */
module Ipv4 {
  import opened Ints
  import opened Statuses
  import opened Paths

  const ZERO: u16 := 0x30
  const COLON: u16 := 0x3A

  predicate IsDigit(c: u16) { 0x30 <= c <= 0x39 }

  predicate AreDigits(s: Text) { forall i :: 0 <= i < |s| ==> IsDigit(s[i]) }

  /** The decimal value of a string of digits, unbounded. */
  function Value(s: Text): nat
    requires AreDigits(s)
  {
    if s == [] then 0 else Value(s[..|s| - 1]) * 10 + (s[|s| - 1] - ZERO)
  }

  /** Number of leading digits. */
  function DigitRun(s: Text): (n: nat)
    ensures n <= |s| && forall i :: 0 <= i < n ==> IsDigit(s[i])
    ensures n < |s| ==> !IsDigit(s[n])
  {
    if s == [] || !IsDigit(s[0]) then 0 else 1 + DigitRun(s[1..])
  }

  /** What the accumulator holds after a string of digits. */
  function Wrapped(digits: Text): u64
    requires AreDigits(digits)
  {
    Value(digits) % TWO64
  }

  /** The number read from the leading digits of s. */
  function Number(s: Text): u64 { Wrapped(s[..DigitRun(s)]) }

  datatype Port = Unset | Set(value: u16)

  datatype Parsed = Parsed(status: Status, addr: seq<u8>, rest: Text)

  /** Octets index.. of the address. */
  function ParseQuad(s: Text, index: nat, addr: seq<u8>): (r: Parsed)
    requires |addr| == 4 && index <= 4
    ensures |r.addr| == 4
    decreases 4 - index
  {
    if index == 4 then Parsed(Success, addr, s)
    else if Number(s) > 255 then Parsed(InvalidParameter, addr, s)
    else
      var rest := s[DigitRun(s)..];
      ParseQuad(if index < 3 && rest != [] && rest[0] == DOT then rest[1..] else rest,
                index + 1, addr[index := Number(s)])
  }

  function ParsePort(s: Text): Port {
    if s != [] && s[0] == COLON then Set(Number(s[1..]) % 0x1_0000) else Unset
  }

  lemma WrapStep(x: nat, d: nat)
    ensures (x % TWO64 * 10 + d) % TWO64 == (x * 10 + d) % TWO64
  {
    var q, r := x / TWO64, x % TWO64;
    assert x * 10 + d == (r * 10 + d) + TWO64 * (q * 10);
    ModShift(r * 10 + d, TWO64, q * 10);
  }

  /** The inner loop: accumulate the digits from position start. */
  method ReadNumber(s: Text, start: nat) returns (number: u64, ptr: nat)
    requires IsText(s) && start <= |s|
    ensures number == Number(s[start..]) && ptr == start + DigitRun(s[start..])
  {
    number, ptr := 0, start;
    ghost var rest := s[start..];
    while ZERO <= CharAt(s, ptr) && CharAt(s, ptr) <= 0x39
      invariant start <= ptr <= start + DigitRun(rest)
      invariant AreDigits(rest[..ptr - start]) && number == Wrapped(rest[..ptr - start])
      decreases |s| - ptr
    {
      ghost var seen, more := rest[..ptr - start], rest[..ptr + 1 - start];
      DigitRunExtends(rest, ptr - start);
      assert more[..|more| - 1] == seen && more[|more| - 1] == s[ptr];
      WrapStep(Value(seen), s[ptr] - ZERO);
      number := (number * 10 + (CharAt(s, ptr) - ZERO)) % TWO64;
      ptr := ptr + 1;
    }
    DigitRunEnds(rest, ptr - start);
  }

  lemma {:induction false} DigitRunExtends(s: Text, n: nat)
    requires n < |s| && n <= DigitRun(s) && IsDigit(s[n])
    ensures n < DigitRun(s) && AreDigits(s[..n + 1])
  {
  }

  lemma DigitRunEnds(s: Text, n: nat)
    requires n <= |s| && AreDigits(s[..n]) && (n < |s| ==> !IsDigit(s[n]))
    ensures n == DigitRun(s)
  {
  }

  lemma QuadUnfolds(s: Text, index: nat, addr: seq<u8>)
    requires |addr| == 4 && index <= 4
    ensures ParseQuad(s, index, addr) ==
      if index == 4 then Parsed(Success, addr, s)
      else if Number(s) > 255 then Parsed(InvalidParameter, addr, s)
      else
        var rest := s[DigitRun(s)..];
        ParseQuad(if index < 3 && rest != [] && rest[0] == DOT then rest[1..] else rest,
                  index + 1, addr[index := Number(s)])
  {
  }

  method StrToIpv4Addr(s: Text, addr: array<u8>, wantPort: bool) returns (status: Status, port: Port)
    requires IsText(s) && addr.Length == 4
    modifies addr
    ensures var r := ParseQuad(s, 0, old(addr[..]));
      && status == r.status && addr[..] == r.addr
      && port == if status == Success && wantPort then ParsePort(r.rest) else Unset
  {
    hide ParseQuad, Number, DigitRun;
    port := Unset;
    var ptr := 0;
    ghost var before := addr[..];
    assert s[0..] == s;
    for addrIndex := 0 to 4
      invariant ptr <= |s| && port == Unset
      invariant ParseQuad(s, 0, before) == ParseQuad(s[ptr..], addrIndex, addr[..])
    {
      ghost var rest, was := s[ptr..], addr[..];
      QuadUnfolds(rest, addrIndex, was);
      var number, next := ReadNumber(s, ptr);
      if !(0 <= number && number <= 255) {
        return InvalidParameter, Unset;
      }
      addr[addrIndex] := number;
      assert addr[..] == was[addrIndex := number];
      assert s[next..] == rest[DigitRun(rest)..];
      ptr := next;
      if addrIndex < 3 && CharAt(s, ptr) == DOT {
        assert s[ptr..][1..] == s[ptr + 1..];
        ptr := ptr + 1;
      }
    }
    QuadUnfolds(s[ptr..], 4, addr[..]);
    if wantPort && CharAt(s, ptr) == COLON {
      assert s[ptr..][1..] == s[ptr + 1..];
      var number, _ := ReadNumber(s, ptr + 1);
      port := Set(number % 0x1_0000);
    }
    status := Success;
  }

  // ----- Laws -----

  /** The digits of n, most significant first. */
  function Decimal(n: nat): (s: Text)
    ensures s != [] && AreDigits(s)
  {
    if n < 10 then [ZERO + n] else Decimal(n / 10) + [ZERO + n % 10]
  }

  /** n in decimal with leading zeros. */
  function Padded(zeros: nat, n: nat): (s: Text)
    ensures AreDigits(s)
  {
    seq(zeros, i => ZERO) + Decimal(n)
  }

  lemma {:induction false} ValueOfPadded(zeros: nat, n: nat)
    ensures Value(Padded(zeros, n)) == n
  {
    var s := Padded(zeros, n);
    if n >= 10 {
      assert s[..|s| - 1] == Padded(zeros, n / 10);
      ValueOfPadded(zeros, n / 10);
    } else if zeros > 0 {
      assert s[..|s| - 1] == Padded(zeros - 1, 0);
      ValueOfPadded(zeros - 1, 0);
    } else {
      assert s == [ZERO + n];
    }
  }

  lemma DigitsInFront(digits: Text, rest: Text)
    requires AreDigits(digits) && (rest == [] || !IsDigit(rest[0]))
    ensures DigitRun(digits + rest) == |digits| && Number(digits + rest) == Wrapped(digits)
  {
    var s := digits + rest;
    assert s[..|digits|] == digits;
    DigitRunEnds(s, |digits|);
  }

  function Dotted(a: Text, b: Text, c: Text, d: Text): Text {
    a + [DOT] + b + [DOT] + c + [DOT] + d
  }

  lemma QuadStep(digits: Text, rest: Text, index: nat, addr: seq<u8>)
    requires AreDigits(digits) && |addr| == 4 && index < 3
    ensures ParseQuad(digits + [DOT] + rest, index, addr)
      == if Wrapped(digits) > 255 then Parsed(InvalidParameter, addr, digits + [DOT] + rest)
         else ParseQuad(rest, index + 1, addr[index := Wrapped(digits)])
  {
    var s := digits + [DOT] + rest;
    assert s == digits + ([DOT] + rest);
    DigitsInFront(digits, [DOT] + rest);
    assert s[|digits|..] == [DOT] + rest;
    assert ([DOT] + rest)[1..] == rest;
  }

  predicate IsOctet(digits: Text)
    requires AreDigits(digits)
  {
    Wrapped(digits) <= 255
  }

  /**
   Four digit strings joined by dots, with what follows them: accepted exactly when every value,
   taken modulo 2^64, is at most 255, and then delivered as those values.
   */
  lemma DottedParses(a: Text, b: Text, c: Text, d: Text, rest: Text, addr: seq<u8>)
    requires AreDigits(a) && AreDigits(b) && AreDigits(c) && AreDigits(d) && |addr| == 4
    requires rest == [] || !IsDigit(rest[0])
    ensures var r := ParseQuad(Dotted(a, b, c, d) + rest, 0, addr);
      && (r.status == Success <==> IsOctet(a) && IsOctet(b) && IsOctet(c) && IsOctet(d))
      && (r.status == Success ==>
            r.addr == [Wrapped(a), Wrapped(b), Wrapped(c), Wrapped(d)] && r.rest == rest)
  {
    hide Value, Wrapped, DigitRun, Number, ParseQuad, Dotted;
    var s3 := d + rest;
    var s2 := c + [DOT] + s3;
    var s1 := b + [DOT] + s2;
    DottedNests(a, b, c, d, rest);
    QuadStep(a, s1, 0, addr);
    if IsOctet(a) {
      var addr1 := addr[0 := Wrapped(a)];
      QuadStep(b, s2, 1, addr1);
      if IsOctet(b) {
        var addr2 := addr1[1 := Wrapped(b)];
        QuadStep(c, s3, 2, addr2);
        if IsOctet(c) {
          LastOctet(d, rest, addr2[2 := Wrapped(c)]);
        }
      }
    }
  }

  lemma DottedNests(a: Text, b: Text, c: Text, d: Text, rest: Text)
    ensures Dotted(a, b, c, d) + rest == a + [DOT] + (b + [DOT] + (c + [DOT] + (d + rest)))
  {
  }

  lemma LastOctet(digits: Text, rest: Text, addr: seq<u8>)
    requires AreDigits(digits) && |addr| == 4 && (rest == [] || !IsDigit(rest[0]))
    ensures ParseQuad(digits + rest, 3, addr)
      == if Wrapped(digits) > 255 then Parsed(InvalidParameter, addr, digits + rest)
         else Parsed(Success, addr[3 := Wrapped(digits)], rest)
  {
    DigitsInFront(digits, rest);
    assert (digits + rest)[|digits|..] == rest;
  }

  /** A run of port digits of any length gives its value modulo 65536, in spite of the wrapping accumulator. */
  lemma PortParses(digits: Text)
    requires AreDigits(digits)
    ensures ParsePort([COLON] + digits) == Set(Value(digits) % 0x1_0000)
  {
    var v := Value(digits);
    assert ([COLON] + digits)[1..] == digits && digits + [] == digits;
    DigitsInFront(digits, []);
    assert v == v % TWO64 + 0x1_0000 * (0x1_0000_0000_0000 * (v / TWO64));
    ModShift(v % TWO64, 0x1_0000, 0x1_0000_0000_0000 * (v / TWO64));
  }

  /** Four octets in decimal, with leading zeros. */
  function Printed(o: seq<u8>, zeros: seq<nat>): Text
    requires |o| == 4 && |zeros| == 5
  {
    Dotted(Padded(zeros[0], o[0]), Padded(zeros[1], o[1]), Padded(zeros[2], o[2]), Padded(zeros[3], o[3]))
  }

  lemma QuadInvertsPrint(o: seq<u8>, zeros: seq<nat>, rest: Text, addr: seq<u8>)
    requires |o| == 4 && |zeros| == 5 && |addr| == 4 && (rest == [] || !IsDigit(rest[0]))
    ensures var r := ParseQuad(Printed(o, zeros) + rest, 0, addr);
      r.status == Success && r.addr == o && r.rest == rest
  {
    hide Value, ParseQuad, Padded, Dotted;
    ValueOfPadded(zeros[0], o[0]);
    ValueOfPadded(zeros[1], o[1]);
    ValueOfPadded(zeros[2], o[2]);
    ValueOfPadded(zeros[3], o[3]);
    DottedParses(Padded(zeros[0], o[0]), Padded(zeros[1], o[1]), Padded(zeros[2], o[2]), Padded(zeros[3], o[3]),
      rest, addr);
  }

  /** Parsing undoes printing four octets and a port in decimal, with any leading zeros, and so without the port. */
  lemma ParseInvertsPrint(o: seq<u8>, p: u16, zeros: seq<nat>, addr: seq<u8>)
    requires |o| == 4 && |zeros| == 5 && |addr| == 4
    ensures var r := ParseQuad(Printed(o, zeros) + ([COLON] + Padded(zeros[4], p)), 0, addr);
      r.status == Success && r.addr == o && ParsePort(r.rest) == Set(p)
    ensures var r := ParseQuad(Printed(o, zeros), 0, addr);
      r.status == Success && r.addr == o && ParsePort(r.rest) == Unset
  {
    hide Value, ParseQuad, Padded, Printed;
    ValueOfPadded(zeros[4], p);
    QuadInvertsPrint(o, zeros, [COLON] + Padded(zeros[4], p), addr);
    QuadInvertsPrint(o, zeros, [], addr);
    assert Printed(o, zeros) + [] == Printed(o, zeros);
    PortParses(Padded(zeros[4], p));
  }
}
