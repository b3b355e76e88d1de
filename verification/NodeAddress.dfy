/** The "address:port" text in which nodes name each other on the wire. */
module NodeAddress {
  import opened Bytes
  import opened Identifiers

  const COLON: Byte := 58

  type Text = seq<Byte>

  datatype Endpoint = Endpoint(host: Text, port: nat)

  predicate IsDigit(c: Byte) { 48 <= c <= 57 }
  predicate IsSpace(c: Byte) { c == 32 || 9 <= c <= 13 }

  /** `std::to_string` of a non-negative number. */
  function Decimal(n: nat): (t: Text)
    ensures t != [] && forall i :: 0 <= i < |t| ==> IsDigit(t[i])
  {
    if n < 10 then [48 + n] else Decimal(n / 10) + [48 + n % 10]
  }

  function Numeral(t: Text): int {
    if t == [] then 0 else 10 * Numeral(t[..|t| - 1]) + (t[|t| - 1] as int - 48)
  }

  /** The longest prefix of digits. */
  function Digits(t: Text): Text {
    if t == [] || !IsDigit(t[0]) then [] else [t[0]] + Digits(t[1..])
  }

  function SkipSpace(t: Text): Text {
    if t != [] && IsSpace(t[0]) then SkipSpace(t[1..]) else t
  }

  /** `std::stoi`: None where it throws. */
  function Stoi(t: Text): Option<int> {
    var u := SkipSpace(t);
    var signed := u != [] && (u[0] == 43 || u[0] == 45);
    var digits := Digits(if signed then u[1..] else u);
    var v := if signed && u[0] == 45 then -Numeral(digits) else Numeral(digits);
    if digits == [] || v < -0x8000_0000 || v > 0x7FFF_FFFF then None else Some(v)
  }

  /** Index of the first colon; the length if there is none. */
  function FindColon(t: Text): (i: nat)
    ensures i <= |t|
  {
    if t == [] || t[0] == COLON then 0 else 1 + FindColon(t[1..])
  }

  lemma {:induction false} FirstColon(t: Text, n: nat)
    requires n < |t| && t[n] == COLON
    ensures FindColon(t) <= n && (COLON !in t[..n] ==> FindColon(t) == n)
  {
    if t[0] != COLON {
      FirstColon(t[1..], n - 1);
      assert t[..n] == [t[0]] + t[1..][..n - 1];
    } else if n > 0 {
      assert t[..n][0] == COLON;
    }
  }

  function Format(e: Endpoint): Text { e.host + [COLON] + Decimal(e.port) }

  /** Splits at the first colon; the port is converted to 16 bits. */
  function Parse(t: Text): Option<Endpoint> {
    var i := FindColon(t);
    if i == |t| then None else
    match Stoi(t[i + 1..])
    case None => None
    case Some(v) => Some(Endpoint(t[..i], v % 65536))
  }

  lemma {:induction false} NumeralOfDecimal(n: nat)
    ensures Numeral(Decimal(n)) == n
  {
    if n >= 10 {
      NumeralOfDecimal(n / 10);
      assert Decimal(n)[..|Decimal(n)| - 1] == Decimal(n / 10);
    } else {
      assert Decimal(n)[..0] == [];
    }
  }

  lemma {:induction false} DigitsOfDigits(t: Text)
    requires forall i :: 0 <= i < |t| ==> IsDigit(t[i])
    ensures Digits(t) == t
  {
    if t != [] { DigitsOfDigits(t[1..]); }
  }

  lemma StoiOfDecimal(n: nat)
    requires n <= 0x7FFF_FFFF
    ensures Stoi(Decimal(n)) == Some(n)
  {
    var t := Decimal(n);
    NumeralOfDecimal(n);
    DigitsOfDigits(t);
    assert IsDigit(t[0]);
    assert SkipSpace(t) == t;
  }

  /** The text gives the endpoint back exactly when the host contains no colon, as no
      IPv4 address does. */
  lemma FormatRoundTrip(e: Endpoint)
    requires e.port < 65536
    ensures Parse(Format(e)) == Some(e) <==> COLON !in e.host
  {
    var t, n := Format(e), |e.host|;
    assert t[n] == COLON && t[..n] == e.host && t[n + 1..] == Decimal(e.port);
    if COLON !in e.host {
      FirstColon(t, n);
      StoiOfDecimal(e.port);
    } else {
      var j :| 0 <= j < n && e.host[j] == COLON;
      FirstColon(t, j);
    }
  }

  // ---------------------------------------------------------------- any text

  function Ascii(text: string): (t: Text)
    requires forall i :: 0 <= i < |text| ==> text[i] < 128 as char
    ensures |t| == |text| && forall i :: 0 <= i < |text| ==> t[i] == text[i] as int
  {
    seq(|text|, i requires 0 <= i < |text| => text[i] as int)
  }

  /** The text of an address, spelled out. */
  lemma FormatExample()
    ensures Format(Endpoint(Ascii("127.0.0.1"), 8001)) == Ascii("127.0.0.1:8001")
  {
    assert Decimal(8) == [56] && Decimal(80) == [56, 48] && Decimal(800) == [56, 48, 48];
    assert Decimal(8001) == [56, 48, 48, 49];
  }

  lemma {:induction false} DigitsBefore(t: Text, rest: Text)
    requires (forall i :: 0 <= i < |t| ==> IsDigit(t[i])) && (rest == [] || !(48 <= rest[0] <= 57))
    ensures Digits(t + rest) == t
  {
    if t != [] {
      DigitsBefore(t[1..], rest);
      assert (t + rest)[1..] == t[1..] + rest;
    } else {
      assert t + rest == rest;
    }
  }

  lemma {:induction false} SkipsSpaces(space: Text, t: Text)
    requires forall i :: 0 <= i < |space| ==> space[i] == 32 || 9 <= space[i] <= 13
    requires t == [] || !(t[0] == 32 || 9 <= t[0] <= 13)
    ensures SkipSpace(space + t) == t
  {
    if space != [] {
      SkipsSpaces(space[1..], t);
      assert (space + t)[1..] == space[1..] + t;
    } else {
      assert space + t == t;
    }
  }

  datatype Sign = Unsigned | Plus | Minus

  /** How `std::stoi` reads a number: white space and a sign in front and anything but a
      digit behind are accepted; out of 32 bits it throws. */
  lemma StoiReads(space: Text, sign: Sign, n: nat, rest: Text)
    requires forall i :: 0 <= i < |space| ==> space[i] == 32 || 9 <= space[i] <= 13
    requires rest == [] || !(48 <= rest[0] <= 57)
    ensures var mark: Text := match sign case Unsigned => [] case Plus => [43] case Minus => [45];
            var v: int := if sign.Minus? then -(n as int) else n as int;
            Stoi(space + (mark + Decimal(n) + rest)) == if -0x8000_0000 <= v < 0x8000_0000 then Some(v) else None
  {
    var mark: Text := match sign case Unsigned => [] case Plus => [43] case Minus => [45];
    var body := Decimal(n) + rest;
    var t := mark + Decimal(n) + rest;
    assert IsDigit(body[0]);
    assert t == mark + body && t[|mark|..] == body;
    SkipsSpaces(space, t);
    DigitsBefore(Decimal(n), rest);
    NumeralOfDecimal(n);
    hide Decimal, Digits, SkipSpace, Numeral;
  }

  /** A text without a number is refused. */
  lemma StoiRefuses(t: Text)
    requires t == [] || !(48 <= t[0] <= 57 || t[0] == 43 || t[0] == 45 || t[0] == 32 || 9 <= t[0] <= 13)
    ensures Stoi(t) == None
  {
  }

  /** A port is cut to 16 bits; a text without a colon is refused. */
  lemma ParseWraps(host: Text, n: nat)
    requires 58 !in host && n < 0x8000_0000
    ensures Parse(host + [58] + Decimal(n)) == Some(Endpoint(host, n % 65536))
    ensures Parse(host) == None
  {
    var t := host + [58] + Decimal(n);
    assert t[|host|] == 58 && t[..|host|] == host && t[|host| + 1..] == Decimal(n);
    FirstColon(t, |host|);
    StoiOfDecimal(n);
    NoColon(host);
    hide Decimal, Stoi;
  }

  lemma {:induction false} NoColon(t: Text)
    requires 58 !in t
    ensures FindColon(t) == |t|
  {
    if t != [] { NoColon(t[1..]); }
  }
}
