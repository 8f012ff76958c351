/** The address in a 227 reply, section 4.2.1 of RFC 959: (h1,h2,h3,h4,p1,p2). */
module Pasv {
  import opened Wrappers
  import opened Sequences
  import opened Decimals
  import opened FtpReplies

  datatype Endpoint = Endpoint(ip: nat, port: nat)

  function TrimLeadingSpace(s: string): string {
    if s != "" && IsSpace(s[0]) then TrimLeadingSpace(s[1..]) else s
  }

  /** Leading whitespace, and nothing else, goes. */
  lemma {:induction false} TrimExactly(spaces: string, rest: string)
    requires forall c <- spaces :: c as int == 32 || 9 <= c as int <= 13
    requires rest == "" || !(rest[0] as int == 32 || 9 <= rest[0] as int <= 13)
    ensures TrimLeadingSpace(spaces + rest) == rest
  {
    if spaces == "" {
      assert spaces + rest == rest;
    } else {
      assert spaces[0] in spaces && forall c <- spaces[1..] :: c in spaces;
      assert (spaces + rest)[1..] == spaces[1..] + rest;
      TrimExactly(spaces[1..], rest);
    }
  }

  /** from_chars into a uint32 and the checks around it; None for each of its errors. */
  function ParseUint8(s: string): Option<nat> {
    var str := TrimLeadingSpace(s);
    if str == "" then None
    else
      var digits := DigitsPrefix(str);
      if digits == "" || Value(digits) >= 0x1_0000_0000 then None
      else if |digits| != |str| then None
      else if Value(digits) > 255 then None
      else Some(Value(digits))
  }

  function Fields(s: string): (fs: seq<string>)
    ensures fs != []
    decreases |s|
  {
    match Find(s, ",")
    case None => [s]
    case Some(p) => [s[..p]] + Fields(s[p + 1..])
  }

  function Params(response: string): Option<string> {
    match Find(response, "(")
    case None => None
    case Some(start) =>
      match Find(response[start + 1..], ")")
      case None => None
      case Some(length) => Some(response[start + 1..][..length])
  }

  /** Six octets up front; anything after the sixth field is ignored. */
  predicate SixOctets(fields: seq<string>) {
    |fields| >= 6 && forall i :: 0 <= i < 6 ==> ParseUint8(fields[i]).Some?
  }

  function EndpointOf(parts: seq<nat>): Endpoint
    requires |parts| == 6
  {
    Endpoint(parts[0] * 0x100_0000 + parts[1] * 0x1_0000 + parts[2] * 0x100 + parts[3], parts[4] * 0x100 + parts[5])
  }

  /** Four numbers below 256 are the digits of their positional sum. */
  lemma DigitsOfSum(a: nat, b: nat, c: nat, d: nat)
    requires a <= 255 && b <= 255 && c <= 255 && d <= 255
    ensures var sum := a * 0x100_0000 + b * 0x1_0000 + c * 0x100 + d;
            && sum / 0x100_0000 == a && sum / 0x1_0000 % 0x100 == b
            && sum / 0x100 % 0x100 == c && sum % 0x100 == d
  {
    var sum := a * 0x100_0000 + b * 0x1_0000 + c * 0x100 + d;
    assert sum / 0x100 == a * 0x1_0000 + b * 0x100 + c;
    assert sum / 0x1_0000 == a * 0x100 + b;
  }

  /** The endpoint made of six octets: an address in network order and a port whose high byte
    * comes first. */
  lemma EndpointDigits(o: seq<nat>)
    requires |o| == 6 && forall x <- o :: x <= 255
    ensures var e := EndpointOf(o);
            && e.ip / 0x100_0000 == o[0] && e.ip / 0x1_0000 % 0x100 == o[1]
            && e.ip / 0x100 % 0x100 == o[2] && e.ip % 0x100 == o[3]
            && e.port / 0x100 == o[4] && e.port % 0x100 == o[5]
  {
    assert forall i :: 0 <= i < 6 ==> o[i] in o;
    DigitsOfSum(o[0], o[1], o[2], o[3]);
  }

  function PasvEndpoint(response: string): Option<Endpoint> {
    if Params(response).Some? && SixOctets(Fields(Params(response).value)) then
      var fields := Fields(Params(response).value);
      Some(EndpointOf(seq(6, i requires 0 <= i < 6 => ParseUint8(fields[i]).value)))
    else None
  }

  lemma FieldStep(params: string, pos: nat, rest: seq<string>)
    requires pos <= |params| && rest == Fields(params[pos..])
    ensures match Find(params[pos..], ",")
            case None => rest == [params[pos..]]
            case Some(p) =>
              && pos + p < |params| && rest[0] == params[pos..][..p]
              && rest[1..] == Fields(params[pos + p + 1..])
  {
  }

  lemma EmptyFieldRefused()
    ensures Fields("") == [""] && ParseUint8("") == None
  {
  }

  /** The parsing loop over the text between the parentheses. */
  method ParseParts(params: string) returns (r: Option<seq<nat>>)
    ensures r.Some? <==> SixOctets(Fields(params))
    ensures r.Some? ==> |r.value| == 6 && forall i :: 0 <= i < 6 ==> ParseUint8(Fields(params)[i]) == Some(r.value[i])
  {
    hide ParseUint8, Find, OccursAt;
    var parts := new nat[6](_ => 0);
    var count, pos := 0, 0;
    ghost var fields := Fields(params);
    ghost var rest := fields;
    while pos < |params| && count < 6
      invariant 0 <= pos <= |params| && 0 <= count <= 6 && count <= |fields|
      invariant forall i :: 0 <= i < count ==> ParseUint8(fields[i]) == Some(parts[i])
      invariant rest == fields[count..] && rest == Fields(params[pos..])
      decreases |params| - pos
    {
      var comma := Find(params[pos..], ",");
      var length := if comma.None? then |params| - pos else comma.value;
      FieldStep(params, pos, rest);
      var part := params[pos..][..length];
      assert part == rest[0] == fields[count];
      var val := ParseUint8(part);
      if val.None? {
        return None;
      }
      parts[count] := val.value;
      count := count + 1;
      rest := rest[1..];
      if comma.None? {
        break;
      }
      pos := pos + comma.value + 1;
    }
    if count != 6 {
      EmptyFieldRefused();
      assert rest != [] ==> rest[0] == "" && rest[0] == fields[count];
      return None;
    }
    r := Some(parts[..]);
  }

  /** The reply yields the address of its first six fields, and is refused exactly when
    * there are fewer or one of them is not an octet. */
  method ParsePasvResponse(response: string) returns (r: Option<Endpoint>)
    ensures r == PasvEndpoint(response)
  {
    hide Fields, ParseUint8, Find, OccursAt;
    var start := Find(response, "(");
    if start.None? {
      return None;
    }
    var end := Find(response[start.value + 1..], ")");
    if end.None? {
      return None;
    }
    var params := response[start.value + 1..][..end.value];
    var parsed := ParseParts(params);
    if parsed.None? {
      return None;
    }
    var parts := parsed.value;
    var ip := parts[0] * 0x100_0000 + parts[1] * 0x1_0000 + parts[2] * 0x100 + parts[3];
    var port := parts[4] * 0x100 + parts[5];
    ghost var fields := Fields(params);
    assert parts == seq(6, i requires 0 <= i < 6 => ParseUint8(fields[i]).value);
    r := Some(Endpoint(ip, port));
  }

  // ---- Which texts are octets ----

  lemma {:induction false} DigitsPrefixWhole(s: string)
    ensures |DigitsPrefix(s)| == |s| <==> AllDigits(s)
    ensures AllDigits(s) ==> DigitsPrefix(s) == s
    ensures |DigitsPrefix(s)| <= |s|
  {
    if s != "" {
      DigitsPrefixWhole(s[1..]);
      assert s == [s[0]] + s[1..];
    }
  }

  /** Optional leading whitespace, then a decimal in 0..255, and nothing else. */
  lemma OctetExactly(s: string)
    ensures var digits := TrimLeadingSpace(s);
            ParseUint8(s).Some? <==> digits != "" && AllDigits(digits) && Value(digits) <= 255
    ensures ParseUint8(s).Some? ==> ParseUint8(s).value == Value(TrimLeadingSpace(s))
  {
    DigitsPrefixWhole(TrimLeadingSpace(s));
  }

  /** The shifts and ors of the original are the positional sums, and lose nothing: they
    * agree with sums taken on more bits than 32, or than 16 for the port. */
  lemma ShiftOrIsPositional(a: bv32, b: bv32, c: bv32, d: bv32)
    requires a <= 255 && b <= 255 && c <= 255 && d <= 255
    ensures ((((a << 24) | (b << 16)) | (c << 8)) | d) as bv40
         == (a as bv40) * 0x100_0000 + (b as bv40) * 0x1_0000 + (c as bv40) * 0x100 + (d as bv40)
    ensures ((a << 8) | b) & 0xFFFF == a * 0x100 + b
  {
  }

  // ---- Printing and parsing ----

  function Printed(octets: seq<nat>): (texts: seq<string>)
    ensures |texts| == |octets|
  {
    seq(|octets|, i requires 0 <= i < |octets| => Decimal(octets[i]))
  }

  function Joined(octets: seq<nat>): string
    requires octets != []
  {
    Join(Printed(octets), ',')
  }

  lemma JoinedStep(octets: seq<nat>)
    requires octets != []
    ensures Joined(octets)
         == if |octets| == 1 then Decimal(octets[0]) else Decimal(octets[0]) + "," + Joined(octets[1..])
  {
    assert |octets| > 1 ==> Printed(octets)[1..] == Printed(octets[1..]);
  }

  /** The text of a 227 reply around an address. */
  function PasvText(before: string, octets: seq<nat>, after: string): string
    requires octets != []
  {
    before + "(" + Joined(octets) + ")" + after
  }

  lemma DigitsHoldNoMark(n: nat, mark: char)
    requires !IsDigit(mark)
    ensures mark !in Decimal(n)
  {
  }

  lemma {:induction false} JoinedHoldsNoMark(texts: seq<string>, mark: char)
    requires texts != [] && mark != ',' && forall t <- texts :: mark !in t
    ensures mark !in Join(texts, ',')
    decreases |texts|
  {
    assert texts[0] in texts;
    if |texts| > 1 {
      assert forall t <- texts[1..] :: t in texts;
      JoinedHoldsNoMark(texts[1..], mark);
    }
  }

  lemma {:induction false} FieldsOfJoined(texts: seq<string>)
    requires texts != [] && forall t <- texts :: ',' !in t
    ensures Fields(Join(texts, ',')) == texts
    decreases |texts|
  {
    var head := texts[0];
    assert head in texts;
    if |texts| == 1 {
      FindNoMark(head, ',');
    } else {
      var tail := Join(texts[1..], ',');
      FindMark(head, ',', tail);
      assert (head + "," + tail)[..|head|] == head && (head + "," + tail)[|head| + 1..] == tail;
      assert forall t <- texts[1..] :: t in texts;
      FieldsOfJoined(texts[1..]);
    }
  }

  lemma OctetIsRead(n: nat)
    requires n <= 255
    ensures IsOctet(Decimal(n)) && Value(TrimLeadingSpace(Decimal(n))) == n
  {
    assert !IsSpace(Decimal(n)[0]);
    assert TrimLeadingSpace(Decimal(n)) == Decimal(n);
    ValueOfDecimal(n);
  }

  lemma ParamsOfText(before: string, middle: string, after: string)
    requires '(' !in before && ')' !in middle
    ensures Params(before + "(" + middle + ")" + after) == Some(middle)
  {
    var rest := middle + ")" + after;
    var s := before + "(" + rest;
    assert before + "(" + middle + ")" + after == s;
    FindMark(before, '(', rest);
    assert s[|before| + 1..] == rest;
    FindMark(middle, ')', after);
    assert rest[..|middle|] == middle;
  }

  lemma NoParentheses(response: string, before: string, after: string)
    requires '(' !in response && '(' !in before && ')' !in after
    ensures PasvEndpoint(response) == None && PasvEndpoint(before + "(" + after) == None
  {
    FindNoMark(response, '(');
    FindMark(before, '(', after);
    assert (before + "(" + after)[|before| + 1..] == after;
    FindNoMark(after, ')');
  }

  predicate IsOctet(s: string) {
    var digits := TrimLeadingSpace(s);
    digits != "" && AllDigits(digits) && Value(digits) <= 255
  }

  /** Any list of fields in parentheses yields an endpoint exactly when it has at least six and
    * the first six are octets, and then it is made of those; what follows is ignored. */
  lemma FieldsDecideExactly(before: string, texts: seq<string>, after: string, e: Endpoint)
    requires texts != [] && '(' !in before && forall t <- texts :: ',' !in t && ')' !in t
    ensures PasvEndpoint(before + "(" + Join(texts, ',') + ")" + after) == Some(e) <==>
              && |texts| >= 6 && (forall i :: 0 <= i < 6 ==> IsOctet(texts[i]))
              && e == EndpointOf(seq(6, i requires 0 <= i < 6 => Value(TrimLeadingSpace(texts[i]))))
  {
    JoinedHoldsNoMark(texts, ')');
    ParamsOfText(before, Join(texts, ','), after);
    FieldsOfJoined(texts);
    hide Params, Fields, TrimLeadingSpace, Value, ParseUint8, EndpointOf, Join;
    forall i | 0 <= i < |texts|
      ensures ParseUint8(texts[i]).Some? <==> IsOctet(texts[i])
      ensures ParseUint8(texts[i]).Some? ==> ParseUint8(texts[i]).value == Value(TrimLeadingSpace(texts[i]))
    {
      OctetExactly(texts[i]);
    }
    if |texts| >= 6 && forall i :: 0 <= i < 6 ==> IsOctet(texts[i]) {
      assert seq(6, i requires 0 <= i < 6 => ParseUint8(texts[i]).value)
          == seq(6, i requires 0 <= i < 6 => Value(TrimLeadingSpace(texts[i])));
    }
  }

  /** Whatever six octets a server prints, the client gets back that address and port. */
  lemma PasvRoundTrip(before: string, octets: seq<nat>, after: string)
    requires '(' !in before && |octets| == 6 && forall o <- octets :: o <= 255
    ensures PasvEndpoint(PasvText(before, octets, after)) == Some(EndpointOf(octets))
  {
    var texts := Printed(octets);
    PrintedHoldNoMarks(octets);
    FieldsDecideExactly(before, texts, after, EndpointOf(octets));
    hide PasvEndpoint, Join, EndpointOf, IsOctet, TrimLeadingSpace, Value;
    forall i | 0 <= i < 6
      ensures IsOctet(texts[i]) && Value(TrimLeadingSpace(texts[i])) == octets[i]
    {
      assert octets[i] in octets;
      OctetIsRead(octets[i]);
    }
    assert seq(6, i requires 0 <= i < 6 => Value(TrimLeadingSpace(texts[i]))) == octets;
  }

  lemma PrintedHoldNoMarks(octets: seq<nat>)
    ensures forall t <- Printed(octets) :: ',' !in t && ')' !in t
  {
    forall i | 0 <= i < |octets|
      ensures ',' !in Printed(octets)[i] && ')' !in Printed(octets)[i]
    {
      DigitsHoldNoMark(octets[i], ',');
      DigitsHoldNoMark(octets[i], ')');
    }
  }
}
