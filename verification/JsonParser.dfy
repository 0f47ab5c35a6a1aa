/** A parser for JSON text, after section 2 of RFC 4627. */
module JsonParser {
  datatype Json =
    | JNull
    | JBool(b: bool)
    | JNumber(whole: int, frac: string, exp: string)
    | JString(s: string)
    | JArray(items: seq<Json>)
    | JObject(members: seq<JMember>)

  datatype JMember = JMember(name: string, value: Json)

  datatype Parse<+T> = NoParse | Parse(value: T, rest: string)

  predicate FirstIs(s: string, c: char) {
    s != [] && s[0] == c
  }

  // White space (section 2)

  predicate IsWs(c: char) {
    c == ' ' || c == '\t' || c == '\n' || c == '\r'
  }

  function SkipWs(s: string): (r: string)
    ensures |r| <= |s|
  {
    if s != [] && IsWs(s[0]) then SkipWs(s[1..]) else s
  }

  // Numbers (section 2.4)

  predicate IsDigit(c: char) {
    '0' <= c <= '9'
  }

  /** The length of the longest prefix of digits. */
  function DigitRun(s: string): (n: nat)
    ensures n <= |s|
  {
    if s != [] && IsDigit(s[0]) then 1 + DigitRun(s[1..]) else 0
  }

  function DecimalValue(s: string): nat {
    if s == [] then 0
    else
      var last := s[|s| - 1];
      10 * DecimalValue(s[..|s| - 1]) + (if IsDigit(last) then last as int - '0' as int else 0)
  }

  /** int without its sign: a zero alone, or digits that do not start with a zero. */
  function ParseNatural(s: string): (r: Parse<int>)
    ensures r.Parse? ==> |r.rest| < |s|
  {
    var n := if FirstIs(s, '0') then 1 else DigitRun(s);
    if n == 0 then NoParse else Parse(DecimalValue(s[..n]), s[n..])
  }

  function ParseFrac(s: string): (r: Parse<string>)
    ensures r.Parse? ==> |r.rest| <= |s|
  {
    if !FirstIs(s, '.') then Parse("", s)
    else
      var n := DigitRun(s[1..]);
      if n == 0 then NoParse else Parse(s[1..1 + n], s[1 + n..])
  }

  function ParseExp(s: string): (r: Parse<string>)
    ensures r.Parse? ==> |r.rest| <= |s|
  {
    if !FirstIs(s, 'e') && !FirstIs(s, 'E') then Parse("", s)
    else
      var sign := if |s| > 1 && (s[1] == '+' || s[1] == '-') then 1 else 0;
      var n := DigitRun(s[1 + sign..]);
      if n == 0 then NoParse else Parse(s[1..1 + sign + n], s[1 + sign + n..])
  }

  function ParseNumber(s: string): (r: Parse<Json>)
    ensures r.Parse? ==> |r.rest| < |s|
  {
    var negative := FirstIs(s, '-');
    var whole := ParseNatural(if negative then s[1..] else s);
    if whole.NoParse? then NoParse
    else
      var frac := ParseFrac(whole.rest);
      if frac.NoParse? then NoParse
      else
        var exp := ParseExp(frac.rest);
        if exp.NoParse? then NoParse
        else Parse(JNumber(if negative then -whole.value else whole.value, frac.value, exp.value), exp.rest)
  }

  // Strings (section 2.5)

  /** The value of a hexadecimal digit, or 16. */
  function HexValue(c: char): (n: nat)
    ensures n <= 16
  {
    if '0' <= c <= '9' then c as int - '0' as int
    else if 'a' <= c <= 'f' then c as int - 'a' as int + 10
    else if 'A' <= c <= 'F' then c as int - 'A' as int + 10
    else 16
  }

  /** The bytes of a 16-bit code in UTF-8. */
  function Utf8(code: nat): string
    requires code < 0x1_0000
  {
    if code < 0x80 then [code as char]
    else if code < 0x800 then [(0xc0 + code / 64) as char, (0x80 + code % 64) as char]
    else [(0xe0 + code / 4096) as char, (0x80 + code / 64 % 64) as char, (0x80 + code % 64) as char]
  }

  /** What a two-character escape stands for; none is NUL. */
  function Unescape(c: char): char {
    if c == '\"' || c == '\\' || c == '/' then c
    else if c == 'b' then 8 as char
    else if c == 'f' then 12 as char
    else if c == 'n' then 10 as char
    else if c == 'r' then 13 as char
    else if c == 't' then 9 as char
    else 0 as char
  }

  /** One character of a string, and what follows it. */
  function ParseChar(s: string): (r: Parse<string>)
    requires s != []
    ensures r.Parse? ==> |r.rest| < |s|
  {
    if s[0] == '\\' then
      if |s| >= 6 && s[1] == 'u' then
        var a, b, c, d := HexValue(s[2]), HexValue(s[3]), HexValue(s[4]), HexValue(s[5]);
        if a < 16 && b < 16 && c < 16 && d < 16 then Parse(Utf8(4096 * a + 256 * b + 16 * c + d), s[6..]) else NoParse
      else if |s| >= 2 && Unescape(s[1]) != 0 as char then Parse([Unescape(s[1])], s[2..])
      else NoParse
    else if s[0] as int < 0x20 then NoParse
    else Parse([s[0]], s[1..])
  }

  /** The rest of a string after its opening quotation mark. */
  function ParseChars(s: string): (r: Parse<string>)
    ensures r.Parse? ==> |r.rest| < |s|
    decreases |s|
  {
    if s == [] then NoParse
    else if s[0] == '\"' then Parse("", s[1..])
    else
      var first := ParseChar(s);
      if first.NoParse? then NoParse
      else
        var others := ParseChars(first.rest);
        if others.NoParse? then NoParse else Parse(first.value + others.value, others.rest)
  }

  // Values, arrays and objects (sections 2.1 to 2.3)

  /** A value, after optional white space. */
  function ParseValue(s: string): (r: Parse<Json>)
    ensures r.Parse? ==> |r.rest| < |s|
    decreases |s|, 2
  {
    ParseToken(SkipWs(s))
  }

  function ParseToken(t: string): (r: Parse<Json>)
    ensures r.Parse? ==> |r.rest| < |t|
    decreases |t|, 1
  {
    if t == [] then NoParse
    else if t[0] == '\"' then
      var p := ParseChars(t[1..]);
      if p.NoParse? then NoParse else Parse(JString(p.value), p.rest)
    else if t[0] == '[' then ParseArray(t[1..])
    else if t[0] == '{' then ParseObject(t[1..])
    else if "null" <= t then Parse(JNull, t[4..])
    else if "true" <= t then Parse(JBool(true), t[4..])
    else if "false" <= t then Parse(JBool(false), t[5..])
    else ParseNumber(t)
  }

  /** An array after its opening bracket. */
  function ParseArray(s: string): (r: Parse<Json>)
    ensures r.Parse? ==> |r.rest| < |s|
    decreases |s|, 5
  {
    var u := SkipWs(s);
    if FirstIs(u, ']') then Parse(JArray([]), u[1..])
    else
      var p := ParseItems(s);
      if p.NoParse? then NoParse else Parse(JArray(p.value), p.rest)
  }

  /** An object after its opening brace. */
  function ParseObject(s: string): (r: Parse<Json>)
    ensures r.Parse? ==> |r.rest| < |s|
    decreases |s|, 5
  {
    var u := SkipWs(s);
    if FirstIs(u, '}') then Parse(JObject([]), u[1..])
    else
      var p := ParseMembers(s);
      if p.NoParse? then NoParse else Parse(JObject(p.value), p.rest)
  }

  /** One or more items and the closing bracket. */
  function ParseItems(s: string): (r: Parse<seq<Json>>)
    ensures r.Parse? ==> |r.rest| < |s|
    decreases |s|, 3
  {
    var first := ParseValue(s);
    if first.NoParse? then NoParse
    else
      var t := SkipWs(first.rest);
      if FirstIs(t, ']') then Parse([first.value], t[1..])
      else if FirstIs(t, ',') then
        var others := ParseItems(t[1..]);
        if others.NoParse? then NoParse else Parse([first.value] + others.value, others.rest)
      else NoParse
  }

  /** A name, a colon and a value. */
  function ParseMember(s: string): (r: Parse<JMember>)
    ensures r.Parse? ==> |r.rest| < |s|
    decreases |s|, 3
  {
    var t := SkipWs(s);
    if !FirstIs(t, '\"') then NoParse
    else
      var name := ParseChars(t[1..]);
      if name.NoParse? then NoParse
      else
        var u := SkipWs(name.rest);
        if !FirstIs(u, ':') then NoParse
        else
          var value := ParseValue(u[1..]);
          if value.NoParse? then NoParse else Parse(JMember(name.value, value.value), value.rest)
  }

  /** One or more members and the closing brace. */
  function ParseMembers(s: string): (r: Parse<seq<JMember>>)
    ensures r.Parse? ==> |r.rest| < |s|
    decreases |s|, 4
  {
    var first := ParseMember(s);
    if first.NoParse? then NoParse
    else
      var t := SkipWs(first.rest);
      if FirstIs(t, '}') then Parse([first.value], t[1..])
      else if FirstIs(t, ',') then
        var others := ParseMembers(t[1..]);
        if others.NoParse? then NoParse else Parse([first.value] + others.value, others.rest)
      else NoParse
  }

  /** JSON-text: an object or array, with nothing but white space around it. */
  function ParseText(s: string): Parse<Json> {
    var p := ParseValue(s);
    if p.Parse? && (p.value.JArray? || p.value.JObject?) && SkipWs(p.rest) == [] then p else NoParse
  }
}
