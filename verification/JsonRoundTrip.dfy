/** Parsing what the writer printed gives back the document. */
module JsonRoundTrip {
  import opened Wrappers
  import opened JsonText
  import opened JsonParser
  import opened JsonDocuments

  /** The document without its layout. */
  function Erase(d: Doc): Json {
    match d
    case Null => JNull
    case Bool(b) => JBool(b)
    case Int(i) => JNumber(i, "", "")
    case Str(s) => JString(s)
    case Arr(items, _) => JArray(EraseItems(items))
    case Obj(members, _) => JObject(EraseMembers(members))
  }

  function EraseItems(items: seq<Doc>): seq<Json> {
    if items == [] then [] else [Erase(items[0])] + EraseItems(items[1..])
  }

  function EraseMembers(members: seq<Member>): seq<JMember> {
    if members == [] then []
    else [JMember(members[0].name, Erase(members[0].value))] + EraseMembers(members[1..])
  }

  // White space -------------------------------------------------------------------------------------

  ghost predicate AllWs(s: string) {
    forall i :: 0 <= i < |s| ==> IsWs(s[i])
  }

  lemma {:induction false} SkipsWs(ws: string, s: string)
    requires AllWs(ws) && (s != [] ==> !IsWs(s[0]))
    ensures SkipWs(ws + s) == s
  {
    if ws == [] {
      assert ws + s == s;
    } else {
      assert (ws + s)[1..] == ws[1..] + s;
      SkipsWs(ws[1..], s);
    }
  }

  lemma {:induction false} SpacesAreWs(n: nat)
    ensures AllWs(Spaces(n))
  {
    if n > 0 {
      SpacesAreWs(n - 1);
    }
  }

  lemma LayoutIsWs(depth: nat, newlines: bool, comma: bool)
    ensures AllWs(Lead(depth, newlines, comma)) && AllWs(Closing(depth, newlines))
  {
    SpacesAreWs(depth);
  }

  // Strings -----------------------------------------------------------------------------------------

  lemma EscapedCharParses(u: char, rest: string)
    requires 0 < u as int < 256
    ensures ParseChar(EscapeChar(u) + rest) == Parse([u], rest)
    ensures EscapeChar(u)[0] != '\"'
  {
    var e := EscapeChar(u);
    assert (e + rest)[|e|..] == rest;
    if TwoCharEscape(u) == NO_ESCAPE && u as int <= 0x1f {
      HexRoundTrip(u as int / 16);
      HexRoundTrip(u as int);
      assert 16 * HexValue(e[4]) + HexValue(e[5]) == u as int;
      assert (e + rest)[..6] == e;
    }
  }

  lemma HexRoundTrip(n: nat)
    ensures HexValue(HexDigit(n)) == n % 16
  {
  }

  lemma {:induction false} EscapedStringParses(s: string, rest: string)
    requires CString(s)
    ensures ParseChars(Escape(s) + "\"" + rest) == Parse(s, rest)
  {
    if s == [] {
      assert Escape(s) + "\"" + rest == "\"" + rest;
      assert ("\"" + rest)[1..] == rest;
    } else {
      var tail := Escape(s[1..]) + "\"" + rest;
      assert Escape(s) + "\"" + rest == EscapeChar(s[0]) + tail;
      EscapedCharParses(s[0], tail);
      assert (EscapeChar(s[0]) + tail)[0] == EscapeChar(s[0])[0];
      EscapedStringParses(s[1..], rest);
      assert s == [s[0]] + s[1..];
    }
  }

  // Numbers -----------------------------------------------------------------------------------------

  /** The text after a number must not look like more of it. */
  predicate EndsNumber(rest: string) {
    rest == [] || !(IsDigit(rest[0]) || rest[0] == '.' || rest[0] == 'e' || rest[0] == 'E')
  }

  lemma {:induction false} DecimalReads(n: nat)
    ensures DecimalValue(Decimal(n)) == n
    ensures forall i :: 0 <= i < |Decimal(n)| ==> IsDigit(Decimal(n)[i])
    ensures Decimal(n)[0] == '0' <==> n == 0
    ensures n < 10 ==> |Decimal(n)| == 1
  {
    if n >= 10 {
      DecimalReads(n / 10);
      assert Decimal(n)[..|Decimal(n)| - 1] == Decimal(n / 10);
      assert Decimal(n)[0] == Decimal(n / 10)[0];
    } else {
      assert DecimalValue([Digit(n)]) == 10 * DecimalValue([Digit(n)][..0]) + n;
    }
  }

  lemma {:induction false} DigitsRun(s: string, rest: string)
    requires forall i :: 0 <= i < |s| ==> IsDigit(s[i])
    requires rest == [] || !IsDigit(rest[0])
    ensures DigitRun(s + rest) == |s|
  {
    if s == [] {
      assert s + rest == rest;
    } else {
      assert (s + rest)[1..] == s[1..] + rest;
      DigitsRun(s[1..], rest);
    }
  }

  lemma NaturalParses(n: nat, rest: string)
    requires EndsNumber(rest)
    ensures ParseNatural(Decimal(n) + rest) == Parse(n, rest)
  {
    DecimalReads(n);
    DigitsRun(Decimal(n), rest);
    assert (Decimal(n) + rest)[..|Decimal(n)|] == Decimal(n);
    assert (Decimal(n) + rest)[|Decimal(n)|..] == rest;
  }

  lemma NothingFollows(rest: string)
    requires EndsNumber(rest)
    ensures ParseFrac(rest) == Parse("", rest) && ParseExp(rest) == Parse("", rest)
  {
  }

  lemma SignedParses(t: string, n: nat, rest: string)
    requires ParseNatural(t) == Parse(n, rest) && EndsNumber(rest) && !FirstIs(t, '-')
    ensures ParseNumber(t) == Parse(JNumber(n, "", ""), rest)
    ensures ParseNumber("-" + t) == Parse(JNumber(-(n as int), "", ""), rest)
  {
    hide ParseNatural, ParseFrac, ParseExp, EndsNumber;
    NothingFollows(rest);
    assert ("-" + t)[1..] == t;
  }

  lemma IntParses(i: int, rest: string)
    requires EndsNumber(rest)
    ensures ParseNumber(IntText(i) + rest) == Parse(JNumber(i, "", ""), rest)
    ensures IntText(i) != [] && (IntText(i)[0] == '-' || IsDigit(IntText(i)[0]))
  {
    hide ParseNatural, ParseNumber, Decimal, EndsNumber;
    var n: nat := if i < 0 then -i else i;
    NaturalParses(n, rest);
    DecimalReads(n);
    SignedParses(Decimal(n) + rest, n, rest);
    assert "-" + (Decimal(n) + rest) == ("-" + Decimal(n)) + rest;
  }

  // Values ------------------------------------------------------------------------------------------

  /** Leading white space does not matter. */
  lemma SkipsToToken(ws: string, text: string, rest: string)
    requires AllWs(ws) && text != [] && !IsWs(text[0])
    ensures SkipWs(ws + text + rest) == text + rest
    ensures ParseValue(ws + text + rest) == ParseToken(text + rest)
  {
    hide ParseToken;
    assert ws + text + rest == ws + (text + rest);
    SkipsWs(ws, text + rest);
  }

  lemma LiteralParses(text: string, value: Json, rest: string)
    requires (text == "null" && value == JNull) || (text == "true" && value == JBool(true))
             || (text == "false" && value == JBool(false))
    ensures ParseToken(text + rest) == Parse(value, rest)
  {
    assert (text + rest)[|text|..] == rest;
    assert (text + rest)[0] == text[0];
    assert (text + rest)[..|text|] == text;
    assert text <= text + rest;
  }

  lemma IntTokenParses(i: int, rest: string)
    requires EndsNumber(rest)
    ensures ParseToken(IntText(i) + rest) == Parse(JNumber(i, "", ""), rest)
    ensures IntText(i) != [] && (IntText(i)[0] == '-' || IsDigit(IntText(i)[0]))
  {
    hide ParseNumber, IntText;
    IntParses(i, rest);
    assert (IntText(i) + rest)[0] == IntText(i)[0];
  }

  lemma StringTokenParses(s: string, rest: string)
    requires CString(s)
    ensures ParseToken("\"" + Escape(s) + "\"" + rest) == Parse(JString(s), rest)
  {
    hide ParseChars, Escape;
    assert ("\"" + Escape(s) + "\"" + rest)[1..] == Escape(s) + "\"" + rest;
    EscapedStringParses(s, rest);
  }

  /** The first character of a value is neither white space nor a closing bracket or brace. */
  lemma TextStarts(d: Doc, depth: nat, nl: bool)
    ensures
      var text := Text(d, depth, nl);
      text != [] && !IsWs(text[0]) && text[0] != ']' && text[0] != '}'
  {
    if d.Int? {
      IntTokenParses(d.i, "");
    }
  }

  lemma {:induction false} ValueParses(d: Doc, depth: nat, nl: bool, ws: string, rest: string)
    requires Writable(d) && AllWs(ws) && EndsNumber(rest)
    ensures ParseValue(ws + Text(d, depth, nl) + rest) == Parse(Erase(d), rest)
    ensures SkipWs(ws + Text(d, depth, nl) + rest) == Text(d, depth, nl) + rest
    decreases d, 0
  {
    hide ParseToken, ParseValue, SkipWs, IntText, ItemsText, MembersText, Closing;
    TextStarts(d, depth, nl);
    SkipsToToken(ws, Text(d, depth, nl), rest);
    match d {
      case Null =>
        LiteralParses("null", JNull, rest);
      case Bool(b) =>
        LiteralParses(if b then "true" else "false", JBool(b), rest);
      case Int(i) =>
        IntTokenParses(i, rest);
      case Str(s) =>
        StringTokenParses(s, rest);
      case Arr(items, style) =>
        ArrayParses(items, style, depth, nl, rest);
      case Obj(members, style) =>
        ObjectParses(members, style, depth, nl, rest);
    }
  }

  lemma {:induction false} ArrayParses(items: seq<Doc>, style: Style, depth: nat, nl: bool, rest: string)
    requires WritableItems(items)
    ensures ParseToken(Text(Arr(items, style), depth, nl) + rest) == Parse(JArray(EraseItems(items)), rest)
    decreases items, 2
  {
    hide *;
    var nl' := nl && style == MultiLine;
    var closing := Closing(depth, nl');
    ArrayText(items, style, depth, nl, rest);
    LayoutIsWs(depth, nl', false);
    BracketParses('[', ItemsText(items, depth + 1, nl', false) + closing + "]" + rest);
    if items == [] {
      EmptyParses(depth + 1, nl', closing, rest);
    } else {
      ItemsParse(items, depth + 1, nl', false, closing, rest);
      FirstItem(items, depth + 1, nl', closing, rest);
      SomeItems(ItemsTail(items, depth + 1, nl', false, closing, rest), EraseItems(items), rest);
    }
  }

  lemma EmptyParses(depth: nat, nl: bool, closing: string, rest: string)
    requires AllWs(closing)
    ensures ParseArray(ItemsText([], depth, nl, false) + closing + "]" + rest) == Parse(JArray(EraseItems([])), rest)
    ensures ParseObject(MembersText([], depth, nl, false) + closing + "}" + rest)
      == Parse(JObject(EraseMembers([])), rest)
  {
    hide SkipWs, ParseItems, ParseMembers;
    assert "" + closing + "]" + rest == closing + ("]" + rest);
    assert "" + closing + "}" + rest == closing + ("}" + rest);
    SkipsWs(closing, "]" + rest);
    SkipsWs(closing, "}" + rest);
    assert ("]" + rest)[1..] == rest && ("}" + rest)[1..] == rest;
  }

  lemma SomeItems(s: string, items: seq<Json>, rest: string)
    requires ParseItems(s) == Parse(items, rest) && !FirstIs(SkipWs(s), ']')
    ensures ParseArray(s) == Parse(JArray(items), rest)
  {
    hide ParseItems, SkipWs;
  }

  lemma SomeMembers(s: string, members: seq<JMember>, rest: string)
    requires ParseMembers(s) == Parse(members, rest) && !FirstIs(SkipWs(s), '}')
    ensures ParseObject(s) == Parse(JObject(members), rest)
  {
    hide ParseMembers, SkipWs;
  }

  lemma ArrayText(items: seq<Doc>, style: Style, depth: nat, nl: bool, rest: string)
    ensures var nl' := nl && style == MultiLine;
      Text(Arr(items, style), depth, nl) + rest
        == ['['] + (ItemsText(items, depth + 1, nl', false) + Closing(depth, nl') + "]" + rest)
  {
    hide ItemsText, Closing;
  }

  lemma ObjectText(members: seq<Member>, style: Style, depth: nat, nl: bool, rest: string)
    ensures var nl' := nl && style == MultiLine;
      Text(Obj(members, style), depth, nl) + rest
        == ['{'] + (MembersText(members, depth + 1, nl', false) + Closing(depth, nl') + "}" + rest)
  {
    hide MembersText, Closing;
  }

  lemma BracketParses(c: char, inner: string)
    ensures c == '[' ==> ParseToken([c] + inner) == ParseArray(inner)
    ensures c == '{' ==> ParseToken([c] + inner) == ParseObject(inner)
  {
    hide ParseArray, ParseObject, ParseNumber, ParseChars;
    assert ([c] + inner)[1..] == inner;
  }

  lemma FirstItem(items: seq<Doc>, depth: nat, nl: bool, closing: string, rest: string)
    requires items != []
    ensures ItemsText(items, depth, nl, false) + closing + "]" + rest
         == ItemsTail(items, depth, nl, false, closing, rest)
  {
    hide Text, Lead;
    var lead, text, more := Lead(depth, nl, false), Text(items[0], depth, nl), ItemsText(items[1..], depth, nl, true);
    assert Sep(depth, nl, false) == lead;
    assert (lead + text + more) + closing + "]" + rest == lead + text + (more + closing + "]" + rest);
  }

  /** What is left to read of an array whose next item is items[0], after the comma if there was one. */
  function ItemsTail(items: seq<Doc>, depth: nat, nl: bool, comma: bool, closing: string, rest: string): string
    requires items != []
  {
    Lead(depth, nl, comma) + Text(items[0], depth, nl) + AfterItem(items[1..], depth, nl, closing, rest)
  }

  function AfterItem(items: seq<Doc>, depth: nat, nl: bool, closing: string, rest: string): string {
    ItemsText(items, depth, nl, true) + closing + "]" + rest
  }

  lemma AfterItemStarts(items: seq<Doc>, depth: nat, nl: bool, closing: string, rest: string)
    requires AllWs(closing)
    ensures items == [] ==> AfterItem(items, depth, nl, closing, rest) == closing + ("]" + rest)
    ensures items != [] ==>
      AfterItem(items, depth, nl, closing, rest) == "," + ItemsTail(items, depth, nl, true, closing, rest)
    ensures EndsNumber(AfterItem(items, depth, nl, closing, rest))
  {
    hide Text, Lead;
    if items != [] {
      var lead, text, more := Lead(depth, nl, true), Text(items[0], depth, nl), ItemsText(items[1..], depth, nl, true);
      assert ItemsText(items, depth, nl, true) == "," + lead + text + more;
      Regroup5(",", lead, text, more, closing, "]" + rest);
      assert more + closing + "]" + rest == more + closing + ("]" + rest);
      assert ItemsText(items, depth, nl, true) + closing + "]" + rest
          == ("," + lead + text + more) + closing + ("]" + rest);
    }
  }

  lemma Regroup5(a: string, b: string, c: string, d: string, e: string, f: string)
    ensures (a + b + c + d) + e + f == a + (b + c + (d + e + f))
  {
  }

  lemma ItemsHead(items: seq<Doc>, depth: nat, nl: bool, comma: bool, closing: string, rest: string)
    requires items != []
    ensures ItemsTail(items, depth, nl, comma, closing, rest)
      == Lead(depth, nl, comma) + Text(items[0], depth, nl) + AfterItem(items[1..], depth, nl, closing, rest)
    ensures EraseItems(items) == [Erase(items[0])] + EraseItems(items[1..]) && EraseItems([]) == []
    ensures WritableItems(items) ==> Writable(items[0]) && WritableItems(items[1..])
  {
    hide Text, Erase, AfterItem;
  }

  lemma NotAtClose(d: Doc, depth: nat, nl: bool, tail: string)
    ensures !FirstIs(Text(d, depth, nl) + tail, ']')
  {
    hide Text;
    TextStarts(d, depth, nl);
  }

  lemma LastItem(s: string, item: Json, closing: string, rest: string)
    requires AllWs(closing) && ParseValue(s) == Parse(item, closing + ("]" + rest))
    ensures ParseItems(s) == Parse([item] + [], rest)
  {
    hide ParseValue, SkipWs;
    SkipsWs(closing, "]" + rest);
    assert ("]" + rest)[1..] == rest && [item] + [] == [item];
  }

  lemma MoreItems(s: string, item: Json, more: string, items: seq<Json>, rest: string)
    requires ParseValue(s) == Parse(item, "," + more) && ParseItems(more) == Parse(items, rest)
    ensures ParseItems(s) == Parse([item] + items, rest)
  {
    hide ParseValue, SkipWs;
    SkipsWs("", "," + more);
    assert "" + ("," + more) == "," + more && ("," + more)[1..] == more;
  }

  lemma {:induction false} ItemsParse(items: seq<Doc>, depth: nat, nl: bool, comma: bool, closing: string, rest: string)
    requires items != [] && WritableItems(items) && AllWs(closing)
    ensures ParseItems(ItemsTail(items, depth, nl, comma, closing, rest)) == Parse(EraseItems(items), rest)
    ensures !FirstIs(SkipWs(ItemsTail(items, depth, nl, comma, closing, rest)), ']')
    decreases items, 1
  {
    hide *;
    var others := items[1..];
    var tail := AfterItem(others, depth, nl, closing, rest);
    var s := ItemsTail(items, depth, nl, comma, closing, rest);
    ItemsHead(items, depth, nl, comma, closing, rest);
    LayoutIsWs(depth, nl, comma);
    AfterItemStarts(others, depth, nl, closing, rest);
    ValueParses(items[0], depth, nl, Lead(depth, nl, comma), tail);
    NotAtClose(items[0], depth, nl, tail);
    if others == [] {
      LastItem(s, Erase(items[0]), closing, rest);
    } else {
      var more := ItemsTail(others, depth, nl, true, closing, rest);
      ItemsParse(others, depth, nl, true, closing, rest);
      MoreItems(s, Erase(items[0]), more, EraseItems(others), rest);
    }
  }

  lemma {:induction false} ObjectParses(members: seq<Member>, style: Style, depth: nat, nl: bool, rest: string)
    requires WritableMembers(members)
    ensures ParseToken(Text(Obj(members, style), depth, nl) + rest) == Parse(JObject(EraseMembers(members)), rest)
    decreases members, 2
  {
    hide *;
    var nl' := nl && style == MultiLine;
    var closing := Closing(depth, nl');
    ObjectText(members, style, depth, nl, rest);
    LayoutIsWs(depth, nl', false);
    BracketParses('{', MembersText(members, depth + 1, nl', false) + closing + "}" + rest);
    if members == [] {
      EmptyParses(depth + 1, nl', closing, rest);
    } else {
      MembersParse(members, depth + 1, nl', false, closing, rest);
      FirstMember(members, depth + 1, nl', closing, rest);
      SomeMembers(MembersTail(members, depth + 1, nl', false, closing, rest), EraseMembers(members), rest);
    }
  }

  lemma FirstMember(members: seq<Member>, depth: nat, nl: bool, closing: string, rest: string)
    requires members != []
    ensures MembersText(members, depth, nl, false) + closing + "}" + rest
         == MembersTail(members, depth, nl, false, closing, rest)
  {
    hide Text, Lead, NameText;
    var lead, name, text := Lead(depth, nl, false), NameText(members[0].name), Text(members[0].value, depth, nl);
    var more := MembersText(members[1..], depth, nl, true);
    assert Sep(depth, nl, false) == lead;
    assert (lead + name + text + more) + closing + "}" + rest
        == lead + (name + (text + (more + closing + "}" + rest)));
  }

  /** What is left to read of an object whose next member is members[0], after the comma if there was one. */
  function MembersTail(members: seq<Member>, depth: nat, nl: bool, comma: bool, closing: string, rest: string): string
    requires members != []
  {
    Lead(depth, nl, comma)
    + (NameText(members[0].name) + (Text(members[0].value, depth, nl)
    + AfterMember(members[1..], depth, nl, closing, rest)))
  }

  function AfterMember(members: seq<Member>, depth: nat, nl: bool, closing: string, rest: string): string {
    MembersText(members, depth, nl, true) + closing + "}" + rest
  }

  lemma AfterMemberStarts(members: seq<Member>, depth: nat, nl: bool, closing: string, rest: string)
    requires AllWs(closing)
    ensures members == [] ==> AfterMember(members, depth, nl, closing, rest) == closing + ("}" + rest)
    ensures members != [] ==>
      AfterMember(members, depth, nl, closing, rest) == "," + MembersTail(members, depth, nl, true, closing, rest)
    ensures EndsNumber(AfterMember(members, depth, nl, closing, rest))
  {
    hide Text, Lead, NameText;
    if members != [] {
      var lead, name, text := Lead(depth, nl, true), NameText(members[0].name), Text(members[0].value, depth, nl);
      var more := MembersText(members[1..], depth, nl, true);
      assert MembersText(members, depth, nl, true) == "," + lead + name + text + more;
      Regroup6(",", lead, name, text, more, closing, "}" + rest);
      assert more + closing + "}" + rest == more + closing + ("}" + rest);
      assert MembersText(members, depth, nl, true) + closing + "}" + rest
          == ("," + lead + name + text + more) + closing + ("}" + rest);
    }
  }

  lemma Regroup6(a: string, b: string, c: string, d: string, e: string, f: string, g: string)
    ensures (a + b + c + d + e) + f + g == a + (b + (c + (d + (e + f + g))))
  {
  }

  lemma MembersHead(members: seq<Member>, depth: nat, nl: bool, comma: bool, closing: string, rest: string)
    requires members != []
    ensures MembersTail(members, depth, nl, comma, closing, rest)
      == Lead(depth, nl, comma) + (NameText(members[0].name) + (Text(members[0].value, depth, nl)
           + AfterMember(members[1..], depth, nl, closing, rest)))
    ensures EraseMembers(members) == [JMember(members[0].name, Erase(members[0].value))] + EraseMembers(members[1..])
    ensures EraseMembers([]) == []
    ensures WritableMembers(members) ==>
      CString(members[0].name) && Writable(members[0].value) && WritableMembers(members[1..])
  {
    hide Text, Erase, AfterMember, NameText;
  }

  lemma LastMember(s: string, member: JMember, closing: string, rest: string)
    requires AllWs(closing) && ParseMember(s) == Parse(member, closing + ("}" + rest))
    ensures ParseMembers(s) == Parse([member] + [], rest)
  {
    hide ParseMember, SkipWs;
    SkipsWs(closing, "}" + rest);
    assert ("}" + rest)[1..] == rest && [member] + [] == [member];
  }

  lemma MoreMembers(s: string, member: JMember, more: string, members: seq<JMember>, rest: string)
    requires ParseMember(s) == Parse(member, "," + more) && ParseMembers(more) == Parse(members, rest)
    ensures ParseMembers(s) == Parse([member] + members, rest)
  {
    hide ParseMember, SkipWs;
    SkipsWs("", "," + more);
    assert "" + ("," + more) == "," + more && ("," + more)[1..] == more;
  }

  lemma {:induction false} MembersParse(members: seq<Member>, depth: nat, nl: bool, comma: bool, closing: string,
                                        rest: string)
    requires members != [] && WritableMembers(members) && AllWs(closing)
    ensures ParseMembers(MembersTail(members, depth, nl, comma, closing, rest)) == Parse(EraseMembers(members), rest)
    ensures !FirstIs(SkipWs(MembersTail(members, depth, nl, comma, closing, rest)), '}')
    decreases members, 1
  {
    hide *;
    var others := members[1..];
    var tail := AfterMember(others, depth, nl, closing, rest);
    var s := MembersTail(members, depth, nl, comma, closing, rest);
    MembersHead(members, depth, nl, comma, closing, rest);
    LayoutIsWs(depth, nl, comma);
    AfterMemberStarts(others, depth, nl, closing, rest);
    MemberParses(members[0], depth, nl, Lead(depth, nl, comma), tail);
    var first := JMember(members[0].name, Erase(members[0].value));
    if others == [] {
      LastMember(s, first, closing, rest);
    } else {
      var more := MembersTail(others, depth, nl, true, closing, rest);
      MembersParse(others, depth, nl, true, closing, rest);
      MoreMembers(s, first, more, EraseMembers(others), rest);
    }
  }

  lemma {:induction false} MemberParses(m: Member, depth: nat, nl: bool, ws: string, tail: string)
    requires CString(m.name) && Writable(m.value) && AllWs(ws) && EndsNumber(tail)
    ensures
      var s := ws + (NameText(m.name) + (Text(m.value, depth, nl) + tail));
      && ParseMember(s) == Parse(JMember(m.name, Erase(m.value)), tail)
      && !FirstIs(SkipWs(s), '}')
    decreases m, 1
  {
    hide Text, EndsNumber, SkipWs, ParseValue, ParseChars, NameText;
    var body := Text(m.value, depth, nl) + tail;
    var quoted := Escape(m.name) + "\"" + (": " + body);
    NameSplits(m.name, body);
    SkipsWs(ws, "\"" + quoted);
    assert ("\"" + quoted)[1..] == quoted;
    EscapedStringParses(m.name, ": " + body);
    ColonSplits(Text(m.value, depth, nl), tail);
    ValueParses(m.value, depth, nl, " ", tail);
  }

  lemma NameSplits(name: string, body: string)
    ensures NameText(name) + body == "\"" + (Escape(name) + "\"" + (": " + body))
  {
    assert "\": " == "\"" + ": ";
  }

  lemma ColonSplits(text: string, tail: string)
    ensures SkipWs(": " + (text + tail)) == ": " + (text + tail)
    ensures (": " + (text + tail))[1..] == " " + text + tail
  {
  }

  /** The text of a whole document parses to the document, whatever the styles of its collections. */
  lemma DocumentRoundTrip(members: seq<Member>, style: Style)
    requires WritableMembers(members)
    ensures ParseText(DocumentText(members, style)) == Parse(JObject(EraseMembers(members)), "\n")
  {
    hide ParseValue, Text, SkipWs;
    assert "" + Text(Obj(members, style), 0, true) + "\n" == DocumentText(members, style);
    ValueParses(Obj(members, style), 0, true, "", "\n");
    NewlineSkipped();
  }

  lemma NewlineSkipped()
    ensures SkipWs("\n") == []
  {
    assert SkipWs("\n") == SkipWs("\n"[1..]);
  }

  /** Documents that print alike are alike, up to layout. */
  lemma PrintingIsInjective(a: seq<Member>, sa: Style, b: seq<Member>, sb: Style)
    requires WritableMembers(a) && WritableMembers(b) && DocumentText(a, sa) == DocumentText(b, sb)
    ensures EraseMembers(a) == EraseMembers(b)
  {
    DocumentRoundTrip(a, sa);
    DocumentRoundTrip(b, sb);
  }
}
