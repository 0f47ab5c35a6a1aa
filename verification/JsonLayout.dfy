/** What the output of mfbt/JSONWriter.h looks like, character by character. */
module JsonLayout {
  import opened Wrappers
  import opened JsonText

  // White space and separators ----------------------------------------------------------------------

  /** A newline and exactly this many blanks. */
  ghost predicate NewLine(s: string, blanks: nat) {
    |s| == 1 + blanks && s[0] == '\n' && forall i :: 1 <= i < |s| ==> s[i] == ' '
  }

  /**
   * What comes before an item of a collection: a comma unless it is the first; then a newline and as many blanks as it
   * is deep, or one blank behind the comma in single-line style.
   */
  ghost predicate IsGap(gap: string, first: bool, depth: nat, newlines: bool) {
    if newlines && first then NewLine(gap, depth)
    else if newlines then gap != "" && gap[0] == ',' && NewLine(gap[1..], depth)
    else gap == if first then "" else ", "
  }

  /** What comes before the closing bracket of a collection that itself is this deep. */
  ghost predicate IsEnding(ending: string, depth: nat, newlines: bool) {
    if newlines then NewLine(ending, depth) else ending == ""
  }

  // Numbers and strings -----------------------------------------------------------------------------

  ghost predicate IsDigit(c: char) {
    '0' <= c <= '9'
  }

  ghost function Value(digits: string): int {
    if digits == "" then 0 else 10 * Value(digits[..|digits| - 1]) + (digits[|digits| - 1] as int - '0' as int)
  }

  ghost predicate IsDecimal(text: string, n: nat) {
    && text != "" && (forall i :: 0 <= i < |text| ==> IsDigit(text[i])) && Value(text) == n
    && (text[0] == '0' ==> text == "0")
  }

  ghost predicate IsInteger(text: string, i: int) {
    if i >= 0 then IsDecimal(text, i) else text != "" && text[0] == '-' && IsDecimal(text[1..], -i)
  }

  /** A digit of a hexadecimal number, with small letters. */
  ghost predicate IsHexDigit(c: char, n: nat) {
    n < 16 && c as int == if n < 10 then '0' as int + n else 'a' as int + n - 10
  }

  /** The escapes of control characters, the quote and the backslash; other bytes are written as they are. */
  ghost predicate IsEscaped(text: string, u: char) {
    if u == '"' then text == "\\\""
    else if u == '\\' then text == "\\\\"
    else if u as int == 8 then text == "\\b"
    else if u as int == 9 then text == "\\t"
    else if u as int == 10 then text == "\\n"
    else if u as int == 12 then text == "\\f"
    else if u as int == 13 then text == "\\r"
    else if u as int < 32 then
      |text| == 6 && text[..4] == "\\u00" && IsHexDigit(text[4], u as int / 16) && IsHexDigit(text[5], u as int % 16)
    else text == [u]
  }

  ghost predicate AreEscaped(text: string, s: string)
    decreases s
  {
    if s == "" then text == ""
    else exists first, rest :: text == first + rest && IsEscaped(first, s[0]) && AreEscaped(rest, s[1..])
  }

  ghost predicate IsQuoted(text: string, s: string) {
    |text| >= 2 && text[0] == '"' && text[|text| - 1] == '"' && AreEscaped(text[1..|text| - 1], s)
  }

  // Documents ---------------------------------------------------------------------------------------

  /** d, at this depth, inside collections that are all in multi-line style, or not. */
  ghost predicate IsText(text: string, d: Doc, depth: nat, newlines: bool)
    decreases d, 0
  {
    match d
    case Null => text == "null"
    case Bool(b) => text == if b then "true" else "false"
    case Int(i) => IsInteger(text, i)
    case Str(s) => IsQuoted(text, s)
    case Arr(items, style) =>
      var nl := newlines && style == MultiLine;
      exists inner, ending ::
        text == "[" + inner + ending + "]" && AreItems(inner, items, depth + 1, nl, true) && IsEnding(ending, depth, nl)
    case Obj(members, style) =>
      var nl := newlines && style == MultiLine;
      exists inner, ending ::
        text == "{" + inner + ending + "}" && AreMembers(inner, members, depth + 1, nl, true)
        && IsEnding(ending, depth, nl)
  }

  ghost predicate AreItems(text: string, items: seq<Doc>, depth: nat, newlines: bool, first: bool)
    decreases items, 1
  {
    if items == [] then text == ""
    else exists gap, item, rest ::
      && text == gap + item + rest && IsGap(gap, first, depth, newlines)
      && IsText(item, items[0], depth, newlines) && AreItems(rest, items[1..], depth, newlines, false)
  }

  ghost predicate AreMembers(text: string, members: seq<Member>, depth: nat, newlines: bool, first: bool)
    decreases members, 1
  {
    if members == [] then text == ""
    else exists gap, name, value, rest ::
      && text == gap + name + ": " + value + rest && IsGap(gap, first, depth, newlines)
      && IsQuoted(name, members[0].name) && IsText(value, members[0].value, depth, newlines)
      && AreMembers(rest, members[1..], depth, newlines, false)
  }

  /** A whole document ends in a newline. */
  ghost predicate IsDocument(output: string, members: seq<Member>, style: Style) {
    output != "" && output[|output| - 1] == '\n' && IsText(output[..|output| - 1], Obj(members, style), 0, true)
  }

  // What is printed looks like this -----------------------------------------------------------------

  lemma {:induction false} SpacesBlank(n: nat)
    ensures |Spaces(n)| == n && forall i :: 0 <= i < n ==> Spaces(n)[i] == ' '
  {
    if n > 0 {
      SpacesBlank(n - 1);
    }
  }

  lemma SpacedLine(depth: nat)
    ensures NewLine("\n" + Spaces(depth), depth)
  {
    hide Spaces;
    SpacesBlank(depth);
  }

  lemma SepIsGap(depth: nat, newlines: bool, comma: bool)
    ensures IsGap(Sep(depth, newlines, comma), !comma, depth, depth > 0 && newlines)
  {
    hide Spaces, NewLine;
    SpacedLine(depth);
    assert "," + " " == ", " && "" + "" == "";
    assert "" + ("\n" + Spaces(depth)) == "\n" + Spaces(depth);
    assert ("," + ("\n" + Spaces(depth)))[1..] == "\n" + Spaces(depth);
  }

  lemma ClosingIsEnding(depth: nat, newlines: bool)
    ensures IsEnding(Closing(depth, newlines), depth, newlines)
  {
    hide Spaces, NewLine;
    SpacedLine(depth);
  }

  lemma {:induction false} DecimalIs(n: nat)
    ensures IsDecimal(Decimal(n), n) && (n > 0 ==> Decimal(n)[0] != '0')
  {
    if n >= 10 {
      var front := Decimal(n / 10);
      DecimalIs(n / 10);
      assert Decimal(n) == front + [Digit(n % 10)];
      assert Decimal(n)[..|front|] == front;
    } else {
      assert [Digit(n)][..0] == "";
    }
  }

  lemma IntTextIs(i: int)
    ensures IsInteger(IntText(i), i)
  {
    hide Decimal, IsDecimal;
    if i >= 0 {
      DecimalIs(i);
    } else {
      DecimalIs(-i);
      assert ("-" + Decimal(-i))[1..] == Decimal(-i);
    }
  }

  lemma EscapeCharIs(u: char)
    ensures IsEscaped(EscapeChar(u), u)
  {
  }

  lemma {:induction false} EscapeIs(s: string)
    ensures AreEscaped(Escape(s), s)
  {
    hide EscapeChar, IsEscaped;
    if s != "" {
      EscapeCharIs(s[0]);
      EscapeIs(s[1..]);
      assert Escape(s) == EscapeChar(s[0]) + Escape(s[1..]);
    }
  }

  lemma QuoteIs(s: string)
    ensures IsQuoted("\"" + Escape(s) + "\"", s)
  {
    hide Escape, AreEscaped;
    var text := "\"" + Escape(s) + "\"";
    EscapeIs(s);
    assert text[1..|text| - 1] == Escape(s);
  }

  lemma ArrayIf(text: string, inner: string, ending: string, items: seq<Doc>, style: Style, depth: nat, newlines: bool)
    requires var nl := newlines && style == MultiLine;
      text == "[" + inner + ending + "]" && AreItems(inner, items, depth + 1, nl, true) && IsEnding(ending, depth, nl)
    ensures IsText(text, Arr(items, style), depth, newlines)
  {
    hide AreItems, IsEnding;
  }

  lemma ObjectIf(text: string, inner: string, ending: string, members: seq<Member>, style: Style, depth: nat,
                 newlines: bool)
    requires var nl := newlines && style == MultiLine;
      && text == "{" + inner + ending + "}" && AreMembers(inner, members, depth + 1, nl, true)
      && IsEnding(ending, depth, nl)
    ensures IsText(text, Obj(members, style), depth, newlines)
  {
    hide AreMembers, IsEnding;
  }

  /** The text of any document, at any depth and in any style, is laid out like this. */
  lemma {:induction false} TextLaidOut(d: Doc, depth: nat, newlines: bool)
    ensures IsText(Text(d, depth, newlines), d, depth, newlines)
    decreases d, 0
  {
    hide IsInteger, IntText, IsQuoted, Escape, Closing, ItemsText, MembersText, AreItems, AreMembers;
    match d
    case Null =>
    case Bool(b) =>
    case Int(i) => IntTextIs(i);
    case Str(s) => QuoteIs(s);
    case Arr(items, style) =>
      var nl := newlines && style == MultiLine;
      ItemsLaidOut(items, depth + 1, nl, false);
      ClosingIsEnding(depth, nl);
      ArrayIf(Text(d, depth, newlines), ItemsText(items, depth + 1, nl, false), Closing(depth, nl), items, style, depth,
              newlines);
    case Obj(members, style) =>
      var nl := newlines && style == MultiLine;
      MembersLaidOut(members, depth + 1, nl, false);
      ClosingIsEnding(depth, nl);
      ObjectIf(Text(d, depth, newlines), MembersText(members, depth + 1, nl, false), Closing(depth, nl), members, style,
               depth, newlines);
  }

  lemma {:induction false} ItemsLaidOut(items: seq<Doc>, depth: nat, newlines: bool, comma: bool)
    requires depth > 0
    ensures AreItems(ItemsText(items, depth, newlines, comma), items, depth, newlines, !comma)
    decreases items, 1
  {
    hide IsText, Text, IsGap, Sep;
    if items != [] {
      SepIsGap(depth, newlines, comma);
      TextLaidOut(items[0], depth, newlines);
      ItemsLaidOut(items[1..], depth, newlines, true);
      ItemsIf(ItemsText(items, depth, newlines, comma), Sep(depth, newlines, comma), Text(items[0], depth, newlines),
              ItemsText(items[1..], depth, newlines, true), items, depth, newlines, !comma);
    }
  }

  lemma ItemsIf(text: string, gap: string, item: string, rest: string, items: seq<Doc>, depth: nat, newlines: bool,
                first: bool)
    requires items != [] && text == gap + item + rest && IsGap(gap, first, depth, newlines)
    requires IsText(item, items[0], depth, newlines) && AreItems(rest, items[1..], depth, newlines, false)
    ensures AreItems(text, items, depth, newlines, first)
  {
    hide IsText, IsGap;
  }

  lemma {:induction false} MembersLaidOut(members: seq<Member>, depth: nat, newlines: bool, comma: bool)
    requires depth > 0
    ensures AreMembers(MembersText(members, depth, newlines, comma), members, depth, newlines, !comma)
    decreases members, 1
  {
    hide IsText, Text, IsGap, Sep, NameText, IsQuoted;
    if members != [] {
      SepIsGap(depth, newlines, comma);
      var name, value := members[0].name, members[0].value;
      QuoteIs(name);
      TextLaidOut(value, depth, newlines);
      MembersLaidOut(members[1..], depth, newlines, true);
      var gap, quoted := Sep(depth, newlines, comma), "\"" + Escape(name) + "\"";
      NameIsQuoted(name);
      MemberJoined(gap, quoted, Text(value, depth, newlines), MembersText(members[1..], depth, newlines, true));
      MembersIf(MembersText(members, depth, newlines, comma), gap, quoted, Text(value, depth, newlines),
                MembersText(members[1..], depth, newlines, true), members, depth, newlines, !comma);
    }
  }

  lemma NameIsQuoted(name: string)
    ensures NameText(name) == ("\"" + Escape(name) + "\"") + ": "
  {
    hide Escape;
  }

  lemma MemberJoined(gap: string, quoted: string, value: string, rest: string)
    ensures gap + (quoted + ": ") + value + rest == gap + quoted + ": " + value + rest
  {
  }

  lemma MembersIf(text: string, gap: string, name: string, value: string, rest: string, members: seq<Member>,
                  depth: nat, newlines: bool, first: bool)
    requires members != [] && text == gap + name + ": " + value + rest && IsGap(gap, first, depth, newlines)
    requires IsQuoted(name, members[0].name) && IsText(value, members[0].value, depth, newlines)
    requires AreMembers(rest, members[1..], depth, newlines, false)
    ensures AreMembers(text, members, depth, newlines, first)
  {
    hide IsText, IsGap, IsQuoted;
  }

  // Single-line style -------------------------------------------------------------------------------

  lemma {:induction false} NoNewlineInside(text: string, s: string)
    requires AreEscaped(text, s)
    ensures '\n' !in text
    decreases s
  {
    hide IsEscaped;
    if s != "" {
      var first, rest :| text == first + rest && IsEscaped(first, s[0]) && AreEscaped(rest, s[1..]);
      NoNewlineInside(rest, s[1..]);
      NoNewlineEscaped(first, s[0]);
    }
  }

  lemma NoNewlineEscaped(text: string, u: char)
    requires IsEscaped(text, u)
    ensures '\n' !in text
  {
    if u as int < 32 && |text| == 6 {
      assert text == text[..4] + text[4..];
    }
  }

  lemma NoNewlineQuoted(text: string, s: string)
    requires IsQuoted(text, s)
    ensures '\n' !in text
  {
    hide AreEscaped;
    NoNewlineInside(text[1..|text| - 1], s);
    assert text == ["\""[0]] + text[1..|text| - 1] + ["\""[0]];
  }

  lemma NoNewlineInteger(text: string, i: int)
    requires IsInteger(text, i)
    ensures '\n' !in text
  {
    hide Value;
  }

  /** Inside a collection in single-line style, no line ends, whatever styles are nested in it. */
  lemma {:induction false} OneLine(text: string, d: Doc, depth: nat)
    requires IsText(text, d, depth, false)
    ensures '\n' !in text
    decreases d, 0
  {
    hide IsInteger, IsQuoted, AreItems, AreMembers;
    match d
    case Null =>
    case Bool(b) =>
    case Int(i) => NoNewlineInteger(text, i);
    case Str(s) => NoNewlineQuoted(text, s);
    case Arr(items, _) =>
      var inner, ending :| text == "[" + inner + ending + "]" && AreItems(inner, items, depth + 1, false, true)
                           && IsEnding(ending, depth, false);
      ItemsOnOneLine(inner, items, depth + 1, true);
    case Obj(members, _) =>
      var inner, ending :| text == "{" + inner + ending + "}" && AreMembers(inner, members, depth + 1, false, true)
                           && IsEnding(ending, depth, false);
      MembersOnOneLine(inner, members, depth + 1, true);
  }

  lemma {:induction false} ItemsOnOneLine(text: string, items: seq<Doc>, depth: nat, first: bool)
    requires AreItems(text, items, depth, false, first)
    ensures '\n' !in text
    decreases items, 1
  {
    hide IsText;
    if items != [] {
      var gap, item, rest :|
        && text == gap + item + rest && IsGap(gap, first, depth, false)
        && IsText(item, items[0], depth, false) && AreItems(rest, items[1..], depth, false, false);
      OneLine(item, items[0], depth);
      ItemsOnOneLine(rest, items[1..], depth, false);
    }
  }

  lemma {:induction false} MembersOnOneLine(text: string, members: seq<Member>, depth: nat, first: bool)
    requires AreMembers(text, members, depth, false, first)
    ensures '\n' !in text
    decreases members, 1
  {
    hide IsText, IsQuoted;
    if members != [] {
      var gap, name, value, rest :|
        && text == gap + name + ": " + value + rest && IsGap(gap, first, depth, false)
        && IsQuoted(name, members[0].name) && IsText(value, members[0].value, depth, false)
        && AreMembers(rest, members[1..], depth, false, false);
      NoNewlineQuoted(name, members[0].name);
      OneLine(value, members[0].value, depth);
      MembersOnOneLine(rest, members[1..], depth, false);
    }
  }
}
