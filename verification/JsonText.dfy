/** The text mfbt/JSONWriter.h prints for a document: escaping, decimals, separators and indentation. */
module JsonText {
  import opened Wrappers

  /** Byte strings without NUL, as C strings hold them. */
  ghost predicate CString(s: string) {
    forall i :: 0 <= i < |s| ==> 0 < s[i] as int < 256
  }

  // Escaping ----------------------------------------------------------------------------------------

  const NO_ESCAPE: char := 0 as char

  /** gTwoCharEscapes: the second character of a two-character escape, or NUL. */
  function TwoCharEscape(u: char): char {
    var code := u as int;
    if code == 8 then 'b'
    else if code == 9 then 't'
    else if code == 10 then 'n'
    else if code == 12 then 'f'
    else if code == 13 then 'r'
    else if code == 34 then '\"'
    else if code == 92 then '\\'
    else NO_ESCAPE
  }

  function HexDigit(u: nat): char {
    var low := u % 16;
    if low < 10 then ('0' as int + low) as char else ('a' as int + (low - 10)) as char
  }

  /** The escaped form of one byte. */
  function EscapeChar(u: char): string {
    if TwoCharEscape(u) != NO_ESCAPE then ['\\', TwoCharEscape(u)]
    else if u as int <= 0x1f then ['\\', 'u', '0', '0', HexDigit(u as int / 16), HexDigit(u as int)]
    else [u]
  }

  function Escape(s: string): string {
    if s == [] then [] else EscapeChar(s[0]) + Escape(s[1..])
  }

  lemma {:induction false} EscapeAppend(s: string, u: char)
    ensures Escape(s + [u]) == Escape(s) + EscapeChar(u)
  {
    if s == [] {
      assert s + [u] == [u];
      assert Escape([u]) == EscapeChar(u) + Escape([]);
    } else {
      assert (s + [u])[1..] == s[1..] + [u];
      EscapeAppend(s[1..], u);
    }
  }

  // Decimal numbers ---------------------------------------------------------------------------------

  function Digit(n: nat): char
    requires n < 10
  {
    ('0' as int + n) as char
  }

  function Decimal(n: nat): (s: string)
    ensures s != []
  {
    if n < 10 then [Digit(n)] else Decimal(n / 10) + [Digit(n % 10)]
  }

  /** "%" PRId64. */
  function IntText(i: int): string {
    if i < 0 then "-" + Decimal(-i) else Decimal(i)
  }

  // Documents ---------------------------------------------------------------------------------------

  datatype Style = MultiLine | SingleLine

  datatype Doc =
    | Null
    | Bool(b: bool)
    | Int(i: int)
    | Str(s: string)
    | Arr(items: seq<Doc>, style: Style)
    | Obj(members: seq<Member>, style: Style)

  datatype Member = Member(name: string, value: Doc)

  /** What the writer's interface admits: 64-bit integers and C strings. */
  ghost predicate Writable(d: Doc) {
    match d
    case Null => true
    case Bool(_) => true
    case Int(i) => -0x8000_0000_0000_0000 <= i < 0x8000_0000_0000_0000
    case Str(s) => CString(s)
    case Arr(items, _) => WritableItems(items)
    case Obj(members, _) => WritableMembers(members)
  }

  ghost predicate WritableItems(items: seq<Doc>) {
    forall i :: 0 <= i < |items| ==> Writable(items[i])
  }

  ghost predicate WritableMembers(members: seq<Member>) {
    forall i :: 0 <= i < |members| ==> CString(members[i].name) && Writable(members[i].value)
  }

  function Spaces(n: nat): string {
    if n == 0 then "" else " " + Spaces(n - 1)
  }

  /** The white space before an item at the given depth. */
  function Lead(depth: nat, newlines: bool, comma: bool): string {
    if depth > 0 && newlines then "\n" + Spaces(depth) else if comma then " " else ""
  }

  /** All that comes before an item: a comma, unless it is the first, and white space. */
  function Sep(depth: nat, newlines: bool, comma: bool): string {
    (if comma then "," else "") + Lead(depth, newlines, comma)
  }

  function NameText(name: string): string {
    "\"" + Escape(name) + "\": "
  }

  function MaybeName(name: Option<string>): string {
    match name
    case None => ""
    case Some(n) => NameText(n)
  }

  /** What comes before the closing bracket of a collection that stands at the given depth. */
  function Closing(depth: nat, newlines: bool): string {
    if newlines then "\n" + Spaces(depth) else ""
  }

  /** The text of d as an item at the given depth, inside a collection that uses newlines or not. */
  function Text(d: Doc, depth: nat, newlines: bool): string {
    match d
    case Null => "null"
    case Bool(b) => if b then "true" else "false"
    case Int(i) => IntText(i)
    case Str(s) => "\"" + Escape(s) + "\""
    case Arr(items, style) =>
      var nl := newlines && style == MultiLine;
      "[" + ItemsText(items, depth + 1, nl, false) + Closing(depth, nl) + "]"
    case Obj(members, style) =>
      var nl := newlines && style == MultiLine;
      "{" + MembersText(members, depth + 1, nl, false) + Closing(depth, nl) + "}"
  }

  function ItemsText(items: seq<Doc>, depth: nat, newlines: bool, comma: bool): string {
    if items == [] then ""
    else Sep(depth, newlines, comma) + Text(items[0], depth, newlines) + ItemsText(items[1..], depth, newlines, true)
  }

  function MembersText(members: seq<Member>, depth: nat, newlines: bool, comma: bool): string {
    if members == [] then ""
    else
      Sep(depth, newlines, comma) + NameText(members[0].name) + Text(members[0].value, depth, newlines)
      + MembersText(members[1..], depth, newlines, true)
  }
}
