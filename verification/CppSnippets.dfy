/** The snippet trees of config/check_spidermonkey_style.py and their source text. */
module CppSnippets {
  datatype Include = Include(prefix: string, inclname: string, suffix: string, linenum: nat, isSystem: bool) {
    function Quote(): string {
      if isSystem then "<" + inclname + ">" else "\"" + inclname + "\""
    }

    function ToSource(): string {
      prefix + Quote() + suffix + "\n"
    }
  }

  /** White space, over the ASCII range. */
  predicate IsSpaceChar(c: char) {
    c == ' ' || 9 <= c as int <= 13 || 28 <= c as int <= 31
  }

  datatype Snippet =
    | Inc(inc: Include)
    | Code(lines: seq<string>)
    | Block(start: string, kids: seq<Snippet>, end: string)

  function Concat(lines: seq<string>): string {
    if lines == [] then "" else lines[0] + Concat(lines[1..])
  }

  lemma {:induction false} ConcatSplits(a: seq<string>, b: seq<string>)
    ensures Concat(a + b) == Concat(a) + Concat(b)
  {
    if a == [] {
      assert a + b == b;
    } else {
      assert (a + b)[1..] == a[1..] + b;
      ConcatSplits(a[1..], b);
    }
  }

  lemma ConcatSnoc(a: seq<string>, line: string)
    ensures Concat(a + [line]) == Concat(a) + line
  {
    ConcatSplits(a, [line]);
    assert Concat([line]) == line + Concat([]);
  }

  function ToSource(s: Snippet): string {
    match s
    case Inc(inc) => inc.ToSource()
    case Code(lines) => Concat(lines)
    case Block(start, kids, end) => start + KidsSource(kids) + end
  }

  function KidsSource(kids: seq<Snippet>): string {
    if kids == [] then "" else ToSource(kids[0]) + KidsSource(kids[1..])
  }

  lemma {:induction false} KidsSplit(a: seq<Snippet>, b: seq<Snippet>)
    ensures KidsSource(a + b) == KidsSource(a) + KidsSource(b)
  {
    if a == [] {
      assert a + b == b;
    } else {
      assert (a + b)[1..] == a[1..] + b;
      KidsSplit(a[1..], b);
    }
  }

  lemma KidsSnoc(kids: seq<Snippet>, kid: Snippet)
    ensures KidsSource(kids + [kid]) == KidsSource(kids) + ToSource(kid)
  {
    KidsSplit(kids, [kid]);
    assert KidsSource([kid]) == ToSource(kid) + KidsSource([]);
  }
}
