/** The regular expressions of read_file in config/check_spidermonkey_style.py, as functions on lines. */
module CppLines {
  import opened CppSnippets
  import opened CppTrees
  import opened Wrappers

  function SkipSpace(s: string): (r: string)
    ensures |r| <= |s| && r == s[|s| - |r|..]
    ensures r != "" ==> !IsSpaceChar(r[0])
  {
    if s != "" && IsSpaceChar(s[0]) then SkipSpace(s[1..]) else s
  }

  function UpTo(s: string, c: char): (r: string)
    ensures r <= s && c !in r
    ensures |r| < |s| ==> s[|r|] == c
  {
    if s == "" || s[0] == c then "" else [s[0]] + UpTo(s[1..], c)
  }

  predicate IsWordChar(c: char) {
    'a' <= c <= 'z' || 'A' <= c <= 'Z' || '0' <= c <= '9' || c == '_'
  }

  /** The word a text begins with; what \b ends is all of it. */
  function Word(s: string): string {
    if s != "" && IsWordChar(s[0]) then [s[0]] + Word(s[1..]) else ""
  }

  /** A name between quotes or angle brackets at the start of w, the end of the line. */
  function QuotedName(line: string, w: string, open: char, close: char): Option<LineKind>
    requires |w| <= |line|
  {
    if w == "" || w[0] != open then None
    else
      var name := UpTo(w[1..], close);
      if |name| == |w| - 1 then None
      else Some(IncludeLine(line[..|line| - |w|], name, UpTo(w[|name| + 2..], '\n'), open == '<'))
  }

  /** Both forms of #include, at what follows the # and white space. */
  function IncludeOf(line: string, u: string): Option<LineKind>
    requires |u| <= |line|
  {
    if !("include" <= u) || |SkipSpace(u[7..])| == |u[7..]| then None
    else
      var w := SkipSpace(u[7..]);
      if QuotedName(line, w, '"', '"').Some? then QuotedName(line, w, '"', '"') else QuotedName(line, w, '<', '>')
  }

  /** What an #include match is made of. */
  lemma IncludeMatch(line: string, u: string)
    requires |u| <= |line| && IncludeOf(line, u).Some?
    ensures "include" <= u && |SkipSpace(u[7..])| < |u[7..]| && SkipSpace(u[7..]) != ""
    ensures IncludeOf(line, u) == EitherName(line, SkipSpace(u[7..]))
  {
    hide SkipSpace;
  }

  lemma IncludeFrom(line: string, u: string, w: string)
    requires |u| <= |line| && "include" <= u && SkipSpace(u[7..]) == w && |w| < |u[7..]|
    ensures IncludeOf(line, u) == EitherName(line, w)
  {
    hide SkipSpace, QuotedName;
  }

  function EitherName(line: string, w: string): Option<LineKind>
    requires |w| <= |line|
  {
    if QuotedName(line, w, '"', '"').Some? then QuotedName(line, w, '"', '"') else QuotedName(line, w, '<', '>')
  }

  function Classify(line: string): LineKind {
    var t := SkipSpace(line);
    if t == "" || t[0] != '#' then OrdinaryLine
    else
      var u := SkipSpace(t[1..]);
      if IncludeOf(line, u).Some? then IncludeOf(line, u).value
      else DirectiveOf(Word(u))
  }

  function DirectiveOf(word: string): (r: LineKind)
    ensures !r.IncludeLine?
  {
    if word == "if" || word == "ifdef" || word == "ifndef" then OpenLine
    else if word == "elif" || word == "else" then ElseLine
    else if word == "endif" then EndifLine
    else OrdinaryLine
  }

  /** An #include line is its parts, with a newline that is always written but may be missing in the line. */
  ghost predicate Describes(line: string, kind: LineKind) {
    kind.IncludeLine? ==>
      line != "" &&
      if line[|line| - 1] == '\n' then line == AsInclude(kind, 0).ToSource()
      else line + "\n" == AsInclude(kind, 0).ToSource()
  }

  lemma Joined(line: string, prefix: string, quoted: string, rest: string, suffix: string, hasEnd: bool)
    requires line == prefix + (quoted + rest) && rest == if hasEnd then suffix + "\n" else suffix
    ensures (if hasEnd then line else line + "\n") == prefix + quoted + suffix + "\n"
  {
  }

  lemma QuotedParts(w: string, open: char, name: string, close: char)
    requires |name| + 2 <= |w| && w[0] == open && name <= w[1..] && w[|name| + 1] == close
    ensures w == [open] + name + [close] + w[|name| + 2..]
  {
  }

  lemma QuotedSource(kind: LineKind, open: char, close: char)
    requires (open == '<' && close == '>') || (open == '"' && close == '"')
    requires kind.IncludeLine? && kind.isSystem == (open == '<')
    ensures AsInclude(kind, 0).ToSource() == kind.prefix + ([open] + kind.inclname + [close]) + kind.suffix + "\n"
  {
  }

  /** What a match is made of. */
  lemma QuotedNameParts(line: string, w: string, open: char, close: char)
    requires |w| <= |line| && QuotedName(line, w, open, close).Some?
    ensures var name := UpTo(w[1..], close);
      && w != "" && |name| + 2 <= |w| && w[0] == open && name <= w[1..] && w[|name| + 1] == close
      && QuotedName(line, w, open, close).value
        == IncludeLine(line[..|line| - |w|], name, UpTo(w[|name| + 2..], '\n'), open == '<')
  {
    var name := UpTo(w[1..], close);
    assert w[1..][|name|] == close;
  }

  lemma FitsIf(line: string, kind: LineKind, source: string)
    requires kind.IncludeLine? ==> source == AsInclude(kind, 0).ToSource()
    requires line != "" && source == if line[|line| - 1] == '\n' then line else line + "\n"
    ensures Describes(line, kind)
  {
    hide AsInclude, Include.ToSource;
  }

  lemma QuotedNameFits(line: string, w: string, open: char, close: char)
    requires |w| <= |line| && w == line[|line| - |w|..] && IsLine(line)
    requires (open == '<' && close == '>') || (open == '"' && close == '"')
    requires QuotedName(line, w, open, close).Some?
    ensures Describes(line, QuotedName(line, w, open, close).value)
  {
    hide *;
    QuotedNameParts(line, w, open, close);
    var name := UpTo(w[1..], close);
    var rest := w[|name| + 2..];
    var prefix, suffix := line[..|line| - |w|], UpTo(rest, '\n');
    QuotedParts(w, open, name, close);
    assert line == prefix + w;
    UpToMeans(rest, '\n');
    EndOfLine(line, rest, suffix);
    Joined(line, prefix, [open] + name + [close], rest, suffix, line[|line| - 1] == '\n');
    var kind := IncludeLine(prefix, name, suffix, open == '<');
    QuotedSource(kind, open, close);
    FitsIf(line, kind, AsInclude(kind, 0).ToSource());
  }

  lemma UpToMeans(s: string, c: char)
    ensures UpTo(s, c) <= s && c !in UpTo(s, c) && (|UpTo(s, c)| < |s| ==> s[|UpTo(s, c)|] == c)
  {
  }

  lemma EndOfLine(line: string, rest: string, suffix: string)
    requires |rest| <= |line| - 2 && rest == line[|line| - |rest|..] && IsLine(line)
    requires suffix <= rest && '\n' !in suffix && (|suffix| < |rest| ==> rest[|suffix|] == '\n')
    requires rest == "" ==> line[|line| - 1] != '\n'
    ensures rest == if line[|line| - 1] == '\n' then suffix + "\n" else suffix
  {
    if |suffix| < |rest| {
      assert line[|line| - |rest| + |suffix|] == '\n';
      assert |suffix| == |rest| - 1;
      assert rest == suffix + [rest[|suffix|]];
    } else if rest != "" {
      assert line[|line| - 1] == rest[|rest| - 1] == suffix[|suffix| - 1];
    }
  }

  lemma IncludeFits(line: string, u: string)
    requires |u| <= |line| && u == line[|line| - |u|..] && IsLine(line)
    requires IncludeOf(line, u).Some?
    ensures Describes(line, IncludeOf(line, u).value)
  {
    hide QuotedName, Describes, SkipSpace, IsLine;
    var w := SkipSpace(u[7..]);
    Suffix(line, u, 7);
    Suffix(line, u[7..], |u| - 7 - |w|);
    if QuotedName(line, w, '"', '"').Some? {
      QuotedNameFits(line, w, '"', '"');
    } else {
      QuotedNameFits(line, w, '<', '>');
    }
  }

  lemma Suffix(line: string, u: string, k: nat)
    requires k <= |u| <= |line| && u == line[|line| - |u|..]
    ensures u[k..] == line[|line| - |u[k..]|..]
  {
  }

  lemma OthersFit(line: string)
    ensures forall kind: LineKind :: !kind.IncludeLine? ==> Describes(line, kind)
  {
  }

  lemma ClassifyFits(line: string)
    requires IsLine(line)
    ensures Describes(line, Classify(line))
  {
    hide IncludeOf, SkipSpace, IsLine, DirectiveOf, Describes;
    OthersFit(line);
    var t := SkipSpace(line);
    if t != "" && t[0] == '#' {
      var u := SkipSpace(t[1..]);
      Suffix(line, t, 1);
      Suffix(line, t[1..], |t| - 1 - |u|);
      if IncludeOf(line, u).Some? {
        IncludeFits(line, u);
      }
    }
  }

  /** So these classifications meet what the round trip asks for. */
  lemma ClassifyFaithful()
    ensures Faithful(Classify) && SuffixesStop(Classify)
  {
    hide Classify, AsInclude, Include.ToSource, IsLine;
    forall line | IsLine(line) ensures Describes(line, Classify(line)) {
      ClassifyFits(line);
    }
  }
}
