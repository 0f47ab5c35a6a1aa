/**
 * read_file, to_source and --fixup of config/check_spidermonkey_style.py with the regular expressions and the sort keys
 * of the source.
 */
module CppFiles {
  import opened Wrappers
  import opened CppSnippets
  import opened CppBlocks
  import opened CppTrees
  import opened CppReader
  import opened CppGrammar
  import opened CppLines
  import opened CppDirectives
  import opened CppShapes
  import opened CppSorter
  import opened CppKeys
  import opened CppFixup
  import opened CppOrder

  // A newline after an #include line changes nothing --------------------------------------------------

  lemma {:induction false} SkipSpaceLonger(s: string, c: char)
    requires SkipSpace(s) != ""
    ensures SkipSpace(s + [c]) == SkipSpace(s) + [c]
  {
    assert (s + [c])[0] == s[0] && (s + [c])[1..] == s[1..] + [c];
    if IsSpaceChar(s[0]) {
      SkipSpaceLonger(s[1..], c);
    }
  }

  lemma {:induction false} UpToLonger(s: string, c: char, d: char)
    requires |UpTo(s, c)| < |s|
    ensures UpTo(s + [d], c) == UpTo(s, c)
  {
    assert (s + [d])[0] == s[0] && (s + [d])[1..] == s[1..] + [d];
    if s[0] != c {
      UpToLonger(s[1..], c, d);
    }
  }

  lemma QuotedNameLonger(line: string, w: string, open: char, close: char)
    requires |w| <= |line| && w == line[|line| - |w|..] && '\n' !in line && QuotedName(line, w, open, close).Some?
    ensures QuotedName(line + "\n", w + "\n", open, close) == QuotedName(line, w, open, close)
  {
    hide UpTo;
    var name := UpTo(w[1..], close);
    QuotedNameParts(line, w, open, close);
    assert (w + "\n")[1..] == w[1..] + ['\n'];
    UpToLonger(w[1..], close, '\n');
    var rest := w[|name| + 2..];
    assert (w + "\n")[|name| + 2..] == rest + ['\n'];
    assert '\n' !in rest by { assert forall i :: 0 <= i < |w| ==> w[i] == line[|line| - |w| + i]; }
    UpToIs(rest, '\n', "");
    UpToIs(rest, '\n', "\n");
    assert rest + "" == rest;
    assert (line + "\n")[..|line + "\n"| - |w + "\n"|] == line[..|line| - |w|];
  }

  lemma EitherNameLonger(line: string, w: string)
    requires |w| <= |line| && w == line[|line| - |w|..] && '\n' !in line && EitherName(line, w).Some?
    ensures EitherName(line + "\n", w + "\n") == EitherName(line, w)
  {
    hide QuotedName;
    if QuotedName(line, w, '"', '"').Some? {
      QuotedNameLonger(line, w, '"', '"');
    } else {
      QuotedNameLonger(line, w, '<', '>');
      NoQuote(line, w);
    }
  }

  lemma IncludeLonger(line: string, u: string)
    requires |u| <= |line| && u == line[|line| - |u|..] && '\n' !in line && IncludeOf(line, u).Some?
    ensures IncludeOf(line + "\n", u + "\n") == IncludeOf(line, u)
  {
    hide *;
    IncludeMatch(line, u);
    var w := SkipSpace(u[7..]);
    Suffix(line, u, 7);
    Suffix(line, u[7..], |u| - 7 - |w|);
    assert u[7..][|u| - 7 - |w|..] == w;
    EitherNameLonger(line, w);
    Longer(u, "include");
    SkipSpaceLonger(u[7..], '\n');
    IncludeFrom(line + "\n", u + "\n", w + "\n");
  }

  lemma Longer(u: string, front: string)
    requires front <= u
    ensures front <= u + "\n" && (u + "\n")[|front|..] == u[|front|..] + ['\n']
  {
  }

  lemma NoQuote(line: string, w: string)
    requires |w| <= |line| && QuotedName(line, w, '<', '>').Some?
    ensures QuotedName(line + "\n", w + "\n", '"', '"') == None
  {
    assert (w + "\n")[0] == w[0];
  }

  /** What comes before the directive of an #include line. */
  lemma HashParts(line: string)
    requires Classify(line).IncludeLine?
    ensures var t := SkipSpace(line);
      && t != "" && t[0] == '#' && SkipSpace(t[1..]) != ""
      && |SkipSpace(t[1..])| <= |line| && IncludeOf(line, SkipSpace(t[1..])) == Some(Classify(line))
  {
    hide SkipSpace;
  }

  lemma HashFrom(line: string, t: string, u: string)
    requires SkipSpace(line) == t && t != "" && t[0] == '#' && SkipSpace(t[1..]) == u && |u| <= |line|
    ensures IncludeOf(line, u).Some? ==> Classify(line) == IncludeOf(line, u).value
  {
    hide SkipSpace, IncludeOf;
  }

  lemma ClassifyLonger(line: string)
    requires '\n' !in line && Classify(line).IncludeLine?
    ensures Classify(line + "\n") == Classify(line)
  {
    hide *;
    HashParts(line);
    var t := SkipSpace(line);
    var u := SkipSpace(t[1..]);
    assert t == line[|line| - |t|..] && u == t[1..][|t| - 1 - |u|..];
    Suffix(line, t, 1);
    Suffix(line, t[1..], |t| - 1 - |u|);
    SkipSpaceLonger(line, '\n');
    assert (t + ['\n'])[0] == '#' && (t + ['\n'])[1..] == t[1..] + ['\n'];
    SkipSpaceLonger(t[1..], '\n');
    IncludeLonger(line, u);
    HashFrom(line + "\n", t + "\n", u + "\n");
  }

  lemma ClassifyRereads(line: string)
    requires line != "" && IsLine(line)
    ensures Rereads(Classify, line)
  {
    hide Classify, AsInclude, Include.ToSource;
    ClassifyFits(line);
    if Classify(line).IncludeLine? && line[|line| - 1] != '\n' {
      ClassifyLonger(line);
    }
  }

  lemma NewlineIsCode()
    ensures Classify("\n").OrdinaryLine?
  {
    assert SkipSpace("\n"[1..]) == "";
  }

  lemma ClassifyRegular()
    ensures Regular(Classify)
  {
    hide Classify, Rereads, Faithful, SuffixesStop;
    ClassifyFaithful();
    NewlineIsCode();
    forall line | line != "" && IsLine(line) ensures Rereads(Classify, line) {
      ClassifyRereads(line);
    }
  }

  lemma StyleNumberFree(enclosing: string)
    ensures NumberFree(StyleOf(enclosing))
  {
    forall a: Include, b: Include | a.(linenum := 0) == b.(linenum := 0)
      ensures StyleOf(enclosing).key(a) == StyleOf(enclosing).key(b)
    {
      assert a == b.(linenum := a.linenum);
    }
  }

  // read_file, then to_source --------------------------------------------------------------------------

  /** Every #include line ends in a newline. (Only the last line of a file can fail to.) */
  ghost predicate IncludesEnd(lines: seq<string>) {
    forall i :: 0 <= i < |lines| && IsInclude(lines[i]) ==> lines[i] != "" && lines[i][|lines[i]| - 1] == '\n'
  }

  lemma IncludesEndIff(lines: seq<string>)
    ensures IncludesEnd(lines) <==> IncludesEndInNewline(Classify, lines)
  {
    hide Classify, IsInclude;
    forall i | 0 <= i < |lines| ensures IsInclude(lines[i]) <==> Classify(lines[i]).IncludeLine? {
      IncludeIff(lines[i]);
    }
  }

  /** The lines of a file are read and written. */
  method ReadAndWriteSource(lines: seq<string>) returns (r: Result<string, ReadFailure>)
    requires AreLines(lines)
    ensures r.Ok? <==> Nested(lines, 0)
    ensures r.Ok? ==> (r.value == Concat(lines) <==> IncludesEnd(lines))
    ensures r.Err? ==> Unreadable(lines, r.error)
  {
    hide *;
    ClassifyFaithful();
    BalancedIsNested(lines, 0);
    IncludesEndIff(lines);
    r := ReadAndWrite(Classify, lines);
    if r.Err? {
      UnreadableIff(lines, r.error);
    }
  }

  /** A file of one #include line without a newline is read, and written out one character longer. */
  method RoundTripFails(line: string) returns (text: string)
    requires IsInclude(line) && '\n' !in line
    ensures text == line + "\n"
  {
    hide *;
    IncludeIff(line);
    OneLine(Classify, line);
    TreeIffBalanced(Classify, [line]);
    TreeText(Classify, [line]);
    var block, m, n := ReadFile(Classify, [line]);
    text := BlockToSource(block.value, m, n);
    LineLonger(line);
  }

  lemma LineLonger(line: string)
    requires Classify(line).IncludeLine? && '\n' !in line
    ensures LineText(Classify(line), line) == line + "\n"
  {
    hide Classify, AsInclude, Include.ToSource;
    ClassifyFits(line);
  }

  lemma OneLine(classify: Classifier, line: string)
    requires classify(line).IncludeLine?
    ensures Balanced(classify, [line], 0) && NormalizedText(classify, [line]) == LineText(classify(line), line)
  {
    assert [line][1..] == [];
    assert LineText(classify(line), line) + NormalizedText(classify, []) == LineText(classify(line), line);
  }

  // --fixup -----------------------------------------------------------------------------------------

  /** A file that --fixup has written is written again with the same text by --fixup. */
  lemma FixupIdempotent(enclosing: string, lines: seq<string>)
    requires FileLines(lines) && FixedUp(Classify, StyleOf(enclosing), lines).Some?
    ensures
      var text := FixedUp(Classify, StyleOf(enclosing), lines).value;
      FixedUp(Classify, StyleOf(enclosing), SplitLines(text)) == Some(text)
  {
    hide *;
    ClassifyRegular();
    StyleNumberFree(enclosing);
    FixupTwice(Classify, StyleOf(enclosing), lines);
  }

  /** The tree of the file, with its includes in order. */
  ghost predicate SortedFile(enclosing: string, lines: seq<string>, sorted: Snippet) {
    FileTree(Classify, lines).Some? && SortedAs(enclosing, FileTree(Classify, lines).value, sorted)
  }

  /** Why --fixup did not write a file. */
  datatype FixupFailure = CannotRead(failure: ReadFailure) | CannotSort

  /** What --fixup does with one file. */
  method Fixup(enclosing: string, lines: seq<string>) returns (r: Result<string, FixupFailure>)
    ensures r.Ok? <==> FixedUp(Classify, StyleOf(enclosing), lines).Some?
    ensures r.Ok? ==> FixedUp(Classify, StyleOf(enclosing), lines) == Some(r.value)
    ensures r.Err? && r.error.CannotRead? <==> !Nested(lines, 0)
    ensures r.Err? && r.error.CannotRead? ==> Unreadable(lines, r.error.failure)
    ensures r.Ok? ==> exists tree :: SortedFile(enclosing, lines, tree) && r.value == ToSource(tree)
    ensures r.Err? && r.error.CannotSort? <==>
      FileTree(Classify, lines).Some? && HasClash(enclosing, FileTree(Classify, lines).value)
  {
    hide Classify, StyleOf, FileTree, SortedSnippet, SortableSnippet, TreeOf, Balanced, Nested, Unreadable, FailsBy;
    hide HasClash, SortedAs;
    var block, m, n := ReadFile(Classify, lines);
    TreeIffBalanced(Classify, lines);
    BalancedIsNested(lines, 0);
    match block
    case Err(failure) =>
      UnreadableIff(lines, failure);
      r := Err(CannotRead(failure));
    case Ok(b) =>
      var tree := BlockToTree(b, m, n);
      HasClashIff(enclosing, tree);
      var sorted := SortBlock(StyleOf(enclosing), tree);
      match sorted
      case Err(_) =>
        r := Err(CannotSort);
      case Ok(s) =>
        SnippetIsSorted(enclosing, tree);
        r := Ok(ToSource(s));
  }

  /** --fixup twice. */
  method FixupTwiceOver(enclosing: string, lines: seq<string>) returns (r: Result<string, FixupFailure>)
    requires FileLines(lines)
    ensures r.Ok? <==> FixedUp(Classify, StyleOf(enclosing), lines).Some?
    ensures r.Ok? ==> FixedUp(Classify, StyleOf(enclosing), lines) == Some(r.value)
  {
    hide *;
    r := Fixup(enclosing, lines);
    if r.Ok? {
      FixupIdempotent(enclosing, lines);
      r := Fixup(enclosing, SplitLines(r.value));
    }
  }
}
