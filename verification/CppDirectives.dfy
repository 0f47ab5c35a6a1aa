/** What the regular expressions of read_file in config/check_spidermonkey_style.py match, in terms of the text. */
module CppDirectives {
  import opened CppGrammar
  import opened CppLines
  import opened CppSnippets
  import opened CppTrees
  import opened Wrappers

  // White space, words and names --------------------------------------------------------------------

  lemma SameCharacters(c: char)
    ensures IsSpaceChar(c) == Blank(c) && IsWordChar(c) == WordCharacter(c)
    ensures WordCharacter(c) ==> !Blank(c)
  {
  }

  lemma SkipStep(s: string)
    ensures SkipSpace(s) == if s != "" && Blank(s[0]) then SkipSpace(s[1..]) else s
  {
    hide Blank, IsSpaceChar;
    if s != "" {
      SameCharacters(s[0]);
    }
  }

  lemma BlankFirst(c: char, a: string)
    requires Blank(c) && AllBlank(a)
    ensures AllBlank([c] + a)
  {
  }

  /** Skipping white space splits a text in two. */
  lemma {:induction false} SkipSpaceSplits(s: string) returns (a: string)
    ensures s == a + SkipSpace(s) && AllBlank(a)
    ensures SkipSpace(s) != "" ==> !Blank(SkipSpace(s)[0])
  {
    hide *;
    SkipStep(s);
    if s != "" && Blank(s[0]) {
      var a' := SkipSpaceSplits(s[1..]);
      a := [s[0]] + a';
      BlankFirst(s[0], a');
      ConsSplit(s, a', SkipSpace(s));
    } else {
      a := "";
      NothingBlank();
    }
  }

  lemma ConsSplit(s: string, a: string, b: string)
    requires s != "" && s[1..] == a + b
    ensures s == [s[0]] + a + b
  {
  }

  lemma NothingBlank()
    ensures AllBlank("")
  {
  }

  lemma {:induction false} SkipSpaceIs(a: string, t: string)
    requires AllBlank(a) && (t != "" ==> !Blank(t[0]))
    ensures SkipSpace(a + t) == t
  {
    hide Blank, IsSpaceChar;
    if a == "" {
      assert a + t == t;
      if t != "" {
        SameCharacters(t[0]);
      }
    } else {
      SameCharacters(a[0]);
      assert Blank(a[0]) && (a + t)[0] == a[0] && (a + t)[1..] == a[1..] + t;
      SkipSpaceIs(a[1..], t);
    }
  }

  lemma {:induction false} WordSplits(s: string) returns (rest: string)
    ensures s == Word(s) + rest && AllWord(Word(s)) && (rest != "" ==> !WordCharacter(rest[0]))
  {
    hide *;
    WordStep(s);
    if s != "" && WordCharacter(s[0]) {
      rest := WordSplits(s[1..]);
      ConsSplit(s, Word(s[1..]), rest);
      WordFirstOf(s[0], Word(s[1..]));
    } else {
      rest := s;
    }
  }

  lemma WordStep(s: string)
    ensures s != "" && WordCharacter(s[0]) ==> Word(s) == [s[0]] + Word(s[1..])
    ensures s == "" || !WordCharacter(s[0]) ==> Word(s) == "" && "" + s == s && AllWord("")
  {
    hide WordCharacter, IsWordChar;
    if s != "" {
      SameCharacters(s[0]);
    }
  }

  lemma WordFirstOf(c: char, a: string)
    requires WordCharacter(c) && AllWord(a)
    ensures AllWord([c] + a)
  {
  }

  lemma {:induction false} WordIs(w: string, rest: string)
    requires AllWord(w) && (rest != "" ==> !WordCharacter(rest[0]))
    ensures Word(w + rest) == w
  {
    hide WordCharacter, IsWordChar;
    if w == "" {
      assert w + rest == rest;
      if rest != "" {
        SameCharacters(rest[0]);
      }
    } else {
      SameCharacters(w[0]);
      assert WordCharacter(w[0]) && (w + rest)[0] == w[0] && (w + rest)[1..] == w[1..] + rest;
      WordIs(w[1..], rest);
    }
  }

  lemma {:induction false} UpToIs(name: string, c: char, rest: string)
    requires c !in name && (rest != "" ==> rest[0] == c)
    ensures UpTo(name + rest, c) == name
  {
    if name == "" {
      assert name + rest == rest;
    } else {
      assert (name + rest)[0] == name[0] && (name + rest)[1..] == name[1..] + rest;
      UpToIs(name[1..], c, rest);
    }
  }

  // Directives --------------------------------------------------------------------------------------

  /** What follows the # and white space, in a line that begins with a #. */
  lemma HashLine(line: string, a: string, b: string, u: string)
    requires line == a + "#" + b + u && AllBlank(a) && AllBlank(b) && (u != "" ==> !Blank(u[0]))
    ensures SkipSpace(line) == "#" + b + u && SkipSpace(("#" + b + u)[1..]) == u
  {
    hide SkipSpace, AllBlank, Blank;
    var t := "#" + b + u;
    assert a + t == line && t[1..] == b + u && t[0] == '#';
    SameCharacters('#');
    HashIsNotBlank();
    SkipSpaceIs(a, t);
    SkipSpaceIs(b, u);
  }

  lemma HashIsNotBlank()
    ensures !Blank('#')
  {
  }

  lemma HashLineSplits(line: string) returns (a: string, b: string, u: string)
    requires SkipSpace(line) != "" && SkipSpace(line)[0] == '#'
    ensures line == a + "#" + b + u && AllBlank(a) && AllBlank(b) && u == SkipSpace(SkipSpace(line)[1..])
    ensures u != "" ==> !Blank(u[0])
  {
    hide *;
    var t := SkipSpace(line);
    a := SkipSpaceSplits(line);
    u := SkipSpace(t[1..]);
    b := SkipSpaceSplits(t[1..]);
    Regrouped(line, a, t, b, u);
  }

  lemma Regrouped(line: string, a: string, t: string, b: string, u: string)
    requires line == a + t && t != "" && t[0] == '#' && t[1..] == b + u
    ensures line == a + "#" + b + u
  {
    assert t == "#" + (b + u);
  }

  /** Reading a line is reading what follows its #. */
  lemma ClassifyHash(line: string, a: string, b: string, u: string)
    requires line == a + "#" + b + u && AllBlank(a) && AllBlank(b) && (u != "" ==> !Blank(u[0]))
    ensures Classify(line) == if IncludeOf(line, u).Some? then IncludeOf(line, u).value else DirectiveOf(Word(u))
  {
    hide SkipSpace, IncludeOf, DirectiveOf, Word, AllBlank;
    HashLine(line, a, b, u);
  }

  /** The word of an #include line is include. */
  lemma IncludeWord(line: string, u: string)
    requires |u| <= |line| && IncludeOf(line, u).Some?
    ensures Word(u) == "include" && IncludeOf(line, u).value.IncludeLine?
  {
    hide *;
    IncludeMatch(line, u);
    var rest := u[7..];
    EitherPicks(line, SkipSpace(rest), IncludeOf(line, u).value);
    assert u == "include" + rest;
    SpaceFirst(rest);
    IncludeIsWord();
    WordIs("include", rest);
  }

  lemma SpaceFirst(s: string)
    requires |SkipSpace(s)| < |s|
    ensures !WordCharacter(s[0]) && Blank(s[0])
  {
    SameCharacters(s[0]);
  }

  lemma IncludeIsWord()
    ensures AllWord("include")
  {
  }

  /** A line that has a directive other than include is read as its word says. */
  lemma DirectiveIs(line: string, a: string, b: string, word: string, rest: string)
    requires DirectiveParts(line, a, b, word, rest) && word != ""
    ensures word != "include" ==> Classify(line) == DirectiveOf(word)
    ensures word == "include" ==> Classify(line).IncludeLine? || Classify(line).OrdinaryLine?
  {
    hide *;
    var u := word + rest;
    WordFirst(line, a, b, word, rest);
    ClassifyHash(line, a, b, u);
    WordIs(word, rest);
    if IncludeOf(line, u).Some? {
      IncludeWord(line, u);
    } else if word == "include" {
      IncludeIsNoBlock();
    }
  }

  lemma WordFirst(line: string, a: string, b: string, word: string, rest: string)
    requires DirectiveParts(line, a, b, word, rest) && word != ""
    ensures var u := word + rest;
      line == a + "#" + b + u && AllBlank(a) && AllBlank(b) && u != "" && !Blank(u[0])
    ensures AllWord(word) && (rest != "" ==> !WordCharacter(rest[0]))
  {
    hide AllBlank;
    assert a + "#" + b + (word + rest) == a + "#" + b + word + rest;
    assert WordCharacter(word[0]);
    SameCharacters(word[0]);
  }

  lemma IncludeIsNoBlock()
    ensures DirectiveOf("include").OrdinaryLine?
  {
  }

  /** A line that is read as a directive has its word. */
  lemma DirectiveHas(line: string) returns (a: string, b: string, word: string, rest: string)
    requires !Classify(line).OrdinaryLine?
    ensures DirectiveParts(line, a, b, word, rest) && word != ""
  {
    hide *;
    var u;
    HashNeeded(line);
    a, b, u := HashLineSplits(line);
    word := Word(u);
    rest := WordSplits(u);
    DirectivePartsIf(line, a, b, u, word, rest);
  }

  lemma HashNeeded(line: string)
    requires !Classify(line).OrdinaryLine?
    ensures SkipSpace(line) != "" && SkipSpace(line)[0] == '#' && Word(SkipSpace(SkipSpace(line)[1..])) != ""
  {
    hide SkipSpace, Word, IncludeOf;
    var u := SkipSpace(SkipSpace(line)[1..]);
    if IncludeOf(line, u).Some? {
      IncludeWord(line, u);
    }
  }

  lemma DirectivePartsIf(line: string, a: string, b: string, u: string, word: string, rest: string)
    requires line == a + "#" + b + u && u == word + rest && AllBlank(a) && AllBlank(b)
    requires AllWord(word) && (rest != "" ==> !WordCharacter(rest[0]))
    ensures DirectiveParts(line, a, b, word, rest)
  {
    hide AllBlank, AllWord, WordCharacter;
    assert a + "#" + b + (word + rest) == a + "#" + b + word + rest;
  }

  /** Lines are read as opening, continuing and ending blocks exactly if their words are those of the source. */
  lemma DirectiveLines(line: string)
    ensures Classify(line).OpenLine? <==> Opens(line)
    ensures Classify(line).ElseLine? <==> Turns(line)
    ensures Classify(line).EndifLine? <==> Ends(line)
  {
    hide Classify, DirectiveParts;
    if !Classify(line).OrdinaryLine? {
      var a, b, word, rest := DirectiveHas(line);
      DirectiveIs(line, a, b, word, rest);
    }
    forall a, b, word, rest | DirectiveParts(line, a, b, word, rest) && word !in {"", "include"}
      ensures Classify(line) == DirectiveOf(word)
    {
      DirectiveIs(line, a, b, word, rest);
    }
  }

  // Includes ----------------------------------------------------------------------------------------

  lemma NameIs(line: string, prefix: string, w: string, open: char, close: char, name: string, suffix: string,
               end: string)
    requires line == prefix + w && w == [open] + name + [close] + suffix + end
    requires close !in name && '\n' !in suffix && LineEnd(end)
    ensures QuotedName(line, w, open, close) == Some(IncludeLine(prefix, name, suffix, open == '<'))
  {
    hide UpTo;
    assert w[1..] == name + ([close] + suffix + end);
    UpToIs(name, close, [close] + suffix + end);
    assert w[|name| + 2..] == suffix + end;
    UpToIs(suffix, '\n', end);
    assert line[..|line| - |w|] == prefix;
  }

  lemma QuotedIs(name: string, isSystem: bool, suffix: string, end: string)
    ensures var open, close := if isSystem then '<' else '"', if isSystem then '>' else '"';
      QuotedText(name, isSystem) + suffix + end == [open] + name + [close] + suffix + end
  {
  }

  lemma EitherIs(line: string, prefix: string, name: string, suffix: string, isSystem: bool, end: string)
    requires line == prefix + QuotedText(name, isSystem) + suffix + end
    requires (if isSystem then '>' !in name else '"' !in name) && '\n' !in suffix && LineEnd(end)
    ensures EitherName(line, QuotedText(name, isSystem) + suffix + end)
      == Some(IncludeLine(prefix, name, suffix, isSystem))
  {
    hide QuotedName;
    var w := QuotedText(name, isSystem) + suffix + end;
    var open, close := if isSystem then '<' else '"', if isSystem then '>' else '"';
    QuotedIs(name, isSystem, suffix, end);
    assert line == prefix + w;
    NameIs(line, prefix, w, open, close, name, suffix, end);
    if isSystem {
      NotQuoted(line, w);
    }
  }

  lemma NotQuoted(line: string, w: string)
    requires |w| <= |line| && w != "" && w[0] == '<'
    ensures QuotedName(line, w, '"', '"') == None
  {
  }

  lemma PartsAreRead(line: string, prefix: string, a: string, b: string, c: string, name: string, suffix: string,
                     isSystem: bool, end: string)
    requires IncludePrefix(prefix, a, b, c) && line == prefix + QuotedText(name, isSystem) + suffix + end
    requires (if isSystem then '>' !in name else '"' !in name) && '\n' !in suffix && LineEnd(end)
    ensures Classify(line) == IncludeLine(prefix, name, suffix, isSystem)
  {
    hide *;
    var w := QuotedText(name, isSystem) + suffix + end;
    var u := "include" + c + w;
    PrefixMeans(prefix, a, b, c, line, w, u);
    ClassifyHash(line, a, b, u);
    QuoteFirst(name, isSystem, suffix, end);
    SkipSpaceIs(c, w);
    IncludeFrom(line, u, w);
    EitherIs(line, prefix, name, suffix, isSystem, end);
  }

  lemma PrefixMeans(prefix: string, a: string, b: string, c: string, line: string, w: string, u: string)
    requires IncludePrefix(prefix, a, b, c) && line == prefix + w && u == "include" + c + w
    ensures line == a + "#" + b + u && AllBlank(a) && AllBlank(b) && AllBlank(c) && u != "" && !Blank(u[0])
    ensures |u| <= |line| && "include" <= u && u[7..] == c + w && |w| < |u[7..]|
  {
    hide AllBlank;
    assert u[0] == 'i';
  }

  lemma QuoteFirst(name: string, isSystem: bool, suffix: string, end: string)
    ensures var w := QuotedText(name, isSystem) + suffix + end; w != "" && !Blank(w[0])
  {
  }

  /** The parts of a line that is read as an #include. */
  lemma IncludeHasParts(line: string)
    requires Classify(line).IncludeLine?
    ensures var kind := Classify(line);
      IncludeParts(line, kind.prefix, kind.inclname, kind.suffix, kind.isSystem)
  {
    hide *;
    HashOfInclude(line);
    var a, b, u := HashLineSplits(line);
    IncludeMatch(line, u);
    var w := SkipSpace(u[7..]);
    var c := SkipSpaceSplits(u[7..]);
    PrefixOf(line, a, b, c, w, u);
    NameHasParts(line, a + "#" + b + "include" + c, w, Classify(line));
    PartsIf(line, a, b, c, Classify(line));
  }

  lemma HashOfInclude(line: string)
    requires Classify(line).IncludeLine?
    ensures SkipSpace(line) != "" && SkipSpace(line)[0] == '#'
    ensures var u := SkipSpace(SkipSpace(line)[1..]);
      |u| <= |line| && IncludeOf(line, u) == Some(Classify(line))
  {
    hide SkipSpace, IncludeOf;
  }

  lemma PrefixOf(line: string, a: string, b: string, c: string, w: string, u: string)
    requires line == a + "#" + b + u && "include" <= u && u[7..] == c + w && |w| < |u[7..]|
    requires AllBlank(a) && AllBlank(b) && AllBlank(c)
    ensures IncludePrefix(a + "#" + b + "include" + c, a, b, c) && line == a + "#" + b + "include" + c + w
  {
    hide AllBlank;
    assert u == "include" + (c + w);
    assert a + "#" + b + ("include" + (c + w)) == a + "#" + b + "include" + c + w;
  }

  /** Which of the two forms an #include line is in. */
  lemma EitherPicks(line: string, w: string, kind: LineKind)
    requires |w| <= |line| && EitherName(line, w) == Some(kind)
    ensures kind.IncludeLine?
    ensures var open, close := if kind.isSystem then '<' else '"', if kind.isSystem then '>' else '"';
      QuotedName(line, w, open, close) == Some(kind)
  {
    hide UpTo;
  }

  lemma PrefixKnown(line: string, prefix: string, w: string)
    requires line == prefix + w
    ensures |w| <= |line| && line[..|line| - |w|] == prefix
  {
  }

  lemma Remainder(rest: string, suffix: string) returns (end: string)
    requires suffix <= rest && (|suffix| < |rest| ==> rest[|suffix|] == '\n')
    ensures rest == suffix + end && LineEnd(end)
  {
    end := rest[|suffix|..];
  }

  lemma Quoted(line: string, prefix: string, w: string, open: char, name: string, close: char, rest: string,
               suffix: string, end: string, isSystem: bool)
    requires line == prefix + w && w == [open] + name + [close] + rest && rest == suffix + end
    requires open == (if isSystem then '<' else '"') && close == (if isSystem then '>' else '"')
    ensures line == prefix + QuotedText(name, isSystem) + suffix + end
  {
    hide *;
    QuotedAlone(open, name, close, isSystem);
    Flattened(line, prefix, QuotedText(name, isSystem), suffix, end);
  }

  lemma QuotedAlone(open: char, name: string, close: char, isSystem: bool)
    requires open == (if isSystem then '<' else '"') && close == (if isSystem then '>' else '"')
    ensures QuotedText(name, isSystem) == [open] + name + [close]
  {
  }

  lemma Flattened(line: string, prefix: string, quoted: string, suffix: string, end: string)
    requires line == prefix + (quoted + (suffix + end))
    ensures line == prefix + quoted + suffix + end
  {
  }

  /** The line ends after the suffix. */
  lemma NameHasParts(line: string, prefix: string, w: string, kind: LineKind)
    requires line == prefix + w && EitherName(line, w) == Some(kind)
    ensures kind.IncludeLine? && kind.prefix == prefix && '\n' !in kind.suffix
    ensures if kind.isSystem then '>' !in kind.inclname else '"' !in kind.inclname
    ensures exists end :: LineEnd(end) && line == prefix + QuotedText(kind.inclname, kind.isSystem) + kind.suffix + end
  {
    hide *;
    EitherPicks(line, w, kind);
    var open, close := if kind.isSystem then '<' else '"', if kind.isSystem then '>' else '"';
    QuotedNameParts(line, w, open, close);
    var name := UpTo(w[1..], close);
    var rest := w[|name| + 2..];
    UpToMeans(w[1..], close);
    UpToMeans(rest, '\n');
    PrefixKnown(line, prefix, w);
    var end := Remainder(rest, kind.suffix);
    QuotedParts(w, open, name, close);
    Quoted(line, prefix, w, open, name, close, rest, kind.suffix, end, kind.isSystem);
  }

  lemma PartsIf(line: string, a: string, b: string, c: string, kind: LineKind)
    requires kind.IncludeLine? && kind.prefix == a + "#" + b + "include" + c && IncludePrefix(kind.prefix, a, b, c)
    requires '\n' !in kind.suffix && if kind.isSystem then '>' !in kind.inclname else '"' !in kind.inclname
    requires exists end ::
      LineEnd(end) && line == kind.prefix + QuotedText(kind.inclname, kind.isSystem) + kind.suffix + end
    ensures IncludeParts(line, kind.prefix, kind.inclname, kind.suffix, kind.isSystem)
  {
    hide IncludePrefix, QuotedText, LineEnd;
  }

  /** A line is read as an #include with these parts exactly if it has them. */
  lemma IncludeLines(line: string, prefix: string, name: string, suffix: string, isSystem: bool)
    ensures Classify(line) == IncludeLine(prefix, name, suffix, isSystem) <==>
      IncludeParts(line, prefix, name, suffix, isSystem)
  {
    hide Classify, IncludePrefix, QuotedText, LineEnd;
    if Classify(line) == IncludeLine(prefix, name, suffix, isSystem) {
      IncludeHasParts(line);
    }
    if IncludeParts(line, prefix, name, suffix, isSystem) {
      var a, b, c :| IncludePrefix(prefix, a, b, c);
      var end :| LineEnd(end) && line == prefix + QuotedText(name, isSystem) + suffix + end;
      PartsAreRead(line, prefix, a, b, c, name, suffix, isSystem, end);
    }
  }

  // Files -------------------------------------------------------------------------------------------

  /** The lines are balanced, as they are read, exactly if their directives nest. */
  lemma {:induction false} BalancedIsNested(lines: seq<string>, depth: nat)
    ensures Balanced(Classify, lines, depth) <==> Nested(lines, depth)
    decreases |lines|
  {
    hide Classify, Opens, Turns, Ends;
    if lines != [] {
      DirectiveLines(lines[0]);
      BalancedIsNested(lines[1..], depth);
      BalancedIsNested(lines[1..], depth + 1);
      if depth > 0 {
        BalancedIsNested(lines[1..], depth - 1);
      }
    }
  }

  lemma IncludeIff(line: string)
    ensures Classify(line).IncludeLine? <==> IsInclude(line)
  {
    hide Classify, IncludeParts;
    if Classify(line).IncludeLine? {
      IncludeHasParts(line);
    }
    if IsInclude(line) {
      var prefix, name, suffix, isSystem :| IncludeParts(line, prefix, name, suffix, isSystem);
      IncludeLines(line, prefix, name, suffix, isSystem);
    }
  }

  /** Line n, counted from 1, continues or ends a block outside of all blocks, and is the first one to do so. */
  ghost predicate Stray(lines: seq<string>, n: nat) {
    0 < n <= |lines| && Nested(lines[..n - 1], 0) && (Turns(lines[n - 1]) || Ends(lines[n - 1]))
  }

  /** Why a file cannot be read. */
  ghost predicate Unreadable(lines: seq<string>, failure: ReadFailure) {
    match failure
    case ElseWithoutIf(n) => Stray(lines, n) && Turns(lines[n - 1])
    case EndifWithoutIf(n) => Stray(lines, n) && Ends(lines[n - 1])
    case UnmatchedIf => !Nested(lines, 0) && forall n :: !Stray(lines, n)
  }

  lemma StrayIff(lines: seq<string>, n: nat)
    ensures NeedsIf(Classify, lines, n) <==> Stray(lines, n)
    ensures Stray(lines, n) ==> (Classify(lines[n - 1]).ElseLine? <==> Turns(lines[n - 1]))
    ensures Stray(lines, n) ==> (Classify(lines[n - 1]).EndifLine? <==> Ends(lines[n - 1]))
  {
    hide Classify, Turns, Ends, Nested, Balanced;
    if 0 < n <= |lines| {
      DirectiveLines(lines[n - 1]);
      BalancedIsNested(lines[..n - 1], 0);
    }
  }

  lemma UnreadableIff(lines: seq<string>, failure: ReadFailure)
    ensures FailsBy(Classify, lines, failure) <==> Unreadable(lines, failure)
  {
    hide Classify, Turns, Ends, Nested, Balanced, NeedsIf, Stray;
    BalancedIsNested(lines, 0);
    forall n ensures NeedsIf(Classify, lines, n) <==> Stray(lines, n) {
      StrayIff(lines, n);
    }
    if !failure.UnmatchedIf? {
      StrayIff(lines, failure.linenum);
    }
  }
}
