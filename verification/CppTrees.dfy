/**
 * What read_file of config/check_spidermonkey_style.py makes of the lines of a file: a tree of snippets, built with a
 * stack of blocks of which each is inside the one below.
 */
module CppTrees {
  import opened Wrappers
  import opened CppSnippets

  /** What the regular expressions say about a line. */
  datatype LineKind =
    | IncludeLine(prefix: string, inclname: string, suffix: string, isSystem: bool)
    | OpenLine
    | ElseLine
    | EndifLine
    | OrdinaryLine

  type Classifier = string -> LineKind

  /** What iterating over a file yields: a newline, if there is one, comes last. */
  predicate IsLine(line: string) {
    forall i :: 0 <= i < |line| - 1 ==> line[i] != '\n'
  }

  /** A matched #include line is its parts, and at most a final newline that the suffix stops short of. */
  ghost predicate Faithful(classify: Classifier) {
    forall line :: IsLine(line) && classify(line).IncludeLine? ==>
      line + "\n" == AsInclude(classify(line), 0).ToSource() || line == AsInclude(classify(line), 0).ToSource()
  }

  /** A suffix stops before a newline, so a matched line that ends in one has it after the suffix. */
  ghost predicate SuffixesStop(classify: Classifier) {
    forall line :: IsLine(line) && classify(line).IncludeLine? && line != "" && line[|line| - 1] == '\n' ==>
      line == AsInclude(classify(line), 0).ToSource()
  }

  function AsInclude(kind: LineKind, linenum: nat): Include
    requires kind.IncludeLine?
  {
    Include(kind.prefix, kind.inclname, kind.suffix, linenum, kind.isSystem)
  }

  /** IndexError, and the two ValueErrors; each with the line number where it is raised. */
  datatype ReadFailure = ElseWithoutIf(linenum: nat) | EndifWithoutIf(linenum: nat) | UnmatchedIf

  /** How deep in #if blocks a line leaves the reader, or None if it cannot stand there. */
  function NextDepth(kind: LineKind, depth: nat): Option<nat> {
    match kind
    case OpenLine => Some(depth + 1)
    case ElseLine => if depth == 0 then None else Some(depth)
    case EndifLine => if depth == 0 then None else Some(depth - 1)
    case _ => Some(depth)
  }

  /** Every #else and #endif has its #if, and every #if its #endif. */
  ghost predicate Balanced(classify: Classifier, lines: seq<string>, depth: nat) {
    if lines == [] then depth == 0
    else
      var next := NextDepth(classify(lines[0]), depth);
      next.Some? && Balanced(classify, lines[1..], next.value)
  }

  /** The source text a line is read as: an #include line always ends in a newline. */
  function LineText(kind: LineKind, line: string): string {
    if kind.IncludeLine? then AsInclude(kind, 0).ToSource() else line
  }

  function NormalizedText(classify: Classifier, lines: seq<string>): string {
    if lines == [] then ""
    else LineText(classify(lines[0]), lines[0]) + NormalizedText(classify, lines[1..])
  }

  // Reading -----------------------------------------------------------------------------------------

  /** A block that is being read: the line it starts with and the kids that are finished. */
  datatype Frame = Frame(start: string, kids: seq<Snippet>)

  /** A line of code goes to the run of code at the end, or starts one. */
  function WithCode(kids: seq<Snippet>, line: string): seq<Snippet> {
    if kids != [] && kids[|kids| - 1].Code? then kids[..|kids| - 1] + [Code(kids[|kids| - 1].lines + [line])]
    else kids + [Code([line])]
  }

  /** The innermost block with other kids. */
  function TopWith(frames: seq<Frame>, kids: seq<Snippet>): seq<Frame>
    requires frames != []
  {
    frames[..|frames| - 1] + [Frame(frames[|frames| - 1].start, kids)]
  }

  function TopKids(frames: seq<Frame>): seq<Snippet>
    requires frames != []
  {
    frames[|frames| - 1].kids
  }

  /** The innermost block is finished, and is now a kid of the one around it. */
  function Finished(frames: seq<Frame>, end: string): seq<Frame>
    requires |frames| > 1
  {
    var top, below := frames[|frames| - 1], frames[..|frames| - 1];
    TopWith(below, TopKids(below) + [Block(top.start, top.kids, end)])
  }

  /** The blocks being read after one more line, or None if the line cannot stand there. */
  function Entered(kind: LineKind, line: string, linenum: nat, frames: seq<Frame>): (r: Option<seq<Frame>>)
    requires frames != []
    ensures r.Some? <==> NextDepth(kind, |frames| - 1).Some?
    ensures r.Some? ==> |r.value| == NextDepth(kind, |frames| - 1).value + 1
  {
    match kind
    case IncludeLine(_, _, _, _) => Some(TopWith(frames, TopKids(frames) + [Inc(AsInclude(kind, linenum))]))
    case OpenLine => Some(frames + [Frame(line, [])])
    case ElseLine => if |frames| == 1 then None else Some(Finished(frames, "") + [Frame(line, [])])
    case EndifLine => if |frames| == 1 then None else Some(Finished(frames, line))
    case OrdinaryLine => Some(TopWith(frames, WithCode(TopKids(frames), line)))
  }

  /** The same after several lines, the first of which has this number. */
  function ReadOn(classify: Classifier, lines: seq<string>, linenum: nat, frames: seq<Frame>): (r: Option<seq<Frame>>)
    requires frames != []
    ensures r.Some? ==> r.value != []
  {
    if lines == [] then Some(frames)
    else match Entered(classify(lines[0]), lines[0], linenum, frames)
      case None => None
      case Some(frames') => ReadOn(classify, lines[1..], linenum + 1, frames')
  }

  const NOTHING_READ: seq<Frame> := [Frame("", [])]

  /** The tree of a whole file, if all its blocks end. */
  function FileTree(classify: Classifier, lines: seq<string>): (r: Option<Snippet>)
    ensures r.Some? ==> r.value.Block?
  {
    match ReadOn(classify, lines, 1, NOTHING_READ)
    case None => None
    case Some(frames) => if |frames| > 1 then None else Some(Block("", frames[0].kids, ""))
  }

  /** Reading goes through, and leaves no block open, exactly if the lines are balanced. */
  lemma {:induction false} ReadsIffBalanced(classify: Classifier, lines: seq<string>, linenum: nat, frames: seq<Frame>)
    requires frames != []
    ensures var r := ReadOn(classify, lines, linenum, frames);
      Balanced(classify, lines, |frames| - 1) <==> r.Some? && |r.value| == 1
    decreases |lines|
  {
    hide Entered;
    if lines != [] {
      var next := Entered(classify(lines[0]), lines[0], linenum, frames);
      if next.Some? {
        ReadsIffBalanced(classify, lines[1..], linenum + 1, next.value);
      }
    }
  }

  /** Reading on after some lines. */
  lemma {:induction false} ReadsOn(classify: Classifier, lines: seq<string>, k: nat, linenum: nat, frames: seq<Frame>)
    requires frames != [] && k <= |lines|
    ensures var before := ReadOn(classify, lines[..k], linenum, frames);
      ReadOn(classify, lines, linenum, frames)
      == if before.Some? then ReadOn(classify, lines[k..], linenum + k, before.value) else None
    decreases k
  {
    hide Entered;
    if k > 0 {
      assert lines[..k][0] == lines[0] && lines[..k][1..] == lines[1..][..k - 1] && lines[1..][k - 1..] == lines[k..];
      var next := Entered(classify(lines[0]), lines[0], linenum, frames);
      if next.Some? {
        ReadsOn(classify, lines[1..], k - 1, linenum + 1, next.value);
      }
    }
  }

  /** Why reading fails: at a line that needs an #if after balanced ones, or at the end of the file. */
  ghost predicate FailsBy(classify: Classifier, lines: seq<string>, failure: ReadFailure) {
    match failure
    case ElseWithoutIf(n) => NeedsIf(classify, lines, n) && classify(lines[n - 1]).ElseLine?
    case EndifWithoutIf(n) => NeedsIf(classify, lines, n) && classify(lines[n - 1]).EndifLine?
    case UnmatchedIf => !Balanced(classify, lines, 0) && forall n :: !NeedsIf(classify, lines, n)
  }

  /** Line n, counted from 1, continues or ends a block outside of all blocks, and is the first one to do so. */
  ghost predicate NeedsIf(classify: Classifier, lines: seq<string>, n: nat) {
    && 0 < n <= |lines| && Balanced(classify, lines[..n - 1], 0)
    && (classify(lines[n - 1]).ElseLine? || classify(lines[n - 1]).EndifLine?)
  }

  /** If reading goes through, no line needs an #if. */
  lemma NoneNeedsIf(classify: Classifier, lines: seq<string>, n: nat)
    requires ReadOn(classify, lines, 1, NOTHING_READ).Some?
    ensures !NeedsIf(classify, lines, n)
  {
    hide Balanced, ReadOn;
    if NeedsIf(classify, lines, n) {
      ReadsOn(classify, lines, n - 1, 1, NOTHING_READ);
      ReadsIffBalanced(classify, lines[..n - 1], 1, NOTHING_READ);
      ReadOne(classify, lines[n - 1..], n, ReadOn(classify, lines[..n - 1], 1, NOTHING_READ).value);
    }
  }

  lemma ReadOne(classify: Classifier, lines: seq<string>, linenum: nat, frames: seq<Frame>)
    requires frames != [] && lines != []
    ensures var next := Entered(classify(lines[0]), lines[0], linenum, frames);
      ReadOn(classify, lines, linenum, frames)
      == if next.Some? then ReadOn(classify, lines[1..], linenum + 1, next.value) else None
  {
    hide Entered;
  }

  lemma TreeIffBalanced(classify: Classifier, lines: seq<string>)
    ensures FileTree(classify, lines).Some? <==> Balanced(classify, lines, 0)
  {
    ReadsIffBalanced(classify, lines, 1, NOTHING_READ);
  }

  // The lines of what is read -----------------------------------------------------------------------

  /** The lines a snippet is written as. A block that an #else or #elif ends has no last line of its own. */
  function SnippetLines(s: Snippet): seq<string> {
    match s
    case Inc(inc) => [inc.ToSource()]
    case Code(lines) => lines
    case Block(start, kids, end) => [start] + KidsLines(kids) + EndLine(end)
  }

  function EndLine(end: string): seq<string> {
    if end == "" then [] else [end]
  }

  function KidsLines(kids: seq<Snippet>): seq<string> {
    if kids == [] then [] else SnippetLines(kids[0]) + KidsLines(kids[1..])
  }

  lemma {:induction false} KidsLinesSplit(a: seq<Snippet>, b: seq<Snippet>)
    ensures KidsLines(a + b) == KidsLines(a) + KidsLines(b)
  {
    hide SnippetLines;
    if a == [] {
      assert a + b == b;
    } else {
      assert (a + b)[1..] == a[1..] + b;
      KidsLinesSplit(a[1..], b);
    }
  }

  lemma KidsLinesSnoc(kids: seq<Snippet>, s: Snippet)
    ensures KidsLines(kids + [s]) == KidsLines(kids) + SnippetLines(s)
  {
    hide SnippetLines;
    KidsLinesSplit(kids, [s]);
    assert KidsLines([s]) == SnippetLines(s) + KidsLines([s][1..]);
  }

  lemma ConcatOne(line: string)
    ensures Concat([line]) == line
  {
    assert Concat([line]) == line + Concat([line][1..]);
  }

  /** What is written is these lines. */
  lemma {:induction false} SnippetText(s: Snippet)
    ensures ToSource(s) == Concat(SnippetLines(s))
    decreases s, 1
  {
    match s {
      case Inc(inc) =>
        ConcatOne(inc.ToSource());
      case Code(lines) =>
      case Block(start, kids, end) =>
        KidsText(kids);
        ConcatOne(start);
        ConcatOne(end);
        ConcatSplits([start] + KidsLines(kids), EndLine(end));
        ConcatSplits([start], KidsLines(kids));
    }
  }

  lemma {:induction false} KidsText(kids: seq<Snippet>)
    ensures KidsSource(kids) == Concat(KidsLines(kids))
    decreases kids, 0
  {
    hide SnippetLines, ToSource;
    if kids != [] {
      SnippetText(kids[0]);
      KidsText(kids[1..]);
      ConcatSplits(SnippetLines(kids[0]), KidsLines(kids[1..]));
    }
  }

  /** The lines of all blocks being read. The outermost one is the file, which has no first line. */
  function FramesLines(frames: seq<Frame>): seq<string>
    requires frames != []
  {
    var last := |frames| - 1;
    if last == 0 then KidsLines(frames[0].kids)
    else FramesLines(frames[..last]) + ([frames[last].start] + KidsLines(frames[last].kids))
  }

  /** Lines added at the end of the innermost block are added at the end of the file. */
  lemma TopGrows(frames: seq<Frame>, kids: seq<Snippet>, more: seq<string>)
    requires frames != [] && KidsLines(kids) == KidsLines(TopKids(frames)) + more
    ensures FramesLines(TopWith(frames, kids)) == FramesLines(frames) + more
  {
    hide KidsLines;
    assert TopWith(frames, kids)[..|frames| - 1] == frames[..|frames| - 1];
  }

  lemma FinishedLines(frames: seq<Frame>, end: string)
    requires |frames| > 1
    ensures FramesLines(Finished(frames, end)) == FramesLines(frames) + EndLine(end)
  {
    hide KidsLines;
    var below, top := frames[..|frames| - 1], frames[|frames| - 1];
    var b := Block(top.start, top.kids, end);
    KidsLinesSnoc(TopKids(below), b);
    TopGrows(below, TopKids(below) + [b], SnippetLines(b));
  }

  lemma CodeGrows(kids: seq<Snippet>, line: string)
    ensures KidsLines(WithCode(kids, line)) == KidsLines(kids) + [line]
  {
    hide KidsLines;
    var last := |kids| - 1;
    if kids != [] && kids[last].Code? {
      assert kids == kids[..last] + [kids[last]];
      KidsLinesSnoc(kids[..last], kids[last]);
      KidsLinesSnoc(kids[..last], Code(kids[last].lines + [line]));
    } else {
      KidsLinesSnoc(kids, Code([line]));
    }
  }

  lemma OpenedLines(frames: seq<Frame>, line: string)
    requires frames != []
    ensures FramesLines(frames + [Frame(line, [])]) == FramesLines(frames) + [line]
  {
    assert (frames + [Frame(line, [])])[..|frames|] == frames;
  }

  /** What a line is read as. (An #endif line is not empty; its block could not tell if it were.) */
  function LinesRead(kind: LineKind, line: string): seq<string> {
    if kind.EndifLine? then EndLine(line) else [LineText(kind, line)]
  }

  function LinesReadFrom(classify: Classifier, lines: seq<string>): seq<string> {
    if lines == [] then [] else LinesRead(classify(lines[0]), lines[0]) + LinesReadFrom(classify, lines[1..])
  }

  lemma EnteredLines(kind: LineKind, line: string, linenum: nat, frames: seq<Frame>)
    requires frames != [] && Entered(kind, line, linenum, frames).Some?
    ensures FramesLines(Entered(kind, line, linenum, frames).value) == FramesLines(frames) + LinesRead(kind, line)
  {
    hide FramesLines, KidsLines;
    match kind {
      case IncludeLine(_, _, _, _) =>
        KidsLinesSnoc(TopKids(frames), Inc(AsInclude(kind, linenum)));
        TopGrows(frames, TopKids(frames) + [Inc(AsInclude(kind, linenum))], [LineText(kind, line)]);
      case OpenLine =>
        OpenedLines(frames, line);
      case ElseLine =>
        FinishedLines(frames, "");
        OpenedLines(Finished(frames, ""), line);
      case EndifLine =>
        FinishedLines(frames, line);
      case OrdinaryLine =>
        CodeGrows(TopKids(frames), line);
        TopGrows(frames, WithCode(TopKids(frames), line), [line]);
    }
  }

  /** Reading loses no line and keeps their order. */
  lemma {:induction false} ReadKeepsLines(classify: Classifier, lines: seq<string>, linenum: nat, frames: seq<Frame>)
    requires frames != [] && ReadOn(classify, lines, linenum, frames).Some?
    ensures FramesLines(ReadOn(classify, lines, linenum, frames).value)
      == FramesLines(frames) + LinesReadFrom(classify, lines)
    decreases |lines|
  {
    hide Entered, LinesRead, FramesLines;
    if lines != [] {
      EnteredLines(classify(lines[0]), lines[0], linenum, frames);
      ReadKeepsLines(classify, lines[1..], linenum + 1, Entered(classify(lines[0]), lines[0], linenum, frames).value);
    }
  }

  lemma TreeLines(classify: Classifier, lines: seq<string>)
    requires FileTree(classify, lines).Some?
    ensures KidsLines(FileTree(classify, lines).value.kids) == LinesReadFrom(classify, lines)
  {
    hide Entered, ReadOn, LinesReadFrom;
    ReadKeepsLines(classify, lines, 1, NOTHING_READ);
    assert FramesLines(NOTHING_READ) == [];
    var frames := ReadOn(classify, lines, 1, NOTHING_READ).value;
    assert FramesLines(frames) == KidsLines(frames[0].kids);
  }

  lemma {:induction false} ReadFromText(classify: Classifier, lines: seq<string>)
    ensures Concat(LinesReadFrom(classify, lines)) == NormalizedText(classify, lines)
  {
    hide LineText, LinesRead;
    if lines != [] {
      ReadFromText(classify, lines[1..]);
      ConcatSplits(LinesRead(classify(lines[0]), lines[0]), LinesReadFrom(classify, lines[1..]));
      LinesReadText(classify(lines[0]), lines[0]);
    }
  }

  lemma LinesReadText(kind: LineKind, line: string)
    ensures Concat(LinesRead(kind, line)) == LineText(kind, line)
  {
    ConcatOne(LineText(kind, line));
  }

  /** The tree stands for the lines, each #include line ended with a newline. */
  lemma TreeText(classify: Classifier, lines: seq<string>)
    requires FileTree(classify, lines).Some?
    ensures ToSource(FileTree(classify, lines).value) == NormalizedText(classify, lines)
  {
    hide LinesReadFrom, KidsLines, ReadOn;
    var kids := FileTree(classify, lines).value.kids;
    TreeLines(classify, lines);
    ReadFromText(classify, lines);
    KidsText(kids);
    assert ToSource(FileTree(classify, lines).value) == "" + KidsSource(kids) + "";
  }

  /** The line that starts the outermost block stays. */
  lemma {:induction false} ReadStarts(classify: Classifier, lines: seq<string>, linenum: nat, frames: seq<Frame>)
    requires frames != [] && ReadOn(classify, lines, linenum, frames).Some?
    ensures ReadOn(classify, lines, linenum, frames).value[0].start == frames[0].start
    decreases |lines|
  {
    if lines != [] {
      ReadStarts(classify, lines[1..], linenum + 1, Entered(classify(lines[0]), lines[0], linenum, frames).value);
    }
  }
}
