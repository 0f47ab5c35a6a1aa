/**
 * Which trees of snippets read_file of config/check_spidermonkey_style.py makes, and that reading the lines such a tree
 * is written as makes that tree again.
 */
module CppShapes {
  import opened Wrappers
  import opened CppSnippets
  import opened CppTrees

  // Shapes ------------------------------------------------------------------------------------------

  /** What a kid comes after: code, a block that an #else or #elif ends, or neither. */
  datatype Prev = Neutral | AfterCode | AfterOpen

  predicate LeavesOpen(s: Snippet) {
    s.Block? && s.end == ""
  }

  function NextPrev(s: Snippet): Prev {
    if s.Code? then AfterCode else if LeavesOpen(s) then AfterOpen else Neutral
  }

  predicate Continues(classify: Classifier, s: Snippet) {
    s.Block? && classify(s.start).ElseLine?
  }

  /** Each line of the snippet is what the snippet says it is. */
  predicate KidOk(classify: Classifier, s: Snippet)
    decreases s, 1
  {
    match s
    case Inc(inc) => classify(inc.ToSource()) == IncludeLine(inc.prefix, inc.inclname, inc.suffix, inc.isSystem)
    case Code(lines) => lines != [] && forall i :: 0 <= i < |lines| ==> classify(lines[i]).OrdinaryLine?
    case Block(start, kids, end) =>
      && (classify(start).OpenLine? || classify(start).ElseLine?)
      && (end == "" || classify(end).EndifLine?)
      && Complete(classify, kids)
  }

  /** Code does not follow code, and an #else or #elif block follows just a block that leaves its #if open. */
  function Follow(classify: Classifier, s: Snippet, prev: Prev): Option<Prev>
    decreases s, 2
  {
    if KidOk(classify, s) && (s.Code? ==> prev.Neutral?) && (Continues(classify, s) <==> prev.AfterOpen?)
    then Some(NextPrev(s)) else None
  }

  function Along(classify: Classifier, kids: seq<Snippet>): Option<Prev>
    decreases kids, 0
  {
    if kids == [] then Some(Neutral)
    else match Along(classify, kids[..|kids| - 1])
      case None => None
      case Some(prev) => Follow(classify, kids[|kids| - 1], prev)
  }

  predicate Complete(classify: Classifier, kids: seq<Snippet>)
    decreases kids, 1
  {
    Along(classify, kids).Some? && !Along(classify, kids).value.AfterOpen?
  }

  /** What comes after these kids. */
  function PrevOf(kids: seq<Snippet>): Prev {
    if kids == [] then Neutral else NextPrev(kids[|kids| - 1])
  }

  lemma AlongSnoc(classify: Classifier, kids: seq<Snippet>, s: Snippet)
    ensures Along(classify, kids + [s]) ==
      if Along(classify, kids).None? then None else Follow(classify, s, Along(classify, kids).value)
    ensures Along(classify, kids).Some? ==> Along(classify, kids).value == PrevOf(kids)
  {
    assert (kids + [s])[..|kids|] == kids;
  }

  // What is read is of that shape -------------------------------------------------------------------

  /** An #include line as it is written is read as the same include. */
  ghost predicate Rereads(classify: Classifier, line: string) {
    classify(line).IncludeLine? ==> classify(AsInclude(classify(line), 0).ToSource()) == classify(line)
  }

  /** The first line of a block fits what the block comes after. */
  predicate StartOk(classify: Classifier, start: string, prev: Prev) {
    if prev.AfterOpen? then classify(start).ElseLine? else classify(start).OpenLine?
  }

  ghost predicate FramesOk(classify: Classifier, frames: seq<Frame>)
    requires frames != []
  {
    && Complete(classify, TopKids(frames))
    && (forall i :: 0 <= i < |frames| ==> Along(classify, frames[i].kids).Some?)
    && forall i :: 0 <= i < |frames| - 1 ==> StartOk(classify, frames[i + 1].start, PrevOf(frames[i].kids))
  }

  lemma TopOk(classify: Classifier, frames: seq<Frame>, kids: seq<Snippet>)
    requires frames != [] && FramesOk(classify, frames) && Complete(classify, kids)
    ensures FramesOk(classify, TopWith(frames, kids))
  {
    hide Along, KidOk, StartOk;
  }

  lemma CodeOk(classify: Classifier, kids: seq<Snippet>, line: string)
    requires Complete(classify, kids) && classify(line).OrdinaryLine?
    ensures Complete(classify, WithCode(kids, line))
  {
    var last := |kids| - 1;
    if kids != [] && kids[last].Code? {
      assert kids == kids[..last] + [kids[last]];
      AlongSnoc(classify, kids[..last], kids[last]);
      AlongSnoc(classify, kids[..last], Code(kids[last].lines + [line]));
    } else {
      AlongSnoc(classify, kids, Code([line]));
    }
  }

  /** Ending the innermost block, by an #endif line or before an #else or #elif line. */
  lemma FinishedOk(classify: Classifier, frames: seq<Frame>, end: string)
    requires frames != [] && FramesOk(classify, frames) && |frames| > 1 && (end == "" || classify(end).EndifLine?)
    ensures var frames' := Finished(frames, end);
      && (end != "" ==> FramesOk(classify, frames'))
      && (end == "" ==> forall line :: classify(line).ElseLine? ==> FramesOk(classify, frames' + [Frame(line, [])]))
  {
    hide Complete, KidOk, Along, Follow;
    var top, below := frames[|frames| - 1], frames[..|frames| - 1];
    var b := Block(top.start, top.kids, end);
    var kids := TopKids(below) + [b];
    FinishedKidOk(classify, frames, end);
    AlongSnoc(classify, TopKids(below), b);
    assert Follow(classify, b, PrevOf(TopKids(below))).Some?;
    assert Along(classify, kids).Some? && PrevOf(kids) == NextPrev(b);
    CompleteIf(classify, kids);
    NothingComplete(classify);
    var frames' := Finished(frames, end);
    forall i | 0 <= i < |frames'| - 1 ensures StartOk(classify, frames'[i + 1].start, PrevOf(frames'[i].kids)) {
      assert frames'[i] == frames[i] && frames'[i + 1].start == frames[i + 1].start;
    }
  }

  lemma FinishedKidOk(classify: Classifier, frames: seq<Frame>, end: string)
    requires frames != [] && FramesOk(classify, frames) && |frames| > 1 && (end == "" || classify(end).EndifLine?)
    ensures var top, below := frames[|frames| - 1], frames[|frames| - 2];
      Follow(classify, Block(top.start, top.kids, end), PrevOf(below.kids)).Some?
  {
    hide Complete, Along;
    assert frames[|frames| - 2 + 1] == frames[|frames| - 1];
    assert StartOk(classify, frames[|frames| - 1].start, PrevOf(frames[|frames| - 2].kids));
  }

  lemma CompleteIf(classify: Classifier, kids: seq<Snippet>)
    requires kids != []
    ensures Complete(classify, kids) <==> Along(classify, kids).Some? && !LeavesOpen(kids[|kids| - 1])
  {
    AlongSnoc(classify, kids[..|kids| - 1], kids[|kids| - 1]);
    assert kids == kids[..|kids| - 1] + [kids[|kids| - 1]];
  }

  lemma NothingComplete(classify: Classifier)
    ensures Complete(classify, []) && Along(classify, []) == Some(Neutral)
  {
  }

  lemma EnteredOk(classify: Classifier, line: string, linenum: nat, frames: seq<Frame>)
    requires frames != [] && FramesOk(classify, frames) && line != "" && Rereads(classify, line)
    requires Entered(classify(line), line, linenum, frames).Some?
    ensures FramesOk(classify, Entered(classify(line), line, linenum, frames).value)
  {
    hide FramesOk, Along, WithCode, Finished, TopWith;
    TopComplete(classify, frames);
    match classify(line) {
      case IncludeLine(_, _, _, _) =>
        AlongSnoc(classify, TopKids(frames), Inc(AsInclude(classify(line), linenum)));
        TopOk(classify, frames, TopKids(frames) + [Inc(AsInclude(classify(line), linenum))]);
      case OpenLine =>
        OpenedOk(classify, frames, line);
      case ElseLine =>
        FinishedOk(classify, frames, "");
      case EndifLine =>
        FinishedOk(classify, frames, line);
      case OrdinaryLine =>
        CodeOk(classify, TopKids(frames), line);
        TopOk(classify, frames, WithCode(TopKids(frames), line));
    }
  }

  lemma TopComplete(classify: Classifier, frames: seq<Frame>)
    requires frames != [] && FramesOk(classify, frames)
    ensures Complete(classify, TopKids(frames))
  {
  }

  lemma OpenedOk(classify: Classifier, frames: seq<Frame>, line: string)
    requires frames != [] && FramesOk(classify, frames) && classify(line).OpenLine?
    ensures FramesOk(classify, frames + [Frame(line, [])])
  {
    hide Along, Complete;
    NothingComplete(classify);
    CompletePrev(classify, TopKids(frames));
    var frames' := frames + [Frame(line, [])];
    forall i | 0 <= i < |frames'| - 1 ensures StartOk(classify, frames'[i + 1].start, PrevOf(frames'[i].kids)) {
      assert frames'[i] == frames[i];
    }
  }

  lemma CompletePrev(classify: Classifier, kids: seq<Snippet>)
    requires Complete(classify, kids)
    ensures !PrevOf(kids).AfterOpen?
  {
    if kids != [] {
      CompleteIf(classify, kids);
    }
  }

  lemma {:induction false} ReadOk(classify: Classifier, lines: seq<string>, linenum: nat, frames: seq<Frame>)
    requires frames != [] && FramesOk(classify, frames) && ReadOn(classify, lines, linenum, frames).Some?
    requires forall i :: 0 <= i < |lines| ==> lines[i] != "" && Rereads(classify, lines[i])
    ensures FramesOk(classify, ReadOn(classify, lines, linenum, frames).value)
    decreases |lines|
  {
    hide FramesOk, Entered, Rereads;
    if lines != [] {
      EnteredOk(classify, lines[0], linenum, frames);
      ReadOk(classify, lines[1..], linenum + 1, Entered(classify(lines[0]), lines[0], linenum, frames).value);
    }
  }

  lemma TreeOk(classify: Classifier, lines: seq<string>)
    requires FileTree(classify, lines).Some?
    requires forall i :: 0 <= i < |lines| ==> lines[i] != "" && Rereads(classify, lines[i])
    ensures Complete(classify, FileTree(classify, lines).value.kids)
  {
    hide Complete, ReadOn, Rereads;
    NothingComplete(classify);
    assert FramesOk(classify, NOTHING_READ) by { assert NOTHING_READ[0].kids == []; }
    ReadOk(classify, lines, 1, NOTHING_READ);
  }

  // Reading what is written -------------------------------------------------------------------------

  /** The same but for the line numbers of includes. */
  ghost predicate Alike(a: Snippet, b: Snippet)
    decreases a, 1
  {
    match a
    case Inc(inc) => b.Inc? && b.inc.(linenum := 0) == inc.(linenum := 0)
    case Code(_) => b == a
    case Block(start, kids, end) => b.Block? && b.start == start && b.end == end && AllAlike(kids, b.kids)
  }

  ghost predicate AllAlike(a: seq<Snippet>, b: seq<Snippet>)
    decreases a, 0
  {
    |a| == |b| && forall i :: 0 <= i < |a| ==> Alike(a[i], b[i])
  }

  lemma {:induction false} AlikeSource(a: Snippet, b: Snippet)
    requires Alike(a, b)
    ensures ToSource(b) == ToSource(a)
    decreases a, 1
  {
    if a.Block? {
      AllAlikeSource(a.kids, b.kids);
    } else if a.Inc? {
      assert b.inc == a.inc.(linenum := b.inc.linenum);
    }
  }

  lemma {:induction false} AllAlikeSource(a: seq<Snippet>, b: seq<Snippet>)
    requires AllAlike(a, b)
    ensures KidsSource(b) == KidsSource(a)
    decreases a, 0
  {
    hide ToSource;
    if a != [] {
      AlikeSource(a[0], b[0]);
      assert forall i :: 0 <= i < |a[1..]| ==> Alike(a[1..][i], b[1..][i]);
      AllAlikeSource(a[1..], b[1..]);
    }
  }

  /** The blocks being read once these kids have been read into a block that starts with this line. */
  function Holding(base: seq<Frame>, start: string, kids: seq<Snippet>): (frames: seq<Frame>)
    ensures frames != []
  {
    if PrevOf(kids).AfterOpen? then
      var last := kids[|kids| - 1];
      base + [Frame(start, kids[..|kids| - 1]), Frame(last.start, last.kids)]
    else base + [Frame(start, kids)]
  }

  /** The next line finishes the block that is still open, if there is one. */
  lemma HoldingFinished(base: seq<Frame>, start: string, kids: seq<Snippet>)
    requires PrevOf(kids).AfterOpen?
    ensures |Holding(base, start, kids)| > 1 && Finished(Holding(base, start, kids), "") == base + [Frame(start, kids)]
  {
    var last := kids[|kids| - 1];
    var frames := Holding(base, start, kids);
    assert frames[..|frames| - 1] == base + [Frame(start, kids[..|kids| - 1])];
    assert kids == kids[..|kids| - 1] + [last] && last == Block(last.start, last.kids, "");
  }

  lemma {:induction false} ReadOnSplit(classify: Classifier, a: seq<string>, b: seq<string>, linenum: nat,
                                       frames: seq<Frame>)
    requires frames != []
    ensures ReadOn(classify, a + b, linenum, frames) ==
      match ReadOn(classify, a, linenum, frames)
        case None => None
        case Some(frames') => ReadOn(classify, b, linenum + |a|, frames')
    decreases |a|
  {
    hide Entered;
    if a == [] {
      assert a + b == b;
    } else {
      assert (a + b)[1..] == a[1..] + b;
      var next := Entered(classify(a[0]), a[0], linenum, frames);
      if next.Some? {
        ReadOnSplit(classify, a[1..], b, linenum + 1, next.value);
      }
    }
  }

  lemma ReadLineOn(classify: Classifier, line: string, linenum: nat, frames: seq<Frame>)
    requires frames != []
    ensures ReadOn(classify, [line], linenum, frames) == Entered(classify(line), line, linenum, frames)
  {
    assert [line][1..] == [];
  }

  /** Further lines of code. */
  lemma {:induction false} RereadCode(classify: Classifier, lines: seq<string>, linenum: nat, base: seq<Frame>,
                                      start: string, kids: seq<Snippet>, before: seq<string>)
    requires forall i :: 0 <= i < |lines| ==> classify(lines[i]).OrdinaryLine?
    ensures ReadOn(classify, lines, linenum, base + [Frame(start, kids + [Code(before)])])
      == Some(base + [Frame(start, kids + [Code(before + lines)])])
    decreases |lines|
  {
    var frames := base + [Frame(start, kids + [Code(before)])];
    if lines == [] {
      assert before + lines == before;
    } else {
      assert frames[..|frames| - 1] == base;
      assert (kids + [Code(before)])[..|kids|] == kids;
      assert Entered(OrdinaryLine, lines[0], linenum, frames)
        == Some(base + [Frame(start, kids + [Code(before + [lines[0]])])]);
      RereadCode(classify, lines[1..], linenum + 1, base, start, kids, before + [lines[0]]);
      assert before + [lines[0]] + lines[1..] == before + lines;
    }
  }

  lemma RereadInc(classify: Classifier, s: Snippet, linenum: nat, base: seq<Frame>, start: string, kids: seq<Snippet>)
      returns (again: Snippet)
    requires s.Inc? && KidOk(classify, s) && !PrevOf(kids).AfterOpen?
    ensures Alike(s, again)
    ensures ReadOn(classify, SnippetLines(s), linenum, Holding(base, start, kids))
      == Some(Holding(base, start, kids + [again]))
  {
    var line := s.inc.ToSource();
    again := Inc(AsInclude(classify(line), linenum));
    ReadLineOn(classify, line, linenum, Holding(base, start, kids));
    var frames := Holding(base, start, kids);
    assert frames[..|frames| - 1] == base;
    assert PrevOf(kids + [again]) == Neutral;
  }

  /** The first line of code. */
  lemma RunStarts(classify: Classifier, line: string, linenum: nat, base: seq<Frame>, start: string,
                  kids: seq<Snippet>)
    requires classify(line).OrdinaryLine? && PrevOf(kids).Neutral?
    ensures Entered(classify(line), line, linenum, base + [Frame(start, kids)])
      == Some(base + [Frame(start, kids + [Code([line])])])
  {
    var frames := base + [Frame(start, kids)];
    assert frames[..|frames| - 1] == base;
  }

  lemma CodeComesAfter(kids: seq<Snippet>, s: Snippet)
    requires s.Code?
    ensures PrevOf(kids + [s]) == AfterCode
  {
  }

  lemma RereadRun(classify: Classifier, s: Snippet, linenum: nat, base: seq<Frame>, start: string, kids: seq<Snippet>)
    requires s.Code? && KidOk(classify, s) && PrevOf(kids).Neutral?
    ensures ReadOn(classify, SnippetLines(s), linenum, Holding(base, start, kids))
      == Some(Holding(base, start, kids + [s]))
  {
    hide ReadOn, PrevOf, Holding;
    var frames := base + [Frame(start, kids)];
    HoldingAll(base, start, kids);
    RunStarts(classify, s.lines[0], linenum, base, start, kids);
    ReadLineOn(classify, s.lines[0], linenum, frames);
    ReadOnSplit(classify, [s.lines[0]], s.lines[1..], linenum, frames);
    RereadCode(classify, s.lines[1..], linenum + 1, base, start, kids, [s.lines[0]]);
    assert [s.lines[0]] + s.lines[1..] == s.lines;
    CodeComesAfter(kids, s);
    HoldingAll(base, start, kids + [s]);
  }

  /** The first line of a block. */
  lemma RereadStart(classify: Classifier, line: string, linenum: nat, base: seq<Frame>, start: string,
                    kids: seq<Snippet>)
    requires StartOk(classify, line, PrevOf(kids))
    ensures Entered(classify(line), line, linenum, Holding(base, start, kids))
      == Some(base + [Frame(start, kids)] + [Frame(line, [])])
  {
    if PrevOf(kids).AfterOpen? {
      HoldingFinished(base, start, kids);
    }
  }

  /** The last line of a block, if it has one. */
  lemma RereadEnd(classify: Classifier, b: Snippet, linenum: nat, base: seq<Frame>, start: string, kids: seq<Snippet>)
    requires b.Block? && (b.end == "" || classify(b.end).EndifLine?)
    ensures ReadOn(classify, EndLine(b.end), linenum, base + [Frame(start, kids)] + [Frame(b.start, b.kids)])
      == Some(Holding(base, start, kids + [b]))
  {
    var frames := base + [Frame(start, kids)] + [Frame(b.start, b.kids)];
    assert (kids + [b])[..|kids|] == kids && (kids + [b])[|kids|] == b;
    if b.end == "" {
      assert frames == base + [Frame(start, kids), Frame(b.start, b.kids)];
    } else {
      ReadLineOn(classify, b.end, linenum, frames);
      assert frames[..|frames| - 1] == base + [Frame(start, kids)];
      assert (base + [Frame(start, kids)])[..|base|] == base;
      assert b == Block(b.start, b.kids, b.end);
    }
  }

  lemma {:induction false} RereadSnippet(classify: Classifier, s: Snippet, linenum: nat, base: seq<Frame>,
                                         start: string, kids: seq<Snippet>)
      returns (again: Snippet)
    requires Follow(classify, s, PrevOf(kids)).Some?
    ensures Alike(s, again)
    ensures ReadOn(classify, SnippetLines(s), linenum, Holding(base, start, kids))
      == Some(Holding(base, start, kids + [again]))
    decreases s, 1
  {
    hide Entered, Along, Holding, SnippetLines, ReadOn, PrevOf;
    match s {
      case Inc(_) =>
        again := RereadInc(classify, s, linenum, base, start, kids);
      case Code(_) =>
        RereadRun(classify, s, linenum, base, start, kids);
        again := s;
      case Block(_, _, _) =>
        RereadStart(classify, s.start, linenum, base, start, kids);
        AlongSome(classify, s.kids);
        var inner := RereadKids(classify, s.kids, linenum + 1, base + [Frame(start, kids)], s.start);
        again := Block(s.start, inner, s.end);
        AlikeComplete(classify, s.kids, inner);
        RereadBlock(classify, s, linenum, base, start, kids, again);
    }
  }

  /** A block, of which the lines inside have been read. */
  lemma RereadBlock(classify: Classifier, s: Snippet, linenum: nat, base: seq<Frame>, start: string,
                    kids: seq<Snippet>, again: Snippet)
    requires s.Block? && again.Block? && again.start == s.start && again.end == s.end
    requires s.end == "" || classify(s.end).EndifLine?
    requires Entered(classify(s.start), s.start, linenum, Holding(base, start, kids))
      == Some(base + [Frame(start, kids)] + [Frame(s.start, [])])
    requires ReadOn(classify, KidsLines(s.kids), linenum + 1, base + [Frame(start, kids)] + [Frame(s.start, [])])
      == Some(base + [Frame(start, kids)] + [Frame(s.start, again.kids)])
    ensures ReadOn(classify, SnippetLines(s), linenum, Holding(base, start, kids))
      == Some(Holding(base, start, kids + [again]))
  {
    hide Entered, Holding, KidsLines, ReadOn;
    var frames := Holding(base, start, kids);
    ReadLineOn(classify, s.start, linenum, frames);
    ReadOnSplit(classify, [s.start] + KidsLines(s.kids), EndLine(s.end), linenum, frames);
    ReadOnSplit(classify, [s.start], KidsLines(s.kids), linenum, frames);
    RereadEnd(classify, again, linenum + 1 + |KidsLines(s.kids)|, base, start, kids);
  }

  lemma AlikeComplete(classify: Classifier, kids: seq<Snippet>, again: seq<Snippet>)
    requires Complete(classify, kids) && AllAlike(kids, again)
    ensures PrevOf(again) == PrevOf(kids) && !PrevOf(again).AfterOpen?
  {
    if kids != [] {
      CompleteIf(classify, kids);
      assert Alike(kids[|kids| - 1], again[|kids| - 1]);
    }
  }

  /** Reading what kids are written as, inside a block that starts with this line, gives the kids again. */
  lemma {:induction false} RereadKids(classify: Classifier, kids: seq<Snippet>, linenum: nat, base: seq<Frame>,
                                      start: string)
      returns (again: seq<Snippet>)
    requires Along(classify, kids).Some?
    ensures AllAlike(kids, again)
    ensures ReadOn(classify, KidsLines(kids), linenum, base + [Frame(start, [])]) == Some(Holding(base, start, again))
    ensures Complete(classify, kids) ==> Holding(base, start, again) == base + [Frame(start, again)]
    decreases kids, 0
  {
    hide Entered, Holding, SnippetLines, ReadOn, KidsLines, PrevOf, Follow, AllAlike, Along, Complete;
    if kids == [] {
      again := [];
      NothingReread(classify, linenum, base, start);
    } else {
      var init, last := kids[..|kids| - 1], kids[|kids| - 1];
      assert kids == init + [last];
      AlongSnoc(classify, init, last);
      var before := RereadKids(classify, init, linenum, base, start);
      AlikePrev(init, before);
      var s := RereadSnippet(classify, last, linenum + |KidsLines(init)|, base, start, before);
      again := before + [s];
      AllAlikeSnoc(init, before, last, s);
      KidsLinesSnoc(init, last);
      ReadOnSplit(classify, KidsLines(init), SnippetLines(last), linenum, base + [Frame(start, [])]);
    }
    if Complete(classify, kids) {
      AlikeComplete(classify, kids, again);
      HoldingAll(base, start, again);
    }
  }

  lemma NothingReread(classify: Classifier, linenum: nat, base: seq<Frame>, start: string)
    ensures AllAlike([], []) && Complete(classify, [])
    ensures ReadOn(classify, KidsLines([]), linenum, base + [Frame(start, [])]) == Some(Holding(base, start, []))
  {
  }

  lemma AllAlikeSnoc(a: seq<Snippet>, b: seq<Snippet>, s: Snippet, s': Snippet)
    requires AllAlike(a, b) && Alike(s, s')
    ensures AllAlike(a + [s], b + [s'])
  {
  }

  lemma HoldingAll(base: seq<Frame>, start: string, kids: seq<Snippet>)
    requires !PrevOf(kids).AfterOpen?
    ensures Holding(base, start, kids) == base + [Frame(start, kids)]
  {
  }

  lemma AlikePrev(a: seq<Snippet>, b: seq<Snippet>)
    requires AllAlike(a, b)
    ensures PrevOf(a) == PrevOf(b)
  {
    if a != [] {
      assert Alike(a[|a| - 1], b[|a| - 1]);
    }
  }

  /** Reading the lines a whole file is written as. */
  lemma RereadFile(classify: Classifier, kids: seq<Snippet>) returns (again: seq<Snippet>)
    requires Complete(classify, kids)
    ensures AllAlike(kids, again) && FileTree(classify, KidsLines(kids)) == Some(Block("", again, ""))
  {
    hide Complete, Along, ReadOn, KidsLines, AllAlike;
    AlongSome(classify, kids);
    again := RereadKids(classify, kids, 1, [], "");
    assert [] + [Frame("", [])] == NOTHING_READ;
    assert [] + [Frame("", again)] == [Frame("", again)];
  }

  lemma AlongSome(classify: Classifier, kids: seq<Snippet>)
    requires Complete(classify, kids)
    ensures Along(classify, kids).Some?
  {
  }
}
