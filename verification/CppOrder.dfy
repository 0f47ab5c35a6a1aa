/**
 * What --fixup of config/check_spidermonkey_style.py makes of the includes of a file, in terms of their names: which
 * batches it leaves alone, in what order the includes of the others come out, and where blank lines go.
 */
module CppOrder {
  import opened CppGrammar
  import opened CppKeys
  import opened CppNames
  import opened CppSnippets
  import opened CppSorter
  import opened CppSorterLaws
  import opened Sequences
  import opened Sorting
  import opened Wrappers

  // Runs --------------------------------------------------------------------------------------------

  /** Lines of white space. */
  ghost predicate IsBlankCode(s: Snippet) {
    s.Code? && (exists line :: line in s.lines && line != "") && forall line :: line in s.lines ==> AllBlank(line)
  }

  /** Includes and blank lines may be moved; code and blocks separate runs of them. */
  ghost predicate MayMove(s: Snippet) {
    s.Inc? || IsBlankCode(s)
  }

  /** The length of the run at the start. */
  ghost function FirstRun(kids: seq<Snippet>): (n: nat)
    ensures n <= |kids|
  {
    if kids == [] || !MayMove(kids[0]) then 0 else 1 + FirstRun(kids[1..])
  }

  /** Some include stands behind one that it belongs in front of. */
  ghost predicate OutOfOrder(enclosing: string, run: seq<Snippet>) {
    exists i, j :: 0 <= i < j < |run| && run[i].Inc? && run[j].Inc? && Earlier(enclosing, run[j].inc, run[i].inc)
  }

  /** A run is sorted if it is out of order, unless the file or one of the includes is an exception. */
  ghost predicate Touches(enclosing: string, run: seq<Snippet>) {
    && !Occurs(enclosing, "tests/style/BadIncludes")
    && (forall inc :: Inc(inc) in run ==> inc.inclname !in {
          "ctypes/typedefs.h", "frontend/ReservedWordsGenerated.h", "gc/StatsPhasesGenerated.h",
          "gc/StatsPhasesGenerated.inc", "machine/endian.h", "psapi.h", "winbase.h", "windef.h"})
    && OutOfOrder(enclosing, run)
  }

  /** Sorting would have to compare two includes of the same place. */
  ghost predicate Clashes(enclosing: string, run: seq<Snippet>) {
    && Touches(enclosing, run)
    && exists i, j :: 0 <= i < j < |run| && run[i].Inc? && run[j].Inc? && SamePlace(enclosing, run[i].inc, run[j].inc)
  }

  /** Each include belongs in front of all that follow; between two is a blank line exactly if their ranks differ. */
  ghost predicate InPlaces(enclosing: string, run: seq<Snippet>) {
    && (forall i, j :: 0 <= i < j < |run| && run[i].Inc? && run[j].Inc? ==>
        Earlier(enclosing, run[i].inc, run[j].inc))
    && (forall i :: 0 <= i < |run| && !run[i].Inc? ==>
        && run[i] == Code(["\n"]) && 0 < i < |run| - 1 && run[i - 1].Inc? && run[i + 1].Inc?
        && !SameRank(enclosing, run[i - 1].inc, run[i + 1].inc))
    && forall i :: 0 <= i < |run| - 1 && run[i].Inc? && run[i + 1].Inc? ==>
        SameRank(enclosing, run[i].inc, run[i + 1].inc)
  }

  /** The blank lines after the last include. */
  ghost predicate IsTail(run: seq<Snippet>, tail: seq<Snippet>) {
    exists n :: 0 <= n <= |run| && tail == run[n..] && (n > 0 ==> run[n - 1].Inc?)
      && forall i :: n <= i < |run| ==> !run[i].Inc?
  }

  ghost predicate SameIncludes(run: seq<Snippet>, out: seq<Snippet>) {
    forall inc :: multiset(out)[Inc(inc)] == multiset(run)[Inc(inc)]
  }

  /** What a run becomes. */
  ghost predicate RunSortedAs(enclosing: string, run: seq<Snippet>, out: seq<Snippet>) {
    if Touches(enclosing, run) then
      exists front, tail ::
        out == front + tail && IsTail(run, tail) && SameIncludes(run, front) && InPlaces(enclosing, front)
    else out == run
  }

  // Trees -------------------------------------------------------------------------------------------

  ghost predicate SortedAs(enclosing: string, s: Snippet, r: Snippet)
    decreases s, 1
  {
    match s
    case Block(start, kids, end) =>
      r.Block? && r.start == start && r.end == end && KidsSortedAs(enclosing, kids, r.kids)
    case _ => r == s
  }

  /** Run by run; what separates them stays in place, and blocks are sorted inside. */
  ghost predicate KidsSortedAs(enclosing: string, kids: seq<Snippet>, out: seq<Snippet>)
    decreases kids, 0
  {
    var n := FirstRun(kids);
    if n == |kids| then RunSortedAs(enclosing, kids, out)
    else
      exists run, s, rest ::
        && out == run + [s] + rest && RunSortedAs(enclosing, kids[..n], run)
        && SortedAs(enclosing, kids[n], s) && KidsSortedAs(enclosing, kids[n + 1..], rest)
  }

  /** Some run clashes, at any depth. */
  ghost predicate HasClash(enclosing: string, s: Snippet)
    decreases s, 1
  {
    s.Block? && KidsClash(enclosing, s.kids)
  }

  ghost predicate KidsClash(enclosing: string, kids: seq<Snippet>)
    decreases kids, 0
  {
    var n := FirstRun(kids);
    || Clashes(enclosing, kids[..n])
    || (n < |kids| && (HasClash(enclosing, kids[n]) || KidsClash(enclosing, kids[n + 1..])))
  }

  // Blank code --------------------------------------------------------------------------------------

  ghost predicate AllBlankLines(lines: seq<string>) {
    forall line :: line in lines ==> AllBlank(line)
  }

  ghost predicate SomeText(lines: seq<string>) {
    exists line :: line in lines && line != ""
  }

  lemma {:induction false} ConcatBlank(lines: seq<string>)
    ensures AllBlank(Concat(lines)) <==> AllBlankLines(lines)
    ensures Concat(lines) != "" <==> SomeText(lines)
  {
    hide AllBlank, AllBlankLines, SomeText;
    if lines == [] {
      NothingIsBlank();
    } else {
      ConcatBlank(lines[1..]);
      assert Concat(lines) == lines[0] + Concat(lines[1..]);
      LinesStep(lines);
      BlankJoined(lines[0], Concat(lines[1..]));
    }
  }

  lemma LinesStep(lines: seq<string>)
    requires lines != []
    ensures AllBlankLines(lines) <==> AllBlank(lines[0]) && AllBlankLines(lines[1..])
    ensures SomeText(lines) <==> lines[0] != "" || SomeText(lines[1..])
  {
    hide AllBlank;
    assert lines == [lines[0]] + lines[1..] && lines[0] in lines;
    if line :| line in lines[1..] && line != "" {
      assert line in lines;
    }
  }

  lemma NothingIsBlank()
    ensures AllBlank("") && AllBlankLines([]) && !SomeText([])
  {
  }

  lemma BlankJoined(a: string, b: string)
    ensures AllBlank(a + b) <==> AllBlank(a) && AllBlank(b)
  {
    hide Blank;
    if AllBlank(a + b) {
      forall i | 0 <= i < |a| ensures Blank(a[i]) {
        assert (a + b)[i] == a[i];
      }
      forall i | 0 <= i < |b| ensures Blank(b[i]) {
        assert (a + b)[|a| + i] == b[i];
      }
    }
  }

  lemma SpaceIff(s: string)
    ensures IsSpace(s) <==> s != "" && AllBlank(s)
  {
  }

  lemma MayMoveIff(s: Snippet)
    ensures MayMove(s) <==> !IsBreaker(s)
  {
    hide AllBlank, IsSpace, Concat;
    if s.Code? {
      ConcatBlank(s.lines);
      SpaceIff(Concat(s.lines));
    }
  }

  // Includes of a run -------------------------------------------------------------------------------

  ghost predicate Pairwise(r: (Include, Include) -> bool, s: seq<Snippet>) {
    forall i, j :: 0 <= i < j < |s| && s[i].Inc? && s[j].Inc? ==> r(s[i].inc, s[j].inc)
  }

  ghost predicate PairwiseIn(r: (Include, Include) -> bool, s: seq<Include>) {
    forall i, j :: 0 <= i < j < |s| ==> r(s[i], s[j])
  }

  lemma {:induction false} IncludesOf(s: seq<Snippet>, inc: Include)
    ensures inc in Includes(s) <==> Inc(inc) in s
    ensures multiset(s)[Inc(inc)] == multiset(Includes(s))[inc]
  {
    hide Includes;
    IncludesHead(s);
    if s != [] {
      IncludesOf(s[1..], inc);
      CountsStep(s, Includes(s[1..]), inc);
    }
  }

  lemma CountsStep(s: seq<Snippet>, rest: seq<Include>, inc: Include)
    requires s != []
    ensures Inc(inc) in s <==> s[0] == Inc(inc) || Inc(inc) in s[1..]
    ensures multiset(s)[Inc(inc)] == multiset(s[1..])[Inc(inc)] + if s[0] == Inc(inc) then 1 else 0
    ensures s[0].Inc? ==>
      multiset([s[0].inc] + rest)[inc] == multiset(rest)[inc] + if s[0].inc == inc then 1 else 0
    ensures [] + rest == rest
  {
    assert s == [s[0]] + s[1..];
  }

  lemma PairwiseCons(r: (Include, Include) -> bool, x: Include, rest: seq<Include>)
    ensures PairwiseIn(r, [x] + rest) <==> PairwiseIn(r, rest) && forall y :: y in rest ==> r(x, y)
  {
    var s := [x] + rest;
    if PairwiseIn(r, s) {
      forall i, j | 0 <= i < j < |rest| ensures r(rest[i], rest[j]) {
        assert s[i + 1] == rest[i] && s[j + 1] == rest[j];
      }
      forall y | y in rest ensures r(x, y) {
        var i :| 0 <= i < |rest| && rest[i] == y;
        assert s[0] == x && s[i + 1] == y;
      }
    }
  }

  lemma PairwiseStep(r: (Include, Include) -> bool, s: seq<Snippet>)
    requires s != []
    ensures Pairwise(r, s) <==>
      Pairwise(r, s[1..]) && (s[0].Inc? ==> forall y :: Inc(y) in s[1..] ==> r(s[0].inc, y))
  {
    if Pairwise(r, s) {
      forall i, j | 0 <= i < j < |s| - 1 && s[1..][i].Inc? && s[1..][j].Inc?
        ensures r(s[1..][i].inc, s[1..][j].inc)
      {
        assert s[i + 1] == s[1..][i] && s[j + 1] == s[1..][j];
      }
      forall y | Inc(y) in s[1..] && s[0].Inc? ensures r(s[0].inc, y) {
        var i :| 0 <= i < |s| - 1 && s[1..][i] == Inc(y);
        assert s[i + 1] == Inc(y);
      }
    }
    if Pairwise(r, s[1..]) && (s[0].Inc? ==> forall y :: Inc(y) in s[1..] ==> r(s[0].inc, y)) {
      forall i, j | 0 <= i < j < |s| && s[i].Inc? && s[j].Inc? ensures r(s[i].inc, s[j].inc) {
        assert s[j] == s[1..][j - 1];
        if i > 0 {
          assert s[i] == s[1..][i - 1];
        } else {
          assert Inc(s[j].inc) in s[1..];
        }
      }
    }
  }

  /** What holds between the includes of a run holds between the includes in it. */
  lemma {:induction false} PairwiseIff(r: (Include, Include) -> bool, s: seq<Snippet>)
    ensures Pairwise(r, s) <==> PairwiseIn(r, Includes(s))
  {
    hide Pairwise, PairwiseIn;
    if s == [] {
      NothingPairwise(r);
    } else {
      PairwiseIff(r, s[1..]);
      PairwiseStep(r, s);
      IncludesHead(s);
      forall inc ensures inc in Includes(s[1..]) <==> Inc(inc) in s[1..] {
        IncludesOf(s[1..], inc);
      }
      if s[0].Inc? {
        PairwiseCons(r, s[0].inc, Includes(s[1..]));
      } else {
        assert [] + Includes(s[1..]) == Includes(s[1..]);
      }
    }
  }

  lemma NothingPairwise(r: (Include, Include) -> bool)
    ensures Pairwise(r, []) && PairwiseIn(r, [])
  {
  }

  // Which runs are sorted ---------------------------------------------------------------------------

  function NotBehind(style: Style): (Include, Include) -> bool {
    (a: Include, b: Include) => !ByKey(style)(b, a)
  }

  lemma OutOfOrderIff(enclosing: string, run: seq<Snippet>)
    ensures OutOfOrder(enclosing, run) <==> !InOrder(ByKey(StyleOf(enclosing)), Includes(run))
  {
    hide Earlier, ByKey, Includes, StyleOf;
    var style := StyleOf(enclosing);
    PairwiseIff(NotBehind(style), run);
    forall a, b ensures Earlier(enclosing, a, b) <==> ByKey(style)(a, b) {
      EarlierIff(enclosing, a, b);
    }
    assert InOrder(ByKey(style), Includes(run)) <==> PairwiseIn(NotBehind(style), Includes(run));
    assert OutOfOrder(enclosing, run) <==> !Pairwise(NotBehind(style), run);
  }

  lemma SortedIff(style: Style, includes: seq<Include>)
    ensures includes == Sort(ByKey(style), includes) <==> InOrder(ByKey(style), includes)
  {
    hide ByKey, Sort, InOrder, StrictWeak;
    KeyOrder(style);
    SortKeeps(ByKey(style), includes);
    if InOrder(ByKey(style), includes) {
      SortOfSorted(ByKey(style), includes);
    }
  }

  lemma StyleIs(enclosing: string)
    ensures StyleOf(enclosing).exempt <==> Occurs(enclosing, "tests/style/BadIncludes")
    ensures StyleOf(enclosing).odd == {
        "ctypes/typedefs.h", "frontend/ReservedWordsGenerated.h", "gc/StatsPhasesGenerated.h",
        "gc/StatsPhasesGenerated.inc", "machine/endian.h", "psapi.h", "winbase.h", "windef.h"}
    ensures forall inc :: StyleOf(enclosing).key(inc) == SortKey(enclosing, inc)
  {
    hide Contains, SortKey, Occurs;
    ContainsIff(enclosing, "tests/style/BadIncludes");
  }

  lemma TouchesIff(enclosing: string, run: seq<Snippet>)
    ensures Touches(enclosing, run) <==> ShouldTry(StyleOf(enclosing), Includes(run))
  {
    hide OutOfOrder, InOrder, Sort, ByKey, StyleOf, Includes, Occurs;
    var includes := Includes(run);
    OutOfOrderIff(enclosing, run);
    SortedIff(StyleOf(enclosing), includes);
    StyleIs(enclosing);
    forall inc ensures inc in includes <==> Inc(inc) in run {
      IncludesOf(run, inc);
    }
    assert forall i :: 0 <= i < |includes| ==> includes[i] in includes;
  }

  function OtherKey(style: Style): (Include, Include) -> bool {
    (a: Include, b: Include) => style.key(a) != style.key(b)
  }

  lemma ClashesIff(enclosing: string, run: seq<Snippet>)
    ensures Clashes(enclosing, run) <==> !Flushable(StyleOf(enclosing), run)
  {
    hide Touches, ShouldTry, SamePlace, Includes, StyleOf, SortKey;
    var style := StyleOf(enclosing);
    TouchesIff(enclosing, run);
    StyleIs(enclosing);
    PairwiseIff(OtherKey(style), run);
    forall a, b ensures SamePlace(enclosing, a, b) <==> style.key(a) == style.key(b) {
      SamePlaceIff(enclosing, a, b);
    }
    assert DistinctKeys(style, Includes(run)) <==> PairwiseIn(OtherKey(style), Includes(run));
    assert Clashes(enclosing, run) <==> Touches(enclosing, run) && !Pairwise(OtherKey(style), run);
  }

  // What they become --------------------------------------------------------------------------------

  /** Blank lines stand between includes of different sections, and only there. */
  ghost predicate BlanksBetween(style: Style, run: seq<Snippet>) {
    && (forall i :: 0 <= i < |run| && !run[i].Inc? ==>
        && run[i] == BLANK_LINE && 0 < i < |run| - 1 && run[i - 1].Inc? && run[i + 1].Inc?
        && style.key(run[i - 1].inc).0 != style.key(run[i + 1].inc).0)
    && forall i :: 0 <= i < |run| - 1 && run[i].Inc? && run[i + 1].Inc? ==>
        style.key(run[i].inc).0 == style.key(run[i + 1].inc).0
  }

  lemma {:induction false} SeparatedBlanks(style: Style, includes: seq<Include>)
    ensures BlanksBetween(style, Separated(style, includes))
    ensures includes != [] ==> Separated(style, includes) != [] && Separated(style, includes)[0] == Inc(includes[0])
  {
    hide BlanksBetween;
    if |includes| > 1 {
      SeparatedBlanks(style, includes[1..]);
      OneMore(style, includes[0], includes[1], Separated(style, includes[1..]));
    } else {
      FewIncludes(style, includes);
    }
  }

  lemma FewIncludes(style: Style, includes: seq<Include>)
    requires |includes| <= 1
    ensures BlanksBetween(style, Separated(style, includes))
    ensures includes != [] ==> Separated(style, includes) == [Inc(includes[0])]
  {
    if includes != [] {
      assert includes[1..] == [] && [Inc(includes[0])] + [] == [Inc(includes[0])];
    }
  }

  lemma OneMore(style: Style, x: Include, y: Include, rest: seq<Snippet>)
    requires BlanksBetween(style, rest) && rest != [] && rest[0] == Inc(y)
    ensures style.key(x).0 != style.key(y).0 ==> BlanksBetween(style, [Inc(x), BLANK_LINE] + rest)
    ensures style.key(x).0 == style.key(y).0 ==> BlanksBetween(style, [Inc(x)] + rest)
  {
  }

  lemma {:induction false} CutoffIsTail(run: seq<Snippet>)
    ensures Cutoff(run) > 0 ==> run[Cutoff(run) - 1].Inc?
    ensures forall i :: Cutoff(run) <= i < |run| ==> !run[i].Inc?
  {
    if run != [] {
      CutoffIsTail(run[1..]);
    }
  }

  lemma TailIs(run: seq<Snippet>)
    ensures IsTail(run, run[Cutoff(run)..])
  {
    hide Cutoff;
    CutoffIsTail(run);
  }

  lemma InPlacesIf(enclosing: string, front: seq<Snippet>)
    requires var style := StyleOf(enclosing);
      BlanksBetween(style, front) && PairwiseIn(ByKey(style), Includes(front))
    ensures InPlaces(enclosing, front)
  {
    hide Earlier, ByKey, SameRank, Includes, Section, Lower;
    var style := StyleOf(enclosing);
    PairwiseIff(ByKey(style), front);
    forall a, b ensures Earlier(enclosing, a, b) <==> ByKey(style)(a, b) {
      EarlierIff(enclosing, a, b);
    }
    forall a, b ensures SameRank(enclosing, a, b) <==> style.key(a).0 == style.key(b).0 {
      SameRankIff(enclosing, a, b);
    }
  }

  lemma StrictlyOrdered(style: Style, includes: seq<Include>)
    requires DistinctKeys(style, includes)
    ensures PairwiseIn(ByKey(style), Sort(ByKey(style), includes))
  {
    hide ByKey, Sort, StrictWeak;
    KeyOrder(style);
    SortKeeps(ByKey(style), includes);
    PermutedDistinct(style, includes, Sort(ByKey(style), includes));
  }

  lemma SameIncludesIf(run: seq<Snippet>, front: seq<Snippet>)
    requires multiset(Includes(front)) == multiset(Includes(run))
    ensures SameIncludes(run, front)
  {
    hide Includes;
    forall inc ensures multiset(front)[Inc(inc)] == multiset(run)[Inc(inc)] {
      IncludesOf(front, inc);
      IncludesOf(run, inc);
    }
  }

  /** A run that does not clash becomes what this says. */
  lemma RunIsSorted(enclosing: string, run: seq<Snippet>)
    requires Flushable(StyleOf(enclosing), run)
    ensures RunSortedAs(enclosing, run, Flushed(StyleOf(enclosing), run))
  {
    hide *;
    var style, includes := StyleOf(enclosing), Includes(run);
    TouchesIff(enclosing, run);
    FlushedIs(style, run);
    if Touches(enclosing, run) {
      var sorted := Sort(ByKey(style), includes);
      var front, tail := Separated(style, sorted), run[Cutoff(run)..];
      StrictlyOrdered(style, includes);
      SeparatedKeepsIncludes(style, sorted);
      SeparatedBlanks(style, sorted);
      SortIsStable(style, includes);
      InPlacesIf(enclosing, front);
      SameIncludesIf(run, front);
      TailIs(run);
      SortedAsIf(enclosing, run, front, tail);
    } else {
      LeftAlone(enclosing, run);
    }
  }

  lemma FlushedIs(style: Style, run: seq<Snippet>)
    requires Flushable(style, run)
    ensures ShouldTry(style, Includes(run)) ==> DistinctKeys(style, Includes(run))
    ensures Flushed(style, run) == if ShouldTry(style, Includes(run))
                                   then Separated(style, Sort(ByKey(style), Includes(run))) + run[Cutoff(run)..]
                                   else run
  {
  }

  lemma SortedAsIf(enclosing: string, run: seq<Snippet>, front: seq<Snippet>, tail: seq<Snippet>)
    requires Touches(enclosing, run) && IsTail(run, tail) && SameIncludes(run, front) && InPlaces(enclosing, front)
    ensures RunSortedAs(enclosing, run, front + tail)
  {
    hide Touches, IsTail, SameIncludes, InPlaces;
  }

  lemma LeftAlone(enclosing: string, run: seq<Snippet>)
    requires !Touches(enclosing, run)
    ensures RunSortedAs(enclosing, run, run)
  {
    hide Touches;
  }

  // Whole trees -------------------------------------------------------------------------------------

  lemma {:induction false} FirstRunIs(batch: seq<Snippet>, kids: seq<Snippet>)
    requires IsBatch(batch) && (kids == [] || IsBreaker(kids[0]))
    ensures FirstRun(batch + kids) == |batch|
    ensures (batch + kids)[..|batch|] == batch && (kids != [] ==> (batch + kids)[|batch| + 1..] == kids[1..])
  {
    hide MayMove, IsBreaker;
    if batch == [] {
      assert batch + kids == kids;
      if kids != [] {
        MayMoveIff(kids[0]);
      }
    } else {
      MayMoveIff(batch[0]);
      assert (batch + kids)[0] == batch[0] && (batch + kids)[1..] == batch[1..] + kids;
      FirstRunIs(batch[1..], kids);
    }
  }

  lemma KidsSortedIf(enclosing: string, kids: seq<Snippet>, n: nat, run: seq<Snippet>, s: Snippet, rest: seq<Snippet>)
    requires n == FirstRun(kids) < |kids| && RunSortedAs(enclosing, kids[..n], run)
    requires SortedAs(enclosing, kids[n], s) && KidsSortedAs(enclosing, kids[n + 1..], rest)
    ensures KidsSortedAs(enclosing, kids, run + [s] + rest)
  {
    hide RunSortedAs, SortedAs, FirstRun;
  }

  lemma KidsSortedEnd(enclosing: string, kids: seq<Snippet>, out: seq<Snippet>)
    requires FirstRun(kids) == |kids| && RunSortedAs(enclosing, kids, out)
    ensures KidsSortedAs(enclosing, kids, out)
  {
    hide RunSortedAs, FirstRun;
  }

  lemma {:induction false} KidsAreSorted(enclosing: string, kids: seq<Snippet>, batch: seq<Snippet>)
    requires IsBatch(batch) && Sortable(StyleOf(enclosing), kids, batch)
    ensures KidsSortedAs(enclosing, batch + kids, SortedKids(StyleOf(enclosing), kids, batch))
    decreases kids, 0
  {
    hide StyleOf, Flushed, Flushable, IsBatch, IsBreaker, FirstRun, SortedAs, KidsSortedAs, RunSortedAs;
    var style, all := StyleOf(enclosing), batch + kids;
    if kids == [] {
      FirstRunIs(batch, kids);
      RunIsSorted(enclosing, batch);
      assert all == batch;
      KidsSortedEnd(enclosing, batch, Flushed(style, batch));
    } else if IsBreaker(kids[0]) {
      FirstRunIs(batch, kids);
      RunIsSorted(enclosing, batch);
      SnippetIsSorted(enclosing, kids[0]);
      EmptyBatch();
      KidsAreSorted(enclosing, kids[1..], []);
      assert [] + kids[1..] == kids[1..];
      KidsSortedIf(enclosing, all, |batch|, Flushed(style, batch), SortedSnippet(style, kids[0]),
                   SortedKids(style, kids[1..], []));
    } else {
      LongerBatch(batch, kids[0]);
      assert batch + [kids[0]] + kids[1..] == all;
      KidsAreSorted(enclosing, kids[1..], batch + [kids[0]]);
    }
  }

  /** A tree that can be sorted becomes what this says. */
  lemma {:induction false} SnippetIsSorted(enclosing: string, s: Snippet)
    requires SortableSnippet(StyleOf(enclosing), s)
    ensures SortedAs(enclosing, s, SortedSnippet(StyleOf(enclosing), s))
    decreases s, 1
  {
    hide StyleOf, Sortable, SortedKids, KidsSortedAs, IsBatch;
    if s.Block? {
      EmptyBatch();
      KidsAreSorted(enclosing, s.kids, []);
      assert [] + s.kids == s.kids;
    }
  }

  lemma KidsClashIs(enclosing: string, kids: seq<Snippet>, n: nat)
    requires n == FirstRun(kids)
    ensures KidsClash(enclosing, kids) <==>
      || Clashes(enclosing, kids[..n])
      || (n < |kids| && (HasClash(enclosing, kids[n]) || KidsClash(enclosing, kids[n + 1..])))
  {
    hide Clashes, HasClash, FirstRun;
  }

  lemma {:induction false} KidsClashIff(enclosing: string, kids: seq<Snippet>, batch: seq<Snippet>)
    requires IsBatch(batch)
    ensures KidsClash(enclosing, batch + kids) <==> !Sortable(StyleOf(enclosing), kids, batch)
    decreases kids, 0
  {
    hide StyleOf, Flushable, IsBatch, IsBreaker, FirstRun, HasClash, KidsClash, Clashes;
    var all := batch + kids;
    if kids == [] || IsBreaker(kids[0]) {
      FirstRunIs(batch, kids);
      ClashesIff(enclosing, batch);
      KidsClashIs(enclosing, all, |batch|);
      if kids != [] {
        HasClashIff(enclosing, kids[0]);
        EmptyBatch();
        KidsClashIff(enclosing, kids[1..], []);
        assert [] + kids[1..] == kids[1..];
      }
    } else {
      LongerBatch(batch, kids[0]);
      assert batch + [kids[0]] + kids[1..] == all;
      KidsClashIff(enclosing, kids[1..], batch + [kids[0]]);
    }
  }

  /** A tree cannot be sorted exactly if some run in it clashes. */
  lemma {:induction false} HasClashIff(enclosing: string, s: Snippet)
    ensures HasClash(enclosing, s) <==> !SortableSnippet(StyleOf(enclosing), s)
    decreases s, 1
  {
    hide StyleOf, Sortable, KidsClash, IsBatch;
    if s.Block? {
      EmptyBatch();
      KidsClashIff(enclosing, s.kids, []);
      assert [] + s.kids == s.kids;
    }
  }
}
