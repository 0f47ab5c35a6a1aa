/** find_cycles of config/check_spidermonkey_style.py: reporting and drawing the cycles of the include graph. */
module CycleDrawer {
  import opened CycleDrawings
  import opened CyclePictures
  import opened Graphs
  import opened Sequences
  import opened Sorting
  import opened TarjanState
  import opened Tarjan

  // The program -----------------------------------------------------------------------------------

  /** draw_SCC's local state, and the script's output. */
  class Drawer {
    const edges: Headers
    const cset: set<string>
    var drawn: set<string>
    var output: seq<string>

    constructor (edges: Headers, cset: set<string>, output: seq<string>)
      ensures this.edges == edges && this.cset == cset && drawn == {} && this.output == output
    {
      this.edges := edges;
      this.cset := cset;
      this.output := output;
      drawn := {};
    }

    method Draw(v: string, indent: nat)
      requires cset <= edges.Keys && v in cset && drawn <= cset
      modifies this
      ensures
        var r := DrawingFrom(edges, cset, v, indent, old(drawn));
        drawn == r.drawn && output == old(output) + r.lines
      decreases cset - drawn, 0
    {
      output := output + [Line(v, indent)];
      if v !in drawn {
        drawn := drawn + {v};
        StringOrder();
        var succs := SortSet(StringLess(), edges[v]);
        SetSortedIs(StringLess(), edges[v], succs);
        ghost var o := output;
        DrawSuccessors(succs, indent + 1);
        ghost var below := DrawingsOf(edges, cset, succs, indent + 1, old(drawn) + {v});
        assert output == old(output) + ([Line(v, indent)] + below.lines);
      }
    }

    /** The loop over the sorted successors. */
    method DrawSuccessors(succs: seq<string>, indent: nat)
      requires cset <= edges.Keys && drawn <= cset
      modifies this
      ensures
        var r := DrawingsOf(edges, cset, succs, indent, old(drawn));
        drawn == r.drawn && output == old(output) + r.lines
      decreases cset - drawn, 1
    {
      ghost var all := DrawingsOf(edges, cset, succs, indent, drawn);
      for i := 0 to |succs|
        invariant old(drawn) <= drawn <= cset
        invariant all.drawn == DrawingsOf(edges, cset, succs[i..], indent, drawn).drawn
        invariant old(output) + all.lines == output + DrawingsOf(edges, cset, succs[i..], indent, drawn).lines
      {
        assert succs[i..][1..] == succs[i + 1..];
        if succs[i] in cset {
          Draw(succs[i], indent);
        }
      }
      assert old(output) + all.lines == output + [];
    }
  }

  const CYCLES_FOUND: seq<string> :=
    ["(multiple files): error:", "    header files form one or more cycles", ""]

  /** Every listed component is a nonempty list of known headers. */
  ghost predicate Drawable(g: Headers, sccs: seq<seq<string>>) {
    forall c :: c in sccs ==> c != [] && Elems(c) <= g.Keys
  }

  lemma DrawablePrefix(g: Headers, sccs: seq<seq<string>>, k: nat)
    requires Drawable(g, sccs) && k <= |sccs|
    ensures Drawable(g, sccs[..k])
    ensures k < |sccs| ==> sccs[k] != [] && Elems(sccs[k]) <= g.Keys
  {
    assert forall c :: c in sccs[..k] ==> c in sccs;
    if k < |sccs| {
      assert sccs[k] in sccs;
    }
  }

  /** sorted() of the list of components neither loses nor invents one. */
  function SortedLists(sccs: seq<seq<string>>): (r: seq<seq<string>>)
    ensures forall c :: c in r <==> c in sccs
    ensures multiset(r) == multiset(sccs)
  {
    ListOrder();
    SortKeeps(ListLess(), sccs);
    assert forall c :: c in sccs <==> c in multiset(sccs);
    assert forall c :: c in Sort(ListLess(), sccs) <==> c in multiset(Sort(ListLess(), sccs));
    Sort(ListLess(), sccs)
  }

  /** The drawings of the cyclic components, one after the other. */
  ghost function Drawings(g: Headers, sccs: seq<seq<string>>): seq<string>
    requires Drawable(g, sccs)
  {
    if sccs == [] then []
    else
      DrawablePrefix(g, sccs, |sccs| - 1);
      Drawings(g, sccs[..|sccs| - 1]) + Block(g, sccs[|sccs| - 1])
  }

  /** What one component adds: its drawing and an empty line, if it is cyclic. */
  ghost function Block(g: Headers, c: seq<string>): (r: seq<string>)
    requires c != [] && Elems(c) <= g.Keys
    ensures r == [] <==> |c| == 1
  {
    if |c| == 1 then [] else DrawScc(g, c).lines + [""]
  }

  /** The report on a list of components: the drawings, under a heading if there are any. */
  ghost function Report(g: Headers, sccs: seq<seq<string>>): seq<string>
    requires Drawable(g, sccs)
  {
    if Drawings(g, sccs) == [] then [] else CYCLES_FOUND + Drawings(g, sccs)
  }

  lemma ReportSnoc(g: Headers, sccs: seq<seq<string>>, k: nat)
    requires Drawable(g, sccs) && k < |sccs|
    ensures Drawable(g, sccs[..k]) && Drawable(g, sccs[..k + 1]) && sccs[k] != [] && Elems(sccs[k]) <= g.Keys
    ensures Report(g, sccs[..k + 1]) == if |sccs[k]| == 1 then Report(g, sccs[..k])
      else (if Report(g, sccs[..k]) == [] then CYCLES_FOUND else Report(g, sccs[..k])) + Block(g, sccs[k])
  {
    hide Drawings, Drawable, DrawScc, Block;
    DrawingsSnoc(g, sccs, k);
    BlockEmptyIff(g, sccs[k]);
    UnderHeading(Drawings(g, sccs[..k]), Block(g, sccs[k]));
  }

  lemma DrawingsSnoc(g: Headers, sccs: seq<seq<string>>, k: nat)
    requires Drawable(g, sccs) && k < |sccs|
    ensures Drawable(g, sccs[..k]) && Drawable(g, sccs[..k + 1]) && sccs[k] != [] && Elems(sccs[k]) <= g.Keys
    ensures Drawings(g, sccs[..k + 1]) == Drawings(g, sccs[..k]) + Block(g, sccs[k])
  {
    hide Block, Drawable;
    DrawablePrefix(g, sccs, k);
    DrawablePrefix(g, sccs, k + 1);
    assert sccs[..k + 1][..k] == sccs[..k] && sccs[..k + 1][k] == sccs[k];
  }

  lemma BlockEmptyIff(g: Headers, c: seq<string>)
    requires c != [] && Elems(c) <= g.Keys
    ensures Block(g, c) == [] <==> |c| == 1
  {
    hide DrawScc;
  }

  lemma UnderHeading(drawings: seq<string>, block: seq<string>)
    ensures drawings + [] == drawings && [] + block == block
    ensures drawings + block == [] <==> drawings == [] && block == []
    ensures CYCLES_FOUND + (drawings + block) == (CYCLES_FOUND + drawings) + block
  {
  }

  /** draw_SCC. */
  method DrawComponent(edges: Headers, c: seq<string>, output: seq<string>) returns (output': seq<string>)
    requires c != [] && Elems(c) <= edges.Keys
    ensures output' == output + DrawScc(edges, c).lines + [""]
  {
    var cset := set v | v in c;
    assert cset == Elems(c);
    var drawer := new Drawer(edges, cset, output);
    drawer.Draw(First(c), 0);
    output' := drawer.output + [""];
  }

  lemma SccsInside(g: Headers, all: set<string>, sccs: seq<seq<string>>)
    requires ClosedOver(g, all) && AreSccs(g, all, sccs)
    ensures Drawable(g, sccs)
  {
    forall c | c in sccs
      ensures c != [] && Elems(c) <= g.Keys
    {
      var i :| 0 <= i < |sccs| && sccs[i] == c;
      assert IsScc(g, sccs[i]);
      forall x | x in sccs[i]
        ensures x in g
      {
        EmittedMember(sccs, i, x);
      }
    }
  }

  lemma {:induction false} DrawingsEmptyIff(g: Headers, sccs: seq<seq<string>>)
    requires Drawable(g, sccs)
    ensures Drawings(g, sccs) == [] <==> forall c :: c in sccs ==> |c| == 1
  {
    hide Block;
    if sccs != [] {
      DrawablePrefix(g, sccs, |sccs| - 1);
      DrawingsEmptyIff(g, sccs[..|sccs| - 1]);
      assert forall c :: c in sccs <==> c in sccs[..|sccs| - 1] || c == sccs[|sccs| - 1];
    }
  }

  /** An error is reported exactly if some directed cycle passes through two different headers. */
  lemma ReportsIffCyclic(g: Headers, all: set<string>, sccs: seq<seq<string>>)
    requires ClosedOver(g, all) && AreSccs(g, all, sccs)
    requires Drawable(g, sccs)
    ensures
      var output := Report(g, SortedLists(sccs));
      && (output != [] <==> exists x, y :: OnOneCycle(g, all, x, y))
      && (output != [] ==> CYCLES_FOUND <= output)
  {
    var sorted := SortedLists(sccs);
    DrawingsEmptyIff(g, sorted);
    if c :| c in sorted && |c| != 1 {
      assert c in sccs;
      var i :| 0 <= i < |sccs| && sccs[i] == c;
      assert IsScc(g, c);
      EmittedMember(sccs, i, c[0]);
      assert c[0] in c && c[1] in c && c[0] != c[1];
      assert OnOneCycle(g, all, c[0], c[1]);
    }
    if x, y :| OnOneCycle(g, all, x, y) {
      SameListIffMutual(g, all, sccs, x, y);
      var i :| 0 <= i < |sccs| && x in sccs[i] && y in sccs[i];
      TwoMembers(sccs[i], x, y);
      assert sccs[i] in sccs && sccs[i] in sorted;
    }
  }

  lemma TwoMembers(c: seq<string>, x: string, y: string)
    requires x in c && y in c && x != y
    ensures |c| != 1
  {
    var i :| 0 <= i < |c| && c[i] == x;
    var j :| 0 <= j < |c| && c[j] == y;
  }

  // What a report looks like ------------------------------------------------------------------------

  ghost predicate HasPicture(g: Headers, c: seq<string>, lines: seq<string>) {
    exists entries :: IsPicture(g, Elems(c), lines, entries)
  }

  /** The pictures of these components, one after the other, each followed by an empty line. */
  ghost predicate ListsPictures(g: Headers, comps: seq<seq<string>>, lines: seq<string>) {
    if comps == [] then lines == []
    else
      var last := |comps| - 1;
      exists n :: 0 <= n < |lines| && ListsPictures(g, comps[..last], lines[..n])
                  && HasPicture(g, comps[last], lines[n..|lines| - 1]) && lines[|lines| - 1] == ""
  }

  /** A heading, and the pictures of all components that have more than one header, in order. */
  ghost predicate IsReport(g: Headers, all: set<string>, comps: seq<seq<string>>, output: seq<string>) {
    && ["(multiple files): error:", "    header files form one or more cycles", ""] <= output
    && ListsPictures(g, comps, output[3..])
    && (forall c :: c in comps ==> IsScc(g, c) && |c| > 1)
    && (forall x, y :: OnOneCycle(g, all, x, y) ==> exists c :: c in comps && x in c && y in c)
    && forall i, j :: 0 <= i < j < |comps| ==> ListPrecedes(comps[i], comps[j])
  }

  ghost predicate StrictlySorted(lists: seq<seq<string>>) {
    forall i, j :: 0 <= i < j < |lists| ==> ListPrecedes(lists[i], lists[j])
  }

  lemma ComponentsSorted(g: Headers, all: set<string>, sccs: seq<seq<string>>)
    requires AreSccs(g, all, sccs)
    ensures StrictlySorted(SortedLists(sccs))
  {
    hide ListPrecedes, ListLess, StrictTotal;
    var sorted := SortedLists(sccs);
    ListOrder();
    SortedBySort(sccs);
    forall i, j | 0 <= i < j < |sccs| ensures sccs[i] != sccs[j] {
      assert IsScc(g, sccs[i]) && sccs[i][0] in Elems(sccs[i]);
    }
    Permuted(sccs, sorted);
    forall i, j | 0 <= i < j < |sorted| ensures ListPrecedes(sorted[i], sorted[j]) {
      assert sorted[i] != sorted[j];
      ListsOrdered(sorted[i], sorted[j]);
      ListLessIs(sorted[i], sorted[j]);
    }
  }

  lemma SortedBySort(sccs: seq<seq<string>>)
    ensures InOrder(ListLess(), SortedLists(sccs))
  {
    hide ListLess;
    ListOrder();
    SortKeeps(ListLess(), sccs);
  }

  lemma ListsOrdered(c: seq<string>, d: seq<string>)
    requires c != d
    ensures ListLess()(c, d) || ListLess()(d, c)
  {
    hide ListLess;
    ListOrder();
  }

  lemma BlockPicture(g: Headers, c: seq<string>)
    requires IsScc(g, c) && Elems(c) <= g.Keys && |c| != 1
    ensures HasPicture(g, c, DrawScc(g, c).lines) && Block(g, c) == DrawScc(g, c).lines + [""]
  {
    hide IsPicture, DrawScc;
    var entries := SccPicture(g, c);
  }

  lemma PicturesSnoc(g: Headers, comps: seq<seq<string>>, lines: seq<string>, c: seq<string>, drawing: seq<string>)
    requires ListsPictures(g, comps, lines) && HasPicture(g, c, drawing)
    ensures ListsPictures(g, comps + [c], lines + (drawing + [""]))
  {
    hide HasPicture;
    var longer, all := lines + (drawing + [""]), comps + [c];
    assert all[..|all| - 1] == comps && longer[..|lines|] == lines && longer[|lines|..|longer| - 1] == drawing;
  }

  /** The drawings are the pictures of the components of more than one header. */
  lemma {:induction false} DrawingsArePictures(g: Headers, sccs: seq<seq<string>>) returns (comps: seq<seq<string>>)
    requires Drawable(g, sccs) && (forall c :: c in sccs ==> IsScc(g, c)) && StrictlySorted(sccs)
    ensures ListsPictures(g, comps, Drawings(g, sccs)) && StrictlySorted(comps)
    ensures forall c :: c in comps <==> c in sccs && |c| != 1
  {
    hide ListPrecedes, IsScc, DrawScc, Block, ListsPictures;
    if sccs == [] {
      comps := [];
      NoPictures(g);
    } else {
      var n := |sccs| - 1;
      var c := sccs[n];
      DrawablePrefix(g, sccs, n);
      assert c in sccs && sccs == sccs[..n] + [c];
      comps := DrawingsArePictures(g, sccs[..n]);
      BlockEmptyIff(g, c);
      if |c| != 1 {
        BlockPicture(g, c);
        PicturesSnoc(g, comps, Drawings(g, sccs[..n]), c, DrawScc(g, c).lines);
        forall d | d in comps ensures ListPrecedes(d, c) {
          var i :| 0 <= i < n && sccs[..n][i] == d;
          assert sccs[i] == d;
        }
        comps := comps + [c];
      } else {
        assert Drawings(g, sccs[..n]) + [] == Drawings(g, sccs[..n]);
      }
    }
  }

  lemma NoPictures(g: Headers)
    ensures ListsPictures(g, [], [])
  {
  }

  /** A report that is not empty looks like this. */
  lemma ReportLaidOut(g: Headers, all: set<string>, sccs: seq<seq<string>>) returns (comps: seq<seq<string>>)
    requires ClosedOver(g, all) && AreSccs(g, all, sccs) && Drawable(g, sccs)
    requires Report(g, SortedLists(sccs)) != []
    ensures IsReport(g, all, comps, Report(g, SortedLists(sccs)))
  {
    hide ListsPictures, IsScc, Drawings, StrictlySorted, Drawable;
    var sorted := SortedLists(sccs);
    ComponentsSorted(g, all, sccs);
    AllSccs(g, all, sccs);
    comps := DrawingsArePictures(g, sorted);
    forall x, y | OnOneCycle(g, all, x, y) ensures exists c :: c in comps && x in c && y in c {
      var c := CycleListed(g, all, sccs, x, y);
    }
    HeadingFirst(g, sorted);
    SccsNotEmpty(g, comps, sorted);
    SortedMeans(comps);
  }

  lemma SortedMeans(comps: seq<seq<string>>)
    requires StrictlySorted(comps)
    ensures forall i, j :: 0 <= i < j < |comps| ==> ListPrecedes(comps[i], comps[j])
  {
    hide ListPrecedes;
  }

  lemma SccsNotEmpty(g: Headers, comps: seq<seq<string>>, sccs: seq<seq<string>>)
    requires (forall c :: c in sccs ==> IsScc(g, c)) && forall c :: c in comps <==> c in sccs && |c| != 1
    ensures forall c :: c in comps ==> IsScc(g, c) && |c| > 1
  {
  }

  lemma AllSccs(g: Headers, all: set<string>, sccs: seq<seq<string>>)
    requires AreSccs(g, all, sccs) && Drawable(g, sccs)
    ensures Drawable(g, SortedLists(sccs)) && forall c :: c in SortedLists(sccs) ==> IsScc(g, c)
  {
    hide IsScc;
    forall c | c in SortedLists(sccs) ensures IsScc(g, c) {
      var i :| 0 <= i < |sccs| && sccs[i] == c;
    }
  }

  lemma CycleListed(g: Headers, all: set<string>, sccs: seq<seq<string>>, x: string, y: string)
    returns (c: seq<string>)
    requires ClosedOver(g, all) && AreSccs(g, all, sccs) && OnOneCycle(g, all, x, y)
    ensures c in SortedLists(sccs) && |c| != 1 && x in c && y in c
  {
    SameListIffMutual(g, all, sccs, x, y);
    var i :| 0 <= i < |sccs| && x in sccs[i] && y in sccs[i];
    TwoMembers(sccs[i], x, y);
    c := sccs[i];
  }

  lemma HeadingFirst(g: Headers, sccs: seq<seq<string>>)
    requires Drawable(g, sccs) && Report(g, sccs) != []
    ensures CYCLES_FOUND <= Report(g, sccs) && Report(g, sccs)[3..] == Drawings(g, sccs)
  {
    hide Drawings;
  }

  /** The output is the report on the strongly connected components, listed as sccs. */
  ghost predicate Reported(g: Headers, all: set<string>, sccs: seq<seq<string>>, output: seq<string>) {
    AreSccs(g, all, sccs) && Drawable(g, sccs) && output == Report(g, SortedLists(sccs))
  }

  /** Two different headers on one directed cycle. */
  ghost predicate OnOneCycle(g: Headers, all: set<string>, x: string, y: string) {
    x in all && x != y && Mutual(g, x, y)
  }

  /** What find_cycles may write if the headers are visited in this order. */
  ghost predicate ReportedInOrder(g: Headers, order: seq<string>, output: seq<string>) {
    exists sccs :: SccsInOrder(g, order, sccs) && Reported(g, Elems(order), sccs, output)
  }

  /** The set of headers comes in the order in which it is iterated over. */
  method FindCycles(order: seq<string>, edges: Headers) returns (output: seq<string>)
    requires ClosedOver(edges, Elems(order))
    ensures ReportedInOrder(edges, order, output)
    ensures output != [] <==> exists x, y :: OnOneCycle(edges, Elems(order), x, y)
    ensures output != [] ==> exists comps :: IsReport(edges, Elems(order), comps, output)
  {
    hide IsReport;
    var sccs := FindSccs(order, edges);
    SccsInside(edges, Elems(order), sccs);
    output := DrawAll(edges, SortedLists(sccs));
    assert Reported(edges, Elems(order), sccs, output);
    ReportsIffCyclic(edges, Elems(order), sccs);
    if output != [] {
      var comps := ReportLaidOut(edges, Elems(order), sccs);
    }
  }

  /** The loop over the sorted components. */
  method DrawAll(edges: Headers, sorted: seq<seq<string>>) returns (output: seq<string>)
    requires Drawable(edges, sorted)
    ensures output == Report(edges, sorted)
  {
    hide Report, Drawable, DrawScc;
    output := [];
    var haveDrawn := false;
    NothingReported(edges, sorted);
    for i := 0 to |sorted|
      invariant Drawable(edges, sorted[..i])
      invariant output == Report(edges, sorted[..i]) && (haveDrawn <==> output != [])
    {
      ReportSnoc(edges, sorted, i);
      if |sorted[i]| != 1 {
        if !haveDrawn {
          output := output + CYCLES_FOUND;
          haveDrawn := true;
        }
        output := DrawComponent(edges, sorted[i], output);
      }
    }
    assert sorted[..|sorted|] == sorted;
  }

  lemma NothingReported(g: Headers, sccs: seq<seq<string>>)
    ensures Drawable(g, sccs[..0]) && Report(g, sccs[..0]) == []
  {
  }
}
