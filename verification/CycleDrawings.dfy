/** What find_cycles of config/check_spidermonkey_style.py draws of one component of the include graph. */
module CycleDrawings {
  import opened Graphs
  import opened Sequences
  import opened Sorting
  import opened TarjanState
  import opened Tarjan

  type Headers = Graph<string>

  /** What one drawing prints, and the headers drawn afterwards. */
  datatype Drawing = Drawing(lines: seq<string>, drawn: set<string>)

  function Indentation(indent: nat): string {
    if indent == 0 then "" else "   " + Indentation(indent - 1)
  }

  function Line(v: string, indent: nat): string {
    Indentation(indent) + (if indent > 0 then "-> " else "   ") + v
  }

  ghost function Successors(g: Headers, v: string): (r: seq<string>)
    requires v in g
    ensures Lists(StringLess(), g[v], r)
  {
    StringOrder();
    SetSorted(StringLess(), g[v])
  }

  /** The drawing from v inside the component cset, when `drawn` has been drawn already. */
  ghost function DrawingFrom(g: Headers, cset: set<string>, v: string, indent: nat, drawn: set<string>): (r: Drawing)
    requires cset <= g.Keys && v in cset && drawn <= cset
    ensures drawn + {v} <= r.drawn <= cset
    decreases cset - drawn, 0, 0
  {
    if v in drawn then Drawing([Line(v, indent)], drawn)
    else
      var rest := DrawingsOf(g, cset, Successors(g, v), indent + 1, drawn + {v});
      Drawing([Line(v, indent)] + rest.lines, rest.drawn)
  }

  ghost function DrawingsOf(g: Headers, cset: set<string>, succs: seq<string>, indent: nat, drawn: set<string>)
    : (r: Drawing)
    requires cset <= g.Keys && drawn <= cset
    ensures drawn <= r.drawn <= cset
    decreases cset - drawn, 1, |succs|
  {
    if succs == [] then Drawing([], drawn)
    else if succs[0] in cset then
      var first := DrawingFrom(g, cset, succs[0], indent, drawn);
      var rest := DrawingsOf(g, cset, succs[1..], indent, first.drawn);
      Drawing(first.lines + rest.lines, rest.drawn)
    else DrawingsOf(g, cset, succs[1..], indent, drawn)
  }

  // What a drawing covers -------------------------------------------------------------------------

  /** The edges from s into cset. */
  ghost function EdgesFrom(g: Headers, cset: set<string>, s: set<string>): set<(string, string)> {
    set v, w | v in s && v in g && w in g[v] && w in cset :: (v, w)
  }

  ghost function Members(cset: set<string>, succs: seq<string>): set<string> {
    set w | w in succs && w in cset
  }

  lemma EdgesSplit(g: Headers, cset: set<string>, a: set<string>, b: set<string>)
    requires a !! b
    ensures |EdgesFrom(g, cset, a + b)| == |EdgesFrom(g, cset, a)| + |EdgesFrom(g, cset, b)|
  {
    assert EdgesFrom(g, cset, a + b) == EdgesFrom(g, cset, a) + EdgesFrom(g, cset, b);
    assert EdgesFrom(g, cset, a) !! EdgesFrom(g, cset, b);
  }

  lemma EdgesOfOne(g: Headers, cset: set<string>, v: string)
    requires v in g
    ensures |EdgesFrom(g, cset, {v})| == |Members(cset, Successors(g, v))|
  {
    ListsOnce(StringLess(), g[v], Successors(g, v));
    PairsWith(v, Members(cset, Successors(g, v)), EdgesFrom(g, cset, {v}));
  }

  lemma {:induction false} PairsWith(v: string, ws: set<string>, pairs: set<(string, string)>)
    requires pairs == set w | w in ws :: (v, w)
    ensures |pairs| == |ws|
  {
    if w :| w in ws {
      PairsWith(v, ws - {w}, pairs - {(v, w)});
    } else {
      assert pairs == {};
    }
  }

  /** One line per call: the first call, and one for each edge from a newly drawn header into the component. */
  lemma {:induction false} DrawCounts(g: Headers, cset: set<string>, v: string, indent: nat, drawn: set<string>)
    requires cset <= g.Keys && v in cset && drawn <= cset
    ensures var r := DrawingFrom(g, cset, v, indent, drawn); |r.lines| == 1 + |EdgesFrom(g, cset, r.drawn - drawn)|
    decreases cset - drawn, 0, 0
  {
    var r := DrawingFrom(g, cset, v, indent, drawn);
    if v in drawn {
      assert r.drawn - drawn == {};
      assert EdgesFrom(g, cset, {}) == {};
    } else {
      var succs := Successors(g, v);
      ListsOnce(StringLess(), g[v], succs);
      DrawAllCounts(g, cset, succs, indent + 1, drawn + {v});
      assert r.drawn - drawn == {v} + (r.drawn - (drawn + {v}));
      EdgesSplit(g, cset, {v}, r.drawn - (drawn + {v}));
      EdgesOfOne(g, cset, v);
    }
  }

  lemma {:induction false} DrawAllCounts(g: Headers, cset: set<string>, succs: seq<string>, indent: nat,
                                         drawn: set<string>)
    requires cset <= g.Keys && drawn <= cset
    requires forall i, j :: 0 <= i < j < |succs| ==> succs[i] != succs[j]
    ensures
      var r := DrawingsOf(g, cset, succs, indent, drawn);
      |r.lines| == |Members(cset, succs)| + |EdgesFrom(g, cset, r.drawn - drawn)|
    decreases cset - drawn, 1, |succs|
  {
    var r := DrawingsOf(g, cset, succs, indent, drawn);
    if succs == [] {
      assert r.drawn - drawn == {};
      assert EdgesFrom(g, cset, {}) == {};
    } else if succs[0] in cset {
      var first := DrawingFrom(g, cset, succs[0], indent, drawn);
      DrawCounts(g, cset, succs[0], indent, drawn);
      DrawAllCounts(g, cset, succs[1..], indent, first.drawn);
      assert Members(cset, succs) == {succs[0]} + Members(cset, succs[1..]);
      assert r.drawn - drawn == (first.drawn - drawn) + (r.drawn - first.drawn);
      EdgesSplit(g, cset, first.drawn - drawn, r.drawn - first.drawn);
    } else {
      DrawAllCounts(g, cset, succs[1..], indent, drawn);
      assert Members(cset, succs) == Members(cset, succs[1..]);
    }
  }

  /** Newly drawn headers have all their successors in the component drawn as well. */
  ghost predicate Explored(g: Headers, cset: set<string>, drawn: set<string>, drawn': set<string>) {
    forall u, w :: u in drawn' && u !in drawn && u in g && w in g[u] && w in cset ==> w in drawn'
  }

  lemma {:induction false} DrawExplores(g: Headers, cset: set<string>, v: string, indent: nat, drawn: set<string>)
    requires cset <= g.Keys && v in cset && drawn <= cset
    ensures Explored(g, cset, drawn, DrawingFrom(g, cset, v, indent, drawn).drawn)
    decreases cset - drawn, 0, 0
  {
    if v !in drawn {
      ListsOnce(StringLess(), g[v], Successors(g, v));
      DrawAllExplores(g, cset, Successors(g, v), indent + 1, drawn + {v});
    }
  }

  lemma {:induction false} DrawAllExplores(g: Headers, cset: set<string>, succs: seq<string>, indent: nat,
                                           drawn: set<string>)
    requires cset <= g.Keys && drawn <= cset
    ensures
      var r := DrawingsOf(g, cset, succs, indent, drawn);
      Explored(g, cset, drawn, r.drawn) && forall w :: w in succs && w in cset ==> w in r.drawn
    decreases cset - drawn, 1, |succs|
  {
    if succs != [] && succs[0] in cset {
      DrawExplores(g, cset, succs[0], indent, drawn);
      DrawAllExplores(g, cset, succs[1..], indent, DrawingFrom(g, cset, succs[0], indent, drawn).drawn);
    } else if succs != [] {
      DrawAllExplores(g, cset, succs[1..], indent, drawn);
    }
  }

  /** The line ends in the name. In front of it are blanks, three for each step, with an arrow below the first line. */
  ghost predicate Shows(line: string, name: string, depth: nat) {
    && |line| == 3 * depth + 3 + |name|
    && (forall i :: 0 <= i < 3 * depth ==> line[i] == ' ')
    && line[3 * depth..3 * depth + 3] == (if depth == 0 then "   " else "-> ")
    && line[3 * depth + 3..] == name
  }

  lemma {:induction false} Blanks(indent: nat)
    ensures |Indentation(indent)| == 3 * indent && forall i :: 0 <= i < 3 * indent ==> Indentation(indent)[i] == ' '
  {
    if indent > 0 {
      Blanks(indent - 1);
    }
  }

  lemma LineShows(v: string, indent: nat)
    ensures Shows(Line(v, indent), v, indent)
  {
    hide Indentation;
    Blanks(indent);
  }

  ghost predicate HasLine(lines: seq<string>, v: string) {
    exists i, depth: nat :: 0 <= i < |lines| && Shows(lines[i], v, depth)
  }

  lemma {:induction false} DrawPrints(g: Headers, cset: set<string>, v: string, indent: nat, drawn: set<string>,
                                      u: string)
    requires cset <= g.Keys && v in cset && drawn <= cset
    requires u in DrawingFrom(g, cset, v, indent, drawn).drawn && u !in drawn
    ensures HasLine(DrawingFrom(g, cset, v, indent, drawn).lines, u)
    decreases cset - drawn, 0, 0
  {
    if v !in drawn {
      var r := DrawingFrom(g, cset, v, indent, drawn);
      LineShows(v, indent);
      assert r.lines[0] == Line(v, indent);
      if u != v {
        var succs := Successors(g, v);
        DrawAllPrints(g, cset, succs, indent + 1, drawn + {v}, u);
        MoreLines([Line(v, indent)], DrawingsOf(g, cset, succs, indent + 1, drawn + {v}).lines, [], u);
      }
    }
  }

  lemma {:induction false} DrawAllPrints(g: Headers, cset: set<string>, succs: seq<string>, indent: nat,
                                         drawn: set<string>, u: string)
    requires cset <= g.Keys && drawn <= cset
    requires u in DrawingsOf(g, cset, succs, indent, drawn).drawn && u !in drawn
    ensures HasLine(DrawingsOf(g, cset, succs, indent, drawn).lines, u)
    decreases cset - drawn, 1, |succs|
  {
    if succs[0] in cset {
      var first := DrawingFrom(g, cset, succs[0], indent, drawn);
      var rest := DrawingsOf(g, cset, succs[1..], indent, first.drawn);
      if u in first.drawn {
        DrawPrints(g, cset, succs[0], indent, drawn, u);
        MoreLines([], first.lines, rest.lines, u);
      } else {
        DrawAllPrints(g, cset, succs[1..], indent, first.drawn, u);
        MoreLines(first.lines, rest.lines, [], u);
      }
    } else {
      DrawAllPrints(g, cset, succs[1..], indent, drawn, u);
    }
  }

  lemma MoreLines(before: seq<string>, lines: seq<string>, after: seq<string>, v: string)
    requires HasLine(lines, v)
    ensures HasLine(before + lines + after, v)
    ensures HasLine(before + lines, v) && HasLine(lines + after, v)
  {
    hide Shows;
    var i, depth: nat :| 0 <= i < |lines| && Shows(lines[i], v, depth);
    assert (before + lines + after)[|before| + i] == lines[i];
    assert (before + lines)[|before| + i] == lines[i];
    assert (lines + after)[i] == lines[i];
  }

  /** Inside a component, everything is reached without leaving it. */
  lemma {:induction false} ExploredReaches(g: Headers, c: seq<string>, drawn: set<string>, p: seq<string>,
                                           x: string, y: string)
    requires IsScc(g, c) && Explored(g, Elems(c), {}, drawn) && drawn <= Elems(c)
    requires x in drawn && y in c && IsPath(g, p, x, y)
    ensures y in drawn
  {
    if |p| > 1 {
      var z := p[1];
      assert x == p[0] && x in c;
      assert p[0] in g && p[1] in g[p[0]];
      ReachEdge(g, x, z);
      assert IsPath(g, p[1..], z, y);
      assert Mutual(g, x, y);
      ReachTrans(g, z, y, x);
      assert Mutual(g, x, z);
      assert z in Elems(c);
      ExploredReaches(g, c, drawn, p[1..], z, y);
    }
  }

  /** The first member in alphabetical order, where the drawing starts. */
  function First(c: seq<string>): (v: string)
    requires c != []
    ensures v in c
  {
    StringOrder();
    SortKeeps(StringLess(), c);
    var sorted := Sort(StringLess(), c);
    assert sorted[0] in multiset(sorted);
    sorted[0]
  }

  ghost function DrawScc(g: Headers, c: seq<string>): Drawing
    requires c != [] && Elems(c) <= g.Keys
  {
    DrawingFrom(g, Elems(c), First(c), 0, {})
  }

  /**
   * The drawing of a component covers all of it, in one line plus one line for each edge inside the component,
   * and names every member.
   */
  lemma SccDrawing(g: Headers, c: seq<string>)
    requires IsScc(g, c) && Elems(c) <= g.Keys
    ensures DrawScc(g, c).drawn == Elems(c)
    ensures |DrawScc(g, c).lines| == 1 + |EdgesFrom(g, Elems(c), Elems(c))|
    ensures forall v :: v in c ==> HasLine(DrawScc(g, c).lines, v)
  {
    var cset, root := Elems(c), First(c);
    var r := DrawScc(g, c);
    DrawExplores(g, cset, root, 0, {});
    DrawCounts(g, cset, root, 0, {});
    forall v | v in c
      ensures v in r.drawn
    {
      assert Mutual(g, root, v);
      var p :| IsPath(g, p, root, v);
      ExploredReaches(g, c, r.drawn, p, root, v);
    }
    assert r.drawn - {} == cset;
    forall v | v in c
      ensures HasLine(r.lines, v)
    {
      DrawPrints(g, cset, root, 0, {}, v);
    }
  }
}
