/** Directed graphs, reachability and strongly connected components. */
module Graphs {
  import opened Sequences

  type Graph<T> = map<T, set<T>>

  /** Every vertex of vs has its successors listed, and they are in vs. */
  ghost predicate ClosedOver<T>(g: Graph<T>, vs: set<T>) {
    forall v :: v in vs ==> v in g && g[v] <= vs
  }

  ghost predicate IsPath<T>(g: Graph<T>, p: seq<T>, x: T, y: T) {
    && |p| > 0 && p[0] == x && p[|p| - 1] == y
    && forall i :: 0 <= i < |p| - 1 ==> p[i] in g && p[i + 1] in g[p[i]]
  }

  ghost predicate Reach<T(!new)>(g: Graph<T>, x: T, y: T) {
    exists p: seq<T> :: IsPath(g, p, x, y)
  }

  ghost predicate Mutual<T(!new)>(g: Graph<T>, x: T, y: T) {
    Reach(g, x, y) && Reach(g, y, x)
  }

  lemma ReachSelf<T(!new)>(g: Graph<T>, x: T)
    ensures Reach(g, x, x)
  {
    assert IsPath(g, [x], x, x);
  }

  lemma ReachEdge<T(!new)>(g: Graph<T>, x: T, y: T)
    requires x in g && y in g[x]
    ensures Reach(g, x, y)
  {
    assert IsPath(g, [x, y], x, y);
  }

  lemma ReachTrans<T(!new)>(g: Graph<T>, x: T, y: T, z: T)
    requires Reach(g, x, y) && Reach(g, y, z)
    ensures Reach(g, x, z)
  {
    var p :| IsPath(g, p, x, y);
    var q :| IsPath(g, q, y, z);
    var r := p + q[1..];
    forall i | 0 <= i < |r| - 1
      ensures r[i] in g && r[i + 1] in g[r[i]]
    {
      if i < |p| - 1 {
        assert r[i] == p[i] && r[i + 1] == p[i + 1];
      } else {
        assert r[i] == q[i - |p| + 1] && r[i + 1] == q[i - |p| + 2];
      }
    }
    assert IsPath(g, r, x, z);
  }

  /** A set that no edge leaves. */
  ghost predicate ClosedSet<T>(g: Graph<T>, c: set<T>) {
    forall v, w :: v in c && v in g && w in g[v] ==> w in c
  }

  lemma {:induction false} PathStaysInside<T>(g: Graph<T>, c: set<T>, p: seq<T>, x: T, y: T)
    requires ClosedSet(g, c) && x in c && IsPath(g, p, x, y)
    ensures y in c
  {
    if |p| > 1 {
      assert p[0] in g && p[1] in g[p[0]];
      PathStaysInside(g, c, p[1..], p[1], y);
    }
  }

  lemma ReachStaysInside<T(!new)>(g: Graph<T>, c: set<T>, x: T, y: T)
    requires ClosedSet(g, c) && x in c && Reach(g, x, y)
    ensures y in c
  {
    var p :| IsPath(g, p, x, y);
    PathStaysInside(g, c, p, x, y);
  }

  /** c lists, without repetition, all vertices mutually reachable with each of its members. */
  ghost predicate IsScc<T(!new)>(g: Graph<T>, c: seq<T>) {
    && c != []
    && NoDuplicates(c)
    && forall x :: x in c ==> forall y :: y in c <==> Mutual(g, x, y)
  }

  ghost function Emitted<T>(sccs: seq<seq<T>>): set<T> {
    if sccs == [] then {} else Emitted(sccs[..|sccs| - 1]) + Elems(sccs[|sccs| - 1])
  }

  lemma EmittedMore<T>(sccs: seq<seq<T>>, c: seq<T>)
    ensures Emitted(sccs + [c]) == Emitted(sccs) + Elems(c)
  {
    assert (sccs + [c])[..|sccs|] == sccs;
  }

  lemma {:induction false} EmittedMember<T>(sccs: seq<seq<T>>, i: nat, x: T)
    requires i < |sccs| && x in sccs[i]
    ensures x in Emitted(sccs)
  {
    if i < |sccs| - 1 {
      EmittedMember(sccs[..|sccs| - 1], i, x);
    }
  }

  lemma {:induction false} EmittedFrom<T>(sccs: seq<seq<T>>, x: T) returns (i: nat)
    requires x in Emitted(sccs)
    ensures i < |sccs| && x in sccs[i]
  {
    if x in sccs[|sccs| - 1] {
      i := |sccs| - 1;
    } else {
      i := EmittedFrom(sccs[..|sccs| - 1], x);
    }
  }
}
