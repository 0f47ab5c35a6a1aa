/** The invariant of Tarjan's algorithm in config/check_spidermonkey_style.py, on states as values. */
module TarjanState {
  import opened Graphs
  import opened Sequences

  datatype State<T> = State(idx: map<T, nat>, stack: seq<T>, sccs: seq<seq<T>>)

  /** Every visited vertex is on the stack or in an emitted component; the stack is in order of discovery. */
  ghost predicate Shape<T>(s: State<T>, index: nat) {
    && NoDuplicates(s.stack)
    && s.idx.Keys == Elems(s.stack) + Emitted(s.sccs)
    && Elems(s.stack) !! Emitted(s.sccs)
    && (forall v :: v in s.idx ==> s.idx[v] < index)
    && DiscoveryOrder(s)
  }

  ghost predicate DiscoveryOrder<T>(s: State<T>) {
    && (forall i :: 0 <= i < |s.stack| ==> s.stack[i] in s.idx)
    && forall i, j :: 0 <= i < j < |s.stack| ==> s.idx[s.stack[i]] < s.idx[s.stack[j]]
  }

  /** Emitted components are strongly connected components, each emitted after everything it reaches. */
  ghost predicate SccsOk<T(!new)>(g: Graph<T>, sccs: seq<seq<T>>) {
    && (forall i :: 0 <= i < |sccs| ==> IsScc(g, sccs[i]))
    && (forall k :: 0 <= k <= |sccs| ==> ClosedSet(g, Emitted(sccs[..k])))
    && forall i, j :: 0 <= i < j < |sccs| ==> Elems(sccs[i]) !! Elems(sccs[j])
  }

  /** A vertex whose visit is complete has only visited successors. */
  ghost predicate BlackClosed<T>(g: Graph<T>, s: State<T>, gray: set<T>) {
    forall v, w :: v in s.idx && v !in gray && v in g && w in g[v] ==> w in s.idx
  }

  /** Lower stack elements reach higher ones. */
  ghost predicate StackReaches<T(!new)>(g: Graph<T>, stack: seq<T>) {
    forall i, j :: 0 <= i <= j < |stack| ==> Reach(g, stack[i], stack[j])
  }

  /** y is being visited, was discovered no later than x, and x reaches it. */
  ghost predicate Anchors<T(!new)>(g: Graph<T>, s: State<T>, gray: set<T>, x: T, y: T)
  {
    y in gray && y in s.idx && x in s.idx && s.idx[y] <= s.idx[x] && Reach(g, x, y)
  }

  /** Every stack element reaches a vertex whose visit is still going on and which was discovered no later. */
  ghost predicate Anchored<T(!new)>(g: Graph<T>, s: State<T>, gray: set<T>) {
    forall x :: x in s.stack ==> exists y :: Anchors(g, s, gray, x, y)
  }

  ghost predicate Inv<T(!new)>(g: Graph<T>, s: State<T>, gray: set<T>, index: nat) {
    && Shape(s, index)
    && SccsOk(g, s.sccs)
    && gray <= Elems(s.stack)
    && BlackClosed(g, s, gray)
    && StackReaches(g, s.stack)
    && Anchored(g, s, gray)
  }

  lemma StackIsVisited<T(!new)>(s: State<T>, index: nat, x: T)
    requires Shape(s, index) && x in s.stack
    ensures x in s.idx
  {
    assert x in Elems(s.stack);
  }

  /** Discovering v: it is pushed and becomes gray. */
  function Pushed<T>(s: State<T>, v: T, index: nat): State<T> {
    State(s.idx[v := index], s.stack + [v], s.sccs)
  }

  lemma PushKeeps<T(!new)>(g: Graph<T>, s: State<T>, gray: set<T>, index: nat, v: T)
    requires Inv(g, s, gray, index) && v !in s.idx
    requires forall x :: x in s.stack ==> Reach(g, x, v)
    ensures Inv(g, Pushed(s, v, index), gray + {v}, index + 1)
  {
    hide Shape, SccsOk, BlackClosed, StackReaches, Anchored;
    PushKeepsShape(s, index, v);
    PushKeepsClosed(g, s, gray, index, v);
    PushKeepsReach(g, s, v, index);
    PushKeepsAnchors(g, s, gray, index, v);
    assert Elems(s.stack + [v]) == Elems(s.stack) + {v};
  }

  lemma PushKeepsShape<T(!new)>(s: State<T>, index: nat, v: T)
    requires Shape(s, index) && v !in s.idx
    ensures Shape(Pushed(s, v, index), index + 1)
  {
    assert Elems(s.stack + [v]) == Elems(s.stack) + {v};
  }

  lemma PushKeepsClosed<T(!new)>(g: Graph<T>, s: State<T>, gray: set<T>, index: nat, v: T)
    requires BlackClosed(g, s, gray)
    ensures BlackClosed(g, Pushed(s, v, index), gray + {v})
  {
  }

  lemma PushKeepsReach<T(!new)>(g: Graph<T>, s: State<T>, v: T, index: nat)
    requires StackReaches(g, s.stack)
    requires forall x :: x in s.stack ==> Reach(g, x, v)
    ensures StackReaches(g, s.stack + [v])
  {
    hide Reach;
    ReachSelf(g, v);
    var stack' := s.stack + [v];
    forall i, j | 0 <= i <= j < |stack'|
      ensures Reach(g, stack'[i], stack'[j])
    {
      if i < |s.stack| {
        assert stack'[i] == s.stack[i] && s.stack[i] in s.stack;
      }
    }
  }

  lemma PushKeepsAnchors<T(!new)>(g: Graph<T>, s: State<T>, gray: set<T>, index: nat, v: T)
    requires Anchored(g, s, gray) && v !in s.idx
    ensures Anchored(g, Pushed(s, v, index), gray + {v})
  {
    hide Reach;
    ReachSelf(g, v);
    var s' := Pushed(s, v, index);
    forall x | x in s'.stack
      ensures exists y :: Anchors(g, s', gray + {v}, x, y)
    {
      if x == v {
        assert Anchors(g, s', gray + {v}, v, v);
      } else {
        var y :| Anchors(g, s, gray, x, y);
        assert Anchors(g, s', gray + {v}, x, y);
      }
    }
  }

  /** If stack[k] is the topmost gray vertex, all of the stack reaches it. */
  lemma AllReachTopGray<T(!new)>(g: Graph<T>, s: State<T>, gray: set<T>, k: nat)
    requires StackReaches(g, s.stack) && Anchored(g, s, gray) && k < |s.stack|
    requires gray <= Elems(s.stack[..k + 1])
    ensures forall x :: x in s.stack ==> Reach(g, x, s.stack[k])
  {
    hide Reach;
    var v := s.stack[k];
    forall x | x in s.stack
      ensures Reach(g, x, v)
    {
      var y :| Anchors(g, s, gray, x, y);
      assert y in s.stack[..k + 1];
      var j :| 0 <= j < k + 1 && s.stack[..k + 1][j] == y;
      assert Reach(g, s.stack[j], v);
      ReachTrans(g, x, y, v);
    }
  }

  /** What the loop over the successors of stack[k] has established: all but those in todo are handled. */
  ghost predicate Scanned<T(!new)>(g: Graph<T>, s: State<T>, k: nat, low: nat, todo: set<T>)
    requires k < |s.stack| && s.stack[k] in g
  {
    var v := s.stack[k];
    && v in s.idx && low <= s.idx[v]
    && (low < s.idx[v] ==> exists y :: LowWitness(g, s, k, low, y))
    && (forall w :: w in g[v] - todo ==> w in s.idx && (w in s.stack[..k] ==> low <= s.idx[w]))
    && (forall x, w :: x in s.stack[k + 1..] && x in g && w in g[x] && w in s.stack[..k] ==>
          w in s.idx && low <= s.idx[w])
  }

  /** y, below position k, has index low and is reachable from stack[k]. */
  ghost predicate LowWitness<T(!new)>(g: Graph<T>, s: State<T>, k: nat, low: nat, y: T)
    requires k < |s.stack|
  {
    y in s.stack[..k] && y in s.idx && s.idx[y] == low && Reach(g, s.stack[k], y)
  }

  lemma ScanStarts<T(!new)>(g: Graph<T>, s: State<T>, index: nat, v: T)
    requires v in g && v !in s.idx
    ensures Scanned(g, Pushed(s, v, index), |s.stack|, index, g[v])
  {
  }

  /** v is stack[k], all its successors are scanned, and only it and vertices below it are gray. */
  ghost predicate AtEnd<T(!new)>(g: Graph<T>, s: State<T>, gray: set<T>, index: nat, k: nat, low: nat)
    requires k < |s.stack|
  {
    && Inv(g, s, gray + {s.stack[k]}, index)
    && gray <= Elems(s.stack[..k])
    && s.stack[k] in g
    && Scanned(g, s, k, low, {})
  }

  /** Below position k everything has a smaller index; at and above it, nothing does. */
  lemma BelowIsEarlier<T>(s: State<T>, k: nat, x: T)
    requires DiscoveryOrder(s) && k < |s.stack|
    ensures x in s.stack[..k] ==> x in s.idx && s.idx[x] < s.idx[s.stack[k]]
    ensures x in s.stack[k..] ==> x in s.idx && s.idx[s.stack[k]] <= s.idx[x]
  {
    if x in s.stack[..k] {
      var i :| 0 <= i < k && s.stack[..k][i] == x;
      assert s.stack[i] == x;
    }
    if x in s.stack[k..] {
      var i :| 0 <= i < |s.stack| - k && s.stack[k..][i] == x;
      assert s.stack[k + i] == x;
    }
  }

  /** After the scan, every edge out of stack[k..] leads to a visited vertex. */
  lemma TopIsBlack<T(!new)>(g: Graph<T>, s: State<T>, gray: set<T>, index: nat, k: nat, low: nat)
    requires k < |s.stack| && AtEnd(g, s, gray, index, k, low)
    ensures BlackClosed(g, s, gray)
  {
  }

  /** If low did not drop, no edge leaves stack[k..] except into emitted components. */
  lemma TopIsClosed<T(!new)>(g: Graph<T>, s: State<T>, gray: set<T>, index: nat, k: nat, low: nat)
    requires k < |s.stack| && AtEnd(g, s, gray, index, k, low) && low == s.idx[s.stack[k]]
    ensures ClosedSet(g, Elems(s.stack[k..]) + Emitted(s.sccs))
  {
    hide SccsOk, StackReaches, Anchored, Reach;
    TopIsBlack(g, s, gray, index, k, low);
    assert s.sccs[..|s.sccs|] == s.sccs;
    forall x, w | x in s.stack[k..] && x in g && w in g[x]
      ensures w in s.stack[k..] || w in Emitted(s.sccs)
    {
      TopEdge(s, gray, k, x);
      assert w in s.idx;
      BelowIsEarlier(s, k, w);
      assert x == s.stack[k] || x in s.stack[k + 1..];
      assert w !in s.stack[..k];
      SplitStack(s.stack, k, w);
    }
    EmittedIsClosed(g, s.sccs);
  }

  lemma EmittedIsClosed<T(!new)>(g: Graph<T>, sccs: seq<seq<T>>)
    requires SccsOk(g, sccs)
    ensures ClosedSet(g, Emitted(sccs))
  {
    assert sccs[..|sccs|] == sccs;
  }

  lemma SplitStack<T>(stack: seq<T>, k: nat, w: T)
    requires k <= |stack|
    ensures w in stack <==> w in stack[..k] || w in stack[k..]
  {
    assert stack == stack[..k] + stack[k..];
  }

  /** Elements at or above position k are visited and not among the gray ones below it. */
  lemma TopEdge<T>(s: State<T>, gray: set<T>, k: nat, x: T)
    requires k < |s.stack| && DiscoveryOrder(s) && gray <= Elems(s.stack[..k]) && x in s.stack[k..]
    ensures x in s.idx && x !in gray
  {
    BelowIsEarlier(s, k, x);
  }

  /** Everything at or above position k is mutually reachable with stack[k]. */
  lemma TopIsMutual<T(!new)>(g: Graph<T>, s: State<T>, gray: set<T>, k: nat)
    requires k < |s.stack| && StackReaches(g, s.stack) && Anchored(g, s, gray + {s.stack[k]})
    requires gray <= Elems(s.stack[..k])
    ensures forall x :: x in s.stack[k..] ==> Mutual(g, x, s.stack[k])
  {
    hide Reach;
    var v, c := s.stack[k], s.stack[k..];
    assert gray + {v} <= Elems(s.stack[..k + 1]) by {
      assert s.stack[..k + 1] == s.stack[..k] + [v];
    }
    AllReachTopGray(g, s, gray + {v}, k);
    forall x | x in c
      ensures Mutual(g, x, v)
    {
      var i :| 0 <= i < |c| && c[i] == x;
      assert s.stack[k + i] == x && x in s.stack;
    }
  }

  /** Vertices mutually reachable with v, left by edges only into a closed set without them, are v's component. */
  lemma ClosedMutualIsScc<T(!new)>(g: Graph<T>, c: seq<T>, v: T, below: set<T>)
    requires v in c && NoDuplicates(c)
    requires forall x :: x in c ==> Mutual(g, x, v)
    requires ClosedSet(g, Elems(c) + below) && ClosedSet(g, below) && Elems(c) !! below
    ensures IsScc(g, c)
  {
    hide Reach;
    forall x, y | x in c
      ensures y in c <==> Mutual(g, x, y)
    {
      if y in c {
        ReachTrans(g, x, v, y);
        ReachTrans(g, y, v, x);
      } else if Mutual(g, x, y) {
        assert x in Elems(c);
        ReachStaysInside(g, Elems(c) + below, x, y);
        ReachStaysInside(g, below, y, x);
        assert false;
      }
    }
  }

  /** If low did not drop, stack[k..] is a strongly connected component. */
  lemma TopIsScc<T(!new)>(g: Graph<T>, s: State<T>, gray: set<T>, index: nat, k: nat, low: nat)
    requires k < |s.stack| && AtEnd(g, s, gray, index, k, low) && low == s.idx[s.stack[k]]
    ensures IsScc(g, s.stack[k..])
  {
    hide Reach, IsScc, ClosedSet, Anchored, BlackClosed, StackReaches, SccsOk, Scanned, Mutual;
    TopIsMutual(g, s, gray, k);
    TopIsClosed(g, s, gray, index, k, low);
    EmittedIsClosed(g, s.sccs);
    assert Elems(s.stack[k..]) <= Elems(s.stack);
    assert s.stack[k..][0] == s.stack[k];
    ClosedMutualIsScc(g, s.stack[k..], s.stack[k], Emitted(s.sccs));
  }

  /** Popping stack[k..] as a component. */
  function Popped<T>(s: State<T>, k: nat): State<T>
    requires k < |s.stack|
  {
    State(s.idx, s.stack[..k], s.sccs + [s.stack[k..]])
  }

  lemma PopKeeps<T(!new)>(g: Graph<T>, s: State<T>, gray: set<T>, index: nat, k: nat, low: nat)
    requires k < |s.stack| && AtEnd(g, s, gray, index, k, low) && low == s.idx[s.stack[k]]
    ensures Inv(g, Popped(s, k), gray, index)
  {
    hide SccsOk, Reach, IsScc, ClosedSet, Shape, Anchored, BlackClosed, StackReaches, Scanned;
    TopIsScc(g, s, gray, index, k, low);
    TopIsClosed(g, s, gray, index, k, low);
    TopIsBlack(g, s, gray, index, k, low);
    PopKeepsShape(s, index, k);
    PopKeepsSccs(g, s, index, k);
    PopKeepsAnchors(g, s, gray, index, k);
    PopKeepsRest(g, s, gray, k);
  }

  lemma PopKeepsRest<T(!new)>(g: Graph<T>, s: State<T>, gray: set<T>, k: nat)
    requires k < |s.stack| && BlackClosed(g, s, gray) && StackReaches(g, s.stack)
    ensures BlackClosed(g, Popped(s, k), gray) && StackReaches(g, s.stack[..k])
  {
  }

  lemma PopKeepsShape<T>(s: State<T>, index: nat, k: nat)
    requires k < |s.stack| && Shape(s, index)
    ensures Shape(Popped(s, k), index)
  {
    EmittedMore(s.sccs, s.stack[k..]);
    assert s.stack == s.stack[..k] + s.stack[k..];
    assert Elems(s.stack) == Elems(s.stack[..k]) + Elems(s.stack[k..]);
  }

  lemma PopKeepsSccs<T(!new)>(g: Graph<T>, s: State<T>, index: nat, k: nat)
    requires k < |s.stack| && Shape(s, index) && SccsOk(g, s.sccs)
    requires IsScc(g, s.stack[k..]) && ClosedSet(g, Elems(s.stack[k..]) + Emitted(s.sccs))
    ensures SccsOk(g, s.sccs + [s.stack[k..]])
  {
    hide IsScc, Reach, Mutual;
    var c := s.stack[k..];
    var sccs' := s.sccs + [c];
    EmittedMore(s.sccs, c);
    forall m | 0 <= m <= |sccs'|
      ensures ClosedSet(g, Emitted(sccs'[..m]))
    {
      if m <= |s.sccs| {
        assert sccs'[..m] == s.sccs[..m];
      } else {
        assert sccs'[..m] == sccs';
        assert Emitted(sccs') == Elems(c) + Emitted(s.sccs);
      }
    }
    forall i | 0 <= i < |s.sccs|
      ensures Elems(s.sccs[i]) !! Elems(c)
    {
      forall x | x in s.sccs[i]
        ensures x !in c
      {
        EmittedMember(s.sccs, i, x);
        SplitStack(s.stack, k, x);
        assert x !in Elems(s.stack);
      }
    }
  }

  lemma PopKeepsAnchors<T(!new)>(g: Graph<T>, s: State<T>, gray: set<T>, index: nat, k: nat)
    requires k < |s.stack| && Shape(s, index) && Anchored(g, s, gray + {s.stack[k]})
    ensures Anchored(g, Popped(s, k), gray)
  {
    hide Reach;
    var s' := Popped(s, k);
    forall x | x in s'.stack
      ensures exists y :: Anchors(g, s', gray, x, y)
    {
      SplitStack(s.stack, k, x);
      var y :| Anchors(g, s, gray + {s.stack[k]}, x, y);
      BelowIsEarlier(s, k, x);
      assert Anchors(g, s', gray, x, y);
    }
  }

  /** The visit of stack[k] ends without emitting: it stays on the stack, anchored further down. */
  lemma StayKeeps<T(!new)>(g: Graph<T>, s: State<T>, gray: set<T>, index: nat, k: nat, low: nat)
    requires k < |s.stack| && AtEnd(g, s, gray, index, k, low) && low < s.idx[s.stack[k]]
    ensures Inv(g, s, gray, index)
  {
    hide SccsOk, Reach, Shape, Anchored, BlackClosed, StackReaches;
    TopIsBlack(g, s, gray, index, k, low);
    assert Elems(s.stack[..k]) <= Elems(s.stack);
    var y :| LowWitness(g, s, k, low, y);
    StayAnchors(g, s, gray, index, k, low, y);
  }

  lemma StayAnchors<T(!new)>(g: Graph<T>, s: State<T>, gray: set<T>, index: nat, k: nat, low: nat, y: T)
    requires k < |s.stack| && Shape(s, index) && Anchored(g, s, gray + {s.stack[k]})
    requires LowWitness(g, s, k, low, y) && low < s.idx[s.stack[k]]
    ensures Anchored(g, s, gray)
  {
    hide Reach, Shape;
    var v := s.stack[k];
    SplitStack(s.stack, k, y);
    var z :| Anchors(g, s, gray + {v}, y, z);
    assert z != v;
    ReachTrans(g, v, y, z);
    forall x | x in s.stack
      ensures exists a :: Anchors(g, s, gray, x, a)
    {
      var a :| Anchors(g, s, gray + {v}, x, a);
      if a == v {
        ReachTrans(g, x, v, z);
        assert Anchors(g, s, gray, x, z);
      } else {
        assert Anchors(g, s, gray, x, a);
      }
    }
  }

  /** What a complete visit of v, begun in s0 at the given index, leaves behind; low is v's final lowlink. */
  ghost predicate Visited<T(!new)>(g: Graph<T>, s0: State<T>, s1: State<T>, index: nat, v: T, low: nat) {
    && s0.idx.Keys <= s1.idx.Keys
    && (forall x :: x in s0.idx ==> s1.idx[x] == s0.idx[x])
    && (forall x :: x in s1.idx && x !in s0.idx ==> s1.idx[x] >= index)
    && v in s1.idx && s1.idx[v] == index
    && s0.stack <= s1.stack
    && s0.sccs <= s1.sccs
    && (low < index ==> exists y :: LowTarget(g, s0, v, low, y))
    && low <= index
    && (s1.stack == s0.stack ==> low == index)
    && EdgesBack(g, s0, s1, low)
  }

  ghost predicate LowTarget<T(!new)>(g: Graph<T>, s0: State<T>, v: T, low: nat, y: T) {
    y in s0.stack && y in s0.idx && s0.idx[y] == low && Reach(g, v, y)
  }

  /** Edges from the vertices left on the stack back to older stack elements do not go below low. */
  ghost predicate EdgesBack<T>(g: Graph<T>, s0: State<T>, s1: State<T>, low: nat)
    requires |s0.stack| <= |s1.stack|
  {
    forall x, w :: x in s1.stack[|s0.stack|..] && x in g && w in g[x] && w in s0.stack ==>
      w in s0.idx && low <= s0.idx[w]
  }

  /** A visited successor on the stack. */
  lemma ScanOnStack<T(!new)>(g: Graph<T>, s: State<T>, index: nat, k: nat, low: nat, todo: set<T>, w: T)
    requires Shape(s, index) && k < |s.stack| && s.stack[k] in g && Scanned(g, s, k, low, todo)
    requires w in g[s.stack[k]] && w in s.stack && w in s.idx
    ensures Scanned(g, s, k, if s.idx[w] < low then s.idx[w] else low, todo - {w})
  {
    hide Reach;
    var v := s.stack[k];
    BelowIsEarlier(s, k, w);
    SplitStack(s.stack, k, w);
    if s.idx[w] < s.idx[v] {
      ReachEdge(g, v, w);
      assert LowWitness(g, s, k, s.idx[w], w);
    }
  }

  /** A visited successor in an emitted component. */
  lemma ScanEmitted<T(!new)>(g: Graph<T>, s: State<T>, k: nat, low: nat, todo: set<T>, w: T)
    requires k < |s.stack| && s.stack[k] in g && Scanned(g, s, k, low, todo)
    requires w !in s.stack && w in s.idx
    ensures Scanned(g, s, k, low, todo - {w})
  {
  }

  /** A successor that had to be visited first. */
  lemma ScanVisited<T(!new)>(g: Graph<T>, s0: State<T>, s1: State<T>, index: nat, k: nat, low: nat, todo: set<T>,
                             w: T, lowW: nat)
    requires Shape(s0, index) && k < |s0.stack| && s0.stack[k] in g && Scanned(g, s0, k, low, todo)
    requires w in g[s0.stack[k]] && w !in s0.idx && Visited(g, s0, s1, index, w, lowW)
    ensures k < |s1.stack| && s1.stack[k] == s0.stack[k]
    ensures Scanned(g, s1, k, if lowW < low then lowW else low, todo - {w})
  {
    hide Reach, LowWitness, LowTarget, EdgesBack, Shape;
    var v := s0.stack[k];
    var m := if lowW < low then lowW else low;
    assert s1.stack[k] == v && s1.stack[..k] == s0.stack[..k];
    VisitedLow(g, s0, s1, index, k, low, w, lowW);
    VisitedEdges(g, s0, s1, index, k, low, todo, w, lowW);
  }

  lemma VisitedLow<T(!new)>(g: Graph<T>, s0: State<T>, s1: State<T>, index: nat, k: nat, low: nat, w: T, lowW: nat)
    requires Shape(s0, index) && k < |s0.stack| && s0.stack[k] in g
    requires s0.stack[k] in s0.idx && low <= s0.idx[s0.stack[k]]
    requires low < s0.idx[s0.stack[k]] ==> exists y :: LowWitness(g, s0, k, low, y)
    requires w in g[s0.stack[k]] && Visited(g, s0, s1, index, w, lowW)
    ensures |s1.stack| > k
    ensures
      var m := if lowW < low then lowW else low;
      m < s0.idx[s0.stack[k]] ==> exists y :: LowWitness(g, s1, k, m, y)
  {
    hide Reach, EdgesBack;
    var v := s0.stack[k];
    var m := if lowW < low then lowW else low;
    assert s1.stack[k] == v && s1.stack[..k] == s0.stack[..k];
    if m < s0.idx[v] {
      var y: T;
      if lowW < low {
        y :| LowTarget(g, s0, w, lowW, y);
        BelowIsEarlier(s0, k, y);
        SplitStack(s0.stack, k, y);
        ReachEdge(g, v, w);
        ReachTrans(g, v, w, y);
      } else {
        y :| LowWitness(g, s0, k, low, y);
      }
      assert LowWitness(g, s1, k, m, y);
    }
  }

  lemma VisitedEdges<T(!new)>(g: Graph<T>, s0: State<T>, s1: State<T>, index: nat, k: nat, low: nat, todo: set<T>,
                              w: T, lowW: nat)
    requires Shape(s0, index) && k < |s0.stack| && s0.stack[k] in g && Scanned(g, s0, k, low, todo)
    requires w !in s0.idx && Visited(g, s0, s1, index, w, lowW)
    ensures |s1.stack| > k && s1.stack[..k] == s0.stack[..k]
    ensures
      var m := if lowW < low then lowW else low;
      forall x, z :: x in s1.stack[k + 1..] && x in g && z in g[x] && z in s1.stack[..k] ==>
        z in s1.idx && m <= s1.idx[z]
    ensures w !in s1.stack[..k]
  {
    hide Reach, LowWitness, LowTarget, Shape;
    var m := if lowW < low then lowW else low;
    var n := |s0.stack|;
    LongerStack(s0.stack, s1.stack, k);
    if w in s1.stack[..k] {
      SplitStack(s0.stack, k, w);
      StackIsVisited(s0, index, w);
      assert false;
    }
    hide EdgesBack;
    forall x, z | x in s1.stack[k + 1..] && x in g && z in g[x] && z in s1.stack[..k]
      ensures z in s1.idx && m <= s1.idx[z]
    {
      SplitStack(s0.stack, k, z);
      if x in s0.stack[k + 1..] {
        assert z in s0.idx && low <= s0.idx[z];
      } else {
        assert x in s1.stack[n..];
        BackEdge(g, s0, s1, lowW, x, z);
      }
    }
  }

  lemma LongerStack<T>(stack: seq<T>, longer: seq<T>, k: nat)
    requires stack <= longer && k < |stack|
    ensures longer[..k] == stack[..k] && longer[k + 1..] == stack[k + 1..] + longer[|stack|..]
  {
    assert longer == stack + longer[|stack|..];
  }

  lemma BackEdge<T(!new)>(g: Graph<T>, s0: State<T>, s1: State<T>, low: nat, x: T, z: T)
    requires |s0.stack| <= |s1.stack| && EdgesBack(g, s0, s1, low)
    requires x in s1.stack[|s0.stack|..] && x in g && z in g[x] && z in s0.stack
    ensures z in s0.idx && low <= s0.idx[z]
  {
  }

  /** The visit of v, begun in s0, is under way in s; v sits right above the old stack. */
  ghost predicate Under<T>(s0: State<T>, s: State<T>, index: nat, v: T) {
    && s0.idx.Keys <= s.idx.Keys
    && (forall x :: x in s0.idx ==> s.idx[x] == s0.idx[x])
    && (forall x :: x in s.idx && x !in s0.idx ==> s.idx[x] >= index)
    && v in s.idx && s.idx[v] == index
    && s0.stack + [v] <= s.stack
    && s0.sccs <= s.sccs
  }

  lemma UnderStarts<T>(s0: State<T>, index: nat, v: T)
    requires v !in s0.idx
    ensures Under(s0, Pushed(s0, v, index), index, v)
  {
  }

  lemma UnderContinues<T(!new)>(g: Graph<T>, s0: State<T>, s: State<T>, s': State<T>, index: nat, v: T,
                                index': nat, w: T, low: nat)
    requires Under(s0, s, index, v) && index <= index' && Visited(g, s, s', index', w, low)
    ensures Under(s0, s', index, v)
  {
    hide Reach, EdgesBack, LowTarget;
  }

  lemma VisitPops<T(!new)>(g: Graph<T>, s0: State<T>, s: State<T>, index: nat, v: T)
    requires Under(s0, s, index, v)
    ensures |s0.stack| < |s.stack| && Visited(g, s0, Popped(s, |s0.stack|), index, v, index)
  {
    assert s.stack[..|s0.stack|] == s0.stack;
  }

  lemma VisitStays<T(!new)>(g: Graph<T>, s0: State<T>, s: State<T>, gray: set<T>, index: nat, v: T, low: nat)
    requires Inv(g, s0, gray, index) && Under(s0, s, index, v) && v in g && low < index
    requires |s0.stack| < |s.stack| && s.stack[|s0.stack|] == v && Scanned(g, s, |s0.stack|, low, {})
    ensures Visited(g, s0, s, index, v, low)
  {
    hide Reach, Anchored, StackReaches, SccsOk, BlackClosed, ClosedSet, IsScc, Emitted, Elems;
    var k := |s0.stack|;
    assert s.stack[..k] == s0.stack;
    var y :| LowWitness(g, s, k, low, y);
    StackIsVisited(s0, index, y);
    assert LowTarget(g, s0, v, low, y);
    forall x, w | x in s.stack[k..] && x in g && w in g[x] && w in s0.stack
      ensures w in s0.idx && low <= s0.idx[w]
    {
      StackIsVisited(s0, index, w);
      assert x == v || x in s.stack[k + 1..] by {
        assert s.stack[k..] == [v] + s.stack[k + 1..];
      }
    }
  }

  /** Before the visit of a successor w of v: all of the stack reaches w. */
  lemma ReadyToVisit<T(!new)>(g: Graph<T>, s0: State<T>, s: State<T>, gray: set<T>, index: nat, index': nat, v: T, w: T)
    requires Inv(g, s0, gray, index) && Inv(g, s, gray + {v}, index') && Under(s0, s, index, v)
    requires v in g && w in g[v]
    ensures forall x :: x in s.stack ==> Reach(g, x, w)
  {
    hide Reach, Shape, SccsOk, BlackClosed, StackReaches, Anchored;
    var k := |s0.stack|;
    assert s.stack[..k + 1] == s0.stack + [v] && s.stack[k] == v;
    assert Elems(s0.stack + [v]) == Elems(s0.stack) + {v};
    AllReachTopGray(g, s, gray + {v}, k);
    ReachEdge(g, v, w);
    forall x | x in s.stack
      ensures Reach(g, x, w)
    {
      ReachTrans(g, x, v, w);
    }
  }

  /** After the visit of a successor w of v. */
  lemma AfterVisit<T(!new)>(g: Graph<T>, s0: State<T>, s: State<T>, s': State<T>, gray: set<T>, index: nat,
                            index': nat, v: T, low: nat, todo: set<T>, w: T, lowW: nat)
    requires Inv(g, s, gray + {v}, index') && Under(s0, s, index, v) && index <= index'
    requires |s0.stack| < |s.stack| && s.stack[|s0.stack|] == v && v in g && w in g[v] && w !in s.idx
    requires Scanned(g, s, |s0.stack|, low, todo) && Visited(g, s, s', index', w, lowW)
    ensures Under(s0, s', index, v)
    ensures |s0.stack| < |s'.stack| && s'.stack[|s0.stack|] == v
    ensures Scanned(g, s', |s0.stack|, if lowW < low then lowW else low, todo - {w})
    ensures v in s'.idx
  {
    hide Scanned, Shape, Visited;
    UnderContinues(g, s0, s, s', index, v, index', w, low := lowW);
    ScanVisited(g, s, s', index', |s0.stack|, low, todo, w, lowW);
  }

  lemma ScanIsOver<T(!new)>(g: Graph<T>, s0: State<T>, s: State<T>, gray: set<T>, index: nat, index': nat, v: T,
                            low: nat)
    requires Inv(g, s0, gray, index) && Inv(g, s, gray + {v}, index') && Under(s0, s, index, v) && v in g
    requires |s0.stack| < |s.stack| && s.stack[|s0.stack|] == v && Scanned(g, s, |s0.stack|, low, {})
    ensures AtEnd(g, s, gray, index', |s0.stack|, low)
    ensures v in s.idx && low <= index == s.idx[v]
  {
    hide Shape, SccsOk, BlackClosed, StackReaches, Anchored, Reach;
    assert s.stack[..|s0.stack|] == s0.stack;
  }
}
