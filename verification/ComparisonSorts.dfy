/**
 * What every sort that decides by comparing elements has in common. Python's sorted() is one; how it works is not
 * looked into here.
 */
module ComparisonSorts {
  import opened Sequences
  import opened Sorting
  import opened Wrappers

  /** A sort of so many elements: which two to compare next, and the order of their indices found in the end. */
  datatype Decision = Done(order: seq<nat>) | Ask(i: nat, j: nat, yes: Decision, no: Decision)

  /** Runs the sort where comparing two different elements that tie fails. */
  function Decide(t: Decision, less: (nat, nat) -> bool): Option<seq<nat>> {
    match t
    case Done(order) => Some(order)
    case Ask(i, j, yes, no) =>
      if less(i, j) then Decide(yes, less)
      else if less(j, i) || i == j then Decide(no, less)
      else None
  }

  predicate AsksBelow(t: Decision, n: nat) {
    t.Ask? ==> t.i < n && t.j < n && AsksBelow(t.yes, n) && AsksBelow(t.no, n)
  }

  function Indices(n: nat): seq<nat> {
    seq(n, i => i)
  }

  ghost predicate Arranges(order: seq<nat>, n: nat, less: (nat, nat) -> bool) {
    multiset(order) == multiset(Indices(n)) && InOrder(less, order)
  }

  ghost predicate SortsTotal(t: Decision, n: nat, less: (nat, nat) -> bool) {
    StrictTotal(less) ==> Decide(t, less).Some? && Arranges(Decide(t, less).value, n, less)
  }

  /** Arranges n elements whenever no two of them tie. */
  ghost predicate Sorts(t: Decision, n: nat) {
    AsksBelow(t, n) && forall less :: SortsTotal(t, n, less)
  }

  predicate NoTiesBelow(less: (nat, nat) -> bool, n: nat) {
    forall i: nat, j: nat :: i < j < n ==> less(i, j) || less(j, i)
  }

  /** The order with ties broken by index, either way. */
  function Refined(less: (nat, nat) -> bool, up: bool): (nat, nat) -> bool {
    (i: nat, j: nat) => less(i, j) || (!less(j, i) && if up then i < j else j < i)
  }

  lemma RefinedTotal(less: (nat, nat) -> bool, up: bool)
    requires StrictWeak(less)
    ensures StrictTotal(Refined(less, up))
  {
    TotalIsWeak(Refined(less, up));
  }

  /** A run that compares no ties does not depend on how they are broken. */
  lemma {:induction false} SameRun(t: Decision, less: (nat, nat) -> bool, up: bool)
    requires StrictWeak(less) && Decide(t, less).Some?
    ensures Decide(t, Refined(less, up)) == Decide(t, less)
  {
    if t.Ask? {
      SameRun(if less(t.i, t.j) then t.yes else t.no, less, up);
    }
  }

  lemma {:induction false} NoTieNoFailure(t: Decision, n: nat, less: (nat, nat) -> bool)
    requires AsksBelow(t, n) && NoTiesBelow(less, n)
    ensures Decide(t, less).Some?
  {
    if t.Ask? {
      NoTieNoFailure(if less(t.i, t.j) then t.yes else t.no, n, less);
    }
  }

  /** Every such sort compares some two of the elements that tie, if there are any. */
  lemma FailsExactlyOnTies(t: Decision, n: nat, less: (nat, nat) -> bool)
    requires Sorts(t, n) && StrictWeak(less)
    ensures Decide(t, less).Some? <==> NoTiesBelow(less, n)
    ensures Decide(t, less).Some? ==> Arranges(Decide(t, less).value, n, less)
  {
    if NoTiesBelow(less, n) {
      NoTieNoFailure(t, n, less);
    }
    if Decide(t, less).Some? {
      var order := Decide(t, less).value;
      SameRun(t, less, true);
      SameRun(t, less, false);
      RefinedTotal(less, true);
      RefinedTotal(less, false);
      assert SortsTotal(t, n, Refined(less, true)) && SortsTotal(t, n, Refined(less, false));
      forall i: nat, j: nat | i < j < n ensures less(i, j) || less(j, i) {
        AllThere(order, n, i);
        AllThere(order, n, j);
        var p :| 0 <= p < |order| && order[p] == i;
        var q :| 0 <= q < |order| && order[q] == j;
        assert p != q;
      }
    }
  }

  lemma OneWay(less: (nat, nat) -> bool, i: nat, j: nat)
    requires StrictTotal(less) && i != j
    ensures less(i, j) <==> !less(j, i)
  {
    assert !less(i, i);
  }

  lemma TwoInOrder(less: (nat, nat) -> bool, i: nat, j: nat)
    requires (i == 0 && j == 1) || (i == 1 && j == 0)
    requires less(i, j) && !less(j, i)
    ensures Arranges([i, j], 2, less)
  {
    assert Indices(2) == [0, 1];
  }

  const SORT_TWO: Decision := Ask(0, 1, Done([0, 1]), Done([1, 0]))

  /** One comparison sorts two elements. */
  lemma SortsTwo()
    ensures Sorts(SORT_TWO, 2)
  {
    hide StrictTotal, Arranges;
    forall less: (nat, nat) -> bool | StrictTotal(less) ensures SortsTotal(SORT_TWO, 2, less) {
      SortsTwoBy(less);
    }
  }

  lemma SortsTwoBy(less: (nat, nat) -> bool)
    requires StrictTotal(less)
    ensures SortsTotal(SORT_TWO, 2, less)
  {
    hide StrictTotal, Arranges;
    OneWay(less, 0, 1);
    if less(0, 1) {
      TwoInOrder(less, 0, 1);
    } else {
      TwoInOrder(less, 1, 0);
    }
  }

  lemma AllThere(order: seq<nat>, n: nat, i: nat)
    requires multiset(order) == multiset(Indices(n)) && i < n
    ensures i in order
  {
    assert Indices(n)[i] == i;
    assert i in multiset(order);
  }

  predicate Below(order: seq<nat>, n: nat) {
    forall k :: 0 <= k < |order| ==> order[k] < n
  }

  /** The elements at those indices. */
  function At<T>(s: seq<T>, order: seq<nat>): (r: seq<T>)
    requires Below(order, |s|)
    ensures |r| == |order|
    ensures forall k :: 0 <= k < |order| ==> r[k] == s[order[k]]
  {
    seq(|order|, k requires 0 <= k < |order| => s[order[k]])
  }

  lemma RemovedOne<T>(s: seq<T>, k: nat)
    requires k < |s|
    ensures multiset(s) == multiset(Removed(s, k)) + multiset{s[k]}
  {
    assert s == s[..k] + [s[k]] + s[k + 1..];
  }

  lemma RemovedAt<T>(s: seq<T>, order: seq<nat>, k: nat)
    requires Below(order, |s|) && k < |order|
    ensures Below(Removed(order, k), |s|) && At(s, Removed(order, k)) == Removed(At(s, order), k)
    ensures multiset(At(s, order)) == multiset(At(s, Removed(order, k))) + multiset{s[order[k]]}
  {
    RemovedOne(At(s, order), k);
  }

  lemma {:induction false} PermutedAt<T>(s: seq<T>, a: seq<nat>, b: seq<nat>)
    requires multiset(a) == multiset(b) && Below(a, |s|) && Below(b, |s|)
    ensures multiset(At(s, a)) == multiset(At(s, b))
    decreases |a|
  {
    hide Removed, At, Below;
    SameTails(a, b);
    if a != [] {
      assert a[0] in multiset(b);
      var k :| 0 <= k < |b| && b[k] == a[0];
      RemovedOne(a, 0);
      RemovedOne(b, k);
      RemovedAt(s, a, 0);
      RemovedAt(s, b, k);
      Cancel(multiset(Removed(a, 0)), multiset(Removed(b, k)), a[0]);
      Shorter(a, 0);
      PermutedAt(s, Removed(a, 0), Removed(b, k));
    } else {
      NothingAt(s);
    }
  }

  lemma Shorter<T>(s: seq<T>, k: nat)
    requires k < |s|
    ensures |Removed(s, k)| == |s| - 1
  {
  }

  lemma NothingAt<T>(s: seq<T>)
    ensures Below([], |s|) && At(s, []) == []
  {
  }

  lemma Cancel<T>(a: multiset<T>, b: multiset<T>, x: T)
    requires a + multiset{x} == b + multiset{x}
    ensures a == b
  {
    assert a == (a + multiset{x}) - multiset{x};
    assert b == (b + multiset{x}) - multiset{x};
  }

  lemma ArrangesAll<T>(s: seq<T>, order: seq<nat>)
    requires multiset(order) == multiset(Indices(|s|))
    ensures Below(order, |s|) && multiset(At(s, order)) == multiset(s)
  {
    forall k | 0 <= k < |order| ensures order[k] < |s| {
      assert order[k] in multiset(order);
      assert order[k] in Indices(|s|);
    }
    PermutedAt(s, order, Indices(|s|));
    assert At(s, Indices(|s|)) == s;
  }
}
