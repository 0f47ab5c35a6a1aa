/** Stable sorting, and lexicographic order, as Python's sorted() uses them. */
module Sorting {
  import opened Sequences

  /** A strict weak order: unrelated elements are ties. */
  ghost predicate StrictWeak<T(!new)>(less: (T, T) -> bool) {
    && (forall x :: !less(x, x))
    && (forall x, y, z :: less(x, y) && less(y, z) ==> less(x, z))
    && (forall x, y, z :: less(x, z) ==> less(x, y) || less(y, z))
  }

  /** A strict total order: no ties but between equals. */
  ghost predicate StrictTotal<T(!new)>(less: (T, T) -> bool) {
    StrictWeak(less) && forall x, y :: x != y ==> less(x, y) || less(y, x)
  }

  /** No element is smaller than one before it. */
  ghost predicate InOrder<T>(less: (T, T) -> bool, s: seq<T>) {
    forall i, j :: 0 <= i < j < |s| ==> !less(s[j], s[i])
  }

  function Insert<T>(less: (T, T) -> bool, x: T, s: seq<T>): seq<T> {
    if s != [] && less(s[0], x) then [s[0]] + Insert(less, x, s[1..]) else [x] + s
  }

  /** Stable: an element goes before the ties behind it. */
  function Sort<T>(less: (T, T) -> bool, s: seq<T>): seq<T> {
    if s == [] then [] else Insert(less, s[0], Sort(less, s[1..]))
  }

  lemma {:induction false} InsertAdds<T>(less: (T, T) -> bool, x: T, s: seq<T>)
    ensures multiset(Insert(less, x, s)) == multiset(s) + multiset{x}
    ensures forall y :: y in Insert(less, x, s) <==> y == x || y in s
  {
    if s != [] && less(s[0], x) {
      InsertAdds(less, x, s[1..]);
      assert s == [s[0]] + s[1..];
    }
  }

  lemma {:induction false} InsertKeeps<T(!new)>(less: (T, T) -> bool, x: T, s: seq<T>)
    requires StrictWeak(less) && InOrder(less, s)
    ensures InOrder(less, Insert(less, x, s))
    ensures multiset(Insert(less, x, s)) == multiset(s) + multiset{x}
  {
    hide StrictWeak, InOrder;
    InsertAdds(less, x, s);
    if s != [] && less(s[0], x) {
      TailInOrder(less, s);
      InsertKeeps(less, x, s[1..]);
      InsertAdds(less, x, s[1..]);
      HeadIsLeast(less, x, s);
      ConsInOrder(less, s[0], Insert(less, x, s[1..]));
    } else {
      NoneBefore(less, x, s);
      ConsInOrder(less, x, s);
    }
  }

  lemma ConsInOrder<T>(less: (T, T) -> bool, x: T, s: seq<T>)
    requires InOrder(less, s) && forall y :: y in s ==> !less(y, x)
    ensures InOrder(less, [x] + s)
  {
  }

  lemma HeadIsLeast<T(!new)>(less: (T, T) -> bool, x: T, s: seq<T>)
    requires StrictWeak(less) && InOrder(less, s) && s != [] && less(s[0], x)
    ensures !less(x, s[0]) && forall y :: y in s[1..] ==> !less(y, s[0])
  {
    assert !less(s[0], s[0]);
  }

  lemma NoneBefore<T(!new)>(less: (T, T) -> bool, x: T, s: seq<T>)
    requires StrictWeak(less) && InOrder(less, s) && (s == [] || !less(s[0], x))
    ensures forall y :: y in s ==> !less(y, x)
  {
    forall y | y in s ensures !less(y, x) {
      var i :| 0 <= i < |s| && s[i] == y;
      assert i == 0 || !less(s[i], s[0]);
    }
  }

  lemma {:induction false} SortKeeps<T(!new)>(less: (T, T) -> bool, s: seq<T>)
    requires StrictWeak(less)
    ensures InOrder(less, Sort(less, s))
    ensures multiset(Sort(less, s)) == multiset(s)
    ensures |Sort(less, s)| == |s|
  {
    hide StrictWeak, Insert;
    if s != [] {
      hide InOrder;
      SortKeeps(less, s[1..]);
      InsertKeeps(less, s[0], Sort(less, s[1..]));
      HeadCounted(s);
    }
    SameTails(Sort(less, s), s);
  }

  lemma HeadCounted<T>(s: seq<T>)
    requires s != []
    ensures multiset(s) == multiset(s[1..]) + multiset{s[0]}
  {
    assert s == [s[0]] + s[1..];
  }

  /** Sorting leaves a sequence without inversions alone, ties included. */
  lemma {:induction false} SortOfSorted<T(!new)>(less: (T, T) -> bool, s: seq<T>)
    requires InOrder(less, s)
    ensures Sort(less, s) == s
  {
    if s != [] {
      SortOfSorted(less, s[1..]);
      assert s == [s[0]] + s[1..];
    }
  }

  ghost predicate NoTies<T(!new)>(less: (T, T) -> bool, s: seq<T>) {
    forall x, y :: x in s && y in s && x != y ==> less(x, y) || less(y, x)
  }

  lemma SameHead<T(!new)>(less: (T, T) -> bool, r: seq<T>, s: seq<T>)
    requires InOrder(less, r) && InOrder(less, s) && multiset(r) == multiset(s) && NoTies(less, r)
    requires r != [] && s != []
    ensures r[0] == s[0]
  {
    assert s[0] in multiset(r) && r[0] in multiset(s);
    var i :| 0 <= i < |r| && r[i] == s[0];
    var j :| 0 <= j < |s| && s[j] == r[0];
  }

  lemma TailInOrder<T(!new)>(less: (T, T) -> bool, r: seq<T>)
    requires InOrder(less, r) && r != []
    ensures InOrder(less, r[1..]) && (NoTies(less, r) ==> NoTies(less, r[1..]))
  {
  }

  lemma SameTails<T>(r: seq<T>, s: seq<T>)
    requires multiset(r) == multiset(s)
    ensures |r| == |s|
    ensures r != [] && s != [] && r[0] == s[0] ==> multiset(r[1..]) == multiset(s[1..])
  {
    assert |multiset(r)| == |r| && |multiset(s)| == |s|;
    if r != [] && s != [] && r[0] == s[0] {
      assert r == [r[0]] + r[1..] && s == [s[0]] + s[1..];
      assert multiset(r[1..]) == multiset(r) - multiset{r[0]};
      assert multiset(s[1..]) == multiset(s) - multiset{s[0]};
    }
  }

  /** Without ties, order and contents determine the sequence. */
  lemma {:induction false} OrderDetermines<T(!new)>(less: (T, T) -> bool, r: seq<T>, s: seq<T>)
    requires InOrder(less, r) && InOrder(less, s) && multiset(r) == multiset(s) && NoTies(less, r)
    ensures r == s
  {
    hide InOrder, NoTies;
    SameTails(r, s);
    if r != [] {
      SameHead(less, r, s);
      TailInOrder(less, r);
      TailInOrder(less, s);
      OrderDetermines(less, r[1..], s[1..]);
      assert r == [r[0]] + r[1..] && s == [s[0]] + s[1..];
    }
  }

  lemma SortedUnique<T(!new)>(less: (T, T) -> bool, r: seq<T>, s: seq<T>)
    requires StrictTotal(less) && InOrder(less, r) && InOrder(less, s) && multiset(r) == multiset(s)
    ensures r == s
  {
    OrderDetermines(less, r, s);
  }

  // Lexicographic order -------------------------------------------------------------------------

  predicate LexLess<T(==)>(less: (T, T) -> bool, a: seq<T>, b: seq<T>) {
    b != [] && (a == [] || less(a[0], b[0]) || (a[0] == b[0] && LexLess(less, a[1..], b[1..])))
  }

  function LexBy<T(==)>(less: (T, T) -> bool): (seq<T>, seq<T>) -> bool {
    (a: seq<T>, b: seq<T>) => LexLess(less, a, b)
  }

  lemma {:induction false} LexIrreflexive<T(!new)>(less: (T, T) -> bool, a: seq<T>)
    requires StrictTotal(less)
    ensures !LexLess(less, a, a)
  {
    if a != [] {
      LexIrreflexive(less, a[1..]);
    }
  }

  lemma {:induction false} LexTotal<T(!new)>(less: (T, T) -> bool, a: seq<T>, b: seq<T>)
    requires StrictTotal(less) && a != b
    ensures LexLess(less, a, b) || LexLess(less, b, a)
  {
    if a != [] && b != [] && a[0] == b[0] {
      assert a == [a[0]] + a[1..] && b == [b[0]] + b[1..];
      LexTotal(less, a[1..], b[1..]);
    }
  }

  lemma {:induction false} LexTransitive<T(!new)>(less: (T, T) -> bool, a: seq<T>, b: seq<T>, c: seq<T>)
    requires StrictTotal(less) && LexLess(less, a, b) && LexLess(less, b, c)
    ensures LexLess(less, a, c)
  {
    if a != [] && a[0] == b[0] == c[0] {
      LexTransitive(less, a[1..], b[1..], c[1..]);
    }
  }

  lemma LexIsTotal<T(!new)>(less: (T, T) -> bool)
    requires StrictTotal(less)
    ensures StrictTotal(LexBy(less))
  {
    var lex := LexBy(less);
    forall x
      ensures !lex(x, x)
    {
      LexIrreflexive(less, x);
    }
    forall x, y | x != y
      ensures lex(x, y) || lex(y, x)
    {
      LexTotal(less, x, y);
    }
    forall x, y, z | lex(x, y) && lex(y, z)
      ensures lex(x, z)
    {
      LexTransitive(less, x, y, z);
    }
    TotalIsWeak(lex);
  }

  lemma TotalIsWeak<T(!new)>(less: (T, T) -> bool)
    requires forall x :: !less(x, x)
    requires forall x, y, z :: less(x, y) && less(y, z) ==> less(x, z)
    requires forall x, y :: x != y ==> less(x, y) || less(y, x)
    ensures StrictTotal(less)
  {
    forall x, y, z | less(x, z)
      ensures less(x, y) || less(y, z)
    {
      if x != y && !less(x, y) {
        assert less(y, x);
      }
    }
  }

  function CharLess(): (char, char) -> bool {
    (a: char, b: char) => a < b
  }

  /** The order of strings, by code point. */
  function StringLess(): (string, string) -> bool {
    LexBy(CharLess())
  }

  lemma StringOrder()
    ensures StrictTotal(StringLess())
  {
    TotalIsWeak(CharLess());
    LexIsTotal(CharLess());
  }

  /** The order of lists of strings. */
  function ListLess(): (seq<string>, seq<string>) -> bool {
    LexBy(StringLess())
  }

  lemma ListOrder()
    ensures StrictTotal(ListLess())
  {
    StringOrder();
    LexIsTotal(StringLess());
  }

  /** A proper prefix, or smaller where the two first differ. */
  ghost predicate LessAt<T>(less: (T, T) -> bool, a: seq<T>, b: seq<T>, k: nat) {
    k <= |a| && k < |b| && a[..k] == b[..k] && (k == |a| || less(a[k], b[k]))
  }

  lemma {:induction false} LexLessIf<T>(less: (T, T) -> bool, a: seq<T>, b: seq<T>, k: nat)
    requires LessAt(less, a, b, k)
    ensures LexLess(less, a, b)
    decreases k
  {
    if k > 0 {
      assert a[..k][0] == a[0] && b[..k][0] == b[0];
      assert a[1..][..k - 1] == a[..k][1..] && b[1..][..k - 1] == b[..k][1..];
      LexLessIf(less, a[1..], b[1..], k - 1);
    }
  }

  lemma {:induction false} LexLessAt<T>(less: (T, T) -> bool, a: seq<T>, b: seq<T>) returns (k: nat)
    requires LexLess(less, a, b)
    ensures LessAt(less, a, b, k)
  {
    if a == [] || less(a[0], b[0]) {
      k := 0;
    } else {
      k := LexLessAt(less, a[1..], b[1..]);
      assert a[..k + 1] == [a[0]] + a[1..][..k] && b[..k + 1] == [b[0]] + b[1..][..k];
      k := k + 1;
    }
  }

  /** The alphabetical order of strings: a proper prefix, or a smaller character where they first differ. */
  ghost predicate Precedes(a: string, b: string) {
    exists k :: 0 <= k <= |a| && k < |b| && a[..k] == b[..k] && (k == |a| || a[k] < b[k])
  }

  lemma StringLessIs(a: string, b: string)
    ensures StringLess()(a, b) <==> Precedes(a, b)
  {
    hide LexLess;
    if StringLess()(a, b) {
      var k := LexLessAt(CharLess(), a, b);
      assert a[..k] == b[..k];
    }
    if Precedes(a, b) {
      var k :| 0 <= k <= |a| && k < |b| && a[..k] == b[..k] && (k == |a| || a[k] < b[k]);
      LexLessIf(CharLess(), a, b, k);
    }
  }

  /** The order of lists of strings: the same, with a string that precedes the other's where they first differ. */
  ghost predicate ListPrecedes(a: seq<string>, b: seq<string>) {
    exists k :: 0 <= k <= |a| && k < |b| && a[..k] == b[..k] && (k == |a| || Precedes(a[k], b[k]))
  }

  lemma ListLessIs(a: seq<string>, b: seq<string>)
    ensures ListLess()(a, b) <==> ListPrecedes(a, b)
  {
    hide LexLess, Precedes, StringLess;
    if ListLess()(a, b) {
      var k := LexLessAt(StringLess(), a, b);
      if k < |a| {
        StringLessIs(a[k], b[k]);
      }
      assert a[..k] == b[..k];
    }
    if ListPrecedes(a, b) {
      var k :| 0 <= k <= |a| && k < |b| && a[..k] == b[..k] && (k == |a| || Precedes(a[k], b[k]));
      if k < |a| {
        StringLessIs(a[k], b[k]);
      }
      LexLessIf(StringLess(), a, b, k);
    }
  }

  /** r lists the elements of s in order, each once. */
  ghost predicate Lists<T>(less: (T, T) -> bool, s: set<T>, r: seq<T>) {
    InOrder(less, r) && multiset(r) == multiset(s)
  }

  /** sorted() of a set. */
  method SortSet<T(==,!new)>(less: (T, T) -> bool, s: set<T>) returns (r: seq<T>)
    requires StrictTotal(less)
    ensures Lists(less, s, r)
  {
    r := [];
    var todo := s;
    while todo != {}
      invariant todo <= s && InOrder(less, r) && multiset(r) == multiset(s) - multiset(todo)
      decreases todo
    {
      var x :| x in todo;
      InsertKeeps(less, x, r);
      r := Insert(less, x, r);
      todo := todo - {x};
    }
  }

  /** sorted() of a set, as a value. */
  ghost function SetSorted<T(!new)>(less: (T, T) -> bool, s: set<T>): (r: seq<T>)
    requires StrictTotal(less)
    ensures Lists(less, s, r)
  {
    SortedExists(less, s);
    var r :| Lists(less, s, r);
    r
  }

  lemma {:induction false} SortedExists<T(!new)>(less: (T, T) -> bool, s: set<T>)
    requires StrictTotal(less)
    ensures exists r :: Lists(less, s, r)
  {
    if s == {} {
      assert Lists(less, s, []);
    } else {
      var x :| x in s;
      SortedExists(less, s - {x});
      var r :| Lists(less, s - {x}, r);
      InsertKeeps(less, x, r);
      assert Lists(less, s, Insert(less, x, r));
    }
  }

  lemma SetSortedIs<T(!new)>(less: (T, T) -> bool, s: set<T>, r: seq<T>)
    requires StrictTotal(less) && Lists(less, s, r)
    ensures r == SetSorted(less, s)
  {
    SortedUnique(less, r, SetSorted(less, s));
  }

  lemma {:induction false} ListsOnce<T>(less: (T, T) -> bool, s: set<T>, r: seq<T>)
    requires Lists(less, s, r)
    ensures forall x :: x in r <==> x in s
    ensures forall i, j :: 0 <= i < j < |r| ==> r[i] != r[j]
    ensures |r| == |s|
  {
    assert forall x :: x in r <==> x in multiset(r);
    assert |multiset(r)| == |r| && |multiset(s)| == |s|;
    forall i, j | 0 <= i < j < |r|
      ensures r[i] != r[j]
    {
      if r[i] == r[j] {
        DuplicateCounts(r, i, j);
        assert false;
      }
    }
  }
}
