/**
 * The mutable blocks read_file builds, and the trees they stand for. Blocks are objects shared between the reader's
 * stack and their parents' lists of kids; a snapshot records the fields of all of them.
 */
module CppBlocks {
  import opened CppSnippets

  datatype Kid = IncKid(inc: Include) | CodeKid(lines: seq<string>) | BlockKid(block: CppBlock)

  class CppBlock {
    /** The line that opened the block; 0 for the whole file. */
    ghost const id: nat
    var start: string
    var end: string
    var kids: seq<Kid>

    constructor (start: string, ghost id: nat)
      ensures this.start == start && end == "" && kids == [] && this.id == id
    {
      this.start := start;
      this.id := id;
      end := "";
      kids := [];
    }
  }

  /** The fields of a block. */
  datatype Fields = Fields(start: string, end: string, kids: seq<Kid>)

  type Snapshot = map<CppBlock, Fields>

  ghost predicate Reflects(m: Snapshot)
    reads m.Keys
  {
    forall b :: b in m ==> m[b] == Fields(b.start, b.end, b.kids)
  }

  /** Blocks among the kids are known, and newer than their parent. */
  ghost predicate KidsKnown(m: Snapshot, kids: seq<Kid>, parent: nat, n: nat) {
    forall k :: k in kids && k.BlockKid? ==> k.block in m && parent < k.block.id < n
  }

  ghost predicate WellFounded(m: Snapshot, n: nat) {
    forall b :: b in m ==> b.id < n && KidsKnown(m, m[b].kids, b.id, n)
  }

  /** The tree a block stands for. */
  ghost function TreeOf(m: Snapshot, b: CppBlock, n: nat): (t: Snippet)
    requires WellFounded(m, n) && b in m
    ensures t.Block?
    decreases n - b.id, 1, 0
  {
    Block(m[b].start, TreesOf(m, m[b].kids, b.id, n), m[b].end)
  }

  ghost function TreesOf(m: Snapshot, kids: seq<Kid>, parent: nat, n: nat): seq<Snippet>
    requires WellFounded(m, n) && parent < n && KidsKnown(m, kids, parent, n)
    decreases n - parent, 0, |kids|
  {
    if kids == [] then []
    else
      assert kids[0] in kids && forall k :: k in kids[1..] ==> k in kids;
      [KidTree(m, kids[0], parent, n)] + TreesOf(m, kids[1..], parent, n)
  }

  ghost function KidTree(m: Snapshot, kid: Kid, parent: nat, n: nat): Snippet
    requires WellFounded(m, n) && parent < n && (kid.BlockKid? ==> kid.block in m && parent < kid.block.id < n)
    decreases n - parent, 0, 0
  {
    match kid
    case IncKid(inc) => Inc(inc)
    case CodeKid(lines) => Code(lines)
    case BlockKid(block) => TreeOf(m, block, n)
  }

  lemma {:induction false} TreesSplit(m: Snapshot, a: seq<Kid>, b: seq<Kid>, parent: nat, n: nat)
    requires WellFounded(m, n) && parent < n && KidsKnown(m, a, parent, n) && KidsKnown(m, b, parent, n)
    ensures KidsKnown(m, a + b, parent, n)
    ensures TreesOf(m, a + b, parent, n) == TreesOf(m, a, parent, n) + TreesOf(m, b, parent, n)
    decreases |a|
  {
    if a == [] {
      assert a + b == b;
    } else {
      assert (a + b)[1..] == a[1..] + b;
      assert forall k :: k in a[1..] ==> k in a;
      TreesSplit(m, a[1..], b, parent, n);
    }
  }

  lemma TreesSnoc(m: Snapshot, a: seq<Kid>, kid: Kid, parent: nat, n: nat)
    requires WellFounded(m, n) && parent < n && KidsKnown(m, a, parent, n) && KidsKnown(m, [kid], parent, n)
    ensures KidsKnown(m, a + [kid], parent, n)
    ensures TreesOf(m, a + [kid], parent, n) == TreesOf(m, a, parent, n) + [KidTree(m, kid, parent, n)]
  {
    TreesSplit(m, a, [kid], parent, n);
    assert kid in [kid];
    assert TreesOf(m, [kid], parent, n) == [KidTree(m, kid, parent, n)] + TreesOf(m, [kid][1..], parent, n);
  }

  // Finished blocks ---------------------------------------------------------------------------------

  /** No block in done has a kid outside done. */
  ghost predicate ClosedUnderKids(m: Snapshot, done: set<CppBlock>) {
    forall b, k :: b in done && b in m && k in m[b].kids && k.BlockKid? ==> k.block in done
  }

  ghost predicate AllIn(kids: seq<Kid>, done: set<CppBlock>) {
    forall k :: k in kids && k.BlockKid? ==> k.block in done
  }

  /** Changing other blocks does not change the tree of a finished one. */
  lemma {:induction false} FinishedTree(m: Snapshot, m': Snapshot, done: set<CppBlock>, b: CppBlock, n: nat)
    requires WellFounded(m, n) && WellFounded(m', n) && ClosedUnderKids(m, done) && b in done
    requires done <= m.Keys && done <= m'.Keys && forall d :: d in done ==> m'[d] == m[d]
    ensures TreeOf(m', b, n) == TreeOf(m, b, n)
    decreases n - b.id, 1, 0
  {
    FinishedTrees(m, m', done, m[b].kids, b.id, n);
  }

  lemma {:induction false} FinishedTrees(m: Snapshot, m': Snapshot, done: set<CppBlock>, kids: seq<Kid>,
                                         parent: nat, n: nat)
    requires WellFounded(m, n) && WellFounded(m', n) && ClosedUnderKids(m, done)
    requires done <= m.Keys && done <= m'.Keys && forall d :: d in done ==> m'[d] == m[d]
    requires parent < n && KidsKnown(m, kids, parent, n) && AllIn(kids, done)
    ensures KidsKnown(m', kids, parent, n)
    ensures TreesOf(m', kids, parent, n) == TreesOf(m, kids, parent, n)
    decreases n - parent, 0, |kids|
  {
    if kids != [] {
      assert kids[0] in kids && forall k :: k in kids[1..] ==> k in kids;
      FinishedTrees(m, m', done, kids[1..], parent, n);
      if kids[0].BlockKid? {
        FinishedTree(m, m', done, kids[0].block, n);
      }
    }
  }

  // Writing out -------------------------------------------------------------------------------------

  /** What one more kid adds to the source text. */
  lemma SourceGrows(m: Snapshot, kids: seq<Kid>, i: nat, parent: nat, n: nat)
    requires WellFounded(m, n) && parent < n && KidsKnown(m, kids, parent, n) && i < |kids|
    ensures KidsKnown(m, kids[..i], parent, n) && KidsKnown(m, kids[..i + 1], parent, n)
    ensures kids[i].BlockKid? ==> kids[i].block in m && parent < kids[i].block.id < n
    ensures KidsSource(TreesOf(m, kids[..i + 1], parent, n))
         == KidsSource(TreesOf(m, kids[..i], parent, n)) + ToSource(KidTree(m, kids[i], parent, n))
  {
    TreesGrow(m, kids, i, parent, n);
    KidsSnoc(TreesOf(m, kids[..i], parent, n), KidTree(m, kids[i], parent, n));
  }

  /** CppBlock.to_source. */
  method BlockToSource(b: CppBlock, ghost m: Snapshot, ghost n: nat) returns (s: string)
    requires Reflects(m) && WellFounded(m, n) && b in m
    ensures s == ToSource(TreeOf(m, b, n))
    decreases n - b.id, 1
  {
    hide TreesOf, KidTree, TreeOf, ToSource, KidsSource, WellFounded, KidsKnown;
    s := b.start;
    var kids := b.kids;
    assert kids[..0] == [];
    BlockParts(m, b, n);
    NoKids(m, b.id, n);
    for i := 0 to |kids|
      invariant KidsKnown(m, kids[..i], b.id, n)
      invariant s == b.start + KidsSource(TreesOf(m, kids[..i], b.id, n))
    {
      SourceGrows(m, kids, i, b.id, n);
      ghost var before := KidsSource(TreesOf(m, kids[..i], b.id, n));
      var t := KidToSource(kids[i], m, b.id, n);
      s := s + t;
      assert b.start + before + t == b.start + (before + t);
    }
    assert kids[..|kids|] == kids;
    s := s + b.end;
  }

  lemma BlockParts(m: Snapshot, b: CppBlock, n: nat)
    requires Reflects(m) && WellFounded(m, n) && b in m
    ensures b.id < n && KidsKnown(m, b.kids, b.id, n)
    ensures ToSource(TreeOf(m, b, n)) == b.start + KidsSource(TreesOf(m, b.kids, b.id, n)) + b.end
  {
  }

  lemma NoKids(m: Snapshot, parent: nat, n: nat)
    requires WellFounded(m, n) && parent < n
    ensures KidsKnown(m, [], parent, n) && KidsSource(TreesOf(m, [], parent, n)) == ""
  {
  }

  method KidToSource(kid: Kid, ghost m: Snapshot, ghost parent: nat, ghost n: nat) returns (s: string)
    requires Reflects(m) && WellFounded(m, n) && parent < n
    requires kid.BlockKid? ==> kid.block in m && parent < kid.block.id < n
    ensures s == ToSource(KidTree(m, kid, parent, n))
    decreases n - parent, 0
  {
    match kid {
      case IncKid(inc) => s := inc.ToSource();
      case CodeKid(lines) => s := Concat(lines);
      case BlockKid(block) => s := BlockToSource(block, m, n);
    }
  }

  // Sorting starts from a copy ----------------------------------------------------------------------

  /** The blocks as a value: sorted leaves the blocks themselves alone. */
  method BlockToTree(b: CppBlock, ghost m: Snapshot, ghost n: nat) returns (t: Snippet)
    requires Reflects(m) && WellFounded(m, n) && b in m
    ensures t == TreeOf(m, b, n)
    decreases n - b.id, 1
  {
    hide TreesOf, KidTree, WellFounded, KidsKnown;
    var kids := b.kids;
    var trees: seq<Snippet> := [];
    assert kids[..0] == [];
    BlockParts(m, b, n);
    NoTrees(m, b.id, n);
    for i := 0 to |kids|
      invariant KidsKnown(m, kids[..i], b.id, n) && trees == TreesOf(m, kids[..i], b.id, n)
    {
      TreesGrow(m, kids, i, b.id, n);
      var kid := KidToTree(kids[i], m, b.id, n);
      trees := trees + [kid];
    }
    assert kids[..|kids|] == kids;
    t := Block(b.start, trees, b.end);
  }

  lemma NoTrees(m: Snapshot, parent: nat, n: nat)
    requires WellFounded(m, n) && parent < n
    ensures KidsKnown(m, [], parent, n) && TreesOf(m, [], parent, n) == []
  {
  }

  lemma TreesGrow(m: Snapshot, kids: seq<Kid>, i: nat, parent: nat, n: nat)
    requires WellFounded(m, n) && parent < n && KidsKnown(m, kids, parent, n) && i < |kids|
    ensures KidsKnown(m, kids[..i], parent, n) && KidsKnown(m, kids[..i + 1], parent, n)
    ensures kids[i].BlockKid? ==> kids[i].block in m && parent < kids[i].block.id < n
    ensures TreesOf(m, kids[..i + 1], parent, n) == TreesOf(m, kids[..i], parent, n) + [KidTree(m, kids[i], parent, n)]
  {
    assert kids[i] in kids && forall k :: k in kids[..i] ==> k in kids;
    assert kids[..i + 1] == kids[..i] + [kids[i]];
    TreesSnoc(m, kids[..i], kids[i], parent, n);
  }

  method KidToTree(kid: Kid, ghost m: Snapshot, ghost parent: nat, ghost n: nat) returns (t: Snippet)
    requires Reflects(m) && WellFounded(m, n) && parent < n
    requires kid.BlockKid? ==> kid.block in m && parent < kid.block.id < n
    ensures t == KidTree(m, kid, parent, n)
    decreases n - parent, 0
  {
    match kid {
      case IncKid(inc) => t := Inc(inc);
      case CodeKid(lines) => t := Code(lines);
      case BlockKid(block) => t := BlockToTree(block, m, n);
    }
  }
}
