/** read_file of config/check_spidermonkey_style.py. */
module CppReader {
  import opened Wrappers
  import opened CppSnippets
  import opened CppBlocks
  import opened CppTrees
  import opened Sequences

  // The reader's stack ------------------------------------------------------------------------------

  /** Each open block is the last kid of the one below it; everything else is finished. */
  ghost predicate StackOk(m: Snapshot, stack: seq<CppBlock>, n: nat) {
    && WellFounded(m, n)
    && stack != []
    && Elems(stack) <= m.Keys
    && ClosedUnderKids(m, m.Keys - Elems(stack))
    && (forall i, j :: 0 <= i < j < |stack| ==> stack[i].id < stack[j].id)
    && (forall i :: 0 <= i < |stack| ==> OpenOk(m, stack, i))
  }

  ghost predicate OpenOk(m: Snapshot, stack: seq<CppBlock>, i: nat)
    requires i < |stack|
  {
    stack[i] in m &&
    var f := m[stack[i]];
    && f.end == ""
    && if i == |stack| - 1 then AllIn(f.kids, m.Keys - Elems(stack))
       else
         && f.kids != [] && f.kids[|f.kids| - 1] == BlockKid(stack[i + 1])
         && AllIn(f.kids[..|f.kids| - 1], m.Keys - Elems(stack))
  }

  /** The kids of an open block, without the block that is open inside it. */
  ghost function FinishedKids(m: Snapshot, stack: seq<CppBlock>, i: nat, n: nat): (kids: seq<Kid>)
    requires StackOk(m, stack, n) && i < |stack|
    ensures stack[i] in m && KidsKnown(m, kids, stack[i].id, n) && AllIn(kids, m.Keys - Elems(stack))
  {
    assert OpenOk(m, stack, i) && stack[i] in Elems(stack);
    var kids := m[stack[i]].kids;
    if i == |stack| - 1 then kids
    else
      assert forall k :: k in kids[..|kids| - 1] ==> k in kids;
      kids[..|kids| - 1]
  }

  ghost function FrameOf(m: Snapshot, stack: seq<CppBlock>, i: nat, n: nat): Frame
    requires StackOk(m, stack, n) && i < |stack|
  {
    var kids := FinishedKids(m, stack, i, n);
    Frame(m[stack[i]].start, TreesOf(m, kids, stack[i].id, n))
  }

  /** What the open blocks stand for. */
  ghost function FramesOf(m: Snapshot, stack: seq<CppBlock>, n: nat): (frames: seq<Frame>)
    requires StackOk(m, stack, n)
    ensures |frames| == |stack| > 0
    ensures forall i :: 0 <= i < |stack| ==> frames[i] == FrameOf(m, stack, i, n)
  {
    seq(|stack|, i requires 0 <= i < |stack| => FrameOf(m, stack, i, n))
  }

  /** Changing other blocks does not change what an open one stands for. */
  lemma FrameSame(m: Snapshot, m': Snapshot, stack: seq<CppBlock>, stack': seq<CppBlock>, i: nat, n: nat)
    requires StackOk(m, stack, n) && StackOk(m', stack', n) && i < |stack| && i < |stack'| && stack'[i] == stack[i]
    requires forall b :: b in m.Keys - Elems(stack) ==> b in m' && m'[b] == m[b]
    requires m'[stack[i]].start == m[stack[i]].start && FinishedKids(m', stack', i, n) == FinishedKids(m, stack, i, n)
    ensures FrameOf(m', stack', i, n) == FrameOf(m, stack, i, n)
  {
    hide FinishedKids, OpenOk, TreesOf;
    var done := m.Keys - Elems(stack);
    FinishedTrees(m, m', done, FinishedKids(m, stack, i, n), stack[i].id, n);
  }

  // Edits of the topmost open block -----------------------------------------------------------------

  function WithKids(m: Snapshot, b: CppBlock, kids: seq<Kid>): Snapshot
    requires b in m
  {
    m[b := m[b].(kids := kids)]
  }

  /** Replacing the kids by others that are finished keeps the stack in order. */
  lemma EditKeepsStack(m: Snapshot, stack: seq<CppBlock>, kids: seq<Kid>, n: nat)
    requires StackOk(m, stack, n) && forall k :: k in kids && k.BlockKid? ==> k in m[stack[|stack| - 1]].kids
    ensures stack[|stack| - 1] in m
    ensures StackOk(WithKids(m, stack[|stack| - 1], kids), stack, n)
  {
    var top := stack[|stack| - 1];
    assert OpenOk(m, stack, |stack| - 1);
    var m' := WithKids(m, top, kids);
    assert m'.Keys == m.Keys;
    forall i | 0 <= i < |stack|
      ensures OpenOk(m', stack, i)
    {
      assert OpenOk(m, stack, i);
    }
  }

  /** What the open blocks stand for then. */
  lemma EditedFrames(m: Snapshot, stack: seq<CppBlock>, kids: seq<Kid>, n: nat)
    requires StackOk(m, stack, n)
    requires forall k :: k in kids && k.BlockKid? ==> k in m[stack[|stack| - 1]].kids
    ensures
      var top := stack[|stack| - 1];
      && top in m && KidsKnown(m, kids, top.id, n)
      && StackOk(WithKids(m, top, kids), stack, n)
      && FramesOf(WithKids(m, top, kids), stack, n) == TopWith(FramesOf(m, stack, n), TreesOf(m, kids, top.id, n))
  {
    hide TreesOf, ClosedUnderKids, KidsKnown, WellFounded;
    var k := |stack| - 1;
    var top := stack[k];
    EditKeepsStack(m, stack, kids, n);
    var m', done := WithKids(m, top, kids), m.Keys - Elems(stack);
    TopParts(m, stack, kids, n);
    FinishedTrees(m, m', done, kids, top.id, n);
    forall i | 0 <= i < k ensures FrameOf(m', stack, i, n) == FrameOf(m, stack, i, n) {
      assert stack[i] != top;
      FrameSame(m, m', stack, stack, i, n);
    }
  }

  lemma TopParts(m: Snapshot, stack: seq<CppBlock>, kids: seq<Kid>, n: nat)
    requires StackOk(m, stack, n)
    requires forall k :: k in kids && k.BlockKid? ==> k in m[stack[|stack| - 1]].kids
    ensures var top := stack[|stack| - 1];
      top in m && top.id < n && KidsKnown(m, kids, top.id, n) && AllIn(kids, m.Keys - Elems(stack))
  {
    assert OpenOk(m, stack, |stack| - 1);
  }

  /** A kid that is no block is added. */
  lemma AddKid(m: Snapshot, stack: seq<CppBlock>, kid: Kid, n: nat)
    requires StackOk(m, stack, n) && !kid.BlockKid?
    ensures stack[|stack| - 1] in m && n > 0
    ensures
      var m' := WithKids(m, stack[|stack| - 1], m[stack[|stack| - 1]].kids + [kid]);
      var frames := FramesOf(m, stack, n);
      StackOk(m', stack, n)
      && FramesOf(m', stack, n) == TopWith(frames, TopKids(frames) + [KidTree(m, kid, 0, n)])
  {
    hide TreesOf, ClosedUnderKids;
    var top := stack[|stack| - 1];
    assert OpenOk(m, stack, |stack| - 1);
    TreesSnoc(m, m[top].kids, kid, top.id, n);
    EditedFrames(m, stack, m[top].kids + [kid], n);
  }

  /** A line of code goes to the run of code at the end, or starts one. */
  predicate CodeAdded(before: seq<Kid>, after: seq<Kid>, line: string) {
    if before != [] && before[|before| - 1].CodeKid? then
      after == before[..|before| - 1] + [CodeKid(before[|before| - 1].lines + [line])]
    else after == before + [CodeKid([line])]
  }

  /** That line in the trees. */
  lemma CodeAddedTrees(m: Snapshot, before: seq<Kid>, after: seq<Kid>, line: string, parent: nat, n: nat)
    requires WellFounded(m, n) && parent < n && KidsKnown(m, before, parent, n) && CodeAdded(before, after, line)
    ensures KidsKnown(m, after, parent, n)
    ensures TreesOf(m, after, parent, n) == WithCode(TreesOf(m, before, parent, n), line)
  {
    hide WellFounded, TreesOf;
    var last := |before| - 1;
    if before == [] {
      TreesSnoc(m, before, CodeKid([line]), parent, n);
      NoTrees(m, parent, n);
    } else {
      var init := before[..last];
      assert before == init + [before[last]] && before[last] in before && forall k :: k in init ==> k in before;
      TreesSnoc(m, init, before[last], parent, n);
      if before[last].CodeKid? {
        TreesSnoc(m, init, CodeKid(before[last].lines + [line]), parent, n);
      } else {
        TreesSnoc(m, before, CodeKid([line]), parent, n);
      }
    }
  }

  lemma AddCode(m: Snapshot, stack: seq<CppBlock>, kids: seq<Kid>, line: string, n: nat)
    requires StackOk(m, stack, n) && stack[|stack| - 1] in m && CodeAdded(m[stack[|stack| - 1]].kids, kids, line)
    ensures
      var m' := WithKids(m, stack[|stack| - 1], kids);
      var frames := FramesOf(m, stack, n);
      StackOk(m', stack, n) && FramesOf(m', stack, n) == TopWith(frames, WithCode(TopKids(frames), line))
  {
    hide TreesOf, ClosedUnderKids, WithCode;
    var top := stack[|stack| - 1];
    assert OpenOk(m, stack, |stack| - 1);
    CodeAddedTrees(m, m[top].kids, kids, line, top.id, n);
    EditedFrames(m, stack, kids, n);
  }

  function WithEnd(m: Snapshot, b: CppBlock, end: string): Snapshot
    requires b in m
  {
    m[b := m[b].(end := end)]
  }

  lemma CloseKeepsStack(m: Snapshot, stack: seq<CppBlock>, line: string, n: nat)
    requires StackOk(m, stack, n) && |stack| > 1 && stack[|stack| - 1] in m
    ensures StackOk(WithEnd(m, stack[|stack| - 1], line), stack[..|stack| - 1], n)
  {
    var k := |stack| - 1;
    var top := stack[k];
    var m', stack' := WithEnd(m, top, line), stack[..k];
    assert OpenOk(m, stack, k);
    assert m'.Keys == m.Keys;
    assert Elems(stack) == Elems(stack') + {top} by {
      assert stack == stack' + [top];
    }
    assert top !in stack';
    forall i | 0 <= i < |stack'|
      ensures OpenOk(m', stack', i)
    {
      assert OpenOk(m, stack, i);
      if i == k - 1 {
        var kids := m[stack[i]].kids;
        assert kids == kids[..|kids| - 1] + [BlockKid(top)];
      }
    }
  }

  /** Closing the topmost block, with or without an #endif line: it is a finished kid of the block below. */
  lemma CloseTop(m: Snapshot, stack: seq<CppBlock>, line: string, n: nat)
    requires StackOk(m, stack, n) && |stack| > 1
    ensures stack[|stack| - 1] in m
    ensures
      var m' := WithEnd(m, stack[|stack| - 1], line);
      var stack' := stack[..|stack| - 1];
      StackOk(m', stack', n) && FramesOf(m', stack', n) == Finished(FramesOf(m, stack, n), line)
  {
    hide TreesOf, ClosedUnderKids;
    var k := |stack| - 1;
    var top, below := stack[k], stack[k - 1];
    assert OpenOk(m, stack, k);
    var m', stack' := WithEnd(m, top, line), stack[..k];
    CloseKeepsStack(m, stack, line, n);
    ClosedKid(m, stack, line, n);
    forall i | 0 <= i < k - 1 ensures FrameOf(m', stack', i, n) == FrameOf(m, stack, i, n) {
      assert stack[i] != top;
      FrameSame(m, m', stack, stack', i, n);
    }
  }

  /** What the block below the closed one stands for. */
  lemma ClosedKid(m: Snapshot, stack: seq<CppBlock>, line: string, n: nat)
    requires StackOk(m, stack, n) && |stack| > 1 && stack[|stack| - 1] in m
    requires StackOk(WithEnd(m, stack[|stack| - 1], line), stack[..|stack| - 1], n)
    ensures
      var k := |stack| - 1;
      var top, below := FrameOf(m, stack, k, n), FrameOf(m, stack, k - 1, n);
      FrameOf(WithEnd(m, stack[k], line), stack[..k], k - 1, n)
        == Frame(below.start, below.kids + [Block(top.start, top.kids, line)])
  {
    hide TreesOf, ClosedUnderKids;
    var k, done := |stack| - 1, m.Keys - Elems(stack);
    var top, below := stack[k], stack[k - 1];
    var m', stack' := WithEnd(m, top, line), stack[..k];
    assert OpenOk(m, stack, k) && OpenOk(m, stack, k - 1) && OpenOk(m', stack', k - 1) && below != top;
    var init := FinishedKids(m, stack, k - 1, n);
    assert m[below].kids == init + [BlockKid(top)] && FinishedKids(m', stack', k - 1, n) == init + [BlockKid(top)];
    FinishedTrees(m, m', done, init, below.id, n);
    FinishedTrees(m, m', done, m[top].kids, top.id, n);
    TreesSnoc(m', init, BlockKid(top), below.id, n);
  }

  /** Opening a block: a new kid of the topmost block, and the new topmost block. */
  function Opened(m: Snapshot, top: CppBlock, b: CppBlock, line: string): Snapshot
    requires top in m
  {
    m[b := Fields(line, "", [])][top := m[top].(kids := m[top].kids + [BlockKid(b)])]
  }

  lemma OpenBlock(m: Snapshot, stack: seq<CppBlock>, b: CppBlock, line: string, n: nat)
    requires StackOk(m, stack, n) && b !in m && stack[|stack| - 1].id < b.id < n
    ensures stack[|stack| - 1] in m
    ensures
      var m' := Opened(m, stack[|stack| - 1], b, line);
      StackOk(m', stack + [b], n) && FramesOf(m', stack + [b], n) == FramesOf(m, stack, n) + [Frame(line, [])]
  {
    hide TreesOf, ClosedUnderKids, WellFounded, FinishedKids, FrameOf, OpenOk;
    var k := |stack| - 1;
    var m', stack' := Opened(m, stack[k], b, line), stack + [b];
    OpenKeepsStack(m, stack, b, line, n);
    forall i | 0 <= i < |stack| ensures FrameOf(m', stack', i, n) == FrameOf(m, stack, i, n) {
      assert stack'[i] == stack[i];
      OpenedKids(m, stack, b, line, i, n);
      FrameSame(m, m', stack, stack', i, n);
    }
    NewFrame(m', stack', line, n);
  }

  lemma NewFrame(m: Snapshot, stack: seq<CppBlock>, line: string, n: nat)
    requires StackOk(m, stack, n) && stack[|stack| - 1] in m && m[stack[|stack| - 1]] == Fields(line, "", [])
    ensures FrameOf(m, stack, |stack| - 1, n) == Frame(line, [])
  {
    hide TreesOf, ClosedUnderKids;
    assert OpenOk(m, stack, |stack| - 1);
    NoTrees(m, stack[|stack| - 1].id, n);
  }

  lemma OpenedKids(m: Snapshot, stack: seq<CppBlock>, b: CppBlock, line: string, i: nat, n: nat)
    requires StackOk(m, stack, n) && b !in m && stack[|stack| - 1] in m && i < |stack|
    requires StackOk(Opened(m, stack[|stack| - 1], b, line), stack + [b], n)
    ensures stack[i] in m
    ensures var m' := Opened(m, stack[|stack| - 1], b, line);
      && stack[i] in m' && m'[stack[i]].start == m[stack[i]].start
      && FinishedKids(m', stack + [b], i, n) == FinishedKids(m, stack, i, n)
  {
    var top := stack[|stack| - 1];
    assert OpenOk(m, stack, i);
    var kids := m[top].kids;
    assert (kids + [BlockKid(b)])[..|kids|] == kids;
    if i < |stack| - 1 {
      assert stack[i] != top && stack[i] != b;
    }
  }

  lemma OpenKeepsStack(m: Snapshot, stack: seq<CppBlock>, b: CppBlock, line: string, n: nat)
    requires StackOk(m, stack, n) && b !in m && stack[|stack| - 1] in m && stack[|stack| - 1].id < b.id < n
    ensures StackOk(Opened(m, stack[|stack| - 1], b, line), stack + [b], n)
  {
    var m', stack' := Opened(m, stack[|stack| - 1], b, line), stack + [b];
    assert m'.Keys == m.Keys + {b};
    assert Elems(stack') == Elems(stack) + {b};
    assert m'.Keys - Elems(stack') == m.Keys - Elems(stack);
    forall i | 0 <= i < |stack'|
      ensures OpenOk(m', stack', i)
    {
      OpenKeepsOpen(m, stack, b, line, i, n);
    }
    hide OpenOk;
  }

  lemma OpenKeepsOpen(m: Snapshot, stack: seq<CppBlock>, b: CppBlock, line: string, i: nat, n: nat)
    requires StackOk(m, stack, n) && b !in m && stack[|stack| - 1] in m && i <= |stack|
    requires Opened(m, stack[|stack| - 1], b, line).Keys - Elems(stack + [b]) == m.Keys - Elems(stack)
    ensures OpenOk(Opened(m, stack[|stack| - 1], b, line), stack + [b], i)
  {
    hide WellFounded, ClosedUnderKids, Elems, AllIn;
    var kids := m[stack[|stack| - 1]].kids;
    NothingIn(m.Keys - Elems(stack));
    if i < |stack| {
      assert OpenOk(m, stack, i);
      if i == |stack| - 1 {
        assert (kids + [BlockKid(b)])[..|kids|] == kids;
      } else {
        assert stack[i] != stack[|stack| - 1];
      }
    }
  }

  lemma NothingIn(done: set<CppBlock>)
    ensures AllIn([], done)
  {
  }

  // The program -------------------------------------------------------------------------------------

  /** The snapshot is up to date, and the stack and everything below it are in order. */
  ghost predicate Reading(m: Snapshot, stack: seq<CppBlock>, linenum: nat, n: nat)
    reads m.Keys
  {
    && Reflects(m) && StackOk(m, stack, n)
    && linenum <= n && forall b :: b in m ==> b.id < linenum
  }

  method AppendInclude(inc: Include, stack: seq<CppBlock>, ghost m: Snapshot, ghost linenum: nat, ghost n: nat)
    returns (ghost m': Snapshot)
    requires Reading(m, stack, linenum, n)
    modifies stack
    ensures Reading(m', stack, linenum, n) && m'.Keys == m.Keys
    ensures var frames := FramesOf(m, stack, n);
      FramesOf(m', stack, n) == TopWith(frames, TopKids(frames) + [Inc(inc)])
  {
    hide StackOk, TreeOf, FramesOf;
    TopKnown(m, stack, n);
    var top := stack[|stack| - 1];
    AddKid(m, stack, IncKid(inc), n);
    top.kids := top.kids + [IncKid(inc)];
    m' := WithKids(m, top, top.kids);
  }

  /** append_ordinary_line. */
  method AppendOrdinaryLine(line: string, stack: seq<CppBlock>, ghost m: Snapshot, ghost linenum: nat, ghost n: nat)
    returns (ghost m': Snapshot)
    requires Reading(m, stack, linenum, n)
    modifies stack
    ensures Reading(m', stack, linenum, n) && m'.Keys == m.Keys
    ensures var frames := FramesOf(m, stack, n);
      FramesOf(m', stack, n) == TopWith(frames, WithCode(TopKids(frames), line))
  {
    hide StackOk, TreeOf, FramesOf, WithCode;
    TopKnown(m, stack, n);
    var top := stack[|stack| - 1];
    var last := |top.kids| - 1;
    if top.kids == [] || !top.kids[last].CodeKid? {
      AddCode(m, stack, top.kids + [CodeKid([line])], line, n);
      top.kids := top.kids + [CodeKid([line])];
    } else {
      var init, lines := top.kids[..last], top.kids[last].lines;
      AddCode(m, stack, init + [CodeKid(lines + [line])], line, n);
      top.kids := init + [CodeKid(lines + [line])];
    }
    m' := WithKids(m, top, top.kids);
  }

  lemma TopKnown(m: Snapshot, stack: seq<CppBlock>, n: nat)
    requires StackOk(m, stack, n)
    ensures stack != [] && stack[|stack| - 1] in m && WellFounded(m, n) && n > 0
    ensures forall i :: 0 <= i < |stack| ==> stack[i] in m
    ensures |stack| > 1 ==> stack[|stack| - 1] != stack[0]
  {
    assert OpenOk(m, stack, |stack| - 1);
    forall i | 0 <= i < |stack|
      ensures stack[i] in m
    {
      assert OpenOk(m, stack, i);
    }
  }

  /** Opening a block: a new kid of the topmost block is pushed. */
  method Push(line: string, stack: seq<CppBlock>, ghost m: Snapshot, ghost linenum: nat, ghost n: nat)
    returns (stack': seq<CppBlock>, ghost m': Snapshot)
    requires Reading(m, stack, linenum, n) && linenum < n
    modifies stack
    ensures Reading(m', stack', linenum + 1, n) && |stack'| == |stack| + 1 && stack'[0] == stack[0]
    ensures m.Keys <= m'.Keys && fresh(m'.Keys - m.Keys)
    ensures FramesOf(m', stack', n) == FramesOf(m, stack, n) + [Frame(line, [])]
  {
    hide StackOk, TreeOf, FramesOf;
    TopKnown(m, stack, n);
    var top := stack[|stack| - 1];
    var b := new CppBlock(line, linenum);
    OpenBlock(m, stack, b, line, n);
    top.kids := top.kids + [BlockKid(b)];
    stack' := stack + [b];
    m' := Opened(m, top, b, line);
  }

  /** Closing the topmost block. */
  method Pop(line: string, stack: seq<CppBlock>, ghost m: Snapshot, ghost linenum: nat, ghost n: nat)
    returns (stack': seq<CppBlock>, ghost m': Snapshot)
    requires Reading(m, stack, linenum, n) && |stack| > 1
    modifies stack
    ensures Reading(m', stack', linenum, n) && stack' == stack[..|stack| - 1] && m'.Keys == m.Keys
    ensures FramesOf(m', stack', n) == Finished(FramesOf(m, stack, n), line)
  {
    hide StackOk, TreeOf, FramesOf;
    TopKnown(m, stack, n);
    var top := stack[|stack| - 1];
    CloseTop(m, stack, line, n);
    top.end := line;
    stack' := stack[..|stack| - 1];
    m' := WithEnd(m, top, line);
  }

  /** One turn of the loop. */
  method ReadLine(kind: LineKind, line: string, linenum: nat, stack: seq<CppBlock>, ghost m: Snapshot, ghost n: nat)
    returns (failure: Option<ReadFailure>, stack': seq<CppBlock>, ghost m': Snapshot)
    requires Reading(m, stack, linenum, n) && linenum < n
    modifies stack
    ensures failure.None? ==> Reading(m', stack', linenum + 1, n) && stack'[0] == stack[0]
    ensures var entered := Entered(kind, line, linenum, FramesOf(m, stack, n));
      if failure.None? then entered == Some(FramesOf(m', stack', n)) else entered == None
    ensures failure.Some? ==> |stack| == 1 && (kind.ElseLine? || kind.EndifLine?)
    ensures failure.Some? ==>
      failure.value == if kind.ElseLine? then ElseWithoutIf(linenum) else EndifWithoutIf(linenum)
    ensures m.Keys <= m'.Keys && fresh(m'.Keys - m.Keys)
  {
    hide StackOk, TreeOf, FrameOf, WithCode;
    TopKnown(m, stack, n);
    failure, stack', m' := None, stack, m;
    match kind {
      case IncludeLine(prefix, inclname, suffix, isSystem) =>
        m' := AppendInclude(Include(prefix, inclname, suffix, linenum, isSystem), stack, m, linenum, n);
      case OpenLine =>
        stack', m' := Push(line, stack, m, linenum, n);
      case ElseLine =>
        if |stack| == 1 {
          failure := Some(ElseWithoutIf(linenum));
        } else {
          stack', m' := Pop("", stack, m, linenum, n);
          stack', m' := Push(line, stack', m', linenum, n);
        }
      case EndifLine =>
        if |stack| == 1 {
          failure := Some(EndifWithoutIf(linenum));
        } else {
          stack', m' := Pop(line, stack, m, linenum, n);
        }
      case OrdinaryLine =>
        m' := AppendOrdinaryLine(line, stack, m, linenum, n);
    }
  }

  lemma FirstBlock(m: Snapshot, root: CppBlock, n: nat)
    requires m == map[root := Fields("", "", [])] && root.id == 0 && n > 0
    ensures StackOk(m, [root], n) && FramesOf(m, [root], n) == NOTHING_READ
  {
    assert OpenOk(m, [root], 0);
  }

  lemma WholeFile(m: Snapshot, stack: seq<CppBlock>, n: nat)
    requires StackOk(m, stack, n) && |stack| == 1
    ensures WellFounded(m, n) && stack[0] in m
    ensures TreeOf(m, stack[0], n) == Block(m[stack[0]].start, FramesOf(m, stack, n)[0].kids, "")
    ensures FramesOf(m, stack, n)[0].start == m[stack[0]].start
  {
    assert OpenOk(m, stack, 0);
  }

  /** What reading one more line comes to, and why it fails. */
  lemma ReadNext(classify: Classifier, lines: seq<string>, i: nat, frames: seq<Frame>)
    requires i < |lines| && frames != [] && ReadOn(classify, lines[..i], 1, NOTHING_READ) == Some(frames)
    ensures var next := Entered(classify(lines[i]), lines[i], i + 1, frames);
      && ReadOn(classify, lines[..i + 1], 1, NOTHING_READ) == next
      && (next == None ==> FileTree(classify, lines) == None)
    ensures |frames| == 1 && (classify(lines[i]).ElseLine? || classify(lines[i]).EndifLine?) ==>
      NeedsIf(classify, lines, i + 1)
  {
    hide Entered, Balanced;
    assert lines[..i + 1][..i] == lines[..i] && lines[..i + 1][i..] == [lines[i]] && [lines[i]][1..] == [];
    ReadsOn(classify, lines[..i + 1], i, 1, NOTHING_READ);
    ReadOne(classify, [lines[i]], i + 1, frames);
    ReadsOn(classify, lines, i + 1, 1, NOTHING_READ);
    ReadsIffBalanced(classify, lines[..i], 1, NOTHING_READ);
  }

  /** What is known when all lines have been read. */
  lemma AllRead(classify: Classifier, lines: seq<string>, frames: seq<Frame>)
    requires frames != [] && ReadOn(classify, lines, 1, NOTHING_READ) == Some(frames)
    ensures frames[0].start == ""
    ensures FileTree(classify, lines) == if |frames| == 1 then Some(Block("", frames[0].kids, "")) else None
    ensures |frames| > 1 ==> FailsBy(classify, lines, UnmatchedIf)
  {
    hide ReadOn, Balanced, NeedsIf;
    ReadStarts(classify, lines, 1, NOTHING_READ);
    ReadsIffBalanced(classify, lines, 1, NOTHING_READ);
    forall n ensures !NeedsIf(classify, lines, n) {
      NoneNeedsIf(classify, lines, n);
    }
  }

  method ReadFile(classify: Classifier, lines: seq<string>)
    returns (r: Result<CppBlock, ReadFailure>, ghost m: Snapshot, ghost n: nat)
    ensures r.Ok? <==> FileTree(classify, lines).Some?
    ensures r.Ok? ==> Reflects(m) && WellFounded(m, n) && r.value in m
    ensures r.Ok? ==> TreeOf(m, r.value, n) == FileTree(classify, lines).value
    ensures r.Err? ==> FailsBy(classify, lines, r.error)
  {
    hide StackOk, TreeOf, FramesOf, Entered, FileTree, Balanced, NeedsIf;
    n := |lines| + 1;
    var root := new CppBlock("", 0);
    var stack := [root];
    m := map[root := Fields("", "", [])];
    FirstBlock(m, root, n);
    for i := 0 to |lines|
      invariant Reading(m, stack, i + 1, n) && stack != [] && stack[0] == root
      invariant fresh(m.Keys)
      invariant ReadOn(classify, lines[..i], 1, NOTHING_READ) == Some(FramesOf(m, stack, n))
    {
      ReadNext(classify, lines, i, FramesOf(m, stack, n));
      TopKnown(m, stack, n);
      var failure;
      failure, stack, m := ReadLine(classify(lines[i]), lines[i], i + 1, stack, m, n);
      if failure.Some? {
        return Err(failure.value), m, n;
      }
    }
    assert lines[..|lines|] == lines;
    AllRead(classify, lines, FramesOf(m, stack, n));
    if |stack| > 1 {
      return Err(UnmatchedIf), m, n;
    }
    WholeFile(m, stack, n);
    return Ok(stack[0]), m, n;
  }

  // Round trip --------------------------------------------------------------------------------------

  /** Every #include line ends in a newline. (Only the last line of a file can fail to.) */
  ghost predicate IncludesEndInNewline(classify: Classifier, lines: seq<string>) {
    forall i :: 0 <= i < |lines| && classify(lines[i]).IncludeLine? ==>
      lines[i] != "" && lines[i][|lines[i]| - 1] == '\n'
  }

  predicate AreLines(lines: seq<string>) {
    forall i :: 0 <= i < |lines| ==> IsLine(lines[i])
  }

  lemma {:induction false} NormalizedLength(classify: Classifier, lines: seq<string>)
    requires Faithful(classify) && AreLines(lines)
    ensures |NormalizedText(classify, lines)| >= |Concat(lines)|
    ensures (exists i :: 0 <= i < |lines| && LineText(classify(lines[i]), lines[i]) != lines[i]) ==>
      |NormalizedText(classify, lines)| > |Concat(lines)|
    ensures (forall i :: 0 <= i < |lines| ==> LineText(classify(lines[i]), lines[i]) == lines[i]) ==>
      NormalizedText(classify, lines) == Concat(lines)
  {
    hide LineText;
    if lines != [] {
      NormalizedLength(classify, lines[1..]);
      LineGrows(classify, lines[0]);
      assert lines == [lines[0]] + lines[1..];
    }
  }

  lemma LineGrows(classify: Classifier, line: string)
    requires Faithful(classify) && IsLine(line)
    ensures |LineText(classify(line), line)| >= |line|
    ensures LineText(classify(line), line) != line ==> |LineText(classify(line), line)| > |line|
    ensures LineText(classify(line), line) != line <==>
      classify(line).IncludeLine? && line != AsInclude(classify(line), 0).ToSource()
  {
  }

  /** A line is written as it was read exactly if it is no #include line without a final newline. */
  lemma LineKept(classify: Classifier, line: string)
    requires Faithful(classify) && SuffixesStop(classify) && IsLine(line)
    ensures LineText(classify(line), line) == line <==>
      (classify(line).IncludeLine? ==> line != "" && line[|line| - 1] == '\n')
  {
    hide AsInclude, Include.ToSource, IsLine;
    if classify(line).IncludeLine? {
      EndsInNewline(classify(line));
    }
  }

  lemma EndsInNewline(kind: LineKind)
    requires kind.IncludeLine?
    ensures var s := AsInclude(kind, 0).ToSource(); s != "" && s[|s| - 1] == '\n'
  {
  }

  /** Reading a balanced file and writing it out gives back the file, exactly if its #include lines end in newlines. */
  lemma RoundTripIff(classify: Classifier, lines: seq<string>)
    requires Faithful(classify) && SuffixesStop(classify) && AreLines(lines)
    ensures NormalizedText(classify, lines) == Concat(lines) <==> IncludesEndInNewline(classify, lines)
  {
    hide LineText, Faithful, SuffixesStop, IsLine, NormalizedText, Concat;
    NormalizedLength(classify, lines);
    forall i | 0 <= i < |lines|
      ensures LineText(classify(lines[i]), lines[i]) == lines[i] <==>
        (classify(lines[i]).IncludeLine? ==> lines[i] != "" && lines[i][|lines[i]| - 1] == '\n')
    {
      LineKept(classify, lines[i]);
    }
  }

  /** read_file, then to_source: the identity on balanced files, exactly if their #include lines end in newlines. */
  method ReadAndWrite(classify: Classifier, lines: seq<string>) returns (r: Result<string, ReadFailure>)
    requires Faithful(classify) && SuffixesStop(classify) && AreLines(lines)
    ensures r.Ok? <==> Balanced(classify, lines, 0)
    ensures r.Ok? ==> (r.value == Concat(lines) <==> IncludesEndInNewline(classify, lines))
    ensures r.Err? ==> FailsBy(classify, lines, r.error)
  {
    hide FailsBy, FileTree, Balanced, IncludesEndInNewline, Faithful, SuffixesStop, NormalizedText, TreeOf, ToSource;
    var block, m, n := ReadFile(classify, lines);
    TreeIffBalanced(classify, lines);
    RoundTripIff(classify, lines);
    if FileTree(classify, lines).Some? {
      TreeText(classify, lines);
    }
    match block
    case Err(failure) =>
      r := Err(failure);
    case Ok(b) =>
      var text := BlockToSource(b, m, n);
      r := Ok(text);
  }
}
