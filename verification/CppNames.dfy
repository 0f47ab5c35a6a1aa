/**
 * Where an #include belongs among others, for config/check_spidermonkey_style.py, in terms of its name: eight ranks,
 * and within a rank the alphabetical order without regard to case.
 */
module CppNames {
  import opened CppKeys
  import opened CppSnippets
  import opened CppSorter
  import opened Sorting
  import opened Wrappers

  // Parts of names ----------------------------------------------------------------------------------

  ghost predicate BeginsWith(s: string, front: string) {
    exists rest :: s == front + rest
  }

  ghost predicate EndsIn(s: string, end: string) {
    exists stem :: s == stem + end
  }

  ghost predicate OccursAt(s: string, part: string, k: nat) {
    k + |part| <= |s| && s[k..k + |part|] == part
  }

  ghost predicate Occurs(s: string, part: string) {
    exists k: nat :: OccursAt(s, part, k)
  }

  ghost predicate FirstAt(s: string, part: string, k: nat) {
    OccursAt(s, part, k) && forall j: nat :: j < k ==> !OccursAt(s, part, j)
  }

  /** r is s without the occurrences of a part: the first is taken out, then the first in what follows it, and so on. */
  ghost predicate IsWithout(s: string, part: string, r: string)
    requires part != ""
    decreases |s|
  {
    if Occurs(s, part) then
      exists k: nat, rest :: FirstAt(s, part, k) && IsWithout(s[k + |part|..], part, rest) && r == s[..k] + rest
    else r == s
  }

  // Module names ------------------------------------------------------------------------------------

  ghost predicate IsModule(name: string, m: string) {
    exists a, b, c ::
      IsWithout(name, "inlines.h", a) && IsWithout(a, "-inl.h", b) && IsWithout(b, ".h", c) && IsWithout(c, ".cpp", m)
  }

  /** The name is js/, a stem, .h, and more without another .h. */
  ghost predicate IsPublic(name: string, stem: string) {
    && |name| >= 3 && name[..3] == "js/" && OccursAt(name[3..], ".h", |stem|) && name[3..][..|stem|] == stem
    && forall k: nat :: k > |stem| ==> !OccursAt(name[3..], ".h", k)
  }

  /** The header and the file that includes it have the same module name, or the file's ends in a public header's. */
  ghost predicate IsOwnHeader(enclosing: string, name: string) {
    exists m :: IsModule(enclosing, m)
      && (IsModule(name, m) || exists stem :: IsPublic(name, stem) && EndsIn(m, "/" + stem))
  }

  // Ranks -------------------------------------------------------------------------------------------

  /**
   * In order: the file's own header, mozilla/ headers, system headers, plain ones, those in a directory, inlines.h,
   * -inl.h in a directory, and whatever is no .h file.
   */
  ghost predicate HasRank(enclosing: string, inc: Include, rank: nat) {
    var name := inc.inclname;
    var inDirectory, isMozilla := '/' in name, BeginsWith(name, "mozilla/");
    var isHeader := !inc.isSystem && EndsIn(name, ".h");
    var isOther := isHeader && !IsOwnHeader(enclosing, name);
    || (rank == 0 && isHeader && IsOwnHeader(enclosing, name))
    || (rank == 1 && isOther && isMozilla)
    || (rank == 2 && inc.isSystem)
    || (rank == 3 && isOther && !inDirectory && !EndsIn(name, "inlines.h"))
    || (rank == 4 && isOther && inDirectory && !isMozilla && !EndsIn(name, "-inl.h"))
    || (rank == 5 && isOther && !inDirectory && EndsIn(name, "inlines.h"))
    || (rank == 6 && isOther && inDirectory && !isMozilla && EndsIn(name, "-inl.h"))
    || (rank == 7 && !inc.isSystem && !isHeader)
  }

  ghost predicate SameRank(enclosing: string, a: Include, b: Include) {
    exists rank :: HasRank(enclosing, a, rank) && HasRank(enclosing, b, rank)
  }

  /** By character code: the capitals A to Z become small letters. */
  ghost predicate IsLower(s: string, lower: string) {
    && |lower| == |s|
    && forall i :: 0 <= i < |s| ==> lower[i] as int == s[i] as int + if 65 <= s[i] as int <= 90 then 32 else 0
  }

  ghost predicate LowerPrecedes(s: string, t: string) {
    exists l, m :: IsLower(s, l) && IsLower(t, m) && Precedes(l, m)
  }

  /** Of lower rank, or of the same rank with a name that comes first. */
  ghost predicate Earlier(enclosing: string, a: Include, b: Include) {
    exists p, q :: HasRank(enclosing, a, p) && HasRank(enclosing, b, q)
      && (p < q || (p == q && LowerPrecedes(a.inclname, b.inclname)))
  }

  /** Of the same rank, with names that differ in case at most. */
  ghost predicate SamePlace(enclosing: string, a: Include, b: Include) {
    SameRank(enclosing, a, b) && exists l :: IsLower(a.inclname, l) && IsLower(b.inclname, l)
  }

  // The functions of the source ---------------------------------------------------------------------

  lemma StartsIff(s: string, front: string)
    ensures StartsWith(s, front) <==> BeginsWith(s, front)
  {
    if StartsWith(s, front) {
      assert s == front + s[|front|..];
    }
  }

  lemma EndsIff(s: string, end: string)
    ensures EndsWith(s, end) <==> EndsIn(s, end)
  {
    if EndsWith(s, end) {
      assert s == s[..|s| - |end|] + end;
    }
    if EndsIn(s, end) {
      var stem :| s == stem + end;
      assert s[|s| - |end|..] == end;
    }
  }

  lemma OccursLater(s: string, part: string, k: nat)
    requires s != ""
    ensures OccursAt(s, part, k + 1) <==> OccursAt(s[1..], part, k)
  {
    if k + 1 + |part| <= |s| {
      assert s[k + 1..k + 1 + |part|] == s[1..][k..k + |part|];
    }
  }

  lemma OccursFirst(s: string, part: string)
    ensures OccursAt(s, part, 0) <==> part <= s
  {
  }

  lemma {:induction false} ContainsIff(s: string, part: string)
    ensures Contains(s, part) <==> Occurs(s, part)
  {
    hide OccursAt;
    OccursFirst(s, part);
    if s == "" {
      OnlyAtStart(part);
    } else {
      ContainsIff(s[1..], part);
      if Occurs(s[1..], part) {
        var k: nat :| OccursAt(s[1..], part, k);
        OccursLater(s, part, k);
      }
      if k: nat :| OccursAt(s, part, k) {
        if k > 0 {
          OccursLater(s, part, k - 1);
        }
      }
    }
  }

  lemma OnlyAtStart(part: string)
    ensures forall k: nat :: OccursAt("", part, k) ==> k == 0
  {
  }

  // Removing parts ----------------------------------------------------------------------------------

  lemma {:induction false} RemoveNone(s: string, part: string)
    requires part != "" && !Occurs(s, part)
    ensures Remove(s, part) == s
  {
    hide OccursAt;
    if |s| >= |part| {
      OccursFirst(s, part);
      assert !OccursAt(s, part, 0);
      forall k: nat ensures !OccursAt(s[1..], part, k) {
        OccursLater(s, part, k);
      }
      RemoveNone(s[1..], part);
    }
  }

  lemma RemoveStep(s: string, part: string)
    requires |s| >= |part| > 0
    ensures Remove(s, part) == if OccursAt(s, part, 0) then Remove(s[|part|..], part) else [s[0]] + Remove(s[1..], part)
  {
  }

  lemma FirstInRest(s: string, part: string, k: nat)
    requires FirstAt(s, part, k) && k > 0
    ensures k + |part| <= |s| && !OccursAt(s, part, 0) && FirstAt(s[1..], part, k - 1)
  {
    hide OccursAt;
    WithinBounds(s, part, k);
    OccursLater(s, part, k - 1);
    forall j: nat | j < k - 1 ensures !OccursAt(s[1..], part, j) {
      OccursLater(s, part, j);
      assert !OccursAt(s, part, j + 1);
    }
  }

  lemma {:induction false} RemoveFirst(s: string, part: string, k: nat)
    requires part != "" && FirstAt(s, part, k)
    ensures k + |part| <= |s| && Remove(s, part) == s[..k] + Remove(s[k + |part|..], part)
  {
    hide Remove, FirstAt;
    WithinBounds(s, part, k);
    RemoveStep(s, part);
    if k > 0 {
      FirstInRest(s, part, k);
      RemoveFirst(s[1..], part, k - 1);
      RemoveShifted(s, part, k);
    }
  }

  lemma WithinBounds(s: string, part: string, k: nat)
    requires FirstAt(s, part, k)
    ensures k + |part| <= |s| && OccursAt(s, part, k)
  {
  }

  lemma RemoveShifted(s: string, part: string, k: nat)
    requires k > 0 && k + |part| <= |s| && part != ""
    ensures s[1..][k - 1 + |part|..] == s[k + |part|..] && [s[0]] + s[1..][..k - 1] == s[..k]
  {
  }

  lemma {:induction false} FirstExists(s: string, part: string, k: nat) returns (first: nat)
    requires OccursAt(s, part, k)
    ensures FirstAt(s, part, first)
    decreases k
  {
    if j: nat :| j < k && OccursAt(s, part, j) {
      first := FirstExists(s, part, j);
    } else {
      first := k;
    }
  }

  lemma FirstUnique(s: string, part: string, k: nat, j: nat)
    requires FirstAt(s, part, k) && FirstAt(s, part, j)
    ensures k == j
  {
  }

  lemma WithoutParts(s: string, part: string, r: string) returns (k: nat, rest: string)
    requires part != "" && IsWithout(s, part, r) && Occurs(s, part)
    ensures FirstAt(s, part, k) && k + |part| <= |s| && IsWithout(s[k + |part|..], part, rest) && r == s[..k] + rest
  {
    k, rest :| FirstAt(s, part, k) && IsWithout(s[k + |part|..], part, rest) && r == s[..k] + rest;
  }

  lemma WithoutIf(s: string, part: string, r: string, k: nat, rest: string)
    requires part != "" && FirstAt(s, part, k) && k + |part| <= |s|
    requires IsWithout(s[k + |part|..], part, rest) && r == s[..k] + rest
    ensures IsWithout(s, part, r)
  {
  }

  lemma {:induction false} WithoutIff(s: string, part: string, r: string)
    requires part != ""
    ensures IsWithout(s, part, r) <==> r == Remove(s, part)
    decreases |s|
  {
    hide OccursAt, FirstAt, Remove;
    if Occurs(s, part) {
      hide IsWithout;
      var k: nat :| OccursAt(s, part, k);
      var first := FirstExists(s, part, k);
      RemoveFirst(s, part, first);
      var rest := Remove(s[first + |part|..], part);
      WithoutIff(s[first + |part|..], part, rest);
      if r == Remove(s, part) {
        WithoutIf(s, part, r, first, rest);
      }
      if IsWithout(s, part, r) {
        var j, rest' := WithoutParts(s, part, r);
        FirstUnique(s, part, first, j);
        WithoutIff(s[first + |part|..], part, rest');
      }
    } else {
      RemoveNone(s, part);
    }
  }

  lemma ModuleIff(name: string, m: string)
    ensures IsModule(name, m) <==> m == ModuleName(name)
  {
    hide Remove, IsWithout;
    var inlines, inl, h, cpp := "inlines.h", "-inl.h", ".h", ".cpp";
    var a := Remove(name, inlines);
    var b := Remove(a, inl);
    var c := Remove(b, h);
    WithoutIff(name, inlines, a);
    WithoutIff(a, inl, b);
    WithoutIff(b, h, c);
    WithoutIff(c, cpp, m);
    if IsModule(name, m) {
      var a', b', c' :|
        IsWithout(name, inlines, a') && IsWithout(a', inl, b') && IsWithout(b', h, c') && IsWithout(c', cpp, m);
      WithoutIff(name, inlines, a');
      WithoutIff(a', inl, b');
      WithoutIff(b', h, c');
    }
  }

  // Public headers ----------------------------------------------------------------------------------

  ghost predicate LastAt(s: string, part: string, k: nat) {
    OccursAt(s, part, k) && forall j: nat :: j > k ==> !OccursAt(s, part, j)
  }

  lemma OccursInFront(s: string, part: string, k: nat)
    requires s != "" && k + |part| < |s|
    ensures OccursAt(s, part, k) <==> OccursAt(s[..|s| - 1], part, k)
  {
    assert s[k..k + |part|] == s[..|s| - 1][k..k + |part|];
  }

  lemma OccursAtEnd(s: string, part: string)
    requires |part| <= |s|
    ensures OccursAt(s, part, |s| - |part|) <==> EndsWith(s, part)
  {
    assert s[|s| - |part|..] == s[|s| - |part|..|s| - |part| + |part|];
  }

  lemma {:induction false} BeforeLastIff(s: string, stem: string)
    ensures BeforeLastH(s) == Some(stem) <==> LastAt(s, ".h", |stem|) && s[..|stem|] == stem
  {
    hide EndsWith;
    var h := ".h";
    if |s| >= 2 {
      OccursAtEnd(s, h);
      if EndsWith(s, h) {
        assert LastAt(s, h, |s| - 2);
        if LastAt(s, h, |stem|) && s[..|stem|] == stem {
          assert |stem| == |s| - 2;
        }
      } else {
        BeforeLastIff(s[..|s| - 1], stem);
        LastInFront(s, h, |stem|);
        if |stem| <= |s| - 1 {
          assert s[..|s| - 1][..|stem|] == s[..|stem|];
        }
      }
    }
  }

  lemma LastInFront(s: string, part: string, k: nat)
    requires |s| >= |part| > 0 && !OccursAt(s, part, |s| - |part|)
    ensures LastAt(s, part, k) <==> LastAt(s[..|s| - 1], part, k)
  {
    hide OccursAt;
    var front := s[..|s| - 1];
    forall j: nat ensures OccursAt(s, part, j) <==> OccursAt(front, part, j) {
      OccursInside(s, part, j);
      if j + |part| < |s| {
        OccursInFront(s, part, j);
      }
    }
    if LastAt(s, part, k) {
      forall j: nat | j > k ensures !OccursAt(front, part, j) {
        assert !OccursAt(s, part, j);
      }
    }
    if LastAt(front, part, k) {
      forall j: nat | j > k ensures !OccursAt(s, part, j) {
        assert !OccursAt(front, part, j);
      }
    }
  }

  lemma OccursInside(s: string, part: string, j: nat)
    requires |s| >= |part| > 0 && !OccursAt(s, part, |s| - |part|)
    ensures j + |part| >= |s| ==> !OccursAt(s, part, j) && !OccursAt(s[..|s| - 1], part, j)
  {
  }

  lemma PublicIff(name: string, stem: string)
    ensures IsPublic(name, stem) <==> StartsWith(name, "js/") && BeforeLastH(name[3..]) == Some(stem)
  {
    hide BeforeLastH, OccursAt;
    if |name| >= 3 {
      BeforeLastIff(name[3..], stem);
    }
  }

  lemma OwnHeaderIff(enclosing: string, name: string)
    ensures IsOwnHeader(enclosing, name) <==> IsModuleHeader(enclosing, name)
  {
    hide IsModule, ModuleName, IsPublic, BeforeLastH, EndsIn, EndsWith;
    var m := ModuleName(enclosing);
    forall m' ensures IsModule(enclosing, m') <==> m' == m {
      ModuleIff(enclosing, m');
    }
    ModuleIff(name, m);
    forall stem ensures IsPublic(name, stem) <==> StartsWith(name, "js/") && BeforeLastH(name[3..]) == Some(stem) {
      PublicIff(name, stem);
    }
    forall stem ensures EndsIn(m, "/" + stem) <==> EndsWith(m, "/" + stem) {
      EndsIff(m, "/" + stem);
    }
  }

  // Keys --------------------------------------------------------------------------------------------

  /** The rank of an include is its section. */
  lemma RankIff(enclosing: string, inc: Include, rank: nat)
    ensures HasRank(enclosing, inc, rank) <==> rank == Section(enclosing, inc)
  {
    hide IsOwnHeader, IsModuleHeader, EndsIn, EndsWith, StartsWith, BeginsWith;
    var name := inc.inclname;
    OwnHeaderIff(enclosing, name);
    StartsIff(name, "mozilla/");
    EndsIff(name, ".h");
    EndsIff(name, "-inl.h");
    EndsIff(name, "inlines.h");
    if BeginsWith(name, "mozilla/") {
      MozillaIsDirectory(name);
    }
  }

  lemma MozillaIsDirectory(name: string)
    requires BeginsWith(name, "mozilla/")
    ensures '/' in name
  {
    var rest :| name == "mozilla/" + rest;
    assert name[7] == '/';
  }

  lemma LowerIff(s: string, lower: string)
    ensures IsLower(s, lower) <==> lower == Lower(s)
  {
  }

  lemma LowerPrecedesIff(s: string, t: string)
    ensures LowerPrecedes(s, t) <==> StringLess()(Lower(s), Lower(t))
  {
    hide IsLower, Lower, Precedes, StringLess;
    LowerIff(s, Lower(s));
    LowerIff(t, Lower(t));
    StringLessIs(Lower(s), Lower(t));
    if LowerPrecedes(s, t) {
      var l, m :| IsLower(s, l) && IsLower(t, m) && Precedes(l, m);
      LowerIff(s, l);
      LowerIff(t, m);
    }
  }

  lemma EarlierIff(enclosing: string, a: Include, b: Include)
    ensures Earlier(enclosing, a, b) <==> ByKey(StyleOf(enclosing))(a, b)
  {
    hide HasRank, LowerPrecedes, Section, StringLess, Lower, ODDLY_ORDERED, Contains;
    LowerPrecedesIff(a.inclname, b.inclname);
    RankIff(enclosing, a, Section(enclosing, a));
    RankIff(enclosing, b, Section(enclosing, b));
    if Earlier(enclosing, a, b) {
      var p, q :| HasRank(enclosing, a, p) && HasRank(enclosing, b, q)
        && (p < q || (p == q && LowerPrecedes(a.inclname, b.inclname)));
      RankIff(enclosing, a, p);
      RankIff(enclosing, b, q);
    }
  }

  lemma SameRankIff(enclosing: string, a: Include, b: Include)
    ensures SameRank(enclosing, a, b) <==> Section(enclosing, a) == Section(enclosing, b)
  {
    hide HasRank, Section;
    RankIff(enclosing, a, Section(enclosing, a));
    RankIff(enclosing, b, Section(enclosing, a));
    if SameRank(enclosing, a, b) {
      var rank :| HasRank(enclosing, a, rank) && HasRank(enclosing, b, rank);
      RankIff(enclosing, a, rank);
      RankIff(enclosing, b, rank);
    }
  }

  lemma SamePlaceIff(enclosing: string, a: Include, b: Include)
    ensures SamePlace(enclosing, a, b) <==> SortKey(enclosing, a) == SortKey(enclosing, b)
  {
    hide SameRank, Section, IsLower, Lower;
    SameRankIff(enclosing, a, b);
    LowerIff(a.inclname, Lower(a.inclname));
    LowerIff(b.inclname, Lower(a.inclname));
    if l :| IsLower(a.inclname, l) && IsLower(b.inclname, l) {
      LowerIff(a.inclname, l);
      LowerIff(b.inclname, l);
    }
  }
}
