/** The sort keys of config/check_spidermonkey_style.py, and an input on which they collide. */
module CppKeys {
  import opened CppSnippets
  import opened CppSorter
  import opened Sorting
  import opened Wrappers

  predicate StartsWith(s: string, prefix: string) {
    prefix <= s
  }

  predicate EndsWith(s: string, suffix: string) {
    |suffix| <= |s| && s[|s| - |suffix|..] == suffix
  }

  predicate Contains(s: string, part: string) {
    part <= s || (s != "" && Contains(s[1..], part))
  }

  /** replace(part, ''). */
  function Remove(s: string, part: string): string
    requires part != ""
  {
    if |s| < |part| then s
    else if s[..|part|] == part then Remove(s[|part|..], part)
    else [s[0]] + Remove(s[1..], part)
  }

  function ModuleName(name: string): string {
    Remove(Remove(Remove(Remove(name, "inlines.h"), "-inl.h"), ".h"), ".cpp")
  }

  /** What comes before the last ".h". */
  function BeforeLastH(s: string): Option<string> {
    if |s| < 2 then None
    else if EndsWith(s, ".h") then Some(s[..|s| - 2])
    else BeforeLastH(s[..|s| - 1])
  }

  /** A header named after the enclosing file's module, or a public one under js/. */
  predicate IsModuleHeader(enclosing: string, name: string) {
    || ModuleName(enclosing) == ModuleName(name)
    || (StartsWith(name, "js/")
        && BeforeLastH(name[3..]).Some? && EndsWith(ModuleName(enclosing), "/" + BeforeLastH(name[3..]).value))
  }

  function Section(enclosing: string, inc: Include): nat {
    if inc.isSystem then 2
    else if !EndsWith(inc.inclname, ".h") then 7
    else if IsModuleHeader(enclosing, inc.inclname) then 0
    else if '/' in inc.inclname then
      if StartsWith(inc.inclname, "mozilla/") then 1
      else if EndsWith(inc.inclname, "-inl.h") then 6
      else 4
    else if EndsWith(inc.inclname, "inlines.h") then 5
    else 3
  }

  /** lower() over the ASCII range. */
  function Lower(s: string): (r: string)
    ensures |r| == |s|
    ensures forall i :: 0 <= i < |s| ==> r[i] == if 'A' <= s[i] <= 'Z' then s[i] + 32 as char else s[i]
  {
    seq(|s|, i requires 0 <= i < |s| => if 'A' <= s[i] <= 'Z' then s[i] + 32 as char else s[i])
  }

  function SortKey(enclosing: string, inc: Include): Key {
    (Section(enclosing, inc), Lower(inc.inclname))
  }

  /** Headers that may come in any order. */
  const ODDLY_ORDERED: set<string> := {
    "ctypes/typedefs.h", "frontend/ReservedWordsGenerated.h", "gc/StatsPhasesGenerated.h",
    "gc/StatsPhasesGenerated.inc", "psapi.h", "machine/endian.h", "winbase.h", "windef.h"
  }

  /** How the includes of a file are sorted. */
  function StyleOf(enclosing: string): Style {
    Style((inc: Include) => SortKey(enclosing, inc), ODDLY_ORDERED, Contains(enclosing, "tests/style/BadIncludes"))
  }

  // Names that collide ------------------------------------------------------------------------------

  lemma {:induction false} TooShort(s: string, part: string)
    requires |s| < |part|
    ensures !Contains(s, part)
  {
    if s != "" {
      TooShort(s[1..], part);
    }
  }

  lemma ModuleX()
    ensures ModuleName("x.cpp") == "x"
  {
    assert "x.cpp"[1..] == ".cpp" && ".cpp"[1..] == "cpp" && "cpp"[1..] == "pp" && "pp"[1..] == "p";
    assert Remove("cpp", ".h") == "cpp";
    assert Remove("x.cpp", ".h") == "x.cpp" && Remove("x.cpp", "inlines.h") == "x.cpp";
    assert Remove("x.cpp", "-inl.h") == "x.cpp" && Remove("x.cpp", ".cpp") == "x";
  }

  lemma ModuleOfHeader(c: char)
    ensures ModuleName([c, '.', 'h']) == [c]
  {
    var name := [c, '.', 'h'];
    assert name[1..] == ".h";
    assert Remove(".h", ".h") == "";
    assert Remove(name, "inlines.h") == name && Remove(name, "-inl.h") == name && Remove(name, ".h") == [c];
    assert Remove([c], ".cpp") == [c];
  }

  function Quoted(name: string, linenum: nat): Include {
    Include("#include ", name, "", linenum, false)
  }

  /** For a file x.cpp, such a header is neither the module header nor in a directory. */
  lemma PlainHeader(c: char, linenum: nat)
    requires 'a' <= c <= 'w' || 'A' <= c <= 'Z'
    ensures SortKey("x.cpp", Quoted([c, '.', 'h'], linenum)) == (3, Lower([c, '.', 'h']))
    ensures [c, '.', 'h'] !in ODDLY_ORDERED
  {
    hide ModuleName;
    ModuleX();
    ModuleOfHeader(c);
  }

  /** --fixup fails on a block that includes c.h, a.h and A.h, in this order: the last two have the same key. */
  lemma CollidingNames()
    ensures
      var kids := [Inc(Quoted("c.h", 1)), Inc(Quoted("a.h", 2)), Inc(Quoted("A.h", 3))];
      !SortableSnippet(StyleOf("x.cpp"), Block("", kids, ""))
  {
    hide SortKey, ODDLY_ORDERED, StringLess;
    var c, a, A := Quoted("c.h", 1), Quoted("a.h", 2), Quoted("A.h", 3);
    var style := StyleOf("x.cpp");
    PlainHeader('c', 1);
    PlainHeader('a', 2);
    PlainHeader('A', 3);
    assert Lower("A.h") == "a.h" && Lower("a.h") == "a.h" && Lower("c.h") == "c.h";
    TooShort("x.cpp", "tests/style/BadIncludes");
    assert StringLess()("a.h", "c.h") by { AThenC(); }
    FailsOnTie(style, c, a, A);
  }

  lemma AThenC()
    ensures StringLess()("a.h", "c.h")
  {
  }

  lemma ThreeIncludes(style: Style, x: Include, y: Include, z: Include)
    ensures Includes([Inc(x), Inc(y), Inc(z)]) == [x, y, z]
    ensures Sortable(style, [Inc(x), Inc(y), Inc(z)], []) <==> Flushable(style, [Inc(x), Inc(y), Inc(z)])
  {
    hide Flushable, ShouldTry, IsSpace, Sort;
    var kids := [Inc(x), Inc(y), Inc(z)];
    assert kids[1..] == [Inc(y), Inc(z)] && [Inc(y), Inc(z)][1..] == [Inc(z)] && [Inc(z)][1..] == [];
    assert [] + [Inc(x)] == [Inc(x)] && [Inc(x)] + [Inc(y)] == [Inc(x), Inc(y)] && [Inc(x), Inc(y)] + [Inc(z)] == kids;
    IncludesSnoc([], Inc(x));
    IncludesSnoc([Inc(x)], Inc(y));
    IncludesSnoc([Inc(x), Inc(y)], Inc(z));
    assert Sortable(style, [Inc(z)], [Inc(x), Inc(y)]) <==> Sortable(style, [], kids);
    assert Sortable(style, [Inc(y), Inc(z)], [Inc(x)]) <==> Sortable(style, [Inc(z)], [Inc(x), Inc(y)]);
  }

  /** A block of three includes, the first out of order and the others with the same key. */
  lemma FailsOnTie(style: Style, x: Include, y: Include, z: Include)
    requires !style.exempt && x.inclname !in style.odd && y.inclname !in style.odd && z.inclname !in style.odd
    requires KeyLess(style.key(y), style.key(x)) && style.key(y) == style.key(z)
    ensures !SortableSnippet(style, Block("", [Inc(x), Inc(y), Inc(z)], ""))
  {
    hide KeyLess, Sort, StrictWeak, Includes, Sortable, IsSpace;
    ThreeIncludes(style, x, y, z);
    KeyOrder(style);
    var includes := [x, y, z];
    SortKeeps(ByKey(style), includes);
    assert ByKey(style)(includes[1], includes[0]);
    assert style.key(includes[1]) == style.key(includes[2]);
  }
}
