/** mfbt/JSONWriter.h: the incremental writer and its string escaper. */
module JsonWriter {
  import opened Wrappers
  import opened JsonText
  import opened JsonLayout

  /** How many bytes escaping one byte adds. */
  function Extra(u: char): nat {
    if TwoCharEscape(u) != NO_ESCAPE then 1 else if u as int <= 0x1f then 5 else 0
  }

  lemma EscapedLength(u: char)
    ensures |EscapeChar(u)| == 1 + Extra(u)
    ensures Extra(u) == 0 ==> EscapeChar(u) == [u]
  {
  }

  /** The escaped form of a C string; the buffer is allocated only if something has to be escaped. */
  class EscapedString {
    var isOwned: bool
    var len: nat
    var unowned: string
    var owned: array<char>

    /** get(), up to the length len() reports. */
    function Get(): string
      requires isOwned ==> len <= owned.Length
      reads this, owned
    {
      if isOwned then owned[..len] else unowned
    }

    constructor (s: string)
      requires CString(s)
      ensures fresh(owned)
      ensures isOwned ==> owned.Length == len + 1 && owned[len] == NO_ESCAPE
      ensures Get() == Escape(s) && len == |Escape(s)|
      ensures isOwned <==> Escape(s) != s
    {
      // First pass: measure.
      var nExtra := 0;
      var p := 0;
      while p < |s|
        invariant 0 <= p <= |s| && p + nExtra == |Escape(s[..p])|
        invariant nExtra == 0 ==> Escape(s[..p]) == s[..p]
      {
        EscapedLength(s[p]);
        EscapeAppend(s[..p], s[p]);
        assert s[..p + 1] == s[..p] + [s[p]];
        if TwoCharEscape(s[p]) != NO_ESCAPE {
          nExtra := nExtra + 1;
        } else if s[p] as int <= 0x1f {
          nExtra := nExtra + 5;
        }
        p := p + 1;
      }
      assert s[..p] == s;
      // Second pass, only if something has to be escaped: fill a buffer of exactly the measured size.
      isOwned := nExtra != 0;
      len := p + nExtra;
      unowned := if nExtra == 0 then s else "";
      var buffer := new char[if nExtra == 0 then 0 else p + nExtra + 1];
      owned := buffer;
      new;
      if isOwned {
        FillEscaped(s, buffer);
      }
    }
  }

  lemma {:induction false} EscapePrefix(s: string, n: nat)
    requires n <= |s|
    ensures |Escape(s[..n])| <= |Escape(s)|
    ensures n < |s| ==> Escape(s[..n]) + EscapeChar(s[n]) == Escape(s[..n + 1])
    ensures n < |s| ==> |Escape(s[..n])| + |EscapeChar(s[n])| <= |Escape(s)|
    decreases |s| - n
  {
    if n == |s| {
      assert s[..n] == s;
    } else {
      EscapePrefix(s, n + 1);
      assert s[..n + 1] == s[..n] + [s[n]];
      EscapeAppend(s[..n], s[n]);
    }
  }

  /** The second pass, writing each byte of the escaped form where it belongs and a final NUL. */
  method FillEscaped(s: string, buffer: array<char>)
    requires buffer.Length == |Escape(s)| + 1
    modifies buffer
    ensures buffer[..|Escape(s)|] == Escape(s) && buffer[|Escape(s)|] == NO_ESCAPE
  {
    var p, i := 0, 0;
    while p < |s|
      invariant 0 <= p <= |s| && i == |Escape(s[..p])| && i < buffer.Length
      invariant buffer[..i] == Escape(s[..p])
    {
      EscapePrefix(s, p);
      i := PutEscaped(buffer, i, s[p]);
      EscapePrefix(s, p + 1);
      p := p + 1;
    }
    assert s[..p] == s;
    buffer[i] := NO_ESCAPE;
  }

  method PutEscaped(buffer: array<char>, i: nat, u: char) returns (i': nat)
    requires i + |EscapeChar(u)| < buffer.Length
    modifies buffer
    ensures i' == i + |EscapeChar(u)|
    ensures buffer[..i'] == old(buffer[..i]) + EscapeChar(u)
  {
    i' := i;
    if TwoCharEscape(u) != NO_ESCAPE {
      buffer[i'], buffer[i' + 1] := '\\', TwoCharEscape(u);
      i' := i' + 2;
    } else if u as int <= 0x1f {
      buffer[i'], buffer[i' + 1], buffer[i' + 2], buffer[i' + 3] := '\\', 'u', '0', '0';
      buffer[i' + 4] := HexDigit((u as int) / 16);
      buffer[i' + 5] := HexDigit(u as int);
      i' := i' + 6;
    } else {
      buffer[i'] := u;
      i' := i' + 1;
    }
  }

  /** The first n flags are as they were. */
  ghost predicate Kept(v: seq<bool>, v': seq<bool>, n: nat) {
    n <= |v| && n <= |v'| && forall i :: 0 <= i < n ==> v'[i] == v[i]
  }

  class JSONWriter {
    var output: string
    var needComma: seq<bool>
    var needNewlines: seq<bool>
    var depth: nat

    ghost predicate Valid()
      reads this
    {
      depth < |needComma| && depth < |needNewlines|
    }

    /** Nothing but the output and the comma flag at the current depth differs from the old state. */
    twostate predicate ItemWritten(text: string)
      requires old(Valid())
      reads this
    {
      && Valid() && depth == old(depth)
      && output == old(output) + Sep(depth, old(needNewlines[depth]), old(needComma[depth])) + text
      && needComma[depth]
      && Kept(old(needComma), needComma, depth)
      && Kept(old(needNewlines), needNewlines, depth + 1)
    }

    constructor ()
      ensures Valid() && output == "" && depth == 0
      ensures !needComma[0] && needNewlines[0]
    {
      output := "";
      needComma := [];
      needNewlines := [];
      depth := 0;
      new;
      NewVectorEntries();
    }

    method Write(s: string)
      modifies this`output
      ensures output == old(output) + s
    {
      output := output + s;
    }

    method Indent()
      modifies this`output
      ensures output == old(output) + Spaces(depth)
    {
      for i := 0 to depth
        invariant output == old(output) + Spaces(i)
      {
        SpacesSnoc(i);
        Write(" ");
      }
    }

    method Separator()
      requires Valid()
      modifies this`output
      ensures output == old(output) + Sep(depth, needNewlines[depth], needComma[depth])
      ensures exists gap ::
        output == old(output) + gap && IsGap(gap, !needComma[depth], depth, depth > 0 && needNewlines[depth])
    {
      hide IsGap, Sep, Lead, Spaces;
      SepIsGap(depth, needNewlines[depth], needComma[depth]);
      SepWritten(output, depth, needNewlines[depth], needComma[depth]);
      if needComma[depth] {
        Write(",");
      }
      if depth > 0 && needNewlines[depth] {
        Write("\n");
        Indent();
      } else if needComma[depth] {
        Write(" ");
      }
    }

    method PropertyNameAndColon(name: string)
      requires CString(name)
      modifies this`output
      ensures output == old(output) + NameText(name)
    {
      hide Escape, CString, EscapedString.Get;
      var escaped := new EscapedString(name);
      var text := escaped.Get();
      Write("\"");
      Write(text);
      Write("\": ");
      assert output == old(output) + ("\"" + text + "\": ");
    }

    method Scalar(name: Option<string>, text: string)
      requires Valid() && (name.Some? ==> CString(name.value))
      modifies this`output, this`needComma
      ensures ItemWritten(MaybeName(name) + text)
    {
      hide Sep, NameText;
      Separator();
      if name.Some? {
        PropertyNameAndColon(name.value);
      }
      Write(text);
      needComma := needComma[depth := true];
    }

    method QuotedScalar(name: Option<string>, text: string)
      requires Valid() && (name.Some? ==> CString(name.value))
      modifies this`output, this`needComma
      ensures ItemWritten(MaybeName(name) + ("\"" + text + "\""))
    {
      hide Sep, NameText;
      Separator();
      if name.Some? {
        PropertyNameAndColon(name.value);
      }
      Write("\"");
      Write(text);
      Write("\"");
      needComma := needComma[depth := true];
    }

    /** Both vectors get exactly depth + 1 entries; entries that did not exist have no particular value. */
    method NewVectorEntries()
      modifies this`needComma, this`needNewlines
      ensures Valid() && |needComma| == |needNewlines| == depth + 1
      ensures needComma[depth] == false && needNewlines[depth] == true
      ensures depth <= |old(needComma)| ==> Kept(old(needComma), needComma, depth)
      ensures depth <= |old(needNewlines)| ==> Kept(old(needNewlines), needNewlines, depth)
    {
      needComma := Resize(needComma, depth + 1);
      needNewlines := Resize(needNewlines, depth + 1);
      needComma := needComma[depth := false];
      needNewlines := needNewlines[depth := true];
    }

    method StartCollection(name: Option<string>, startChar: string, style: Style)
      requires Valid() && (name.Some? ==> CString(name.value))
      modifies this
      ensures Valid() && depth == old(depth) + 1
      ensures
        output == old(output) + Sep(old(depth), old(needNewlines[depth]), old(needComma[depth]))
                  + (MaybeName(name) + startChar)
      ensures Kept(old(needComma), needComma, old(depth)) && needComma[old(depth)] && !needComma[depth]
      ensures Kept(old(needNewlines), needNewlines, old(depth) + 1)
      ensures needNewlines[depth] == (old(needNewlines[depth]) && style == MultiLine)
    {
      hide Sep, NameText;
      Separator();
      if name.Some? {
        PropertyNameAndColon(name.value);
      }
      Write(startChar);
      needComma := needComma[depth := true];
      depth := depth + 1;
      NewVectorEntries();
      needNewlines := needNewlines[depth := needNewlines[depth - 1] && style == MultiLine];
    }

    method EndCollection(endChar: string)
      requires Valid() && depth > 0
      modifies this`output, this`depth
      ensures Valid() && depth == old(depth) - 1
      ensures output == old(output) + Closing(depth, needNewlines[old(depth)]) + endChar
      ensures exists ending ::
        output == old(output) + ending + endChar && IsEnding(ending, depth, needNewlines[old(depth)])
    {
      hide IsEnding;
      ClosingIsEnding(depth - 1, needNewlines[depth]);
      if needNewlines[depth] {
        Write("\n");
        depth := depth - 1;
        Indent();
      } else {
        depth := depth - 1;
      }
      Write(endChar);
    }

    // The public interface; a name of None is the Element form.

    method NullProperty(name: Option<string>)
      requires Valid() && (name.Some? ==> CString(name.value))
      modifies this`output, this`needComma
      ensures ItemWritten(MaybeName(name) + Text(Null, depth, needNewlines[depth]))
    {
      hide Sep, NameText;
      Scalar(name, "null");
    }

    method BoolProperty(name: Option<string>, b: bool)
      requires Valid() && (name.Some? ==> CString(name.value))
      modifies this`output, this`needComma
      ensures ItemWritten(MaybeName(name) + Text(Bool(b), depth, needNewlines[depth]))
    {
      hide Sep, NameText;
      Scalar(name, if b then "true" else "false");
    }

    method IntProperty(name: Option<string>, i: int)
      requires Valid() && (name.Some? ==> CString(name.value)) && Writable(Int(i))
      modifies this`output, this`needComma
      ensures ItemWritten(MaybeName(name) + Text(Int(i), depth, needNewlines[depth]))
    {
      hide Sep, NameText;
      Scalar(name, IntText(i));
    }

    method StringProperty(name: Option<string>, s: string)
      requires Valid() && (name.Some? ==> CString(name.value)) && CString(s)
      modifies this`output, this`needComma
      ensures ItemWritten(MaybeName(name) + Text(Str(s), depth, needNewlines[depth]))
    {
      hide Sep, NameText;
      var escaped := new EscapedString(s);
      QuotedScalar(name, escaped.Get());
    }
  }

  lemma SepWritten(before: string, depth: nat, newlines: bool, comma: bool)
    ensures var after := if comma then before + "," else before;
      before + Sep(depth, newlines, comma)
      == if depth > 0 && newlines then after + "\n" + Spaces(depth) else if comma then after + " " else after
  {
    hide Spaces;
    assert before + ("," + ("\n" + Spaces(depth))) == before + "," + "\n" + Spaces(depth);
    assert before + ("" + ("\n" + Spaces(depth))) == before + "\n" + Spaces(depth);
    assert before + ("," + " ") == before + "," + " " && before + ("" + "") == before;
  }

  lemma {:induction false} SpacesSnoc(n: nat)
    ensures Spaces(n) + " " == Spaces(n + 1)
  {
    if n > 0 {
      SpacesSnoc(n - 1);
      assert Spaces(n) + " " == " " + (Spaces(n - 1) + " ");
    }
  }

  /** resizeUninitialized. */
  method Resize(v: seq<bool>, n: nat) returns (v': seq<bool>)
    ensures |v'| == n
    ensures forall i :: 0 <= i < n && i < |v| ==> v'[i] == v[i]
  {
    if n <= |v| {
      return v[..n];
    }
    v' := v;
    while |v'| < n
      invariant |v| <= |v'| <= n && v'[..|v|] == v
    {
      var junk: bool := *;
      v' := v' + [junk];
    }
  }
}
