/** Writing a whole document through the JSONWriter interface. */
module JsonDocuments {
  import opened Wrappers
  import opened JsonText
  import opened JsonLayout
  import opened JsonWriter

  /** What stays as it was while items are written at the current depth. */
  twostate predicate SameOutside(w: JSONWriter)
    reads w
  {
    && old(w.Valid()) && w.Valid() && w.depth == old(w.depth)
    && Kept(old(w.needComma), w.needComma, w.depth)
    && Kept(old(w.needNewlines), w.needNewlines, w.depth + 1)
  }

  method WriteValue(w: JSONWriter, name: Option<string>, d: Doc)
    requires w.Valid() && (name.Some? ==> CString(name.value)) && Writable(d)
    modifies w
    ensures w.ItemWritten(MaybeName(name) + Text(d, w.depth, old(w.needNewlines[w.depth])))
    ensures exists text ::
      w.ItemWritten(MaybeName(name) + text) && IsText(text, d, w.depth, old(w.needNewlines[w.depth]))
    decreases d, 0
  {
    hide IsText;
    TextLaidOut(d, w.depth, w.needNewlines[w.depth]);
    match d {
      case Null => w.NullProperty(name);
      case Bool(b) => w.BoolProperty(name, b);
      case Int(i) => w.IntProperty(name, i);
      case Str(s) => w.StringProperty(name, s);
      case Arr(items, style) =>
        WriteArray(w, name, items, style);
      case Obj(members, style) =>
        WriteObject(w, name, members, style);
    }
  }

  method WriteArray(w: JSONWriter, name: Option<string>, items: seq<Doc>, style: Style)
    requires w.Valid() && (name.Some? ==> CString(name.value)) && Writable(Arr(items, style))
    modifies w
    ensures w.ItemWritten(MaybeName(name) + Text(Arr(items, style), w.depth, old(w.needNewlines[w.depth])))
    decreases items, 2
  {
    hide Sep, NameText, MaybeName, ItemsText, MembersText, Closing;
    ghost var nl := w.needNewlines[w.depth] && style == MultiLine;
    ghost var before := w.output + Sep(w.depth, w.needNewlines[w.depth], w.needComma[w.depth]);
    w.StartCollection(name, "[", style);
    WriteItems(w, items);
    w.EndCollection("]");
    Assemble(before, MaybeName(name), "[", ItemsText(items, w.depth + 1, nl, false), Closing(w.depth, nl), "]");
  }

  method WriteObject(w: JSONWriter, name: Option<string>, members: seq<Member>, style: Style)
    requires w.Valid() && (name.Some? ==> CString(name.value)) && Writable(Obj(members, style))
    modifies w
    ensures w.ItemWritten(MaybeName(name) + Text(Obj(members, style), w.depth, old(w.needNewlines[w.depth])))
    decreases members, 2
  {
    hide Sep, NameText, MaybeName, ItemsText, MembersText, Closing;
    ghost var nl := w.needNewlines[w.depth] && style == MultiLine;
    ghost var before := w.output + Sep(w.depth, w.needNewlines[w.depth], w.needComma[w.depth]);
    w.StartCollection(name, "{", style);
    WriteMembers(w, members);
    w.EndCollection("}");
    Assemble(before, MaybeName(name), "{", MembersText(members, w.depth + 1, nl, false), Closing(w.depth, nl), "}");
  }

  lemma Assemble(before: string, name: string, open: string, inner: string, closing: string, close: string)
    ensures (before + (name + open)) + inner + closing + close == before + (name + (open + inner + closing + close))
  {
  }

  lemma ItemsStep(before: string, items: seq<Doc>, depth: nat, nl: bool, comma: bool)
    ensures items == [] ==> before + ItemsText(items, depth, nl, comma) == before
    ensures items != [] ==>
      before + Sep(depth, nl, comma) + (MaybeName(None) + Text(items[0], depth, nl))
        + ItemsText(items[1..], depth, nl, true)
      == before + ItemsText(items, depth, nl, comma)
  {
    hide Text, Sep;
    if items != [] {
      RegroupPlain(before, Sep(depth, nl, comma), Text(items[0], depth, nl), ItemsText(items[1..], depth, nl, true));
    }
  }

  lemma MembersStep(before: string, members: seq<Member>, depth: nat, nl: bool, comma: bool)
    ensures members == [] ==> before + MembersText(members, depth, nl, comma) == before
    ensures members != [] ==>
      before + Sep(depth, nl, comma) + (MaybeName(Some(members[0].name)) + Text(members[0].value, depth, nl))
        + MembersText(members[1..], depth, nl, true)
      == before + MembersText(members, depth, nl, comma)
  {
    hide Text, Sep, NameText;
    if members != [] {
      Regroup(before, Sep(depth, nl, comma), NameText(members[0].name), Text(members[0].value, depth, nl),
              MembersText(members[1..], depth, nl, true));
    }
  }

  lemma RegroupPlain(before: string, sep: string, text: string, rest: string)
    ensures before + sep + ("" + text) + rest == before + (sep + text + rest)
  {
  }

  lemma Regroup(before: string, sep: string, name: string, text: string, rest: string)
    ensures before + sep + (name + text) + rest == before + (sep + name + text + rest)
  {
  }

  method WriteItems(w: JSONWriter, items: seq<Doc>)
    requires w.Valid() && WritableItems(items)
    modifies w
    ensures SameOutside(w)
    ensures w.output == old(w.output)
                        + ItemsText(items, w.depth, old(w.needNewlines[w.depth]), old(w.needComma[w.depth]))
    decreases items, 1
  {
    hide Text, ItemsText, Sep, MaybeName, Writable;
    ghost var before, depth, nl, comma := w.output, w.depth, w.needNewlines[w.depth], w.needComma[w.depth];
    ItemsStep(before, items, depth, nl, comma);
    if items != [] {
      WriteValue(w, None, items[0]);
      assert w.depth == depth && w.needComma[depth] && w.needNewlines[depth] == nl;
      ghost var middle := w.output;
      WriteItems(w, items[1..]);
      assert w.output == middle + ItemsText(items[1..], depth, nl, true);
    }
  }

  method WriteMembers(w: JSONWriter, members: seq<Member>)
    requires w.Valid() && WritableMembers(members)
    modifies w
    ensures SameOutside(w)
    ensures w.output == old(w.output)
                        + MembersText(members, w.depth, old(w.needNewlines[w.depth]), old(w.needComma[w.depth]))
    decreases members, 1
  {
    hide Text, MembersText, Sep, MaybeName, Writable;
    ghost var before, depth, nl, comma := w.output, w.depth, w.needNewlines[w.depth], w.needComma[w.depth];
    MembersStep(before, members, depth, nl, comma);
    if members != [] {
      WriteValue(w, Some(members[0].name), members[0].value);
      assert w.depth == depth && w.needComma[depth] && w.needNewlines[depth] == nl;
      ghost var middle := w.output;
      WriteMembers(w, members[1..]);
      assert w.output == middle + MembersText(members[1..], depth, nl, true);
    }
  }

  /** The whole document: Start, the members, End. */
  function DocumentText(members: seq<Member>, style: Style): string {
    Text(Obj(members, style), 0, true) + "\n"
  }

  lemma DocumentAssembled(members: seq<Member>, style: Style)
    ensures
      var nl := style == MultiLine;
      ("" + Sep(0, true, false) + (MaybeName(None) + "{")) + MembersText(members, 1, nl, false) + Closing(0, nl) + "}\n"
      == DocumentText(members, style)
  {
    hide MembersText;
    var nl := style == MultiLine;
    var inner, closing := MembersText(members, 1, nl, false), Closing(0, nl);
    assert "" + Sep(0, true, false) + (MaybeName(None) + "{") == "{";
    assert "}\n" == "}" + "\n";
    assert "{" + inner + closing + ("}" + "\n") == "{" + inner + closing + "}" + "\n";
  }

  lemma DocumentLaidOut(members: seq<Member>, style: Style)
    ensures IsDocument(DocumentText(members, style), members, style)
  {
    hide Text, IsText;
    var text := Text(Obj(members, style), 0, true);
    TextLaidOut(Obj(members, style), 0, true);
    assert (text + "\n")[..|text|] == text;
  }

  method WriteDocument(members: seq<Member>, style: Style) returns (output: string)
    requires WritableMembers(members)
    ensures output == DocumentText(members, style) && IsDocument(output, members, style)
  {
    hide Text, MembersText, Sep, Writable, IsDocument;
    DocumentLaidOut(members, style);
    var w := new JSONWriter();
    DocumentAssembled(members, style);
    w.StartCollection(None, "{", style);
    WriteMembers(w, members);
    w.EndCollection("}\n");
    output := w.output;
  }
}
