/** The renderer as the program runs it: the growable buffer and a path array overwritten in place. */
module TomlWriter {
  import opened Text
  import opened Arithmetic
  import opened Buffers
  import opened Json
  import Toml
  import opened TomlRender

  const PATH_LENGTH: nat := 65

  /** A buffer that has not failed. */
  ghost predicate Ready(out: Buffer)
    reads out, out.data
  {
    out.Valid() && !out.failed
  }

  lemma ReadyHasRoom(out: Buffer)
    requires Ready(out)
    ensures Room(out.Contents(), "")
  {
  }

  /** Whether `piece` still fits after `before`. */
  predicate Room(before: string, piece: string) {
    |before| + |piece| < SIZE_MAX
  }

  lemma Wrote(text: string, piece: string, rest: string, more: string)
    requires rest == piece + more
    ensures text + rest == (text + piece) + more
  {
  }

  /** `mutation_append_toml_string`: succeeds exactly when the whole string fits. */
  method AppendString(out: Buffer, value: string) returns (ok: bool)
    requires Ready(out)
    modifies out, out.data
    ensures out.data == old(out.data) || fresh(out.data)
    ensures ok == Room(old(out.Contents()), BasicQuoted(value))
    ensures ok ==> Ready(out) && out.Contents() == old(out.Contents()) + BasicQuoted(value)
  {
    hide BasicEscape, Buffer.Valid, Buffer.Contents;
    ghost var rest := BasicQuoted(value);
    ghost var whole := out.Contents() + rest;
    ok := out.Append("\"");
    if !ok {
      return;
    }
    rest := BasicEscaped(value) + "\"";
    var cursor := 0;
    assert value[0..] == value;
    while cursor < |value|
      invariant cursor <= |value| && rest == BasicEscaped(value[cursor..]) + "\""
      invariant Ready(out) && (out.data == old(out.data) || fresh(out.data))
      invariant out.Contents() + rest == whole
    {
      assert value[cursor..][1..] == value[cursor + 1..];
      ghost var more := BasicEscaped(value[cursor + 1..]) + "\"";
      assert rest == BasicEscape(value[cursor]) + more;
      Wrote(out.Contents(), BasicEscape(value[cursor]), rest, more);
      ok := out.Append(BasicEscape(value[cursor]));
      if !ok {
        return;
      }
      rest := more;
      cursor := cursor + 1;
    }
    assert rest == "\"";
    ok := out.Append("\"");
  }

  /** `mutation_append_toml_key`: refuses an empty key. */
  method AppendKey(out: Buffer, key: string) returns (ok: bool)
    requires Ready(out)
    modifies out, out.data
    ensures out.data == old(out.data) || fresh(out.data)
    ensures ok == (key != "" && Room(old(out.Contents()), KeyText(key)))
    ensures ok ==> Ready(out) && out.Contents() == old(out.Contents()) + KeyText(key)
  {
    hide Buffer.Valid, Buffer.Contents;
    if key == "" {
      return false;
    }
    var bare := IsBareKey(key);
    if bare {
      ok := out.Append(key);
    } else {
      ok := AppendString(out, key);
    }
  }

  method IsBareKey(key: string) returns (bare: bool)
    ensures bare == AllBare(key)
  {
    for cursor := 0 to |key|
      invariant forall i :: 0 <= i < cursor ==> Toml.IsBare(key[i])
    {
      if !Toml.IsBare(key[cursor]) {
        return false;
      }
    }
    return true;
  }

  /** The text of a path from its `index`-th key on. */
  function PathRest(path: seq<string>, first: bool): string {
    if path == [] then "" else (if first then "" else ".") + (KeyText(path[0]) + PathRest(path[1..], false))
  }

  lemma {:induction false} PathRestIsPath(path: seq<string>, first: bool)
    ensures PathRest(path, first) == (if first || path == [] then "" else ".") + PathText(path)
  {
    hide KeyText;
    if |path| == 1 {
      assert PathRest(path[1..], false) == "";
    } else if |path| > 1 {
      PathRestIsPath(path[1..], false);
    }
  }

  /** `mutation_append_path`: refuses a path with an empty key. */
  method AppendPath(out: Buffer, path: array<string>, depth: nat) returns (ok: bool)
    requires depth <= path.Length && Ready(out)
    modifies out, out.data
    ensures out.data == old(out.data) || fresh(out.data)
    ensures ok == ((forall i :: 0 <= i < depth ==> path[i] != "") && Room(old(out.Contents()), PathText(path[..depth])))
    ensures ok ==> Ready(out) && out.Contents() == old(out.Contents()) + PathText(path[..depth])
  {
    hide KeyText, PathText, Buffer.Valid, Buffer.Contents;
    PathRestIsPath(path[..depth], true);
    ReadyHasRoom(out);
    ghost var rest := PathRest(path[..depth], true);
    ghost var whole := out.Contents() + rest;
    assert path[0..depth] == path[..depth];
    for index := 0 to depth
      invariant Ready(out) && (out.data == old(out.data) || fresh(out.data)) && Room(out.Contents(), "")
      invariant forall i :: 0 <= i < index ==> path[i] != ""
      invariant rest == PathRest(path[index..depth], index == 0) && out.Contents() + rest == whole
    {
      var dot := if index > 0 then "." else "";
      ghost var more := PathRest(path[index + 1..depth], false);
      assert path[index..depth][1..] == path[index + 1..depth];
      assert rest == dot + (KeyText(path[index]) + more);
      Wrote(out.Contents(), dot, rest, KeyText(path[index]) + more);
      ok := out.Append(dot);
      if !ok {
        return;
      }
      Wrote(out.Contents(), KeyText(path[index]), KeyText(path[index]) + more, more);
      ok := AppendKey(out, path[index]);
      if !ok {
        return;
      }
      rest := more;
    }
    assert rest == "" && out.Contents() + "" == out.Contents();
    ok := true;
  }

  /** `mutation_append_toml_value`: writes plain values and refuses the rest. */
  method AppendValue(lib: Library, out: Buffer, value: Value) returns (ok: bool)
    requires Ready(out)
    modifies out, out.data
    ensures out.data == old(out.data) || fresh(out.data)
    ensures ok == (IsPlain(value) && Room(old(out.Contents()), PlainText(Natural(lib, value))))
    ensures ok ==> Ready(out) && out.Contents() == old(out.Contents()) + PlainText(Natural(lib, value))
    decreases value, 1
  {
    hide Buffer.Valid, Buffer.Contents;
    match value
    case Bool(b) => ok := out.Append(if b then "true" else "false");
    case Num(n) =>
      if IsWhole(n.value) {
        ok := out.Append(SignedDecimal(n.value.Floor));
      } else {
        ok := out.Append(lib.general(n.value));
      }
    case Str(s) => ok := AppendString(out, s);
    case Arr(items) => ok := AppendItems(lib, out, items);
    case _ => return false;
  }

  predicate AllPlain(items: seq<Value>) {
    forall i :: 0 <= i < |items| ==> IsPlain(items[i])
  }

  /** The text of an array from item `i` on, its closing bracket included. */
  ghost function ItemsLeft(lib: Library, items: seq<Value>, i: nat): string
    requires i <= |items| && AllPlain(items)
  {
    ItemsText(NaturalItems(lib, items[i..]), i == 0)
  }

  lemma ItemsLeftStep(lib: Library, items: seq<Value>, i: nat)
    requires i <= |items| && AllPlain(items)
    ensures i < |items| ==> ItemsLeft(lib, items, i) ==
                            (if i > 0 then ", " else "")
                            + (PlainText(Natural(lib, items[i])) + ItemsLeft(lib, items, i + 1))
    ensures i == |items| ==> ItemsLeft(lib, items, i) == "]"
  {
    hide PlainText, Natural;
    if i < |items| {
      assert items[i..][1..] == items[i + 1..];
      var ns := NaturalItems(lib, items[i..]);
      assert ns[0] == Natural(lib, items[i]) && ns[1..] == NaturalItems(lib, items[i + 1..]);
    }
  }

  lemma WholeArray(lib: Library, items: seq<Value>, before: string)
    requires AllPlain(items)
    ensures (before + "[") + ItemsLeft(lib, items, 0) == before + PlainText(Toml.Array(NaturalItems(lib, items)))
  {
    hide ItemsText;
    assert items[0..] == items;
    Regroup(before, "[", ItemsText(NaturalItems(lib, items), true), "");
  }

  method AppendItems(lib: Library, out: Buffer, items: seq<Value>) returns (ok: bool)
    requires Ready(out)
    modifies out, out.data
    ensures out.data == old(out.data) || fresh(out.data)
    ensures ok == (AllPlain(items) && Room(old(out.Contents()), PlainText(Toml.Array(NaturalItems(lib, items)))))
    ensures ok ==> Ready(out) && out.Contents() == old(out.Contents()) + PlainText(Toml.Array(NaturalItems(lib, items)))
    decreases items, 0
  {
    hide IsPlain, Natural, ItemsLeft, PlainText, ItemsText, NaturalItems, Buffer.Valid, Buffer.Contents;
    ghost var plain, before := AllPlain(items), out.Contents();
    ghost var whole := if plain then (before + "[") + ItemsLeft(lib, items, 0) else "";
    if plain {
      WholeArray(lib, items, before);
    }
    ok := out.Append("[");
    if !ok {
      return;
    }
    for index := 0 to |items|
      invariant Ready(out) && (out.data == old(out.data) || fresh(out.data))
      invariant forall i :: 0 <= i < index ==> IsPlain(items[i])
      invariant plain ==> out.Contents() + ItemsLeft(lib, items, index) == whole
    {
      var comma := if index > 0 then ", " else "";
      ghost var so := out.Contents();
      if plain {
        ghost var piece, more := PlainText(Natural(lib, items[index])), ItemsLeft(lib, items, index + 1);
        ItemsLeftStep(lib, items, index);
        Wrote(so, comma, ItemsLeft(lib, items, index), piece + more);
        Wrote(so + comma, piece, piece + more, more);
      }
      ok := out.Append(comma);
      if !ok {
        return;
      }
      ok := AppendValue(lib, out, items[index]);
      if !ok {
        return;
      }
    }
    ItemsLeftStep(lib, items, |items|);
    ok := out.Append("]");
  }

  /** `mutation_is_object_array`: whether the value is a non-empty array of objects; `mixed` is the error it raises. */
  method IsObjectArray(value: Value) returns (objects: bool, mixed: bool)
    ensures objects == IsObjects(value)
    ensures mixed ==> !objects && value.Arr? && !IsPlain(value)
  {
    if !value.Arr? || value.items == [] {
      return false, false;
    }
    objects := value.items[0].Obj?;
    for index := 1 to |value.items|
      invariant forall i :: 0 <= i < index ==> value.items[i].Obj? == objects
    {
      if objects != value.items[index].Obj? {
        assert !IsPlain(value.items[0]) || !IsPlain(value.items[index]);
        return false, true;
      }
    }
    mixed := false;
  }

  // ----- tables

  /** Whether the members of a table at `depth` can be rendered. */
  predicate Fits(members: seq<Member>, depth: nat) {
    Supported(members) && depth + Nesting(members) <= MAX_TABLE_DEPTH
  }

  predicate ItemsFit(items: seq<Value>, depth: nat) {
    forall i :: 0 <= i < |items| ==> items[i].Obj? && Fits(items[i].members, depth)
  }

  predicate MemberFits(m: Member, depth: nat) {
    match KindOf(m.value)
    case Dropped => true
    case Line => m.key != "" && IsPlain(m.value)
    case SubTable => m.key != "" && Fits(m.value.members, depth + 1)
    case SubTables => m.key != "" && ItemsFit(m.value.items, depth + 1)
  }

  predicate KindFits(members: seq<Member>, kind: Kind, depth: nat) {
    forall i :: 0 <= i < |members| && KindOf(members[i].value) == kind ==> MemberFits(members[i], depth)
  }

  lemma {:induction false} ItemsFitIff(items: seq<Value>, depth: nat)
    requires items != [] && forall i :: 0 <= i < |items| ==> items[i].Obj?
    ensures ItemsFit(items, depth + 1) <==> SupportedItems(items) && depth + NestingItems(items) <= MAX_TABLE_DEPTH
    decreases items
  {
    if |items| > 1 {
      ItemsFitIff(items[1..], depth);
      assert ItemsFit(items, depth + 1) <==> Fits(items[0].members, depth + 1) && ItemsFit(items[1..], depth + 1) by {
        assert forall i :: 0 < i < |items| ==> items[i] == items[1..][i - 1];
      }
    } else {
      assert items[1..] == [] && SupportedItems(items[1..]) && NestingItems(items[1..]) == 0;
    }
  }

  lemma MemberFitsIff(m: Member, depth: nat)
    requires depth <= MAX_TABLE_DEPTH
    ensures MemberFits(m, depth) <==> SupportedMember(m) && depth + NestingOf(m.value) <= MAX_TABLE_DEPTH
  {
    if IsObjects(m.value) {
      ItemsFitIff(m.value.items, depth);
    }
  }

  /** A table can be rendered exactly when each of its members can. */
  lemma {:induction false} FitsIff(members: seq<Member>, depth: nat)
    requires depth <= MAX_TABLE_DEPTH
    ensures Fits(members, depth) <==> forall i :: 0 <= i < |members| ==> MemberFits(members[i], depth)
    decreases |members|
  {
    hide MemberFits;
    if members != [] {
      FitsIff(members[1..], depth);
      MemberFitsIff(members[0], depth);
      assert forall i :: 0 < i < |members| ==> members[i] == members[1..][i - 1];
    }
  }

  lemma {:induction false} SupportedFrom(members: seq<Member>, i: nat)
    requires Supported(members) && i <= |members|
    ensures Supported(members[i..])
    ensures i < |members| ==> SupportedMember(members[i]) && members[i..][1..] == members[i + 1..]
    decreases i
  {
    if i > 0 {
      SupportedFrom(members, i - 1);
      assert members[i - 1..][1..] == members[i..];
    } else {
      assert members[0..] == members;
    }
    if i < |members| {
      assert members[i..][1..] == members[i + 1..];
      assert SupportedMember(members[i..][0]);
    }
  }

  lemma {:induction false} TextOfJoin(a: seq<Toml.Line>, b: seq<Toml.Line>)
    ensures TextOf(a + b) == TextOf(a) + TextOf(b)
  {
    hide LineText;
    if a == [] {
      assert a + b == b;
    } else {
      assert (a + b)[1..] == a[1..] + b;
      TextOfJoin(a[1..], b);
      Regroup(LineText(a[0]), TextOf(a[1..]), TextOf(b), "");
    }
  }

  /** The text of the pairs from member `i` on. */
  ghost function PairsLeft(lib: Library, members: seq<Member>, i: nat): string
    requires i <= |members|
  {
    if Supported(members) then SupportedFrom(members, i); TextOf(PairLines(lib, members[i..])) else ""
  }

  lemma PairsLeftStep(lib: Library, members: seq<Member>, i: nat)
    requires i < |members| && Supported(members)
    ensures SupportedMember(members[i])
    ensures PairsLeft(lib, members, i) ==
            if KindOf(members[i].value).Line?
            then KeyText(members[i].key) + (" = " + (PlainText(Natural(lib, members[i].value)) + ("\n" + PairsLeft(lib, members, i + 1))))
            else PairsLeft(lib, members, i + 1)
  {
    hide KeyText, PlainText, Natural;
    SupportedFrom(members, i);
    var m, more := members[i], PairLines(lib, members[i + 1..]);
    if KindOf(m.value).Line? {
      var line := Toml.Pair(m.key, Natural(lib, m.value));
      assert PairLines(lib, members[i..]) == [line] + more;
      assert ([line] + more)[1..] == more;
      Regroup(KeyText(m.key), " = ", PlainText(line.value) + "\n", TextOf(more));
      Regroup(PlainText(line.value), "\n", TextOf(more), "");
      Regroup(KeyText(m.key), " = " + (PlainText(line.value) + "\n"), TextOf(more), "");
      Regroup(" = ", PlainText(line.value) + "\n", TextOf(more), "");
    } else {
      assert [] + more == more;
    }
  }

  /** The first loop: the pairs. */
  method RenderPairs(lib: Library, out: Buffer, members: seq<Member>) returns (ok: bool)
    requires Ready(out)
    modifies out, out.data
    ensures out.data == old(out.data) || fresh(out.data)
    ensures ok ==> Ready(out) && KindFits(members, Line, 0)
    ensures Supported(members) ==> ok == Room(old(out.Contents()), TextOf(PairLines(lib, members)))
    ensures ok && Supported(members) ==> out.Contents() == old(out.Contents()) + TextOf(PairLines(lib, members))
  {
    hide KeyText, PlainText, Natural, PairsLeft, Supported, Buffer.Valid, Buffer.Contents;
    ReadyHasRoom(out);
    ghost var sup := Supported(members);
    ghost var whole := out.Contents() + PairsLeft(lib, members, 0);
    if sup {
      WholePairs(lib, members);
    }
    for index := 0 to |members|
      invariant Ready(out) && (out.data == old(out.data) || fresh(out.data)) && Room(out.Contents(), "")
      invariant KindFits(members[..index], Line, 0)
      invariant sup ==> out.Contents() + PairsLeft(lib, members, index) == whole
    {
      var m := members[index];
      assert members[..index + 1] == members[..index] + [m];
      ghost var left := PairsLeft(lib, members, index + 1);
      if sup {
        PairsLeftStep(lib, members, index);
      }
      ok := RenderPair(lib, out, m, left);
      if !ok {
        if sup {
          SupportedPair(members, index);
        }
        return;
      }
      ReadyHasRoom(out);
    }
    assert members[..|members|] == members;
    ok := true;
    if sup {
      assert out.Contents() + "" == out.Contents();
    }
  }

  lemma SupportedPair(members: seq<Member>, i: nat)
    requires Supported(members) && i < |members|
    ensures KindOf(members[i].value).Line? ==> members[i].key != "" && IsPlain(members[i].value)
  {
    SupportedFrom(members, i);
  }

  lemma WholePairs(lib: Library, members: seq<Member>)
    requires Supported(members)
    ensures PairsLeft(lib, members, 0) == TextOf(PairLines(lib, members))
    ensures PairsLeft(lib, members, |members|) == ""
  {
    assert members[0..] == members && members[|members|..] == [];
  }

  /** One turn of the first loop. */
  method RenderPair(lib: Library, out: Buffer, m: Member, ghost left: string) returns (ok: bool)
    requires Ready(out)
    modifies out, out.data
    ensures out.data == old(out.data) || fresh(out.data)
    ensures ok ==> Ready(out) && (KindOf(m.value).Line? ==> m.key != "" && IsPlain(m.value))
    ensures !KindOf(m.value).Line? ==> ok && out.Contents() == old(out.Contents())
    ensures KindOf(m.value).Line? && m.key != "" && IsPlain(m.value) ==>
              var rest := KeyText(m.key) + (" = " + (PlainText(Natural(lib, m.value)) + ("\n" + left)));
              && (ok ==> out.Contents() + left == old(out.Contents()) + rest)
              && (!ok ==> !Room(old(out.Contents()), rest))
  {
    hide KeyText, PlainText, Natural, IsPlain, Buffer.Valid, Buffer.Contents;
    if m.value.Null? || m.value.Obj? {
      return true;
    }
    var objects, mixed := IsObjectArray(m.value);
    if objects {
      return true;
    }
    if mixed {
      return false;
    }
    ghost var before := out.Contents();
    ok := AppendKey(out, m.key);
    if !ok {
      return;
    }
    ok := out.Append(" = ");
    if !ok {
      return;
    }
    ok := AppendValue(lib, out, m.value);
    if !ok {
      return;
    }
    ok := out.Append("\n");
    if ok {
      ghost var key, value := KeyText(m.key), PlainText(Natural(lib, m.value));
      Regroup(before + key, " = ", value, "\n" + left);
      Regroup(before, key, " = " + (value + ("\n" + left)), "");
      Regroup(before + key + " = " + value, "\n", left, "");
    }
  }

  /** The text of the tables, and of the arrays of tables, from member `i` on. */
  ghost function TablesLeft(lib: Library, members: seq<Member>, p: seq<string>, i: nat): string
    requires i <= |members|
  {
    if Supported(members) then SupportedFrom(members, i); TextOf(TableLines(lib, members[i..], p)) else ""
  }

  ghost function ArraysLeft(lib: Library, members: seq<Member>, p: seq<string>, i: nat): string
    requires i <= |members|
  {
    if Supported(members) then SupportedFrom(members, i); TextOf(ArrayLines(lib, members[i..], p)) else ""
  }

  ghost function ItemLinesLeft(lib: Library, items: seq<Value>, p: seq<string>, i: nat): string
    requires i <= |items|
  {
    if SupportedItems(items) then ItemsFrom(items, i); TextOf(ItemLines(lib, items[i..], p)) else ""
  }

  lemma {:induction false} ItemsFrom(items: seq<Value>, i: nat)
    requires SupportedItems(items) && i <= |items|
    ensures SupportedItems(items[i..])
    ensures i < |items| ==> items[i].Obj? && Supported(items[i].members) && items[i..][1..] == items[i + 1..]
    decreases i
  {
    if i > 0 {
      ItemsFrom(items, i - 1);
      assert items[i - 1..][1..] == items[i..];
    } else {
      assert items[0..] == items;
    }
    if i < |items| {
      assert items[i..][1..] == items[i + 1..] && items[i..][0] == items[i];
    }
  }

  /** The text of a header and the table below it. */
  ghost function Block(lib: Library, header: Toml.Line, members: seq<Member>, p: seq<string>): string
    requires Supported(members)
  {
    "\n" + (LineText(header) + TextOf(Lines(lib, members, p)))
  }

  ghost function HeadedBlock(lib: Library, inArray: bool, members: seq<Member>, p: seq<string>): string
    requires Supported(members)
  {
    Block(lib, if inArray then Toml.ArrayHeader(p) else Toml.Header(p), members, p)
  }

  lemma HeaderText(before: string, inArray: bool, p: seq<string>)
    ensures before + (if inArray then "\n[[" else "\n[") + PathText(p) + (if inArray then "]]\n" else "]\n")
         == before + ("\n" + LineText(if inArray then Toml.ArrayHeader(p) else Toml.Header(p)))
  {
    hide PathText;
  }

  lemma AfterHeader(lib: Library, before: string, header: Toml.Line, members: seq<Member>, p: seq<string>)
    requires Supported(members)
    ensures before + ("\n" + LineText(header)) + TextOf(Lines(lib, members, p)) == before + Block(lib, header, members, p)
  {
    hide Lines, TextOf, LineText, Supported;
    Regroup(before, "\n", LineText(header), TextOf(Lines(lib, members, p)));
    Regroup(before, "\n" + LineText(header), TextOf(Lines(lib, members, p)), "");
    Regroup("\n", LineText(header), TextOf(Lines(lib, members, p)), "");
  }

  lemma BlockText(lib: Library, header: Toml.Line, members: seq<Member>, p: seq<string>, more: seq<Toml.Line>)
    requires Supported(members)
    ensures TextOf([Toml.Blank, header] + Lines(lib, members, p) + more) == Block(lib, header, members, p) + TextOf(more)
  {
    hide Lines;
    var lines := Lines(lib, members, p);
    TextOfJoin([Toml.Blank, header] + lines, more);
    TextOfJoin([Toml.Blank, header], lines);
    assert [Toml.Blank, header][1..] == [header] && [header][1..] == [];
    assert TextOf([header]) == LineText(header) + "";
    assert TextOf([Toml.Blank, header]) == "\n" + LineText(header);
    Regroup("\n", LineText(header), TextOf(lines), "");
  }

  lemma TablesLeftStep(lib: Library, members: seq<Member>, p: seq<string>, i: nat)
    requires i < |members| && Supported(members)
    ensures members[i].value.Obj? ==> Supported(members[i].value.members)
    ensures TablesLeft(lib, members, p, i) ==
            if members[i].value.Obj?
            then Block(lib, Toml.Header(p + [members[i].key]), members[i].value.members, p + [members[i].key])
                 + TablesLeft(lib, members, p, i + 1)
            else TablesLeft(lib, members, p, i + 1)
  {
    hide Lines, TextOf, Block;
    SupportedFrom(members, i);
    SupportedFrom(members, i + 1);
    var m, more := members[i], TableLines(lib, members[i + 1..], p);
    if m.value.Obj? {
      BlockText(lib, Toml.Header(p + [m.key]), m.value.members, p + [m.key], more);
    } else {
      assert [] + more == more;
    }
  }

  lemma ArraysLeftStep(lib: Library, members: seq<Member>, p: seq<string>, i: nat)
    requires i < |members| && Supported(members)
    ensures IsObjects(members[i].value) ==> SupportedItems(members[i].value.items)
    ensures ArraysLeft(lib, members, p, i) ==
            if IsObjects(members[i].value)
            then ItemLinesLeft(lib, members[i].value.items, p + [members[i].key], 0) + ArraysLeft(lib, members, p, i + 1)
            else ArraysLeft(lib, members, p, i + 1)
  {
    hide ItemLines, TextOf;
    SupportedFrom(members, i);
    SupportedFrom(members, i + 1);
    var m, more := members[i], ArrayLines(lib, members[i + 1..], p);
    if IsObjects(m.value) {
      assert m.value.items[0..] == m.value.items;
      TextOfJoin(ItemLines(lib, m.value.items, p + [m.key]), more);
    } else {
      assert [] + more == more;
    }
  }

  lemma ItemLinesLeftStep(lib: Library, items: seq<Value>, p: seq<string>, i: nat)
    requires i < |items| && SupportedItems(items)
    ensures items[i].Obj? && Supported(items[i].members)
    ensures ItemLinesLeft(lib, items, p, i) ==
            Block(lib, Toml.ArrayHeader(p), items[i].members, p) + ItemLinesLeft(lib, items, p, i + 1)
  {
    hide Lines, TextOf, Block;
    ItemsFrom(items, i);
    ItemsFrom(items, i + 1);
    BlockText(lib, Toml.ArrayHeader(p), items[i].members, p, ItemLines(lib, items[i + 1..], p));
  }

  /** The keys the path array holds down to `depth` are not empty. */
  ghost predicate PathValid(path: array<string>, depth: nat)
    reads path
  {
    path.Length == PATH_LENGTH && depth <= PATH_LENGTH && forall i :: 0 <= i < depth ==> path[i] != ""
  }

  /** `mutation_render_table`: renders exactly the tables that fit, and never steps outside the path array. */
  method RenderTable(lib: Library, out: Buffer, table: Value, path: array<string>, depth: nat) returns (ok: bool)
    requires PathValid(path, depth) && Ready(out)
    modifies out, out.data, path
    ensures out.data == old(out.data) || fresh(out.data)
    ensures PathValid(path, depth) && path[..depth] == old(path[..depth])
    ensures ok == (table.Obj? && Fits(table.members, depth)
                   && Room(old(out.Contents()), TextOf(Lines(lib, table.members, path[..depth]))))
    ensures ok ==> Ready(out) && out.Contents() == old(out.Contents()) + TextOf(Lines(lib, table.members, path[..depth]))
    decreases table, 3
  {
    hide PairLines, TableLines, ArrayLines, Supported, TextOf, Nesting, MemberFits, Buffer.Valid, Buffer.Contents;
    if !table.Obj? || depth > MAX_TABLE_DEPTH {
      return false;
    }
    var members := table.members;
    ghost var before, p := out.Contents(), path[..depth];
    FitsByKind(members, depth);
    if Supported(members) {
      ThreeParts(lib, members, p, before);
    }
    ok := RenderPairs(lib, out, members);
    if !ok {
      return;
    }
    ok := RenderSubTables(lib, out, members, path, depth);
    if !ok {
      return;
    }
    ok := RenderArrays(lib, out, members, path, depth);
  }

  lemma ThreeParts(lib: Library, members: seq<Member>, p: seq<string>, before: string)
    requires Supported(members)
    ensures var a, b, c := TextOf(PairLines(lib, members)), TextOf(TableLines(lib, members, p)), TextOf(ArrayLines(lib, members, p));
            var all := TextOf(Lines(lib, members, p));
            && before + all == before + a + b + c
            && |all| == |a| + |b| + |c|
  {
    hide PairLines, TableLines, ArrayLines, Supported, TextOf;
    var a, b, c := PairLines(lib, members), TableLines(lib, members, p), ArrayLines(lib, members, p);
    TextOfJoin(a, b + c);
    TextOfJoin(b, c);
    Regroup(before, TextOf(a), TextOf(b), TextOf(c));
  }

  lemma FitsByKind(members: seq<Member>, depth: nat)
    requires depth <= MAX_TABLE_DEPTH
    ensures Fits(members, depth) <==>
            KindFits(members, Line, 0) && KindFits(members, SubTable, depth) && KindFits(members, SubTables, depth)
  {
    FitsIff(members, depth);
    hide KindOf, Fits;
    assert forall i :: 0 <= i < |members| && KindOf(members[i].value).Line? ==>
                         MemberFits(members[i], 0) == MemberFits(members[i], depth);
  }

  /** The second loop: the tables. */
  method RenderSubTables(lib: Library, out: Buffer, members: seq<Member>, path: array<string>, depth: nat) returns (ok: bool)
    requires PathValid(path, depth) && depth <= MAX_TABLE_DEPTH && Ready(out)
    modifies out, out.data, path
    ensures out.data == old(out.data) || fresh(out.data)
    ensures PathValid(path, depth) && path[..depth] == old(path[..depth])
    ensures ok ==> Ready(out) && KindFits(members, SubTable, depth)
    ensures Supported(members) && KindFits(members, SubTable, depth) ==>
              ok == Room(old(out.Contents()), TextOf(TableLines(lib, members, path[..depth])))
    ensures ok && Supported(members) ==> out.Contents() == old(out.Contents()) + TextOf(TableLines(lib, members, path[..depth]))
    decreases members, 0
  {
    hide Supported, TablesLeft, Block, Fits, Buffer.Valid, Buffer.Contents;
    ReadyHasRoom(out);
    ghost var sup, p := Supported(members), path[..depth];
    ghost var whole := out.Contents() + TablesLeft(lib, members, p, 0);
    if sup {
      WholeTables(lib, members, p);
    }
    for index := 0 to |members|
      invariant Ready(out) && (out.data == old(out.data) || fresh(out.data)) && Room(out.Contents(), "")
      invariant PathValid(path, depth) && path[..depth] == p
      invariant KindFits(members[..index], SubTable, depth)
      invariant sup ==> out.Contents() + TablesLeft(lib, members, p, index) == whole
    {
      var m := members[index];
      assert members[..index + 1] == members[..index] + [m];
      if sup {
        TablesLeftStep(lib, members, p, index);
      }
      if !m.value.Obj? {
        continue;
      }
      ghost var before := out.Contents();
      if sup {
        Regroup(before, Block(lib, Toml.Header(p + [m.key]), m.value.members, p + [m.key]),
                TablesLeft(lib, members, p, index + 1), "");
      }
      ok := RenderBlock(lib, out, false, m.key, m.value, path, depth);
      if !ok {
        return;
      }
      ReadyHasRoom(out);
    }
    assert members[..|members|] == members;
    ok := true;
    if sup {
      assert out.Contents() + "" == out.Contents();
    }
  }

  lemma WholeTables(lib: Library, members: seq<Member>, p: seq<string>)
    requires Supported(members)
    ensures TablesLeft(lib, members, p, 0) == TextOf(TableLines(lib, members, p))
    ensures ArraysLeft(lib, members, p, 0) == TextOf(ArrayLines(lib, members, p))
    ensures TablesLeft(lib, members, p, |members|) == "" && ArraysLeft(lib, members, p, |members|) == ""
  {
    assert members[0..] == members && members[|members|..] == [];
  }

  /** A header and the table below it: sets the path entry, writes the header, renders the table. */
  method RenderBlock(lib: Library, out: Buffer, inArray: bool, key: string, table: Value, path: array<string>, depth: nat)
    returns (ok: bool)
    requires PathValid(path, depth) && depth <= MAX_TABLE_DEPTH && table.Obj? && Ready(out)
    modifies out, out.data, path
    ensures out.data == old(out.data) || fresh(out.data)
    ensures PathValid(path, depth) && path[..depth] == old(path[..depth])
    ensures ok == (key != "" && Fits(table.members, depth + 1)
                   && Room(old(out.Contents()), HeadedBlock(lib, inArray, table.members, path[..depth] + [key])))
    ensures ok ==>
              && Ready(out)
              && out.Contents() == old(out.Contents()) + HeadedBlock(lib, inArray, table.members, path[..depth] + [key])
    decreases table, 4
  {
    hide PathText, Lines, TextOf, Supported, Nesting, LineText, Block, Buffer.Valid, Buffer.Contents;
    path[depth] := key;
    ghost var p := path[..depth] + [key];
    assert path[..depth + 1] == p;
    ghost var before := out.Contents();
    HeaderText(before, inArray, p);
    if Supported(table.members) {
      AfterHeader(lib, before, if inArray then Toml.ArrayHeader(p) else Toml.Header(p), table.members, p);
    }
    ok := out.Append(if inArray then "\n[[" else "\n[");
    if !ok {
      return;
    }
    ok := AppendPath(out, path, depth + 1);
    if !ok {
      return;
    }
    ok := out.Append(if inArray then "]]\n" else "]\n");
    if !ok {
      return;
    }
    ok := RenderTable(lib, out, table, path, depth + 1);
    assert path[..depth] == path[..depth + 1][..depth];
  }

  /** The third loop: the arrays of tables. */
  method RenderArrays(lib: Library, out: Buffer, members: seq<Member>, path: array<string>, depth: nat) returns (ok: bool)
    requires PathValid(path, depth) && depth <= MAX_TABLE_DEPTH && Ready(out)
    modifies out, out.data, path
    ensures out.data == old(out.data) || fresh(out.data)
    ensures PathValid(path, depth) && path[..depth] == old(path[..depth])
    ensures ok ==> Ready(out) && KindFits(members, SubTables, depth)
    ensures Supported(members) && KindFits(members, SubTables, depth) ==>
              ok == Room(old(out.Contents()), TextOf(ArrayLines(lib, members, path[..depth])))
    ensures ok && Supported(members) ==> out.Contents() == old(out.Contents()) + TextOf(ArrayLines(lib, members, path[..depth]))
    decreases members, 0
  {
    hide Supported, ArraysLeft, ItemLinesLeft, Fits, Buffer.Valid, Buffer.Contents;
    ReadyHasRoom(out);
    ghost var sup, p := Supported(members), path[..depth];
    ghost var whole := out.Contents() + ArraysLeft(lib, members, p, 0);
    if sup {
      WholeTables(lib, members, p);
    }
    for index := 0 to |members|
      invariant Ready(out) && (out.data == old(out.data) || fresh(out.data)) && Room(out.Contents(), "")
      invariant PathValid(path, depth) && path[..depth] == p
      invariant KindFits(members[..index], SubTables, depth)
      invariant sup ==> out.Contents() + ArraysLeft(lib, members, p, index) == whole
    {
      var m := members[index];
      assert members[..index + 1] == members[..index] + [m];
      if sup {
        ArraysLeftStep(lib, members, p, index);
        SupportedPair(members, index);
      }
      var objects, mixed := IsObjectArray(m.value);
      if !objects {
        if mixed {
          return false;
        }
        continue;
      }
      ghost var before := out.Contents();
      if sup {
        Regroup(before, ItemLinesLeft(lib, m.value.items, p + [m.key], 0), ArraysLeft(lib, members, p, index + 1), "");
      }
      ok := RenderItems(lib, out, m.key, m.value.items, path, depth);
      if !ok {
        return;
      }
      ReadyHasRoom(out);
    }
    assert members[..|members|] == members;
    ok := true;
    if sup {
      assert out.Contents() + "" == out.Contents();
    }
  }

  method RenderItems(lib: Library, out: Buffer, key: string, items: seq<Value>, path: array<string>, depth: nat)
    returns (ok: bool)
    requires PathValid(path, depth) && depth <= MAX_TABLE_DEPTH && Ready(out)
    requires items != [] && forall i :: 0 <= i < |items| ==> items[i].Obj?
    modifies out, out.data, path
    ensures out.data == old(out.data) || fresh(out.data)
    ensures PathValid(path, depth) && path[..depth] == old(path[..depth])
    ensures ok ==> Ready(out) && key != "" && ItemsFit(items, depth + 1)
    ensures SupportedItems(items) && key != "" && ItemsFit(items, depth + 1) ==>
              ok == Room(old(out.Contents()), ItemLinesLeft(lib, items, path[..depth] + [key], 0))
    ensures ok && SupportedItems(items) ==>
              out.Contents() == old(out.Contents()) + ItemLinesLeft(lib, items, path[..depth] + [key], 0)
    decreases items, 5
  {
    hide SupportedItems, ItemLinesLeft, Block, Fits, Buffer.Valid, Buffer.Contents;
    ReadyHasRoom(out);
    ghost var sup, p := SupportedItems(items), path[..depth] + [key];
    ghost var whole := out.Contents() + ItemLinesLeft(lib, items, p, 0);
    for index := 0 to |items|
      invariant Ready(out) && (out.data == old(out.data) || fresh(out.data)) && Room(out.Contents(), "")
      invariant PathValid(path, depth) && path[..depth] + [key] == p && path[..depth] == old(path[..depth])
      invariant index > 0 ==> key != ""
      invariant forall i :: 0 <= i < index ==> Fits(items[i].members, depth + 1)
      invariant sup ==> out.Contents() + ItemLinesLeft(lib, items, p, index) == whole
    {
      ghost var before := out.Contents();
      if sup {
        ItemLinesLeftStep(lib, items, p, index);
        Regroup(before, Block(lib, Toml.ArrayHeader(p), items[index].members, p), ItemLinesLeft(lib, items, p, index + 1), "");
      }
      ok := RenderBlock(lib, out, true, key, items[index], path, depth);
      if !ok {
        return;
      }
      ReadyHasRoom(out);
    }
    ok := true;
    if sup {
      NoItemsLeft(lib, items, p);
      assert out.Contents() + "" == out.Contents();
    }
  }

  lemma NoItemsLeft(lib: Library, items: seq<Value>, p: seq<string>)
    ensures ItemLinesLeft(lib, items, p, |items|) == ""
  {
    assert items[|items|..] == [];
  }

  /**
    `ch_config_render_document_json`: succeeds exactly on a supported object nested at most 64 tables deep whose text and
    terminator fit in a `size_t`.
   */
  method RenderDocument(lib: Library, root: Value) returns (ok: bool, text: string)
    ensures ok == (root.Obj? && Supported(root.members) && Nesting(root.members) <= MAX_TABLE_DEPTH
                   && |TextOf(Lines(lib, root.members, []))| < SIZE_MAX)
    ensures text == if ok then TextOf(Lines(lib, root.members, [])) else ""
  {
    var out := new Buffer();
    var path := new string[PATH_LENGTH](_ => "");
    ok := RenderTable(lib, out, root, path, 0);
    assert path[..0] == [];
    text := if ok then out.data[..out.length] else "";
    assert ok ==> text == TextOf(Lines(lib, root.members, []));
  }
}
