/** Reading the rendered text: each rendered line reads back as itself, so the document reads back as its tree. */
module TomlText {
  import opened Text
  import Json
  import opened Toml
  import opened TomlRender
  import opened TomlBuild
  import TomlExact
  import opened TomlHolds
  import opened TomlTree

  // ----- keys and strings

  lemma EscapeReads(c: char, post: string)
    requires BasicEscape(c) != [c]
    ensures var e := BasicEscape(c) + post;
            e[0] == '\\' && |e| > 1 && Escape(e[1..]) == Good([c], post)
  {
    var e := BasicEscape(c) + post;
    var t := e[1..];
    if |BasicEscape(c)| == 2 {
      assert t[1..] == post;
    } else {
      var u := t[1..];
      assert u[4..] == post && u[0] == '0' && u[1] == '0';
      assert Json.CodeUnit(u) == Json.Ok(c as int, post);
      assert Characters(c as int) == [c];
    }
  }

  lemma BasicStep(c: char, more: string, out: string)
    ensures Basic(BasicEscape(c) + more, out) == Basic(more, out + [c])
  {
    var e := BasicEscape(c);
    if e == [c] {
      assert (e + more)[1..] == more;
    } else {
      EscapeReads(c, more);
      hide Escape, BasicEscape;
    }
  }

  lemma BasicEnd(post: string, out: string)
    ensures Basic("\"" + post, out) == Good(out, post)
  {
    assert ("\"" + post)[1..] == post;
  }

  lemma {:induction false} BasicReads(s: string, post: string, out: string)
    ensures Basic(BasicEscaped(s) + ("\"" + post), out) == Good(out + s, post)
    decreases |s|
  {
    hide Basic, BasicEscape;
    if s == "" {
      BasicEnd(post, out);
      assert "" + ("\"" + post) == "\"" + post && out + s == out;
    } else {
      BasicStep(s[0], BasicEscaped(s[1..]) + ("\"" + post), out);
      Regroup(BasicEscape(s[0]), BasicEscaped(s[1..]), "\"" + post, "");
      BasicReads(s[1..], post, out + [s[0]]);
      assert out + [s[0]] + s[1..] == out + s;
    }
  }

  lemma QuotedReads(s: string, post: string)
    ensures var q := BasicQuoted(s) + post;
            q[0] == '"' && Basic(q[1..], "") == Good(s, post)
  {
    hide Basic, BasicEscaped;
    Regroup("\"", BasicEscaped(s), "\"", post);
    var q := BasicQuoted(s) + post;
    assert q == "\"" + (BasicEscaped(s) + ("\"" + post));
    assert q[1..] == BasicEscaped(s) + ("\"" + post);
    BasicReads(s, post, "");
    assert "" + s == s;
  }

  lemma {:induction false} BareRunOf(key: string, post: string)
    requires AllBare(key) && (post == "" || !IsBare(post[0]))
    ensures BareRun(key + post) == |key|
  {
    if key == "" {
      assert key + post == post;
    } else {
      assert (key + post)[1..] == key[1..] + post;
      BareRunOf(key[1..], post);
    }
  }

  lemma KeyReads(key: string, post: string)
    requires key != "" && post != "" && !IsBare(post[0])
    ensures Key(KeyText(key) + post) == Good(key, post)
    ensures KeyText(key) != "" && KeyText(key)[0] != '[' && KeyText(key)[0] != '\n'
  {
    hide Basic, BasicQuoted;
    if AllBare(key) {
      BareRunOf(key, post);
      assert (key + post)[0] == key[0];
      assert (key + post)[..|key|] == key && (key + post)[|key|..] == post;
    } else {
      QuotedReads(key, post);
      QuotedStarts(key);
    }
  }

  lemma QuotedStarts(s: string)
    ensures BasicQuoted(s) != "" && BasicQuoted(s)[0] == '"'
  {
  }

  predicate NonEmptyKeys(path: seq<string>) {
    forall i :: 0 <= i < |path| ==> path[i] != ""
  }

  lemma {:induction false} PathReads(path: seq<string>, post: string)
    requires path != [] && NonEmptyKeys(path) && post != "" && post[0] == ']'
    ensures Path(PathText(path) + post) == Good(path, post)
    ensures PathText(path) != "" && PathText(path)[0] != '[' && PathText(path)[0] != '\n'
    decreases |path|
  {
    hide Key, KeyText;
    if |path| == 1 {
      KeyReads(path[0], post);
      assert path == [path[0]];
    } else {
      var after := "." + (PathText(path[1..]) + post);
      Regroup(KeyText(path[0]), ".", PathText(path[1..]), post);
      Regroup(".", PathText(path[1..]), post, "");
      assert PathText(path) + post == KeyText(path[0]) + after;
      KeyReads(path[0], after);
      assert after[1..] == PathText(path[1..]) + post;
      PathReads(path[1..], post);
      assert [path[0]] + path[1..] == path;
    }
  }

  // ----- values

  predicate NoFloat(v: Plain)
    decreases v
  {
    match v
    case Float(_) => false
    case Array(items) => forall i :: 0 <= i < |items| ==> NoFloat(items[i])
    case _ => true
  }

  lemma UnsignedReads(n: nat, post: string)
    requires Ends(post)
    ensures Unsigned(Decimal(n) + post) == Good(n, post)
  {
    hide Decimal, DecimalValue, DigitRun;
    var d := Decimal(n);
    DecimalRoundTrip(n);
    DecimalLeadsWithZero(n);
    DigitRunOf(d, post);
    assert (d + post)[..|d|] == d && (d + post)[|d|..] == post && (d + post)[0] == d[0];
  }

  lemma NumberReads(n: int, post: string)
    requires Ends(post)
    ensures Number(SignedDecimal(n) + post) == Good(Integer(n), post)
  {
    hide Unsigned, Decimal;
    if n < 0 {
      UnsignedReads(-n, post);
      var t := Decimal(-n) + post;
      Regroup("-", Decimal(-n), post, "");
      assert SignedDecimal(n) + post == "-" + t && ("-" + t)[1..] == t;
    } else {
      UnsignedReads(n, post);
      assert (Decimal(n) + post)[0] == Decimal(n)[0];
    }
  }

  lemma DecimalLeadsWithZero(n: nat)
    ensures Decimal(n)[0] == '0' ==> |Decimal(n)| == 1
  {
  }

  lemma WordReads(v: Plain, post: string)
    requires (v.Boolean? || v.Integer?) && Ends(post)
    ensures var s := PlainText(v) + post;
            s != "" && Word(s) == Good(v, post) && s[0] != '"' && s[0] != '['
  {
    var p := PlainText(v);
    var s := p + post;
    assert s[0] == p[0];
    if v.Boolean? {
      assert s[..|p|] == p && s[|p|..] == post;
      assert s[..4][0] == p[0];
    } else {
      hide Number;
      NumberReads(v.n, post);
      Json.NotAWord(s);
    }
  }

  lemma NoBlank(s: string)
    requires s != "" && s[0] != ' ' && s[0] != '\t'
    ensures SkipBlanks(s) == s && SkipBlanks(" " + s) == s
  {
    assert (" " + s)[1..] == s;
  }

  /** A value starts with a character that is neither a blank nor a closing bracket. */
  lemma PlainStarts(v: Plain, post: string)
    requires NoFloat(v)
    ensures var s := PlainText(v) + post;
            s != "" && s[0] != ' ' && s[0] != '\t' && s[0] != ']' && s[0] != ','
  {
    var p := PlainText(v);
    assert p != "" && p[0] != ' ' && p[0] != '\t' && p[0] != ']' && p[0] != ',';
    assert (p + post)[0] == p[0];
  }

  lemma {:induction false} ValueReads(v: Plain, post: string)
    requires NoFloat(v) && Ends(post)
    ensures Value(PlainText(v) + post) == Good(v, post)
    decreases v, 1
  {
    match v
    case String(s) =>
      hide Basic, BasicQuoted;
      QuotedReads(s, post);
    case Array(items) => ArrayReads(items, post);
    case Boolean(_) =>
      hide Word, PlainText;
      WordReads(v, post);
    case Integer(_) =>
      hide Word, PlainText;
      WordReads(v, post);
  }

  /** The items of an array, the closing bracket and what follows. */
  function Tail(items: seq<Plain>, post: string): (s: string)
    ensures s != ""
  {
    if items == [] then "]" + post else ", " + (PlainText(items[0]) + Tail(items[1..], post))
  }

  lemma {:induction false} TailText(items: seq<Plain>, post: string, first: bool)
    ensures ItemsText(items, first) + post ==
            if items != [] && first then PlainText(items[0]) + Tail(items[1..], post) else Tail(items, post)
    decreases items
  {
    hide PlainText;
    if items != [] {
      TailText(items[1..], post, false);
      var p, q := PlainText(items[0]), ItemsText(items[1..], false);
      Regroup(if first then "" else ", ", p, q, post);
      Regroup(if first then "" else ", ", p + q, post, "");
      Regroup(p, q, post, "");
      assert "" + (p + (q + post)) == p + (q + post);
    }
  }

  lemma {:induction false} ArrayReads(items: seq<Plain>, post: string)
    requires NoFloat(Array(items)) && Ends(post)
    ensures Value(PlainText(Array(items)) + post) == Good(Array(items), post)
    decreases Array(items), 0
  {
    hide Value, Items, SkipBlanks, PlainText, ItemsText;
    var inside := ItemsText(items, true) + post;
    ArrayText(items, post);
    OpenBracket(inside);
    if items == [] {
      NoBlank(inside);
      assert inside[1..] == post;
    } else {
      PlainStarts(items[0], Tail(items[1..], post));
      NoBlank(inside);
      ItemsRead(items, post, []);
      assert [] + items == items;
    }
  }

  lemma ArrayText(items: seq<Plain>, post: string)
    ensures PlainText(Array(items)) + post == "[" + (ItemsText(items, true) + post)
    ensures items == [] ==> ItemsText(items, true) + post == "]" + post
    ensures items != [] ==> ItemsText(items, true) + post == PlainText(items[0]) + Tail(items[1..], post)
  {
    hide Tail;
    TailText(items, post, true);
    Regroup("[", ItemsText(items, true), post, "");
  }

  lemma OpenBracket(inside: string)
    ensures Value("[" + inside) ==
            var t := SkipBlanks(inside);
            if t != "" && t[0] == ']' then Good(Array([]), t[1..]) else Items(t, [])
  {
    hide Items, Word, Basic;
    assert ("[" + inside)[1..] == inside;
  }

  /** One turn of the loop over the items. */
  lemma ItemsStep(s: string, done: seq<Plain>, t: string)
    requires t != "" && t[0] != ' ' && t[0] != '\t'
    ensures var r := Value(s);
            r.Good? && r.rest == ", " + t ==> Items(s, done) == Items(t, done + [r.value])
  {
    hide Value;
    NoBlank(t);
    NoBlank(", " + t);
    assert (", " + t)[1..] == " " + t;
  }

  lemma ItemsEnd(s: string, done: seq<Plain>, t: string)
    ensures var r := Value(s);
            r.Good? && r.rest == "]" + t ==> Items(s, done) == Good(Array(done + [r.value]), t)
  {
    hide Value;
    NoBlank("]" + t);
    assert ("]" + t)[1..] == t;
  }

  lemma {:induction false} ItemsRead(items: seq<Plain>, post: string, done: seq<Plain>)
    requires items != [] && Ends(post) && forall i :: 0 <= i < |items| ==> NoFloat(items[i])
    ensures Items(PlainText(items[0]) + Tail(items[1..], post), done) == Good(Array(done + items), post)
    decreases items, 0
  {
    hide Value, Items, PlainText, NoFloat;
    var after := Tail(items[1..], post);
    var s := PlainText(items[0]) + after;
    ValueReads(items[0], after);
    if |items| == 1 {
      ItemsEnd(s, done, post);
      assert done + [items[0]] == done + items;
    } else {
      var more := PlainText(items[1]) + Tail(items[1..][1..], post);
      PlainStarts(items[1], Tail(items[1..][1..], post));
      ItemsStep(s, done, more);
      ItemsRead(items[1..], post, done + [items[0]]);
      assert done + [items[0]] + items[1..] == done + items;
    }
  }

  // ----- lines

  predicate Readable(line: Toml.Line) {
    match line
    case Blank => true
    case Pair(k, v) => k != "" && NoFloat(v)
    case Header(p) => p != [] && NonEmptyKeys(p)
    case ArrayHeader(p) => p != [] && NonEmptyKeys(p)
  }

  lemma ExpectReads<T>(r: Read<T>, word: string, post: string)
    requires r.Good? && r.rest == word + post
    ensures Expect(r, word) == Good(r.value, post)
  {
    assert (word + post)[..|word|] == word && (word + post)[|word|..] == post;
  }

  lemma PairText(k: string, v: Plain, post: string)
    ensures LineText(Pair(k, v)) + post == KeyText(k) + (" = " + (PlainText(v) + ("\n" + post)))
  {
    hide KeyText, PlainText;
    Regroup(KeyText(k), " = ", PlainText(v) + "\n", post);
    Regroup(PlainText(v), "\n", post, "");
    Regroup(KeyText(k), " = " + (PlainText(v) + "\n"), post, "");
    Regroup(" = ", PlainText(v) + "\n", post, "");
  }

  /** The equals sign and the blanks around it. */
  lemma EqualsReads(value: string)
    requires value != "" && value[0] != ' ' && value[0] != '\t'
    ensures var after := " = " + value;
            SkipBlanks(after) == "= " + value && ("= " + value)[1..] == " " + value && SkipBlanks(" " + value) == value
  {
    hide SkipBlanks;
    NoBlank(value);
    NoBlank("= " + value);
    assert " = " + value == " " + ("= " + value);
  }

  lemma PairReads(k: string, v: Plain, post: string)
    requires k != "" && NoFloat(v)
    ensures var s := LineText(Pair(k, v)) + post;
            s != "" && s[0] != '[' && s[0] != '\n' && PairLine(s) == Good(Pair(k, v), post)
  {
    hide Key, KeyText, Value, PlainText, NoFloat, SkipBlanks, LineText;
    var value := PlainText(v) + ("\n" + post);
    PairText(k, v, post);
    KeyReads(k, " = " + value);
    PlainStarts(v, "\n" + post);
    ValueReads(v, "\n" + post);
    EqualsReads(value);
    ExpectReads(Value(value), "\n", post);
  }

  lemma HeaderReads(p: seq<string>, post: string)
    requires p != [] && NonEmptyKeys(p)
    ensures ReadLine(LineText(Header(p)) + post) == Good(Header(p), post)
  {
    hide Path, PathText, PairLine;
    var inside := PathText(p) + ("]\n" + post);
    var s := LineText(Header(p)) + post;
    Regroup("[", PathText(p), "]\n", post);
    assert s == "[" + inside && s[1..] == inside;
    PathReads(p, "]\n" + post);
    assert s[1] == inside[0] == PathText(p)[0];
    assert |s| >= 2 ==> s[..2][1] == s[1];
    ExpectReads(Path(inside), "]\n", post);
  }

  lemma ArrayHeaderReads(p: seq<string>, post: string)
    requires p != [] && NonEmptyKeys(p)
    ensures ReadLine(LineText(ArrayHeader(p)) + post) == Good(ArrayHeader(p), post)
  {
    hide Path, PathText, PairLine;
    var inside := PathText(p) + ("]]\n" + post);
    var s := LineText(ArrayHeader(p)) + post;
    Regroup("[[", PathText(p), "]]\n", post);
    assert s == "[[" + inside && s[2..] == inside && s[..2] == "[[";
    PathReads(p, "]]\n" + post);
    ExpectReads(Path(inside), "]]\n", post);
  }

  lemma BlankReads(post: string)
    ensures ReadLine(LineText(Blank) + post) == Good(Blank, post)
  {
    hide PairLine, Path;
    assert ("\n" + post)[1..] == post;
  }

  lemma PairLineReads(k: string, v: Plain, post: string)
    requires k != "" && NoFloat(v)
    ensures var s := LineText(Pair(k, v)) + post;
            s != "" && ReadLine(s) == Good(Pair(k, v), post)
  {
    hide PairLine, LineText, Path;
    PairReads(k, v, post);
    var s := LineText(Pair(k, v)) + post;
    assert |s| >= 2 ==> s[..2][0] == s[0];
  }

  /** A rendered line, followed by anything, reads back as itself. */
  lemma LineReads(line: Toml.Line, post: string)
    requires Readable(line)
    ensures var s := LineText(line) + post;
            s != "" && ReadLine(s) == Good(line, post)
  {
    hide ReadLine, PathText, PlainText;
    match line
    case Blank => BlankReads(post);
    case Pair(k, v) => PairLineReads(k, v, post);
    case Header(p) => HeaderReads(p, post);
    case ArrayHeader(p) => ArrayHeaderReads(p, post);
  }

  predicate AllReadable(lines: seq<Toml.Line>) {
    forall i :: 0 <= i < |lines| ==> Readable(lines[i])
  }

  lemma {:induction false} TextReads(st: State, lines: seq<Toml.Line>)
    requires AllReadable(lines)
    ensures ReadText(st, TextOf(lines)) == ReadLines(st, lines)
    decreases |lines|
  {
    hide ReadLine, LineText, Apply, Readable;
    if lines != [] {
      LineReads(lines[0], TextOf(lines[1..]));
      var next := Apply(st, lines[0]);
      if next.Some? {
        TextReads(next.value, lines[1..]);
      }
    }
  }

  // ----- documents

  /** Every number is an integer of magnitude at most 9.0e15. */
  lemma {:induction false} NaturalHasNoFloat(lib: Json.Library, v: Json.Value)
    requires IsPlain(v) && WholeNumbers(v)
    ensures NoFloat(Natural(lib, v))
    decreases v, 1
  {
    match v
    case Arr(items) => NaturalItemsHaveNoFloat(lib, items);
    case _ =>
  }

  lemma {:induction false} NaturalItemsHaveNoFloat(lib: Json.Library, items: seq<Json.Value>)
    requires forall i :: 0 <= i < |items| ==> IsPlain(items[i]) && WholeNumbers(items[i])
    ensures forall i :: 0 <= i < |NaturalItems(lib, items)| ==> NoFloat(NaturalItems(lib, items)[i])
    decreases items, 0
  {
    if items != [] {
      NaturalHasNoFloat(lib, items[0]);
      NaturalItemsHaveNoFloat(lib, items[1..]);
    }
  }

  lemma BothReadable(a: seq<Toml.Line>, b: seq<Toml.Line>)
    requires AllReadable(a) && AllReadable(b)
    ensures AllReadable(a + b)
  {
    hide Readable;
  }

  lemma {:induction false} LinesReadable(lib: Json.Library, members: seq<Json.Member>, path: seq<string>)
    requires Supported(members) && WholeMembers(members) && NonEmptyKeys(path)
    ensures AllReadable(Lines(lib, members, path))
    decreases members, 2
  {
    hide AllReadable, PairLines, TableLines, ArrayLines;
    PairLinesReadable(lib, members);
    TableLinesReadable(lib, members, path);
    ArrayLinesReadable(lib, members, path);
    BothReadable(TableLines(lib, members, path), ArrayLines(lib, members, path));
    BothReadable(PairLines(lib, members), TableLines(lib, members, path) + ArrayLines(lib, members, path));
  }

  lemma {:induction false} PairLinesReadable(lib: Json.Library, members: seq<Json.Member>)
    requires Supported(members) && WholeMembers(members)
    ensures AllReadable(PairLines(lib, members))
    decreases members, 0
  {
    if members != [] {
      var m := members[0];
      assert SupportedMember(m);
      PairLinesReadable(lib, members[1..]);
      if KindOf(m.value).Line? {
        NaturalHasNoFloat(lib, m.value);
      }
    }
  }

  lemma {:induction false} TableLinesReadable(lib: Json.Library, members: seq<Json.Member>, path: seq<string>)
    requires Supported(members) && WholeMembers(members) && NonEmptyKeys(path)
    ensures AllReadable(TableLines(lib, members, path))
    decreases members, 1
  {
    hide Lines;
    if members != [] {
      var m, rest := members[0], TableLines(lib, members[1..], path);
      assert SupportedMember(m);
      TableLinesReadable(lib, members[1..], path);
      if m.value.Obj? {
        LinesReadable(lib, m.value.members, path + [m.key]);
        BothReadable([Blank, Header(path + [m.key])], Lines(lib, m.value.members, path + [m.key]));
        BothReadable([Blank, Header(path + [m.key])] + Lines(lib, m.value.members, path + [m.key]), rest);
      } else {
        assert [] + rest == rest;
      }
    }
  }

  lemma {:induction false} ArrayLinesReadable(lib: Json.Library, members: seq<Json.Member>, path: seq<string>)
    requires Supported(members) && WholeMembers(members) && NonEmptyKeys(path)
    ensures AllReadable(ArrayLines(lib, members, path))
    decreases members, 1
  {
    hide ItemLines;
    if members != [] {
      var m, rest := members[0], ArrayLines(lib, members[1..], path);
      assert SupportedMember(m);
      ArrayLinesReadable(lib, members[1..], path);
      if IsObjects(m.value) {
        ItemLinesReadable(lib, m.value.items, path + [m.key]);
        BothReadable(ItemLines(lib, m.value.items, path + [m.key]), rest);
      } else {
        assert [] + rest == rest;
      }
    }
  }

  lemma {:induction false} ItemLinesReadable(lib: Json.Library, items: seq<Json.Value>, path: seq<string>)
    requires SupportedItems(items) && path != [] && NonEmptyKeys(path)
    requires forall i :: 0 <= i < |items| ==> WholeNumbers(items[i])
    ensures AllReadable(ItemLines(lib, items, path))
    decreases items, 1
  {
    hide Lines;
    if items != [] {
      var head := [Blank, ArrayHeader(path)];
      LinesReadable(lib, items[0].members, path);
      ItemLinesReadable(lib, items[1..], path);
      BothReadable(head, Lines(lib, items[0].members, path));
      BothReadable(head + Lines(lib, items[0].members, path), ItemLines(lib, items[1..], path));
    }
  }

  /** A rendered document is read to what its members build, and is readable exactly when no two members clash. */
  lemma DocumentReads(lib: Json.Library, members: seq<Json.Member>)
    requires Supported(members) && WholeMembers(members)
    ensures ReadDocument(TextOf(Lines(lib, members, []))) == Built(lib, members)
    ensures ReadDocument(TextOf(Lines(lib, members, []))).Some? <==> Separate(members)
  {
    hide ReadText, ReadLines, TextOf, Lines, AllReadable, Built, Separate;
    var lines, start := Lines(lib, members, []), State(map[], []);
    LinesReadable(lib, members, []);
    TextReads(start, lines);
    ReadTable(lib, members, start);
    BuiltExactly(lib, members);
  }

  /**
    Reading a rendered document gives a table that holds the JSON object, key by key and value by value, exactly when no
    key is repeated; it is then the object's tree.
   */
  lemma DocumentRoundTrip(lib: Json.Library, members: seq<Json.Member>)
    requires Supported(members) && WholeMembers(members)
    ensures var r := ReadDocument(TextOf(Lines(lib, members, []))); (r.Some? && Holds(members, r.value)) <==> Distinct(members)
    ensures ReadDocument(TextOf(Lines(lib, members, []))) == Some(Tree(lib, members)) <==> Distinct(members)
  {
    hide ReadDocument, TextOf, Lines, Built, Tree, Separate, Distinct, Holds, WholeMembers;
    DocumentReads(lib, members);
    TomlExact.TreeExactly(lib, members);
    HoldsExactly(lib, members);
  }
}
