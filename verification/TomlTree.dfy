/** Reading the rendered lines of a table: they build what `Built` says, in their place, or are refused with it. */
module TomlTree {
  import opened Text
  import opened Json
  import opened Toml
  import opened TomlRender
  import opened TomlBuild

  // ----- the table at a path

  /** The table a path leads to, if every step of it exists. */
  function Lookup(t: Members, path: seq<string>): Option<Members>
    decreases |path|
  {
    if path == [] then Some(t)
    else if path[0] !in t then None
    else
      match Enter(t[path[0]])
      case None => None
      case Some(inner) => Lookup(inner, path[1..])
  }

  /** The document with the table at `path` replaced. */
  function Store(t: Members, path: seq<string>, m: Members): Members
    requires Lookup(t, path).Some?
    decreases |path|
  {
    if path == [] then m
    else
      var node := t[path[0]];
      t[path[0] := Replace(node, Store(Enter(node).value, path[1..], m))]
  }

  lemma {:induction false} LookupStore(t: Members, path: seq<string>, m: Members)
    requires Lookup(t, path).Some?
    ensures Lookup(Store(t, path, m), path) == Some(m)
    decreases |path|
  {
    if path != [] {
      LookupStore(Enter(t[path[0]]).value, path[1..], m);
    }
  }

  lemma ReplaceTwice(node: Node, x: Members, y: Members)
    requires Enter(node).Some?
    ensures Enter(Replace(node, x)) == Some(x) && Replace(Replace(node, x), y) == Replace(node, y)
  {
  }

  lemma {:induction false} StoreStore(t: Members, path: seq<string>, m: Members, n: Members)
    requires Lookup(t, path).Some?
    ensures Lookup(Store(t, path, m), path).Some?
    ensures Store(Store(t, path, m), path, n) == Store(t, path, n)
    decreases |path|
  {
    LookupStore(t, path, m);
    if path != [] {
      var node := t[path[0]];
      var inner := Enter(node).value;
      StoreStore(inner, path[1..], m, n);
      ReplaceTwice(node, Store(inner, path[1..], m), Store(inner, path[1..], n));
    }
  }

  /** One step further: through the last key of the path. */
  lemma {:induction false} StepInto(t: Members, path: seq<string>, k: string, m: Members)
    requires Lookup(t, path).Some? && k in Lookup(t, path).value
    requires Enter(Lookup(t, path).value[k]).Some?
    ensures var here := Lookup(t, path).value;
            && Lookup(t, path + [k]) == Enter(here[k])
            && Store(t, path + [k], m) == Store(t, path, here[k := Replace(here[k], m)])
    decreases |path|
  {
    var long := path + [k];
    if path == [] {
      assert long[1..] == [];
    } else {
      assert long[0] == path[0] && long[1..] == path[1..] + [k];
      StepInto(Enter(t[path[0]]).value, path[1..], k, m);
    }
  }

  /** Acting at an existing path is acting on the table there. */
  lemma {:induction false} UpdateAt(t: Members, path: seq<string>, a: Action)
    requires Lookup(t, path).Some?
    ensures var done := Act(Lookup(t, path).value, a);
            Update(t, path, a) == if done.None? then None else Some(Store(t, path, done.value))
    decreases |path|
  {
    if path != [] {
      UpdateAt(Enter(t[path[0]]).value, path[1..], a);
    }
  }

  lemma {:induction false} ReadAppend(st: State, a: seq<Toml.Line>, b: seq<Toml.Line>)
    ensures ReadLines(st, a + b) ==
            match ReadLines(st, a) { case None => None case Some(mid) => ReadLines(mid, b) }
    decreases |a|
  {
    if a == [] {
      assert a + b == b;
    } else {
      assert (a + b)[1..] == a[1..] + b;
      var next := Apply(st, a[0]);
      if next.Some? {
        ReadAppend(next.value, a[1..], b);
      }
    }
  }

  // ----- reading the rendered lines

  /** Reading `lines` in `st` leaves `t` as the table at `path` and everything else as it was, or fails when there is no `t`. */
  predicate Leaves(st: State, lines: seq<Toml.Line>, path: seq<string>, t: Option<Members>)
    requires Lookup(st.root, path).Some?
  {
    var end := ReadLines(st, lines);
    if t.None? then end.None? else end.Some? && end.value.root == Store(st.root, path, t.value)
  }

  /** Reading in two parts. */
  lemma Then(st: State, a: seq<Toml.Line>, b: seq<Toml.Line>, path: seq<string>, t: Members, u: Option<Members>)
    requires Lookup(st.root, path).Some? && Leaves(st, a, path, Some(t))
    ensures ReadLines(st, a).Some? && Lookup(ReadLines(st, a).value.root, path) == Some(t)
    ensures Leaves(ReadLines(st, a).value, b, path, u) ==> Leaves(st, a + b, path, u)
  {
    ReadAppend(st, a, b);
    LookupStore(st.root, path, t);
    if u.Some? {
      StoreStore(st.root, path, t, u.value);
    }
  }

  lemma Stops(st: State, a: seq<Toml.Line>, b: seq<Toml.Line>, path: seq<string>)
    requires Lookup(st.root, path).Some? && Leaves(st, a, path, None)
    ensures Leaves(st, a + b, path, None)
  {
    ReadAppend(st, a, b);
  }

  lemma NothingLeft(st: State, path: seq<string>, t: Members)
    requires Lookup(st.root, path) == Some(t)
    ensures Leaves(st, [], path, Some(t))
  {
    StoreSame(st.root, path, t);
  }

  lemma {:induction false} StoreSame(t: Members, path: seq<string>, m: Members)
    requires Lookup(t, path) == Some(m)
    ensures Store(t, path, m) == t
    decreases |path|
  {
    if path != [] {
      var node := t[path[0]];
      StoreSame(Enter(node).value, path[1..], m);
      assert Replace(node, Enter(node).value) == node;
    }
  }

  /** A pair goes into the current table, when its key is new there. */
  lemma Assigns(st: State, k: string, v: Plain, t: Members)
    requires Lookup(st.root, st.current) == Some(t)
    ensures Leaves(st, [Pair(k, v)], st.current, if k in t then None else Some(t[k := Leaf(v)]))
    ensures k !in t ==> ReadLines(st, [Pair(k, v)]).value.current == st.current
  {
    UpdateAt(st.root, st.current, Assign(k, v));
    assert [Pair(k, v)][1..] == [];
    if k !in t {
      var next := Apply(st, Pair(k, v)).value;
      assert ReadLines(next, []) == Some(next);
    }
  }

  lemma {:induction false} ReadPairs(lib: Library, members: seq<Member>, st: State, t: Members)
    requires Supported(members) && Lookup(st.root, st.current) == Some(t)
    ensures Leaves(st, PairLines(lib, members), st.current, AddPairs(lib, t, members))
    decreases members
  {
    hide Leaves, ReadLines, Lookup, Store;
    var path := st.current;
    if members == [] {
      NothingLeft(st, path, t);
    } else {
      var m, rest := members[0], PairLines(lib, members[1..]);
      assert SupportedMember(m);
      if KindOf(m.value).Line? {
        var v := Natural(lib, m.value);
        Assigns(st, m.key, v, t);
        if m.key in t {
          Stops(st, [Pair(m.key, v)], rest, path);
        } else {
          var u := t[m.key := Leaf(v)];
          Then(st, [Pair(m.key, v)], rest, path, u, AddPairs(lib, u, members[1..]));
          ReadPairs(lib, members[1..], ReadLines(st, [Pair(m.key, v)]).value, u);
        }
      } else {
        ReadPairs(lib, members[1..], st, t);
        assert [] + rest == rest;
      }
    }
  }

  /** A header makes an empty table under the last key and makes it current. */
  lemma Opens(st: State, path: seq<string>, k: string, t: Members, line: Toml.Line, node: Node)
    requires Lookup(st.root, path) == Some(t)
    requires || (line == Header(path + [k]) && k !in t && node == Table(map[], true))
             || (line == ArrayHeader(path + [k]) && k !in t && node == Tables([map[]]))
             || (line == ArrayHeader(path + [k]) && k in t && t[k].Tables? && node == Tables(t[k].items + [map[]]))
    ensures var root := Store(st.root, path, t[k := node]);
            && Apply(st, line) == Some(State(root, path + [k]))
            && Lookup(root, path) == Some(t[k := node]) && Lookup(root, path + [k]) == Some(map[])
  {
    assert Init(path + [k]) == path && Last(path + [k]) == k;
    UpdateAt(st.root, path, if line.Header? then Define(k) else Extend(k));
    LookupStore(st.root, path, t[k := node]);
    StepInto(Store(st.root, path, t[k := node]), path, k, map[]);
  }

  lemma TwoLines(st: State, line: Toml.Line, lines: seq<Toml.Line>)
    ensures ReadLines(st, [Blank, line] + lines) ==
            if Apply(st, line).None? then None else ReadLines(Apply(st, line).value, lines)
  {
    var all := [Blank, line] + lines;
    assert all[1..][1..] == lines && all[1..][0] == line;
    assert ReadLines(st, all) == ReadLines(st, all[1..]);
  }

  /** A table is only ever made by its own header here. */
  predicate AllDefined(t: Members) {
    forall k :: k in t && t[k].Table? ==> t[k].defined
  }

  /** A header under a taken key is refused, and with it all that follows. */
  lemma Refuses(st: State, path: seq<string>, k: string, t: Members, line: Toml.Line, lines: seq<Toml.Line>)
    requires Lookup(st.root, path) == Some(t) && AllDefined(t) && k in t
    requires line == Header(path + [k]) || (line == ArrayHeader(path + [k]) && !t[k].Tables?)
    ensures Leaves(st, [Blank, line] + lines, path, None)
  {
    assert Init(path + [k]) == path && Last(path + [k]) == k;
    UpdateAt(st.root, path, if line.Header? then Define(k) else Extend(k));
    TwoLines(st, line, lines);
  }

  /** A header, then the lines of its table: the table under `k` is filled in, unless those are refused. */
  lemma Fills(st: State, path: seq<string>, k: string, t: Members, line: Toml.Line, node: Node,
              lines: seq<Toml.Line>, m: Option<Members>)
    requires Lookup(st.root, path) == Some(t) && Enter(node) == Some(map[])
    requires var root := Store(st.root, path, t[k := node]);
             && Apply(st, line) == Some(State(root, path + [k]))
             && Lookup(root, path) == Some(t[k := node]) && Lookup(root, path + [k]) == Some(map[])
             && Leaves(State(root, path + [k]), lines, path + [k], m)
    ensures Leaves(st, [Blank, line] + lines, path, if m.None? then None else Some(t[k := Replace(node, m.value)]))
  {
    hide Apply, ReadLines, Store, Lookup;
    TwoLines(st, line, lines);
    if m.Some? {
      var root := Store(st.root, path, t[k := node]);
      StepInto(root, path, k, m.value);
      assert t[k := node][k := Replace(node, m.value)] == t[k := Replace(node, m.value)];
      StoreStore(st.root, path, t[k := node], t[k := Replace(node, m.value)]);
    }
  }

  /** Reading the lines of a table into an empty table at its path builds it there, or fails. */
  lemma {:induction false} ReadTable(lib: Library, members: seq<Member>, st: State)
    requires Supported(members) && Lookup(st.root, st.current) == Some(map[])
    ensures Leaves(st, Lines(lib, members, st.current), st.current, Built(lib, members))
    decreases members, 2
  {
    hide Leaves, ReadLines, Lookup, Store, AddPairs, AddTables, AddArrays, PairLines, TableLines, ArrayLines, AllDefined;
    var path := st.current;
    var pairs, tables, arrays := PairLines(lib, members), TableLines(lib, members, path), ArrayLines(lib, members, path);
    ReadPairs(lib, members, st, map[]);
    var a := AddPairs(lib, map[], members);
    if a.None? {
      Stops(st, pairs, tables + arrays, path);
    } else {
      Then(st, pairs, tables + arrays, path, a.value, Built(lib, members));
      var afterPairs := ReadLines(st, pairs).value;
      NoneYet();
      PairsDefined(lib, map[], members);
      ReadTables(lib, members, afterPairs, path, a.value);
      var b := AddTables(lib, a.value, members);
      if b.None? {
        Stops(afterPairs, tables, arrays, path);
      } else {
        TablesDefined(lib, a.value, members);
        Then(afterPairs, tables, arrays, path, b.value, Built(lib, members));
        ReadArrays(lib, members, ReadLines(afterPairs, tables).value, path, b.value);
      }
    }
  }

  lemma NoneYet()
    ensures AllDefined(map[])
  {
  }

  lemma {:induction false} PairsDefined(lib: Library, t: Members, members: seq<Member>)
    requires Supported(members) && AllDefined(t) && AddPairs(lib, t, members).Some?
    ensures AllDefined(AddPairs(lib, t, members).value)
    decreases members
  {
    if members != [] {
      var m := members[0];
      assert SupportedMember(m);
      PairsDefined(lib, if KindOf(m.value).Line? then t[m.key := Leaf(Natural(lib, m.value))] else t, members[1..]);
    }
  }

  lemma {:induction false} TablesDefined(lib: Library, t: Members, members: seq<Member>)
    requires Supported(members) && AllDefined(t) && AddTables(lib, t, members).Some?
    ensures AllDefined(AddTables(lib, t, members).value)
    decreases members
  {
    hide Built;
    if members != [] {
      var m := members[0];
      assert SupportedMember(m);
      TablesDefined(lib, if m.value.Obj? then t[m.key := Table(Built(lib, m.value.members).value, true)] else t, members[1..]);
    }
  }

  lemma {:induction false} ReadTables(lib: Library, members: seq<Member>, st: State, path: seq<string>, t: Members)
    requires Supported(members) && AllDefined(t) && Lookup(st.root, path) == Some(t)
    ensures Leaves(st, TableLines(lib, members, path), path, AddTables(lib, t, members))
    decreases members, 1
  {
    hide Leaves, ReadLines, Lookup, Store, Apply, Lines, Built;
    if members == [] {
      NothingLeft(st, path, t);
    } else {
      var m, rest := members[0], TableLines(lib, members[1..], path);
      assert SupportedMember(m);
      if m.value.Obj? {
        var line, inside := Header(path + [m.key]), Lines(lib, m.value.members, path + [m.key]);
        var head := [Blank, line] + inside;
        assert TableLines(lib, members, path) == head + rest;
        if m.key in t {
          Refuses(st, path, m.key, t, line, inside);
          Stops(st, head, rest, path);
        } else {
          var open := Table(map[], true);
          Opens(st, path, m.key, t, line, open);
          ReadTable(lib, m.value.members, State(Store(st.root, path, t[m.key := open]), path + [m.key]));
          var inner := Built(lib, m.value.members);
          Fills(st, path, m.key, t, line, open, inside, inner);
          if inner.None? {
            Stops(st, head, rest, path);
          } else {
            var u := t[m.key := Table(inner.value, true)];
            Then(st, head, rest, path, u, AddTables(lib, u, members[1..]));
            ReadTables(lib, members[1..], ReadLines(st, head).value, path, u);
          }
        }
      } else {
        ReadTables(lib, members[1..], st, path, t);
        assert [] + rest == rest;
      }
    }
  }

  lemma {:induction false} ReadArrays(lib: Library, members: seq<Member>, st: State, path: seq<string>, t: Members)
    requires Supported(members) && AllDefined(t) && Lookup(st.root, path) == Some(t)
    ensures Leaves(st, ArrayLines(lib, members, path), path, AddArrays(lib, t, members))
    decreases members, 1
  {
    hide Leaves, ReadLines, Lookup, Store, Apply, ItemLines, AddItems;
    if members == [] {
      NothingLeft(st, path, t);
    } else {
      var m, rest := members[0], ArrayLines(lib, members[1..], path);
      assert SupportedMember(m);
      if IsObjects(m.value) {
        var head := ItemLines(lib, m.value.items, path + [m.key]);
        ReadItems(lib, m.value.items, st, path, m.key, t);
        var u := AddItems(lib, t, m.key, m.value.items);
        if u.None? {
          Stops(st, head, rest, path);
        } else {
          ItemsDefined(lib, t, m.key, m.value.items);
          Then(st, head, rest, path, u.value, AddArrays(lib, u.value, members[1..]));
          ReadArrays(lib, members[1..], ReadLines(st, head).value, path, u.value);
        }
      } else {
        ReadArrays(lib, members[1..], st, path, t);
        assert [] + rest == rest;
      }
    }
  }

  lemma {:induction false} ItemsDefined(lib: Library, t: Members, k: string, items: seq<Value>)
    requires SupportedItems(items) && AllDefined(t) && AddItems(lib, t, k, items).Some?
    ensures AllDefined(AddItems(lib, t, k, items).value)
    decreases items
  {
    hide Built;
    if items != [] {
      ItemsDefined(lib, t[k := Tables(ItemsAt(t, k) + [Built(lib, items[0].members).value])], k, items[1..]);
    }
  }

  /** The items of an array of tables, which may hold some already. */
  lemma {:induction false} ReadItems(lib: Library, items: seq<Value>, st: State, path: seq<string>, k: string, t: Members)
    requires SupportedItems(items) && AllDefined(t) && Lookup(st.root, path) == Some(t)
    ensures Leaves(st, ItemLines(lib, items, path + [k]), path, AddItems(lib, t, k, items))
    decreases items, 1
  {
    hide Leaves, ReadLines, Lookup, Store, Apply, Lines, Built;
    if items == [] {
      NothingLeft(st, path, t);
    } else {
      var rest, line := ItemLines(lib, items[1..], path + [k]), ArrayHeader(path + [k]);
      var inside := Lines(lib, items[0].members, path + [k]);
      var head := [Blank, line] + inside;
      assert ItemLines(lib, items, path + [k]) == head + rest;
      if k in t && !t[k].Tables? {
        Refuses(st, path, k, t, line, inside);
        Stops(st, head, rest, path);
      } else {
        ReadItem(lib, items[0], st, path, k, t);
        var inner := Built(lib, items[0].members);
        if inner.None? {
          Stops(st, head, rest, path);
        } else {
          var u := t[k := Tables(ItemsAt(t, k) + [inner.value])];
          Then(st, head, rest, path, u, AddItems(lib, u, k, items[1..]));
          ReadItems(lib, items[1..], ReadLines(st, head).value, path, k, u);
        }
      }
    }
  }

  lemma {:induction false} ReadItem(lib: Library, item: Value, st: State, path: seq<string>, k: string, t: Members)
    requires item.Obj? && Supported(item.members) && Lookup(st.root, path) == Some(t) && (k in t ==> t[k].Tables?)
    ensures Leaves(st, [Blank, ArrayHeader(path + [k])] + Lines(lib, item.members, path + [k]), path,
                   match Built(lib, item.members)
                   case None => None
                   case Some(inner) => Some(t[k := Tables(ItemsAt(t, k) + [inner])]))
    decreases item, 1
  {
    hide Leaves, ReadLines, Lookup, Store, Apply, Lines, Built;
    var open, inner := Tables(ItemsAt(t, k) + [map[]]), Built(lib, item.members);
    assert k !in t ==> open == Tables([map[]]);
    Opens(st, path, k, t, ArrayHeader(path + [k]), open);
    ReadTable(lib, item.members, State(Store(st.root, path, t[k := open]), path + [k]));
    Fills(st, path, k, t, ArrayHeader(path + [k]), open, Lines(lib, item.members, path + [k]), inner);
    if inner.Some? {
      assert Replace(open, inner.value) == Tables(ItemsAt(t, k) + [inner.value]);
    }
  }
}
