/**
  What the rendered lines of a JSON object build when they are read, or that they are refused: exactly when, and that it
  is the object's tree when no key is repeated.
 */
module TomlBuild {
  import opened Text
  import opened Json
  import opened Toml
  import opened TomlRender

  // ----- the tree that was rendered

  function NodeOf(lib: Library, v: Value): Node
    requires !v.Null? && SupportedMember(Member("k", v))
    decreases v
  {
    match KindOf(v)
    case Line => Leaf(Natural(lib, v))
    case SubTable => Table(Tree(lib, v.members), true)
    case SubTables => Tables(TreeItems(lib, v.items))
  }

  /** The members as a table, nulls dropped. */
  function Tree(lib: Library, members: seq<Member>): Members
    requires Supported(members)
    decreases members
  {
    if members == [] then map[]
    else
      var m := members[0];
      assert SupportedMember(m);
      if m.value.Null? then Tree(lib, members[1..])
      else map[m.key := NodeOf(lib, m.value)] + Tree(lib, members[1..])
  }

  function TreeItems(lib: Library, items: seq<Value>): seq<Members>
    requires SupportedItems(items)
    decreases items
  {
    if items == [] then [] else [Tree(lib, items[0].members)] + TreeItems(lib, items[1..])
  }

  /** No key occurs twice among the members that are not null, at any level. */
  predicate Distinct(members: seq<Member>)
    decreases members
  {
    members != [] ==> !Mentions(members[1..], members[0]) && DistinctValue(members[0].value) && Distinct(members[1..])
  }

  predicate DistinctValue(v: Value)
    decreases v
  {
    match v
    case Obj(ms) => Distinct(ms)
    case Arr(items) => DistinctItems(items)
    case _ => true
  }

  predicate DistinctItems(items: seq<Value>)
    decreases items
  {
    items != [] ==> DistinctValue(items[0]) && DistinctItems(items[1..])
  }

  predicate Mentions(members: seq<Member>, m: Member) {
    !m.value.Null? && exists i :: 0 <= i < |members| && !members[i].value.Null? && members[i].key == m.key
  }

  /** The part of the tree that comes from members of one kind. */
  function Part(lib: Library, members: seq<Member>, kind: Kind): Members
    requires Supported(members) && !kind.Dropped?
  {
    if members == [] then map[]
    else
      var m := members[0];
      assert SupportedMember(m);
      if KindOf(m.value) == kind then map[m.key := NodeOf(lib, m.value)] + Part(lib, members[1..], kind)
      else Part(lib, members[1..], kind)
  }

  lemma {:induction false} PartKeys(lib: Library, members: seq<Member>, kind: Kind, m: Member)
    requires Supported(members) && !kind.Dropped? && !m.value.Null? && !Mentions(members, m)
    ensures m.key !in Part(lib, members, kind)
    decreases members
  {
    if members != [] {
      assert SupportedMember(members[0]);
      forall i | 0 <= i < |members[1..]| && !members[1..][i].value.Null?
        ensures members[1..][i].key != m.key
      {
        assert members[1..][i] == members[i + 1];
      }
      PartKeys(lib, members[1..], kind, m);
      assert members[0].value.Null? || members[0].key != m.key;
    }
  }

  /** The three kinds together are the whole tree. */
  lemma {:induction false} PartsMakeTree(lib: Library, members: seq<Member>)
    requires Supported(members) && Distinct(members)
    ensures Part(lib, members, Line) + Part(lib, members, SubTable) + Part(lib, members, SubTables) == Tree(lib, members)
    decreases members
  {
    hide NodeOf;
    if members != [] {
      var m := members[0];
      assert SupportedMember(m);
      PartsMakeTree(lib, members[1..]);
      if !m.value.Null? {
        PartKeys(lib, members[1..], Line, m);
        PartKeys(lib, members[1..], SubTable, m);
        PartKeys(lib, members[1..], SubTables, m);
        InAnyPlace(m.key, NodeOf(lib, m.value), Part(lib, members[1..], Line), Part(lib, members[1..], SubTable),
                   Part(lib, members[1..], SubTables));
      }
    }
  }

  lemma Associates(x: Members, a: Members, b: Members)
    ensures (x + a) + b == x + (a + b)
  {
  }

  lemma Slides(k: string, n: Node, a: Members, b: Members)
    requires k !in a
    ensures a + (map[k := n] + b) == map[k := n] + (a + b)
  {
  }

  lemma InAnyPlace(k: string, n: Node, a: Members, b: Members, c: Members)
    requires k !in a && k !in b && k !in c
    ensures (map[k := n] + a) + b + c == map[k := n] + (a + b + c)
    ensures a + (map[k := n] + b) + c == map[k := n] + (a + b + c)
    ensures a + b + (map[k := n] + c) == map[k := n] + (a + b + c)
  {
    var x := map[k := n];
    calc {
      (x + a) + b + c;
    ==  { Associates(x, a, b); }
      (x + (a + b)) + c;
    ==  { Associates(x, a + b, c); }
      x + (a + b + c);
    }
    calc {
      a + (x + b) + c;
    ==  { Slides(k, n, a, b); }
      (x + (a + b)) + c;
    ==  { Associates(x, a + b, c); }
      x + (a + b + c);
    }
    Slides(k, n, a + b, c);
  }

  // ----- what the lines build

  /** The members as a table, built kind by kind in the order they are rendered; none when a line would be refused. */
  function Built(lib: Library, members: seq<Member>): Option<Members>
    requires Supported(members)
    decreases members, 1
  {
    match AddPairs(lib, map[], members)
    case None => None
    case Some(a) =>
      match AddTables(lib, a, members)
      case None => None
      case Some(b) => AddArrays(lib, b, members)
  }

  function AddPairs(lib: Library, t: Members, members: seq<Member>): Option<Members>
    requires Supported(members)
    decreases members, 0
  {
    if members == [] then Some(t)
    else
      var m := members[0];
      assert SupportedMember(m);
      if !KindOf(m.value).Line? then AddPairs(lib, t, members[1..])
      else if m.key in t then None
      else AddPairs(lib, t[m.key := Leaf(Natural(lib, m.value))], members[1..])
  }

  function AddTables(lib: Library, t: Members, members: seq<Member>): Option<Members>
    requires Supported(members)
    decreases members, 0
  {
    if members == [] then Some(t)
    else
      var m := members[0];
      assert SupportedMember(m);
      if !m.value.Obj? then AddTables(lib, t, members[1..])
      else if m.key in t then None
      else
        match Built(lib, m.value.members)
        case None => None
        case Some(inner) => AddTables(lib, t[m.key := Table(inner, true)], members[1..])
  }

  function AddArrays(lib: Library, t: Members, members: seq<Member>): Option<Members>
    requires Supported(members)
    decreases members, 0
  {
    if members == [] then Some(t)
    else
      var m := members[0];
      assert SupportedMember(m);
      if !IsObjects(m.value) then AddArrays(lib, t, members[1..])
      else
        match AddItems(lib, t, m.key, m.value.items)
        case None => None
        case Some(u) => AddArrays(lib, u, members[1..])
  }

  /** The items go to the end of the array of tables under `k`, which may hold some already. */
  function AddItems(lib: Library, t: Members, k: string, items: seq<Value>): Option<Members>
    requires SupportedItems(items)
    decreases items, 0
  {
    if items == [] then Some(t)
    else if k in t && !t[k].Tables? then None
    else
      match Built(lib, items[0].members)
      case None => None
      case Some(inner) => AddItems(lib, t[k := Tables(ItemsAt(t, k) + [inner])], k, items[1..])
  }

  function ItemsAt(t: Members, k: string): seq<Members> {
    if k in t && t[k].Tables? then t[k].items else []
  }

  // ----- exactly when it is built

  /** Two members that cannot both be rendered readably: one key, unless both are arrays of tables. */
  predicate Clash(a: Member, b: Member) {
    !a.value.Null? && !b.value.Null? && a.key == b.key && !(IsObjects(a.value) && IsObjects(b.value))
  }

  /** No two members clash, at any level. */
  predicate Separate(members: seq<Member>)
    decreases members
  {
    members != [] ==>
      && (forall i :: 0 < i < |members| ==> !Clash(members[0], members[i]))
      && SeparateValue(members[0].value) && Separate(members[1..])
  }

  predicate SeparateValue(v: Value)
    decreases v
  {
    match v
    case Obj(ms) => Separate(ms)
    case Arr(items) => IsObjects(v) ==> SeparateItems(items)
    case _ => true
  }

  predicate SeparateItems(items: seq<Value>)
    decreases items
  {
    items != [] ==> SeparateValue(items[0]) && SeparateItems(items[1..])
  }

  // Members of one kind, by their keys

  predicate Has(members: seq<Member>, kind: Kind, k: string) {
    exists i :: 0 <= i < |members| && KindOf(members[i].value) == kind && members[i].key == k
  }

  /** Members of that kind have different keys. */
  predicate Apart(members: seq<Member>, kind: Kind)
    decreases members
  {
    members != [] ==>
      (KindOf(members[0].value) == kind ==> !Has(members[1..], kind, members[0].key)) && Apart(members[1..], kind)
  }

  /** No member of that kind is in the table already. */
  predicate Fresh(members: seq<Member>, kind: Kind, t: Members) {
    forall k :: k in t ==> !Has(members, kind, k)
  }

  /** The values of members of that kind are separate inside. */
  predicate Inside(members: seq<Member>, kind: Kind)
    decreases members
  {
    members != [] ==> (KindOf(members[0].value) == kind ==> SeparateValue(members[0].value)) && Inside(members[1..], kind)
  }

  lemma HasStep(members: seq<Member>, kind: Kind, k: string)
    requires members != []
    ensures Has(members, kind, k) <==>
            (KindOf(members[0].value) == kind && members[0].key == k) || Has(members[1..], kind, k)
  {
    if Has(members[1..], kind, k) {
      var i :| 0 <= i < |members[1..]| && KindOf(members[1..][i].value) == kind && members[1..][i].key == k;
      assert members[i + 1] == members[1..][i];
    }
    if Has(members, kind, k) {
      var i :| 0 <= i < |members| && KindOf(members[i].value) == kind && members[i].key == k;
      assert i > 0 ==> members[i] == members[1..][i - 1];
    }
  }

  lemma FreshStep(members: seq<Member>, kind: Kind, t: Members, node: Node)
    requires members != []
    ensures var m, rest := members[0], members[1..];
            && (Fresh(members, kind, t) <==> (KindOf(m.value) == kind ==> m.key !in t) && Fresh(rest, kind, t))
            && (Fresh(rest, kind, t[m.key := node]) <==> Fresh(rest, kind, t) && !Has(rest, kind, m.key))
  {
    hide Has;
    forall k
      ensures Has(members, kind, k) <==>
              (KindOf(members[0].value) == kind && members[0].key == k) || Has(members[1..], kind, k)
    {
      HasStep(members, kind, k);
    }
  }

  /** What one stage does to the table: its members come in as nodes of one kind, and nothing else changes. */
  ghost predicate Joins(t: Members, u: Members, members: seq<Member>, kind: Kind) {
    && (forall k :: k in u <==> k in t || Has(members, kind, k))
    && (forall k :: k in t ==> u[k] == t[k])
    && (forall k :: k in u && k !in t ==> if kind.Line? then u[k].Leaf? else u[k].Table?)
  }

  lemma JoinsNothing(t: Members, kind: Kind)
    ensures Joins(t, t, [], kind) && Fresh([], kind, t)
  {
  }

  lemma JoinsStep(t: Members, u: Members, node: Node, members: seq<Member>, kind: Kind)
    requires members != []
    requires if KindOf(members[0].value) == kind then members[0].key !in t && Joins(t[members[0].key := node], u, members[1..], kind)
             else Joins(t, u, members[1..], kind)
    requires KindOf(members[0].value) == kind ==> if kind.Line? then node.Leaf? else node.Table?
    ensures Joins(t, u, members, kind)
  {
    hide Has;
    forall k
      ensures Has(members, kind, k) <==>
              (KindOf(members[0].value) == kind && members[0].key == k) || Has(members[1..], kind, k)
    {
      HasStep(members, kind, k);
    }
  }

  lemma {:induction false} PairsExactly(lib: Library, t: Members, members: seq<Member>)
    requires Supported(members)
    ensures AddPairs(lib, t, members).Some? <==> Fresh(members, Line, t) && Apart(members, Line)
    ensures AddPairs(lib, t, members).Some? ==> Joins(t, AddPairs(lib, t, members).value, members, Line)
    decreases members
  {
    hide Has, Fresh, Joins;
    if members == [] {
      JoinsNothing(t, Line);
    } else {
      var m := members[0];
      assert SupportedMember(m);
      if KindOf(m.value).Line? {
        var node := Leaf(Natural(lib, m.value));
        FreshStep(members, Line, t, node);
        PairsExactly(lib, t[m.key := node], members[1..]);
        var u := AddPairs(lib, t, members);
        if u.Some? {
          JoinsStep(t, u.value, node, members, Line);
        }
      } else {
        FreshStep(members, Line, t, Leaf(Boolean(true)));
        PairsExactly(lib, t, members[1..]);
        var u := AddPairs(lib, t, members);
        if u.Some? {
          JoinsStep(t, u.value, Leaf(Boolean(true)), members, Line);
        }
      }
    }
  }

  lemma {:induction false} TablesExactly(lib: Library, t: Members, members: seq<Member>)
    requires Supported(members)
    ensures AddTables(lib, t, members).Some? <==>
            Fresh(members, SubTable, t) && Apart(members, SubTable) && Inside(members, SubTable)
    ensures AddTables(lib, t, members).Some? ==> Joins(t, AddTables(lib, t, members).value, members, SubTable)
    decreases members, 1
  {
    hide Has, Fresh, Joins, Built, Separate;
    if members == [] {
      JoinsNothing(t, SubTable);
    } else {
      var m := members[0];
      assert SupportedMember(m);
      if m.value.Obj? {
        BuiltExactly(lib, m.value.members);
        var inner := Built(lib, m.value.members);
        var node := Table(if inner.Some? then inner.value else map[], true);
        FreshStep(members, SubTable, t, node);
        TablesExactly(lib, t[m.key := node], members[1..]);
        var u := AddTables(lib, t, members);
        if u.Some? {
          JoinsStep(t, u.value, node, members, SubTable);
        }
      } else {
        FreshStep(members, SubTable, t, Leaf(Boolean(true)));
        TablesExactly(lib, t, members[1..]);
        var u := AddTables(lib, t, members);
        if u.Some? {
          JoinsStep(t, u.value, Leaf(Boolean(true)), members, SubTable);
        }
      }
    }
  }

  /** Where arrays of tables can go: keys that are new, or hold arrays of tables. */
  predicate Open(members: seq<Member>, t: Members) {
    forall k :: k in t && !t[k].Tables? ==> !Has(members, SubTables, k)
  }

  lemma {:induction false} ItemsExactly(lib: Library, t: Members, k: string, items: seq<Value>)
    requires SupportedItems(items)
    ensures AddItems(lib, t, k, items).Some? <==> items == [] || ((k in t ==> t[k].Tables?) && SeparateItems(items))
    ensures AddItems(lib, t, k, items).Some? ==> SameButArray(t, AddItems(lib, t, k, items).value, k)
    decreases items, 1
  {
    hide Built, Separate;
    if items != [] {
      BuiltExactly(lib, items[0].members);
      var inner := Built(lib, items[0].members);
      if inner.Some? {
        ItemsExactly(lib, t[k := Tables(ItemsAt(t, k) + [inner.value])], k, items[1..]);
      }
    }
  }

  /** Other keys are as they were, and `k` holds an array of tables if it holds anything new. */
  ghost predicate SameButArray(t: Members, u: Members, k: string) {
    && (forall j :: j != k ==> (j in u <==> j in t) && (j in t ==> u[j] == t[j]))
    && (k in t ==> k in u) && (k in u ==> (k in t && u[k] == t[k]) || u[k].Tables?)
    && (k in t && k in u && !t[k].Tables? ==> !u[k].Tables?)
  }

  lemma {:induction false} ArraysExactly(lib: Library, t: Members, members: seq<Member>)
    requires Supported(members)
    ensures AddArrays(lib, t, members).Some? <==> Open(members, t) && Inside(members, SubTables)
    decreases members, 1
  {
    hide Has, AddItems, SeparateItems, Open, SameButArray;
    if members == [] {
      OpenNothing(t);
    } else {
      var m := members[0];
      assert SupportedMember(m);
      OpenStep(members, t);
      if IsObjects(m.value) {
        ItemsExactly(lib, t, m.key, m.value.items);
        var u := AddItems(lib, t, m.key, m.value.items);
        if u.Some? {
          ArraysExactly(lib, u.value, members[1..]);
          OpenSame(members[1..], t, u.value, m.key);
        }
      } else {
        ArraysExactly(lib, t, members[1..]);
      }
    }
  }

  lemma OpenNothing(t: Members)
    ensures Open([], t)
  {
  }

  lemma OpenStep(members: seq<Member>, t: Members)
    requires members != []
    ensures Open(members, t) <==>
            Open(members[1..], t) && (IsObjects(members[0].value) && members[0].key in t ==> t[members[0].key].Tables?)
  {
    hide Has;
    forall k
      ensures Has(members, SubTables, k) <==>
              (IsObjects(members[0].value) && members[0].key == k) || Has(members[1..], SubTables, k)
    {
      HasStep(members, SubTables, k);
    }
  }

  lemma OpenSame(members: seq<Member>, t: Members, u: Members, k: string)
    requires SameButArray(t, u, k)
    ensures Open(members, u) <==> Open(members, t)
  {
    hide Has;
  }

  // All members at once

  ghost predicate Crosses(members: seq<Member>, kind: Kind, other: Kind) {
    exists k :: Has(members, kind, k) && Has(members, other, k)
  }

  lemma CrossesStep(members: seq<Member>, kind: Kind, other: Kind)
    requires members != [] && kind != other
    ensures var m, rest := members[0], members[1..];
            Crosses(members, kind, other) <==>
            || Crosses(rest, kind, other)
            || (KindOf(m.value) == kind && Has(rest, other, m.key))
            || (KindOf(m.value) == other && Has(rest, kind, m.key))
  {
    hide Has;
    forall k
      ensures Has(members, kind, k) <==> (KindOf(members[0].value) == kind && members[0].key == k) || Has(members[1..], kind, k)
      ensures Has(members, other, k) <==> (KindOf(members[0].value) == other && members[0].key == k) || Has(members[1..], other, k)
    {
      HasStep(members, kind, k);
      HasStep(members, other, k);
    }
  }

  /** The first member clashes with none of the others. */
  lemma ClashStep(members: seq<Member>)
    requires members != []
    ensures var m, rest := members[0], members[1..];
            (forall i :: 0 < i < |members| ==> !Clash(m, members[i])) <==>
            (!m.value.Null? ==>
              && !Has(rest, Line, m.key) && !Has(rest, SubTable, m.key) && (Has(rest, SubTables, m.key) ==> IsObjects(m.value)))
  {
    var m, rest := members[0], members[1..];
    if !m.value.Null? {
      if forall i :: 0 < i < |members| ==> !Clash(m, members[i]) {
        forall i | 0 <= i < |rest| && !rest[i].value.Null? && rest[i].key == m.key
          ensures IsObjects(rest[i].value) && IsObjects(m.value)
        {
          assert rest[i] == members[i + 1];
        }
      } else {
        var i :| 0 < i < |members| && Clash(m, members[i]);
        assert rest[i - 1] == members[i];
        HasOne(rest, i - 1);
      }
    }
  }

  lemma HasOne(members: seq<Member>, i: nat)
    requires i < |members|
    ensures Has(members, KindOf(members[i].value), members[i].key)
  {
  }

  lemma NoMembers()
    ensures forall kind, k :: !Has([], kind, k)
  {
  }

  lemma {:induction false} SeparateByKind(members: seq<Member>)
    ensures Separate(members) <==>
            && Apart(members, Line) && Apart(members, SubTable)
            && !Crosses(members, Line, SubTable) && !Crosses(members, Line, SubTables) && !Crosses(members, SubTable, SubTables)
            && Inside(members, SubTable) && Inside(members, SubTables)
    decreases members
  {
    if members == [] {
      NoMembers();
    } else {
      hide Has, Clash, SeparateValue, Crosses;
      SeparateByKind(members[1..]);
      ClashStep(members);
      CrossesStep(members, Line, SubTable);
      CrossesStep(members, Line, SubTables);
      CrossesStep(members, SubTable, SubTables);
      PlainSeparate(members[0].value);
    }
  }

  lemma PlainSeparate(v: Value)
    ensures KindOf(v).Line? || KindOf(v).Dropped? ==> SeparateValue(v)
  {
  }

  lemma FreshIsApart(a: Members, members: seq<Member>)
    requires Joins(map[], a, members, Line)
    ensures Fresh(members, SubTable, a) <==> !Crosses(members, Line, SubTable)
  {
    hide Has;
  }

  lemma OpenIsApart(a: Members, b: Members, members: seq<Member>)
    requires Joins(map[], a, members, Line) && Joins(a, b, members, SubTable)
    ensures Open(members, b) <==> !Crosses(members, Line, SubTables) && !Crosses(members, SubTable, SubTables)
  {
    hide Has;
    forall k | k in b
      ensures !b[k].Tables?
    {
      assert k in a ==> b[k] == a[k] && a[k].Leaf?;
    }
  }

  lemma FreshNowhere(members: seq<Member>)
    ensures Fresh(members, Line, map[])
  {
  }

  /** The lines build a table exactly when no two members clash. */
  lemma {:induction false} BuiltExactly(lib: Library, members: seq<Member>)
    requires Supported(members)
    ensures Built(lib, members).Some? <==> Separate(members)
    decreases members, 2
  {
    hide Has, Fresh, Joins, Open, Crosses, Separate, Apart, Inside, AddPairs, AddTables, AddArrays;
    SeparateByKind(members);
    FreshNowhere(members);
    PairsExactly(lib, map[], members);
    var a := AddPairs(lib, map[], members);
    if a.Some? {
      FreshIsApart(a.value, members);
      TablesExactly(lib, a.value, members);
      var b := AddTables(lib, a.value, members);
      if b.Some? {
        OpenIsApart(a.value, b.value, members);
        ArraysExactly(lib, b.value, members);
      }
    }
  }

  // ----- when no key is repeated, the tree is built

  lemma DistinctHead(members: seq<Member>, kind: Kind)
    requires members != [] && Distinct(members) && !members[0].value.Null? && !kind.Dropped?
    ensures !Has(members[1..], kind, members[0].key)
  {
  }

  lemma {:induction false} DistinctIsSeparate(members: seq<Member>)
    requires Distinct(members)
    ensures Separate(members)
    decreases members
  {
    if members != [] {
      var m, rest := members[0], members[1..];
      forall i | 0 < i < |members|
        ensures !Clash(m, members[i])
      {
        assert members[i] == rest[i - 1];
      }
      DistinctValueIsSeparate(m.value);
      DistinctIsSeparate(rest);
    }
  }

  lemma {:induction false} DistinctValueIsSeparate(v: Value)
    requires DistinctValue(v)
    ensures SeparateValue(v)
    decreases v
  {
    match v
    case Obj(ms) => DistinctIsSeparate(ms);
    case Arr(items) => DistinctItemsAreSeparate(items);
    case _ =>
  }

  lemma {:induction false} DistinctItemsAreSeparate(items: seq<Value>)
    requires DistinctItems(items)
    ensures SeparateItems(items)
    decreases items
  {
    if items != [] {
      DistinctValueIsSeparate(items[0]);
      DistinctItemsAreSeparate(items[1..]);
    }
  }

  lemma {:induction false} PartHas(lib: Library, members: seq<Member>, kind: Kind, k: string)
    requires Supported(members) && !kind.Dropped?
    ensures k in Part(lib, members, kind) <==> Has(members, kind, k)
    decreases members
  {
    hide NodeOf, Has;
    if members == [] {
      NoMembers();
    } else {
      assert SupportedMember(members[0]);
      HasStep(members, kind, k);
      PartHas(lib, members[1..], kind, k);
    }
  }

  /** Putting the first member in and then the part of the rest is putting in the whole part. */
  lemma JoinPart(lib: Library, members: seq<Member>, kind: Kind, t: Members)
    requires members != [] && Supported(members) && Distinct(members) && !kind.Dropped?
    requires KindOf(members[0].value) == kind
    ensures SupportedMember(members[0])
    ensures t + Part(lib, members, kind) == t[members[0].key := NodeOf(lib, members[0].value)] + Part(lib, members[1..], kind)
  {
    hide NodeOf;
    assert SupportedMember(members[0]);
    PartKeys(lib, members[1..], kind, members[0]);
  }

  lemma {:induction false} PairsArePart(lib: Library, t: Members, members: seq<Member>)
    requires Supported(members) && Distinct(members) && Fresh(members, Line, t)
    ensures AddPairs(lib, t, members) == Some(t + Part(lib, members, Line))
    decreases members
  {
    hide Has, Fresh;
    if members == [] {
      assert t + map[] == t;
    } else {
      var m := members[0];
      assert SupportedMember(m);
      if KindOf(m.value).Line? {
        var node := Leaf(Natural(lib, m.value));
        FreshStep(members, Line, t, node);
        DistinctHead(members, Line);
        PairsArePart(lib, t[m.key := node], members[1..]);
        JoinPart(lib, members, Line, t);
      } else {
        FreshStep(members, Line, t, Leaf(Boolean(true)));
        PairsArePart(lib, t, members[1..]);
      }
    }
  }

  lemma {:induction false} TablesArePart(lib: Library, t: Members, members: seq<Member>)
    requires Supported(members) && Distinct(members) && Fresh(members, SubTable, t)
    ensures AddTables(lib, t, members) == Some(t + Part(lib, members, SubTable))
    decreases members, 1
  {
    hide Has, Fresh, Built, Tree;
    if members == [] {
      assert t + map[] == t;
    } else {
      var m := members[0];
      assert SupportedMember(m);
      if m.value.Obj? {
        BuiltIsTree(lib, m.value.members);
        var node := Table(Tree(lib, m.value.members), true);
        FreshStep(members, SubTable, t, node);
        DistinctHead(members, SubTable);
        TablesArePart(lib, t[m.key := node], members[1..]);
        JoinPart(lib, members, SubTable, t);
      } else {
        FreshStep(members, SubTable, t, Leaf(Boolean(true)));
        TablesArePart(lib, t, members[1..]);
      }
    }
  }

  lemma {:induction false} ItemsAreTree(lib: Library, t: Members, k: string, items: seq<Value>)
    requires SupportedItems(items) && DistinctItems(items) && (k in t ==> t[k].Tables?) && items != []
    ensures AddItems(lib, t, k, items) == Some(t[k := Tables(ItemsAt(t, k) + TreeItems(lib, items))])
    decreases items, 1
  {
    hide Built, Tree, ItemsAt, TreeItems;
    var inner := Tree(lib, items[0].members);
    BuiltIsTree(lib, items[0].members);
    var u := t[k := Tables(ItemsAt(t, k) + [inner])];
    ItemsThere(t, k, ItemsAt(t, k) + [inner]);
    TreeItemsStep(lib, items);
    if |items| == 1 {
      assert items[1..] == [];
    } else {
      ItemsAreTree(lib, u, k, items[1..]);
      OneThenRest(ItemsAt(t, k), inner, TreeItems(lib, items[1..]));
      PutTwice(t, k, Tables(ItemsAt(t, k) + [inner]), Tables(ItemsAt(t, k) + TreeItems(lib, items)));
    }
  }

  lemma ItemsThere(t: Members, k: string, items: seq<Members>)
    ensures ItemsAt(t[k := Tables(items)], k) == items
  {
  }

  lemma TreeItemsStep(lib: Library, items: seq<Value>)
    requires SupportedItems(items) && items != []
    ensures TreeItems(lib, items) == [Tree(lib, items[0].members)] + TreeItems(lib, items[1..])
    ensures |items| == 1 ==> TreeItems(lib, items) == [Tree(lib, items[0].members)]
  {
    hide Tree;
  }

  lemma OneThenRest(done: seq<Members>, x: Members, rest: seq<Members>)
    ensures done + [x] + rest == done + ([x] + rest)
  {
  }

  lemma PutTwice(t: Members, k: string, a: Node, b: Node)
    ensures t[k := a][k := b] == t[k := b]
  {
  }

  lemma {:induction false} ArraysArePart(lib: Library, t: Members, members: seq<Member>)
    requires Supported(members) && Distinct(members) && Fresh(members, SubTables, t)
    ensures AddArrays(lib, t, members) == Some(t + Part(lib, members, SubTables))
    decreases members, 1
  {
    hide Has, Fresh, AddItems, TreeItems;
    if members == [] {
      assert t + map[] == t;
    } else {
      var m := members[0];
      assert SupportedMember(m);
      if IsObjects(m.value) {
        var node := Tables(TreeItems(lib, m.value.items));
        FreshStep(members, SubTables, t, node);
        DistinctHead(members, SubTables);
        ItemsAreTree(lib, t, m.key, m.value.items);
        assert [] + TreeItems(lib, m.value.items) == TreeItems(lib, m.value.items);
        ArraysArePart(lib, t[m.key := node], members[1..]);
        JoinPart(lib, members, SubTables, t);
      } else {
        FreshStep(members, SubTables, t, Leaf(Boolean(true)));
        ArraysArePart(lib, t, members[1..]);
      }
    }
  }

  lemma PartsFresh(lib: Library, members: seq<Member>)
    requires Supported(members) && Distinct(members)
    ensures Fresh(members, SubTable, Part(lib, members, Line))
    ensures Fresh(members, SubTables, Part(lib, members, Line) + Part(lib, members, SubTable))
  {
    hide Has, Part, Apart, Inside, Separate, Distinct;
    DistinctIsSeparate(members);
    SeparateByKind(members);
    forall k
      ensures k in Part(lib, members, Line) <==> Has(members, Line, k)
      ensures k in Part(lib, members, SubTable) <==> Has(members, SubTable, k)
    {
      PartHas(lib, members, Line, k);
      PartHas(lib, members, SubTable, k);
    }
  }

  /** Members of distinct keys build their tree. */
  lemma {:induction false} BuiltIsTree(lib: Library, members: seq<Member>)
    requires Supported(members) && Distinct(members)
    ensures Built(lib, members) == Some(Tree(lib, members))
    decreases members, 2
  {
    hide Has, Fresh, AddPairs, AddTables, AddArrays, Part, Distinct, Tree;
    var a, b := Part(lib, members, Line), Part(lib, members, SubTable);
    FreshNowhere(members);
    PairsArePart(lib, map[], members);
    assert map[] + a == a;
    PartsFresh(lib, members);
    TablesArePart(lib, a, members);
    ArraysArePart(lib, a + b, members);
    PartsMakeTree(lib, members);
  }
}
