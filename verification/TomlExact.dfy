/** The rendered lines build the tree of a JSON object exactly when no key is repeated. */
module TomlExact {
  import opened Text
  import opened Json
  import opened Toml
  import opened TomlRender
  import opened TomlBuild

  lemma {:induction false} SupportedAt(members: seq<Member>, i: nat)
    requires Supported(members) && i < |members|
    ensures SupportedMember(members[i])
    decreases i
  {
    if i > 0 {
      SupportedAt(members[1..], i - 1);
    }
  }

  // ----- how many tables an array gets

  /** The items of all arrays of tables under a key. */
  function Count(members: seq<Member>, k: string): nat {
    if members == [] then 0
    else (if IsObjects(members[0].value) && members[0].key == k then |members[0].value.items| else 0) + Count(members[1..], k)
  }

  /** At most one array of tables has that key. */
  predicate AtMostOne(members: seq<Member>, k: string)
    decreases members
  {
    members != [] ==>
      && (IsObjects(members[0].value) && members[0].key == k ==> !Has(members[1..], SubTables, k))
      && AtMostOne(members[1..], k)
  }

  /** The items are built in order, after those that are there. */
  ghost predicate Extends(lib: Library, before: seq<Members>, after: seq<Members>, items: seq<Value>)
    requires SupportedItems(items)
  {
    && |after| == |before| + |items| && after[..|before|] == before
    && forall j :: 0 <= j < |items| ==> IsBuilt(lib, items[j], after[|before| + j])
  }

  ghost predicate IsBuilt(lib: Library, v: Value, t: Members) {
    v.Obj? && Supported(v.members) && Built(lib, v.members) == Some(t)
  }

  lemma {:induction false} ItemsExtend(lib: Library, t: Members, k: string, items: seq<Value>)
    requires SupportedItems(items) && AddItems(lib, t, k, items).Some?
    ensures var u := AddItems(lib, t, k, items).value;
            && Extends(lib, ItemsAt(t, k), ItemsAt(u, k), items)
            && SameButArray(t, u, k) && (items != [] ==> k in u && u[k].Tables?)
    decreases items
  {
    hide Built, ItemsAt, SameButArray, IsBuilt;
    ItemsExactly(lib, t, k, items);
    var u := AddItems(lib, t, k, items).value;
    var before, after := ItemsAt(t, k), ItemsAt(u, k);
    if items == [] {
      assert before[..|before|] == before;
    } else {
      var inner := Built(lib, items[0].members).value;
      var t' := t[k := Tables(before + [inner])];
      ItemsThere(t, k, before + [inner]);
      ItemsExtend(lib, t', k, items[1..]);
      if items[1..] == [] {
        assert u == t';
      }
      Joined(lib, before, inner, after, items);
    }
  }

  lemma Joined(lib: Library, before: seq<Members>, inner: Members, after: seq<Members>, items: seq<Value>)
    requires items != [] && SupportedItems(items) && Built(lib, items[0].members) == Some(inner)
    requires Extends(lib, before + [inner], after, items[1..])
    ensures Extends(lib, before, after, items)
  {
    hide Built;
    var n := |before|;
    assert after[..n] == after[..n + 1][..n] == before;
    assert after[n] == after[..n + 1][n] == inner;
    assert IsBuilt(lib, items[0], inner);
    forall j | 0 <= j < |items|
      ensures IsBuilt(lib, items[j], after[n + j])
    {
      assert j > 0 ==> items[j] == items[1..][j - 1] && after[n + j] == after[|before + [inner]| + (j - 1)];
    }
  }

  lemma {:induction false} ArraysCount(lib: Library, t: Members, members: seq<Member>, k: string)
    requires Supported(members) && AddArrays(lib, t, members).Some?
    ensures |ItemsAt(AddArrays(lib, t, members).value, k)| == |ItemsAt(t, k)| + Count(members, k)
    decreases members
  {
    hide AddItems, IsBuilt;
    if members != [] {
      var m := members[0];
      assert SupportedMember(m);
      if IsObjects(m.value) {
        ItemsExtend(lib, t, m.key, m.value.items);
        var u := AddItems(lib, t, m.key, m.value.items).value;
        ArraysCount(lib, u, members[1..], k);
      } else {
        ArraysCount(lib, t, members[1..], k);
      }
    }
  }

  lemma {:induction false} NotInTree(lib: Library, members: seq<Member>, k: string)
    requires Supported(members) && k !in Tree(lib, members)
    ensures Count(members, k) == 0 && !Has(members, SubTables, k)
    decreases members
  {
    hide NodeOf, Has;
    if members == [] {
      NoMembers();
    } else {
      assert SupportedMember(members[0]);
      HasStep(members, SubTables, k);
      NotInTree(lib, members[1..], k);
    }
  }

  lemma {:induction false} TreeItemsCount(lib: Library, items: seq<Value>)
    requires SupportedItems(items)
    ensures |TreeItems(lib, items)| == |items|
    decreases items
  {
    hide Tree;
    if items != [] {
      TreeItemsCount(lib, items[1..]);
    }
  }

  /** A tree keeps the last array of a key, so it has all their items only if there is no other. */
  lemma {:induction false} TreeCount(lib: Library, members: seq<Member>, k: string)
    requires Supported(members)
    ensures |ItemsAt(Tree(lib, members), k)| <= Count(members, k)
    ensures |ItemsAt(Tree(lib, members), k)| == Count(members, k) ==> AtMostOne(members, k)
    decreases members
  {
    hide Has, TreeItems;
    if members != [] {
      var m := members[0];
      assert SupportedMember(m);
      TreeCount(lib, members[1..], k);
      if k !in Tree(lib, members[1..]) {
        NotInTree(lib, members[1..], k);
      }
      if IsObjects(m.value) {
        TreeItemsCount(lib, m.value.items);
      }
    }
  }

  // ----- what is built under a key

  lemma {:induction false} TablesAt(lib: Library, t: Members, members: seq<Member>, i: nat)
    requires Supported(members) && AddTables(lib, t, members).Some? && i < |members| && members[i].value.Obj?
    ensures var u, m := AddTables(lib, t, members).value, members[i];
            m.key in u && u[m.key].Table? && IsBuilt(lib, m.value, u[m.key].members)
    decreases i
  {
    hide Built, Has;
    var m := members[0];
    assert SupportedMember(m);
    if m.value.Obj? {
      var t' := t[m.key := Table(Built(lib, m.value.members).value, true)];
      TablesExactly(lib, t', members[1..]);
      if i > 0 {
        TablesAt(lib, t', members[1..], i - 1);
      }
    } else {
      TablesAt(lib, t, members[1..], i - 1);
    }
  }

  lemma {:induction false} ArraysKeep(lib: Library, t: Members, members: seq<Member>, k: string)
    requires Supported(members) && AddArrays(lib, t, members).Some? && k in t
    requires !t[k].Tables? || !Has(members, SubTables, k)
    ensures var u := AddArrays(lib, t, members).value; k in u && u[k] == t[k]
    decreases members
  {
    hide Has, AddItems, Extends;
    if members != [] {
      var m := members[0];
      assert SupportedMember(m);
      HasStep(members, SubTables, k);
      if IsObjects(m.value) {
        ItemsExtend(lib, t, m.key, m.value.items);
        ArraysKeep(lib, AddItems(lib, t, m.key, m.value.items).value, members[1..], k);
      } else {
        ArraysKeep(lib, t, members[1..], k);
      }
    }
  }

  lemma {:induction false} ArraysAt(lib: Library, t: Members, members: seq<Member>, i: nat)
    requires Supported(members) && AddArrays(lib, t, members).Some? && i < |members| && IsObjects(members[i].value)
    requires AtMostOne(members, members[i].key) && members[i].key !in t
    ensures SupportedItems(members[i].value.items)
    ensures var u, m := AddArrays(lib, t, members).value, members[i];
            m.key in u && u[m.key].Tables? && Extends(lib, [], u[m.key].items, m.value.items)
    decreases i
  {
    hide Has, AddItems, Extends;
    var m, k := members[0], members[i].key;
    assert SupportedMember(m);
    if IsObjects(m.value) {
      ItemsExtend(lib, t, m.key, m.value.items);
      var u := AddItems(lib, t, m.key, m.value.items).value;
      if i == 0 {
        ArraysKeep(lib, u, members[1..], k);
      } else {
        HasOne(members[1..], i - 1);
        ArraysAt(lib, u, members[1..], i - 1);
      }
    } else {
      ArraysAt(lib, t, members[1..], i - 1);
    }
  }

  // ----- the tree under a key

  /** No key occurs twice among the members that are not null, at this level. */
  predicate TopDistinct(members: seq<Member>)
    decreases members
  {
    members != [] ==> !Mentions(members[1..], members[0]) && TopDistinct(members[1..])
  }

  lemma {:induction false} TreeAt(lib: Library, members: seq<Member>, i: nat)
    requires Supported(members) && TopDistinct(members) && i < |members| && !members[i].value.Null?
    ensures SupportedMember(members[i])
    ensures members[i].key in Tree(lib, members) && Tree(lib, members)[members[i].key] == NodeOf(lib, members[i].value)
    decreases i
  {
    hide NodeOf;
    assert SupportedMember(members[0]);
    if i == 0 {
      TreeLacks(lib, members[1..], members[0]);
    } else {
      TreeAt(lib, members[1..], i - 1);
    }
  }

  lemma {:induction false} TreeLacks(lib: Library, members: seq<Member>, m: Member)
    requires Supported(members) && !m.value.Null? && !Mentions(members, m)
    ensures m.key !in Tree(lib, members)
    decreases members
  {
    hide NodeOf;
    if members != [] {
      assert SupportedMember(members[0]);
      assert members[0].value.Null? || members[0].key != m.key;
      forall i | 0 <= i < |members[1..]| && !members[1..][i].value.Null?
        ensures members[1..][i].key != m.key
      {
        assert members[1..][i] == members[i + 1];
      }
      TreeLacks(lib, members[1..], m);
    }
  }

  // ----- the keys of members that build their tree

  lemma {:induction false} TopFromKinds(members: seq<Member>)
    requires Separate(members) && forall k :: AtMostOne(members, k)
    ensures TopDistinct(members)
    decreases members
  {
    hide Has;
    if members != [] {
      var m, rest := members[0], members[1..];
      ClashStep(members);
      assert AtMostOne(members, m.key);
      if i :| 0 <= i < |rest| && !rest[i].value.Null? && rest[i].key == m.key {
        HasOne(rest, i);
      }
      forall k
        ensures AtMostOne(rest, k)
      {
        assert AtMostOne(members, k);
      }
      TopFromKinds(rest);
    }
  }

  lemma {:induction false} AllDistinct(members: seq<Member>)
    requires TopDistinct(members) && forall i :: 0 <= i < |members| ==> DistinctValue(members[i].value)
    ensures Distinct(members)
    decreases members
  {
    hide Mentions, DistinctValue;
    if members != [] {
      AllDistinct(members[1..]);
    }
  }

  lemma {:induction false} ItemsDistinct(items: seq<Value>)
    requires forall i :: 0 <= i < |items| ==> DistinctValue(items[i])
    ensures DistinctItems(items)
    decreases items
  {
    hide DistinctValue;
    if items != [] {
      ItemsDistinct(items[1..]);
    }
  }

  lemma {:induction false} PlainIsDistinct(v: Value)
    requires IsPlain(v)
    ensures DistinctValue(v)
    decreases v
  {
    if v.Arr? {
      forall i | 0 <= i < |v.items|
        ensures DistinctValue(v.items[i])
      {
        PlainIsDistinct(v.items[i]);
      }
      ItemsDistinct(v.items);
    }
  }

  lemma {:induction false} TreeItemAt(lib: Library, items: seq<Value>, j: nat)
    requires SupportedItems(items) && j < |items|
    ensures items[j].Obj? && Supported(items[j].members)
    ensures |TreeItems(lib, items)| == |items| && TreeItems(lib, items)[j] == Tree(lib, items[j].members)
    decreases j
  {
    hide Tree;
    TreeItemsCount(lib, items);
    if j > 0 {
      TreeItemAt(lib, items[1..], j - 1);
    }
  }

  lemma TopIsDistinct(lib: Library, members: seq<Member>)
    requires Supported(members) && Built(lib, members) == Some(Tree(lib, members))
    ensures TopDistinct(members) && Separate(members)
  {
    hide Has, Tree, Count, Separate, AtMostOne;
    BuiltExactly(lib, members);
    var b := BeforeArrays(lib, members);
    forall k
      ensures AtMostOne(members, k)
    {
      ArraysCount(lib, b, members, k);
      TreeCount(lib, members, k);
    }
    TopFromKinds(members);
  }

  /** What is built before the arrays of tables: no array, and every member that is a table. */
  lemma BeforeArrays(lib: Library, members: seq<Member>) returns (b: Members)
    requires Supported(members) && Built(lib, members).Some?
    ensures AddArrays(lib, b, members) == Built(lib, members)
    ensures forall k :: k in b ==> !b[k].Tables? && (Has(members, Line, k) || Has(members, SubTable, k))
    ensures forall i :: 0 <= i < |members| && members[i].value.Obj? ==>
              members[i].key in b && b[members[i].key].Table? && IsBuilt(lib, members[i].value, b[members[i].key].members)
  {
    hide Has, AddPairs, AddTables, AddArrays, IsBuilt;
    var a := AddPairs(lib, map[], members).value;
    PairsExactly(lib, map[], members);
    b := AddTables(lib, a, members).value;
    TablesExactly(lib, a, members);
    forall i | 0 <= i < |members| && members[i].value.Obj?
      ensures members[i].key in b && b[members[i].key].Table? && IsBuilt(lib, members[i].value, b[members[i].key].members)
    {
      TablesAt(lib, a, members, i);
    }
  }

  /** The values of members that build their tree are distinct inside. */
  lemma {:induction false} ValueIsDistinct(lib: Library, members: seq<Member>, i: nat)
    requires Supported(members) && Built(lib, members) == Some(Tree(lib, members)) && i < |members|
    ensures DistinctValue(members[i].value)
    decreases members, 0
  {
    hide Has, Tree, AddArrays, Separate, TreeItems, Built;
    TopIsDistinct(lib, members);
    SupportedAt(members, i);
    var b := BeforeArrays(lib, members);
    var m := members[i];
    match KindOf(m.value)
    case Dropped =>
    case Line => PlainIsDistinct(m.value);
    case SubTable =>
      TreeAt(lib, members, i);
      ArraysKeep(lib, b, members, m.key);
      BuiltForces(lib, m.value.members);
    case SubTables =>
      TreeAt(lib, members, i);
      NewArray(lib, members, b, i);
      forall j | 0 <= j < |m.value.items|
        ensures DistinctValue(m.value.items[j])
      {
        TreeItemAt(lib, m.value.items, j);
        BuiltForces(lib, m.value.items[j].members);
      }
      ItemsDistinct(m.value.items);
  }

  lemma NewArray(lib: Library, members: seq<Member>, b: Members, i: nat)
    requires Supported(members) && TopDistinct(members) && AddArrays(lib, b, members).Some?
    requires i < |members| && IsObjects(members[i].value)
    requires forall k :: k in b ==> Has(members, Line, k) || Has(members, SubTable, k)
    ensures SupportedItems(members[i].value.items)
    ensures var u, m := AddArrays(lib, b, members).value, members[i];
            m.key in u && u[m.key].Tables? && Extends(lib, [], u[m.key].items, m.value.items)
  {
    hide AddArrays, Extends;
    OneOfAKey(members, i);
    TopIsOne(members, members[i].key);
    ArraysAt(lib, b, members, i);
  }

  lemma {:induction false} OneOfAKey(members: seq<Member>, i: nat)
    requires TopDistinct(members) && i < |members| && IsObjects(members[i].value)
    ensures !Has(members, Line, members[i].key) && !Has(members, SubTable, members[i].key)
    decreases i
  {
    var k, m, rest := members[i].key, members[0], members[1..];
    HasStep(members, Line, k);
    HasStep(members, SubTable, k);
    if i > 0 {
      assert rest[i - 1] == members[i];
      OneOfAKey(rest, i - 1);
    }
  }

  lemma {:induction false} TopIsOne(members: seq<Member>, k: string)
    requires TopDistinct(members)
    ensures AtMostOne(members, k)
    decreases members
  {
    if members != [] {
      TopIsOne(members[1..], k);
    }
  }

  lemma {:induction false} BuiltForces(lib: Library, members: seq<Member>)
    requires Supported(members) && Built(lib, members) == Some(Tree(lib, members))
    ensures Distinct(members)
    decreases members, 1
  {
    hide Built, Tree, Separate, DistinctValue;
    TopIsDistinct(lib, members);
    forall i | 0 <= i < |members|
      ensures DistinctValue(members[i].value)
    {
      ValueIsDistinct(lib, members, i);
    }
    AllDistinct(members);
  }

  /** Members build their tree exactly when no key is repeated, at any level. */
  lemma TreeExactly(lib: Library, members: seq<Member>)
    requires Supported(members)
    ensures Built(lib, members) == Some(Tree(lib, members)) <==> Distinct(members)
  {
    hide Built, Tree, Distinct;
    if Distinct(members) {
      BuiltIsTree(lib, members);
    }
    if Built(lib, members) == Some(Tree(lib, members)) {
      BuiltForces(lib, members);
    }
  }

  // ----- when arrays of tables share a key, they become one

  lemma {:induction false} ItemsInTwo(lib: Library, t: Members, k: string, a: seq<Value>, b: seq<Value>)
    requires SupportedItems(a) && SupportedItems(b) && SupportedItems(a + b)
    ensures AddItems(lib, t, k, a + b) ==
            match AddItems(lib, t, k, a) { case None => None case Some(u) => AddItems(lib, u, k, b) }
    decreases a
  {
    hide Built;
    if a == [] {
      assert a + b == b;
    } else {
      assert (a + b)[1..] == a[1..] + b;
      var inner := Built(lib, a[0].members);
      if inner.Some? && (k in t ==> t[k].Tables?) {
        ItemsInTwo(lib, t[k := Tables(ItemsAt(t, k) + [inner.value])], k, a[1..], b);
      }
    }
  }

  /** Two arrays of tables under one key are read as one array, which is not the tree that was rendered. */
  lemma ArraysMerge(lib: Library, k: string, a: Value, b: Value, both: Value)
    requires IsObjects(a) && IsObjects(b) && both == Arr(a.items + b.items)
    requires Supported([Member(k, a), Member(k, b)]) && Supported([Member(k, both)])
    ensures Built(lib, [Member(k, a), Member(k, b)]) == Built(lib, [Member(k, both)])
    ensures Built(lib, [Member(k, a), Member(k, b)]) != Some(Tree(lib, [Member(k, a), Member(k, b)]))
  {
    hide AddItems, SupportedItems;
    var two, one := [Member(k, a), Member(k, b)], [Member(k, both)];
    assert two[1..] == [Member(k, b)] && [Member(k, b)][1..] == [] && one[1..] == [];
    assert SupportedMember(two[0]) && SupportedMember(two[1..][0]) && SupportedMember(one[0]);
    assert IsObjects(both);
    NoPairs(lib, two);
    NoPairs(lib, one);
    ItemsInTwo(lib, map[], k, a.items, b.items);
    LastArray(lib, map[], one);
    var u := AddItems(lib, map[], k, a.items);
    if u.Some? {
      LastArray(lib, u.value, [Member(k, b)]);
    }
    TreeExactly(lib, two);
    assert Mentions(two[1..], two[0]);
  }

  lemma LastArray(lib: Library, t: Members, one: seq<Member>)
    requires |one| == 1 && Supported(one) && IsObjects(one[0].value)
    ensures SupportedMember(one[0]) && AddArrays(lib, t, one) == AddItems(lib, t, one[0].key, one[0].value.items)
  {
    hide AddItems;
    assert SupportedMember(one[0]) && one[1..] == [];
    var u := AddItems(lib, t, one[0].key, one[0].value.items);
    if u.Some? {
      assert AddArrays(lib, u.value, []) == Some(u.value);
    }
  }

  lemma {:induction false} NoPairs(lib: Library, members: seq<Member>)
    requires Supported(members) && forall i :: 0 <= i < |members| ==> IsObjects(members[i].value)
    ensures AddPairs(lib, map[], members) == Some(map[]) && AddTables(lib, map[], members) == Some(map[])
    decreases members
  {
    if members != [] {
      assert SupportedMember(members[0]);
      NoPairs(lib, members[1..]);
    }
  }
}
