/** A table read back, compared with the JSON object it was rendered from: key by key and value by value. */
module TomlHolds {
  import opened Text
  import opened Json
  import opened Toml
  import opened TomlRender
  import opened TomlBuild
  import opened TomlExact

  /** A TOML value says what a JSON value says. */
  ghost predicate Same(v: Value, p: Plain)
    decreases v
  {
    match v
    case Bool(b) => p == Boolean(b)
    case Num(n) => p.Integer? && p.n as real == n.value
    case Str(s) => p == String(s)
    case Arr(items) => p.Array? && |p.items| == |items| && forall i :: 0 <= i < |items| ==> Same(items[i], p.items[i])
    case _ => false
  }

  /** A table for an object, tables for an array of objects, and a value for anything else. */
  ghost predicate NodeHolds(v: Value, n: Node)
    decreases v
  {
    match n
    case Table(t, _) => v.Obj? && Holds(v.members, t)
    case Tables(ts) =>
      v.Arr? && ts != [] && |ts| == |v.items| && forall i :: 0 <= i < |ts| ==> v.items[i].Obj? && Holds(v.items[i].members, ts[i])
    case Leaf(p) => Same(v, p)
  }

  /** The table has a key for every member that is not null, with what the member says, and no other. */
  ghost predicate Holds(members: seq<Member>, t: Members)
    decreases members
  {
    && (forall i :: 0 <= i < |members| && !members[i].value.Null? ==>
                      members[i].key in t && NodeHolds(members[i].value, t[members[i].key]))
    && (forall k :: k in t ==> IsKey(members, k))
  }

  predicate IsKey(members: seq<Member>, k: string) {
    exists i :: 0 <= i < |members| && !members[i].value.Null? && members[i].key == k
  }

  /** Every number is whole and of magnitude at most 9.0e15. */
  predicate WholeNumbers(v: Value)
    decreases v
  {
    match v
    case Num(n) => n.value.Floor as real == n.value && -9.0e15 <= n.value <= 9.0e15
    case Arr(items) => forall i :: 0 <= i < |items| ==> WholeNumbers(items[i])
    case Obj(members) => forall i :: 0 <= i < |members| ==> WholeNumbers(members[i].value)
    case _ => true
  }

  predicate WholeMembers(members: seq<Member>) {
    forall i :: 0 <= i < |members| ==> WholeNumbers(members[i].value)
  }

  /** A whole number of magnitude at most 9.0e15 is written as an integer, and any other number as `%.17g` gives it. */
  lemma NumberWritten(lib: Library, n: Number)
    ensures Natural(lib, Num(n)) == if n.value.Floor as real == n.value && -9.0e15 <= n.value <= 9.0e15
                                    then Integer(n.value.Floor) else Float(lib.general(n.value))
    ensures PlainText(Natural(lib, Num(n))) == if n.value.Floor as real == n.value && -9.0e15 <= n.value <= 9.0e15
                                               then SignedDecimal(n.value.Floor) else lib.general(n.value)
  {
  }

  /** Only what a basic string may not hold is escaped. */
  lemma EscapedExactly(c: char)
    ensures BasicEscape(c) == [c] <==> c >= ' ' && c != '\U{7F}' && c != '"' && c != '\\'
  {
  }

  /** A key is written bare exactly when it is made of letters, digits, underscores and hyphens. */
  lemma KeyWritten(key: string)
    ensures KeyText(key) == key <==>
            forall i :: 0 <= i < |key| ==>
              '0' <= key[i] <= '9' || 'a' <= key[i] <= 'z' || 'A' <= key[i] <= 'Z' || key[i] == '_' || key[i] == '-'
  {
    hide BasicEscaped;
    if !AllBare(key) {
      EscapedIsNoShorter(key);
    }
  }

  lemma {:induction false} EscapedIsNoShorter(s: string)
    ensures |BasicEscaped(s)| >= |s|
  {
    if s != "" {
      EscapedIsNoShorter(s[1..]);
    }
  }

  lemma Grouped(a: seq<Line>, b: seq<Line>, c: seq<Line>)
    ensures (a + b) + c == a + (b + c)
  {
  }

  lemma {:induction false} PairsInOrder(lib: Library, a: seq<Member>, b: seq<Member>)
    requires Supported(a) && Supported(b) && Supported(a + b)
    ensures PairLines(lib, a + b) == PairLines(lib, a) + PairLines(lib, b)
    decreases |a|
  {
    hide Lines, ItemLines, Natural;
    if a == [] {
      assert a + b == b;
    } else {
      var m := a[0];
      assert (a + b)[1..] == a[1..] + b && (a + b)[0] == m;
      assert SupportedMember(m);
      PairsInOrder(lib, a[1..], b);
      var first := if KindOf(m.value).Line? then [Pair(m.key, Natural(lib, m.value))] else [];
      Grouped(first, PairLines(lib, a[1..]), PairLines(lib, b));
    }
  }

  lemma {:induction false} TablesInOrder(lib: Library, a: seq<Member>, b: seq<Member>, path: seq<string>)
    requires Supported(a) && Supported(b) && Supported(a + b)
    ensures TableLines(lib, a + b, path) == TableLines(lib, a, path) + TableLines(lib, b, path)
    decreases |a|
  {
    hide Lines, ItemLines, Natural;
    if a == [] {
      assert a + b == b;
    } else {
      var m := a[0];
      assert (a + b)[1..] == a[1..] + b && (a + b)[0] == m;
      assert SupportedMember(m);
      TablesInOrder(lib, a[1..], b, path);
      var first := if m.value.Obj? then [Blank, Header(path + [m.key])] + Lines(lib, m.value.members, path + [m.key]) else [];
      Grouped(first, TableLines(lib, a[1..], path), TableLines(lib, b, path));
    }
  }

  lemma {:induction false} ArraysInOrder(lib: Library, a: seq<Member>, b: seq<Member>, path: seq<string>)
    requires Supported(a) && Supported(b) && Supported(a + b)
    ensures ArrayLines(lib, a + b, path) == ArrayLines(lib, a, path) + ArrayLines(lib, b, path)
    decreases |a|
  {
    hide Lines, ItemLines, Natural;
    if a == [] {
      assert a + b == b;
    } else {
      var m := a[0];
      assert (a + b)[1..] == a[1..] + b && (a + b)[0] == m;
      assert SupportedMember(m);
      ArraysInOrder(lib, a[1..], b, path);
      var first := if IsObjects(m.value) then ItemLines(lib, m.value.items, path + [m.key]) else [];
      Grouped(first, ArrayLines(lib, a[1..], path), ArrayLines(lib, b, path));
    }
  }

  lemma {:induction false} ItemsInOrder(lib: Library, a: seq<Value>, b: seq<Value>, path: seq<string>)
    requires SupportedItems(a) && SupportedItems(b) && SupportedItems(a + b)
    ensures ItemLines(lib, a + b, path) == ItemLines(lib, a, path) + ItemLines(lib, b, path)
    decreases |a|
  {
    hide Lines, Supported;
    if a == [] {
      assert a + b == b;
    } else {
      assert (a + b)[1..] == a[1..] + b && (a + b)[0] == a[0];
      ItemsInOrder(lib, a[1..], b, path);
      var first := [Blank, ArrayHeader(path)] + Lines(lib, a[0].members, path);
      Grouped(first, ItemLines(lib, a[1..], path), ItemLines(lib, b, path));
    }
  }

  /** Members are written in their order, kind by kind. */
  lemma LinesInOrder(lib: Library, a: seq<Member>, b: seq<Member>, path: seq<string>)
    requires Supported(a) && Supported(b) && Supported(a + b)
    ensures PairLines(lib, a + b) == PairLines(lib, a) + PairLines(lib, b)
    ensures TableLines(lib, a + b, path) == TableLines(lib, a, path) + TableLines(lib, b, path)
    ensures ArrayLines(lib, a + b, path) == ArrayLines(lib, a, path) + ArrayLines(lib, b, path)
  {
    hide PairLines, TableLines, ArrayLines, Supported;
    PairsInOrder(lib, a, b);
    TablesInOrder(lib, a, b, path);
    ArraysInOrder(lib, a, b, path);
  }

  // ----- the tree of an object holds it

  lemma {:induction false} NaturalSame(lib: Library, v: Value)
    requires IsPlain(v) && WholeNumbers(v)
    ensures Same(v, Natural(lib, v))
    decreases v, 1
  {
    match v
    case Arr(items) => NaturalItemsSame(lib, items);
    case _ =>
  }

  lemma {:induction false} NaturalItemsSame(lib: Library, items: seq<Value>)
    requires forall i :: 0 <= i < |items| ==> IsPlain(items[i]) && WholeNumbers(items[i])
    ensures var ps := NaturalItems(lib, items); |ps| == |items| && forall i :: 0 <= i < |items| ==> Same(items[i], ps[i])
    decreases items, 0
  {
    hide Natural, Same;
    if items != [] {
      NaturalSame(lib, items[0]);
      NaturalItemsSame(lib, items[1..]);
    }
  }

  lemma {:induction false} TreeKeys(lib: Library, members: seq<Member>, k: string)
    requires Supported(members) && k in Tree(lib, members)
    ensures IsKey(members, k)
    decreases members
  {
    hide NodeOf;
    assert SupportedMember(members[0]);
    if members[0].value.Null? || members[0].key != k {
      TreeKeys(lib, members[1..], k);
      var i :| 0 <= i < |members[1..]| && !members[1..][i].value.Null? && members[1..][i].key == k;
      assert members[i + 1] == members[1..][i];
    }
  }

  lemma {:induction false} DistinctIsTop(members: seq<Member>)
    requires Distinct(members)
    ensures TopDistinct(members) && forall i :: 0 <= i < |members| ==> DistinctValue(members[i].value)
    decreases members
  {
    hide Mentions, DistinctValue;
    if members != [] {
      DistinctIsTop(members[1..]);
    }
  }

  lemma {:induction false} DistinctItemAt(items: seq<Value>, j: nat)
    requires DistinctItems(items) && j < |items|
    ensures DistinctValue(items[j])
    decreases j
  {
    hide DistinctValue;
    if j > 0 {
      DistinctItemAt(items[1..], j - 1);
    }
  }

  lemma {:induction false} NodeOfHolds(lib: Library, v: Value)
    requires !v.Null? && SupportedMember(Member("k", v)) && WholeNumbers(v) && DistinctValue(v)
    ensures NodeHolds(v, NodeOf(lib, v))
    decreases v, 1
  {
    hide Tree, Holds, Distinct, Natural, Same, TreeItems;
    match KindOf(v)
    case Line => NaturalSame(lib, v);
    case SubTable => TreeHolds(lib, v.members);
    case SubTables =>
      TreeItemsCount(lib, v.items);
      forall j | 0 <= j < |v.items|
        ensures Holds(v.items[j].members, TreeItems(lib, v.items)[j])
      {
        TreeItemAt(lib, v.items, j);
        DistinctItemAt(v.items, j);
        TreeHolds(lib, v.items[j].members);
      }
  }

  lemma {:induction false} TreeHolds(lib: Library, members: seq<Member>)
    requires Supported(members) && WholeMembers(members) && Distinct(members)
    ensures Holds(members, Tree(lib, members))
    decreases members, 0
  {
    hide Tree, NodeHolds, Distinct, NodeOf, DistinctValue, WholeNumbers, TopDistinct;
    DistinctIsTop(members);
    var t := Tree(lib, members);
    forall i | 0 <= i < |members| && !members[i].value.Null?
      ensures members[i].key in t && NodeHolds(members[i].value, t[members[i].key])
    {
      SupportedAt(members, i);
      TreeAt(lib, members, i);
      SupportedKey(members[i]);
      NodeOfHolds(lib, members[i].value);
    }
    forall k | k in t
      ensures IsKey(members, k)
    {
      TreeKeys(lib, members, k);
    }
  }

  lemma SupportedKey(m: Member)
    requires SupportedMember(m)
    ensures SupportedMember(Member("k", m.value))
  {
  }

  // ----- and only members of distinct keys are held by what is built

  /** One array of tables that has all items of its key is the only one of that key. */
  lemma {:induction false} CountOne(members: seq<Member>, k: string, i: nat)
    requires i < |members| && IsObjects(members[i].value) && members[i].key == k && Count(members, k) == |members[i].value.items|
    ensures AtMostOne(members, k)
    decreases i
  {
    hide Has;
    if i == 0 {
      CountNone(members[1..], k);
    } else {
      CountAt(members[1..], k, i - 1);
      CountOne(members[1..], k, i - 1);
    }
  }

  lemma {:induction false} CountAt(members: seq<Member>, k: string, i: nat)
    requires i < |members| && IsObjects(members[i].value) && members[i].key == k
    ensures Count(members, k) >= |members[i].value.items| > 0
    decreases i
  {
    if i > 0 {
      CountAt(members[1..], k, i - 1);
    }
  }

  lemma {:induction false} CountNone(members: seq<Member>, k: string)
    requires Count(members, k) == 0
    ensures !Has(members, SubTables, k) && AtMostOne(members, k)
    decreases members
  {
    hide Has;
    if members == [] {
      NoMembers();
    } else {
      HasStep(members, SubTables, k);
      CountNone(members[1..], k);
    }
  }

  lemma HeldTop(lib: Library, members: seq<Member>, t: Members)
    requires Supported(members) && Built(lib, members) == Some(t) && Holds(members, t)
    ensures TopDistinct(members)
  {
    hide Has, Count, Separate, AtMostOne, Holds, Built;
    BuiltExactly(lib, members);
    var b := BeforeArrays(lib, members);
    forall k
      ensures AtMostOne(members, k)
    {
      ArraysCount(lib, b, members, k);
      HeldCount(members, t, k);
    }
    TopFromKinds(members);
  }

  lemma HeldCount(members: seq<Member>, t: Members, k: string)
    requires Holds(members, t) && |ItemsAt(t, k)| == Count(members, k)
    ensures AtMostOne(members, k)
  {
    hide Count, AtMostOne;
    if i :| 0 <= i < |members| && IsObjects(members[i].value) && members[i].key == k {
      ObjectsAreTables(members[i].value, t[k]);
      CountOne(members, k, i);
    } else {
      NoCount(members, k);
    }
  }

  lemma ObjectsAreTables(v: Value, n: Node)
    requires IsObjects(v) && NodeHolds(v, n)
    ensures n.Tables? && |n.items| == |v.items|
  {
    if n.Leaf? {
      assert Same(v.items[0], n.value.items[0]);
    }
  }

  lemma {:induction false} NoCount(members: seq<Member>, k: string)
    requires forall i :: 0 <= i < |members| && IsObjects(members[i].value) ==> members[i].key != k
    ensures AtMostOne(members, k)
    decreases members
  {
    if members != [] {
      NoCount(members[1..], k);
    }
  }

  lemma {:induction false} HeldValue(lib: Library, members: seq<Member>, t: Members, i: nat)
    requires Supported(members) && Built(lib, members) == Some(t) && Holds(members, t) && i < |members|
    ensures DistinctValue(members[i].value)
    decreases members, 0
  {
    hide Has, AddArrays, Separate, Built, Holds;
    HeldTop(lib, members, t);
    SupportedAt(members, i);
    var b := BeforeArrays(lib, members);
    var m := members[i];
    match KindOf(m.value)
    case Dropped =>
    case Line => PlainIsDistinct(m.value);
    case SubTable =>
      ArraysKeep(lib, b, members, m.key);
      HeldAt(members, t, i);
      HeldDistinct(lib, m.value.members, t[m.key].members);
    case SubTables =>
      NewArray(lib, members, b, i);
      HeldAt(members, t, i);
      forall j | 0 <= j < |m.value.items|
        ensures DistinctValue(m.value.items[j])
      {
        HeldDistinct(lib, m.value.items[j].members, t[m.key].items[j]);
      }
      ItemsDistinct(m.value.items);
  }

  lemma HeldAt(members: seq<Member>, t: Members, i: nat)
    requires Holds(members, t) && i < |members| && !members[i].value.Null?
    ensures members[i].key in t && NodeHolds(members[i].value, t[members[i].key])
  {
  }

  lemma {:induction false} HeldDistinct(lib: Library, members: seq<Member>, t: Members)
    requires Supported(members) && Built(lib, members) == Some(t) && Holds(members, t)
    ensures Distinct(members)
    decreases members, 1
  {
    hide Built, Holds, DistinctValue, TopDistinct;
    HeldTop(lib, members, t);
    forall i | 0 <= i < |members|
      ensures DistinctValue(members[i].value)
    {
      HeldValue(lib, members, t, i);
    }
    AllDistinct(members);
  }

  /** What members of whole numbers build holds them exactly when no key is repeated, at any level. */
  lemma HoldsExactly(lib: Library, members: seq<Member>)
    requires Supported(members) && WholeMembers(members)
    ensures (Built(lib, members).Some? && Holds(members, Built(lib, members).value)) <==> Distinct(members)
  {
    hide Built, Holds, Distinct, Tree, WholeMembers;
    if Distinct(members) {
      BuiltIsTree(lib, members);
      TreeHolds(lib, members);
    }
    if Built(lib, members).Some? && Holds(members, Built(lib, members).value) {
      HeldDistinct(lib, members, Built(lib, members).value);
    }
  }
}
