/** The printer as the program runs it, over the growable buffer. */
module JsonPrinter {
  import opened Arithmetic
  import opened Buffers
  import opened Json

  /** `b` holds `before` and then `done`, and has not failed. */
  ghost predicate Holds(b: Buffer, before: string, done: string)
    reads b, b.data
  {
    b.Valid() && !b.failed && b.Contents() == before + done
  }

  /** Printing `goal` after `before` ran out of room: a prefix of it is there and the buffer has failed for good. */
  ghost predicate Overflowed(b: Buffer, before: string, goal: string)
    reads b, b.data
  {
    && b.Valid() && b.failed && |before| + |goal| >= SIZE_MAX
    && before <= b.Contents() <= before + goal
  }

  ghost predicate Wrote(b: Buffer, before: string, goal: string, ok: bool)
    reads b, b.data
  {
    if ok then Holds(b, before, goal) && |before| + |goal| < SIZE_MAX else Overflowed(b, before, goal)
  }

  /** Appends the next piece of `goal`, of which `done` is already there and `rest` is still to come. */
  method Put(b: Buffer, piece: string, ghost before: string, ghost done: string, ghost rest: string, ghost goal: string)
    returns (ok: bool)
    requires Holds(b, before, done) && goal == done + (piece + rest)
    modifies b, b.data
    ensures b.data == old(b.data) || fresh(b.data)
    ensures goal == (done + piece) + rest
    ensures if ok then Holds(b, before, done + piece) && |before + done + piece| < SIZE_MAX
            else Overflowed(b, before, goal)
  {
    Pieces(before, done, piece, rest);
    ok := b.Append(piece);
  }

  lemma Pieces(before: string, done: string, piece: string, rest: string)
    ensures before + done + piece == before + (done + piece)
    ensures done + (piece + rest) == (done + piece) + rest
    ensures before <= before + done <= before + done + piece <= before + (done + (piece + rest))
  {
    assert before + (done + (piece + rest)) == (before + done + piece) + rest;
  }

  lemma EscapedStep(s: string, i: nat)
    requires i < |s|
    ensures Escaped(s[i..]) + "\"" == EscapeChar(s[i]) + (Escaped(s[i + 1..]) + "\"")
  {
    assert s[i..][1..] == s[i + 1..];
  }

  /** `ch_json_append_string`: succeeds exactly when the whole literal fits. */
  method AppendString(b: Buffer, value: string) returns (ok: bool)
    requires b.Valid() && !b.failed
    modifies b, b.data
    ensures b.data == old(b.data) || fresh(b.data)
    ensures Wrote(b, old(b.Contents()), Quoted(value), ok)
  {
    hide EscapeChar, Escaped;
    ghost var before, goal := b.Contents(), Quoted(value);
    ghost var done, rest := "", Escaped(value) + "\"";
    assert value[0..] == value && before + done == before && goal == done + ("\"" + rest);
    ok := Put(b, "\"", before, done, rest, goal);
    if !ok {
      return;
    }
    done := done + "\"";
    var cursor := 0;
    while cursor < |value|
      invariant cursor <= |value| && (b.data == old(b.data) || fresh(b.data))
      invariant Holds(b, before, done) && rest == Escaped(value[cursor..]) + "\""
      invariant goal == done + rest
    {
      var piece := EscapeChar(value[cursor]);
      EscapedStep(value, cursor);
      rest := Escaped(value[cursor + 1..]) + "\"";
      ok := Put(b, piece, before, done, rest, goal);
      if !ok {
        return;
      }
      done := done + piece;
      cursor := cursor + 1;
    }
    EndOfString(value);
    ok := Put(b, "\"", before, done, "", goal);
    if ok {
      assert done + "\"" == goal;
    }
  }

  lemma EndOfString(s: string)
    ensures Escaped(s[|s|..]) + "\"" == "\"" + ""
  {
  }

  /** A piece printed by a callee counts as one piece of the caller's goal. */
  lemma Nested(b: Buffer, before: string, done: string, piece: string, rest: string, goal: string, ok: bool)
    requires goal == done + (piece + rest) && Wrote(b, before + done, piece, ok)
    ensures if ok then Holds(b, before, done + piece) && |before + done + piece| < SIZE_MAX
            else Overflowed(b, before, goal)
    ensures goal == (done + piece) + rest
  {
    Pieces(before, done, piece, rest);
  }

  function ItemsEnd(lib: Library, items: seq<Value>, first: bool): string {
    PrintItems(lib, items, first) + "]"
  }

  function MembersEnd(lib: Library, members: seq<Member>, first: bool): string {
    PrintMembers(lib, members, first) + "}"
  }

  lemma ItemsGoal(lib: Library, items: seq<Value>)
    ensures Print(lib, Arr(items)) == "" + ("[" + ItemsEnd(lib, items[0..], true))
  {
    hide PrintItems;
    assert items[0..] == items;
  }

  lemma ItemsEndStep(lib: Library, items: seq<Value>, i: nat)
    requires i <= |items|
    ensures i < |items| ==> ItemsEnd(lib, items[i..], i == 0) ==
                            Comma(i == 0) + (Print(lib, items[i]) + ItemsEnd(lib, items[i + 1..], false))
    ensures i == |items| ==> ItemsEnd(lib, items[i..], i == 0) == "]"
  {
    hide Print;
    if i < |items| {
      assert items[i..][1..] == items[i + 1..];
    }
  }

  lemma MembersGoal(lib: Library, members: seq<Member>)
    ensures Print(lib, Obj(members)) == "" + ("{" + MembersEnd(lib, members[0..], true))
  {
    hide PrintMembers;
    assert members[0..] == members;
  }

  lemma MembersEndStep(lib: Library, members: seq<Member>, i: nat)
    requires i <= |members|
    ensures i < |members| ==> MembersEnd(lib, members[i..], i == 0) ==
                              Comma(i == 0) + (PrintMember(lib, members[i]) + MembersEnd(lib, members[i + 1..], false))
    ensures i == |members| ==> MembersEnd(lib, members[i..], i == 0) == "}"
  {
    hide PrintMember;
    if i < |members| {
      assert members[i..][1..] == members[i + 1..];
    }
  }

  /** `ch_json_append_value`: succeeds exactly when the whole text of the value fits. */
  method AppendValue(lib: Library, b: Buffer, value: Value) returns (ok: bool)
    requires b.Valid() && !b.failed
    modifies b, b.data
    ensures b.data == old(b.data) || fresh(b.data)
    ensures Wrote(b, old(b.Contents()), Print(lib, value), ok)
    decreases value, 1
  {
    match value
    case Null => ok := b.Append("null");
    case Bool(boolean) => ok := b.Append(if boolean then "true" else "false");
    case Num(n) => ok := b.Append(PrintNumber(lib, n));
    case Str(s) => ok := AppendString(b, s);
    case Arr(items) => ok := AppendItems(lib, b, items);
    case Obj(members) => ok := AppendMembers(lib, b, members);
  }

  method AppendItems(lib: Library, b: Buffer, items: seq<Value>) returns (ok: bool)
    requires b.Valid() && !b.failed
    modifies b, b.data
    ensures b.data == old(b.data) || fresh(b.data)
    ensures Wrote(b, old(b.Contents()), Print(lib, Arr(items)), ok)
    decreases items, 0
  {
    hide Print, PrintItems, ItemsEnd, Overflowed, Comma;
    ghost var before, goal := b.Contents(), Print(lib, Arr(items));
    ghost var done, rest := "", ItemsEnd(lib, items[0..], true);
    ItemsGoal(lib, items);
    assert before + done == before;
    ok := Put(b, "[", before, done, rest, goal);
    if !ok {
      return;
    }
    done := done + "[";
    var index := 0;
    while index < |items|
      invariant index <= |items| && (b.data == old(b.data) || fresh(b.data))
      invariant Holds(b, before, done) && rest == ItemsEnd(lib, items[index..], index == 0)
      invariant goal == done + rest
    {
      ItemsEndStep(lib, items, index);
      ghost var piece := Print(lib, items[index]);
      rest := ItemsEnd(lib, items[index + 1..], false);
      ok := Put(b, Comma(index == 0), before, done, piece + rest, goal);
      if !ok {
        return;
      }
      done := done + Comma(index == 0);
      ok := AppendValue(lib, b, items[index]);
      Nested(b, before, done, piece, rest, goal, ok);
      if !ok {
        return;
      }
      done := done + piece;
      index := index + 1;
    }
    ItemsEndStep(lib, items, index);
    assert "]" + "" == "]";
    ok := Put(b, "]", before, done, "", goal);
    if ok {
      assert done + "]" == goal;
    }
  }

  method AppendMembers(lib: Library, b: Buffer, members: seq<Member>) returns (ok: bool)
    requires b.Valid() && !b.failed
    modifies b, b.data
    ensures b.data == old(b.data) || fresh(b.data)
    ensures Wrote(b, old(b.Contents()), Print(lib, Obj(members)), ok)
    decreases members, 0
  {
    hide Print, PrintMembers, MembersEnd, PrintMember, Overflowed, Comma;
    ghost var before, goal := b.Contents(), Print(lib, Obj(members));
    ghost var done, rest := "", MembersEnd(lib, members[0..], true);
    MembersGoal(lib, members);
    assert before + done == before;
    ok := Put(b, "{", before, done, rest, goal);
    if !ok {
      return;
    }
    done := done + "{";
    var index := 0;
    while index < |members|
      invariant index <= |members| && (b.data == old(b.data) || fresh(b.data))
      invariant Holds(b, before, done) && rest == MembersEnd(lib, members[index..], index == 0)
      invariant goal == done + rest
    {
      MembersEndStep(lib, members, index);
      ghost var piece := PrintMember(lib, members[index]);
      rest := MembersEnd(lib, members[index + 1..], false);
      ok := Put(b, Comma(index == 0), before, done, piece + rest, goal);
      if !ok {
        return;
      }
      done := done + Comma(index == 0);
      ok := AppendMember(lib, b, members[index]);
      Nested(b, before, done, piece, rest, goal, ok);
      if !ok {
        return;
      }
      done := done + piece;
      index := index + 1;
    }
    MembersEndStep(lib, members, index);
    assert "}" + "" == "}";
    ok := Put(b, "}", before, done, "", goal);
    if ok {
      assert done + "}" == goal;
    }
  }

  method AppendMember(lib: Library, b: Buffer, m: Member) returns (ok: bool)
    requires b.Valid() && !b.failed
    modifies b, b.data
    ensures b.data == old(b.data) || fresh(b.data)
    ensures Wrote(b, old(b.Contents()), PrintMember(lib, m), ok)
    decreases m, 2
  {
    hide Print, Quoted;
    ghost var before, goal := b.Contents(), PrintMember(lib, m);
    ghost var key, piece := Quoted(m.key), Print(lib, m.value);
    assert before + "" == before && goal == "" + (key + (":" + piece)) && "" + key == key;
    ok := AppendString(b, m.key);
    Nested(b, before, "", key, ":" + piece, goal, ok);
    if !ok {
      return;
    }
    ok := Put(b, ":", before, key, piece, goal);
    if !ok {
      return;
    }
    ok := AppendValue(lib, b, m.value);
    assert piece + "" == piece;
    Nested(b, before, key + ":", piece, "", goal, ok);
    assert goal == key + ":" + piece;
  }
}
