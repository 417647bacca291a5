/** Whatever the parser accepts is a document of the grammar, within the parser's limits. */
module JsonSound {
  import opened Text
  import opened Json
  import opened G = JsonGrammar

  // ----- strings

  lemma {:induction false} PiecesJoin(a: seq<Piece>, b: seq<Piece>)
    ensures SpellPieces(a + b) == SpellPieces(a) + SpellPieces(b)
    ensures AllPieces(a) && AllPieces(b) ==> AllPieces(a + b)
  {
    hide SpellPiece, IsPiece;
    if a == [] {
      assert a + b == b;
    } else {
      assert (a + b)[1..] == a[1..] + b;
      PiecesJoin(a[1..], b);
    }
  }

  lemma {:induction false} PairsJoin(a: seq<Piece>, b: seq<Piece>)
    requires Paired(a) && Paired(b)
    ensures Paired(a + b)
    decreases |a|
  {
    hide IsHigh, IsLow;
    if a == [] {
      assert a + b == b;
    } else if IsHigh(a[0]) {
      assert (a + b)[2..] == a[2..] + b;
      PairsJoin(a[2..], b);
    } else {
      assert (a + b)[1..] == a[1..] + b;
      PairsJoin(a[1..], b);
    }
  }

  lemma OnePiece(p: Piece)
    ensures SpellPieces([p]) == SpellPiece(p)
    ensures Paired([p]) <==> !IsHigh(p) && !IsLow(p)
  {
    assert [p][1..] == [];
  }

  lemma TwoPieces(p: Piece, q: Piece)
    ensures SpellPieces([p, q]) == SpellPiece(p) + SpellPiece(q)
    ensures IsHigh(p) && IsLow(q) ==> Paired([p, q])
  {
    hide SpellPiece;
    OnePiece(q);
    assert [p, q][1..] == [q] && [p, q][2..] == [];
  }

  lemma UnitSound(s: string)
    requires CodeUnit(s).Ok?
    ensures |s| >= 4 && IsPiece(Unit(s[..4])) && UnitOf(s[..4]) == CodeUnit(s).value && s == s[..4] + CodeUnit(s).rest
  {
    hide HexValue, UnitOf;
    var hex := s[..4];
    UnitOfIs(hex);
    assert forall i :: 0 <= i < 4 ==> hex[i] == s[i];
    HexIsDigit(s[0]);
    HexIsDigit(s[1]);
    HexIsDigit(s[2]);
    HexIsDigit(s[3]);
  }

  lemma HexIsDigit(c: char)
    ensures HexValue(c) >= 0 ==> IsHex(c)
  {
  }

  /** One code unit, or a pair of them. */
  lemma UnicodeSound(s: string) returns (ps: seq<Piece>)
    requires ParseUnicode(s).Ok?
    ensures AllPieces(ps) && Paired(ps) && ['\\', 'u'] + s == SpellPieces(ps) + ParseUnicode(s).rest
  {
    hide CodeUnit, CodepointText, UnitOf, SpellPieces, Paired;
    UnitSound(s);
    var p, t := Unit(s[..4]), CodeUnit(s).rest;
    if IsHigh(p) {
      UnitSound(t[2..]);
      var q := Unit(t[2..][..4]);
      ps := [p, q];
      TwoPieces(p, q);
      PairText(s[..4], t, q.hex, ParseUnicode(s).rest);
    } else {
      ps := [p];
      OnePiece(p);
    }
  }

  lemma PairText(high: string, t: string, low: string, rest: string)
    requires |t| >= 2 && t[0] == '\\' && t[1] == 'u' && t[2..] == low + rest
    ensures ['\\', 'u'] + (high + t) == ['\\', 'u'] + high + (['\\', 'u'] + low) + rest
  {
    assert t == ['\\', 'u'] + (low + rest);
  }

  /** What follows a backslash is one piece, or a pair of code units. */
  lemma EscapeSound(t: string) returns (ps: seq<Piece>)
    requires t != "" && ParseEscape(t).Ok?
    ensures AllPieces(ps) && Paired(ps) && ['\\'] + t == SpellPieces(ps) + ParseEscape(t).rest
  {
    hide ParseUnicode, SpellPieces, Paired;
    assert t == [t[0]] + t[1..];
    if t[0] == 'u' {
      ps := UnicodeSound(t[1..]);
      assert ['\\'] + t == ['\\', 'u'] + t[1..];
    } else {
      ps := [Short(t[0])];
      OnePiece(Short(t[0]));
    }
  }

  lemma {:induction false} CharsSound(s: string, out: string) returns (ps: seq<Piece>)
    requires ParseChars(s, out).Ok?
    ensures AllPieces(ps) && Paired(ps) && s == SpellPieces(ps) + (['"'] + ParseChars(s, out).rest)
    decreases |s|
  {
    hide ParseEscape, SpellPieces, Paired;
    var r, c, t := ParseChars(s, out), s[0], s[1..];
    assert s == [c] + t;
    if c == '"' {
      ps := [];
      Nothing();
    } else if c != '\\' {
      var more := CharsSound(t, out + [c]);
      ps := [Plain(c)] + more;
      OnePiece(Plain(c));
      PiecesJoin([Plain(c)], more);
      PairsJoin([Plain(c)], more);
    } else {
      var bytes := ParseEscape(t);
      var head := EscapeSound(t);
      var more := CharsSound(bytes.rest, out + bytes.value);
      ps := head + more;
      PiecesJoin(head, more);
      PairsJoin(head, more);
    }
  }

  lemma Nothing()
    ensures SpellPieces([]) == "" && Paired([])
  {
  }

  lemma LiteralSound(s: string) returns (ps: seq<Piece>)
    requires ParseString(s).Ok?
    ensures AllPieces(ps) && Paired(ps) && s == SpellLiteral(ps) + ParseString(s).rest
  {
    hide ParseChars, SpellPieces, Paired;
    ps := CharsSound(s[1..], "");
    assert s == ['"'] + s[1..];
  }

  // ----- numbers

  lemma WholeSound(s: string)
    requires Whole(s).Token?
    ensures var sign := if s != "" && s[0] == '-' then 1 else 0;
            sign < Whole(s).length <= |s| && IsWhole(s[sign..Whole(s).length])
  {
    var sign := if s != "" && s[0] == '-' then 1 else 0;
    var n := Whole(s).length;
    if s[sign] == '0' {
      assert s[sign..n] == "0";
    } else {
      assert s[sign..n] == s[sign..][..n - sign];
      assert s[sign..n][0] == s[sign];
    }
  }

  lemma FractionSound(s: string, t: Token) returns (digits: string)
    requires t.Token? && t.length <= |s| && Fraction(s, t).Token?
    ensures var f := Fraction(s, t);
            t.length <= f.length <= |s| && AllDigits(digits)
            && s[t.length..f.length] == if digits == "" then "" else "." + digits
  {
    hide DigitRun;
    digits := "";
    if t.length < |s| && s[t.length] == '.' {
      var at := t.length + 1;
      var n := DigitRun(s[at..]);
      RunStarts(s[at..]);
      digits := s[at..][..n];
      assert s[t.length..at + n] == ['.'] + digits;
    }
  }

  lemma RunStarts(s: string)
    requires s != "" && IsDigit(s[0])
    ensures DigitRun(s) > 0
  {
  }

  lemma ExponentSound(s: string, t: Token) returns (mark: string, digits: string)
    requires t.Token? && t.length <= |s| && Exponent(s, t).Token?
    ensures var e := Exponent(s, t);
            t.length <= e.length <= |s| && AllDigits(digits) && (if digits == "" then mark == "" else IsMark(mark))
            && s[t.length..e.length] == mark + digits
  {
    hide DigitRun;
    mark, digits := "", "";
    if t.length < |s| && (s[t.length] == 'e' || s[t.length] == 'E') {
      var after := t.length + 1;
      var at := if after < |s| && (s[after] == '+' || s[after] == '-') then after + 1 else after;
      var n := DigitRun(s[at..]);
      RunStarts(s[at..]);
      mark, digits := s[t.length..at], s[at..][..n];
      assert s[t.length..at + n] == mark + digits;
    }
  }

  lemma NumeralSound(s: string) returns (n: Numeral)
    requires NumberToken(s).Token?
    ensures IsNumeral(n) && NumberToken(s).length <= |s| && SpellNumeral(n) == s[..NumberToken(s).length]
  {
    hide Whole, Fraction, Exponent, IsWhole, IsMark;
    var w := Whole(s);
    assert w.Token? by {
      Breaks(s);
    }
    var f := Fraction(s, w);
    assert f.Token? by {
      Breaks(s);
    }
    var e := Exponent(s, f);
    WholeSound(s);
    var fraction := FractionSound(s, w);
    var mark, exponent := ExponentSound(s, f);
    var sign := if s != "" && s[0] == '-' then 1 else 0;
    n := Numeral(sign == 1, s[sign..w.length], fraction, mark, exponent);
    Cut(s, sign, w.length, f.length, e.length);
    assert s[..sign] == if sign == 1 then "-" else "";
  }

  lemma Breaks(s: string)
    ensures Whole(s).Broken? ==> Fraction(s, Whole(s)).Broken?
    ensures Fraction(s, Whole(s)).Broken? ==> NumberToken(s).Broken?
  {
    hide Whole;
  }

  lemma Cut(s: string, a: nat, b: nat, c: nat, d: nat)
    requires a <= b <= c <= d <= |s|
    ensures s[..d] == s[..a] + (s[a..b] + (s[b..c] + s[c..d]))
  {
  }

  // ----- values

  /** The white space that is skipped. */
  lemma {:induction false} SkipSound(s: string) returns (blank: string)
    ensures AllBlank(blank, true) && s == blank + SkipSpace(s)
  {
    hide SkipSpace, IsSpace, AllBlank;
    SkipStep(s);
    if s != "" && IsSpace(s[0]) {
      var more := SkipSound(s[1..]);
      blank := [s[0]] + more;
      assert s == [s[0]] + s[1..];
      Regroup([s[0]], more, SkipSpace(s[1..]), "");
      OneBlank(s[0]);
      BlanksJoin([s[0]], more);
    } else {
      blank := "";
      Empty();
      assert s == "" + s;
    }
  }

  lemma SkipStep(s: string)
    ensures SkipSpace(s) == if s != "" && IsSpace(s[0]) then SkipSpace(s[1..]) else s
  {
    hide IsSpace;
  }

  lemma OneBlank(c: char)
    requires IsSpace(c)
    ensures AllBlank([c], true)
  {
  }

  lemma WordSound(t: string, word: string)
    requires StartsWith(t, word)
    ensures t == word + t[|word|..]
  {
  }

  lemma ScalarSound(lib: Library, t: string, depth: nat) returns (v: Syntax)
    requires t != "" && ParseScalar(lib, t).Ok? && depth < MAX_DEPTH
    ensures IsSyntax(v, true) && Within(lib, v, depth) && t == Spell(v) + ParseScalar(lib, t).rest
  {
    hide ParseString, NumberToken, StartsWith, SpellNumeral, SpellLiteral, Paired, IsNumeral, AllPieces;
    var r := ParseScalar(lib, t);
    if t[0] == '"' {
      var ps := LiteralSound(t);
      v := Literal(ps);
    } else if StartsWith(t, "null") {
      v := Word("null");
      WordSound(t, "null");
    } else if StartsWith(t, "true") {
      v := Word("true");
      WordSound(t, "true");
    } else if StartsWith(t, "false") {
      v := Word("false");
      WordSound(t, "false");
    } else {
      var n := NumeralSound(t);
      v := G.Number(n);
      assert t == t[..NumberToken(t).length] + r.rest;
    }
  }

  /** White space before the first of the items. */
  function Indented(blank: string, items: seq<Spaced>): seq<Spaced>
    requires items != []
  {
    [items[0].(before := blank + items[0].before)] + items[1..]
  }

  lemma IndentedSound(lib: Library, blank: string, items: seq<Spaced>, depth: nat)
    requires items != [] && AllBlank(blank, true) && AllItems(items, true)
    ensures AllItems(Indented(blank, items), true) && SpellItems(Indented(blank, items)) == blank + SpellItems(items)
    ensures ItemsWithin(lib, items, depth) ==> ItemsWithin(lib, Indented(blank, items), depth)
  {
    hide IsSyntax, Within, Spell;
    var e, all := items[0], Indented(blank, items);
    assert all[0] == e.(before := blank + e.before) && all[1..] == items[1..];
    assert SpellSpaced(all[0]) == blank + SpellSpaced(e);
    BlanksJoin(blank, e.before);
  }

  lemma BlanksJoin(a: string, b: string)
    requires AllBlank(a, true) && AllBlank(b, true)
    ensures AllBlank(a + b, true)
  {
  }

  function IndentedEntries(blank: string, entries: seq<Entry>): seq<Entry>
    requires entries != []
  {
    [entries[0].(before := blank + entries[0].before)] + entries[1..]
  }

  lemma IndentedEntriesSound(lib: Library, blank: string, entries: seq<Entry>, depth: nat)
    requires entries != [] && AllBlank(blank, true) && AllEntries(entries, true)
    ensures AllEntries(IndentedEntries(blank, entries), true)
    ensures SpellEntries(IndentedEntries(blank, entries)) == blank + SpellEntries(entries)
    ensures EntriesWithin(lib, entries, depth) ==> EntriesWithin(lib, IndentedEntries(blank, entries), depth)
  {
    hide IsItem, Within, SpellSpaced, SpellLiteral, Paired, AllPieces;
    var e, all := entries[0], IndentedEntries(blank, entries);
    assert all[0] == e.(before := blank + e.before) && all[1..] == entries[1..];
    assert SpellEntry(all[0]) == blank + SpellEntry(e);
    BlanksJoin(blank, e.before);
  }

  lemma {:induction false} ValueSound(lib: Library, s: string, depth: nat) returns (before: string, v: Syntax)
    requires ParseValue(lib, s, depth).Ok?
    ensures AllBlank(before, true) && IsSyntax(v, true) && Within(lib, v, depth)
    ensures s == before + (Spell(v) + ParseValue(lib, s, depth).rest)
    decreases |s|, 1
  {
    hide ParseArray, ParseObject, ParseScalar, SkipSpace, AllBlank, IsSyntax, Within, Spell;
    before := SkipSound(s);
    var t := SkipSpace(s);
    if t[0] == '[' {
      v := ArraySound(lib, t[1..], depth);
      assert t == ['['] + t[1..];
    } else if t[0] == '{' {
      v := ObjectSound(lib, t[1..], depth);
      assert t == ['{'] + t[1..];
    } else {
      v := ScalarSound(lib, t, depth);
    }
  }

  lemma {:induction false} ArraySound(lib: Library, s: string, depth: nat) returns (v: Syntax)
    requires ParseArray(lib, s, depth + 1).Ok? && depth < MAX_DEPTH
    ensures IsSyntax(v, true) && Within(lib, v, depth) && ['['] + s == Spell(v) + ParseArray(lib, s, depth + 1).rest
    decreases |s|, 3
  {
    hide ParseItems, SkipSpace, AllBlank, AllItems, ItemsWithin, SpellItems;
    var blank := SkipSound(s);
    var t, rest := SkipSpace(s), ParseArray(lib, s, depth + 1).rest;
    if t != "" && t[0] == ']' {
      v := List(blank, []);
      NoItems(lib, depth + 1);
      assert t == [']'] + rest;
      assert ['['] + s == ['['] + (blank + [']']) + rest;
    } else {
      var items := ItemsSound(lib, t, depth + 1, []);
      IndentedSound(lib, blank, items, depth + 1);
      v := List("", Indented(blank, items));
      assert ['['] + (blank + (SpellItems(items) + ([']'] + rest))) == ['['] + ((blank + SpellItems(items)) + [']']) + rest;
    }
  }

  lemma NoItems(lib: Library, depth: nat)
    ensures AllItems([], true) && ItemsWithin(lib, [], depth) && AllEntries([], true) && EntriesWithin(lib, [], depth)
  {
  }

  lemma {:induction false} ItemsSound(lib: Library, s: string, depth: nat, done: seq<Value>) returns (items: seq<Spaced>)
    requires ParseItems(lib, s, depth, done).Ok?
    ensures items != [] && AllItems(items, true) && ItemsWithin(lib, items, depth)
    ensures s == SpellItems(items) + ([']'] + ParseItems(lib, s, depth, done).rest)
    decreases |s|, 2
  {
    hide ParseValue, SkipSpace, AllBlank, IsSyntax, Within, Spell, AllItems, ItemsWithin, SpellItems;
    var item := ParseValue(lib, s, depth);
    var before, v := ValueSound(lib, s, depth);
    var after := SkipSound(item.rest);
    var t, e := SkipSpace(item.rest), Spaced(before, v, after);
    var rest := ParseItems(lib, s, depth, done).rest;
    SpacedText(before, Spell(v), after, t);
    if t[0] == ']' {
      items := [e];
      OneItem(lib, e, depth);
      assert t == [']'] + rest;
    } else {
      var blank := SkipSound(t[1..]);
      var more := ItemsSound(lib, SkipSpace(t[1..]), depth, done + [item.value]);
      IndentedSound(lib, blank, more, depth);
      items := [e] + Indented(blank, more);
      MoreItems(lib, e, Indented(blank, more), depth);
      assert t == [','] + t[1..];
      ListText(SpellSpaced(e), blank, SpellItems(more), [']'] + rest);
    }
  }

  lemma SpacedText(before: string, value: string, after: string, rest: string)
    ensures before + (value + (after + rest)) == before + (value + after) + rest
  {
    Regroup(value, after, rest, "");
    Regroup(before, value + after, rest, "");
  }

  lemma ListText(a: string, b: string, c: string, d: string)
    ensures a + ([','] + (b + (c + d))) == a + ([','] + (b + c)) + d
  {
    Regroup(b, c, d, "");
    Regroup([','], b + c, d, "");
    Regroup(a, [','] + (b + c), d, "");
  }

  lemma OneItem(lib: Library, e: Spaced, depth: nat)
    requires IsItem(e, true) && Within(lib, e.value, depth)
    ensures AllItems([e], true) && ItemsWithin(lib, [e], depth) && SpellItems([e]) == SpellSpaced(e)
  {
    hide IsItem, Within, SpellSpaced;
    assert [e][1..] == [];
    assert SpellSpaced(e) + "" == SpellSpaced(e);
  }

  lemma MoreItems(lib: Library, e: Spaced, more: seq<Spaced>, depth: nat)
    requires IsItem(e, true) && Within(lib, e.value, depth) && more != [] && AllItems(more, true) && ItemsWithin(lib, more, depth)
    ensures AllItems([e] + more, true) && ItemsWithin(lib, [e] + more, depth)
    ensures SpellItems([e] + more) == SpellSpaced(e) + ([','] + SpellItems(more))
  {
    hide IsItem, Within, SpellSpaced;
    assert ([e] + more)[1..] == more;
  }

  lemma {:induction false} ObjectSound(lib: Library, s: string, depth: nat) returns (v: Syntax)
    requires ParseObject(lib, s, depth + 1).Ok? && depth < MAX_DEPTH
    ensures IsSyntax(v, true) && Within(lib, v, depth) && ['{'] + s == Spell(v) + ParseObject(lib, s, depth + 1).rest
    decreases |s|, 3
  {
    hide ParseMembers, SkipSpace, AllBlank, AllEntries, EntriesWithin, SpellEntries;
    var blank := SkipSound(s);
    var t, rest := SkipSpace(s), ParseObject(lib, s, depth + 1).rest;
    if t != "" && t[0] == '}' {
      v := Dict(blank, []);
      NoItems(lib, depth + 1);
      assert t == ['}'] + rest;
      assert ['{'] + s == ['{'] + (blank + ['}']) + rest;
    } else {
      var entries := EntriesSound(lib, t, depth + 1, []);
      IndentedEntriesSound(lib, blank, entries, depth + 1);
      v := Dict("", IndentedEntries(blank, entries));
      assert ['{'] + (blank + (SpellEntries(entries) + (['}'] + rest))) == ['{'] + ((blank + SpellEntries(entries)) + ['}']) + rest;
    }
  }

  lemma {:induction false} EntriesSound(lib: Library, s: string, depth: nat, done: seq<Json.Member>) returns (entries: seq<Entry>)
    requires ParseMembers(lib, s, depth, done).Ok?
    ensures entries != [] && AllEntries(entries, true) && EntriesWithin(lib, entries, depth)
    ensures s == SpellEntries(entries) + (['}'] + ParseMembers(lib, s, depth, done).rest)
    decreases |s|, 2
  {
    hide ParseMember, SkipSpace, AllBlank, IsEntry, Within, SpellEntry, Paired, AllEntries, EntriesWithin, SpellEntries;
    var m := ParseMember(lib, s, depth);
    var after := SkipSound(m.rest);
    var t := SkipSpace(m.rest);
    var rest := ParseMembers(lib, s, depth, done).rest;
    var e := EntrySound(lib, s, depth, after);
    assert s == SpellEntry(e) + t;
    if t[0] == '}' {
      entries := [e];
      OneEntry(lib, e, depth);
      assert t == ['}'] + rest;
    } else {
      var blank := SkipSound(t[1..]);
      var more := EntriesSound(lib, SkipSpace(t[1..]), depth, done + [m.value]);
      IndentedEntriesSound(lib, blank, more, depth);
      entries := [e] + IndentedEntries(blank, more);
      MoreEntries(lib, e, IndentedEntries(blank, more), depth);
      assert t == [','] + t[1..];
      ListText(SpellEntry(e), blank, SpellEntries(more), ['}'] + rest);
    }
  }

  lemma OneEntry(lib: Library, e: Entry, depth: nat)
    requires IsEntry(e, true) && Paired(e.key) && Within(lib, e.value.value, depth)
    ensures AllEntries([e], true) && EntriesWithin(lib, [e], depth) && SpellEntries([e]) == SpellEntry(e)
  {
    hide IsEntry, Within, SpellEntry, Paired;
    assert [e][1..] == [];
    assert SpellEntry(e) + "" == SpellEntry(e);
  }

  lemma MoreEntries(lib: Library, e: Entry, more: seq<Entry>, depth: nat)
    requires IsEntry(e, true) && Paired(e.key) && Within(lib, e.value.value, depth)
    requires more != [] && AllEntries(more, true) && EntriesWithin(lib, more, depth)
    ensures AllEntries([e] + more, true) && EntriesWithin(lib, [e] + more, depth)
    ensures SpellEntries([e] + more) == SpellEntry(e) + ([','] + SpellEntries(more))
  {
    hide IsEntry, Within, SpellEntry, Paired;
    assert ([e] + more)[1..] == more;
  }

  /** A member, with the white space `after` it. */
  lemma {:induction false} EntrySound(lib: Library, s: string, depth: nat, after: string) returns (e: Entry)
    requires ParseMember(lib, s, depth).Ok? && AllBlank(after, true)
    ensures IsEntry(e, true) && Paired(e.key) && Within(lib, e.value.value, depth)
    ensures forall t :: ParseMember(lib, s, depth).rest == after + t ==> s == SpellEntry(e) + t
    decreases |s|, 1
  {
    hide ParseString, ParseValue, SkipSpace, AllBlank, IsSyntax, Within, Spell, SpellLiteral, Paired, AllPieces;
    var ps := LiteralSound(s);
    var key := ParseString(s);
    var middle := SkipSound(key.rest);
    var t := SkipSpace(key.rest);
    var before, v := ValueSound(lib, t[1..], depth);
    e := Entry("", ps, middle, Spaced(before, v, after));
    Empty();
    var rest := ParseMember(lib, s, depth).rest;
    assert t == [':'] + t[1..];
    forall u | rest == after + u
      ensures s == SpellEntry(e) + u
    {
      EntryText(SpellLiteral(ps), middle, before, Spell(v), after, u);
    }
  }

  lemma Empty()
    ensures AllBlank("", true)
  {
  }

  lemma EntryText(key: string, middle: string, before: string, value: string, after: string, rest: string)
    ensures key + (middle + ([':'] + (before + (value + (after + rest)))))
         == "" + (key + (middle + ([':'] + (before + (value + after))))) + rest
  {
    Regroup(before, value, after, rest);
    Regroup(value, after, rest, "");
    Regroup(before, value + after, rest, "");
    Regroup([':'], before + (value + after), rest, "");
    Regroup(middle, [':'] + (before + (value + after)), rest, "");
    Regroup(key, middle + ([':'] + (before + (value + after))), rest, "");
  }

  /** An accepted text is spelled by a document of the grammar. */
  lemma DocumentSound(lib: Library, text: string) returns (d: Spaced)
    requires Parse(lib, text).Ok?
    ensures IsDocument(lib, d, text)
  {
    hide ParseValue, SkipSpace, AllBlank, IsSyntax, Within, Spell;
    var before, v := ValueSound(lib, text, 0);
    var after := SkipSound(ParseValue(lib, text, 0).rest);
    d := Spaced(before, v, after);
    assert after + "" == after;
  }
}
