/**
  UTF-8 through the parser: a text is UTF-8 exactly when the strings it stands for are, so that the parser makes UTF-8
  strings of UTF-8 text, and of no other text without escapes of U+0000.
 */
module JsonUtf8 {
  import opened Text
  import opened Utf8
  import opened Json
  import opened G = JsonGrammar
  import opened JsonMeaning
  import JsonSound
  import JsonComplete

  predicate IsAscii(s: string) {
    forall i :: 0 <= i < |s| ==> s[i] < 128 as char
  }

  predicate IsByteText(s: string) {
    forall i :: 0 <= i < |s| ==> s[i] < 256 as char
  }

  function Bytes(s: string): (bs: seq<Byte>)
    requires IsByteText(s)
    ensures |bs| == |s|
  {
    seq(|s|, i requires 0 <= i < |s| => s[i] as int)
  }

  ghost predicate Utf8Text(s: string) {
    IsByteText(s) && IsUtf8(Bytes(s))
  }

  ghost predicate AllUtf8(v: Value)
    decreases v
  {
    match v
    case Str(s) => Utf8Text(s)
    case Arr(items) => forall i :: 0 <= i < |items| ==> AllUtf8(items[i])
    case Obj(members) => forall i :: 0 <= i < |members| ==> Utf8Text(members[i].key) && AllUtf8(members[i].value)
    case _ => true
  }

  lemma Concat(a: string, b: string)
    requires Utf8Text(a) && Utf8Text(b)
    ensures Utf8Text(a + b)
  {
    assert Bytes(a + b) == Bytes(a) + Bytes(b);
    ConcatIsUtf8(Bytes(a), Bytes(b));
  }

  lemma EmptyIsUtf8()
    ensures Utf8Text("")
  {
    assert AllScalars([]) && EncodeAll([]) == Bytes("");
  }

  lemma {:induction false} AsciiIsUtf8(s: string)
    requires IsAscii(s)
    ensures Utf8Text(s)
  {
    hide Utf8Text;
    if s == "" {
      EmptyIsUtf8();
    } else {
      AsciiByteIsUtf8(s[0]);
      AsciiIsUtf8(s[1..]);
      Concat([s[0]], s[1..]);
      assert s == [s[0]] + s[1..];
    }
  }

  lemma AsciiByteIsUtf8(c: char)
    requires c < 128 as char
    ensures Utf8Text([c])
  {
    EncodingIsUtf8(c as int);
    assert Bytes([c]) == Encode(c as int);
  }

  lemma CodepointIsUtf8(c: nat)
    requires IsScalar(c)
    ensures Utf8Text(CodepointText(c)) && (CodepointText(c) == "" <==> c == 0)
  {
    if c == 0 {
      EmptyIsUtf8();
    } else {
      EncodingIsUtf8(c);
      assert Bytes(CodepointText(c)) == Encode(c);
    }
  }

  /** An accepted escape of a code unit or a pair gives UTF-8, and gives nothing if and only if it is that of U+0000. */
  lemma UnicodeDecodes(s: string)
    ensures var r := ParseUnicode(s);
            r.Ok? ==> CodeUnit(s).Ok? && Utf8Text(r.value) && (r.value == "" <==> CodeUnit(s).value == 0)
  {
    hide CodepointText, CodeUnit, Utf8Text;
    var r := ParseUnicode(s);
    if r.Ok? {
      var unit := CodeUnit(s);
      if 0xD800 <= unit.value <= 0xDBFF {
        var low := CodeUnit(unit.rest[2..]);
        CodepointIsUtf8(0x1_0000 + (unit.value - 0xD800) * 0x400 + (low.value - 0xDC00));
      } else {
        CodepointIsUtf8(unit.value);
      }
    }
  }

  // ----- where a text may be cut

  lemma JoinedBytes(a: string, b: string)
    ensures IsByteText(a + b) <==> IsByteText(a) && IsByteText(b)
    ensures IsByteText(a + b) ==> Bytes(a + b) == Bytes(a) + Bytes(b)
  {
    if IsByteText(a + b) {
      assert forall i :: 0 <= i < |a| ==> (a + b)[i] == a[i];
      assert forall i :: 0 <= i < |b| ==> (a + b)[|a| + i] == b[i];
    }
  }

  lemma CutText(a: string, b: string)
    requires b != "" && (b[0] < 128 as char || Utf8Text(b))
    ensures Utf8Text(a + b) <==> Utf8Text(a) && Utf8Text(b)
  {
    hide IsUtf8;
    JoinedBytes(a, b);
    if IsByteText(a + b) {
      if Utf8Text(b) {
        StartsWhole(Bytes(b));
      }
      CutBefore(Bytes(a), Bytes(b));
    }
  }

  lemma CutFront(a: string, b: string)
    requires Utf8Text(a)
    ensures Utf8Text(a + b) <==> Utf8Text(b)
  {
    hide IsUtf8;
    JoinedBytes(a, b);
    if IsByteText(a + b) {
      CutAfter(Bytes(a), Bytes(b));
    }
  }

  /** Non-empty UTF-8 in the middle may be replaced by other non-empty UTF-8. */
  lemma CutOut(a: string, x: string, b: string)
    requires x != "" && Utf8Text(x)
    ensures Utf8Text(a + (x + b)) <==> Utf8Text(a) && Utf8Text(b)
  {
    hide Utf8Text;
    CutFront(x, b);
    if Utf8Text(a + (x + b)) || Utf8Text(a) {
      CutMiddle(a, x, b);
    }
  }

  lemma CutMiddle(a: string, x: string, b: string)
    requires x != "" && Utf8Text(x)
    ensures Utf8Text(a + (x + b)) <==> Utf8Text(a) && Utf8Text(x + b)
  {
    hide IsUtf8;
    JoinedBytes(a, x + b);
    JoinedBytes(x, b);
    if IsByteText(a + (x + b)) {
      StartsWhole(Bytes(x));
      CutBefore(Bytes(a), Bytes(x + b));
    }
  }

  /** ASCII around a text changes nothing. */
  lemma Around(a: string, s: string, b: string)
    requires IsAscii(a) && IsAscii(b)
    ensures Utf8Text(a + (s + b)) <==> Utf8Text(s)
  {
    hide Utf8Text;
    AsciiIsUtf8(a);
    AsciiIsUtf8(b);
    CutFront(a, s + b);
    if b == "" {
      assert s + b == s;
    } else {
      CutText(s, b);
    }
  }

  // ----- strings

  lemma PieceIsAscii(p: Piece)
    requires IsPiece(p) && !p.Plain?
    ensures IsAscii(SpellPiece(p))
  {
  }

  lemma UnitIsNatural(hex: string)
    requires IsPiece(Unit(hex))
    ensures 0 <= UnitOf(hex) < 0x1_0000
  {
  }

  /** What a piece other than a plain character stands for is UTF-8, and empty only for U+0000 when that is dropped. */
  lemma PieceIsUtf8(p: Piece, nul: string)
    requires IsPiece(p) && !p.Plain? && !IsHigh(p) && !IsLow(p) && (nul == "" || nul == NUL)
    ensures Utf8Text(PieceText(p, nul)) && (PieceText(p, nul) == "" <==> IsNulUnit(p) && nul == "")
  {
    hide Utf8Text, CodepointText, UnitOf, CharsOf;
    if p.Unit? {
      UnitIsNatural(p.hex);
      if IsNulUnit(p) {
        AsciiIsUtf8(nul);
      } else {
        CharsOfIs(UnitOf(p.hex));
        CodepointIsUtf8(UnitOf(p.hex));
      }
    } else {
      AsciiIsUtf8(PieceText(p, nul));
    }
  }

  lemma PairIsUtf8(p: Piece, q: Piece)
    requires IsHigh(p) && IsLow(q)
    ensures var c := CharsOf(PairOf(p, q)); Utf8Text(c) && c != ""
  {
    hide Utf8Text, CodepointText, CharsOf;
    CharsOfIs(PairOf(p, q));
    CodepointIsUtf8(PairOf(p, q));
  }

  lemma NoPieces(s: string, nul: string)
    ensures s + SpellPieces([]) == s && s + Decoded([], nul) == s
  {
  }

  /** After `s`, a spelled string is UTF-8 exactly when what it stands for is. */
  lemma {:induction false} StringExactly(s: string, ps: seq<Piece>)
    requires AllPieces(ps) && Paired(ps)
    ensures Utf8Text(s + SpellPieces(ps)) <==> Utf8Text(s + Decoded(ps, NUL))
    decreases |ps|
  {
    hide Utf8Text, IsPiece, IsHigh, IsLow, PieceText, CharsOf, SpellPiece, SpellPieces, Decoded;
    if ps == [] {
      NoPieces(s, NUL);
    } else if IsHigh(ps[0]) {
      var p, q, rest := ps[0], ps[1], ps[2..];
      JsonComplete.HalvesAreUnits(p, q);
      PieceIsAscii(p);
      PieceIsAscii(q);
      var w, c := SpellPiece(p) + SpellPiece(q), CharsOf(PairOf(p, q));
      AsciiIsUtf8(w);
      PairIsUtf8(p, q);
      SpelledPair(ps);
      DecodedPair(ps, NUL);
      CutOut(s, w, SpellPieces(rest));
      CutOut(s, c, Decoded(rest, NUL));
      StringExactly("", rest);
      assert "" + SpellPieces(rest) == SpellPieces(rest) && "" + Decoded(rest, NUL) == Decoded(rest, NUL);
    } else {
      var p, rest := ps[0], ps[1..];
      SpelledStep(ps);
      DecodedStep(ps, NUL);
      if p.Plain? {
        PlainText(p, NUL);
        Regroup(s, [p.c], SpellPieces(rest), "");
        Regroup(s, [p.c], Decoded(rest, NUL), "");
        StringExactly(s + [p.c], rest);
      } else {
        PieceIsAscii(p);
        AsciiIsUtf8(SpellPiece(p));
        PieceIsUtf8(p, NUL);
        CutOut(s, SpellPiece(p), SpellPieces(rest));
        CutOut(s, PieceText(p, NUL), Decoded(rest, NUL));
        StringExactly("", rest);
        assert "" + SpellPieces(rest) == SpellPieces(rest) && "" + Decoded(rest, NUL) == Decoded(rest, NUL);
      }
    }
  }

  lemma SpelledStep(ps: seq<Piece>)
    requires ps != []
    ensures SpellPieces(ps) == SpellPiece(ps[0]) + SpellPieces(ps[1..])
  {
  }

  lemma SpelledPair(ps: seq<Piece>)
    requires |ps| >= 2
    ensures SpellPieces(ps) == SpellPiece(ps[0]) + SpellPiece(ps[1]) + SpellPieces(ps[2..])
  {
    hide SpellPiece;
    assert ps[1..][1..] == ps[2..];
    Regroup(SpellPiece(ps[0]), SpellPiece(ps[1]), SpellPieces(ps[2..]), "");
  }

  lemma PlainText(p: Piece, nul: string)
    requires p.Plain?
    ensures SpellPiece(p) == [p.c] == PieceText(p, nul)
  {
  }

  predicate NoNul(ps: seq<Piece>) {
    forall i :: 0 <= i < |ps| ==> !IsNulUnit(ps[i])
  }

  /** Dropping U+0000 leaves UTF-8; it changes the string exactly when there is one. */
  lemma {:induction false} DroppedNul(s: string, ps: seq<Piece>)
    requires AllPieces(ps) && Paired(ps)
    ensures Utf8Text(s + Decoded(ps, NUL)) ==> Utf8Text(s + Decoded(ps, ""))
    ensures |Decoded(ps, "")| <= |Decoded(ps, NUL)|
    ensures if NoNul(ps) then Decoded(ps, "") == Decoded(ps, NUL) else |Decoded(ps, "")| < |Decoded(ps, NUL)|
    decreases |ps|
  {
    hide Utf8Text, IsPiece, IsHigh, IsLow, PieceText, CharsOf, Decoded, IsNulUnit;
    if ps == [] {
      NoPieces(s, NUL);
      NoPieces(s, "");
      NoPieces("", NUL);
      NoPieces("", "");
    } else if IsHigh(ps[0]) {
      var c := CharsOf(PairOf(ps[0], ps[1]));
      DecodedPair(ps, NUL);
      DecodedPair(ps, "");
      DroppedNul(s + c, ps[2..]);
      Regroup(s, c, Decoded(ps[2..], NUL), "");
      Regroup(s, c, Decoded(ps[2..], ""), "");
      HalvesAreNotNul(ps);
    } else {
      var p, rest := ps[0], ps[1..];
      DecodedStep(ps, NUL);
      DecodedStep(ps, "");
      FirstNul(ps);
      if IsNulUnit(p) {
        NulText(p);
        assert "" + Decoded(rest, "") == Decoded(rest, "");
        DroppedNul("", rest);
        NulCut(s, Decoded(rest, NUL), Decoded(rest, ""));
      } else {
        var c := PieceText(p, "");
        SameText(p);
        DroppedNul(s + c, rest);
        Regroup(s, c, Decoded(rest, NUL), "");
        Regroup(s, c, Decoded(rest, ""), "");
      }
    }
  }

  lemma NulText(p: Piece)
    requires IsNulUnit(p)
    ensures PieceText(p, NUL) == NUL && PieceText(p, "") == ""
  {
  }

  lemma SameText(p: Piece)
    requires !IsNulUnit(p)
    ensures PieceText(p, NUL) == PieceText(p, "")
  {
  }

  lemma NulCut(s: string, kept: string, dropped: string)
    requires Utf8Text("" + kept) ==> Utf8Text("" + dropped)
    ensures Utf8Text(s + (NUL + kept)) ==> Utf8Text(s + dropped)
  {
    hide Utf8Text;
    assert "" + kept == kept && "" + dropped == dropped;
    AsciiIsUtf8(NUL);
    CutOut(s, NUL, kept);
    if Utf8Text(s) && Utf8Text(dropped) {
      Concat(s, dropped);
    }
  }

  lemma FirstNul(ps: seq<Piece>)
    requires ps != []
    ensures NoNul(ps) <==> !IsNulUnit(ps[0]) && NoNul(ps[1..])
  {
    hide IsNulUnit;
    if NoNul(ps[1..]) {
      forall i | 0 < i < |ps|
        ensures !IsNulUnit(ps[i])
      {
        assert ps[i] == ps[1..][i - 1];
      }
    }
  }

  lemma HalvesAreNotNul(ps: seq<Piece>)
    requires |ps| >= 2 && IsHigh(ps[0]) && IsLow(ps[1])
    ensures NoNul(ps) <==> NoNul(ps[2..])
  {
    assert !IsNulUnit(ps[0]) && !IsNulUnit(ps[1]);
    FirstNul(ps);
    FirstNul(ps[1..]);
    assert ps[1..][1..] == ps[2..];
  }

  // ----- values

  lemma ItemsUtf8(x: Value, xs: seq<Value>)
    ensures AllUtf8(Arr([x] + xs)) <==> AllUtf8(x) && AllUtf8(Arr(xs))
  {
    var all := [x] + xs;
    assert all[0] == x && forall i :: 0 <= i < |xs| ==> all[i + 1] == xs[i];
  }

  lemma MembersUtf8(m: Member, ms: seq<Member>)
    ensures AllUtf8(Obj([m] + ms)) <==> Utf8Text(m.key) && AllUtf8(m.value) && AllUtf8(Obj(ms))
  {
    hide Utf8Text;
    var all := [m] + ms;
    assert all[0] == m && forall i :: 0 <= i < |ms| ==> all[i + 1] == ms[i];
  }

  lemma NothingUtf8()
    ensures AllUtf8(Arr([])) && AllUtf8(Obj([]))
  {
  }

  lemma BlankIsAscii(s: string)
    requires AllBlank(s, true)
    ensures IsAscii(s)
  {
  }

  lemma NumeralIsAscii(n: Numeral)
    requires IsNumeral(n)
    ensures IsAscii(SpellNumeral(n))
  {
    hide IsWhole;
    WholeIsDigits(n.whole);
  }

  lemma WholeIsDigits(s: string)
    requires IsWhole(s)
    ensures AllDigits(s)
  {
  }

  lemma LiteralExactly(ps: seq<Piece>)
    requires AllPieces(ps) && Paired(ps)
    ensures Utf8Text(SpellLiteral(ps)) <==> Utf8Text(Decoded(ps, NUL))
  {
    hide Utf8Text, SpellPieces, Decoded, AllPieces, Paired;
    StringExactly("", ps);
    assert "" + SpellPieces(ps) == SpellPieces(ps) && "" + Decoded(ps, NUL) == Decoded(ps, NUL);
    Around(['"'], SpellPieces(ps), ['"']);
  }

  lemma {:induction false} SyntaxExactly(lib: Library, v: Syntax, depth: nat)
    requires IsSyntax(v, true) && Within(lib, v, depth)
    ensures Utf8Text(Spell(v)) <==> AllUtf8(Meaning(lib, v, NUL))
    decreases v, 1
  {
    hide Utf8Text, SpellLiteral, SpellNumeral, SpellItems, SpellEntries, ItemMeanings, EntryMeanings, Decoded, NumberValue,
      AllBlank, AllPieces, Paired, IsNumeral, AllItems, AllEntries, ItemsWithin, EntriesWithin, IsAscii;
    match v
    case Word(w) => WordExactly(lib, w);
    case Number(n) =>
      NumeralIsAscii(n);
      AsciiIsUtf8(SpellNumeral(n));
      NumberExactly(lib, n);
    case Literal(ps) => LiteralExactly(ps);
    case List(blank, items) =>
      BracketsAreAscii();
      if items == [] {
        BlankIsAscii(blank);
        AsciiIsUtf8(blank);
        NothingUtf8();
        JsonComplete.NothingMeant(lib, NUL);
        Around(['['], blank, [']']);
      } else {
        ItemsExactly(lib, items, depth + 1);
        Around(['['], SpellItems(items), [']']);
      }
    case Dict(blank, entries) =>
      BracketsAreAscii();
      if entries == [] {
        BlankIsAscii(blank);
        AsciiIsUtf8(blank);
        NothingUtf8();
        JsonComplete.NothingMeant(lib, NUL);
        Around(['{'], blank, ['}']);
      } else {
        EntriesExactly(lib, entries, depth + 1);
        Around(['{'], SpellEntries(entries), ['}']);
      }
  }

  lemma BracketsAreAscii()
    ensures IsAscii(['[']) && IsAscii([']']) && IsAscii(['{']) && IsAscii(['}']) && IsAscii([':']) && IsAscii([','])
  {
  }

  lemma WordExactly(lib: Library, w: string)
    requires w == "null" || w == "true" || w == "false"
    ensures Utf8Text(w) && AllUtf8(WordValue(w))
  {
    AsciiIsUtf8(w);
  }

  lemma NumberExactly(lib: Library, n: Numeral)
    ensures AllUtf8(NumberValue(lib, n))
  {
  }

  lemma {:induction false} ItemExactly(lib: Library, e: Spaced, depth: nat)
    requires IsItem(e, true) && Within(lib, e.value, depth)
    ensures Utf8Text(SpellSpaced(e)) <==> AllUtf8(Meaning(lib, e.value, NUL))
    decreases e, 1
  {
    hide Utf8Text, Spell, Meaning, AllBlank, IsSyntax, Within, IsAscii, AllUtf8;
    SyntaxExactly(lib, e.value, depth);
    BlankIsAscii(e.before);
    BlankIsAscii(e.after);
    Around(e.before, Spell(e.value), e.after);
  }

  lemma {:induction false} ItemsExactly(lib: Library, items: seq<Spaced>, depth: nat)
    requires items != [] && AllItems(items, true) && ItemsWithin(lib, items, depth)
    ensures Utf8Text(SpellItems(items)) <==> AllUtf8(Arr(ItemMeanings(lib, items, NUL)))
    decreases items, 1
  {
    hide Utf8Text, SpellSpaced, Meaning, IsItem, Within, AllUtf8;
    var x, xs := Meaning(lib, items[0].value, NUL), ItemMeanings(lib, items[1..], NUL);
    ItemExactly(lib, items[0], depth);
    ItemsUtf8(x, xs);
    if |items| == 1 {
      assert items[1..] == [];
      NothingUtf8();
      assert SpellSpaced(items[0]) + "" == SpellSpaced(items[0]);
    } else {
      ItemsExactly(lib, items[1..], depth);
      AfterComma(SpellSpaced(items[0]), SpellItems(items[1..]));
    }
  }

  lemma AfterComma(a: string, b: string)
    ensures Utf8Text(a + ([','] + b)) <==> Utf8Text(a) && Utf8Text(b)
  {
    hide Utf8Text;
    AsciiIsUtf8([',']);
    CutOut(a, [','], b);
  }

  lemma {:induction false} EntryExactly(lib: Library, e: Entry, depth: nat)
    requires IsEntry(e, true) && Paired(e.key) && Within(lib, e.value.value, depth)
    ensures Utf8Text(SpellEntry(e)) <==> Utf8Text(Decoded(e.key, NUL)) && AllUtf8(Meaning(lib, e.value.value, NUL))
    decreases e, 1
  {
    hide Utf8Text, SpellSpaced, SpellLiteral, Meaning, Decoded, IsItem, Within, AllUtf8, AllBlank, AllPieces, Paired;
    var key, value := SpellLiteral(e.key), SpellSpaced(e.value);
    LiteralExactly(e.key);
    ItemExactly(lib, e.value, depth);
    BlankIsAscii(e.before);
    BlankIsAscii(e.middle);
    AsciiIsUtf8(e.before);
    AsciiIsUtf8(e.middle + [':']);
    CutFront(e.before, key + (e.middle + ([':'] + value)));
    Regroup(e.middle, [':'], value, "");
    CutOut(key, e.middle + [':'], value);
  }

  lemma {:induction false} EntriesExactly(lib: Library, entries: seq<Entry>, depth: nat)
    requires entries != [] && AllEntries(entries, true) && EntriesWithin(lib, entries, depth)
    ensures Utf8Text(SpellEntries(entries)) <==> AllUtf8(Obj(EntryMeanings(lib, entries, NUL)))
    decreases entries, 1
  {
    hide Utf8Text, SpellEntry, Meaning, Decoded, IsEntry, Within, AllUtf8, Paired;
    var e := entries[0];
    var m, ms := Member(Decoded(e.key, NUL), Meaning(lib, e.value.value, NUL)), EntryMeanings(lib, entries[1..], NUL);
    EntryExactly(lib, e, depth);
    MembersUtf8(m, ms);
    if |entries| == 1 {
      assert entries[1..] == [];
      NothingUtf8();
      assert SpellEntry(e) + "" == SpellEntry(e);
    } else {
      EntriesExactly(lib, entries[1..], depth);
      AfterComma(SpellEntry(e), SpellEntries(entries[1..]));
    }
  }

  // ----- U+0000

  /** No string or key holds an escape of U+0000. */
  predicate NulFreeTree(v: Syntax)
    decreases v
  {
    match v
    case Literal(ps) => NoNul(ps)
    case List(_, items) => NulFreeItems(items)
    case Dict(_, entries) => NulFreeEntries(entries)
    case _ => true
  }

  predicate NulFreeItems(items: seq<Spaced>)
    decreases items
  {
    items != [] ==> NulFreeTree(items[0].value) && NulFreeItems(items[1..])
  }

  predicate NulFreeEntries(entries: seq<Entry>)
    decreases entries
  {
    entries != [] ==> NoNul(entries[0].key) && NulFreeTree(entries[0].value.value) && NulFreeEntries(entries[1..])
  }

  lemma DroppedInString(ps: seq<Piece>)
    requires AllPieces(ps) && Paired(ps)
    ensures Utf8Text(Decoded(ps, NUL)) ==> Utf8Text(Decoded(ps, ""))
    ensures Decoded(ps, "") == Decoded(ps, NUL) <==> NoNul(ps)
  {
    hide Utf8Text, Decoded, AllPieces, Paired, NoNul;
    DroppedNul("", ps);
    assert "" + Decoded(ps, NUL) == Decoded(ps, NUL) && "" + Decoded(ps, "") == Decoded(ps, "");
  }

  /** The parser's value is UTF-8 if the meaning is, and is the meaning exactly when no U+0000 is escaped. */
  lemma {:induction false} DroppedInSyntax(lib: Library, v: Syntax, depth: nat)
    requires IsSyntax(v, true) && Within(lib, v, depth)
    ensures AllUtf8(Meaning(lib, v, NUL)) ==> AllUtf8(Meaning(lib, v, ""))
    ensures Meaning(lib, v, "") == Meaning(lib, v, NUL) <==> NulFreeTree(v)
    decreases v, 1
  {
    hide Utf8Text, ItemMeanings, EntryMeanings, Decoded, NumberValue, AllBlank, AllPieces, Paired, IsNumeral,
      AllItems, AllEntries, ItemsWithin, EntriesWithin, NoNul, NulFreeItems, NulFreeEntries;
    match v
    case Word(_) =>
    case Number(_) =>
    case Literal(ps) => DroppedInString(ps);
    case List(_, items) => DroppedInItems(lib, items, depth + 1);
    case Dict(_, entries) => DroppedInEntries(lib, entries, depth + 1);
  }

  lemma SameCons<T>(x: T, xs: seq<T>, y: T, ys: seq<T>)
    ensures [x] + xs == [y] + ys <==> x == y && xs == ys
  {
    assert ([x] + xs)[0] == x && ([y] + ys)[0] == y;
    assert ([x] + xs)[1..] == xs && ([y] + ys)[1..] == ys;
  }

  lemma {:induction false} DroppedInItems(lib: Library, items: seq<Spaced>, depth: nat)
    requires items == [] || (AllItems(items, true) && ItemsWithin(lib, items, depth))
    ensures AllUtf8(Arr(ItemMeanings(lib, items, NUL))) ==> AllUtf8(Arr(ItemMeanings(lib, items, "")))
    ensures ItemMeanings(lib, items, "") == ItemMeanings(lib, items, NUL) <==> NulFreeItems(items)
    decreases items, 1
  {
    hide Meaning, AllUtf8, NulFreeTree, Within;
    if items != [] {
      var e, rest := items[0], items[1..];
      DroppedInSyntax(lib, e.value, depth);
      DroppedInItems(lib, rest, depth);
      ItemsUtf8(Meaning(lib, e.value, NUL), ItemMeanings(lib, rest, NUL));
      ItemsUtf8(Meaning(lib, e.value, ""), ItemMeanings(lib, rest, ""));
      SameCons(Meaning(lib, e.value, ""), ItemMeanings(lib, rest, ""), Meaning(lib, e.value, NUL), ItemMeanings(lib, rest, NUL));
    }
  }

  lemma {:induction false} DroppedInEntries(lib: Library, entries: seq<Entry>, depth: nat)
    requires entries == [] || (AllEntries(entries, true) && EntriesWithin(lib, entries, depth))
    ensures AllUtf8(Obj(EntryMeanings(lib, entries, NUL))) ==> AllUtf8(Obj(EntryMeanings(lib, entries, "")))
    ensures EntryMeanings(lib, entries, "") == EntryMeanings(lib, entries, NUL) <==> NulFreeEntries(entries)
    decreases entries, 1
  {
    hide Meaning, AllUtf8, NulFreeTree, Within, Decoded, NoNul, Utf8Text, Paired, AllPieces, AllBlank;
    if entries != [] {
      var e, rest := entries[0], entries[1..];
      var kept := Member(Decoded(e.key, NUL), Meaning(lib, e.value.value, NUL));
      var dropped := Member(Decoded(e.key, ""), Meaning(lib, e.value.value, ""));
      DroppedInString(e.key);
      IsItemParts(e.value);
      DroppedInSyntax(lib, e.value.value, depth);
      DroppedInEntries(lib, rest, depth);
      MembersUtf8(kept, EntryMeanings(lib, rest, NUL));
      MembersUtf8(dropped, EntryMeanings(lib, rest, ""));
      SameCons(dropped, EntryMeanings(lib, rest, ""), kept, EntryMeanings(lib, rest, NUL));
    }
  }

  // ----- documents

  /** A document is UTF-8 exactly when all strings that it stands for are. */
  lemma TextExactly(lib: Library, d: Spaced, text: string)
    requires IsDocument(lib, d, text)
    ensures Utf8Text(text) <==> AllUtf8(Meaning(lib, d.value, NUL))
  {
    hide Utf8Text, Meaning, AllUtf8, Within, IsItem, SpellSpaced;
    IsItemParts(d);
    ItemExactly(lib, d, 0);
  }

  lemma IsItemParts(d: Spaced)
    requires IsItem(d, true)
    ensures IsSyntax(d.value, true)
  {
  }

  /** The parser gives what RFC 8259 says exactly for documents without an escape of U+0000. */
  lemma GivesMeaningExactly(lib: Library, d: Spaced, text: string)
    requires IsDocument(lib, d, text)
    ensures Parse(lib, text).Ok? && (Parse(lib, text).value == Meaning(lib, d.value, NUL) <==> NulFreeTree(d.value))
  {
    hide Parse, Meaning, AllUtf8, Within, IsItem, SpellSpaced, NulFreeTree;
    IsItemParts(d);
    JsonComplete.AcceptsExactly(lib, text);
    DroppedInSyntax(lib, d.value, 0);
  }

  /** Every key and string parsed from UTF-8 text is UTF-8. */
  lemma DocumentDecodes(lib: Library, text: string)
    requires Utf8Text(text) && Parse(lib, text).Ok?
    ensures AllUtf8(Parse(lib, text).value)
  {
    hide Utf8Text, Parse, Meaning, AllUtf8, Within, IsItem, SpellSpaced;
    var d := JsonSound.DocumentSound(lib, text);
    IsItemParts(d);
    TextExactly(lib, d, text);
    JsonComplete.AcceptsExactly(lib, text);
    DroppedInSyntax(lib, d.value, 0);
  }

  /** Without escapes of U+0000 it is so for no other text. */
  lemma DecodesExactly(lib: Library, d: Spaced, text: string)
    requires IsDocument(lib, d, text) && NulFreeTree(d.value)
    ensures Parse(lib, text).Ok? && (AllUtf8(Parse(lib, text).value) <==> Utf8Text(text))
  {
    hide Utf8Text, Parse, Meaning, AllUtf8, Within, IsItem, SpellSpaced, NulFreeTree;
    TextExactly(lib, d, text);
    GivesMeaningExactly(lib, d, text);
  }

  // ----- texts that show the differences

  lemma LiteralParses(lib: Library, ps: seq<Piece>)
    requires AllPieces(ps) && Paired(ps)
    ensures Parse(lib, SpellLiteral(ps)) == Ok(Str(Decoded(ps, "")), "")
  {
    hide Parse, SpellLiteral, Decoded, AllPieces, Paired;
    var d := Spaced("", Literal(ps), "");
    assert "" + (SpellLiteral(ps) + "") == SpellLiteral(ps);
    JsonComplete.DocumentComplete(lib, d);
  }

  const LEAD: char := 0xC3 as char
  const TAIL: char := 0xA9 as char

  /** A byte that is not UTF-8 is accepted, and is then the string. */
  lemma RawByteAccepted(lib: Library)
    ensures var text := ['"', LEAD, '"'];
            Parse(lib, text) == Ok(Str([LEAD]), "") && !Utf8Text([LEAD])
  {
    hide Parse;
    var ps := [Plain(LEAD)];
    assert ps[1..] == [];
    SpelledStep(ps);
    assert SpellPieces(ps) == [LEAD] + SpellPieces([]) == [LEAD];
    assert SpellLiteral(ps) == ['"', LEAD, '"'];
    assert Decoded(ps, "") == [LEAD] + "";
    LiteralParses(lib, ps);
    LeadAlone([]);
  }

  lemma LeadAlone(s: string)
    requires s == "" || s[0] < 128 as char
    ensures !Utf8Text([LEAD] + s)
  {
    if Utf8Text([LEAD] + s) {
      HeadNeeded(Bytes([LEAD] + s));
    }
  }

  /** With an escape of U+0000 the bytes around it can join to UTF-8 that the text is not. */
  lemma JoinedAcrossNul(lib: Library)
    ensures var text := ['"', LEAD] + ("\\u0000" + [TAIL, '"']);
            Parse(lib, text).Ok? && AllUtf8(Parse(lib, text).value) && !Utf8Text(text)
  {
    hide Parse, Utf8Text;
    var ps, text := [Plain(LEAD), Unit("0000"), Plain(TAIL)], ['"', LEAD] + ("\\u0000" + [TAIL, '"']);
    JoinedPieces();
    LiteralParses(lib, ps);
    PairOfBytes();
    var s := "\\u0000" + [TAIL, '"'];
    LeadAlone(s);
    AsciiIsUtf8(['"']);
    CutFront(['"'], [LEAD] + s);
    assert text == ['"'] + ([LEAD] + s);
  }

  lemma JoinedPieces()
    ensures var ps := [Plain(LEAD), Unit("0000"), Plain(TAIL)];
            && AllPieces(ps) && Paired(ps) && Decoded(ps, "") == [LEAD, TAIL]
            && SpellLiteral(ps) == ['"', LEAD] + ("\\u0000" + [TAIL, '"'])
  {
    var ps, last := [Plain(LEAD), Unit("0000"), Plain(TAIL)], [Plain(TAIL)];
    assert ps[1..] == [Unit("0000"), Plain(TAIL)] && ps[1..][1..] == last && last[1..] == [];
    assert UnitOf("0000") == 0;
    assert Paired(last) && Paired(ps[1..]);
    assert Decoded(last, "") == [TAIL] && Decoded(ps[1..], "") == "" + [TAIL];
    SpelledStep(last);
    SpelledStep(ps[1..]);
    SpelledStep(ps);
    assert SpellPieces(last) == [TAIL] + SpellPieces([]) == [TAIL];
    assert SpellPiece(Unit("0000")) == "\\u0000";
    assert SpellPieces(ps) == [LEAD] + ("\\u0000" + [TAIL]);
  }

  lemma PairOfBytes()
    ensures Utf8Text([LEAD, TAIL])
  {
    EncodingIsUtf8(0xE9);
    assert Encode(0xE9) == [0xC3, 0xA9];
    assert Bytes([LEAD, TAIL]) == [0xC3, 0xA9];
  }
}
