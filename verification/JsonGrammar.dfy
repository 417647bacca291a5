/**
  The grammar of RFC 8259 as syntax trees and the text they spell (sections 2 to 7), apart from the parser. A tree is
  loose when its white space may also hold vertical tabs and form feeds, as `isspace` has it.
 */
module JsonGrammar {
  import opened Text
  import Json

  /** A character of a string: itself, after a backslash, or as four hexadecimal digits. */
  datatype Piece = Plain(c: char) | Short(c: char) | Unit(hex: string)

  /** A number; no fraction or exponent when its digits are empty. */
  datatype Numeral = Numeral(minus: bool, whole: string, fraction: string, mark: string, exponent: string)

  datatype Syntax =
    | Word(word: string)
    | Number(numeral: Numeral)
    | Literal(pieces: seq<Piece>)
    | List(blank: string, items: seq<Spaced>)
    | Dict(blank: string, entries: seq<Entry>)

  /** A value between white space. */
  datatype Spaced = Spaced(before: string, value: Syntax, after: string)

  datatype Entry = Entry(before: string, key: seq<Piece>, middle: string, value: Spaced)

  // ----- the text of a tree

  function SpellPiece(p: Piece): (s: string)
    ensures |s| > 0
  {
    match p
    case Plain(c) => [c]
    case Short(c) => ['\\', c]
    case Unit(hex) => ['\\', 'u'] + hex
  }

  function SpellPieces(ps: seq<Piece>): string {
    if ps == [] then "" else SpellPiece(ps[0]) + SpellPieces(ps[1..])
  }

  function SpellLiteral(ps: seq<Piece>): string {
    ['"'] + (SpellPieces(ps) + ['"'])
  }

  function SpellNumeral(n: Numeral): string {
    (if n.minus then "-" else "") + (n.whole + ((if n.fraction == "" then "" else "." + n.fraction) + (n.mark + n.exponent)))
  }

  function Spell(v: Syntax): string
    decreases v
  {
    match v
    case Word(w) => w
    case Number(n) => SpellNumeral(n)
    case Literal(ps) => SpellLiteral(ps)
    case List(blank, items) => ['['] + ((if items == [] then blank else SpellItems(items)) + [']'])
    case Dict(blank, entries) => ['{'] + ((if entries == [] then blank else SpellEntries(entries)) + ['}'])
  }

  function SpellSpaced(e: Spaced): string
    decreases e
  {
    e.before + (Spell(e.value) + e.after)
  }

  function SpellItems(items: seq<Spaced>): string
    decreases items
  {
    if items == [] then ""
    else SpellSpaced(items[0]) + (if |items| == 1 then "" else [','] + SpellItems(items[1..]))
  }

  function SpellEntry(e: Entry): string
    decreases e
  {
    e.before + (SpellLiteral(e.key) + (e.middle + ([':'] + SpellSpaced(e.value))))
  }

  function SpellEntries(entries: seq<Entry>): string
    decreases entries
  {
    if entries == [] then ""
    else SpellEntry(entries[0]) + (if |entries| == 1 then "" else [','] + SpellEntries(entries[1..]))
  }

  // ----- what the grammar allows

  predicate IsBlank(c: char, loose: bool) {
    c == ' ' || c == '\t' || c == '\n' || c == '\r' || (loose && (c == '\U{B}' || c == FORM_FEED))
  }

  predicate AllBlank(s: string, loose: bool) {
    forall i :: 0 <= i < |s| ==> IsBlank(s[i], loose)
  }

  predicate IsHex(c: char) {
    '0' <= c <= '9' || 'a' <= c <= 'f' || 'A' <= c <= 'F'
  }

  predicate IsPiece(p: Piece) {
    match p
    case Plain(c) => c >= ' ' && c != '"' && c != '\\'
    case Short(c) => c in ['"', '\\', '/', 'b', 'f', 'n', 'r', 't']
    case Unit(hex) => |hex| == 4 && forall i :: 0 <= i < 4 ==> IsHex(hex[i])
  }

  predicate AllPieces(ps: seq<Piece>) {
    forall i :: 0 <= i < |ps| ==> IsPiece(ps[i])
  }

  predicate IsWhole(s: string) {
    s == "0" || (s != "" && AllDigits(s) && s[0] != '0')
  }

  predicate IsMark(s: string) {
    (|s| == 1 || (|s| == 2 && (s[1] == '+' || s[1] == '-'))) && (s[0] == 'e' || s[0] == 'E')
  }

  predicate IsNumeral(n: Numeral) {
    && IsWhole(n.whole) && AllDigits(n.fraction) && AllDigits(n.exponent)
    && if n.exponent == "" then n.mark == "" else IsMark(n.mark)
  }

  predicate IsSyntax(v: Syntax, loose: bool)
    decreases v
  {
    match v
    case Word(w) => w == "null" || w == "true" || w == "false"
    case Number(n) => IsNumeral(n)
    case Literal(ps) => AllPieces(ps)
    case List(blank, items) => if items == [] then AllBlank(blank, loose) else blank == "" && AllItems(items, loose)
    case Dict(blank, entries) => if entries == [] then AllBlank(blank, loose) else blank == "" && AllEntries(entries, loose)
  }

  predicate IsItem(e: Spaced, loose: bool)
    decreases e
  {
    AllBlank(e.before, loose) && IsSyntax(e.value, loose) && AllBlank(e.after, loose)
  }

  predicate AllItems(items: seq<Spaced>, loose: bool)
    decreases items
  {
    items != [] ==> IsItem(items[0], loose) && AllItems(items[1..], loose)
  }

  predicate IsEntry(e: Entry, loose: bool)
    decreases e
  {
    AllBlank(e.before, loose) && AllPieces(e.key) && AllBlank(e.middle, loose) && IsItem(e.value, loose)
  }

  predicate AllEntries(entries: seq<Entry>, loose: bool)
    decreases entries
  {
    entries != [] ==> IsEntry(entries[0], loose) && AllEntries(entries[1..], loose)
  }

  // ----- the parser's limits on it

  function DigitOf(c: char): int {
    if '0' <= c <= '9' then c as int - '0' as int
    else if c == 'a' || c == 'A' then 10
    else if c == 'b' || c == 'B' then 11
    else if c == 'c' || c == 'C' then 12
    else if c == 'd' || c == 'D' then 13
    else if c == 'e' || c == 'E' then 14
    else if c == 'f' || c == 'F' then 15
    else -1
  }

  lemma DigitOfIs(c: char)
    ensures DigitOf(c) == Json.HexValue(c)
  {
  }

  lemma UnitOfIs(hex: string)
    requires |hex| == 4
    ensures UnitOf(hex) == Json.HexValue(hex[0]) * 0x1000 + Json.HexValue(hex[1]) * 0x100 + Json.HexValue(hex[2]) * 0x10 + Json.HexValue(hex[3])
  {
    hide DigitOf, Json.HexValue;
    DigitOfIs(hex[0]);
    DigitOfIs(hex[1]);
    DigitOfIs(hex[2]);
    DigitOfIs(hex[3]);
  }

  /** The code unit that four hexadecimal digits give. */
  function UnitOf(hex: string): int
    requires |hex| == 4
  {
    DigitOf(hex[0]) * 0x1000 + DigitOf(hex[1]) * 0x100 + DigitOf(hex[2]) * 0x10 + DigitOf(hex[3])
  }

  predicate IsHigh(p: Piece) {
    p.Unit? && |p.hex| == 4 && 0xD800 <= UnitOf(p.hex) <= 0xDBFF
  }

  predicate IsLow(p: Piece) {
    p.Unit? && |p.hex| == 4 && 0xDC00 <= UnitOf(p.hex) <= 0xDFFF
  }

  /** Surrogates come in pairs, high before low. */
  predicate Paired(ps: seq<Piece>)
    decreases |ps|
  {
    ps == [] ||
    if IsHigh(ps[0]) then |ps| >= 2 && IsLow(ps[1]) && Paired(ps[2..])
    else !IsLow(ps[0]) && Paired(ps[1..])
  }

  /** Nested at most 64 deep, surrogates paired, and every number one that `strtod` converts. */
  predicate Within(lib: Json.Library, v: Syntax, depth: nat)
    decreases v
  {
    depth < 64 &&
    match v
    case Word(_) => true
    case Number(n) => lib.strtod(SpellNumeral(n)).Some?
    case Literal(ps) => Paired(ps)
    case List(_, items) => ItemsWithin(lib, items, depth + 1)
    case Dict(_, entries) => EntriesWithin(lib, entries, depth + 1)
  }

  predicate ItemsWithin(lib: Json.Library, items: seq<Spaced>, depth: nat)
    decreases items
  {
    items != [] ==> Within(lib, items[0].value, depth) && ItemsWithin(lib, items[1..], depth)
  }

  predicate EntriesWithin(lib: Json.Library, entries: seq<Entry>, depth: nat)
    decreases entries
  {
    entries != [] ==>
      Paired(entries[0].key) && Within(lib, entries[0].value.value, depth) && EntriesWithin(lib, entries[1..], depth)
  }

  /** A document that the parser takes: a loose tree within the limits that spells the text. */
  predicate IsDocument(lib: Json.Library, d: Spaced, text: string) {
    IsItem(d, true) && Within(lib, d.value, 0) && SpellSpaced(d) == text
  }

  // ----- white space of RFC 8259 only

  /** Neither a vertical tab nor a form feed. */
  predicate NoOddSpace(s: string) {
    forall i :: 0 <= i < |s| ==> s[i] != '\U{B}' && s[i] != FORM_FEED
  }

  lemma OddParts(a: string, b: string)
    requires NoOddSpace(a + b)
    ensures NoOddSpace(a) && NoOddSpace(b)
  {
    assert forall i :: 0 <= i < |a| ==> (a + b)[i] == a[i];
    forall i | 0 <= i < |b|
      ensures b[i] != '\U{B}' && b[i] != FORM_FEED
    {
      assert (a + b)[|a| + i] == b[i];
    }
  }

  lemma BlankIsStrict(s: string)
    requires AllBlank(s, true) && NoOddSpace(s)
    ensures AllBlank(s, false)
  {
  }

  lemma {:induction false} SyntaxIsStrict(v: Syntax)
    requires IsSyntax(v, true) && NoOddSpace(Spell(v))
    ensures IsSyntax(v, false)
    decreases v, 1
  {
    hide NoOddSpace, AllBlank;
    match v
    case List(blank, items) =>
      var inside := if items == [] then blank else SpellItems(items);
      OddParts(['['], inside + [']']);
      OddParts(inside, [']']);
      if items == [] {
        BlankIsStrict(blank);
      } else {
        ItemsAreStrict(items);
      }
    case Dict(blank, entries) =>
      var inside := if entries == [] then blank else SpellEntries(entries);
      OddParts(['{'], inside + ['}']);
      OddParts(inside, ['}']);
      if entries == [] {
        BlankIsStrict(blank);
      } else {
        EntriesAreStrict(entries);
      }
    case _ =>
  }

  lemma {:induction false} ItemIsStrict(e: Spaced)
    requires IsItem(e, true) && NoOddSpace(SpellSpaced(e))
    ensures IsItem(e, false)
    decreases e, 1
  {
    hide NoOddSpace, AllBlank;
    OddParts(e.before, Spell(e.value) + e.after);
    OddParts(Spell(e.value), e.after);
    BlankIsStrict(e.before);
    SyntaxIsStrict(e.value);
    BlankIsStrict(e.after);
  }

  lemma {:induction false} ItemsAreStrict(items: seq<Spaced>)
    requires AllItems(items, true) && NoOddSpace(SpellItems(items))
    ensures AllItems(items, false)
    decreases items, 1
  {
    hide NoOddSpace, AllBlank;
    if items != [] {
      var more := if |items| == 1 then "" else [','] + SpellItems(items[1..]);
      OddParts(SpellSpaced(items[0]), more);
      ItemIsStrict(items[0]);
      if |items| > 1 {
        OddParts([','], SpellItems(items[1..]));
        ItemsAreStrict(items[1..]);
      } else {
        assert items[1..] == [];
      }
    }
  }

  lemma {:induction false} EntriesAreStrict(entries: seq<Entry>)
    requires AllEntries(entries, true) && NoOddSpace(SpellEntries(entries))
    ensures AllEntries(entries, false)
    decreases entries, 1
  {
    hide NoOddSpace, AllBlank;
    if entries != [] {
      var e, more := entries[0], if |entries| == 1 then "" else [','] + SpellEntries(entries[1..]);
      OddParts(SpellEntry(e), more);
      var value := SpellSpaced(e.value);
      OddParts(e.before, SpellLiteral(e.key) + (e.middle + ([':'] + value)));
      OddParts(SpellLiteral(e.key), e.middle + ([':'] + value));
      OddParts(e.middle, [':'] + value);
      OddParts([':'], value);
      BlankIsStrict(e.before);
      BlankIsStrict(e.middle);
      ItemIsStrict(e.value);
      if |entries| > 1 {
        OddParts([','], SpellEntries(entries[1..]));
        EntriesAreStrict(entries[1..]);
      } else {
        assert entries[1..] == [];
      }
    }
  }

  // ----- a strict tree spells neither of the two

  lemma OddJoin(a: string, b: string)
    requires NoOddSpace(a) && NoOddSpace(b)
    ensures NoOddSpace(a + b)
  {
  }

  lemma {:induction false} PiecesHaveNoOdd(ps: seq<Piece>)
    requires AllPieces(ps)
    ensures NoOddSpace(SpellPieces(ps))
  {
    if ps != [] {
      assert NoOddSpace(SpellPiece(ps[0]));
      PiecesHaveNoOdd(ps[1..]);
      OddJoin(SpellPiece(ps[0]), SpellPieces(ps[1..]));
    }
  }

  lemma LiteralHasNoOdd(ps: seq<Piece>)
    requires AllPieces(ps)
    ensures NoOddSpace(SpellLiteral(ps))
  {
    hide SpellPieces;
    PiecesHaveNoOdd(ps);
  }

  lemma DigitsHaveNoOdd(s: string)
    requires AllDigits(s)
    ensures NoOddSpace(s) && NoOddSpace("." + s)
  {
  }

  lemma MarkHasNoOdd(s: string)
    requires s == "" || IsMark(s)
    ensures NoOddSpace(s)
  {
  }

  lemma NumeralHasNoOdd(n: Numeral)
    requires IsNumeral(n)
    ensures NoOddSpace(SpellNumeral(n))
  {
    hide NoOddSpace, AllDigits;
    NoOddSigns();
    DigitsHaveNoOdd(n.whole);
    DigitsHaveNoOdd(n.fraction);
    DigitsHaveNoOdd(n.exponent);
    MarkHasNoOdd(n.mark);
    OddJoin(n.mark, n.exponent);
    OddJoin(if n.fraction == "" then "" else "." + n.fraction, n.mark + n.exponent);
    OddJoin(n.whole, (if n.fraction == "" then "" else "." + n.fraction) + (n.mark + n.exponent));
    OddJoin(if n.minus then "-" else "", n.whole + ((if n.fraction == "" then "" else "." + n.fraction) + (n.mark + n.exponent)));
  }

  lemma NoOddSigns()
    ensures NoOddSpace("") && NoOddSpace("-") && AllDigits("0")
  {
  }

  lemma WordHasNoOdd(w: string)
    requires w == "null" || w == "true" || w == "false"
    ensures NoOddSpace(w)
  {
  }

  lemma BracketedHasNoOdd(open: char, inside: string, close: char)
    requires NoOddSpace([open]) && NoOddSpace(inside) && NoOddSpace([close])
    ensures NoOddSpace([open] + (inside + [close]))
  {
    OddJoin(inside, [close]);
    OddJoin([open], inside + [close]);
  }

  lemma BracketsAreNotOdd()
    ensures NoOddSpace(['[']) && NoOddSpace([']']) && NoOddSpace(['{']) && NoOddSpace(['}'])
  {
  }

  lemma BlankHasNoOdd(s: string)
    requires AllBlank(s, false)
    ensures NoOddSpace(s)
  {
  }

  lemma {:induction false} SyntaxHasNoOdd(v: Syntax)
    requires IsSyntax(v, false)
    ensures NoOddSpace(Spell(v))
    decreases v, 1
  {
    hide SpellNumeral, SpellLiteral, IsNumeral, AllPieces, NoOddSpace, AllBlank, SpellItems, SpellEntries, AllItems, AllEntries;
    BracketsAreNotOdd();
    match v
    case Word(w) => WordHasNoOdd(w);
    case Number(n) => NumeralHasNoOdd(n);
    case Literal(ps) => LiteralHasNoOdd(ps);
    case List(blank, items) =>
      if items == [] {
        BlankHasNoOdd(blank);
        BracketedHasNoOdd('[', blank, ']');
      } else {
        ItemsHaveNoOdd(items);
        BracketedHasNoOdd('[', SpellItems(items), ']');
      }
    case Dict(blank, entries) =>
      if entries == [] {
        BlankHasNoOdd(blank);
        BracketedHasNoOdd('{', blank, '}');
      } else {
        EntriesHaveNoOdd(entries);
        BracketedHasNoOdd('{', SpellEntries(entries), '}');
      }
  }

  lemma {:induction false} ItemHasNoOdd(e: Spaced)
    requires IsItem(e, false)
    ensures NoOddSpace(SpellSpaced(e))
    decreases e, 1
  {
    hide Spell, IsSyntax;
    SyntaxHasNoOdd(e.value);
  }

  lemma {:induction false} ItemsHaveNoOdd(items: seq<Spaced>)
    requires AllItems(items, false)
    ensures NoOddSpace(SpellItems(items))
    decreases items, 1
  {
    hide SpellSpaced, IsItem;
    if items != [] {
      ItemHasNoOdd(items[0]);
      ItemsHaveNoOdd(items[1..]);
    }
  }

  lemma {:induction false} EntryHasNoOdd(e: Entry)
    requires IsEntry(e, false)
    ensures NoOddSpace(SpellEntry(e))
    decreases e, 1
  {
    hide SpellSpaced, IsItem, SpellLiteral, AllPieces;
    LiteralHasNoOdd(e.key);
    ItemHasNoOdd(e.value);
  }

  lemma {:induction false} EntriesHaveNoOdd(entries: seq<Entry>)
    requires AllEntries(entries, false)
    ensures NoOddSpace(SpellEntries(entries))
    decreases entries, 1
  {
    hide SpellEntry, IsEntry;
    if entries != [] {
      EntryHasNoOdd(entries[0]);
      EntriesHaveNoOdd(entries[1..]);
    }
  }
}
