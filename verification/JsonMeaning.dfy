/**
  What a syntax tree of RFC 8259 stands for, given what the escape of U+0000 adds to a string: the character itself, or
  nothing, as for the parser, whose strings are C strings.
 */
module JsonMeaning {
  import opened Text
  import opened Utf8
  import opened JsonGrammar
  import Json

  const NUL: string := ['\0']

  /** The character after a backslash, section 7. */
  function Unescaped(c: char): char {
    if c == 'b' then BACKSPACE
    else if c == 'f' then FORM_FEED
    else if c == 'n' then '\n'
    else if c == 'r' then '\r'
    else if c == 't' then '\t'
    else c
  }

  /** The code point of a surrogate pair. */
  function PairOf(high: Piece, low: Piece): (c: int)
    requires IsHigh(high) && IsLow(low)
    ensures 0x1_0000 <= c <= 0x10FFFF
  {
    0x1_0000 + (UnitOf(high.hex) - 0xD800) * 0x400 + (UnitOf(low.hex) - 0xDC00)
  }

  /** The UTF-8 of a code point, as characters. */
  function CharsOf(c: int): string
    requires IsScalar(c)
  {
    var bs := Encode(c);
    seq(|bs|, i requires 0 <= i < |bs| => bs[i] as char)
  }

  lemma CharsOfIs(c: int)
    requires IsScalar(c) && c != 0
    ensures CharsOf(c) == Json.CodepointText(c)
  {
  }

  predicate IsNulUnit(p: Piece) {
    p.Unit? && |p.hex| == 4 && UnitOf(p.hex) == 0
  }

  /** The bytes of one piece that is not half of a pair. */
  function PieceText(p: Piece, nul: string): string {
    match p
    case Plain(c) => [c]
    case Short(c) => [Unescaped(c)]
    case Unit(hex) =>
      if IsNulUnit(p) then nul
      else if |hex| == 4 && IsScalar(UnitOf(hex)) then CharsOf(UnitOf(hex))
      else ""
  }

  function Decoded(ps: seq<Piece>, nul: string): string
    decreases |ps|
  {
    if ps == [] then ""
    else if |ps| >= 2 && IsHigh(ps[0]) && IsLow(ps[1]) then CharsOf(PairOf(ps[0], ps[1])) + Decoded(ps[2..], nul)
    else PieceText(ps[0], nul) + Decoded(ps[1..], nul)
  }

  function WordValue(w: string): Json.Value {
    if w == "null" then Json.Null else Json.Bool(w == "true")
  }

  /** An integer of 64 bits is kept exactly, when it is written without a fraction and an exponent. */
  function NumberValue(lib: Json.Library, n: Numeral): Json.Value {
    var text := SpellNumeral(n);
    match lib.strtod(text)
    case None => Json.Null
    case Some(x) =>
      if n.fraction == "" && n.exponent == "" && Json.IntegerText(text) && -0x8000_0000_0000_0000 <= Json.IntegerValue(text) <= 0x7FFF_FFFF_FFFF_FFFF then
        Json.Num(Json.Number.Number(x, Json.IntegerValue(text), true))
      else Json.Num(Json.Number.Number(x, 0, false))
  }

  function Meaning(lib: Json.Library, v: Syntax, nul: string): Json.Value
    decreases v
  {
    match v
    case Word(w) => WordValue(w)
    case Number(n) => NumberValue(lib, n)
    case Literal(ps) => Json.Str(Decoded(ps, nul))
    case List(_, items) => Json.Arr(ItemMeanings(lib, items, nul))
    case Dict(_, entries) => Json.Obj(EntryMeanings(lib, entries, nul))
  }

  function ItemMeanings(lib: Json.Library, items: seq<Spaced>, nul: string): seq<Json.Value>
    decreases items
  {
    if items == [] then [] else [Meaning(lib, items[0].value, nul)] + ItemMeanings(lib, items[1..], nul)
  }

  /** The members in order, repeated keys included. */
  function EntryMeanings(lib: Json.Library, entries: seq<Entry>, nul: string): seq<Json.Member>
    decreases entries
  {
    if entries == [] then []
    else
      var e := entries[0];
      [Json.Member(Decoded(e.key, nul), Meaning(lib, e.value.value, nul))] + EntryMeanings(lib, entries[1..], nul)
  }

  // ----- one piece at a time

  lemma DecodedStep(ps: seq<Piece>, nul: string)
    requires ps != [] && !IsHigh(ps[0])
    ensures Decoded(ps, nul) == PieceText(ps[0], nul) + Decoded(ps[1..], nul)
  {
  }

  lemma DecodedPair(ps: seq<Piece>, nul: string)
    requires |ps| >= 2 && IsHigh(ps[0]) && IsLow(ps[1])
    ensures Decoded(ps, nul) == CharsOf(PairOf(ps[0], ps[1])) + Decoded(ps[2..], nul)
  {
  }
}
