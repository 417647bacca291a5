/**
  Every document of the grammar within the parser's limits is accepted and parsed to what it stands for; so acceptance is
  exactly that.
 */
module JsonComplete {
  import opened Text
  import opened Utf8
  import opened Json
  import opened G = JsonGrammar
  import opened JsonMeaning
  import JsonSound

  // ----- strings

  lemma UnitComplete(hex: string, post: string)
    requires IsPiece(Unit(hex))
    ensures 0 <= UnitOf(hex) < 0x1_0000 && CodeUnit(hex + post) == Ok(UnitOf(hex), post)
  {
    UnitOfIs(hex);
    assert (hex + post)[4..] == post;
  }

  lemma UnicodeComplete(hex: string, post: string)
    requires IsPiece(Unit(hex)) && !IsHigh(Unit(hex)) && !IsLow(Unit(hex))
    ensures ParseUnicode(hex + post) == Ok(PieceText(Unit(hex), ""), post)
  {
    hide CodeUnit, UnitOf, Encode, CharsOf;
    if IsScalar(UnitOf(hex)) && UnitOf(hex) != 0 {
      CharsOfIs(UnitOf(hex));
    }
    UnitComplete(hex, post);
  }

  lemma PairComplete(high: string, low: string, post: string)
    requires IsPiece(Unit(high)) && IsPiece(Unit(low)) && IsHigh(Unit(high)) && IsLow(Unit(low))
    ensures ParseUnicode(high + (['\\', 'u'] + (low + post))) == Ok(CharsOf(PairOf(Unit(high), Unit(low))), post)
  {
    hide CodeUnit, CodepointText, UnitOf, CharsOf;
    CharsOfIs(PairOf(Unit(high), Unit(low)));
    var t := ['\\', 'u'] + (low + post);
    UnitComplete(high, t);
    UnitComplete(low, post);
    assert t[2..] == low + post;
  }

  /** A backslash and an escape that is taken leave the rest of the string. */
  lemma EscapeStep(t: string, bytes: string, more: string, out: string)
    requires t != "" && ParseEscape(t) == Ok(bytes, more)
    ensures ParseChars(['\\'] + t, out) == ParseChars(more, out + bytes)
  {
    hide ParseEscape;
    assert (['\\'] + t)[1..] == t;
  }

  lemma PlainStep(c: char, more: string, out: string)
    requires IsPiece(Plain(c))
    ensures ParseChars([c] + more, out) == ParseChars(more, out + [c])
  {
    assert ([c] + more)[1..] == more;
  }

  lemma ShortComplete(c: char, more: string)
    requires IsPiece(Short(c))
    ensures ParseEscape([c] + more) == Ok(PieceText(Short(c), ""), more)
  {
    hide ParseUnicode;
    assert ([c] + more)[1..] == more;
  }

  lemma UnitEscape(s: string)
    ensures ParseEscape(['u'] + s) == ParseUnicode(s)
  {
    hide ParseUnicode;
    assert (['u'] + s)[1..] == s;
  }

  lemma EndOfString(post: string, out: string)
    ensures ParseChars(['"'] + post, out) == Ok(out, post)
  {
    assert (['"'] + post)[1..] == post;
  }

  lemma NoPieces(end: string)
    ensures SpellPieces([]) + end == end && Decoded([], "") == ""
  {
  }

  lemma FirstPiece(ps: seq<Piece>, end: string)
    requires ps != []
    ensures SpellPieces(ps) + end == SpellPiece(ps[0]) + (SpellPieces(ps[1..]) + end)
  {
    hide SpellPiece;
    Regroup(SpellPiece(ps[0]), SpellPieces(ps[1..]), end, "");
  }

  lemma UnitText(hex: string, more: string)
    ensures SpellPiece(Unit(hex)) + more == ['\\'] + (['u'] + (hex + more))
  {
  }

  lemma ShortText(c: char, more: string)
    ensures SpellPiece(Short(c)) + more == ['\\'] + ([c] + more)
  {
  }

  lemma {:induction false} CharsComplete(ps: seq<Piece>, post: string, out: string)
    requires AllPieces(ps) && Paired(ps)
    ensures ParseChars(SpellPieces(ps) + (['"'] + post), out) == Ok(out + Decoded(ps, ""), post)
    decreases |ps|
  {
    hide ParseUnicode, ParseChars, ParseEscape, IsHigh, IsLow, IsPiece, SpellPieces, PieceText, Decoded, CharsOf;
    var end := ['"'] + post;
    if ps == [] {
      NoPieces(end);
      EndOfString(post, out);
      assert out + "" == out;
    } else {
      var p, more := ps[0], SpellPieces(ps[1..]) + end;
      FirstPiece(ps, end);
      if IsHigh(p) {
        var q, rest, c := ps[1], SpellPieces(ps[2..]) + end, CharsOf(PairOf(p, ps[1]));
        HalvesAreUnits(p, q);
        assert ps[1..][1..] == ps[2..] && ps[1..][0] == q;
        FirstPiece(ps[1..], end);
        PairStep(p, q, rest, out);
        CharsComplete(ps[2..], post, out + c);
        DecodedPair(ps, "");
        Regroup(out, c, Decoded(ps[2..], ""), "");
      } else {
        PieceStep(p, more, out);
        CharsComplete(ps[1..], post, out + PieceText(p, ""));
        DecodedStep(ps, "");
        Regroup(out, PieceText(p, ""), Decoded(ps[1..], ""), "");
      }
    }
  }

  lemma PieceStep(p: Piece, more: string, out: string)
    requires IsPiece(p) && !IsHigh(p) && !IsLow(p)
    ensures ParseChars(SpellPiece(p) + more, out) == ParseChars(more, out + PieceText(p, ""))
  {
    hide ParseUnicode, ParseChars, ParseEscape, IsHigh, IsLow, IsPiece, CharsOf;
    match p
    case Plain(c) =>
      PlainStep(c, more, out);
    case Short(c) =>
      ShortComplete(c, more);
      EscapeStep([c] + more, PieceText(p, ""), more, out);
      ShortText(c, more);
    case Unit(hex) =>
      UnitText(hex, more);
      UnicodeComplete(hex, more);
      UnitEscape(hex + more);
      EscapeStep(['u'] + (hex + more), PieceText(p, ""), more, out);
  }

  lemma PairStep(p: Piece, q: Piece, rest: string, out: string)
    requires IsPiece(p) && IsPiece(q) && IsHigh(p) && IsLow(q)
    ensures ParseChars(SpellPiece(p) + (SpellPiece(q) + rest), out) == ParseChars(rest, out + CharsOf(PairOf(p, q)))
  {
    hide ParseUnicode, ParseChars, ParseEscape, IsPiece, CharsOf, UnitOf;
    var more := SpellPiece(q) + rest;
    UnitText(p.hex, more);
    Regroup(['\\', 'u'], q.hex, rest, "");
    PairComplete(p.hex, q.hex, rest);
    UnitEscape(p.hex + more);
    EscapeStep(['u'] + (p.hex + more), CharsOf(PairOf(p, q)), rest, out);
  }

  lemma HalvesAreUnits(p: Piece, q: Piece)
    requires IsHigh(p) && IsLow(q)
    ensures p.Unit? && q.Unit?
  {
  }

  lemma LiteralComplete(ps: seq<Piece>, post: string)
    requires AllPieces(ps) && Paired(ps)
    ensures ParseString(SpellLiteral(ps) + post) == Ok(Decoded(ps, ""), post)
  {
    hide ParseChars, SpellPieces, Paired, AllPieces, Decoded;
    var s := SpellLiteral(ps) + post;
    assert s == ['"'] + (SpellPieces(ps) + (['"'] + post));
    assert s[1..] == SpellPieces(ps) + (['"'] + post);
    CharsComplete(ps, post, "");
    assert "" + Decoded(ps, "") == Decoded(ps, "");
  }

  // ----- numbers

  predicate NoDigit(r: string) {
    r == "" || !IsDigit(r[0])
  }

  lemma WholeComplete(minus: bool, whole: string, r: string)
    requires IsWhole(whole) && NoDigit(r)
    ensures var sign := if minus then "-" else "";
            Whole(sign + (whole + r)) == Token(|sign| + |whole|, true)
  {
    hide DigitRun;
    var sign := if minus then "-" else "";
    var s := sign + (whole + r);
    assert s[|sign|..] == whole + r && s[|sign|] == whole[0];
    assert IsDigit(whole[0]);
    if whole != "0" {
      DigitRunOf(whole, r);
    }
  }

  lemma FractionComplete(a: string, digits: string, r: string, integer: bool)
    requires AllDigits(digits) && NoDigit(r) && (r != "" ==> r[0] != '.')
    ensures var f := if digits == "" then "" else "." + digits;
            Fraction(a + (f + r), Token(|a|, integer)) == Token(|a| + |f|, integer && digits == "")
  {
    hide DigitRun;
    var f := if digits == "" then "" else "." + digits;
    var s := a + (f + r);
    if digits == "" {
      assert f + r == r;
      assert r != "" ==> s[|a|] == r[0];
    } else {
      assert s[|a|] == '.' && s[|a| + 1] == digits[0];
      assert s[|a| + 1..] == digits + r;
      DigitRunOf(digits, r);
    }
  }

  lemma ExponentComplete(a: string, mark: string, digits: string, r: string, integer: bool)
    requires AllDigits(digits) && NoDigit(r) && (if digits == "" then mark == "" else IsMark(mark))
    requires r != "" ==> r[0] != 'e' && r[0] != 'E'
    ensures Exponent(a + (mark + digits + r), Token(|a|, integer)) == Token(|a| + |mark| + |digits|, integer && digits == "")
  {
    hide DigitRun;
    var s := a + (mark + digits + r);
    if digits == "" {
      assert mark + digits + r == r;
      assert r != "" ==> s[|a|] == r[0];
    } else {
      assert s[|a|] == mark[0];
      assert |mark| == 2 ==> s[|a| + 1] == mark[1];
      assert |mark| == 1 ==> s[|a| + 1] == digits[0];
      assert s[|a| + |mark|] == digits[0];
      assert s[|a| + |mark|..] == digits + r;
      DigitRunOf(digits, r);
    }
  }

  /** What may follow a value. */
  predicate Ends(post: string) {
    post == "" || post[0] == ',' || post[0] == ']' || post[0] == '}' || IsSpace(post[0])
  }

  lemma NumeralText(sign: string, whole: string, f: string, e: string, post: string)
    ensures var s := sign + (whole + (f + e)) + post;
            s == sign + (whole + (f + (e + post))) && s == sign + whole + (f + (e + post)) && s == sign + whole + f + (e + post)
  {
    Regroup(f, e, post, "");
    Regroup(whole, f + e, post, "");
    Regroup(sign, whole + (f + e), post, "");
    Regroup(sign, whole, f + (e + post), "");
    Regroup(sign + whole, f, e + post, "");
  }

  lemma NumeralComplete(n: Numeral, post: string)
    requires IsNumeral(n) && Ends(post)
    ensures NumberToken(SpellNumeral(n) + post) == Token(|SpellNumeral(n)|, n.fraction == "" && n.exponent == "")
  {
    hide Whole, Fraction, Exponent, IsMark, IsWhole, Ends, NoDigit, SpellNumeral, AllDigits;
    SpelledNumeral(n);
    var sign := if n.minus then "-" else "";
    var f := if n.fraction == "" then "" else "." + n.fraction;
    var e := n.mark + n.exponent;
    NumeralText(sign, n.whole, f, e, post);
    MarkStarts(n.mark, n.exponent, post);
    PointStarts(f, e + post);
    WholeComplete(n.minus, n.whole, f + (e + post));
    FractionComplete(sign + n.whole, n.fraction, e + post, true);
    ExponentComplete(sign + n.whole + f, n.mark, n.exponent, post, n.fraction == "");
  }

  lemma SpelledNumeral(n: Numeral)
    ensures var sign, f := if n.minus then "-" else "", if n.fraction == "" then "" else "." + n.fraction;
            SpellNumeral(n) == sign + (n.whole + (f + (n.mark + n.exponent)))
            && |SpellNumeral(n)| == |sign + n.whole + f| + |n.mark| + |n.exponent|
  {
  }

  lemma PointStarts(f: string, r: string)
    requires NoDigit(r) && (f == "" || f[0] == '.')
    ensures NoDigit(f + r)
  {
    assert f == "" ==> f + r == r;
  }

  lemma MarkStarts(mark: string, digits: string, post: string)
    requires Ends(post) && (if digits == "" then mark == "" else IsMark(mark))
    ensures var r := mark + digits + post; NoDigit(r) && (r != "" ==> r[0] != '.')
    ensures NoDigit(post) && (post != "" ==> post[0] != 'e' && post[0] != 'E')
  {
    var r := mark + digits + post;
    assert digits == "" ==> r == post;
    assert digits != "" ==> r[0] == mark[0];
  }

  // ----- values

  lemma {:induction false} SkipBlank(blank: string, s: string)
    requires AllBlank(blank, true) && (s == "" || !IsSpace(s[0]))
    ensures SkipSpace(blank + s) == s
  {
    if blank == "" {
      assert blank + s == s;
    } else {
      assert (blank + s)[1..] == blank[1..] + s;
      SkipBlank(blank[1..], s);
    }
  }

  /** Where a value starts, it is not white space nor a closing bracket. */
  lemma ValueStarts(v: Syntax)
    requires IsSyntax(v, true)
    ensures var s := Spell(v); s != "" && !IsSpace(s[0]) && s[0] != ']'
  {
    match v
    case Number(n) =>
      var s := SpellNumeral(n);
      assert s[0] == if n.minus then '-' else n.whole[0];
    case _ =>
  }

  lemma WordComplete(lib: Library, w: string, post: string)
    requires w == "null" || w == "true" || w == "false"
    ensures ParseScalar(lib, w + post) == Ok(WordValue(w), post)
  {
    hide ParseString, ParseNumber;
    var s := w + post;
    assert s[..|w|] == w && s[|w|..] == post && s[0] == w[0];
    assert |s| >= 4 ==> s[..4][0] == s[0];
    assert |s| >= 5 ==> s[..5][0] == s[0];
  }

  lemma NumberComplete(lib: Library, n: Numeral, post: string)
    requires IsNumeral(n) && Ends(post) && lib.strtod(SpellNumeral(n)).Some?
    ensures ParseScalar(lib, SpellNumeral(n) + post) == Ok(NumberValue(lib, n), post)
  {
    hide NumberToken, ParseString, StartsWith, SpellNumeral, IntegerValue;
    var s := SpellNumeral(n) + post;
    NumeralComplete(n, post);
    assert s[..|SpellNumeral(n)|] == SpellNumeral(n) && s[|SpellNumeral(n)|..] == post;
    NumeralStarts(n);
    NotAWord(s);
  }

  lemma NumeralStarts(n: Numeral)
    requires IsNumeral(n)
    ensures var s := SpellNumeral(n); s != "" && (s[0] == '-' || IsDigit(s[0]))
  {
    assert IsDigit(n.whole[0]);
    assert SpellNumeral(n)[0] == if n.minus then '-' else n.whole[0];
  }

  lemma ScalarComplete(lib: Library, v: Syntax, post: string, depth: nat)
    requires IsSyntax(v, true) && Within(lib, v, depth) && Ends(post) && !v.List? && !v.Dict?
    ensures ParseScalar(lib, Spell(v) + post) == Ok(Meaning(lib, v, ""), post)
  {
    hide ParseScalar, SpellNumeral, SpellLiteral, IsNumeral, AllPieces, Paired, Ends, NumberValue, Decoded;
    match v
    case Word(w) => WordComplete(lib, w, post);
    case Number(n) => NumberComplete(lib, n, post);
    case Literal(ps) =>
      LiteralComplete(ps, post);
      QuotedScalar(lib, ps, post);
  }

  lemma QuotedScalar(lib: Library, ps: seq<Piece>, post: string)
    requires ParseString(SpellLiteral(ps) + post) == Ok(Decoded(ps, ""), post)
    ensures ParseScalar(lib, SpellLiteral(ps) + post) == Ok(Str(Decoded(ps, "")), post)
  {
    hide ParseString, ParseNumber;
  }

  /** Reading a value skips white space first, so what is skipped before does not matter. */
  lemma SkipsFirst(lib: Library, s: string, depth: nat)
    ensures ParseValue(lib, SkipSpace(s), depth) == ParseValue(lib, s, depth)
  {
    hide ParseArray, ParseObject, ParseScalar, SkipSpace;
    SkipTwice(s);
  }

  lemma SkipTwice(s: string)
    ensures SkipSpace(SkipSpace(s)) == SkipSpace(s)
  {
  }

  lemma ItemsSkipFirst(lib: Library, s: string, depth: nat, done: seq<Value>)
    ensures ParseItems(lib, SkipSpace(s), depth, done) == ParseItems(lib, s, depth, done)
  {
    hide ParseValue, SkipSpace;
    SkipsFirst(lib, s, depth);
  }

  lemma {:induction false} ValueComplete(lib: Library, before: string, v: Syntax, post: string, depth: nat)
    requires AllBlank(before, true) && IsSyntax(v, true) && Within(lib, v, depth) && Ends(post)
    ensures ParseValue(lib, before + (Spell(v) + post), depth) == Ok(Meaning(lib, v, ""), post)
    decreases v, 1
  {
    hide ParseArray, ParseObject, ParseScalar, SkipSpace, AllBlank, SpellItems, SpellEntries, AllItems, AllEntries,
      ItemsWithin, EntriesWithin, Ends, ItemMeanings, EntryMeanings, NumberValue, Decoded;
    var t := Spell(v) + post;
    ValueStarts(v);
    SkipBlank(before, t);
    match v
    case List(blank, items) =>
      var inside := if items == [] then blank else SpellItems(items);
      Bracketed('[', inside, ']', post);
      NothingMeant(lib, "");
      if items == [] {
        EmptyArray(lib, blank, post, depth + 1);
      } else {
        ArrayComplete(lib, items, post, depth + 1);
      }
    case Dict(blank, entries) =>
      var inside := if entries == [] then blank else SpellEntries(entries);
      Bracketed('{', inside, '}', post);
      NothingMeant(lib, "");
      if entries == [] {
        EmptyObject(lib, blank, post, depth + 1);
      } else {
        ObjectComplete(lib, entries, post, depth + 1);
      }
    case _ =>
      ScalarComplete(lib, v, post, depth);
      ScalarStarts(v);
  }

  lemma NothingMeant(lib: Library, nul: string)
    ensures ItemMeanings(lib, [], nul) == [] && EntryMeanings(lib, [], nul) == []
  {
  }

  lemma ScalarStarts(v: Syntax)
    requires IsSyntax(v, true) && !v.List? && !v.Dict?
    ensures Spell(v) != "" && Spell(v)[0] != '[' && Spell(v)[0] != '{'
  {
    match v
    case Number(n) => NumeralStarts(n);
    case _ =>
  }

  lemma Bracketed(open: char, inside: string, close: char, post: string)
    ensures var t := [open] + (inside + [close]) + post;
            t != "" && t[0] == open && t[1..] == inside + ([close] + post)
  {
  }

  lemma EmptyArray(lib: Library, blank: string, post: string, depth: nat)
    requires AllBlank(blank, true)
    ensures ParseArray(lib, blank + ([']'] + post), depth) == Ok(Arr([]), post)
  {
    hide ParseItems, SkipSpace;
    SkipBlank(blank, [']'] + post);
    assert ([']'] + post)[1..] == post;
  }

  lemma EmptyObject(lib: Library, blank: string, post: string, depth: nat)
    requires AllBlank(blank, true)
    ensures ParseObject(lib, blank + (['}'] + post), depth) == Ok(Obj([]), post)
  {
    hide ParseMembers, SkipSpace;
    SkipBlank(blank, ['}'] + post);
    assert (['}'] + post)[1..] == post;
  }

  lemma {:induction false} ArrayComplete(lib: Library, items: seq<Spaced>, post: string, depth: nat)
    requires items != [] && AllItems(items, true) && ItemsWithin(lib, items, depth)
    ensures ParseArray(lib, SpellItems(items) + ([']'] + post), depth) == Ok(Arr(ItemMeanings(lib, items, "")), post)
    decreases items, 2
  {
    hide ParseItems, SkipSpace, AllItems, ItemsWithin, SpellItems, ItemMeanings;
    var s := SpellItems(items) + ([']'] + post);
    assert [] + ItemMeanings(lib, items, "") == ItemMeanings(lib, items, "");
    ItemsComplete(lib, items, post, depth, []);
    ItemsSkipFirst(lib, s, depth, []);
    ItemsStart(items, [']'] + post);
  }

  /** The first thing of a list of items is a value. */
  lemma ItemsStart(items: seq<Spaced>, more: string)
    requires items != [] && AllItems(items, true)
    ensures var t := SkipSpace(SpellItems(items) + more); t != "" && t[0] != ']'
  {
    hide Spell, IsSyntax, SkipSpace, AllBlank;
    var e := items[0];
    ValueStarts(e.value);
    var rest := if |items| == 1 then "" else [','] + SpellItems(items[1..]);
    assert SpellItems(items) + more == e.before + (Spell(e.value) + (e.after + (rest + more)));
    SkipBlank(e.before, Spell(e.value) + (e.after + (rest + more)));
  }

  lemma {:induction false} ItemsComplete(lib: Library, items: seq<Spaced>, post: string, depth: nat, done: seq<Value>)
    requires items != [] && AllItems(items, true) && ItemsWithin(lib, items, depth)
    ensures ParseItems(lib, SpellItems(items) + ([']'] + post), depth, done) == Ok(Arr(done + ItemMeanings(lib, items, "")), post)
    decreases items, 1
  {
    hide ParseValue, SkipSpace, AllBlank, IsSyntax, Within, Spell, Ends, Meaning, ItemMeanings;
    var e, end := items[0], [']'] + post;
    var tail := if |items| == 1 then end else [','] + (SpellItems(items[1..]) + end);
    var s := SpellItems(items) + end;
    FirstItem(items, end);
    BlankEnds(e.after, tail);
    ValueComplete(lib, e.before, e.value, e.after + tail, depth);
    SkipBlank(e.after, tail);
    assert tail[1..] == if |items| == 1 then post else SpellItems(items[1..]) + end;
    ItemsMeant(lib, items, done);
    if |items| > 1 {
      var item := Meaning(lib, e.value, "");
      ItemsComplete(lib, items[1..], post, depth, done + [item]);
      ItemsSkipFirst(lib, tail[1..], depth, done + [item]);
    }
  }

  lemma ItemsMeant(lib: Library, items: seq<Spaced>, done: seq<Value>)
    requires items != []
    ensures done + ItemMeanings(lib, items, "") == done + [Meaning(lib, items[0].value, "")] + ItemMeanings(lib, items[1..], "")
    ensures |items| == 1 ==> done + ItemMeanings(lib, items, "") == done + [Meaning(lib, items[0].value, "")]
  {
    hide Meaning;
  }

  lemma FirstItem(items: seq<Spaced>, end: string)
    requires items != []
    ensures var e := items[0];
            SpellItems(items) + end ==
            e.before + (Spell(e.value) + (e.after + (if |items| == 1 then end else [','] + (SpellItems(items[1..]) + end))))
  {
    hide Spell, SpellSpaced;
    var e := items[0];
    if |items| == 1 {
      ItemThenTail(e, end);
    } else {
      var others := SpellItems(items[1..]);
      ItemThenTail(e, [','] + (others + end));
      CommaMoves(SpellSpaced(e), others, end);
    }
  }

  lemma ItemThenTail(e: Spaced, tail: string)
    ensures SpellSpaced(e) + tail == e.before + (Spell(e.value) + (e.after + tail))
  {
    hide Spell;
    JsonSound.SpacedText(e.before, Spell(e.value), e.after, tail);
  }

  lemma CommaMoves(first: string, others: string, end: string)
    ensures (first + ([','] + others)) + end == first + ([','] + (others + end))
  {
    assert ([','] + others) + end == [','] + (others + end);
  }

  /** White space and then a comma or a closing bracket may follow a value. */
  lemma BlankEnds(blank: string, tail: string)
    requires AllBlank(blank, true) && tail != "" && (tail[0] == ',' || tail[0] == ']' || tail[0] == '}')
    ensures Ends(blank + tail)
  {
    assert (blank + tail)[0] == if blank == "" then tail[0] else blank[0];
  }

  lemma {:induction false} ObjectComplete(lib: Library, entries: seq<Entry>, post: string, depth: nat)
    requires entries != [] && AllEntries(entries, true) && EntriesWithin(lib, entries, depth)
    ensures ParseObject(lib, SpellEntries(entries) + (['}'] + post), depth) == Ok(Obj(EntryMeanings(lib, entries, "")), post)
    decreases entries, 2
  {
    hide ParseMembers, SkipSpace, AllEntries, EntriesWithin, SpellEntries, EntryMeanings;
    assert [] + EntryMeanings(lib, entries, "") == EntryMeanings(lib, entries, "");
    EntriesStart(entries, ['}'] + post);
    EntriesComplete(lib, entries, post, depth, []);
  }

  /** A member from its key on, and what comes after it. */
  function EntryBody(e: Entry, tail: string): string {
    SpellLiteral(e.key) + (e.middle + ([':'] + (e.value.before + (Spell(e.value.value) + (e.value.after + tail)))))
  }

  lemma BodyStarts(e: Entry, tail: string)
    ensures var s := EntryBody(e, tail); s != "" && s[0] == '"' && !IsSpace(s[0])
  {
    hide Spell;
  }

  lemma EntryThenTail(e: Entry, tail: string)
    ensures SpellEntry(e) + tail == e.before + EntryBody(e, tail)
  {
    hide Spell, SpellLiteral;
    var v := e.value;
    var inner := SpellLiteral(e.key) + (e.middle + ([':'] + (v.before + (Spell(v.value) + v.after))));
    JsonSound.EntryText(SpellLiteral(e.key), e.middle, v.before, Spell(v.value), v.after, tail);
    assert "" + inner == inner;
    Regroup(e.before, inner, tail, "");
  }

  lemma FirstEntry(entries: seq<Entry>, end: string)
    requires entries != []
    ensures var tail := if |entries| == 1 then end else [','] + (SpellEntries(entries[1..]) + end);
            SpellEntries(entries) + end == entries[0].before + EntryBody(entries[0], tail)
  {
    hide SpellEntry, EntryBody;
    var e := entries[0];
    var rest := if |entries| == 1 then "" else [','] + SpellEntries(entries[1..]);
    var tail := if |entries| == 1 then end else [','] + (SpellEntries(entries[1..]) + end);
    assert rest + end == tail;
    Regroup(SpellEntry(e), rest, end, "");
    EntryThenTail(e, tail);
  }

  lemma FirstIsEntry(lib: Library, entries: seq<Entry>, depth: nat)
    requires entries != [] && AllEntries(entries, true) && EntriesWithin(lib, entries, depth)
    ensures var e := entries[0];
            && IsEntry(e, true) && Paired(e.key) && Within(lib, e.value.value, depth)
            && AllBlank(e.before, true) && AllBlank(e.value.after, true)
    ensures AllEntries(entries[1..], true) && EntriesWithin(lib, entries[1..], depth)
  {
    hide AllBlank, Within, IsSyntax, Paired, AllPieces;
  }

  lemma EntriesStart(entries: seq<Entry>, more: string)
    requires entries != [] && AllEntries(entries, true)
    ensures var t := SkipSpace(SpellEntries(entries) + more); t != "" && t[0] == '"'
  {
    hide SkipSpace, AllBlank, SpellEntries, IsItem, AllPieces, EntryBody;
    var e := entries[0];
    var tail := if |entries| == 1 then more else [','] + (SpellEntries(entries[1..]) + more);
    FirstEntry(entries, more);
    BodyStarts(e, tail);
    SkipBlank(e.before, EntryBody(e, tail));
  }

  lemma {:induction false} EntryComplete(lib: Library, e: Entry, tail: string, depth: nat)
    requires IsEntry(e, true) && Paired(e.key) && Within(lib, e.value.value, depth)
    requires tail != "" && (tail[0] == ',' || tail[0] == '}')
    ensures ParseMember(lib, EntryBody(e, tail), depth)
         == Ok(Member(Decoded(e.key, ""), Meaning(lib, e.value.value, "")), e.value.after + tail)
    decreases e, 1
  {
    hide ParseString, ParseValue, SkipSpace, AllBlank, IsSyntax, Within, Spell, SpellLiteral, Paired, AllPieces, Ends,
      Decoded, Meaning;
    var v := e.value;
    var inside := v.before + (Spell(v.value) + (v.after + tail));
    LiteralComplete(e.key, e.middle + ([':'] + inside));
    SkipBlank(e.middle, [':'] + inside);
    assert ([':'] + inside)[1..] == inside;
    BlankEnds(v.after, tail);
    ValueComplete(lib, v.before, v.value, v.after + tail, depth);
  }

  lemma {:induction false} EntriesComplete(lib: Library, entries: seq<Entry>, post: string, depth: nat, done: seq<Member>)
    requires entries != [] && AllEntries(entries, true) && EntriesWithin(lib, entries, depth)
    ensures ParseMembers(lib, SkipSpace(SpellEntries(entries) + (['}'] + post)), depth, done)
         == Ok(Obj(done + EntryMeanings(lib, entries, "")), post)
    decreases entries, 1
  {
    hide ParseMember, SkipSpace, AllBlank, IsEntry, Within, Paired, AllEntries, EntriesWithin, SpellEntries, EntryBody,
      Meaning, Decoded, EntryMeanings;
    FirstIsEntry(lib, entries, depth);
    var e, end := entries[0], ['}'] + post;
    var tail := if |entries| == 1 then end else [','] + (SpellEntries(entries[1..]) + end);
    FirstEntry(entries, end);
    var s := EntryBody(e, tail);
    BodyStarts(e, tail);
    SkipBlank(e.before, s);
    EntryComplete(lib, e, tail, depth);
    var m := ParseMember(lib, s, depth);
    SkipBlank(e.value.after, tail);
    assert tail[1..] == if |entries| == 1 then post else SpellEntries(entries[1..]) + end;
    EntriesMeant(lib, entries, done);
    if |entries| > 1 {
      EntriesComplete(lib, entries[1..], post, depth, done + [m.value]);
    }
  }

  lemma EntriesMeant(lib: Library, entries: seq<Entry>, done: seq<Member>)
    requires entries != []
    ensures var m := Member(Decoded(entries[0].key, ""), Meaning(lib, entries[0].value.value, ""));
            && done + EntryMeanings(lib, entries, "") == done + [m] + EntryMeanings(lib, entries[1..], "")
            && (|entries| == 1 ==> done + EntryMeanings(lib, entries, "") == done + [m])
  {
    hide Meaning, Decoded;
  }

  /** The text of a document within the limits is accepted, and parsed to what it stands for. */
  lemma DocumentComplete(lib: Library, d: Spaced)
    requires IsItem(d, true) && Within(lib, d.value, 0)
    ensures Parse(lib, SpellSpaced(d)) == Ok(Meaning(lib, d.value, ""), "")
  {
    hide ParseValue, SkipSpace, AllBlank, IsSyntax, Within, Spell, Ends, Meaning;
    BlankMayEnd(d.after);
    ValueComplete(lib, d.before, d.value, d.after, 0);
    SkipBlank(d.after, "");
    assert d.after + "" == d.after;
  }

  lemma BlankMayEnd(blank: string)
    requires AllBlank(blank, true)
    ensures Ends(blank)
  {
  }

  /**
    The parser accepts a text if and only if a document of the grammar within its limits spells it, and gives what every
    such document stands for.
   */
  lemma AcceptsExactly(lib: Library, text: string)
    ensures Parse(lib, text).Ok? <==> exists d :: IsDocument(lib, d, text)
    ensures forall d :: IsDocument(lib, d, text) ==> Parse(lib, text).Ok? && Parse(lib, text).value == Meaning(lib, d.value, "")
  {
    hide Parse, IsItem, Within, SpellSpaced, Meaning;
    if Parse(lib, text).Ok? {
      var d := JsonSound.DocumentSound(lib, text);
    }
    forall d | IsDocument(lib, d, text)
      ensures Parse(lib, text).Ok? && Parse(lib, text).value == Meaning(lib, d.value, "")
    {
      DocumentComplete(lib, d);
    }
  }

  /** An accepted text is a JSON text of RFC 8259 if and only if it holds neither a vertical tab nor a form feed. */
  lemma AcceptedIsStrict(lib: Library, text: string)
    requires Parse(lib, text).Ok?
    ensures NoOddSpace(text) <==> exists d :: IsItem(d, false) && SpellSpaced(d) == text
  {
    hide Parse, IsItem, Within, SpellSpaced, NoOddSpace;
    if NoOddSpace(text) {
      var d := JsonSound.DocumentSound(lib, text);
      ItemIsStrict(d);
    }
    if d :| IsItem(d, false) && SpellSpaced(d) == text {
      ItemHasNoOdd(d);
    }
  }

  /** A form feed and "null" are accepted, although no tree of RFC 8259 spells them. */
  lemma FormFeedAccepted(lib: Library)
    ensures var text := [FORM_FEED] + "null";
            Parse(lib, text).Ok? && !exists d :: IsItem(d, false) && SpellSpaced(d) == text
  {
    hide Parse;
    var d, text := Spaced([FORM_FEED], Word("null"), ""), [FORM_FEED] + "null";
    assert "null" + "" == "null";
    DocumentComplete(lib, d);
    assert text[0] == FORM_FEED;
    AcceptedIsStrict(lib, text);
  }
}
