/** Parsing undoes printing, exactly up to the nesting limit. */
module JsonRoundTrip {
  import opened Text
  import opened Arithmetic
  import opened Json

  /** How many nested calls of the value parser a value needs. */
  function Height(v: Value): (h: nat)
    ensures h >= 1
    decreases v
  {
    match v
    case Arr(items) => 1 + ItemsHeight(items)
    case Obj(members) => 1 + MembersHeight(members)
    case _ => 1
  }

  function ItemsHeight(items: seq<Value>): nat
    decreases items
  {
    if items == [] then 0 else Max(Height(items[0]), ItemsHeight(items[1..]))
  }

  function MembersHeight(members: seq<Member>): nat
    decreases members
  {
    if members == [] then 0 else Max(Height(members[0].value), MembersHeight(members[1..]))
  }

  /** A value of C strings and exact 64-bit integers, each with the double both constructors give it. */
  predicate Representable(lib: Library, v: Value)
    decreases v
  {
    match v
    case Num(n) => n.exact && -0x8000_0000_0000_0000 <= n.integer <= 0x7FFF_FFFF_FFFF_FFFF && lib.strtod(SignedDecimal(n.integer)) == Some(n.value)
    case Str(s) => NulFree(s)
    case Arr(items) => forall i :: 0 <= i < |items| ==> Representable(lib, items[i])
    case Obj(members) => forall i :: 0 <= i < |members| ==> NulFree(members[i].key) && Representable(lib, members[i].value)
    case _ => true
  }

  /** What may come after a value without becoming part of it. */
  predicate Delimited(post: string) {
    post == "" || post[0] == ',' || post[0] == ']' || post[0] == '}'
  }

  // ----- strings

  /** Only what a string literal may not hold is escaped. */
  lemma EscapedExactly(c: char)
    ensures EscapeChar(c) == [c] <==> c >= ' ' && c != '"' && c != '\\'
  {
  }

  lemma EscapeRoundTrip(c: char, post: string)
    requires c != '\0' && EscapeChar(c) != [c]
    ensures var e := EscapeChar(c) + post;
            e[0] == '\\' && ParseEscape(e[1..]) == Ok([c], post)
  {
    var e := EscapeChar(c) + post;
    var t := e[1..];
    if |EscapeChar(c)| == 2 {
      assert t[1..] == post;
    } else {
      var u := t[1..];
      assert u[4..] == post;
      assert u[0] == '0' && u[1] == '0';
      assert CodeUnit(u) == Ok(c as int, post);
      assert CodepointText(c as int) == [c];
    }
  }

  /** One turn of the loop over the characters of a literal. */
  lemma CharsStep(c: char, more: string, out: string)
    requires c != '\0'
    ensures ParseChars(EscapeChar(c) + more, out) == ParseChars(more, out + [c])
  {
    var e := EscapeChar(c);
    if e == [c] {
      assert (e + more)[1..] == more;
    } else {
      EscapeRoundTrip(c, more);
      hide ParseEscape, EscapeChar;
      assert ParseEscape((e + more)[1..]) == Ok([c], more);
    }
  }

  lemma ClosingQuote(post: string, out: string)
    ensures ParseChars("\"" + post, out) == Ok(out, post)
  {
    assert ("\"" + post)[1..] == post;
  }

  lemma {:induction false} CharsRoundTrip(s: string, post: string, out: string)
    requires NulFree(s)
    ensures ParseChars(Escaped(s) + ("\"" + post), out) == Ok(out + s, post)
    decreases |s|
  {
    hide ParseChars, EscapeChar;
    if s == "" {
      ClosingQuote(post, out);
      assert "" + ("\"" + post) == "\"" + post && out + s == out;
    } else {
      var more := Escaped(s[1..]) + ("\"" + post);
      CharsStep(s[0], more, out);
      Regroup(EscapeChar(s[0]), Escaped(s[1..]), "\"" + post, "");
      CharsRoundTrip(s[1..], post, out + [s[0]]);
      assert out + [s[0]] + s[1..] == out + s;
    }
  }

  lemma StringRoundTrip(s: string, post: string)
    requires NulFree(s)
    ensures ParseString(Quoted(s) + post) == Ok(s, post)
  {
    assert (Quoted(s) + post)[1..] == Escaped(s) + ("\"" + post);
    CharsRoundTrip(s, post, "");
    assert "" + s == s;
  }

  // ----- numbers

  /** The digits of a number followed by a delimiter are scanned whole. */
  lemma WholeRoundTrip(n: int, post: string)
    requires Delimited(post)
    ensures Whole(SignedDecimal(n) + post) == Token(|SignedDecimal(n)|, true)
  {
    var text := SignedDecimal(n);
    var sign := if n < 0 then 1 else 0;
    var digits := Decimal(if n < 0 then -n else n);
    hide Decimal;
    assert (text + post)[sign..] == digits + post;
    DigitRunOf(digits, post);
    assert (text + post)[0] == text[0] && (text + post)[sign] == digits[0];
  }

  lemma IntegerRoundTrip(n: int)
    ensures IntegerText(SignedDecimal(n)) && IntegerValue(SignedDecimal(n)) == n
  {
    DecimalRoundTrip(if n < 0 then -n else n);
    assert n < 0 ==> SignedDecimal(n)[1..] == Decimal(-n);
  }

  lemma TokenRoundTrip(n: int, post: string)
    requires Delimited(post)
    ensures NumberToken(SignedDecimal(n) + post) == Token(|SignedDecimal(n)|, true)
  {
    hide Whole, SignedDecimal;
    var text := SignedDecimal(n);
    WholeRoundTrip(n, post);
    assert |text| < |text + post| ==> (text + post)[|text|] == post[0];
  }

  lemma NumberRoundTrip(lib: Library, n: Number, post: string)
    requires Representable(lib, Num(n)) && Delimited(post)
    ensures ParseNumber(lib, PrintNumber(lib, n) + post) == Ok(Num(n), post)
  {
    var text := SignedDecimal(n.integer);
    TokenRoundTrip(n.integer, post);
    IntegerRoundTrip(n.integer);
    hide NumberToken, IntegerValue, IntegerText, SignedDecimal;
    assert (text + post)[..|text|] == text && (text + post)[|text|..] == post;
  }

  // ----- values

  /** A printed value starts with a character that is neither space nor closing bracket. */
  lemma PrintStarts(lib: Library, v: Value)
    requires Representable(lib, v)
    ensures var p := Print(lib, v);
            p != "" && !IsSpace(p[0]) && p[0] != ']' && p[0] != '}' && (!v.Arr? ==> p[0] != '[') && (!v.Obj? ==> p[0] != '{')
  {
  }

  lemma NoSpace(s: string)
    requires s == "" || !IsSpace(s[0])
    ensures SkipSpace(s) == s
  {
  }

  /** The text of the items after the first, up to and including what follows the array. */
  function Tail(lib: Library, items: seq<Value>, post: string): (s: string)
    ensures s != "" && Delimited(s)
  {
    if items == [] then "]" + post else "," + (Print(lib, items[0]) + Tail(lib, items[1..], post))
  }

  function MembersTail(lib: Library, members: seq<Member>, post: string): (s: string)
    ensures s != "" && Delimited(s)
  {
    if members == [] then "}" + post else "," + (PrintMember(lib, members[0]) + MembersTail(lib, members[1..], post))
  }

  lemma {:induction false} TailText(lib: Library, items: seq<Value>, post: string, first: bool)
    ensures PrintItems(lib, items, first) + "]" + post ==
            if items != [] && first then Print(lib, items[0]) + Tail(lib, items[1..], post) else Tail(lib, items, post)
  {
    hide Print;
    if items != [] {
      TailText(lib, items[1..], post, false);
      var p, q := Print(lib, items[0]), PrintItems(lib, items[1..], false);
      Regroup(Comma(first) + p, q, "]", post);
      Regroup(q, "]", post, "");
      Regroup(Comma(first), p, Tail(lib, items[1..], post), "");
    }
  }

  lemma {:induction false} MembersTailText(lib: Library, members: seq<Member>, post: string, first: bool)
    ensures PrintMembers(lib, members, first) + "}" + post ==
            if members != [] && first then PrintMember(lib, members[0]) + MembersTail(lib, members[1..], post)
            else MembersTail(lib, members, post)
  {
    hide PrintMember;
    if members != [] {
      MembersTailText(lib, members[1..], post, false);
      var p, q := PrintMember(lib, members[0]), PrintMembers(lib, members[1..], false);
      Regroup(Comma(first) + p, q, "}", post);
      Regroup(q, "}", post, "");
      Regroup(Comma(first), p, MembersTail(lib, members[1..], post), "");
    }
  }

  /** Parsing `text` for `v` at `depth` does as the round trip promises. */
  predicate Returns<T(==)>(r: Parsed<T>, fits: bool, v: T, post: string) {
    if fits then r == Ok(v, post) else r.Err?
  }

  lemma WordParses(lib: Library, v: Value, post: string)
    requires v.Null? || v.Bool?
    ensures ParseScalar(lib, Print(lib, v) + post) == Ok(v, post)
  {
    var w := Print(lib, v);
    var s := w + post;
    assert s[..|w|] == w && s[|w|..] == post && s[0] == w[0];
    assert s[..4][0] == w[0];
  }

  lemma NumberParses(lib: Library, n: Number, post: string)
    requires Representable(lib, Num(n)) && Delimited(post)
    ensures ParseScalar(lib, PrintNumber(lib, n) + post) == Ok(Num(n), post)
  {
    hide ParseNumber, ParseString, StartsWith;
    NumberRoundTrip(lib, n, post);
    var s := PrintNumber(lib, n) + post;
    assert s[0] == SignedDecimal(n.integer)[0];
    NotAWord(s);
  }

  lemma ScalarRoundTrip(lib: Library, v: Value, post: string, depth: nat)
    requires Representable(lib, v) && Delimited(post) && !v.Arr? && !v.Obj?
    ensures Returns(ParseValue(lib, Print(lib, v) + post, depth), depth + 1 <= MAX_DEPTH, v, post)
  {
    var s := Print(lib, v) + post;
    assert ParseScalar(lib, s) == Ok(v, post) by {
      hide ParseString;
      match v
      case Num(n) => NumberParses(lib, n, post);
      case Str(text) => StringRoundTrip(text, post);
      case _ => WordParses(lib, v, post);
    }
    assert s[0] == Print(lib, v)[0] && s[0] != '[' && s[0] != '{' by {
      PrintStarts(lib, v);
    }
    assert SkipSpace(s) == s by {
      PrintStarts(lib, v);
      NoSpace(s);
    }
    hide ParseScalar, SkipSpace, Print;
  }

  /** The context lemma: in any surroundings a printed value parses to itself exactly when it nests shallowly enough. */
  lemma {:induction false} ValueRoundTrip(lib: Library, v: Value, post: string, depth: nat)
    requires Representable(lib, v) && Delimited(post)
    ensures Returns(ParseValue(lib, Print(lib, v) + post, depth), depth + Height(v) <= MAX_DEPTH, v, post)
    decreases v, 1
  {
    match v
    case Arr(items) => ArrayRoundTrip(lib, items, post, depth);
    case Obj(members) => ObjectRoundTrip(lib, members, post, depth);
    case _ => ScalarRoundTrip(lib, v, post, depth);
  }

  lemma OpensBracket(lib: Library, u: string, depth: nat)
    ensures var s := "[" + u;
            ParseValue(lib, s, depth) ==
            if depth + 1 > MAX_DEPTH then Err(NestingExceeds64Levels, s) else ParseArray(lib, u, depth + 1)
  {
    hide ParseArray, ParseObject, ParseScalar, SkipSpace;
    NoSpace("[" + u);
    assert ("[" + u)[1..] == u;
  }

  lemma OpensBrace(lib: Library, u: string, depth: nat)
    ensures var s := "{" + u;
            ParseValue(lib, s, depth) ==
            if depth + 1 > MAX_DEPTH then Err(NestingExceeds64Levels, s) else ParseObject(lib, u, depth + 1)
  {
    hide ParseArray, ParseObject, ParseScalar, SkipSpace;
    NoSpace("{" + u);
    assert ("{" + u)[1..] == u;
  }

  /** The text of an array or object, read as an opening bracket, a first part and a tail. */
  lemma BracketedText(lib: Library, items: seq<Value>, members: seq<Member>, post: string)
    ensures Print(lib, Arr(items)) + post == "[" +
            if items == [] then "]" + post else Print(lib, items[0]) + Tail(lib, items[1..], post)
    ensures Print(lib, Obj(members)) + post == "{" +
            if members == [] then "}" + post else PrintMember(lib, members[0]) + MembersTail(lib, members[1..], post)
  {
    hide PrintItems, PrintMembers, PrintMember, Tail, MembersTail;
    TailText(lib, items, post, true);
    MembersTailText(lib, members, post, true);
    assert Print(lib, Arr(items)) == "[" + PrintItems(lib, items, true) + "]";
    assert Print(lib, Obj(members)) == "{" + PrintMembers(lib, members, true) + "}";
    Regroup("[", PrintItems(lib, items, true), "]", post);
    Regroup(PrintItems(lib, items, true), "]", post, "");
    Regroup("{", PrintMembers(lib, members, true), "}", post);
    Regroup(PrintMembers(lib, members, true), "}", post, "");
    EmptyTails(lib, post);
  }

  lemma EmptyTails(lib: Library, post: string)
    ensures Tail(lib, [], post) == "]" + post && ("]" + post)[1..] == post
    ensures MembersTail(lib, [], post) == "}" + post && ("}" + post)[1..] == post
  {
  }

  lemma Heads(lib: Library, items: seq<Value>, post: string)
    requires items != [] && Representable(lib, items[0])
    ensures var u := Print(lib, items[0]) + Tail(lib, items[1..], post);
            SkipSpace(u) == u && u != "" && u[0] != ']'
  {
    hide Tail, Print;
    PrintStarts(lib, items[0]);
    var u := Print(lib, items[0]) + Tail(lib, items[1..], post);
    assert u[0] == Print(lib, items[0])[0];
    NoSpace(u);
  }

  lemma MemberHeads(lib: Library, members: seq<Member>, post: string)
    requires members != []
    ensures var u := PrintMember(lib, members[0]) + MembersTail(lib, members[1..], post);
            SkipSpace(u) == u && u != "" && u[0] != '}'
  {
    hide MembersTail, Print, Escaped;
    var u := PrintMember(lib, members[0]) + MembersTail(lib, members[1..], post);
    assert PrintMember(lib, members[0])[0] == '"';
    assert u[0] == '"';
    NoSpace(u);
  }

  lemma {:induction false} ArrayRoundTrip(lib: Library, items: seq<Value>, post: string, depth: nat)
    requires Representable(lib, Arr(items)) && Delimited(post)
    ensures Returns(ParseValue(lib, Print(lib, Arr(items)) + post, depth), depth + Height(Arr(items)) <= MAX_DEPTH,
                    Arr(items), post)
    decreases Arr(items), 0
  {
    hide ParseValue, ParseItems, Tail, Print, SkipSpace;
    BracketedText(lib, items, [], post);
    if items == [] {
      OpensBracket(lib, "]" + post, depth);
      NoSpace("]" + post);
      EmptyTails(lib, post);
    } else {
      OpensBracket(lib, Print(lib, items[0]) + Tail(lib, items[1..], post), depth);
      Heads(lib, items, post);
      ItemsRoundTrip(lib, items, post, depth + 1, []);
      assert [] + items == items;
    }
  }

  lemma {:induction false} ObjectRoundTrip(lib: Library, members: seq<Member>, post: string, depth: nat)
    requires Representable(lib, Obj(members)) && Delimited(post)
    ensures Returns(ParseValue(lib, Print(lib, Obj(members)) + post, depth), depth + Height(Obj(members)) <= MAX_DEPTH,
                    Obj(members), post)
    decreases Obj(members), 0
  {
    hide ParseValue, ParseMembers, MembersTail, PrintMember, Print, SkipSpace;
    BracketedText(lib, [], members, post);
    if members == [] {
      OpensBrace(lib, "}" + post, depth);
      NoSpace("}" + post);
      EmptyTails(lib, post);
    } else {
      OpensBrace(lib, PrintMember(lib, members[0]) + MembersTail(lib, members[1..], post), depth);
      MemberHeads(lib, members, post);
      MembersRoundTrip(lib, members, post, depth + 1, []);
      assert [] + members == members;
    }
  }

  /** One turn of the loop over the items. */
  lemma ItemsStep(lib: Library, s: string, depth: nat, done: seq<Value>, t: string)
    ensures var r := ParseValue(lib, s, depth);
            && (r.Err? ==> ParseItems(lib, s, depth, done).Err?)
            && (r.Ok? && r.rest == "]" + t ==> ParseItems(lib, s, depth, done) == Ok(Arr(done + [r.value]), t))
            && (r.Ok? && r.rest == "," + t && SkipSpace(t) == t ==>
                  ParseItems(lib, s, depth, done) == ParseItems(lib, t, depth, done + [r.value]))
  {
    hide ParseValue, SkipSpace;
    NoSpace("]" + t);
    NoSpace("," + t);
    assert ("]" + t)[1..] == t && ("," + t)[1..] == t;
  }

  lemma {:induction false} ItemsRoundTrip(lib: Library, items: seq<Value>, post: string, depth: nat, done: seq<Value>)
    requires items != [] && forall i :: 0 <= i < |items| ==> Representable(lib, items[i])
    ensures Returns(ParseItems(lib, Print(lib, items[0]) + Tail(lib, items[1..], post), depth, done),
                    depth + ItemsHeight(items) <= MAX_DEPTH, Arr(done + items), post)
    decreases items
  {
    hide ParseValue, Print, SkipSpace, ParseItems, Representable, Height;
    var after := Tail(lib, items[1..], post);
    var s := Print(lib, items[0]) + after;
    ValueRoundTrip(lib, items[0], after, depth);
    if |items| == 1 {
      ItemsStep(lib, s, depth, done, post);
      assert items[1..] == [] && ItemsHeight(items[1..]) == 0;
      assert done + items == done + [items[0]];
    } else {
      var more := Print(lib, items[1]) + Tail(lib, items[1..][1..], post);
      ItemsStep(lib, s, depth, done, more);
      Heads(lib, items[1..], post);
      ItemsRoundTrip(lib, items[1..], post, depth, done + [items[0]]);
      assert done + [items[0]] + items[1..] == done + items;
    }
  }

  lemma {:induction false} MemberRoundTrip(lib: Library, m: Member, after: string, depth: nat)
    requires NulFree(m.key) && Representable(lib, m.value) && Delimited(after)
    ensures Returns(ParseMember(lib, PrintMember(lib, m) + after, depth),
                    depth + Height(m.value) <= MAX_DEPTH, m, after)
    decreases m, 0
  {
    hide Quoted, Print, ParseValue, ParseString, SkipSpace;
    var v := Print(lib, m.value) + after;
    var t := ":" + v;
    Regroup(Quoted(m.key), ":", Print(lib, m.value), after);
    StringRoundTrip(m.key, t);
    NoSpace(t);
    assert t[1..] == v;
    ValueRoundTrip(lib, m.value, after, depth);
  }

  /** One turn of the loop over the members. */
  lemma MembersStep(lib: Library, s: string, depth: nat, done: seq<Member>, t: string)
    ensures var r := ParseMember(lib, s, depth);
            && (r.Err? ==> ParseMembers(lib, s, depth, done).Err?)
            && (r.Ok? && r.rest == "}" + t ==> ParseMembers(lib, s, depth, done) == Ok(Obj(done + [r.value]), t))
            && (r.Ok? && r.rest == "," + t && SkipSpace(t) == t ==>
                  ParseMembers(lib, s, depth, done) == ParseMembers(lib, t, depth, done + [r.value]))
  {
    hide ParseMember, SkipSpace;
    NoSpace("}" + t);
    NoSpace("," + t);
    assert ("}" + t)[1..] == t && ("," + t)[1..] == t;
  }

  lemma {:induction false} MembersRoundTrip(lib: Library, members: seq<Member>, post: string, depth: nat, done: seq<Member>)
    requires members != []
    requires forall i :: 0 <= i < |members| ==> NulFree(members[i].key) && Representable(lib, members[i].value)
    ensures Returns(ParseMembers(lib, PrintMember(lib, members[0]) + MembersTail(lib, members[1..], post), depth, done),
                    depth + MembersHeight(members) <= MAX_DEPTH, Obj(done + members), post)
    decreases members
  {
    hide ParseMember, PrintMember, SkipSpace, ParseMembers, Representable, Height;
    var after := MembersTail(lib, members[1..], post);
    var s := PrintMember(lib, members[0]) + after;
    MemberRoundTrip(lib, members[0], after, depth);
    if |members| == 1 {
      MembersStep(lib, s, depth, done, post);
      assert members[1..] == [] && MembersHeight(members[1..]) == 0;
      assert done + members == done + [members[0]];
    } else {
      var more := PrintMember(lib, members[1]) + MembersTail(lib, members[1..][1..], post);
      MembersStep(lib, s, depth, done, more);
      MemberHeads(lib, members[1..], post);
      MembersRoundTrip(lib, members[1..], post, depth, done + [members[0]]);
      assert done + [members[0]] + members[1..] == done + members;
    }
  }

  /** Parsing a printed value gives the value back exactly when it nests no deeper than 64 levels. */
  lemma RoundTrip(lib: Library, v: Value)
    requires Representable(lib, v)
    ensures Parse(lib, Print(lib, v)) == Ok(v, "") <==> Height(v) <= 64
    ensures Height(v) > 64 ==> Parse(lib, Print(lib, v)).Err?
  {
    assert Print(lib, v) + "" == Print(lib, v);
    ValueRoundTrip(lib, v, "", 0);
  }
}
