/** JSON values, what the printer writes, and what the parser does, as functions. */
module Json {
  import opened Text
  import opened Utf8

  const MAX_DEPTH: nat := 64

  /** A number keeps its double and, when the token was a 64-bit integer, that integer exactly. */
  datatype Number = Number(value: real, integer: int, exact: bool)

  datatype Value =
    | Null
    | Bool(boolean: bool)
    | Num(number: Number)
    | Str(text: string)
    | Arr(items: seq<Value>)
    | Obj(members: seq<Member>)

  datatype Member = Member(key: string, value: Value)

  /** The C library's number conversions: `strtod` on a whole token, none on a range error; and `printf` with %.17g. */
  datatype Library = Library(strtod: string -> Option<real>, general: real -> string)

  predicate IsInt64(n: int) {
    -0x8000_0000_0000_0000 <= n <= 0x7FFF_FFFF_FFFF_FFFF
  }

  // ----- printing

  function HexDigit(d: nat): (c: char)
    requires d < 16
    ensures c != '"' && c != '\\'
  {
    if d < 10 then DigitChar(d) else ('a' as int + d - 10) as char
  }

  function EscapeChar(c: char): (s: string)
    ensures |s| > 0
  {
    if c == '"' then "\\\""
    else if c == '\\' then "\\\\"
    else if c == BACKSPACE then "\\b"
    else if c == FORM_FEED then "\\f"
    else if c == '\n' then "\\n"
    else if c == '\r' then "\\r"
    else if c == '\t' then "\\t"
    else if c < ' ' then ['\\', 'u', '0', '0', HexDigit(c as int / 16), HexDigit(c as int % 16)]
    else [c]
  }

  function Escaped(s: string): string {
    if s == "" then "" else EscapeChar(s[0]) + Escaped(s[1..])
  }

  function Quoted(s: string): string {
    "\"" + Escaped(s) + "\""
  }

  function PrintNumber(lib: Library, n: Number): string {
    if n.exact then SignedDecimal(n.integer) else lib.general(n.value)
  }

  function Print(lib: Library, v: Value): string
    decreases v
  {
    match v
    case Null => "null"
    case Bool(b) => if b then "true" else "false"
    case Num(n) => PrintNumber(lib, n)
    case Str(s) => Quoted(s)
    case Arr(items) => "[" + PrintItems(lib, items, true) + "]"
    case Obj(members) => "{" + PrintMembers(lib, members, true) + "}"
  }

  function Comma(first: bool): string {
    if first then "" else ","
  }

  function PrintItems(lib: Library, items: seq<Value>, first: bool): string
    decreases items
  {
    if items == [] then "" else Comma(first) + Print(lib, items[0]) + PrintItems(lib, items[1..], false)
  }

  function PrintMembers(lib: Library, members: seq<Member>, first: bool): string
    decreases members
  {
    if members == [] then ""
    else
      Comma(first) + PrintMember(lib, members[0]) + PrintMembers(lib, members[1..], false)
  }

  function PrintMember(lib: Library, m: Member): string
    decreases m
  {
    Quoted(m.key) + ":" + Print(lib, m.value)
  }

  // ----- parsing

  /** The parser's error messages. */
  datatype Message =
    | IncompleteUnicodeEscape
    | InvalidUnicodeEscape
    | InvalidEscape
    | HighSurrogateWithoutLowSurrogate
    | InvalidLowSurrogate
    | UnexpectedLowSurrogate
    | UnterminatedString
    | UnescapedControlCharacter
    | IncompleteEscape
    | ExpectedString
    | InvalidNumber
    | NestingExceeds64Levels
    | ExpectedValue
    | UnexpectedToken
    | ExpectedCommaOrClosingBracket
    | ExpectedCommaOrClosingBrace
    | ExpectedColon
    | TrailingData

  /** A parse either yields a value, or a message; `rest` is the input not yet read at that point. */
  datatype Parsed<+T> = Ok(value: T, rest: string) | Err(message: Message, rest: string)

  function HexValue(c: char): (d: int)
    ensures -1 <= d < 16
  {
    if '0' <= c <= '9' then c as int - '0' as int
    else if 'a' <= c <= 'f' then c as int - 'a' as int + 10
    else if 'A' <= c <= 'F' then c as int - 'A' as int + 10
    else -1
  }

  /** Four hexadecimal digits. */
  function CodeUnit(s: string): (r: Parsed<nat>)
    ensures r.Ok? ==> r.value < 0x1_0000 && |s| >= 4 && r.rest == s[4..]
    ensures r.Err? ==> r.rest == s
  {
    if |s| < 4 then Err(IncompleteUnicodeEscape, s)
    else
      var a, b, c, d := HexValue(s[0]), HexValue(s[1]), HexValue(s[2]), HexValue(s[3]);
      if a < 0 || b < 0 || c < 0 || d < 0 then Err(InvalidUnicodeEscape, s)
      else Ok(a * 0x1000 + b * 0x100 + c * 0x10 + d, s[4..])
  }

  /** A code point as the bytes `ch_json_append` copies: U+0000 is the C terminator, so it adds nothing. */
  function CodepointText(c: nat): string
    requires IsScalar(c)
  {
    if c == 0 then "" else var bs := Encode(c); seq(|bs|, i requires 0 <= i < |bs| => bs[i] as char)
  }

  /** The part of a string literal after a backslash: the bytes it stands for. */
  function ParseEscape(s: string): (r: Parsed<string>)
    requires s != ""
    ensures |r.rest| < |s|
  {
    var e, t := s[0], s[1..];
    if e == '"' || e == '\\' || e == '/' then Ok([e], t)
    else if e == 'b' then Ok([BACKSPACE], t)
    else if e == 'f' then Ok([FORM_FEED], t)
    else if e == 'n' then Ok("\n", t)
    else if e == 'r' then Ok("\r", t)
    else if e == 't' then Ok("\t", t)
    else if e == 'u' then ParseUnicode(t)
    else Err(InvalidEscape, t)
  }

  function ParseUnicode(s: string): (r: Parsed<string>)
    ensures |r.rest| <= |s|
  {
    match CodeUnit(s)
    case Err(m, rest) => Err(m, rest)
    case Ok(high, t) =>
      if 0xD800 <= high <= 0xDBFF then
        if |t| < 2 || t[0] != '\\' || t[1] != 'u' then Err(HighSurrogateWithoutLowSurrogate, t)
        else
          match CodeUnit(t[2..])
          case Err(m, rest) => Err(m, rest)
          case Ok(low, u) =>
            if low < 0xDC00 || low > 0xDFFF then Err(InvalidLowSurrogate, u)
            else Ok(CodepointText(0x1_0000 + (high - 0xD800) * 0x400 + (low - 0xDC00)), u)
      else if 0xDC00 <= high <= 0xDFFF then Err(UnexpectedLowSurrogate, t)
      else Ok(CodepointText(high), t)
  }

  function ParseChars(s: string, out: string): (r: Parsed<string>)
    ensures |r.rest| <= |s| && (r.Ok? ==> |r.rest| < |s|)
    decreases |s|
  {
    if s == "" then Err(UnterminatedString, s)
    else
      var c, t := s[0], s[1..];
      if c == '"' then Ok(out, t)
      else if c < ' ' then Err(UnescapedControlCharacter, t)
      else if c != '\\' then ParseChars(t, out + [c])
      else if t == "" then Err(IncompleteEscape, t)
      else
        match ParseEscape(t)
        case Err(m, rest) => Err(m, rest)
        case Ok(bytes, rest) => ParseChars(rest, out + bytes)
  }

  function ParseString(s: string): (r: Parsed<string>)
    ensures |r.rest| <= |s| && (r.Ok? ==> |r.rest| < |s|)
  {
    if s == "" || s[0] != '"' then Err(ExpectedString, s) else ParseChars(s[1..], "")
  }

  /** The length of the number token at the head of `s` and whether it is an integer token; or where it breaks off. */
  datatype Token = Token(length: nat, integer: bool) | Broken(at: nat)

  function Whole(s: string): (t: Token)
    ensures t.Token? ==> t.length <= |s| && IntegerText(s[..t.length])
  {
    var sign := if s != "" && s[0] == '-' then 1 else 0;
    if sign == |s| then Broken(sign)
    else if s[sign] == '0' then
      assert s[..sign + 1][sign..] == "0";
      Token(sign + 1, true)
    else if IsDigit(s[sign]) then
      var run := DigitRun(s[sign..]);
      assert s[..sign + run][sign..] == s[sign..][..run];
      Token(sign + run, true)
    else Broken(sign)
  }

  function Fraction(s: string, t: Token): Token {
    if t.Broken? || t.length >= |s| || s[t.length] != '.' then t
    else
      var at := t.length + 1;
      if at >= |s| || !IsDigit(s[at]) then Broken(at) else Token(at + DigitRun(s[at..]), false)
  }

  function Exponent(s: string, t: Token): Token {
    if t.Broken? || t.length >= |s| || (s[t.length] != 'e' && s[t.length] != 'E') then t
    else
      var after := t.length + 1;
      var at := if after < |s| && (s[after] == '+' || s[after] == '-') then after + 1 else after;
      if at >= |s| || !IsDigit(s[at]) then Broken(at) else Token(at + DigitRun(s[at..]), false)
  }

  function NumberToken(s: string): (t: Token)
    ensures t.Token? ==> 0 < t.length <= |s|
    ensures t.Token? && t.integer ==> IntegerText(s[..t.length])
    ensures t.Broken? ==> t.at <= |s|
  {
    Exponent(s, Fraction(s, Whole(s)))
  }

  /** An optional sign and digits, the input of `strtoimax`. */
  predicate IntegerText(s: string) {
    var digits := if s != "" && s[0] == '-' then s[1..] else s;
    digits != "" && AllDigits(digits)
  }

  function IntegerValue(s: string): int
    requires IntegerText(s)
  {
    if s[0] == '-' then 0 - DecimalValue(s[1..]) else DecimalValue(s)
  }

  function ParseNumber(lib: Library, s: string): (r: Parsed<Value>)
    ensures |r.rest| <= |s| && (r.Ok? ==> |r.rest| < |s|)
  {
    match NumberToken(s)
    case Broken(at) => Err(InvalidNumber, s[at..])
    case Token(length, integer) =>
      var text, rest := s[..length], s[length..];
      match lib.strtod(text)
      case None => Err(InvalidNumber, rest)
      case Some(value) =>
        if integer && IsInt64(IntegerValue(text)) then Ok(Num(Number(value, IntegerValue(text), true)), rest)
        else Ok(Num(Number(value, 0, false)), rest)
  }

  function MapStr(r: Parsed<string>): Parsed<Value> {
    match r
    case Ok(s, rest) => Ok(Str(s), rest)
    case Err(m, rest) => Err(m, rest)
  }

  predicate StartsWith(s: string, word: string) {
    |s| >= |word| && s[..|word|] == word
  }

  lemma NotAWord(s: string)
    requires s != "" && (s[0] == '-' || IsDigit(s[0]))
    ensures !StartsWith(s, "null") && !StartsWith(s, "true") && !StartsWith(s, "false")
  {
    assert |s| >= 4 ==> s[..4][0] == s[0];
    assert |s| >= 5 ==> s[..5][0] == s[0];
  }

  /** A value that holds no other. */
  function ParseScalar(lib: Library, t: string): (r: Parsed<Value>)
    requires t != ""
    ensures |r.rest| <= |t| && (r.Ok? ==> |r.rest| < |t|)
  {
    if t[0] == '"' then MapStr(ParseString(t))
    else if StartsWith(t, "null") then Ok(Null, t[4..])
    else if StartsWith(t, "true") then Ok(Bool(true), t[4..])
    else if StartsWith(t, "false") then Ok(Bool(false), t[5..])
    else if t[0] == '-' || IsDigit(t[0]) then ParseNumber(lib, t)
    else Err(UnexpectedToken, t)
  }

  /** One value, at nesting `depth`. */
  function ParseValue(lib: Library, s: string, depth: nat): (r: Parsed<Value>)
    ensures |r.rest| <= |s| && (r.Ok? ==> |r.rest| < |s|)
    decreases |s|, 1
  {
    var t := SkipSpace(s);
    if depth + 1 > MAX_DEPTH then Err(NestingExceeds64Levels, t)
    else if t == "" then Err(ExpectedValue, t)
    else if t[0] == '[' then ParseArray(lib, t[1..], depth + 1)
    else if t[0] == '{' then ParseObject(lib, t[1..], depth + 1)
    else ParseScalar(lib, t)
  }

  /** The rest of an array after its opening bracket. */
  function ParseArray(lib: Library, s: string, depth: nat): (r: Parsed<Value>)
    ensures |r.rest| <= |s| && (r.Ok? ==> |r.rest| < |s|)
    decreases |s|, 3
  {
    var t := SkipSpace(s);
    if t != "" && t[0] == ']' then Ok(Arr([]), t[1..]) else ParseItems(lib, t, depth, [])
  }

  /** The rest of an object after its opening brace. */
  function ParseObject(lib: Library, s: string, depth: nat): (r: Parsed<Value>)
    ensures |r.rest| <= |s| && (r.Ok? ==> |r.rest| < |s|)
    decreases |s|, 3
  {
    var t := SkipSpace(s);
    if t != "" && t[0] == '}' then Ok(Obj([]), t[1..]) else ParseMembers(lib, t, depth, [])
  }

  /** The items still to come of an array of which `done` has been read. */
  function ParseItems(lib: Library, s: string, depth: nat, done: seq<Value>): (r: Parsed<Value>)
    ensures |r.rest| <= |s| && (r.Ok? ==> |r.rest| < |s|)
    decreases |s|, 2
  {
    match ParseValue(lib, s, depth)
    case Err(m, rest) => Err(m, rest)
    case Ok(item, after) =>
      var t := SkipSpace(after);
      if t == "" then Err(ExpectedCommaOrClosingBracket, t)
      else if t[0] == ']' then Ok(Arr(done + [item]), t[1..])
      else if t[0] != ',' then Err(ExpectedCommaOrClosingBracket, t[1..])
      else ParseItems(lib, SkipSpace(t[1..]), depth, done + [item])
  }

  /** The members still to come of an object of which `done` has been read. */
  function ParseMembers(lib: Library, s: string, depth: nat, done: seq<Member>): (r: Parsed<Value>)
    ensures |r.rest| <= |s| && (r.Ok? ==> |r.rest| < |s|)
    decreases |s|, 2
  {
    match ParseMember(lib, s, depth)
    case Err(m, rest) => Err(m, rest)
    case Ok(member, after) =>
      var t := SkipSpace(after);
      if t != "" && t[0] == '}' then Ok(Obj(done + [member]), t[1..])
      else if t == "" then Err(ExpectedCommaOrClosingBrace, t)
      else if t[0] != ',' then Err(ExpectedCommaOrClosingBrace, t[1..])
      else ParseMembers(lib, SkipSpace(t[1..]), depth, done + [member])
  }

  function ParseMember(lib: Library, s: string, depth: nat): (r: Parsed<Member>)
    ensures |r.rest| <= |s| && (r.Ok? ==> |r.rest| < |s|)
    decreases |s|, 1
  {
    match ParseString(s)
    case Err(m, rest) => Err(m, rest)
    case Ok(key, after) =>
      var t := SkipSpace(after);
      if t == "" then Err(ExpectedColon, t)
      else if t[0] != ':' then Err(ExpectedColon, t[1..])
      else
        match ParseValue(lib, t[1..], depth)
        case Err(m, rest) => Err(m, rest)
        case Ok(value, rest) => Ok(Member(key, value), rest)
  }

  /** A whole document. */
  function Parse(lib: Library, text: string): (r: Parsed<Value>) {
    match ParseValue(lib, text, 0)
    case Err(m, rest) => Err(m, rest)
    case Ok(v, after) =>
      var t := SkipSpace(after);
      if t == "" then Ok(v, t) else Err(TrailingData, t)
  }
}
