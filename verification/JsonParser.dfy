/** The parser as the program runs it: a cursor that advances over the text and a nesting counter. */
module JsonParser {
  import opened Text
  import opened Json

  /** What a parsing function hands back: the value, or the error it recorded at the cursor. */
  datatype Outcome<+T> = Done(value: T) | Failed(message: Message) {

    /** The outcome read together with the input that is left. */
    function At(rest: string): Parsed<T> {
      match this
      case Done(v) => Ok(v, rest)
      case Failed(m) => Err(m, rest)
    }
  }

  class Parser {
    const text: string
    var cursor: nat
    var depth: nat

    ghost predicate Valid()
      reads this`cursor
    {
      cursor <= |text|
    }

    ghost function Rest(): string
      requires Valid()
      reads this`cursor
    {
      text[cursor..]
    }

    constructor (text: string)
      ensures Valid() && this.text == text && Rest() == text && depth == 0
    {
      this.text := text;
      cursor, depth := 0, 0;
    }

    method SkipSpaces()
      requires Valid()
      modifies this`cursor
      ensures Valid() && Rest() == SkipSpace(old(Rest()))
    {
      while cursor < |text| && IsSpace(text[cursor])
        invariant Valid() && SkipSpace(Rest()) == SkipSpace(old(Rest()))
        decreases |text| - cursor
      {
        Advance(1);
      }
    }

    method Advance(n: nat)
      requires Valid() && n <= |Rest()|
      modifies this`cursor
      ensures Valid() && cursor == old(cursor) + n && Rest() == old(Rest())[n..]
    {
      cursor := cursor + n;
    }

    method AtEnd() returns (yes: bool)
      requires Valid()
      ensures yes == (Rest() == "")
    {
      yes := cursor >= |text|;
    }

    method Peek() returns (c: char)
      requires Valid() && Rest() != ""
      ensures c == Rest()[0]
    {
      c := text[cursor];
    }

    method ReadCodeUnit() returns (r: Outcome<nat>)
      requires Valid()
      modifies this`cursor
      ensures Valid() && r.At(Rest()) == CodeUnit(old(Rest()))
    {
      if |text| - cursor < 4 {
        return Failed(IncompleteUnicodeEscape);
      }
      ghost var s := Rest();
      ghost var a, b, c, d := HexValue(s[0]), HexValue(s[1]), HexValue(s[2]), HexValue(s[3]);
      var value := 0;
      for index := 0 to 4
        invariant Valid() && Rest() == s
        invariant index >= 1 ==> a >= 0
        invariant index >= 2 ==> b >= 0
        invariant index >= 3 ==> c >= 0
        invariant index >= 4 ==> d >= 0
        invariant value == if index == 0 then 0 else if index == 1 then a else if index == 2 then a * 16 + b
                           else if index == 3 then a * 0x100 + b * 16 + c
                           else a * 0x1000 + b * 0x100 + c * 16 + d
      {
        assert text[cursor + index] == s[index];
        var digit := HexValue(text[cursor + index]);
        if digit < 0 {
          return Failed(InvalidUnicodeEscape);
        }
        value := value * 16 + digit;
      }
      Advance(4);
      return Done(value);
    }

    method ReadUnicode() returns (r: Outcome<string>)
      requires Valid()
      modifies this`cursor
      ensures Valid() && r.At(Rest()) == ParseUnicode(old(Rest()))
    {
      hide CodeUnit, CodepointText;
      var unit := ReadCodeUnit();
      if unit.Failed? {
        return Failed(unit.message);
      }
      var codepoint := unit.value;
      if 0xD800 <= codepoint <= 0xDBFF {
        if |text| - cursor < 2 || text[cursor] != '\\' || text[cursor + 1] != 'u' {
          return Failed(HighSurrogateWithoutLowSurrogate);
        }
        Advance(2);
        var low := ReadCodeUnit();
        if low.Failed? {
          return Failed(low.message);
        }
        if low.value < 0xDC00 || low.value > 0xDFFF {
          return Failed(InvalidLowSurrogate);
        }
        codepoint := 0x1_0000 + (codepoint - 0xD800) * 0x400 + (low.value - 0xDC00);
      } else if 0xDC00 <= codepoint <= 0xDFFF {
        return Failed(UnexpectedLowSurrogate);
      }
      return Done(CodepointText(codepoint));
    }

    method ReadEscape() returns (r: Outcome<string>)
      requires Valid() && cursor < |text|
      modifies this`cursor
      ensures Valid() && r.At(Rest()) == ParseEscape(old(Rest()))
    {
      var escape := text[cursor];
      Advance(1);
      match escape
      case '"' => return Done("\"");
      case '\\' => return Done("\\");
      case '/' => return Done("/");
      case 'b' => return Done([BACKSPACE]);
      case 'f' => return Done([FORM_FEED]);
      case 'n' => return Done("\n");
      case 'r' => return Done("\r");
      case 't' => return Done("\t");
      case 'u' =>
        r := ReadUnicode();
      case _ => return Failed(InvalidEscape);
    }

    /** `ch_json_parse_string_raw`. */
    method ReadString() returns (r: Outcome<string>)
      requires Valid()
      modifies this`cursor
      ensures Valid() && r.At(Rest()) == ParseString(old(Rest()))
    {
      if cursor >= |text| || text[cursor] != '"' {
        return Failed(ExpectedString);
      }
      Advance(1);
      ghost var start := Rest();
      var output := "";
      while cursor < |text|
        invariant Valid() && ParseChars(Rest(), output) == ParseChars(start, "")
        decreases |text| - cursor
      {
        var character := text[cursor];
        Advance(1);
        if character == '"' {
          return Done(output);
        }
        if character < ' ' {
          return Failed(UnescapedControlCharacter);
        }
        if character != '\\' {
          output := output + [character];
          continue;
        }
        if cursor >= |text| {
          return Failed(IncompleteEscape);
        }
        var bytes := ReadEscape();
        if bytes.Failed? {
          return Failed(bytes.message);
        }
        output := output + bytes.value;
      }
      return Failed(UnterminatedString);
    }

    method SkipDigits()
      requires Valid()
      modifies this`cursor
      ensures Valid() && cursor == old(cursor) + DigitRun(old(Rest()))
    {
      while cursor < |text| && IsDigit(text[cursor])
        invariant Valid() && cursor + DigitRun(Rest()) == old(cursor) + DigitRun(old(Rest()))
        decreases |text| - cursor
      {
        Advance(1);
      }
    }

    /** `ch_json_parse_number`, reached on a minus sign or a digit. */
    method ReadNumber(lib: Library) returns (r: Outcome<Value>)
      requires Valid() && cursor < |text|
      modifies this`cursor
      ensures Valid() && r.At(Rest()) == ParseNumber(lib, old(Rest()))
    {
      hide NumberToken, IntegerText, IntegerValue;
      var start := cursor;
      ghost var s := Rest();
      var token := ScanNumber();
      if token.Broken? {
        return Failed(InvalidNumber);
      }
      var digits := text[start..cursor];
      assert digits == s[..token.length];
      match lib.strtod(digits)
      case None => return Failed(InvalidNumber);
      case Some(value) =>
        if token.integer && IsInt64(IntegerValue(digits)) {
          return Done(Num(Number(value, IntegerValue(digits), true)));
        }
        return Done(Num(Number(value, 0, false)));
    }

    /** The cursor stands where the token scanned so far ends or breaks off. */
    ghost predicate Stands(start: nat, token: Token)
      reads this`cursor
    {
      cursor == start + if token.Token? then token.length else token.at
    }

    /** The scan of a number token: whole part, fraction, exponent. */
    method ScanNumber() returns (token: Token)
      requires Valid() && cursor < |text|
      modifies this`cursor
      ensures Valid() && token == NumberToken(old(Rest())) && Stands(old(cursor), token)
    {
      var start := cursor;
      token := ScanWhole();
      token := ScanFraction(start, token);
      token := ScanExponent(start, token);
    }

    method ScanFraction(start: nat, token: Token) returns (next: Token)
      requires Valid() && start <= |text| && Stands(start, token)
      modifies this`cursor
      ensures Valid() && next == Fraction(text[start..], token) && Stands(start, next)
    {
      hide DigitRun;
      if token.Broken? || cursor >= |text| {
        return token;
      }
      assert text[cursor] == text[start..][token.length];
      if text[cursor] != '.' {
        return token;
      }
      Advance(1);
      next := ScanDigits(start);
    }

    method ScanExponent(start: nat, token: Token) returns (next: Token)
      requires Valid() && start <= |text| && Stands(start, token)
      modifies this`cursor
      ensures Valid() && next == Exponent(text[start..], token) && Stands(start, next)
    {
      hide DigitRun;
      if token.Broken? || cursor >= |text| {
        return token;
      }
      ghost var s := text[start..];
      assert text[cursor] == s[token.length];
      if text[cursor] != 'e' && text[cursor] != 'E' {
        return token;
      }
      Advance(1);
      var sign := cursor < |text| && (text[cursor] == '+' || text[cursor] == '-');
      assert cursor < |text| ==> text[cursor] == s[token.length + 1];
      if sign {
        Advance(1);
      }
      next := ScanDigits(start);
    }

    method ScanWhole() returns (token: Token)
      requires Valid() && cursor < |text|
      modifies this`cursor
      ensures Valid() && token == Whole(old(Rest())) && Stands(old(cursor), token)
    {
      ghost var s := Rest();
      var start := cursor;
      if text[cursor] == '-' {
        Advance(1);
      }
      if cursor >= |text| {
        return Broken(cursor - start);
      }
      assert text[cursor] == s[cursor - start] && Rest() == s[cursor - start..];
      if text[cursor] == '0' {
        Advance(1);
      } else if '1' <= text[cursor] <= '9' {
        SkipDigits();
      } else {
        return Broken(cursor - start);
      }
      return Token(cursor - start, true);
    }

    /** At least one digit, or a token broken here; both measured from `start`. */
    method ScanDigits(start: nat) returns (token: Token)
      requires Valid() && start <= cursor
      modifies this`cursor
      ensures var s, at := text[start..], old(cursor) - start;
              token == if at >= |s| || !IsDigit(s[at]) then Broken(at) else Token(at + DigitRun(s[at..]), false)
      ensures Valid() && Stands(start, token)
    {
      assert cursor < |text| ==> text[cursor] == text[start..][cursor - start];
      if cursor >= |text| || !IsDigit(text[cursor]) {
        return Broken(cursor - start);
      }
      assert Rest() == text[start..][cursor - start..];
      SkipDigits();
      return Token(cursor - start, false);
    }

    method Accept(word: string) returns (yes: bool)
      requires Valid()
      modifies this`cursor
      ensures Valid() && yes == StartsWith(old(Rest()), word)
      ensures Rest() == if yes then old(Rest())[|word|..] else old(Rest())
    {
      yes := |text| - cursor >= |word| && text[cursor..cursor + |word|] == word;
      assert |text| - cursor >= |word| ==> text[cursor..cursor + |word|] == Rest()[..|word|];
      if yes {
        Advance(|word|);
      }
    }

    method ReadScalar(lib: Library) returns (r: Outcome<Value>)
      requires Valid() && Rest() != ""
      modifies this`cursor
      ensures Valid() && r.At(Rest()) == ParseScalar(lib, old(Rest()))
    {
      hide ParseNumber, ParseString, StartsWith;
      if text[cursor] == '"' {
        var s := ReadString();
        match s
        case Failed(m) => return Failed(m);
        case Done(v) => return Done(Str(v));
      }
      var accepted := Accept("null");
      if accepted {
        return Done(Null);
      }
      accepted := Accept("true");
      if accepted {
        return Done(Bool(true));
      }
      accepted := Accept("false");
      if accepted {
        return Done(Bool(false));
      }
      assert text[cursor] == Rest()[0];
      if text[cursor] == '-' || IsDigit(text[cursor]) {
        r := ReadNumber(lib);
      } else {
        return Failed(UnexpectedToken);
      }
    }

    /** `ch_json_parse_value`: the counter is back where it was, on success and on failure. */
    method ReadValue(lib: Library) returns (r: Outcome<Value>)
      requires Valid()
      modifies this
      ensures Valid() && depth == old(depth)
      ensures r.At(Rest()) == ParseValue(lib, old(Rest()), depth)
      decreases |Rest()|, 1
    {
      hide Rest, ParseArray, ParseObject, ParseScalar, SkipSpace;
      SkipSpaces();
      depth := depth + 1;
      if depth > MAX_DEPTH {
        depth := depth - 1;
        return Failed(NestingExceeds64Levels);
      }
      var end := AtEnd();
      if end {
        r := Failed(ExpectedValue);
      } else {
        var c := Peek();
        if c == '[' {
          r := ReadArray(lib);
        } else if c == '{' {
          r := ReadObject(lib);
        } else {
          r := ReadScalar(lib);
        }
      }
      depth := depth - 1;
    }

    /** Steps over the closing bracket of an empty array or object, if that is what comes next. */
    method Closes(c: char) returns (yes: bool)
      requires Valid()
      modifies this`cursor
      ensures Valid() && yes == (old(Rest()) != "" && old(Rest())[0] == c)
      ensures Rest() == if yes then old(Rest())[1..] else old(Rest())
    {
      yes := cursor < |text| && text[cursor] == c;
      if yes {
        Advance(1);
      }
    }

    /** `ch_json_parse_array`. */
    method ReadArray(lib: Library) returns (r: Outcome<Value>)
      requires Valid() && Rest() != ""
      modifies this
      ensures Valid() && depth == old(depth)
      ensures r.At(Rest()) == ParseArray(lib, old(Rest())[1..], depth)
      decreases |Rest()|, 0
    {
      hide Rest, ParseValue, SkipSpace;
      Advance(1);
      SkipSpaces();
      var empty := Closes(']');
      if empty {
        return Done(Arr([]));
      }
      ghost var start := Rest();
      var items := [];
      while true
        invariant Valid() && depth == old(depth) && |Rest()| <= |start|
        invariant ParseItems(lib, Rest(), depth, items) == ParseItems(lib, start, depth, [])
        decreases |Rest()|
      {
        var item := ReadValue(lib);
        if item.Failed? {
          return Failed(item.message);
        }
        items := items + [item.value];
        SkipSpaces();
        var end := AtEnd();
        if end {
          return Failed(ExpectedCommaOrClosingBracket);
        }
        var c := Peek();
        Advance(1);
        if c == ']' {
          return Done(Arr(items));
        }
        if c != ',' {
          return Failed(ExpectedCommaOrClosingBracket);
        }
        SkipSpaces();
      }
    }

    /** `ch_json_parse_object`. */
    method ReadObject(lib: Library) returns (r: Outcome<Value>)
      requires Valid() && Rest() != ""
      modifies this
      ensures Valid() && depth == old(depth)
      ensures r.At(Rest()) == ParseObject(lib, old(Rest())[1..], depth)
      decreases |Rest()|, 0
    {
      hide Rest, ParseMember, SkipSpace;
      Advance(1);
      SkipSpaces();
      var empty := Closes('}');
      if empty {
        return Done(Obj([]));
      }
      ghost var start := Rest();
      var members := [];
      while true
        invariant Valid() && depth == old(depth) && |Rest()| <= |start|
        invariant ParseMembers(lib, Rest(), depth, members) == ParseMembers(lib, start, depth, [])
        decreases |Rest()|
      {
        var member := ReadMember(lib);
        if member.Failed? {
          return Failed(member.message);
        }
        members := members + [member.value];
        SkipSpaces();
        var end := AtEnd();
        if end {
          return Failed(ExpectedCommaOrClosingBrace);
        }
        var c := Peek();
        Advance(1);
        if c == '}' {
          return Done(Obj(members));
        }
        if c != ',' {
          return Failed(ExpectedCommaOrClosingBrace);
        }
        SkipSpaces();
      }
    }

    method ReadMember(lib: Library) returns (r: Outcome<Member>)
      requires Valid()
      modifies this
      ensures Valid() && depth == old(depth)
      ensures r.At(Rest()) == ParseMember(lib, old(Rest()), depth)
      decreases |Rest()|, 2
    {
      hide Rest, ParseValue, ParseString, SkipSpace;
      var key := ReadString();
      if key.Failed? {
        return Failed(key.message);
      }
      SkipSpaces();
      var end := AtEnd();
      if end {
        return Failed(ExpectedColon);
      }
      var c := Peek();
      Advance(1);
      if c != ':' {
        return Failed(ExpectedColon);
      }
      var value := ReadValue(lib);
      match value
      case Failed(m) => return Failed(m);
      case Done(v) => return Done(Member(key.value, v));
    }
  }

  /** `ch_json_parse`: the program's parser computes `Parse`. */
  method ParseText(lib: Library, text: string) returns (r: Outcome<Value>, position: nat)
    ensures position <= |text| && r.At(text[position..]) == Parse(lib, text)
  {
    hide ParseValue, SkipSpace;
    var parser := new Parser(text);
    r := parser.ReadValue(lib);
    if r.Failed? {
      return r, parser.cursor;
    }
    parser.SkipSpaces();
    position := parser.cursor;
    if position != |text| {
      r := Failed(TrailingData);
    }
  }
}
