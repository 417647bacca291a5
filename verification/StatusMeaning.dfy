/** What the status scan finds, by how a status line may be written. */
module StatusMeaning {
  import opened Text
  import opened StatusLine

  predicate IsBlank(c: char) {
    c == ' ' || c == '\t' || c == '\n' || c == '\r' || c == '\U{B}' || c == '\U{C}'
  }

  predicate AllBlank(s: string) {
    forall i :: 0 <= i < |s| ==> IsBlank(s[i])
  }

  predicate IsWord(s: string) {
    s != "" && forall i :: 0 <= i < |s| ==> !IsBlank(s[i])
  }

  /** A status line: a word after "HTTP/", white space, a number with or without a sign, and anything that is no digit. */
  datatype Line = Line(before: string, word: string, after: string, sign: string, digits: string, rest: string)

  predicate IsLine(l: Line) {
    && AllBlank(l.before) && IsWord(l.word) && AllBlank(l.after) && l.after != ""
    && (l.sign == "" || l.sign == "+" || l.sign == "-") && l.digits != "" && AllDigits(l.digits)
    && (l.rest != "" ==> !IsDigit(l.rest[0]))
  }

  function Spell(l: Line): string {
    "HTTP/" + (l.before + (l.word + (l.after + (l.sign + (l.digits + l.rest)))))
  }

  function Value(l: Line): int
    requires IsLine(l)
  {
    if l.sign == "-" then -(DecimalValue(l.digits) as int) else DecimalValue(l.digits)
  }

  // ----- a line is read

  lemma {:induction false} BlankSkipped(blank: string, s: string)
    requires AllBlank(blank) && (s != "" ==> !IsBlank(s[0]))
    ensures SkipSpace(blank + s) == s
  {
    if blank == "" {
      assert blank + s == s;
    } else {
      assert (blank + s)[1..] == blank[1..] + s;
      BlankSkipped(blank[1..], s);
    }
  }

  lemma {:induction false} WordPassed(word: string, s: string)
    requires (forall i :: 0 <= i < |word| ==> !IsBlank(word[i])) && (s != "" ==> IsBlank(s[0]))
    ensures AfterWord(word + s) == s
    decreases |word|
  {
    if word == "" {
      assert word + s == s;
    } else {
      assert (word + s)[1..] == word[1..] + s;
      WordPassed(word[1..], s);
    }
  }

  lemma NumberRead(sign: string, digits: string, rest: string)
    requires (sign == "" || sign == "+" || sign == "-") && digits != "" && AllDigits(digits) && (rest != "" ==> !IsDigit(rest[0]))
    ensures Number(sign + (digits + rest)) == Some(if sign == "-" then -(DecimalValue(digits) as int) else DecimalValue(digits))
    ensures !IsBlank((sign + (digits + rest))[0])
  {
    hide DigitRun, DecimalValue;
    var s := sign + (digits + rest);
    DigitRunOf(digits, rest);
    assert (digits + rest)[..|digits|] == digits;
    if sign == "" {
      assert s == digits + rest;
    } else {
      assert s[0] == sign[0] && s[1..] == digits + rest;
    }
  }

  lemma LineScanned(l: Line)
    requires IsLine(l)
    ensures Scan(Spell(l)) == Some(Value(l))
  {
    hide SkipSpace, AfterWord, Number, AllDigits, DecimalValue;
    var number := l.sign + (l.digits + l.rest);
    var s := l.before + (l.word + (l.after + number));
    assert ("HTTP/" + s)[..5] == "HTTP/" && ("HTTP/" + s)[5..] == s;
    assert (l.word + (l.after + number))[0] == l.word[0] && (l.after + number)[0] == l.after[0];
    NumberRead(l.sign, l.digits, l.rest);
    BlankSkipped(l.before, l.word + (l.after + number));
    WordPassed(l.word, l.after + number);
    BlankSkipped(l.after, number);
  }

  // ----- and nothing else is

  lemma {:induction false} Skipped(s: string) returns (blank: string)
    ensures s == blank + SkipSpace(s) && AllBlank(blank)
  {
    if s != "" && IsSpace(s[0]) {
      var more := Skipped(s[1..]);
      blank := [s[0]] + more;
      assert s == [s[0]] + s[1..];
    } else {
      blank := "";
    }
  }

  lemma {:induction false} Passed(s: string) returns (word: string)
    ensures s == word + AfterWord(s) && forall i :: 0 <= i < |word| ==> !IsBlank(word[i])
  {
    if s == "" || IsSpace(s[0]) {
      word := "";
    } else {
      var more := Passed(s[1..]);
      word := [s[0]] + more;
      assert s == [s[0]] + s[1..];
    }
  }

  lemma NumberSpelled(s: string) returns (sign: string, digits: string, rest: string)
    requires Number(s).Some?
    ensures (sign == "" || sign == "+" || sign == "-") && digits != "" && AllDigits(digits) && (rest != "" ==> !IsDigit(rest[0]))
    ensures s == sign + (digits + rest)
  {
    hide DigitRun, DecimalValue;
    sign := if s[0] == '-' then "-" else if s[0] == '+' then "+" else "";
    var t := if sign == "" then s else s[1..];
    var n := DigitRun(t);
    digits, rest := t[..n], t[n..];
    assert s == sign + t;
  }

  lemma LineFound(s: string) returns (l: Line)
    requires Scan(s).Some?
    ensures IsLine(l) && Spell(l) == s
  {
    hide SkipSpace, AfterWord, Number, AllDigits;
    var t := s[5..];
    var before := Skipped(t);
    var u := SkipSpace(t);
    var word := Passed(u);
    var v := AfterWord(u);
    var after := Skipped(v);
    var sign, digits, rest := NumberSpelled(SkipSpace(v));
    l := Line(before, word, after, sign, digits, rest);
    NumberRead(sign, digits, rest);
    assert s == "HTTP/" + t;
    NotEmpty(u, v, word, after);
  }

  /** Between a word and a number there is white space, so neither is empty. */
  lemma NotEmpty(u: string, v: string, word: string, after: string)
    requires u == word + v && v == after + SkipSpace(v) && v == AfterWord(u)
    requires (u != "" ==> !IsSpace(u[0])) && SkipSpace(v) != "" && !IsBlank(SkipSpace(v)[0])
    ensures word != "" && after != ""
  {
    hide SkipSpace, AfterWord;
    assert word == "" ==> u == v;
    assert after == "" ==> v == SkipSpace(v);
  }

  /** The scan finds a number exactly in a status line that says it. */
  lemma ScanExactly(s: string, n: int)
    ensures Scan(s) == Some(n) <==> exists l :: IsLine(l) && Spell(l) == s && Value(l) == n
  {
    hide Scan, IsLine, Spell, Value;
    if Scan(s).Some? {
      var l := LineFound(s);
      LineScanned(l);
    }
    if l :| IsLine(l) && Spell(l) == s && Value(l) == n {
      LineScanned(l);
    }
  }

  /** The status is the number of a status line, up to a zero byte, of three digits; otherwise it stays. */
  lemma StatusMeans(text: string, status: int)
    ensures forall l :: IsLine(l) && Spell(l) == UpToNul(text) && 100 <= Value(l) <= 999 ==> StatusIn(text, status) == Value(l)
    ensures (forall l :: IsLine(l) && Spell(l) == UpToNul(text) ==> !(100 <= Value(l) <= 999)) ==> StatusIn(text, status) == status
  {
    hide Scan, IsLine, Spell, Value;
    var s := UpToNul(text);
    forall l | IsLine(l) && Spell(l) == s
      ensures Scan(s) == Some(Value(l))
    {
      LineScanned(l);
    }
    if Scan(s).Some? {
      var l := LineFound(s);
      LineScanned(l);
    }
  }

  lemma {:induction false} NulEnds(a: string, b: string)
    requires NulFree(a)
    ensures UpToNul(a + (['\0'] + b)) == a
  {
    var s := a + (['\0'] + b);
    if a == "" {
      assert s == ['\0'] + b;
    } else {
      assert s[0] == a[0] && s[1..] == a[1..] + (['\0'] + b);
      NulEnds(a[1..], b);
    }
  }
}
