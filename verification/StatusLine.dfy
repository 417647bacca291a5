/** How the status is scanned from a response: `sscanf` over everything received so far, not the header block alone. */
module StatusLine {
  import opened Text

  /** The text after the first run of characters that are not space. */
  function AfterWord(s: string): (t: string)
    ensures |t| <= |s| && (t != "" ==> IsSpace(t[0]) && t[|t| - 1] == s[|s| - 1])
  {
    if s == "" || IsSpace(s[0]) then s else AfterWord(s[1..])
  }

  /** A number as `%d` reads it: a sign, then digits. */
  function Number(s: string): Option<int> {
    var digits := if s != "" && (s[0] == '-' || s[0] == '+') then s[1..] else s;
    var n := DigitRun(digits);
    if n == 0 then None
    else Some(if s[0] == '-' then -(DecimalValue(digits[..n]) as int) else DecimalValue(digits[..n]))
  }

  predicate StartsHttp(s: string)
    ensures StartsHttp(s) ==> |s| >= 5
  {
    |s| >= 5 && s[..5] == "HTTP/"
  }

  /** What the scan finds where the number should be: the text after "HTTP/", a word and space. */
  function NumberPart(s: string): string
    requires |s| >= 5
  {
    AfterSpacedWord(s[5..])
  }

  function AfterSpacedWord(s: string): string {
    SkipSpace(AfterWord(SkipSpace(s)))
  }

  function Scan(s: string): Option<int> {
    if StartsHttp(s) then Number(NumberPart(s)) else None
  }

  function StatusIn(text: string, status: int): int {
    match Scan(UpToNul(text))
    case Some(n) => if 100 <= n <= 999 then n else status
    case None => status
  }

  /** The header block holds the place where the status is read from. */
  predicate Decided(h: string) {
    StartsHttp(h) ==> NumberPart(h) != ""
  }

  /** A blank line's four characters. */
  predicate BlankAt(s: string, i: nat) {
    i + 4 <= |s| && s[i] == '\r' && s[i + 1] == '\n' && s[i + 2] == '\r' && s[i + 3] == '\n'
  }

  /** A header block: text up to and with its blank line. */
  predicate IsBlock(h: string) {
    |h| >= 4 && BlankAt(h, |h| - 4) && NulFree(h)
  }

  lemma {:induction false} SkipMore(a: string, y: string)
    ensures SkipSpace(a + y) == if SkipSpace(a) == "" then SkipSpace(y) else SkipSpace(a) + y
  {
    if a == "" {
      assert a + y == y;
    } else {
      assert (a + y)[1..] == a[1..] + y;
      SkipMore(a[1..], y);
    }
  }

  lemma {:induction false} WordMore(a: string, y: string)
    requires AfterWord(a) != ""
    ensures AfterWord(a + y) == AfterWord(a) + y
  {
    if !IsSpace(a[0]) {
      assert (a + y)[1..] == a[1..] + y;
      WordMore(a[1..], y);
    }
  }

  lemma RunStops(s: string)
    requires s != "" && IsSpace(s[|s| - 1])
    ensures DigitRun(s) < |s|
  {
    hide DigitRun;
    assert AllDigits(s[..DigitRun(s)]);
    assert !IsDigit(s[|s| - 1]);
    assert s[..|s|] == s;
  }

  lemma RunMore(s: string, y: string)
    requires s != "" && IsSpace(s[|s| - 1])
    ensures DigitRun(s + y) == DigitRun(s) && (s + y)[..DigitRun(s)] == s[..DigitRun(s)]
  {
    hide DigitRun;
    RunStops(s);
    var n := DigitRun(s);
    assert s[..n] + (s[n..] + y) == s + y;
    DigitRunOf(s[..n], s[n..] + y);
  }

  lemma NumberMore(b: string, y: string)
    requires b != "" && !IsSpace(b[0]) && IsSpace(b[|b| - 1])
    ensures Number(b + y) == Number(b)
  {
    hide DecimalValue, DigitRun;
    assert (b + y)[1..] == b[1..] + y;
    RunMore(b, y);
    if |b| > 1 {
      RunMore(b[1..], y);
    }
  }

  lemma BlockEnds(h: string)
    requires IsBlock(h)
    ensures h != "" && IsSpace(h[|h| - 1]) && (|h| < 5 ==> h[0] == '\r')
  {
  }

  lemma StartLong(h: string, y: string)
    requires |h| >= 5
    ensures StartsHttp(h + y) == StartsHttp(h)
  {
    assert (h + y)[..5] == h[..5];
  }

  lemma StartOther(s: string)
    requires s != "" && s[0] == '\r'
    ensures !StartsHttp(s)
  {
    assert |s| >= 5 ==> s[..5][0] == '\r';
  }

  lemma StartMore(h: string, y: string)
    requires IsBlock(h)
    ensures StartsHttp(h + y) == StartsHttp(h)
  {
    hide StartsHttp, IsBlock;
    BlockEnds(h);
    if |h| >= 5 {
      StartLong(h, y);
    } else {
      StartOther(h);
      StartOther(h + y);
    }
  }

  lemma WordThenMore(r: string, y: string)
    requires AfterSpacedWord(r) != ""
    ensures AfterSpacedWord(r + y) == AfterSpacedWord(r) + y
  {
    hide SkipSpace, AfterWord;
    NothingAfter();
    SkipMore(r, y);
    WordMore(SkipSpace(r), y);
    SkipMore(AfterWord(SkipSpace(r)), y);
  }

  lemma WordThenSpace(r: string, y: string)
    requires SkipSpace(r) != "" && IsSpace(r[|r| - 1]) && AfterSpacedWord(r) == ""
    ensures AfterSpacedWord(r + y) == SkipSpace(y)
  {
    hide SkipSpace, AfterWord;
    SkipMore(r, y);
    WordEnds(SkipSpace(r));
    WordMore(SkipSpace(r), y);
    SkipMore(AfterWord(SkipSpace(r)), y);
  }

  lemma OnlySpace(r: string, y: string)
    requires SkipSpace(r) == ""
    ensures AfterSpacedWord(r) == "" && AfterSpacedWord(r + y) == AfterSpacedWord(y)
  {
    hide SkipSpace, AfterWord;
    NothingAfter();
    SkipMore(r, y);
  }

  /** When more text follows a block that holds the number's place, the place does not move. */
  lemma PartStays(h: string, y: string)
    requires |h| >= 5 && NumberPart(h) != ""
    ensures NumberPart(h + y) == NumberPart(h) + y
  {
    hide AfterSpacedWord;
    assert (h + y)[5..] == h[5..] + y;
    WordThenMore(h[5..], y);
  }

  /** When it holds a word but no number's place, the number is looked for at the head of what follows. */
  lemma PartAfterWord(h: string, y: string)
    requires |h| >= 5 && IsSpace(h[|h| - 1]) && NumberPart(h) == "" && SkipSpace(h[5..]) != ""
    ensures NumberPart(h + y) == SkipSpace(y)
  {
    hide AfterSpacedWord, SkipSpace;
    assert (h + y)[5..] == h[5..] + y;
    WordThenSpace(h[5..], y);
  }

  /** When it holds no word either, a word is looked for first. */
  lemma PartWithoutWord(h: string, y: string)
    requires |h| >= 5 && SkipSpace(h[5..]) == ""
    ensures NumberPart(h) == "" && NumberPart(h + y) == AfterSpacedWord(y)
  {
    hide AfterSpacedWord, SkipSpace;
    assert (h + y)[5..] == h[5..] + y;
    OnlySpace(h[5..], y);
  }

  lemma NothingAfter()
    ensures SkipSpace("") == "" && AfterWord("") == ""
  {
  }

  lemma {:induction false} WordEnds(a: string)
    requires a != "" && IsSpace(a[|a| - 1])
    ensures AfterWord(a) != ""
  {
    if !IsSpace(a[0]) {
      WordEnds(a[1..]);
    }
  }

  /** Once the number's place is inside the header block, what follows the block does not matter. */
  lemma ScanDecided(h: string, y: string)
    requires IsBlock(h) && Decided(h)
    ensures Scan(h + y) == Scan(h)
  {
    hide Number, SkipSpace, AfterWord, StartsHttp, IsBlock;
    StartMore(h, y);
    if StartsHttp(h) {
      BlockEnds(h);
      PartStays(h, y);
      PartEnds(h);
      NumberMore(NumberPart(h), y);
    }
  }

  lemma PartEnds(h: string)
    requires |h| >= 5 && IsSpace(h[|h| - 1]) && NumberPart(h) != ""
    ensures !IsSpace(NumberPart(h)[0]) && IsSpace(NumberPart(h)[|NumberPart(h)| - 1])
  {
    hide SkipSpace, AfterWord;
    NothingAfter();
  }

  lemma ReadsDecimal(n: nat)
    ensures Number(Decimal(n)) == Some(n)
  {
    hide Decimal, DecimalValue, DigitRun;
    var s := Decimal(n);
    assert IsDigit(s[0]);
    assert s + "" == s && s[..|s|] == s;
    DigitRunOf(s, "");
    DecimalRoundTrip(n);
  }

  /** Body text that makes the scan find a number: with a word before it when the block has none. */
  function Lure(n: nat, bare: bool): string {
    if bare then Decimal(n) else ['x'] + ([' '] + Decimal(n))
  }

  lemma LureIsText(n: nat, bare: bool)
    ensures NulFree(Lure(n, bare)) && |Lure(n, bare)| == |Decimal(n)| + (if bare then 0 else 2)
  {
    hide Decimal;
    assert forall i :: 0 <= i < |Decimal(n)| ==> IsDigit(Decimal(n)[i]);
  }

  lemma LureBare(n: nat)
    ensures SkipSpace(Lure(n, true)) == Decimal(n)
  {
    hide Decimal;
    assert IsDigit(Decimal(n)[0]);
  }

  lemma SkipNone(s: string)
    requires s != "" && !IsSpace(s[0])
    ensures SkipSpace(s) == s
  {
  }

  lemma SkipOne(s: string)
    ensures SkipSpace([' '] + s) == SkipSpace(s)
  {
    assert ([' '] + s)[1..] == s;
  }

  lemma WordOne(s: string)
    requires s != "" && IsSpace(s[0])
    ensures AfterWord(['x'] + s) == s
  {
    assert (['x'] + s)[1..] == s;
  }

  lemma LureWord(n: nat)
    ensures AfterSpacedWord(Lure(n, false)) == Decimal(n)
  {
    hide Decimal, Lure, SkipSpace, AfterWord;
    LureStarts(n);
    SkipNone(['x'] + ([' '] + Decimal(n)));
    WordOne([' '] + Decimal(n));
    SkipOne(Decimal(n));
    assert IsDigit(Decimal(n)[0]);
    SkipNone(Decimal(n));
  }

  lemma LureStarts(n: nat)
    ensures Lure(n, false) == ['x'] + ([' '] + Decimal(n))
  {
  }

  /** Whether a block that starts like a status line goes on with a word. */
  predicate HasWord(h: string) {
    |h| >= 5 && SkipSpace(h[5..]) != ""
  }

  /** When the block does not hold it, the scan goes on into the body, and can find any number there. */
  lemma ScanUndecided(h: string, n: nat) returns (y: string)
    requires IsBlock(h) && !Decided(h)
    ensures Scan(h) == None && Scan(h + y) == Some(n) && NulFree(y)
    ensures |y| == |Decimal(n)| + (if HasWord(h) then 0 else 2)
  {
    hide Number, SkipSpace, AfterSpacedWord, Decimal, StartsHttp, IsBlock, NumberPart, Lure, NulFree;
    y := Lure(n, HasWord(h));
    StartMore(h, y);
    BlockEnds(h);
    if HasWord(h) {
      PartAfterWord(h, y);
      LureBare(n);
    } else {
      PartWithoutWord(h, y);
      LureWord(n);
    }
    LureIsText(n, HasWord(h));
    ReadsDecimal(n);
    NoNumber();
  }

  // ----- too little text for a status

  lemma SmallNumber(s: string)
    requires |s| <= 2
    ensures Number(s).Some? ==> -100 < Number(s).value < 100
  {
    hide DigitRun;
    var digits := if s != "" && (s[0] == '-' || s[0] == '+') then s[1..] else s;
    TwoDigitsAtMost(digits[..DigitRun(digits)]);
  }

  lemma TwoDigitsAtMost(s: string)
    requires AllDigits(s) && |s| <= 2
    ensures DecimalValue(s) < 100
  {
    if |s| == 2 {
      assert s[..1][..0] == "";
      assert DecimalValue(s[..1]) == DigitValue(s[0]);
    } else if |s| == 1 {
      assert s[..0] == "";
    }
  }

  lemma WordTakesOne(s: string)
    ensures s != "" && !IsSpace(s[0]) ==> |AfterWord(s)| < |s|
    ensures s != "" && IsSpace(s[0]) ==> |SkipSpace(s)| < |s|
  {
  }

  /** A word, a space and three digits, or the digits alone, are what it takes. */
  function Needed(h: string): nat {
    if HasWord(h) then 3 else 5
  }

  lemma TooShortForStatus(h: string, y: string)
    requires IsBlock(h) && !Decided(h) && |y| < Needed(h)
    ensures Scan(h + y).Some? ==> -100 < Scan(h + y).value < 100
  {
    hide Number, SkipSpace, AfterWord, StartsHttp, IsBlock, NumberPart;
    StartMore(h, y);
    BlockEnds(h);
    if HasWord(h) {
      PartAfterWord(h, y);
    } else {
      PartWithoutWord(h, y);
      var a := SkipSpace(y);
      WordTakesOne(a);
      WordTakesOne(AfterWord(a));
    }
    SmallNumber(NumberPart(h + y));
  }

  lemma NoNumber()
    ensures Number("") == None
  {
  }

  lemma {:induction false} UpToNulMore(h: string, x: string)
    requires NulFree(h)
    ensures UpToNul(h + x) == h + UpToNul(x)
  {
    if h == "" {
      assert h + x == x;
    } else {
      assert (h + x)[1..] == h[1..] + x;
      UpToNulMore(h[1..], x);
      assert h == [h[0]] + h[1..];
    }
  }

  lemma StatusMore(h: string, x: string, status: int)
    requires IsBlock(h) && Decided(h)
    ensures StatusIn(h + x, status) == StatusIn(h, status)
  {
    hide Scan, Decided, UpToNul;
    UpToNulMore(h, x);
    UpToNulMore(h, "");
    assert h + "" == h;
    NoText();
    ScanDecided(h, UpToNul(x));
  }

  lemma NoText()
    ensures UpToNul("") == ""
  {
  }

  lemma {:induction false} UpToNulShortens(s: string)
    ensures |UpToNul(s)| <= |s|
  {
    if s != "" {
      UpToNulShortens(s[1..]);
    }
  }

  /** Too little body after an undecided block leaves the status unset. */
  lemma StatusUnset(h: string, x: string)
    requires IsBlock(h) && !Decided(h) && |x| < Needed(h)
    ensures StatusIn(h + x, 0) == 0
  {
    hide Scan, Decided, UpToNul, IsBlock, Needed;
    BlockIsText(h);
    UpToNulMore(h, x);
    UpToNulShortens(x);
    TooShortForStatus(h, UpToNul(x));
  }

  lemma BlockIsText(h: string)
    requires IsBlock(h)
    ensures NulFree(h)
  {
  }
}
