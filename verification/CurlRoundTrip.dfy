/** Importing an exported cURL command returns the request. */
module CurlRoundTrip {
  import opened Text
  import opened CurlLex
  import opened Curl
  import JsonUtf8

  predicate Trimmed(s: string) {
    s == "" || (!IsSpace(s[0]) && !IsSpace(s[|s| - 1]))
  }

  predicate IsTidy(h: CapturedHeader) {
    !h.redacted && Trimmed(h.name) && Trimmed(h.value) && ':' !in h.name
  }

  /** The entries that can be exported without loss, but for the size of the stored body. */
  ghost predicate Exportable(e: Entry) {
    && Trimmed(e.verb) && Uppercase(e.verb) == e.verb
    && (forall i :: 0 <= i < |e.headers| ==> IsTidy(e.headers[i]))
    && JsonUtf8.Utf8Text(e.body) && (e.body != "" ==> e.body[0] != '@')
    && (SameIgnoringCase(e.verb, "GET") ==> e.body == "")
    && e.url != "" && e.url[0] != '-'
    && |Export(e)| <= MAX_BYTES
    && 1 + |CommandArgs(e)| + (if e.size > |e.body| then 1 + |Warning()| else 0) <= MAX_TOKENS
  }

  /** Headers that are redacted, and those that a client sets itself, are not sent again. */
  predicate IsSent(h: CapturedHeader) {
    !h.redacted && !SameIgnoringCase(h.name, "Content-Length") && !SameIgnoringCase(h.name, "Host")
  }

  lemma SentIsKept(h: CapturedHeader)
    ensures IsSent(h) <==> !IsOmitted(h)
  {
  }

  function KeptHeaders(hs: seq<CapturedHeader>): seq<Header> {
    if hs == [] then []
    else (if IsSent(hs[0]) then [Header(hs[0].name, hs[0].value)] else []) + KeptHeaders(hs[1..])
  }

  function Original(e: Entry): Request {
    Request(e.verb, e.url, KeptHeaders(e.headers), e.body)
  }

  /** The request as far as a command can carry it: its body ends at a zero byte. */
  function Carried(e: Entry): Request {
    Original(e).(body := UpToNul(e.body))
  }

  // ----- trimming

  lemma TrimTrimmed(s: string)
    requires Trimmed(s)
    ensures Trim(s) == s
  {
  }

  lemma SkipBlank(s: string)
    ensures SkipSpace(" " + s) == SkipSpace(s)
  {
    assert (" " + s)[1..] == s;
  }

  lemma TrimAfterBlank(s: string)
    requires Trimmed(s)
    ensures Trim(" " + s) == s
  {
    hide SkipSpace, TrimRight;
    SkipBlank(s);
    TrimTrimmed(s);
  }

  lemma {:induction false} ColonAt(name: string, post: string)
    requires ':' !in name
    ensures Colon(name + (":" + post)) == |name|
    decreases |name|
  {
    var s := name + (":" + post);
    if name == "" {
      assert s == ":" + post;
    } else {
      assert s[0] == name[0] && s[1..] == name[1..] + (":" + post);
      ColonAt(name[1..], post);
    }
  }

  lemma HeaderSplits(name: string, value: string)
    requires Trimmed(name) && Trimmed(value) && ':' !in name
    ensures SplitHeader(name + ": " + value) == Header(name, value)
  {
    hide Trim, Trimmed, Colon;
    var raw := name + ": " + value;
    assert raw == name + (":" + (" " + value));
    ColonAt(name, " " + value);
    assert raw[..|name|] == name && raw[|name| + 1..] == " " + value;
    TrimTrimmed(name);
    TrimAfterBlank(value);
  }

  // ----- tokens of the command

  lemma {:induction false} ValuesJoin(a: seq<Arg>, b: seq<Arg>)
    ensures Values(a + b) == Values(a) + Values(b)
  {
    if a == [] {
      assert a + b == b;
    } else {
      assert (a + b)[1..] == a[1..] + b;
      ValuesJoin(a[1..], b);
    }
  }

  lemma TwoValues(w: string, s: string)
    ensures Values([Bare(w), Quoted(s)]) == [w, s]
  {
    assert [Bare(w), Quoted(s)][1..] == [Quoted(s)] && [Quoted(s)][1..] == [];
    assert Values([Quoted(s)]) == [s] + [];
  }

  lemma {:induction false} HeaderArgsAre(hs: seq<CapturedHeader>)
    ensures forall i :: 0 <= i < |HeaderArgs(hs)| ==> IsArg(HeaderArgs(hs)[i])
  {
    if hs != [] {
      HeaderArgsAre(hs[1..]);
    }
  }

  lemma CommandArgsAre(e: Entry)
    ensures forall i :: 0 <= i < |CommandArgs(e)| ==> IsArg(CommandArgs(e)[i])
  {
    HeaderArgsAre(e.headers);
    hide HeaderArgs, SameIgnoringCase;
  }

  lemma CurlLexes(post: string)
    ensures Lex("curl" + post, Open, Part(false, "", [])) == Lex(post, Open, Part(true, "curl", []))
  {
    hide Lex;
    WordLexes("curl", post, Part(false, "", []));
    assert "" + "curl" == "curl";
  }

  /** The part after all arguments of a command have been read, its last one still open. */
  lemma CommandLexes(e: Entry, post: string)
    requires |CommandArgs(e)| < MAX_TOKENS
    ensures var args := CommandArgs(e);
            Lex("curl" + ArgsText(args) + post, Open, Part(false, "", []))
            == Lex(post, Open, Part(true, e.url, ["curl"] + Values(args[..|args| - 1])))
  {
    hide Lex, ArgsText;
    var args := CommandArgs(e);
    CommandArgsAre(e);
    Regroup("curl", ArgsText(args), post, "");
    CurlLexes(ArgsText(args) + post);
    ArgsLex(args, post, Part(true, "curl", []));
    assert [] + ["curl"] == ["curl"] && args[|args| - 1] == Quoted(e.url);
  }

  lemma ValuesOfCommand(e: Entry)
    ensures var args := CommandArgs(e);
            Values(args[..|args| - 1]) + [e.url] == Values(MethodArgs(e)) + (Values(HeaderArgs(e.headers)) + (Values(BodyArgs(e)) + [e.url]))
  {
    hide SameIgnoringCase, HeaderArgs;
    var args := CommandArgs(e);
    var a, b, c := MethodArgs(e), HeaderArgs(e.headers), BodyArgs(e);
    assert args[..|args| - 1] == a + b + c;
    ValuesJoin(a + b, c);
    ValuesJoin(a, b);
  }

  /** A plain command, lexed to the end. */
  lemma PlainTokens(e: Entry)
    requires |CommandArgs(e)| < MAX_TOKENS
    ensures var args := CommandArgs(e);
            Lex("curl" + ArgsText(args), Open, Part(false, "", [])) == Tokens(["curl"] + (Values(args[..|args| - 1]) + [e.url]))
  {
    var args := CommandArgs(e);
    assert |args| > 0;
    CommandLexes(e, "");
    assert "curl" + ArgsText(args) + "" == "curl" + ArgsText(args);
    ValuesLength(args[..|args| - 1]);
    assert ["curl"] + Values(args[..|args| - 1]) + [e.url] == ["curl"] + (Values(args[..|args| - 1]) + [e.url]);
  }

  lemma ValuesLength(args: seq<Arg>)
    ensures |Values(args)| == |args|
  {
  }

  // ----- the option loop

  lemma KindsOfFlags()
    ensures KindOf("-X") == SetMethod && KindOf("-H") == AddHeader && KindOf("--data-raw") == Data
  {
  }

  lemma TakeOption(flag: string, value: string, rest: seq<string>, d: Draft)
    requires TakesValue(KindOf(flag)) && Apply(d, KindOf(flag), value).Some?
    ensures Options([flag, value] + rest, d) == Options(rest, Apply(d, KindOf(flag), value).value)
  {
    hide KindOf, Apply;
    assert ([flag, value] + rest)[2..] == rest;
  }

  lemma MethodTaken(e: Entry, rest: seq<string>)
    requires Exportable(e)
    ensures exists isSet :: Options(Values(MethodArgs(e)) + rest, EMPTY)
                        == Options(rest, EMPTY.(verb := e.verb, methodSet := isSet)) && (isSet || e.body == "")
  {
    hide Options, KindOf, Export, CommandArgs, Trim;
    if SameIgnoringCase(e.verb, "GET") {
      UpperGet(e.verb);
      assert [] + rest == rest;
      assert EMPTY.(verb := e.verb, methodSet := false) == EMPTY;
    } else {
      KindsOfFlags();
      TwoValues("-X", e.verb);
      TrimTrimmed(e.verb);
      TakeOption("-X", e.verb, rest, EMPTY);
      assert Options(Values(MethodArgs(e)) + rest, EMPTY) == Options(rest, EMPTY.(verb := e.verb, methodSet := true));
    }
  }

  lemma UpperGet(m: string)
    requires SameIgnoringCase(m, "GET") && Uppercase(m) == m
    ensures m == "GET"
  {
    assert Uppercase(m)[0] == m[0] && Uppercase(m)[1] == m[1] && Uppercase(m)[2] == m[2];
  }

  lemma Associates(a: seq<string>, b: seq<string>, c: seq<string>)
    ensures a + b + c == a + (b + c)
  {
  }

  lemma NoValues()
    ensures Values([]) == []
  {
  }

  function RawHeader(h: CapturedHeader): string {
    h.name + ": " + h.value
  }

  lemma HeaderValues(hs: seq<CapturedHeader>)
    requires hs != []
    ensures Values(HeaderArgs(hs)) == (if IsOmitted(hs[0]) then [] else ["-H", RawHeader(hs[0])]) + Values(HeaderArgs(hs[1..]))
  {
    hide IsOmitted, Values;
    var raw, more := RawHeader(hs[0]), HeaderArgs(hs[1..]);
    if IsOmitted(hs[0]) {
      assert [] + more == more;
    } else {
      ValuesJoin([Bare("-H"), Quoted(raw)], more);
      TwoValues("-H", raw);
    }
  }

  lemma HeaderTaken(h: CapturedHeader, rest: seq<string>, d: Draft)
    requires IsTidy(h)
    ensures Options(["-H", RawHeader(h)] + rest, d) == Options(rest, d.(headers := d.headers + [Header(h.name, h.value)]))
  {
    hide Options, KindOf, SplitHeader, Trimmed;
    KindsOfFlags();
    HeaderSplits(h.name, h.value);
    TakeOption("-H", RawHeader(h), rest, d);
  }

  lemma KeptNext(hs: seq<CapturedHeader>, before: seq<Header>)
    requires hs != [] && !IsOmitted(hs[0])
    ensures before + [Header(hs[0].name, hs[0].value)] + KeptHeaders(hs[1..]) == before + KeptHeaders(hs)
  {
    hide IsOmitted, IsSent;
    SentIsKept(hs[0]);
  }

  lemma {:induction false} HeadersTaken(hs: seq<CapturedHeader>, rest: seq<string>, d: Draft)
    requires forall i :: 0 <= i < |hs| ==> IsTidy(hs[i])
    ensures Options(Values(HeaderArgs(hs)) + rest, d) == Options(rest, d.(headers := d.headers + KeptHeaders(hs)))
    decreases |hs|
  {
    hide Options, IsOmitted, IsSent, IsTidy, Values, RawHeader;
    if hs == [] {
      NoValues();
      assert [] + rest == rest && d.headers + [] == d.headers;
    } else {
      var h, more := hs[0], Values(HeaderArgs(hs[1..]));
      HeaderValues(hs);
      SentIsKept(h);
      if IsOmitted(h) {
        Associates([], more, rest);
        assert [] + (more + rest) == more + rest;
        HeadersTaken(hs[1..], rest, d);
        assert [] + KeptHeaders(hs[1..]) == KeptHeaders(hs[1..]);
      } else {
        Associates(["-H", RawHeader(h)], more, rest);
        HeaderTaken(h, more + rest, d);
        HeadersTaken(hs[1..], rest, d.(headers := d.headers + [Header(h.name, h.value)]));
        KeptNext(hs, d.headers);
      }
    }
  }

  lemma BodyTaken(e: Entry, rest: seq<string>, d: Draft)
    requires Exportable(e) && d.body == "" && d.parts == 0 && (d.methodSet || e.body == "")
    ensures exists parts :: Options(Values(BodyArgs(e)) + rest, d) == Options(rest, d.(body := UpToNul(e.body), parts := parts))
  {
    hide Options, KindOf, Export, CommandArgs, UpToNul;
    UpToNulWhole(e.body);
    if e.body == "" {
      assert [] + rest == rest;
      assert d.(body := UpToNul(e.body), parts := 0) == d;
    } else {
      KindsOfFlags();
      TwoValues("--data-raw", UpToNul(e.body));
      TakeOption("--data-raw", UpToNul(e.body), rest, d);
      assert "" + "" + UpToNul(e.body) == UpToNul(e.body);
      assert Options(Values(BodyArgs(e)) + rest, d) == Options(rest, d.(body := UpToNul(e.body), parts := 1));
    }
  }

  lemma {:induction false} OperandsTaken(words: seq<string>, d: Draft)
    requires words != [] && AllOperands(words)
    ensures Options(words, d) == Good(d.(url := Some(words[|words| - 1])))
    decreases |words|
  {
    hide KindOf;
    var next := d.(url := Some(words[0]));
    if |words| == 1 {
      assert words[1..] == [];
    } else {
      OperandsTaken(words[1..], next);
    }
  }

  /** The draft after the options of a command, its operands still to come. */
  lemma FlagsTaken(e: Entry, words: seq<string>) returns (d: Draft)
    requires Exportable(e)
    ensures d.verb == e.verb && d.headers == KeptHeaders(e.headers) && d.body == UpToNul(e.body)
    ensures Options(Values(MethodArgs(e)) + (Values(HeaderArgs(e.headers)) + (Values(BodyArgs(e)) + words)), EMPTY)
         == Options(words, d)
  {
    hide Options, Exportable, CommandArgs, Values, KeptHeaders, KindOf, HeaderArgs, MethodArgs, BodyArgs, UpToNul, Trim;
    UrlIsOperand(e);
    var h, b := Values(HeaderArgs(e.headers)), Values(BodyArgs(e));
    MethodTaken(e, h + (b + words));
    var isSet :| Options(Values(MethodArgs(e)) + (h + (b + words)), EMPTY)
              == Options(h + (b + words), EMPTY.(verb := e.verb, methodSet := isSet)) && (isSet || e.body == "");
    d := EMPTY.(verb := e.verb, methodSet := isSet);
    HeadersTaken(e.headers, b + words, d);
    d := d.(headers := d.headers + KeptHeaders(e.headers));
    BodyTaken(e, words, d);
    var parts :| Options(b + words, d) == Options(words, d.(body := UpToNul(e.body), parts := parts));
    d := d.(body := UpToNul(e.body), parts := parts);
    assert [] + KeptHeaders(e.headers) == KeptHeaders(e.headers);
  }

  predicate AllOperands(words: seq<string>) {
    forall i :: 0 <= i < |words| ==> words[i] != "" && KindOf(words[i]).Operand?
  }

  /** The last operand is the URL. */
  lemma UrlTaken(e: Entry, tail: seq<string>, d: Draft)
    requires e.url != "" && KindOf(e.url).Operand? && AllOperands(tail)
    requires d.verb == e.verb && d.headers == KeptHeaders(e.headers) && d.body == UpToNul(e.body)
    ensures Finished(Options([e.url] + tail, d)) ==
            Good(Carried(e).(url := if tail == [] then e.url else tail[|tail| - 1]))
  {
    hide Options, KeptHeaders, KindOf, UpToNul;
    OperandsTaken([e.url] + tail, d);
  }

  /** All the options of a command followed by operands. */
  lemma OptionsTaken(e: Entry, tail: seq<string>)
    requires Exportable(e) && AllOperands(tail)
    ensures var args := CommandArgs(e);
            && |args| > 0
            && Finished(Options(Values(args[..|args| - 1]) + [e.url] + tail, EMPTY)) ==
               Good(Carried(e).(url := if tail == [] then e.url else tail[|tail| - 1]))
  {
    hide Options, Exportable, Values, KeptHeaders, KindOf, HeaderArgs, MethodArgs, BodyArgs, CommandArgs, Finished, Original, AllOperands;
    var args := CommandArgs(e);
    CommandHasUrl(e);
    ValuesOfCommand(e);
    UrlIsOperand(e);
    Shuffle(Values(args[..|args| - 1]), [e.url], tail, Values(MethodArgs(e)), Values(HeaderArgs(e.headers)), Values(BodyArgs(e)));
    var d := FlagsTaken(e, [e.url] + tail);
    UrlTaken(e, tail, d);
  }

  lemma CommandHasUrl(e: Entry)
    ensures |CommandArgs(e)| > 0
  {
  }

  lemma Shuffle(all: seq<string>, url: seq<string>, tail: seq<string>, m: seq<string>, h: seq<string>, b: seq<string>)
    requires all + url == m + (h + (b + url))
    ensures all + url + tail == m + (h + (b + (url + tail)))
  {
    Associates(m, h + (b + url), tail);
    Associates(h, b + url, tail);
    Associates(b, url, tail);
  }

  lemma UrlIsOperand(e: Entry)
    requires Exportable(e)
    ensures e.url != "" && KindOf(e.url).Operand? && forall i :: 0 <= i < |e.headers| ==> IsTidy(e.headers[i])
  {
  }

  // ----- the round trip

  lemma {:induction false} ArgsTextEnds(args: seq<Arg>)
    requires args != [] && args[|args| - 1].Quoted?
    ensures ArgsText(args) != "" && ArgsText(args)[|ArgsText(args)| - 1] == '\''
    decreases |args|
  {
    if |args| == 1 {
      assert args[1..] == [];
      var q := Quote(args[0].text);
      assert ArgsText(args) == " " + q;
      assert q[|q| - 1] == '\'';
    } else {
      ArgsTextEnds(args[1..]);
      hide ArgText;
    }
  }

  lemma TrimCommand(e: Entry)
    ensures Trim("curl" + ArgsText(CommandArgs(e))) == "curl" + ArgsText(CommandArgs(e))
    ensures Trim("curl" + ArgsText(CommandArgs(e)) + TruncationNote()) == "curl" + ArgsText(CommandArgs(e)) + TruncationNote()
  {
    hide Trim, ArgsText, HeaderArgs, MethodArgs, BodyArgs, TruncationNote;
    var args := CommandArgs(e);
    ArgsTextEnds(args);
    WarningEnds();
    var s := "curl" + ArgsText(args);
    assert s[0] == 'c' && s[|s| - 1] == ArgsText(args)[|ArgsText(args)| - 1];
    TrimTrimmed(s);
    TrimJoined(s, TruncationNote());
  }

  lemma TrimJoined(s: string, t: string)
    requires s != "" && !IsSpace(s[0]) && t != "" && !IsSpace(t[|t| - 1])
    ensures Trim(s + t) == s + t
  {
    hide Trim;
    assert (s + t)[0] == s[0] && (s + t)[|s + t| - 1] == t[|t| - 1];
    TrimTrimmed(s + t);
  }

  lemma ArgsTextCons(args: seq<Arg>)
    requires args != []
    ensures ArgsText(args) == " " + (ArgText(args[0]) + ArgsText(args[1..]))
  {
  }

  lemma OneBare(arg: Arg)
    requires arg.Bare?
    ensures ArgsText([arg]) == " " + arg.word
  {
    assert [arg][1..] == [];
  }

  lemma LastOf(s: string, t: string)
    requires t != ""
    ensures s + t != "" && (s + t)[|s + t| - 1] == t[|t| - 1]
  {
  }

  lemma {:induction false} BareTextEnds(args: seq<Arg>)
    requires args != [] && args[|args| - 1].Bare? && args[|args| - 1].word != ""
    ensures ArgsText(args) != ""
    ensures var w := args[|args| - 1].word;
            ArgsText(args)[|ArgsText(args)| - 1] == w[|w| - 1]
    decreases |args|
  {
    hide ArgText, ArgsText;
    if |args| == 1 {
      OneBare(args[0]);
      assert args == [args[0]];
      LastOf(" ", args[0].word);
    } else {
      BareTextEnds(args[1..]);
      ArgsTextCons(args);
      LastOf(ArgText(args[0]), ArgsText(args[1..]));
      LastOf(" ", ArgText(args[0]) + ArgsText(args[1..]));
    }
  }

  lemma WarningEnds()
    ensures TruncationNote() != "" && !IsSpace(TruncationNote()[|TruncationNote()| - 1])
  {
    hide ArgsText, Warning, IsPlainWord;
    WarningIsPlain();
    BareTextEnds(Warning());
    var t := ArgsText(Warning());
    assert TruncationNote()[|TruncationNote()| - 1] == t[|t| - 1];
  }

  /** A word that lexes to itself and is not an option. */
  predicate IsPlainWord(w: string) {
    IsWord(w) && w[0] != '-'
  }

  lemma PlainWords()
    ensures IsPlainWord("#") && IsPlainWord("warning:") && IsPlainWord("captured") && IsPlainWord("request")
    ensures IsPlainWord("body") && IsPlainWord("was") && IsPlainWord("truncated;") && IsPlainWord("supply")
  {
  }

  lemma MorePlainWords()
    ensures IsPlainWord("the") && IsPlainWord("full") && IsPlainWord("before") && IsPlainWord("sending")
  {
  }

  lemma WarningIsPlain()
    ensures |Warning()| == 12 && Warning()[11] == Bare("sending") && IsPlainWord("#")
    ensures forall i :: 0 <= i < |Warning()| ==> Warning()[i].Bare? && IsPlainWord(Warning()[i].word)
  {
    hide IsPlainWord;
    PlainWords();
    MorePlainWords();
  }

  lemma WarningWords()
    ensures forall i :: 0 <= i < |Warning()| ==> IsArg(Warning()[i])
    ensures |Values(Warning())| == |Warning()| && AllOperands(["#"] + Values(Warning()))
    ensures |Warning()| > 0 && Values(Warning())[|Warning()| - 1] == "sending"
  {
    hide Warning, Values, IsWord;
    WarningIsPlain();
    ValuesAt(Warning());
    var all := ["#"] + Values(Warning());
    forall i | 0 <= i < |all|
      ensures all[i] != "" && KindOf(all[i]).Operand?
    {
      assert IsPlainWord(all[i]);
      WordsAreOperands(all[i]);
    }
  }

  lemma WordsAreOperands(w: string)
    requires IsPlainWord(w)
    ensures w != "" && KindOf(w).Operand?
  {
  }

  lemma {:induction false} ValuesAt(args: seq<Arg>)
    ensures |Values(args)| == |args| && forall i :: 0 <= i < |args| ==> Values(args)[i] == ArgValue(args[i])
  {
    if args != [] {
      ValuesAt(args[1..]);
    }
  }

  /** The comment of a truncated command lexes to its words. */
  lemma TruncatedTokens(e: Entry)
    requires 1 + |CommandArgs(e)| + 1 + |Warning()| <= MAX_TOKENS
    ensures var args := CommandArgs(e);
            && |args| > 0
            && Lex("curl" + ArgsText(args) + TruncationNote(), Open, Part(false, "", []))
               == Tokens(["curl"] + (Values(args[..|args| - 1]) + [e.url] + (["#"] + Values(Warning()))))
  {
    hide Lex, ArgsText, CommandArgs, Values, Warning, TruncationNote;
    var args := CommandArgs(e);
    CommandHasUrl(e);
    var init := Values(args[..|args| - 1]);
    ValuesLength(args[..|args| - 1]);
    CommandLexes(e, TruncationNote());
    CommentLexes(Part(true, e.url, ["curl"] + init));
    Associates(["curl"], init, [e.url]);
    Associates(["curl"], init + [e.url], ["#"] + Values(Warning()));
  }

  lemma CommentLexes(p: Part)
    requires p.has && |p.tokens| + 2 + |Warning()| <= MAX_TOKENS
    ensures Lex(TruncationNote(), Open, p) == Tokens(p.tokens + [p.current] + (["#"] + Values(Warning())))
  {
    hide Lex, ArgsText, Warning, Values, IsWord, AllOperands;
    var q := Part(false, "", p.tokens + [p.current]);
    NewlineLexes("#" + ArgsText(Warning()), p);
    WarningIsPlain();
    WordLexes("#", ArgsText(Warning()), q);
    assert "" + "#" == "#";
    WarningWords();
    WordsLex(Warning(), Part(true, "#", q.tokens));
    Associates(q.tokens, ["#"], Values(Warning()));
  }

  /** Arguments up to the end of the text. */
  lemma WordsLex(args: seq<Arg>, p: Part)
    requires p.has && args != [] && |p.tokens| + 1 + |args| <= MAX_TOKENS && forall i :: 0 <= i < |args| ==> IsArg(args[i])
    ensures Lex(ArgsText(args), Open, p) == Tokens(p.tokens + [p.current] + Values(args))
  {
    hide Lex, ArgsText, Values, IsArg;
    var n := |args| - 1;
    ArgsLex(args, "", p);
    assert ArgsText(args) + "" == ArgsText(args);
    ValuesLength(args[..n]);
    LexEnd(Part(true, ArgValue(args[n]), p.tokens + [p.current] + Values(args[..n])));
    assert args == args[..n] + [args[n]];
    ValuesJoin(args[..n], [args[n]]);
    ValuesAt([args[n]]);
    assert Values([args[n]]) == [ArgValue(args[n])];
    Associates(p.tokens + [p.current], Values(args[..n]), [ArgValue(args[n])]);
  }

  lemma NewlineLexes(post: string, p: Part)
    requires p.has && |p.tokens| < MAX_TOKENS
    ensures Lex("\n" + post, Open, p) == Lex(post, Open, Part(false, "", p.tokens + [p.current]))
  {
    assert ("\n" + post)[1..] == post;
  }

  lemma LexEnd(p: Part)
    requires p.has && |p.tokens| < MAX_TOKENS
    ensures Lex("", Open, p) == Tokens(p.tokens + [p.current])
  {
  }

  lemma NotesAre(e: Entry)
    requires Exportable(e)
    ensures Export(e) == "curl" + ArgsText(CommandArgs(e)) + (if e.size > |e.body| then TruncationNote() else "")
    ensures |Export(e)| <= MAX_BYTES
    ensures 1 + |CommandArgs(e)| + (if e.size > |e.body| then 1 + |Warning()| else 0) <= MAX_TOKENS
  {
    hide CommandArgs, ArgsText, TruncationNote, Warning;
    assert !AnyRedacted(e.headers);
    var notes := if e.size > |e.body| then TruncationNote() else "";
    assert notes + "" == notes;
  }

  /**
    Importing an exported command returns the request as long as the stored body is whole and holds no zero byte. When it
    was cut short, the warning after the command is read as operands, and the URL becomes the warning's last word.
   */
  lemma ImportExport(e: Entry)
    requires Exportable(e)
    ensures Import(Export(e)) == Good(Carried(e).(url := if e.size > |e.body| then "sending" else e.url))
    ensures Import(Export(e)) == Good(Original(e)) <==> NulFree(e.body) && (e.size <= |e.body| || e.url == "sending")
  {
    hide Lex, ArgsText, CommandArgs, Exportable, Export, Options, Finished, Trim, KeptHeaders, AllOperands, Warning, TruncationNote, UpToNul;
    UpToNulWhole(e.body);
    NotesAre(e);
    TrimCommand(e);
    if e.size > |e.body| {
      var tail := ["#"] + Values(Warning());
      TruncatedTokens(e);
      WarningWords();
      OptionsTaken(e, tail);
      DropCurl(Values(CommandArgs(e)[..|CommandArgs(e)| - 1]) + [e.url] + tail);
    } else {
      PlainTokens(e);
      NoOperands();
      OptionsTaken(e, []);
      var all := Values(CommandArgs(e)[..|CommandArgs(e)| - 1]) + [e.url];
      assert all + [] == all;
      DropCurl(all);
      assert "curl" + ArgsText(CommandArgs(e)) + "" == "curl" + ArgsText(CommandArgs(e));
    }
  }

  lemma NoOperands()
    ensures AllOperands([])
  {
  }

  lemma DropCurl(rest: seq<string>)
    ensures WithoutCurl(["curl"] + rest) == rest
  {
    assert SameIgnoringCase("curl", "curl");
    assert (["curl"] + rest)[1..] == rest;
  }
}
