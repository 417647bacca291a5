/** Exporting a captured request as a cURL command, and importing a cURL command. */
module Curl {
  import opened Text
  import opened CurlLex
  import Utf8
  import JsonUtf8

  datatype Header = Header(name: string, value: string)

  datatype CapturedHeader = CapturedHeader(name: string, value: string, redacted: bool)

  /** A captured request; `body` is the stored preview and `size` the number of body bytes seen. */
  datatype Entry = Entry(verb: string, url: string, headers: seq<CapturedHeader>, body: string, size: nat)

  /** An imported request. */
  datatype Request = Request(verb: string, url: string, headers: seq<Header>, body: string)

  // ----- export

  predicate IsOmitted(h: CapturedHeader) {
    h.redacted || SameIgnoringCase(h.name, "Content-Length") || SameIgnoringCase(h.name, "Host")
  }

  function MethodArgs(e: Entry): seq<Arg> {
    if SameIgnoringCase(e.verb, "GET") then [] else [Bare("-X"), Quoted(e.verb)]
  }

  function HeaderArgs(hs: seq<CapturedHeader>): seq<Arg> {
    if hs == [] then []
    else
      (if IsOmitted(hs[0]) then [] else [Bare("-H"), Quoted(hs[0].name + ": " + hs[0].value)]) + HeaderArgs(hs[1..])
  }

  /** The stored body goes through a C string, which ends at a zero byte. */
  ghost function BodyArgs(e: Entry): seq<Arg> {
    if e.body != "" && JsonUtf8.Utf8Text(e.body) then [Bare("--data-raw"), Quoted(UpToNul(e.body))] else []
  }

  ghost function CommandArgs(e: Entry): seq<Arg> {
    MethodArgs(e) + HeaderArgs(e.headers) + BodyArgs(e) + [Quoted(e.url)]
  }

  function RedactedNames(hs: seq<CapturedHeader>, first: bool): string {
    if hs == [] then ""
    else if hs[0].redacted then (if first then "" else ", ") + hs[0].name + RedactedNames(hs[1..], false)
    else RedactedNames(hs[1..], first)
  }

  predicate AnyRedacted(hs: seq<CapturedHeader>) {
    exists i :: 0 <= i < |hs| && hs[i].redacted
  }

  /** The words of the comment that follows a command whose body was cut short. */
  function Warning(): seq<Arg> {
    [Bare("warning:"), Bare("captured"), Bare("request"), Bare("body"), Bare("was"), Bare("truncated;"), Bare("supply"),
     Bare("the"), Bare("full"), Bare("body"), Bare("before"), Bare("sending")]
  }

  function TruncationNote(): string {
    "\n" + ("#" + ArgsText(Warning()))
  }

  function Notes(e: Entry): string {
    (if e.size > |e.body| then TruncationNote() else "")
    + (if AnyRedacted(e.headers) then "\n# redacted headers omitted: " + RedactedNames(e.headers, true) else "")
  }

  /** The text of `ch_developer_entry_curl_json`. */
  ghost function Export(e: Entry): string {
    "curl" + ArgsText(CommandArgs(e)) + Notes(e)
  }

  // ----- import

  function TrimRight(s: string): (t: string)
    ensures t <= s && (t != "" ==> !IsSpace(t[|t| - 1]))
  {
    if s != "" && IsSpace(s[|s| - 1]) then TrimRight(s[..|s| - 1]) else s
  }

  function Trim(s: string): string {
    TrimRight(SkipSpace(s))
  }

  function Uppercase(s: string): string {
    seq(|s|, i requires 0 <= i < |s| => Upper(s[i]))
  }

  /** What kind of option a token is, tried in this order. */
  datatype Kind = SetMethod | AddHeader | Data | UserAgent | Referer | SetUrl | Ignored | Switch | Operand

  predicate IsIgnored(t: string) {
    t in {"-o", "--output", "--connect-timeout", "-m", "--max-time", "--retry", "-u", "--user", "-b", "--cookie",
          "-x", "--proxy", "-U", "--proxy-user", "--resolve", "--dns-servers"}
  }

  function KindOf(t: string): Kind {
    if t == "" || t[0] != '-' then Operand
    else if t == "-X" || t == "--request" then SetMethod
    else if t == "-H" || t == "--header" then AddHeader
    else if t == "-d" || t == "--data" || t == "--data-raw" || t == "--data-binary" || t == "--data-ascii" then Data
    else if t == "-A" || t == "--user-agent" then UserAgent
    else if t == "-e" || t == "--referer" then Referer
    else if t == "--url" then SetUrl
    else if IsIgnored(t) then Ignored
    else Switch
  }

  predicate TakesValue(k: Kind) {
    !k.Switch? && !k.Operand?
  }

  /** Why a command is refused. */
  datatype Refusal = NotTokens(why: Lexed) | NeedsValue(flag: string) | NamesFile(flag: string) | NoUrl

  datatype Imported<+T> = Good(value: T) | Bad(why: Refusal)

  /** The option loop's variables. */
  datatype Draft = Draft(verb: string, methodSet: bool, url: Option<string>, headers: seq<Header>, body: string, parts: nat)

  const EMPTY: Draft := Draft("GET", false, None, [], "", 0)

  function Colon(s: string): (n: nat)
    ensures n <= |s|
  {
    if s == "" || s[0] == ':' then 0 else 1 + Colon(s[1..])
  }

  /** `developer_curl_header_append`: split at the first colon and trim both sides. */
  function SplitHeader(raw: string): Header {
    var n := Colon(raw);
    Header(Trim(raw[..n]), Trim(if n < |raw| then raw[n + 1..] else ""))
  }

  /** The effect of one option with its value; none for a data value that names a file. */
  function Apply(d: Draft, k: Kind, value: string): Option<Draft> {
    match k
    case SetMethod => Some(d.(verb := Uppercase(Trim(value)), methodSet := true))
    case AddHeader => Some(d.(headers := d.headers + [SplitHeader(value)]))
    case Data =>
      if value != "" && value[0] == '@' then None
      else
        Some(d.(body := d.body + (if d.parts == 0 then "" else "&") + value, parts := d.parts + 1,
                verb := if d.methodSet then d.verb else "POST"))
    case UserAgent => Some(d.(headers := d.headers + [SplitHeader("User-Agent: " + value)]))
    case Referer => Some(d.(headers := d.headers + [SplitHeader("Referer: " + value)]))
    case SetUrl => Some(d.(url := Some(value)))
    case Ignored => Some(d)
    case Switch => Some(d)
    case Operand => Some(d.(url := Some(value)))
  }

  function Options(tokens: seq<string>, d: Draft): Imported<Draft>
    decreases |tokens|
  {
    if tokens == [] then Good(d)
    else
      var k := KindOf(tokens[0]);
      if TakesValue(k) then
        if |tokens| < 2 then Bad(NeedsValue(tokens[0]))
        else
          match Apply(d, k, tokens[1])
          case None => Bad(NamesFile(tokens[0]))
          case Some(next) => Options(tokens[2..], next)
      else
        match Apply(d, k, tokens[0])
        case None => Bad(NamesFile(tokens[0]))
        case Some(next) => Options(tokens[1..], next)
  }

  predicate IsCurl(t: string) {
    SameIgnoringCase(t, "curl") || (|t| >= 5 && SameIgnoringCase(t[|t| - 5..], "/curl"))
  }

  function WithoutCurl(tokens: seq<string>): seq<string> {
    if tokens != [] && IsCurl(tokens[0]) then tokens[1..] else tokens
  }

  function Finished(d: Imported<Draft>): Imported<Request> {
    match d
    case Bad(why) => Bad(why)
    case Good(d) =>
      match d.url
      case None => Bad(NoUrl)
      case Some(url) => if url == "" then Bad(NoUrl) else Good(Request(d.verb, url, d.headers, d.body))
  }

  /** `ch_developer_curl_import_json`, from the command to the request. */
  function Import(text: string): Imported<Request> {
    match Tokenized(Trim(text))
    case Tokens(tokens) => Finished(Options(WithoutCurl(tokens), EMPTY))
    case why => Bad(NotTokens(why))
  }

  // ----- the programs

  /** The option loop. */
  method ImportCommand(text: string) returns (r: Imported<Request>)
    ensures r == Import(text)
  {
    hide KindOf, Apply, Trim, Lex;
    var lexed := Tokenize(Trim(text));
    if !lexed.Tokens? {
      return Bad(NotTokens(lexed));
    }
    var tokens := lexed.tokens;
    var index := if |tokens| > 0 && IsCurl(tokens[0]) then 1 else 0;
    var d := EMPTY;
    assert index == 0 ==> tokens[index..] == tokens;
    while index < |tokens|
      invariant index <= |tokens|
      invariant Options(tokens[index..], d) == Options(WithoutCurl(tokens), EMPTY)
    {
      var k := KindOf(tokens[index]);
      ghost var rest := tokens[index..];
      assert rest[0] == tokens[index] && rest[1..] == tokens[index + 1..];
      var flag, value := tokens[index], tokens[index];
      if TakesValue(k) {
        if index + 1 >= |tokens| {
          return Bad(NeedsValue(flag));
        }
        assert rest[1] == tokens[index + 1] && rest[2..] == tokens[index + 2..];
        index := index + 1;
        value := tokens[index];
      }
      var next := Apply(d, k, value);
      if next.None? {
        return Bad(NamesFile(flag));
      }
      d := next.value;
      index := index + 1;
    }
    assert tokens[|tokens|..] == [];
    return Finished(Good(d));
  }

  lemma {:induction false} ArgsJoin(a: seq<Arg>, b: seq<Arg>)
    ensures ArgsText(a + b) == ArgsText(a) + ArgsText(b)
  {
    hide ArgText;
    if a == [] {
      assert a + b == b;
    } else {
      assert (a + b)[1..] == a[1..] + b;
      ArgsJoin(a[1..], b);
      Regroup(" ", ArgText(a[0]), ArgsText(a[1..]), ArgsText(b));
      Regroup(" ", ArgText(a[0]) + ArgsText(a[1..]), ArgsText(b), "");
      Regroup(ArgText(a[0]), ArgsText(a[1..]), ArgsText(b), "");
    }
  }

  lemma OptionText(w: string, s: string)
    ensures ArgsText([Bare(w), Quoted(s)]) == " " + w + " " + Quote(s)
    ensures ArgsText([Quoted(s)]) == " " + Quote(s)
  {
    hide Quote;
    assert [Bare(w), Quoted(s)][1..] == [Quoted(s)] && [Quoted(s)][1..] == [];
    assert ArgsText([Quoted(s)]) == " " + (Quote(s) + "");
  }

  function OptionPiece(flag: string, value: string): string {
    " " + flag + " " + Quote(value)
  }

  /** What one header adds to the command, and to the list of redacted names. */
  function HeaderText(h: CapturedHeader): string {
    if IsOmitted(h) then "" else OptionPiece("-H", h.name + ": " + h.value)
  }

  function NameText(h: CapturedHeader, first: bool): string {
    if h.redacted then (if first then "" else ", ") + h.name else ""
  }

  function HeadersFrom(hs: seq<CapturedHeader>, i: nat): string
    requires i <= |hs|
  {
    ArgsText(HeaderArgs(hs[i..]))
  }

  function NamesFrom(hs: seq<CapturedHeader>, i: nat, first: bool): string
    requires i <= |hs|
  {
    RedactedNames(hs[i..], first)
  }

  lemma HeaderStep(hs: seq<CapturedHeader>, i: nat)
    requires i < |hs|
    ensures HeadersFrom(hs, i) == HeaderText(hs[i]) + HeadersFrom(hs, i + 1)
  {
    hide IsOmitted, Quote, ArgsText;
    var h, rest := hs[i], hs[i + 1..];
    assert hs[i..][1..] == rest;
    if IsOmitted(h) {
      assert [] + HeaderArgs(rest) == HeaderArgs(rest);
    } else {
      ArgsJoin([Bare("-H"), Quoted(h.name + ": " + h.value)], HeaderArgs(rest));
      OptionText("-H", h.name + ": " + h.value);
    }
  }

  lemma NameStep(hs: seq<CapturedHeader>, i: nat, first: bool)
    requires i < |hs|
    ensures NamesFrom(hs, i, first) == NameText(hs[i], first) + NamesFrom(hs, i + 1, first && !hs[i].redacted)
    ensures AnyRedacted(hs[..i + 1]) <==> AnyRedacted(hs[..i]) || hs[i].redacted
  {
    assert hs[i..][1..] == hs[i + 1..] && hs[..i + 1] == hs[..i] + [hs[i]];
  }

  /** The loop over the headers: their options, and the names of the redacted ones. */
  method HeaderOptions(hs: seq<CapturedHeader>) returns (text: string, names: string, redacted: bool)
    ensures text == ArgsText(HeaderArgs(hs))
    ensures names == RedactedNames(hs, true) && redacted == AnyRedacted(hs)
  {
    hide Quote, HeadersFrom, NamesFrom, OptionPiece, AnyRedacted, ArgsText, RedactedNames, SameIgnoringCase, HeaderArgs;
    text, names, redacted := "", "", false;
    AllHeaders(hs);
    for index := 0 to |hs|
      invariant text + HeadersFrom(hs, index) == HeadersFrom(hs, 0)
      invariant names + NamesFrom(hs, index, !redacted) == NamesFrom(hs, 0, true)
      invariant redacted == AnyRedacted(hs[..index])
    {
      var h := hs[index];
      HeaderStep(hs, index);
      NameStep(hs, index, !redacted);
      Regroup(names, NameText(h, !redacted), NamesFrom(hs, index + 1, !redacted && !h.redacted), "");
      Regroup(text, HeaderText(h), HeadersFrom(hs, index + 1), "");
      if h.redacted {
        names := names + ((if redacted then ", " else "") + h.name);
        redacted := true;
        assert text + "" == text;
      } else {
        assert names + "" == names;
        if IsOmitted(h) {
          assert text + "" == text;
        } else {
          text := text + OptionPiece("-H", h.name + ": " + h.value);
        }
      }
    }
  }

  lemma AllHeaders(hs: seq<CapturedHeader>)
    ensures HeadersFrom(hs, 0) == ArgsText(HeaderArgs(hs)) && HeadersFrom(hs, |hs|) == ""
    ensures NamesFrom(hs, 0, true) == RedactedNames(hs, true)
    ensures forall first :: NamesFrom(hs, |hs|, first) == ""
    ensures AnyRedacted(hs[..|hs|]) == AnyRedacted(hs) && !AnyRedacted(hs[..0])
  {
    assert hs[0..] == hs && hs[..|hs|] == hs && hs[|hs|..] == [];
  }

  /** The command builder. */
  method ExportCommand(e: Entry) returns (command: string)
    requires JsonUtf8.IsByteText(e.body)
    ensures command == Export(e)
  {
    hide SameIgnoringCase, Quote, RedactedNames, HeaderArgs, ArgsText, AnyRedacted, OptionPiece, CommandArgs, TruncationNote, UpToNul;
    Pieces(e);
    command := "curl";
    if !SameIgnoringCase(e.verb, "GET") {
      command := command + OptionPiece("-X", e.verb);
    }
    assert command + "" == command;
    assert command == "curl" + ArgsText(MethodArgs(e));
    var headers, names, redacted := HeaderOptions(e.headers);
    command := command + headers;
    var valid := false;
    if e.body != "" {
      valid := Utf8.Valid(JsonUtf8.Bytes(e.body));
    }
    assert command + "" == command;
    if valid {
      command := command + OptionPiece("--data-raw", UpToNul(e.body));
    }
    command := command + (" " + Quote(e.url));
    Assembled(e);
    var notes := if e.size > |e.body| then TruncationNote() else "";
    if redacted {
      notes := notes + ("\n# redacted headers omitted: " + names);
    } else {
      assert notes + "" == notes;
    }
    command := command + notes;
  }

  lemma Pieces(e: Entry)
    ensures ArgsText(MethodArgs(e)) == if SameIgnoringCase(e.verb, "GET") then "" else OptionPiece("-X", e.verb)
    ensures ArgsText(BodyArgs(e)) == if e.body != "" && JsonUtf8.Utf8Text(e.body) then OptionPiece("--data-raw", UpToNul(e.body)) else ""
    ensures ArgsText([Quoted(e.url)]) == " " + Quote(e.url)
  {
    hide SameIgnoringCase, Quote, ArgsText, UpToNul;
    OptionText("-X", e.verb);
    OptionText("--data-raw", UpToNul(e.body));
    OptionText("", e.url);
    NoArgs();
  }

  lemma NoArgs()
    ensures ArgsText([]) == ""
  {
  }

  lemma Assembled(e: Entry)
    ensures "curl" + ArgsText(MethodArgs(e)) + ArgsText(HeaderArgs(e.headers)) + ArgsText(BodyArgs(e)) + ArgsText([Quoted(e.url)])
         == "curl" + ArgsText(CommandArgs(e))
  {
    hide ArgsText;
    var a, b, c, d := MethodArgs(e), HeaderArgs(e.headers), BodyArgs(e), [Quoted(e.url)];
    ArgsJoin(a + b + c, d);
    ArgsJoin(a + b, c);
    ArgsJoin(a, b);
    Regroup("curl", ArgsText(a), ArgsText(b), ArgsText(c));
    Regroup(ArgsText(a), ArgsText(b), ArgsText(c), ArgsText(d));
    Regroup("curl", ArgsText(a) + ArgsText(b) + ArgsText(c), ArgsText(d), "");
    Regroup("curl", ArgsText(a), ArgsText(b) + ArgsText(c), "");
  }
}
