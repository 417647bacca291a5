/** What an imported cURL command means, by its options and where they stand, apart from the option loop. */
module CurlMeaning {
  import opened Text
  import opened CurlLex
  import opened Curl
  import CurlRoundTrip

  /** An option and its value, or a word on its own. */
  datatype Use = Alone(word: string) | With(option: string, value: string)

  predicate IsRequest(u: Use) {
    u.With? && u.option in {"-X", "--request"}
  }

  predicate IsData(u: Use) {
    u.With? && u.option in {"-d", "--data", "--data-raw", "--data-binary", "--data-ascii"}
  }

  predicate IsHeader(u: Use) {
    u.With? && u.option in {"-H", "--header", "-A", "--user-agent", "-e", "--referer"}
  }

  predicate IsOperand(word: string) {
    word == "" || word[0] != '-'
  }

  predicate IsUrl(u: Use) {
    if u.With? then u.option == "--url" else IsOperand(u.word)
  }

  /** The options that are followed by a value, whether it is used or not. */
  predicate Swallows(word: string) {
    word in {"-X", "--request", "-H", "--header", "-d", "--data", "--data-raw", "--data-binary", "--data-ascii",
             "-A", "--user-agent", "-e", "--referer", "--url", "-o", "--output", "--connect-timeout", "-m", "--max-time",
             "--retry", "-u", "--user", "-b", "--cookie", "-x", "--proxy", "-U", "--proxy-user", "--resolve", "--dns-servers"}
  }

  /** The words by their use: an option that is followed by a value takes exactly one word, and any other word none. */
  function Uses(words: seq<string>): seq<Use> {
    if words == [] then []
    else if !Swallows(words[0]) then [Alone(words[0])] + Uses(words[1..])
    else if |words| == 1 then []
    else [With(words[0], words[1])] + Uses(words[2..])
  }

  /** The option at the end that lacks its value. */
  function Unfinished(words: seq<string>): Option<string> {
    if words == [] then None
    else if !Swallows(words[0]) then Unfinished(words[1..])
    else if |words| == 1 then Some(words[0])
    else Unfinished(words[2..])
  }

  /** The data value is the name of a file. */
  predicate NamesAFile(u: Use) {
    IsData(u) && u.value != "" && u.value[0] == '@'
  }

  function Last(uses: seq<Use>, p: Use -> bool): Option<Use> {
    if uses == [] then None
    else if p(uses[|uses| - 1]) then Some(uses[|uses| - 1])
    else Last(uses[..|uses| - 1], p)
  }

  function Argument(u: Use): string {
    if u.With? then u.value else u.word
  }

  /** The last method that is asked for; else POST when there is data, and GET when there is none. */
  function MethodOf(uses: seq<Use>): string {
    match Last(uses, IsRequest)
    case Some(u) => Uppercase(Trim(Argument(u)))
    case None => if exists i :: 0 <= i < |uses| && IsData(uses[i]) then "POST" else "GET"
  }

  function UrlOf(uses: seq<Use>): Option<string> {
    match Last(uses, IsUrl)
    case Some(u) => Some(Argument(u))
    case None => None
  }

  /** The header of an option: as given, or by the name that the option stands for. */
  function HeaderOf(u: Use): Header
    requires IsHeader(u)
  {
    if u.option in {"-H", "--header"} then SplitHeader(u.value)
    else if u.option in {"-A", "--user-agent"} then Header("User-Agent", Trim(u.value))
    else Header("Referer", Trim(u.value))
  }

  /** All headers in order. */
  function HeadersOf(uses: seq<Use>): seq<Header> {
    if uses == [] then []
    else HeadersOf(uses[..|uses| - 1]) + (var u := uses[|uses| - 1]; if IsHeader(u) then [HeaderOf(u)] else [])
  }

  /** All data values in order. */
  function DataOf(uses: seq<Use>): seq<string> {
    if uses == [] then []
    else DataOf(uses[..|uses| - 1]) + (if IsData(uses[|uses| - 1]) then [Argument(uses[|uses| - 1])] else [])
  }

  /** The parts with "&" between them. */
  function Joined(parts: seq<string>): string {
    if parts == [] then ""
    else if |parts| == 1 then parts[0]
    else Joined(parts[..|parts| - 1]) + "&" + parts[|parts| - 1]
  }

  /** What the words of a command ask for, or the first reason to refuse them. */
  function Meaning(words: seq<string>): Imported<Request> {
    var uses := Uses(words);
    match First(uses, NamesAFile)
    case Some(u) => Bad(NamesFile(u.option))
    case None =>
      match Unfinished(words)
      case Some(option) => Bad(NeedsValue(option))
      case None =>
        match UrlOf(uses)
        case None => Bad(NoUrl)
        case Some(url) => if url == "" then Bad(NoUrl) else Good(Request(MethodOf(uses), url, HeadersOf(uses), Joined(DataOf(uses))))
  }

  function First(uses: seq<Use>, p: Use -> bool): (u: Option<Use>)
    ensures u.Some? ==> p(u.value)
  {
    if uses == [] then None else if p(uses[0]) then Some(uses[0]) else First(uses[1..], p)
  }

  /** The program itself may be named first, with the directory it is in. */
  ghost predicate NamesCurl(word: string) {
    exists n :: 0 <= n <= |word| && SameIgnoringCase(word[n..], "curl") && (n == 0 || word[n - 1] == '/')
  }

  // ----- the words of an option

  lemma KindsMean(word: string)
    ensures TakesValue(KindOf(word)) <==> Swallows(word)
    ensures !Swallows(word) ==> KindOf(word) == if IsOperand(word) then Operand else Switch
  {
  }

  lemma KindsWith(option: string, value: string)
    requires Swallows(option)
    ensures var u, k := With(option, value), KindOf(option);
            && (IsRequest(u) <==> k.SetMethod?) && (IsData(u) <==> k.Data?) && (IsUrl(u) <==> k.SetUrl?)
            && (IsHeader(u) <==> k.AddHeader? || k.UserAgent? || k.Referer?)
            && (k.AddHeader? ==> option in {"-H", "--header"})
            && (k.UserAgent? <==> option in {"-A", "--user-agent"})
            && (k.Referer? <==> option in {"-e", "--referer"})
  {
  }

  lemma NamedHeader(name: string, value: string)
    requires name == "User-Agent" || name == "Referer"
    ensures SplitHeader(name + (": " + value)) == Header(name, Trim(value))
  {
    hide TrimRight, SkipSpace, Colon;
    var raw := name + (":" + (" " + value));
    assert ": " + value == ":" + (" " + value);
    CurlRoundTrip.ColonAt(name, " " + value);
    assert raw[..|name|] == name && raw[|name| + 1..] == " " + value;
    CurlRoundTrip.SkipBlank(value);
    CurlRoundTrip.TrimTrimmed(name);
  }

  // ----- the loop's variables after some uses

  ghost predicate Follows(d: Draft, uses: seq<Use>) {
    && d.parts == |DataOf(uses)| && d.body == Joined(DataOf(uses)) && d.headers == HeadersOf(uses) && d.url == UrlOf(uses)
    && (d.methodSet <==> Last(uses, IsRequest).Some?) && d.verb == MethodOf(uses)
  }

  lemma LastOfMore(uses: seq<Use>, u: Use, p: Use -> bool)
    ensures Last(uses + [u], p) == if p(u) then Some(u) else Last(uses, p)
  {
    assert (uses + [u])[..|uses|] == uses;
  }

  lemma DataOfMore(uses: seq<Use>, u: Use)
    ensures DataOf(uses + [u]) == DataOf(uses) + (if IsData(u) then [Argument(u)] else [])
    ensures HeadersOf(uses + [u]) == HeadersOf(uses) + (if IsHeader(u) then [HeaderOf(u)] else [])
    ensures (exists i :: 0 <= i < |uses + [u]| && IsData((uses + [u])[i]))
       <==> IsData(u) || exists i :: 0 <= i < |uses| && IsData(uses[i])
  {
    hide IsData, IsHeader, HeaderOf;
    var all := uses + [u];
    assert all[..|uses|] == uses && all[|uses|] == u;
    if i :| 0 <= i < |uses| && IsData(uses[i]) {
      assert all[i] == uses[i];
    }
  }

  lemma JoinedMore(parts: seq<string>, part: string)
    ensures Joined(parts + [part]) == Joined(parts) + (if parts == [] then "" else "&") + part
  {
    assert (parts + [part])[..|parts|] == parts;
    assert parts == [] ==> Joined(parts) + "" + part == part;
  }

  lemma UseFollows(d: Draft, uses: seq<Use>, u: Use, k: Kind, next: Draft)
    requires Follows(d, uses) && !NamesAFile(u) && Apply(d, k, Argument(u)) == Some(next)
    requires if u.With? then Swallows(u.option) && k == KindOf(u.option) else !Swallows(u.word) && k == KindOf(u.word)
    ensures Follows(next, uses + [u])
  {
    hide KindOf, Swallows, IsRequest, IsData, IsHeader, IsUrl, SplitHeader, Uppercase, Trim, Joined, Last, DataOf, HeadersOf;
    LastOfMore(uses, u, IsRequest);
    LastOfMore(uses, u, IsUrl);
    DataOfMore(uses, u);
    assert DataOf(uses) + [] == DataOf(uses) && HeadersOf(uses) + [] == HeadersOf(uses);
    if u.With? {
      KindsMean(u.option);
      KindsWith(u.option, u.value);
      JoinedMore(DataOf(uses), u.value);
      if k.UserAgent? {
        NamedHeader("User-Agent", u.value);
        assert "User-Agent" + (": " + u.value) == "User-Agent: " + u.value;
      } else if k.Referer? {
        NamedHeader("Referer", u.value);
        assert "Referer" + (": " + u.value) == "Referer: " + u.value;
      }
    } else {
      KindsMean(u.word);
      AloneIsNoOption(u);
    }
  }

  lemma AloneIsNoOption(u: Use)
    requires u.Alone?
    ensures !IsRequest(u) && !IsData(u) && !IsHeader(u) && (IsUrl(u) <==> IsOperand(u.word))
  {
  }

  lemma {:induction false} OptionsFollow(words: seq<string>, d: Draft, uses: seq<Use>)
    requires Follows(d, uses)
    ensures match First(Uses(words), NamesAFile)
            case Some(u) => Options(words, d) == Bad(NamesFile(u.option))
            case None =>
              match Unfinished(words)
              case Some(option) => Options(words, d) == Bad(NeedsValue(option))
              case None => Options(words, d).Good? && Follows(Options(words, d).value, uses + Uses(words))
    decreases |words|
  {
    hide KindOf, Apply, Swallows, NamesAFile, Follows;
    if words == [] {
      assert uses + [] == uses;
    } else {
      KindsMean(words[0]);
      var k := KindOf(words[0]);
      var swallows := Swallows(words[0]);
      if !swallows || |words| > 1 {
        var u := if swallows then With(words[0], words[1]) else Alone(words[0]);
        var rest := if swallows then words[2..] else words[1..];
        var next := Apply(d, k, Argument(u));
        assert Uses(words) == [u] + Uses(rest) && ([u] + Uses(rest))[1..] == Uses(rest);
        Refuses(d, u, k);
        if next.Some? {
          UseFollows(d, uses, u, k, next.value);
          OptionsFollow(rest, next.value, uses + [u]);
          assert uses + [u] + Uses(rest) == uses + ([u] + Uses(rest));
        }
      }
    }
  }

  lemma Refuses(d: Draft, u: Use, k: Kind)
    requires if u.With? then Swallows(u.option) && k == KindOf(u.option) else !Swallows(u.word) && k == KindOf(u.word)
    ensures Apply(d, k, Argument(u)).None? <==> NamesAFile(u)
    ensures NamesAFile(u) ==> u.With?
  {
    hide KindOf, Swallows, SplitHeader, Uppercase, Trim, IsRequest, IsHeader, IsUrl, IsData;
    if u.With? {
      KindsWith(u.option, u.value);
    } else {
      KindsMean(u.word);
      AloneIsNoOption(u);
    }
  }

  /** The option loop gives what the words mean, or refuses them for the first reason there is. */
  lemma OptionsMean(words: seq<string>)
    ensures Finished(Options(words, EMPTY)) == Meaning(words)
  {
    hide Uses, Unfinished, NamesAFile, Options;
    OptionsFollow(words, EMPTY, []);
    assert [] + Uses(words) == Uses(words);
  }

  /** Ignoring case, a word ends in "/curl" when what is after that slash is "curl". */
  lemma SlashCurl(tail: string)
    requires |tail| == 5
    ensures SameIgnoringCase(tail, "/curl") <==> tail[0] == '/' && SameIgnoringCase(tail[1..], "curl")
  {
    var all, end := "/curl", "curl";
    assert all[0] == '/' && forall i :: 0 <= i < 4 ==> all[i + 1] == end[i] && tail[i + 1] == tail[1..][i];
    if SameIgnoringCase(tail, all) {
      assert Lower(tail[0]) == Lower(all[0]);
      forall i | 0 <= i < 4
        ensures Lower(tail[1..][i]) == Lower(end[i])
      {
        assert Lower(tail[i + 1]) == Lower(all[i + 1]);
      }
    }
    if tail[0] == '/' && SameIgnoringCase(tail[1..], end) {
      forall i | 0 <= i < 5
        ensures Lower(tail[i]) == Lower(all[i])
      {
        assert i > 0 ==> Lower(tail[1..][i - 1]) == Lower(end[i - 1]);
      }
    }
  }

  lemma CurlIsNamed(word: string)
    ensures IsCurl(word) <==> NamesCurl(word)
  {
    hide SameIgnoringCase;
    var n := |word| - 4;
    if |word| >= 5 {
      SlashCurl(word[|word| - 5..]);
      assert word[|word| - 5..][1..] == word[n..];
    }
    assert word[0..] == word;
    if m :| 0 <= m <= |word| && SameIgnoringCase(word[m..], "curl") && (m == 0 || word[m - 1] == '/') {
      SameLength(word[m..], "curl");
    }
  }

  lemma SameLength(s: string, t: string)
    requires SameIgnoringCase(s, t)
    ensures |s| == |t|
  {
  }

  /** A command is imported as its words mean, without the name of the program. */
  lemma ImportMeans(text: string, words: seq<string>)
    requires Tokenized(Trim(text)) == Tokens(words)
    ensures Import(text) == Meaning(if words != [] && NamesCurl(words[0]) then words[1..] else words)
  {
    hide Tokenized, Trim, Options, Meaning, Finished, NamesCurl;
    if words != [] {
      CurlIsNamed(words[0]);
    }
    OptionsMean(WithoutCurl(words));
  }

  // ----- trimming, capitals, and the parts of a header

  predicate IsBlank(c: char) {
    c == ' ' || c == '\t' || c == '\n' || c == '\r' || c == '\U{B}' || c == '\U{C}'
  }

  predicate AllBlank(s: string) {
    forall i :: 0 <= i < |s| ==> IsBlank(s[i])
  }

  /** Only white space goes, and all of it at both ends. */
  lemma TrimMeans(s: string) returns (a: string, b: string)
    ensures s == a + (Trim(s) + b) && AllBlank(a) && AllBlank(b)
    ensures Trim(s) != "" ==> !IsBlank(Trim(s)[0]) && !IsBlank(Trim(s)[|Trim(s)| - 1])
  {
    hide SkipSpace, TrimRight;
    a := SkippedIsSpace(s);
    b := RightIsSpace(SkipSpace(s));
    var t := Trim(s);
    if t != "" {
      assert SkipSpace(s)[0] == t[0];
    }
  }

  lemma {:induction false} SkippedIsSpace(s: string) returns (a: string)
    ensures s == a + SkipSpace(s) && AllBlank(a)
  {
    if s != "" && IsSpace(s[0]) {
      var rest := SkippedIsSpace(s[1..]);
      a := [s[0]] + rest;
      assert s == [s[0]] + s[1..];
    } else {
      a := "";
    }
  }

  lemma BlankMore(a: string, c: char)
    requires AllBlank(a) && IsSpace(c)
    ensures AllBlank(a + [c])
  {
  }

  lemma {:induction false} RightIsSpace(s: string) returns (b: string)
    ensures s == TrimRight(s) + b && AllBlank(b)
  {
    if s == "" || !IsSpace(s[|s| - 1]) {
      b := "";
    } else {
      hide AllBlank, IsSpace;
      var init, last := s[..|s| - 1], s[|s| - 1];
      var rest := RightIsSpace(init);
      b := rest + [last];
      BlankMore(rest, last);
      assert s == init + [last];
      Regroup(TrimRight(init), rest, [last], "");
    }
  }

  lemma UppercaseMeans(s: string)
    ensures SameIgnoringCase(Uppercase(s), s) && forall i :: 0 <= i < |Uppercase(s)| ==> !('a' <= Uppercase(s)[i] <= 'z')
  {
  }

  /** A header is what is before its first colon and what is after it; without one it is all name. */
  lemma {:induction false} SplitMeans(raw: string, n: nat)
    requires n <= |raw| && (n < |raw| ==> raw[n] == ':') && forall i :: 0 <= i < n ==> raw[i] != ':'
    ensures SplitHeader(raw) == Header(Trim(raw[..n]), if n == |raw| then "" else Trim(raw[n + 1..]))
  {
    hide Trim;
    FirstColon(raw, n);
    assert Trim("") == "" by {
      EmptyTrim();
    }
  }

  lemma EmptyTrim()
    ensures Trim("") == ""
  {
  }

  lemma {:induction false} FirstColon(raw: string, n: nat)
    requires n <= |raw| && (n < |raw| ==> raw[n] == ':') && forall i :: 0 <= i < n ==> raw[i] != ':'
    ensures Colon(raw) == n
    decreases n
  {
    if n > 0 {
      FirstColon(raw[1..], n - 1);
    }
  }

  // ----- the notes of an exported command

  function RedactedOf(hs: seq<CapturedHeader>): seq<string> {
    if hs == [] then [] else (if hs[0].redacted then [hs[0].name] else []) + RedactedOf(hs[1..])
  }

  /** Names with ", " between them. */
  function Listed(names: seq<string>): string {
    if names == [] then "" else if |names| == 1 then names[0] else names[0] + ", " + Listed(names[1..])
  }

  lemma ListedMore(name: string, names: seq<string>)
    ensures Listed([name] + names) == name + (if names == [] then "" else ", ") + Listed(names)
  {
    assert ([name] + names)[1..] == names;
    assert names == [] ==> name + "" + "" == name;
  }

  lemma {:induction false} RedactedListed(hs: seq<CapturedHeader>, first: bool)
    ensures RedactedNames(hs, first) == (if first || RedactedOf(hs) == [] then "" else ", ") + Listed(RedactedOf(hs))
    ensures AnyRedacted(hs) <==> RedactedOf(hs) != []
    decreases |hs|
  {
    hide Listed, AnyRedacted;
    if hs == [] {
      NoneListed();
    } else {
      var h, rest := hs[0], RedactedOf(hs[1..]);
      AnyRedactedStep(hs);
      if h.redacted {
        RedactedListed(hs[1..], false);
        ListedMore(h.name, rest);
        var comma, more := if first then "" else ", ", if rest == [] then "" else ", ";
        Regroup(comma, h.name, more, Listed(rest));
        Regroup(h.name, more, Listed(rest), "");
        Regroup(comma, h.name, more + Listed(rest), "");
      } else {
        RedactedListed(hs[1..], first);
        assert [] + rest == rest;
      }
    }
  }

  lemma NoneListed()
    ensures Listed([]) == "" && !AnyRedacted([])
  {
  }

  lemma AnyRedactedStep(hs: seq<CapturedHeader>)
    requires hs != []
    ensures AnyRedacted(hs) <==> hs[0].redacted || AnyRedacted(hs[1..])
  {
    if AnyRedacted(hs[1..]) {
      var i :| 0 <= i < |hs[1..]| && hs[1..][i].redacted;
      assert hs[i + 1].redacted;
    }
    if i :| 0 <= i < |hs| && hs[i].redacted {
      assert i > 0 ==> hs[1..][i - 1].redacted;
    }
  }

  /** A warning when the body was cut short, and the names of the headers that were left out because they are redacted. */
  lemma NotesMean(e: Entry)
    ensures Notes(e)
         == (if e.size > |e.body| then TruncationNote() else "")
            + (if RedactedOf(e.headers) == [] then "" else "\n# redacted headers omitted: " + Listed(RedactedOf(e.headers)))
  {
    hide TruncationNote, RedactedNames, AnyRedacted, RedactedOf, Listed;
    RedactedListed(e.headers, true);
    assert "" + Listed(RedactedOf(e.headers)) == Listed(RedactedOf(e.headers));
  }
}
