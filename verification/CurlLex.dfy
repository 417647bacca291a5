/** Shell quoting of exported cURL commands and the tokenizer that reads them back. */
module CurlLex {
  import opened Text

  const MAX_BYTES: nat := 1024 * 1024
  const MAX_TOKENS: nat := 4096

  // ----- quoting

  function QuotedBody(s: string): string {
    if s == "" then "" else (if s[0] == '\'' then "'\\''" else [s[0]]) + QuotedBody(s[1..])
  }

  /** `developer_shell_quote`. */
  function Quote(s: string): string {
    "'" + (QuotedBody(s) + "'")
  }

  // ----- tokens

  datatype Mode = Open | Single | Double

  datatype Lexed = Tokens(tokens: seq<string>) | TooMany | Unterminated | TooLong

  /** The token being read, whether there is one, and those already read. */
  datatype Part = Part(has: bool, current: string, tokens: seq<string>)

  function Grow(p: Part, c: char): Part {
    Part(true, p.current + [c], p.tokens)
  }

  /** `developer_curl_finish_token`. */
  function Finish(p: Part): Option<Part> {
    if !p.has then Some(p)
    else if |p.tokens| >= MAX_TOKENS then None
    else Some(Part(false, "", p.tokens + [p.current]))
  }

  function Lex(s: string, mode: Mode, p: Part): Lexed
    decreases |s|
  {
    if s == "" then
      if !mode.Open? then Unterminated
      else
        match Finish(p)
        case None => TooMany
        case Some(q) => Tokens(q.tokens)
    else
      var c, t := s[0], s[1..];
      match mode
      case Single => if c == '\'' then Lex(t, Open, p) else Lex(t, Single, p.(current := p.current + [c]))
      case Double =>
        if c == '"' then Lex(t, Open, p)
        else if c == '\\' && t != "" && EscapedInDouble(t[0]) then
          Lex(t[1..], Double, p.(current := p.current + [t[0]]))
        else Lex(t, Double, p.(current := p.current + [c]))
      case Open =>
        if c == '\'' then Lex(t, Single, p.(has := true))
        else if c == '"' then Lex(t, Double, p.(has := true))
        else if c == '\\' then (if t == "" then Lex(t, Open, p) else Lex(t[1..], Open, Grow(p, t[0])))
        else if IsSpace(c) then
          match Finish(p)
          case None => TooMany
          case Some(q) => Lex(t, Open, q)
        else Lex(t, Open, Grow(p, c))
  }

  predicate EscapedInDouble(c: char) {
    c == '"' || c == '\\' || c == '$' || c == '`' || c == '\n'
  }

  function Tokenized(text: string): Lexed {
    if |text| > MAX_BYTES then TooLong else Lex(text, Open, Part(false, "", []))
  }

  /** `developer_curl_tokenize`: the loop computes `Tokenized`. */
  method Tokenize(text: string) returns (r: Lexed)
    ensures r == Tokenized(text)
  {
    if |text| > MAX_BYTES {
      return TooLong;
    }
    var single, double := false, false;
    var p := Part(false, "", []);
    var index := 0;
    while index < |text|
      invariant index <= |text| && !(single && double)
      invariant Lex(text[index..], ModeOf(single, double), p) == Tokenized(text)
    {
      var c := text[index];
      ghost var s := text[index..];
      assert s[0] == c && s[1..] == text[index + 1..];
      assert index + 1 < |text| ==> s[1..][0] == text[index + 1] && s[1..][1..] == text[index + 2..];
      if single {
        if c == '\'' {
          single := false;
        } else {
          p := p.(current := p.current + [c]);
        }
      } else if double {
        if c == '"' {
          double := false;
        } else if c == '\\' && index + 1 < |text| && EscapedInDouble(text[index + 1]) {
          p := p.(current := p.current + [text[index + 1]]);
          index := index + 1;
        } else {
          p := p.(current := p.current + [c]);
        }
      } else if c == '\'' {
        single, p := true, p.(has := true);
      } else if c == '"' {
        double, p := true, p.(has := true);
      } else if c == '\\' {
        if index + 1 < |text| {
          index := index + 1;
          p := Grow(p, text[index]);
        }
      } else if IsSpace(c) {
        var q := Finish(p);
        if q.None? {
          return TooMany;
        }
        p := q.value;
      } else {
        p := Grow(p, c);
      }
      index := index + 1;
    }
    assert text[|text|..] == "";
    if single || double {
      return Unterminated;
    }
    match Finish(p)
    case None => return TooMany;
    case Some(q) => return Tokens(q.tokens);
  }

  function ModeOf(single: bool, double: bool): Mode {
    if single then Single else if double then Double else Open
  }

  // ----- the tokenizer undoes the quoter

  lemma QuoteStep(c: char, post: string, p: Part)
    requires p.has
    ensures Lex((if c == '\'' then "'\\''" else [c]) + post, Single, p) == Lex(post, Single, p.(current := p.current + [c]))
  {
    if c == '\'' {
      var s := "'\\''" + post;
      assert s[1..] == "\\''" + post;
      assert s[1..][1..] == "''" + post;
      assert s[1..][1..][1..] == "'" + post;
      assert ("'" + post)[1..] == post;
      var q := Grow(p, c);
      assert Lex(s, Single, p) == Lex(s[1..], Open, p);
      assert Lex(s[1..], Open, p) == Lex(s[1..][1..][1..], Open, q);
      assert Lex("'" + post, Open, q) == Lex(post, Single, q);
    } else {
      assert ([c] + post)[1..] == post;
    }
  }

  lemma {:induction false} QuotedBodyLexes(s: string, post: string, p: Part)
    requires p.has
    ensures Lex(QuotedBody(s) + ("'" + post), Single, p) == Lex(post, Open, p.(current := p.current + s))
    decreases |s|
  {
    hide Lex;
    if s == "" {
      CloseQuote(post, p);
      assert "" + ("'" + post) == "'" + post && p.current + "" == p.current;
    } else {
      var piece := if s[0] == '\'' then "'\\''" else [s[0]];
      Regroup(piece, QuotedBody(s[1..]), "'" + post, "");
      QuoteStep(s[0], QuotedBody(s[1..]) + ("'" + post), p);
      QuotedBodyLexes(s[1..], post, p.(current := p.current + [s[0]]));
      assert p.current + [s[0]] + s[1..] == p.current + s;
    }
  }

  lemma CloseQuote(post: string, p: Part)
    ensures Lex("'" + post, Single, p) == Lex(post, Open, p)
    ensures Lex("'" + post, Open, p) == Lex(post, Single, p.(has := true))
  {
    assert ("'" + post)[1..] == post;
  }

  /** A quoted string, whatever it holds, adds itself to the current token. */
  lemma QuoteLexes(s: string, post: string, p: Part)
    ensures Lex(Quote(s) + post, Open, p) == Lex(post, Open, Part(true, p.current + s, p.tokens))
  {
    hide Lex, QuotedBody;
    Regroup("'", QuotedBody(s), "'", post);
    Regroup("'", QuotedBody(s) + "'", post, "");
    Regroup(QuotedBody(s), "'", post, "");
    CloseQuote(QuotedBody(s) + ("'" + post), p);
    QuotedBodyLexes(s, post, p.(has := true));
  }

  /** A character that neither quotes nor separates. */
  predicate IsOrdinary(c: char) {
    c != '\'' && c != '"' && c != '\\' && !IsSpace(c)
  }

  predicate IsWord(s: string) {
    s != "" && forall i :: 0 <= i < |s| ==> IsOrdinary(s[i])
  }

  lemma {:induction false} WordLexes(w: string, post: string, p: Part)
    requires IsWord(w)
    ensures Lex(w + post, Open, p) == Lex(post, Open, Part(true, p.current + w, p.tokens))
    decreases |w|
  {
    assert (w + post)[0] == w[0] && (w + post)[1..] == w[1..] + post;
    if |w| == 1 {
      assert w[1..] + post == post && w == [w[0]];
    } else {
      WordLexes(w[1..], post, Grow(p, w[0]));
      assert p.current + [w[0]] + w[1..] == p.current + w;
    }
  }

  // ----- commands

  datatype Arg = Bare(word: string) | Quoted(text: string)

  function ArgText(a: Arg): string {
    match a
    case Bare(w) => w
    case Quoted(s) => Quote(s)
  }

  function ArgValue(a: Arg): string {
    match a
    case Bare(w) => w
    case Quoted(s) => s
  }

  predicate IsArg(a: Arg) {
    a.Bare? ==> IsWord(a.word)
  }

  /** Arguments, each after a blank. */
  function ArgsText(args: seq<Arg>): string {
    if args == [] then "" else " " + (ArgText(args[0]) + ArgsText(args[1..]))
  }

  function Values(args: seq<Arg>): seq<string> {
    if args == [] then [] else [ArgValue(args[0])] + Values(args[1..])
  }

  lemma SpaceLexes(post: string, p: Part)
    requires p.has && |p.tokens| < MAX_TOKENS
    ensures Lex(" " + post, Open, p) == Lex(post, Open, Part(false, "", p.tokens + [p.current]))
  {
    assert (" " + post)[1..] == post;
  }

  lemma ArgLexes(a: Arg, post: string, p: Part)
    requires IsArg(a)
    ensures Lex(ArgText(a) + post, Open, p) == Lex(post, Open, Part(true, p.current + ArgValue(a), p.tokens))
  {
    hide Lex, Quote;
    match a
    case Bare(w) => WordLexes(w, post, p);
    case Quoted(s) => QuoteLexes(s, post, p);
  }

  /** A command of arguments lexes to their values, followed by whatever the rest lexes to. */
  lemma {:induction false} ArgsLex(args: seq<Arg>, post: string, p: Part)
    requires p.has && |p.tokens| + |args| < MAX_TOKENS && forall i :: 0 <= i < |args| ==> IsArg(args[i])
    ensures Lex(ArgsText(args) + post, Open, p) ==
            Lex(post, Open, if args == [] then p
                            else Part(true, ArgValue(args[|args| - 1]), p.tokens + [p.current] + Values(args[..|args| - 1])))
    decreases |args|
  {
    hide Lex, ArgText;
    if args == [] {
      assert "" + post == post;
    } else {
      var more := ArgsText(args[1..]) + post;
      var q := Part(false, "", p.tokens + [p.current]);
      var r := Part(true, ArgValue(args[0]), q.tokens);
      Regroup(" ", ArgText(args[0]), ArgsText(args[1..]), post);
      Regroup(" ", ArgText(args[0]) + ArgsText(args[1..]), post, "");
      Regroup(ArgText(args[0]), ArgsText(args[1..]), post, "");
      SpaceLexes(ArgText(args[0]) + more, p);
      ArgLexes(args[0], more, q);
      assert "" + ArgValue(args[0]) == ArgValue(args[0]);
      ArgsLex(args[1..], post, r);
      if |args| > 1 {
        assert args[1..][..|args| - 2] == args[..|args| - 1][1..];
        assert q.tokens + [ArgValue(args[0])] + Values(args[1..][..|args| - 2]) == q.tokens + Values(args[..|args| - 1]);
      } else {
        assert args[..0] == [] && q.tokens + [] == q.tokens;
      }
    }
  }
}
