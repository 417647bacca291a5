/** The words of a shell command as they may be written, and that the tokenizer reads them so. */
module CurlWords {
  import opened Text
  import opened CurlLex

  /** A character between double quotes: itself, after a backslash that goes, or after one that stays. */
  datatype Inside = Itself(c: char) | Escaped(c: char) | Kept(c: char)

  /** A piece of a word. */
  datatype Chunk = Raw(c: char) | Slashed(c: char) | Singled(text: string) | Doubled(pieces: seq<Inside>)

  /** A word and the white space before it. */
  datatype Word = Word(blank: string, chunks: seq<Chunk>)

  predicate IsInside(p: Inside) {
    match p
    case Itself(c) => c != '"' && c != '\\'
    case Escaped(c) => c in {'"', '\\', '$', '`', '\n'}
    case Kept(c) => c !in {'"', '\\', '$', '`', '\n'}
  }

  predicate IsChunk(ch: Chunk) {
    match ch
    case Raw(c) => !IsSpace(c) && c !in {'\'', '"', '\\'}
    case Slashed(_) => true
    case Singled(s) => '\'' !in s
    case Doubled(ps) => forall i :: 0 <= i < |ps| ==> IsInside(ps[i])
  }

  predicate AllSpace(s: string) {
    forall i :: 0 <= i < |s| ==> IsSpace(s[i])
  }

  predicate IsWord(w: Word) {
    AllSpace(w.blank) && w.chunks != [] && forall i :: 0 <= i < |w.chunks| ==> IsChunk(w.chunks[i])
  }

  /** Words with white space between them, and perhaps before the first. */
  predicate AreWords(ws: seq<Word>) {
    && (forall i :: 0 <= i < |ws| ==> IsWord(ws[i]))
    && (forall i :: 0 < i < |ws| ==> ws[i].blank != "")
  }

  // ----- how they are written

  function SpellInside(p: Inside): string {
    match p
    case Itself(c) => [c]
    case Escaped(c) => ['\\', c]
    case Kept(c) => ['\\', c]
  }

  function SpellInsides(ps: seq<Inside>): string {
    if ps == [] then "" else SpellInside(ps[0]) + SpellInsides(ps[1..])
  }

  function SpellChunk(ch: Chunk): string {
    match ch
    case Raw(c) => [c]
    case Slashed(c) => ['\\', c]
    case Singled(s) => ['\''] + (s + ['\''])
    case Doubled(ps) => ['"'] + (SpellInsides(ps) + ['"'])
  }

  function SpellChunks(chs: seq<Chunk>): string {
    if chs == [] then "" else SpellChunk(chs[0]) + SpellChunks(chs[1..])
  }

  function SpellWords(ws: seq<Word>): string {
    if ws == [] then "" else ws[0].blank + (SpellChunks(ws[0].chunks) + SpellWords(ws[1..]))
  }

  // ----- what they stand for

  function ReadInsides(ps: seq<Inside>): string {
    if ps == [] then "" else (if ps[0].Kept? then ['\\', ps[0].c] else [ps[0].c]) + ReadInsides(ps[1..])
  }

  function ReadChunk(ch: Chunk): string {
    match ch
    case Raw(c) => [c]
    case Slashed(c) => [c]
    case Singled(s) => s
    case Doubled(ps) => ReadInsides(ps)
  }

  function ReadChunks(chs: seq<Chunk>): string {
    if chs == [] then "" else ReadChunk(chs[0]) + ReadChunks(chs[1..])
  }

  function ReadWords(ws: seq<Word>): seq<string> {
    if ws == [] then [] else [ReadChunks(ws[0].chunks)] + ReadWords(ws[1..])
  }

  // ----- they are read so

  lemma {:induction false} SingledLexes(s: string, post: string, p: Part)
    requires '\'' !in s
    ensures Lex(s + (['\''] + post), Single, p) == Lex(post, Open, p.(current := p.current + s))
    decreases |s|
  {
    var text := s + (['\''] + post);
    if s == "" {
      assert text == ['\''] + post && text[1..] == post && p.current + "" == p.current;
    } else {
      assert text[0] == s[0] && text[1..] == s[1..] + (['\''] + post);
      SingledLexes(s[1..], post, p.(current := p.current + [s[0]]));
      assert p.current + [s[0]] + s[1..] == p.current + s;
    }
  }

  lemma InsideLexes(q: Inside, post: string, p: Part)
    requires IsInside(q)
    ensures Lex(SpellInside(q) + post, Double, p)
         == Lex(post, Double, p.(current := p.current + (if q.Kept? then ['\\', q.c] else [q.c])))
  {
    var text := SpellInside(q) + post;
    match q
    case Itself(c) => assert text[1..] == post;
    case Escaped(c) => assert text[1..] == [c] + post && ([c] + post)[1..] == post;
    case Kept(c) =>
      assert text[1..] == [c] + post && ([c] + post)[1..] == post;
      assert p.current + ['\\'] + [c] == p.current + ['\\', c];
  }

  lemma {:induction false} DoubledLexes(ps: seq<Inside>, post: string, p: Part)
    requires forall i :: 0 <= i < |ps| ==> IsInside(ps[i])
    ensures Lex(SpellInsides(ps) + (['"'] + post), Double, p) == Lex(post, Open, p.(current := p.current + ReadInsides(ps)))
    decreases |ps|
  {
    hide IsInside, SpellInside;
    if ps == [] {
      assert "" + (['"'] + post) == ['"'] + post && (['"'] + post)[1..] == post && p.current + "" == p.current;
    } else {
      hide Lex;
      var read, rest := if ps[0].Kept? then ['\\', ps[0].c] else [ps[0].c], SpellInsides(ps[1..]) + (['"'] + post);
      Regroup(SpellInside(ps[0]), SpellInsides(ps[1..]), ['"'] + post, "");
      InsideLexes(ps[0], rest, p);
      DoubledLexes(ps[1..], post, p.(current := p.current + read));
      Regroup(p.current, read, ReadInsides(ps[1..]), "");
    }
  }

  lemma ChunkLexes(ch: Chunk, post: string, p: Part)
    requires IsChunk(ch)
    ensures Lex(SpellChunk(ch) + post, Open, p) == Lex(post, Open, Part(true, p.current + ReadChunk(ch), p.tokens))
  {
    match ch
    case Raw(c) => assert ([c] + post)[1..] == post;
    case Slashed(c) => assert (['\\', c] + post)[1..] == [c] + post && ([c] + post)[1..] == post;
    case Singled(s) =>
      Opens('\'', s + ['\''], post, p);
      Regroup(s, ['\''], post, "");
      SingledLexes(s, post, p.(has := true));
    case Doubled(ps) =>
      Opens('"', SpellInsides(ps) + ['"'], post, p);
      Regroup(SpellInsides(ps), ['"'], post, "");
      DoubledLexes(ps, post, p.(has := true));
  }

  lemma Opens(quote: char, inside: string, post: string, p: Part)
    requires quote == '\'' || quote == '"'
    ensures Lex([quote] + inside + post, Open, p)
         == Lex(inside + post, if quote == '"' then Double else Single, p.(has := true))
  {
    assert ([quote] + inside + post)[1..] == inside + post;
  }

  lemma {:induction false} ChunksLex(chs: seq<Chunk>, post: string, p: Part)
    requires chs != [] && forall i :: 0 <= i < |chs| ==> IsChunk(chs[i])
    ensures Lex(SpellChunks(chs) + post, Open, p) == Lex(post, Open, Part(true, p.current + ReadChunks(chs), p.tokens))
    decreases |chs|
  {
    hide Lex, IsChunk, SpellChunk, ReadChunk;
    var rest := SpellChunks(chs[1..]) + post;
    Regroup(SpellChunk(chs[0]), SpellChunks(chs[1..]), post, "");
    ChunkLexes(chs[0], rest, p);
    if |chs| == 1 {
      assert chs[1..] == [] && "" + post == post && ReadChunk(chs[0]) + "" == ReadChunk(chs[0]);
    } else {
      ChunksLex(chs[1..], post, Part(true, p.current + ReadChunk(chs[0]), p.tokens));
      Regroup(p.current, ReadChunk(chs[0]), ReadChunks(chs[1..]), "");
    }
  }

  /** White space ends a word; more of it ends none. */
  lemma {:induction false} BlankLexes(blank: string, post: string, p: Part)
    requires AllSpace(blank) && blank != ""
    ensures Lex(blank + post, Open, p) == match Finish(p) { case None => TooMany case Some(q) => Lex(post, Open, q) }
    decreases |blank|
  {
    var text := blank + post;
    assert text[0] == blank[0] && text[1..] == blank[1..] + post;
    if |blank| == 1 {
      assert blank[1..] + post == post;
    } else if Finish(p).Some? {
      BlankLexes(blank[1..], post, Finish(p).value);
    }
  }

  lemma FirstRest(ws: seq<Word>)
    requires AreWords(ws) && ws != []
    ensures IsWord(ws[0]) && AreWords(ws[1..]) && (|ws| > 1 ==> ws[1..][0].blank != "")
  {
    hide IsWord;
  }

  /** The words that are there once `p` is finished and more words are read. */
  function More(p: Part, words: seq<string>): seq<string> {
    p.tokens + ((if p.has then [p.current] else []) + words)
  }

  lemma MoreStep(p: Part, q: Part, word: string, words: seq<string>)
    requires q == if p.has then Part(false, "", p.tokens + [p.current]) else p
    ensures More(Part(true, word, q.tokens), words) == More(p, [word] + words)
  {
  }

  /** The words that follow a finished or unfinished word are added to those that are there, up to the limit. */
  lemma {:induction false} WordsLex(ws: seq<Word>, end: string, p: Part)
    requires AreWords(ws) && (p.has && ws != [] ==> ws[0].blank != "") && AllSpace(end)
    requires (!p.has ==> p.current == "") && |p.tokens| <= MAX_TOKENS
    ensures var words := More(p, ReadWords(ws));
            Lex(SpellWords(ws) + end, Open, p) == if |words| <= MAX_TOKENS then Tokens(words) else TooMany
    decreases |ws|
  {
    hide IsWord, Lex, AreWords, AllSpace, SpellChunks, ReadChunks, SpellWords;
    if ws == [] {
      NoWords(end);
      EndLexes(end, p);
    } else {
      hide More;
      FirstRest(ws);
      var w, rest := ws[0], SpellWords(ws[1..]) + end;
      FirstWord(ws, end);
      FinishedFirst(w, SpellChunks(w.chunks) + rest, p);
      var q := if p.has then Finish(p) else Some(p);
      if q.Some? {
        WordLexes(w, rest, q.value);
        WordsLex(ws[1..], end, Part(true, ReadChunks(w.chunks), q.value.tokens));
        MoreStep(p, q.value, ReadChunks(w.chunks), ReadWords(ws[1..]));
      } else {
        TooManyAlready(p, ReadWords(ws));
      }
    }
  }

  lemma NoWords(end: string)
    ensures SpellWords([]) + end == end
  {
  }

  lemma TooManyAlready(p: Part, words: seq<string>)
    requires p.has && |p.tokens| >= MAX_TOKENS
    ensures |More(p, words)| > MAX_TOKENS
  {
  }

  lemma FirstWord(ws: seq<Word>, end: string)
    requires ws != []
    ensures SpellWords(ws) + end == ws[0].blank + (SpellChunks(ws[0].chunks) + (SpellWords(ws[1..]) + end))
  {
    Regroup(SpellChunks(ws[0].chunks), SpellWords(ws[1..]), end, "");
    Regroup(ws[0].blank, SpellChunks(ws[0].chunks) + SpellWords(ws[1..]), end, "");
  }

  lemma FinishedFirst(w: Word, post: string, p: Part)
    requires IsWord(w) && (p.has ==> w.blank != "")
    ensures Lex(w.blank + post, Open, p)
         == match (if p.has then Finish(p) else Some(p)) { case None => TooMany case Some(q) => Lex(post, Open, q) }
  {
    hide Lex;
    if w.blank == "" {
      assert w.blank + post == post;
    } else {
      BlankLexes(w.blank, post, p);
    }
  }

  lemma WordLexes(w: Word, post: string, p: Part)
    requires IsWord(w) && !p.has && p.current == ""
    ensures Lex(SpellChunks(w.chunks) + post, Open, p) == Lex(post, Open, Part(true, ReadChunks(w.chunks), p.tokens))
  {
    hide Lex;
    ChunksLex(w.chunks, post, p);
    assert "" + ReadChunks(w.chunks) == ReadChunks(w.chunks);
  }

  lemma EndLexes(end: string, p: Part)
    requires AllSpace(end)
    ensures Lex(end, Open, p) == match Finish(p) { case None => TooMany case Some(q) => Tokens(q.tokens) }
  {
    if end != "" {
      BlankLexes(end, "", p);
      assert end + "" == end;
    }
  }

  /** A command of at most 4096 words, however they are quoted, is read as the words that it stands for. */
  lemma WordsAreRead(ws: seq<Word>, end: string)
    requires AreWords(ws) && AllSpace(end)
    ensures var text := SpellWords(ws) + end;
            Tokenized(text) == if |text| > 1048576 then TooLong else if |ws| <= 4096 then Tokens(ReadWords(ws)) else TooMany
  {
    hide Lex, AreWords;
    WordsLex(ws, end, Part(false, "", []));
    AsMany(ws);
    assert More(Part(false, "", []), ReadWords(ws)) == ReadWords(ws);
  }

  lemma {:induction false} AsMany(ws: seq<Word>)
    ensures |ReadWords(ws)| == |ws|
  {
    if ws != [] {
      AsMany(ws[1..]);
    }
  }

  // ----- quotes that are not closed

  lemma {:induction false} SingleUnclosed(s: string, p: Part)
    requires '\'' !in s
    ensures Lex(s, Single, p) == Unterminated
    decreases |s|
  {
    if s != "" {
      SingleUnclosed(s[1..], p.(current := p.current + [s[0]]));
    }
  }

  lemma {:induction false} DoubleUnclosed(ps: seq<Inside>, p: Part)
    requires forall i :: 0 <= i < |ps| ==> IsInside(ps[i])
    ensures Lex(SpellInsides(ps), Double, p) == Unterminated
    decreases |ps|
  {
    hide IsInside, SpellInside;
    if ps != [] {
      hide Lex;
      InsideLexes(ps[0], SpellInsides(ps[1..]), p);
      DoubleUnclosed(ps[1..], p.(current := p.current + (if ps[0].Kept? then ['\\', ps[0].c] else [ps[0].c])));
    }
  }

  lemma {:induction false} WordsThen(ws: seq<Word>, end: string, post: string, p: Part)
    requires AreWords(ws) && (p.has && ws != [] ==> ws[0].blank != "") && AllSpace(end) && end != ""
    requires (!p.has ==> p.current == "") && |More(p, ReadWords(ws))| <= MAX_TOKENS
    ensures Lex(SpellWords(ws) + (end + post), Open, p) == Lex(post, Open, Part(false, "", More(p, ReadWords(ws))))
    decreases |ws|
  {
    hide IsWord, Lex, AreWords, AllSpace, SpellChunks, ReadChunks, SpellWords;
    if ws == [] {
      NoWords(end + post);
      BlankLexes(end, post, p);
      assert More(p, []) == p.tokens + (if p.has then [p.current] else []) && p.tokens + [] == p.tokens;
    } else {
      FirstRest(ws);
      var w, rest := ws[0], SpellWords(ws[1..]) + (end + post);
      FirstWord(ws, end + post);
      FinishedFirst(w, SpellChunks(w.chunks) + rest, p);
      var q := if p.has then Finish(p) else Some(p);
      MoreStep(p, q.value, ReadChunks(w.chunks), ReadWords(ws[1..]));
      WordLexes(w, rest, q.value);
      WordsThen(ws[1..], end, post, Part(true, ReadChunks(w.chunks), q.value.tokens));
    }
  }

  /** A quote that is not closed after some words is an error, whatever is in it. */
  lemma UnclosedQuote(ws: seq<Word>, end: string, s: string, ps: seq<Inside>)
    requires AreWords(ws) && AllSpace(end) && end != "" && |ws| <= 4096
    requires '\'' !in s && forall i :: 0 <= i < |ps| ==> IsInside(ps[i])
    ensures var text := SpellWords(ws) + (end + (['\''] + s)); |text| <= 1048576 ==> Tokenized(text) == Unterminated
    ensures var text := SpellWords(ws) + (end + (['"'] + SpellInsides(ps))); |text| <= 1048576 ==> Tokenized(text) == Unterminated
  {
    hide AreWords, IsInside;
    var p := Part(false, "", []);
    var q := Part(false, "", ReadWords(ws));
    AsMany(ws);
    assert More(p, ReadWords(ws)) == ReadWords(ws);
    WordsThen(ws, end, ['\''] + s, p);
    WordsThen(ws, end, ['"'] + SpellInsides(ps), p);
    assert (['\''] + s)[1..] == s && (['"'] + SpellInsides(ps))[1..] == SpellInsides(ps);
    SingleUnclosed(s, q.(has := true));
    DoubleUnclosed(ps, q.(has := true));
  }
}
