/**
  Reading TOML v1.0.0, sections "Table" and "Array of Tables", one line at a time. The reader covers the part of the
  grammar a rendered configuration uses: bare and basic-string keys, booleans, decimal integers, basic strings, arrays
  on one line, table headers and array-of-tables headers. It refuses every other line.
 */
module Toml {
  import opened Text
  import opened Utf8
  import Json

  /** A value written on one line. A float keeps its text: the reader refuses it. */
  datatype Plain = Boolean(b: bool) | Integer(n: int) | Float(text: string) | String(s: string) | Array(items: seq<Plain>)

  datatype Line =
    | Blank
    | Pair(key: string, value: Plain)
    | Header(path: seq<string>)
    | ArrayHeader(path: seq<string>)

  /** What a key of a table holds; a table made only as the parent of another is not yet `defined`. */
  datatype Node = Leaf(value: Plain) | Table(members: Members, defined: bool) | Tables(items: seq<Members>)

  type Members = map<string, Node>

  /** The document read so far and the path of the table that takes the next pair. */
  datatype State = State(root: Members, current: seq<string>)

  // ----- lines on tables

  /** What a line does to the table its path leads to. */
  datatype Action = Define(key: string) | Extend(key: string) | Assign(key: string, value: Plain)

  function Act(t: Members, a: Action): Option<Members> {
    match a
    case Define(k) =>
      if k !in t then Some(t[k := Table(map[], true)])
      else if t[k].Table? && !t[k].defined then Some(t[k := Table(t[k].members, true)])
      else None
    case Extend(k) =>
      if k !in t then Some(t[k := Tables([map[]])])
      else if t[k].Tables? then Some(t[k := Tables(t[k].items + [map[]])])
      else None
    case Assign(k, v) =>
      if k !in t then Some(t[k := Leaf(v)]) else None
  }

  /** The table a path step leads into: a table, or the last table of an array of tables. */
  function Enter(n: Node): Option<Members> {
    match n
    case Leaf(_) => None
    case Table(m, _) => Some(m)
    case Tables(items) => if items == [] then None else Some(items[|items| - 1])
  }

  function Replace(n: Node, m: Members): Node
    requires Enter(n).Some?
  {
    match n
    case Table(_, d) => Table(m, d)
    case Tables(items) => Tables(items[|items| - 1 := m])
  }

  /** Acts on the table at `path`, making missing parent tables. */
  function Update(t: Members, path: seq<string>, a: Action): Option<Members>
    decreases |path|
  {
    if path == [] then Act(t, a)
    else if path[0] !in t then
      match Update(map[], path[1..], a)
      case None => None
      case Some(m) => Some(t[path[0] := Table(m, false)])
    else
      match Enter(t[path[0]])
      case None => None
      case Some(inner) =>
        match Update(inner, path[1..], a)
        case None => None
        case Some(m) => Some(t[path[0] := Replace(t[path[0]], m)])
  }

  function Apply(st: State, line: Line): Option<State> {
    match line
    case Blank => Some(st)
    case Pair(k, v) => At(Update(st.root, st.current, Assign(k, v)), st.current)
    case Header(path) =>
      if path == [] then None else At(Update(st.root, Init(path), Define(Last(path))), path)
    case ArrayHeader(path) =>
      if path == [] then None else At(Update(st.root, Init(path), Extend(Last(path))), path)
  }

  function At(root: Option<Members>, current: seq<string>): Option<State> {
    match root
    case None => None
    case Some(r) => Some(State(r, current))
  }

  function Init(path: seq<string>): seq<string>
    requires path != []
  {
    path[..|path| - 1]
  }

  function Last(path: seq<string>): string
    requires path != []
  {
    path[|path| - 1]
  }

  function ReadLines(st: State, lines: seq<Line>): Option<State>
    decreases |lines|
  {
    if lines == [] then Some(st)
    else
      match Apply(st, lines[0])
      case None => None
      case Some(next) => ReadLines(next, lines[1..])
  }

  // ----- text of lines

  /** A piece read off the front of the text, and what follows it. */
  datatype Read<+T> = Bad | Good(value: T, rest: string)

  predicate IsBare(c: char) {
    IsAlnum(c) || c == '_' || c == '-'
  }

  function BareRun(s: string): (n: nat)
    ensures n <= |s|
  {
    if s != "" && IsBare(s[0]) then 1 + BareRun(s[1..]) else 0
  }

  function SkipBlanks(s: string): (t: string)
    ensures |t| <= |s|
  {
    if s != "" && (s[0] == ' ' || s[0] == '\t') then SkipBlanks(s[1..]) else s
  }

  function Escape(s: string): (r: Read<string>)
    requires s != ""
    ensures r.Good? ==> |r.rest| < |s|
  {
    var c, t := s[0], s[1..];
    if c == '"' || c == '\\' then Good([c], t)
    else if c == 'b' then Good([BACKSPACE], t)
    else if c == 't' then Good("\t", t)
    else if c == 'n' then Good("\n", t)
    else if c == 'f' then Good([FORM_FEED], t)
    else if c == 'r' then Good("\r", t)
    else if c == 'u' then
      match Json.CodeUnit(t)
      case Err(_, _) => Bad
      case Ok(unit, rest) => if IsScalar(unit) then Good(Characters(unit), rest) else Bad
    else Bad
  }

  function Characters(c: int): string
    requires IsScalar(c)
  {
    var bs := Encode(c);
    seq(|bs|, i requires 0 <= i < |bs| => bs[i] as char)
  }

  /** A basic string after its opening quote. */
  function Basic(s: string, out: string): (r: Read<string>)
    ensures r.Good? ==> |r.rest| < |s|
    decreases |s|
  {
    if s == "" then Bad
    else if s[0] == '"' then Good(out, s[1..])
    else if s[0] == '\\' then
      if |s| == 1 then Bad
      else
        match Escape(s[1..])
        case Bad => Bad
        case Good(e, rest) => Basic(rest, out + e)
    else if (s[0] < ' ' && s[0] != '\t') || s[0] as int == 0x7F then Bad
    else Basic(s[1..], out + [s[0]])
  }

  function Key(s: string): (r: Read<string>)
    ensures r.Good? ==> |r.rest| < |s|
  {
    if s == "" then Bad
    else if s[0] == '"' then Basic(s[1..], "")
    else if BareRun(s) == 0 then Bad
    else Good(s[..BareRun(s)], s[BareRun(s)..])
  }

  function Path(s: string): (r: Read<seq<string>>)
    ensures r.Good? ==> |r.rest| < |s| && r.value != []
    decreases |s|
  {
    match Key(s)
    case Bad => Bad
    case Good(k, t) =>
      if t == "" || t[0] != '.' then Good([k], t)
      else
        match Path(t[1..])
        case Bad => Bad
        case Good(ks, rest) => Good([k] + ks, rest)
  }

  function Unsigned(s: string): (r: Read<nat>)
    ensures r.Good? ==> |r.rest| < |s|
  {
    var n := DigitRun(s);
    if n == 0 || (n > 1 && s[0] == '0') || !Ends(s[n..]) then Bad else Good(DecimalValue(s[..n]), s[n..])
  }

  function Number(s: string): (r: Read<Plain>)
    ensures r.Good? ==> |r.rest| < |s|
  {
    if s != "" && s[0] == '-' then
      match Unsigned(s[1..])
      case Bad => Bad
      case Good(n, rest) => Good(Integer(0 - n), rest)
    else
      match Unsigned(s)
      case Bad => Bad
      case Good(n, rest) => Good(Integer(n), rest)
  }

  /** What may follow a value: anything else would be part of another kind of value. */
  predicate Ends(rest: string) {
    rest == "" || rest[0] == ',' || rest[0] == ']' || rest[0] == '\n' || rest[0] == ' '
  }

  function Value(s: string): (r: Read<Plain>)
    ensures r.Good? ==> |r.rest| < |s|
    decreases |s|, 0
  {
    if s == "" then Bad
    else if s[0] == '"' then
      match Basic(s[1..], "")
      case Bad => Bad
      case Good(text, rest) => Good(String(text), rest)
    else if s[0] == '[' then
      var t := SkipBlanks(s[1..]);
      if t != "" && t[0] == ']' then Good(Array([]), t[1..]) else Items(t, [])
    else Word(s)
  }

  function Word(s: string): (r: Read<Plain>)
    requires s != ""
    ensures r.Good? ==> |r.rest| < |s|
  {
    if Json.StartsWith(s, "true") then Good(Boolean(true), s[4..])
    else if Json.StartsWith(s, "false") then Good(Boolean(false), s[5..])
    else Number(s)
  }

  function Items(s: string, done: seq<Plain>): (r: Read<Plain>)
    ensures r.Good? ==> |r.rest| < |s|
    decreases |s|, 1
  {
    match Value(s)
    case Bad => Bad
    case Good(v, after) =>
      var t := SkipBlanks(after);
      if t == "" then Bad
      else if t[0] == ']' then Good(Array(done + [v]), t[1..])
      else if t[0] == ',' then Items(SkipBlanks(t[1..]), done + [v])
      else Bad
  }

  /** Reads `word` exactly. */
  function Expect<T>(r: Read<T>, word: string): Read<T> {
    match r
    case Bad => Bad
    case Good(v, rest) => if Json.StartsWith(rest, word) then Good(v, rest[|word|..]) else Bad
  }

  function PairLine(s: string): (r: Read<Line>)
    ensures r.Good? ==> |r.rest| < |s|
  {
    match Key(s)
    case Bad => Bad
    case Good(k, after) =>
      var t := SkipBlanks(after);
      if t == "" || t[0] != '=' then Bad
      else
        match Expect(Value(SkipBlanks(t[1..])), "\n")
        case Bad => Bad
        case Good(v, rest) => Good(Pair(k, v), rest)
  }

  /** One line, its newline included. */
  function ReadLine(s: string): (r: Read<Line>)
    requires s != ""
    ensures r.Good? ==> |r.rest| < |s|
  {
    if s[0] == '\n' then Good(Blank, s[1..])
    else if Json.StartsWith(s, "[[") then
      match Expect(Path(s[2..]), "]]\n")
      case Bad => Bad
      case Good(p, rest) => Good(ArrayHeader(p), rest)
    else if s[0] == '[' then
      match Expect(Path(s[1..]), "]\n")
      case Bad => Bad
      case Good(p, rest) => Good(Header(p), rest)
    else PairLine(s)
  }

  function ReadText(st: State, s: string): Option<State>
    decreases |s|
  {
    if s == "" then Some(st)
    else
      match ReadLine(s)
      case Bad => None
      case Good(line, rest) =>
        match Apply(st, line)
        case None => None
        case Some(next) => ReadText(next, rest)
  }

  /** The tree a document denotes. */
  function ReadDocument(s: string): Option<Members> {
    match ReadText(State(map[], []), s)
    case None => None
    case Some(st) => Some(st.root)
  }
}
