/** The renderer: a JSON object as the lines of a TOML document, and the program that writes them. */
module TomlRender {
  import opened Text
  import opened Arithmetic
  import opened Json
  import Toml

  const MAX_TABLE_DEPTH: nat := 64
  const MAX_INTEGER: real := 9.0e15

  // ----- what is rendered

  /** `modf(number) == 0 && fabs(number) <= 9.0e15`. */
  predicate IsWhole(r: real) {
    r.Floor as real == r && -MAX_INTEGER <= r <= MAX_INTEGER
  }

  /** A value that can be written on one line: arrays of such values nest, objects and nulls are refused. */
  predicate IsPlain(v: Value)
    decreases v
  {
    match v
    case Null => false
    case Obj(_) => false
    case Arr(items) => forall i :: 0 <= i < |items| ==> IsPlain(items[i])
    case _ => true
  }

  function Natural(lib: Library, v: Value): Toml.Plain
    requires IsPlain(v)
    decreases v
  {
    match v
    case Bool(b) => Toml.Boolean(b)
    case Num(n) => if IsWhole(n.value) then Toml.Integer(n.value.Floor) else Toml.Float(lib.general(n.value))
    case Str(s) => Toml.String(s)
    case Arr(items) => Toml.Array(NaturalItems(lib, items))
  }

  function NaturalItems(lib: Library, items: seq<Value>): seq<Toml.Plain>
    requires forall i :: 0 <= i < |items| ==> IsPlain(items[i])
    decreases items
  {
    if items == [] then [] else [Natural(lib, items[0])] + NaturalItems(lib, items[1..])
  }

  /** How a member is rendered. */
  datatype Kind = Dropped | Line | SubTable | SubTables

  /** A non-empty array of objects. */
  predicate IsObjects(v: Value) {
    v.Arr? && v.items != [] && forall i :: 0 <= i < |v.items| ==> v.items[i].Obj?
  }

  function KindOf(v: Value): Kind {
    if v.Null? then Dropped else if v.Obj? then SubTable else if IsObjects(v) then SubTables else Line
  }

  /** The members have keys and plain values wherever those are needed. */
  predicate Supported(members: seq<Member>)
    decreases members
  {
    members != [] ==> SupportedMember(members[0]) && Supported(members[1..])
  }

  predicate SupportedMember(m: Member)
    decreases m
  {
    match KindOf(m.value)
    case Dropped => true
    case Line => m.key != "" && IsPlain(m.value)
    case SubTable => m.key != "" && Supported(m.value.members)
    case SubTables => m.key != "" && SupportedItems(m.value.items)
  }

  predicate SupportedItems(items: seq<Value>)
    decreases items
  {
    items != [] ==> items[0].Obj? && Supported(items[0].members) && SupportedItems(items[1..])
  }

  /** How many tables deep the members go. */
  function Nesting(members: seq<Member>): nat
    decreases members
  {
    if members == [] then 0 else Max(NestingOf(members[0].value), Nesting(members[1..]))
  }

  function NestingOf(v: Value): nat
    decreases v
  {
    match KindOf(v)
    case SubTable => 1 + Nesting(v.members)
    case SubTables => NestingItems(v.items)
    case _ => 0
  }

  function NestingItems(items: seq<Value>): nat
    decreases items
  {
    if items == [] || !items[0].Obj? then 0 else Max(1 + Nesting(items[0].members), NestingItems(items[1..]))
  }

  /** The lines of a table at `path`: its pairs, then its tables, then its arrays of tables. */
  function Lines(lib: Library, members: seq<Member>, path: seq<string>): seq<Toml.Line>
    requires Supported(members)
    decreases members, 1
  {
    PairLines(lib, members) + (TableLines(lib, members, path) + ArrayLines(lib, members, path))
  }

  function PairLines(lib: Library, members: seq<Member>): seq<Toml.Line>
    requires Supported(members)
    decreases members, 0
  {
    if members == [] then []
    else
      var m := members[0];
      assert SupportedMember(m);
      (if KindOf(m.value).Line? then [Toml.Pair(m.key, Natural(lib, m.value))] else []) + PairLines(lib, members[1..])
  }

  function TableLines(lib: Library, members: seq<Member>, path: seq<string>): seq<Toml.Line>
    requires Supported(members)
    decreases members, 0
  {
    if members == [] then []
    else
      var m := members[0];
      assert SupportedMember(m);
      (if m.value.Obj? then
         [Toml.Blank, Toml.Header(path + [m.key])] + Lines(lib, m.value.members, path + [m.key])
       else [])
      + TableLines(lib, members[1..], path)
  }

  function ArrayLines(lib: Library, members: seq<Member>, path: seq<string>): seq<Toml.Line>
    requires Supported(members)
    decreases members, 0
  {
    if members == [] then []
    else
      var m := members[0];
      assert SupportedMember(m);
      (if IsObjects(m.value) then ItemLines(lib, m.value.items, path + [m.key]) else [])
      + ArrayLines(lib, members[1..], path)
  }

  function ItemLines(lib: Library, items: seq<Value>, path: seq<string>): seq<Toml.Line>
    requires SupportedItems(items)
    decreases items, 0
  {
    if items == [] then []
    else
      [Toml.Blank, Toml.ArrayHeader(path)] + Lines(lib, items[0].members, path) + ItemLines(lib, items[1..], path)
  }

  // ----- how it is written

  function BasicEscape(c: char): string {
    if c == BACKSPACE then "\\b"
    else if c == '\t' then "\\t"
    else if c == '\n' then "\\n"
    else if c == FORM_FEED then "\\f"
    else if c == '\r' then "\\r"
    else if c == '"' then "\\\""
    else if c == '\\' then "\\\\"
    else if c < ' ' || c as int == 0x7F then ['\\', 'u', '0', '0', HexDigit(c as int / 16), HexDigit(c as int % 16)]
    else [c]
  }

  function BasicEscaped(s: string): string {
    if s == "" then "" else BasicEscape(s[0]) + BasicEscaped(s[1..])
  }

  function BasicQuoted(s: string): string {
    "\"" + (BasicEscaped(s) + "\"")
  }

  predicate AllBare(s: string) {
    forall i :: 0 <= i < |s| ==> Toml.IsBare(s[i])
  }

  function KeyText(key: string): string {
    if AllBare(key) then key else BasicQuoted(key)
  }

  function PathText(path: seq<string>): string {
    if path == [] then ""
    else if |path| == 1 then KeyText(path[0])
    else KeyText(path[0]) + ("." + PathText(path[1..]))
  }

  function PlainText(v: Toml.Plain): string
    decreases v
  {
    match v
    case Boolean(b) => if b then "true" else "false"
    case Integer(n) => SignedDecimal(n)
    case Float(text) => text
    case String(s) => BasicQuoted(s)
    case Array(items) => "[" + ItemsText(items, true)
  }

  /** The items still to come of an array, and its closing bracket. */
  function ItemsText(items: seq<Toml.Plain>, first: bool): string
    decreases items
  {
    if items == [] then "]"
    else (if first then "" else ", ") + (PlainText(items[0]) + ItemsText(items[1..], false))
  }

  function LineText(line: Toml.Line): string {
    match line
    case Blank => "\n"
    case Pair(k, v) => KeyText(k) + (" = " + (PlainText(v) + "\n"))
    case Header(path) => "[" + (PathText(path) + "]\n")
    case ArrayHeader(path) => "[[" + (PathText(path) + "]]\n")
  }

  function TextOf(lines: seq<Toml.Line>): string {
    if lines == [] then "" else LineText(lines[0]) + TextOf(lines[1..])
  }
}
