/** The text that `config_write` produces for a setting tree. */
module ConfigWriter {
  import opened CLibrary
  import opened ConfigTree
  import opened ConfigScanner
  import opened Seqs

  /** Nesting below depth 1 is indented by the tab width, or by tabs when that is 0. */
  function Indent(depth: nat, width: nat): (s: string)
    ensures forall c | c in s :: IsBlank(c)
  {
    if depth <= 1 then []
    else if width > 0 then
      (var n := (depth - 1) * width; Repeat(' ', if n == 0 then 1 else n))
    else Repeat('\t', depth - 1)
  }

  function EscapeChar(c: char): (s: string)
    ensures |s| > 0
  {
    if c == '\"' then "\\\""
    else if c == '\\' then "\\\\"
    else if c == '\n' then "\\n"
    else if c == '\r' then "\\r"
    else if c == FormFeed then "\\f"
    else if c == '\t' then "\\t"
    else if c >= ' ' then [c]
    else ['\\', 'x', Digit(c as int / 16, true), Digit(c as int % 16, true)]
  }

  function Escape(s: string): string
  {
    if s == [] then [] else EscapeChar(s[0]) + Escape(s[1..])
  }

  function PrintInteger(i: int, fmt: Format): string
  {
    if fmt == Hex then "0x" + ToBase(Unsigned32(i), 16, true) else Decimal(i)
  }

  function PrintInteger64(l: int, fmt: Format): string
  {
    (if fmt == Hex then "0x" + ToBase(Unsigned64(l), 16, true) else Decimal(l)) + "L"
  }

  function PrintValue(v: Value, default: Format, depth: nat, width: nat): string
    decreases v, 1
  {
    match v
    case Untyped => "???"
    case Boolean(b) => if b then "true" else "false"
    case Integer(i, fmt) => PrintInteger(i, EffectiveFormat(fmt, default))
    case Integer64(l, fmt) => PrintInteger64(l, EffectiveFormat(fmt, default))
    case Float(text) => text
    case Str(s) => "\"" + Escape(s) + "\""
    case Array(elems) => "[ " + PrintElems(elems, default, depth, width) + "]"
    case List(elems) => "( " + PrintElems(elems, default, depth, width) + ")"
    case Group(members) =>
      (if depth > 0 then "\n" + Indent(depth, width) + "{\n" else "") +
      PrintMembers(members, default, depth + 1, width) +
      Indent(depth, width) + (if depth > 0 then "}" else "")
  }

  /** The elements of an array or list that is printed at `depth`. */
  function PrintElems(vs: seq<Value>, default: Format, depth: nat, width: nat): string
    decreases vs, 0
  {
    if vs == [] then []
    else
      PrintValue(vs[0], default, depth + 1, width) + (if |vs| > 1 then ", " else " ") +
      PrintElems(vs[1..], default, depth, width)
  }

  function PrintMembers(ms: seq<Member>, default: Format, depth: nat, width: nat): string
    decreases ms, 0
  {
    if ms == [] then []
    else
      Indent(depth, width) + ms[0].name + (if ms[0].value.Group? then " : " else " = ") +
      PrintValue(ms[0].value, default, depth, width) + ";\n" +
      PrintMembers(ms[1..], default, depth, width)
  }

  /** The whole configuration: the root is a group at depth 0. */
  function PrintConfig(root: Value, default: Format, width: nat): string
  {
    PrintValue(root, default, 0, width)
  }
}
