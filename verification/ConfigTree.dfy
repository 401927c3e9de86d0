/** The typed setting tree of libconfig, seen as a value. */
module ConfigTree {
  import opened CLibrary

  datatype Format = Plain | Hex

  datatype Value =
    | Untyped
    | Boolean(b: bool)
    | Integer(i: int, fmt: Format)
    | Integer64(l: int, fmt: Format)
    | Float(text: string)  // a floating point value is kept as the text it was read from
    | Str(s: string)
    | Array(elems: seq<Value>)
    | List(elems: seq<Value>)
    | Group(members: seq<Member>)

  datatype Member = Member(name: string, value: Value)

  predicate IsScalar(v: Value)
  {
    v.Boolean? || v.Integer? || v.Integer64? || v.Float? || v.Str?
  }

  datatype Type = NoneType | BoolType | IntType | Int64Type | FloatType | StringType | ArrayType | ListType | GroupType

  function TypeOf(v: Value): Type
  {
    match v
    case Untyped => NoneType
    case Boolean(_) => BoolType
    case Integer(_, _) => IntType
    case Integer64(_, _) => Int64Type
    case Float(_) => FloatType
    case Str(_) => StringType
    case Array(_) => ArrayType
    case List(_) => ListType
    case Group(_) => GroupType
  }

  predicate SameType(v: Value, w: Value) { TypeOf(v) == TypeOf(w) }

  predicate IsNameStart(c: char) { IsAlpha(c) || c == '*' }

  predicate IsNameChar(c: char) { IsAlpha(c) || IsDigit(c) || c == '*' || c == '_' || c == '-' }

  predicate ValidName(name: string)
  {
    name != [] && IsNameStart(name[0]) && forall c | c in name :: IsNameChar(c)
  }

  function LowerAll(s: string): (r: string)
    ensures |r| == |s|
    ensures forall i | 0 <= i < |s| :: r[i] == Lower(s[i])
  {
    if s == [] then [] else [Lower(s[0])] + LowerAll(s[1..])
  }

  /** The scanner reads these names as booleans, whatever their case. */
  predicate IsKeyword(name: string)
  {
    LowerAll(name) == "true" || LowerAll(name) == "false"
  }

  predicate DistinctNames(ms: seq<Member>)
  {
    forall i, j | 0 <= i < j < |ms| :: ms[i].name != ms[j].name
  }

  /** The values that the writer prints in the reader's syntax. */
  predicate Printable(v: Value)
  {
    match v
    case Untyped => false
    case Boolean(_) => true
    case Integer(i, _) => IsInt32(i)
    case Integer64(l, _) => IsInt64(l)
    case Float(_) => false
    case Str(s) => forall c | c in s :: c != '\0'
    case Array(elems) =>
      && (forall e | e in elems :: IsScalar(e) && Printable(e))
      && (forall i | 0 <= i < |elems| :: SameType(elems[0], elems[i]))
    case List(elems) => forall e | e in elems :: Printable(e)
    case Group(members) =>
      && DistinctNames(members)
      && (forall m | m in members :: ValidName(m.name) && Printable(m.value))
  }

  /** No member, at any depth, has a name that reads as a boolean. */
  predicate Unambiguous(v: Value)
  {
    match v
    case Array(elems) => forall e | e in elems :: Unambiguous(e)
    case List(elems) => forall e | e in elems :: Unambiguous(e)
    case Group(members) => forall m | m in members :: !IsKeyword(m.name) && Unambiguous(m.value)
    case _ => true
  }

  /** The format used for printing: a setting without one takes the configuration's default. */
  function EffectiveFormat(fmt: Format, default: Format): Format
  {
    if fmt == Plain then default else fmt
  }

  /** The tree with every number carrying the format it is printed in. */
  function Effective(v: Value, default: Format): (r: Value)
    ensures SameType(v, r) && (IsScalar(v) <==> IsScalar(r))
    decreases v, 1
  {
    match v
    case Integer(i, fmt) => Integer(i, EffectiveFormat(fmt, default))
    case Integer64(l, fmt) => Integer64(l, EffectiveFormat(fmt, default))
    case Array(elems) => Array(EffectiveAll(elems, default))
    case List(elems) => List(EffectiveAll(elems, default))
    case Group(members) => Group(EffectiveMembers(members, default))
    case _ => v
  }

  function EffectiveAll(vs: seq<Value>, default: Format): (r: seq<Value>)
    ensures |r| == |vs|
    decreases vs, 0
  {
    if vs == [] then [] else [Effective(vs[0], default)] + EffectiveAll(vs[1..], default)
  }

  function EffectiveMembers(ms: seq<Member>, default: Format): (r: seq<Member>)
    ensures |r| == |ms|
    decreases ms, 0
  {
    if ms == [] then []
    else [Member(ms[0].name, Effective(ms[0].value, default))] + EffectiveMembers(ms[1..], default)
  }

  /** With the plain default, the printed formats are the stored ones. */
  lemma {:induction false} EffectivePlain(v: Value)
    ensures Effective(v, Plain) == v
    decreases v, 1
  {
    match v
    case Array(elems) => EffectiveAllPlain(elems);
    case List(elems) => EffectiveAllPlain(elems);
    case Group(members) => EffectiveMembersPlain(members);
    case _ =>
  }

  lemma {:induction false} EffectiveAllPlain(vs: seq<Value>)
    ensures EffectiveAll(vs, Plain) == vs
    decreases vs, 0
  {
    if vs != [] {
      EffectivePlain(vs[0]);
      EffectiveAllPlain(vs[1..]);
    }
  }

  lemma {:induction false} EffectiveMembersPlain(ms: seq<Member>)
    ensures EffectiveMembers(ms, Plain) == ms
    decreases ms, 0
  {
    if ms != [] {
      EffectivePlain(ms[0].value);
      EffectiveMembersPlain(ms[1..]);
    }
  }
}
