/** The configuration grammar, as recursive functions. */
module ConfigGrammar {
  // They describe the accepted token sequences and the tree each one denotes.

  import opened ConfigTree
  import opened ConfigScanner

  datatype Error = SyntaxError | DuplicateName | MismatchedType

  datatype Parsed<T> = Ok(value: T, rest: seq<Token>) | Fail(error: Error)

  function Peek(ts: seq<Token>): Token { if ts == [] then TError else ts[0] }

  predicate StartsScalar(ts: seq<Token>)
  {
    var t := Peek(ts);
    t.TBoolean? || t.TInteger? || t.THex? || t.TInteger64? || t.THex64? || t.TFloat? || t.TString?
  }

  /** Adjacent string tokens denote one string. */
  function StringRun(ts: seq<Token>): (r: (string, seq<Token>))
    ensures |r.1| <= |ts|
    ensures Peek(ts).TString? ==> |r.1| < |ts|
    ensures !Peek(r.1).TString?
  {
    if Peek(ts).TString? then
      var (s, rest) := StringRun(ts[1..]);
      (ts[0].s + s, rest)
    else ("", ts)
  }

  function ParseScalar(ts: seq<Token>): (r: (Value, seq<Token>))
    requires StartsScalar(ts)
    ensures IsScalar(r.0) && |r.1| < |ts|
  {
    match ts[0]
    case TBoolean(b) => (Boolean(b), ts[1..])
    case TInteger(i) => (Integer(i, Plain), ts[1..])
    case THex(i) => (Integer(i, Hex), ts[1..])
    case TInteger64(l) => (Integer64(l, Plain), ts[1..])
    case THex64(l) => (Integer64(l, Hex), ts[1..])
    case TFloat(text) => (Float(text), ts[1..])
    case TString(_) => (Str(StringRun(ts).0), StringRun(ts).1)
  }

  function ParseValue(ts: seq<Token>): (r: Parsed<Value>)
    ensures r.Ok? ==> |r.rest| < |ts|
    decreases |ts|, 0
  {
    if StartsScalar(ts) then
      var (v, rest) := ParseScalar(ts);
      Ok(v, rest)
    else if Peek(ts) == TArrayStart then
      if Peek(ts[1..]) == TArrayEnd then Ok(Array([]), ts[2..])
      else
        match ParseArray(ts[1..], [])
        case Ok(vs, rest) => Ok(Array(vs), rest)
        case Fail(e) => Fail(e)
    else if Peek(ts) == TListStart then
      if Peek(ts[1..]) == TListEnd then Ok(List([]), ts[2..])
      else
        match ParseList(ts[1..], [])
        case Ok(vs, rest) => Ok(List(vs), rest)
        case Fail(e) => Fail(e)
    else if Peek(ts) == TGroupStart then
      match ParseSettings(ts[1..], [])
      case Ok(ms, rest) => if Peek(rest) == TGroupEnd then Ok(Group(ms), rest[1..]) else Fail(SyntaxError)
      case Fail(e) => Fail(e)
    else Fail(SyntaxError)
  }

  /** One or more scalars separated by commas, up to the closing bracket; the first
      element fixes the type. */
  function ParseArray(ts: seq<Token>, done: seq<Value>): (r: Parsed<seq<Value>>)
    ensures r.Ok? ==> |r.rest| < |ts|
    decreases |ts|, 1
  {
    if !StartsScalar(ts) then Fail(SyntaxError)
    else
      var (v, rest) := ParseScalar(ts);
      if done != [] && !SameType(done[0], v) then Fail(MismatchedType)
      else if Peek(rest) == TComma then ParseArray(rest[1..], done + [v])
      else if Peek(rest) == TArrayEnd then Ok(done + [v], rest[1..])
      else Fail(SyntaxError)
  }

  /** One or more values separated by commas, up to the closing parenthesis. */
  function ParseList(ts: seq<Token>, done: seq<Value>): (r: Parsed<seq<Value>>)
    ensures r.Ok? ==> |r.rest| < |ts|
    decreases |ts|, 1
  {
    match ParseValue(ts)
    case Fail(e) => Fail(e)
    case Ok(v, rest) =>
      if Peek(rest) == TComma then ParseList(rest[1..], done + [v])
      else if Peek(rest) == TListEnd then Ok(done + [v], rest[1..])
      else Fail(SyntaxError)
  }

  predicate HasName(ms: seq<Member>, name: string)
  {
    exists i | 0 <= i < |ms| :: ms[i].name == name
  }

  function SkipTerminator(ts: seq<Token>): (r: seq<Token>)
    ensures |r| <= |ts|
  {
    if Peek(ts) == TSemicolon || Peek(ts) == TComma then ts[1..] else ts
  }

  /** One setting with its optional terminator. A name that is not new in its group, or is
      not a valid name, is reported as a duplicate. */
  function ParseSetting(ts: seq<Token>, done: seq<Member>): (r: Parsed<Member>)
    requires Peek(ts).TName?
    ensures r.Ok? ==> |r.rest| < |ts|
    decreases |ts|, 1
  {
    if HasName(done, ts[0].name) || !ValidName(ts[0].name) then Fail(DuplicateName)
    else if Peek(ts[1..]) != TEquals then Fail(SyntaxError)
    else
      match ParseValue(ts[2..])
      case Fail(e) => Fail(e)
      case Ok(v, rest) => Ok(Member(ts[0].name, v), SkipTerminator(rest))
  }

  /** Zero or more settings. */
  function ParseSettings(ts: seq<Token>, done: seq<Member>): (r: Parsed<seq<Member>>)
    ensures r.Ok? ==> |r.rest| <= |ts|
    decreases |ts|, 2
  {
    if !Peek(ts).TName? then Ok(done, ts)
    else
      match ParseSetting(ts, done)
      case Fail(e) => Fail(e)
      case Ok(m, rest) => ParseSettings(rest, done + [m])
  }

  /** A configuration: settings up to the end of the input. */
  function ParseConfig(ts: seq<Token>): Parsed<Value>
  {
    match ParseSettings(ts, [])
    case Fail(e) => Fail(e)
    case Ok(ms, rest) => if rest == [] then Ok(Group(ms), []) else Fail(SyntaxError)
  }
}
