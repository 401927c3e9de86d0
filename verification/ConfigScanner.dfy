/** The libconfig scanner: the rules of its start conditions. */
module ConfigScanner {
  // The longest match wins. A file system is a map from file names, as a directive writes them, to
  // contents; a missing key cannot be opened.

  import opened CLibrary
  import opened ConfigTree

  datatype Token =
    | TBoolean(b: bool)
    | TInteger(i: int)
    | THex(i: int)
    | TInteger64(l: int)
    | THex64(l: int)
    | TFloat(text: string)
    | TString(s: string)
    | TName(name: string)
    | TEquals | TComma | TSemicolon
    | TArrayStart | TArrayEnd | TListStart | TListEnd | TGroupStart | TGroupEnd
    | TGarbage | TError

  datatype Condition = Initial | InComment | InString | InInclude

  datatype Effect = Skip | Emit(token: Token) | Open(file: string)

  /** What the action of one matched rule does: it consumes `len` characters, and
      leaves a start condition and the text collected so far. */
  datatype Match = Match(len: nat, condition: Condition, text: string, effect: Effect)

  const MAX_INCLUDE_DEPTH: nat := 10

  // ----- character classes -----

  predicate IsBlank(c: char) { c == ' ' || c == '\t' }

  const Newline: char := '\n'
  const FormFeed: char := 12 as char

  predicate IsPlainText(c: char) { c != '\"' && c != '\\' }

  function IndexOf(c: char, s: string): (n: nat)
    ensures n <= |s|
    ensures n < |s| ==> s[n] == c
    ensures forall i | 0 <= i < n :: s[i] != c
  {
    Span((d: char) => d != c, s)
  }

  // ----- numbers -----

  function At(s: string, i: nat): char { if i < |s| then s[i] else '\0' }

  function SignLength(s: string): (n: nat)
    ensures n <= |s| && n <= 1
  {
    if s != [] && (s[0] == '+' || s[0] == '-') then 1 else 0
  }

  function Digits(s: string): (n: nat)
    ensures n <= |s|
  {
    Span((c: char) => IsDigit(c), s)
  }

  /** `[-+]?[0-9]+`, or 0 when there is no match. */
  function IntegerLength(s: string): (n: nat)
    ensures n <= |s|
  {
    var sign := SignLength(s);
    var d := Digits(s[sign..]);
    if d > 0 then sign + d else 0
  }

  /** `L(L)?` after position `n`, which ends a nonempty match. */
  function SuffixLength(s: string, n: nat): (m: nat)
    requires n <= |s|
    ensures m == 0 || n < m <= |s|
  {
    if n > 0 && At(s, n) == 'L' then (if At(s, n + 1) == 'L' then n + 2 else n + 1) else 0
  }

  /** `0[Xx][0-9A-Fa-f]+` */
  function HexLength(s: string): (n: nat)
    ensures n <= |s|
  {
    if At(s, 0) == '0' && (At(s, 1) == 'x' || At(s, 1) == 'X') then
      var d := Span((c: char) => IsHexDigit(c), s[2..]);
      if d > 0 then 2 + d else 0
    else 0
  }

  /** `[eE][-+]?[0-9]+` */
  function ExponentLength(s: string): (n: nat)
    ensures n <= |s|
  {
    if At(s, 0) == 'e' || At(s, 0) == 'E' then
      var sign := 1 + SignLength(s[1..]);
      var d := Digits(s[sign..]);
      if d > 0 then sign + d else 0
    else 0
  }

  /** `[-+]?[0-9]*\.[0-9]*(exp)?` or `[-+]?[0-9]+(\.[0-9]*)?exp` */
  function FloatLength(s: string): (n: nat)
    ensures n <= |s|
  {
    var sign := SignLength(s);
    var d := Digits(s[sign..]);
    var m := sign + d;
    if At(s, m) == '.' then
      var f := m + 1 + Digits(s[m + 1..]);
      f + ExponentLength(s[f..])
    else if d > 0 && ExponentLength(s[m..]) > 0 then m + ExponentLength(s[m..])
    else 0
  }

  /** The value behind `atoi` and `atoll`, before narrowing. */
  function SignedValue(s: string): int
  {
    var sign := SignLength(s);
    var d := Digits(s[sign..]);
    var magnitude: int := FromBase(s[sign..][..d], 10);
    if At(s, 0) == '-' then -magnitude else magnitude
  }

  function HexMagnitude(s: string): nat
  {
    if |s| < 2 then 0
    else FromBase(s[2..][..Span((c: char) => IsHexDigit(c), s[2..])], 16)
  }

  function Atoi(s: string): (r: int)
    ensures IsInt32(r)
  {
    Wrap32(Clamp(SignedValue(s), INT64_MIN, INT64_MAX))
  }

  function Atoll(s: string): (r: int)
    ensures IsInt64(r)
  {
    Clamp(SignedValue(s), INT64_MIN, INT64_MAX)
  }

  function HexToInt(s: string): (r: int)
    ensures IsInt32(r)
  {
    Wrap32(Clamp(HexMagnitude(s), 0, UINT64_MAX))
  }

  function HexToInt64(s: string): (r: int)
    ensures IsInt64(r)
  {
    Wrap64(Clamp(HexMagnitude(s), 0, UINT64_MAX))
  }

  /** The longest of the five numeric patterns; at equal length the first one wins. */
  function MatchNumber(s: string): (m: Match)
    requires s != []
    ensures 1 <= m.len <= |s|
  {
    var float, integer, hex := FloatLength(s), IntegerLength(s), HexLength(s);
    var integer64, hex64 := SuffixLength(s, integer), SuffixLength(s, hex);
    if float > 0 && float >= integer && float >= integer64 && float >= hex && float >= hex64 then
      Match(float, Initial, "", Emit(TFloat(s[..float])))
    else if integer > 0 && integer >= integer64 && integer >= hex && integer >= hex64 then
      Match(integer, Initial, "", Emit(TInteger(Atoi(s[..integer]))))
    else if integer64 > 0 && integer64 >= hex && integer64 >= hex64 then
      Match(integer64, Initial, "", Emit(TInteger64(Atoll(s[..integer64]))))
    else if hex > 0 && hex >= hex64 then
      Match(hex, Initial, "", Emit(THex(HexToInt(s[..hex]))))
    else if hex64 > 0 then
      Match(hex64, Initial, "", Emit(THex64(HexToInt64(s[..hex64]))))
    else
      Match(1, Initial, "", Emit(TGarbage))
  }

  // ----- the rules -----

  function KeywordToken(word: string): Token
  {
    if LowerAll(word) == "true" then TBoolean(true)
    else if LowerAll(word) == "false" then TBoolean(false)
    else TName(word)
  }

  const IncludeWord: string := "@include"

  /** `^[ \t]*@include[ \t]+\"` */
  function IncludeLength(s: string): (n: nat)
    ensures n <= |s|
  {
    var b := Span((c: char) => IsBlank(c), s);
    if IncludeWord <= s[b..] then
      var w := b + |IncludeWord|;
      var g := Span((c: char) => IsBlank(c), s[w..]);
      if g > 0 && At(s, w + g) == '\"' then w + g + 1 else 0
    else 0
  }

  function Punctuation(c: char): Token
  {
    if c == '=' || c == ':' then TEquals
    else if c == ',' then TComma
    else if c == ';' then TSemicolon
    else if c == '{' then TGroupStart
    else if c == '}' then TGroupEnd
    else if c == '[' then TArrayStart
    else if c == ']' then TArrayEnd
    else if c == '(' then TListStart
    else if c == ')' then TListEnd
    else TGarbage
  }

  /** The text collected in the shared string buffer is kept by every rule of the
      initial condition: an include directive or a string starts from what is there. */
  function MatchInitial(s: string, bol: bool, text: string): (m: Match)
    requires s != []
    ensures 1 <= m.len <= |s|
  {
    var c := s[0];
    if bol && IncludeLength(s) > 0 then Match(IncludeLength(s), InInclude, text, Skip)
    else if c == '/' && At(s, 1) == '*' then Match(2, InComment, text, Skip)
    else if (c == '#' || (c == '/' && At(s, 1) == '/')) && IndexOf(Newline, s) < |s| then
      Match(IndexOf(Newline, s), Initial, text, Skip)
    else if c == '\"' then Match(1, InString, text, Skip)
    else if c == '\n' || c == '\r' || c == FormFeed then Match(1, Initial, text, Skip)
    else if IsBlank(c) then Match(Span((d: char) => IsBlank(d), s), Initial, text, Skip)
    else if IsNameStart(c) then
      var n := Span((d: char) => IsNameChar(d), s);
      Match(n, Initial, text, Emit(KeywordToken(s[..n])))
    else if IsDigit(c) || c == '+' || c == '-' || c == '.' then MatchNumber(s).(text := text)
    else Match(1, Initial, text, Emit(Punctuation(c)))
  }

  function MatchComment(s: string, text: string): (m: Match)
    requires s != []
    ensures 1 <= m.len <= |s|
  {
    if s[0] == '*' && At(s, 1) == '/' then Match(2, Initial, text, Skip)
    else Match(1, InComment, text, Skip)
  }

  function MatchString(s: string, text: string): (m: Match)
    requires s != []
    ensures 1 <= m.len <= |s|
  {
    if IsPlainText(s[0]) then
      var n := Span((c: char) => IsPlainText(c), s);
      Match(n, InString, text + CString(s[..n]), Skip)
    else if s[0] == '\"' then Match(1, Initial, "", Emit(TString(text)))
    else if At(s, 1) == 'n' then Match(2, InString, text + "\n", Skip)
    else if At(s, 1) == 'r' then Match(2, InString, text + "\r", Skip)
    else if At(s, 1) == 't' then Match(2, InString, text + "\t", Skip)
    else if At(s, 1) == 'f' then Match(2, InString, text + [FormFeed], Skip)
    else if At(s, 1) == '\\' then Match(2, InString, text + "\\", Skip)
    else if At(s, 1) == '\"' then Match(2, InString, text + "\"", Skip)
    else if (At(s, 1) == 'x' || At(s, 1) == 'X') && IsHexDigit(At(s, 2)) && IsHexDigit(At(s, 3)) then
      var code := DigitValue(s[2]) * 16 + DigitValue(s[3]);
      Match(4, InString, text + CString([code as char]), Skip)
    else Match(1, InString, text + "\\", Skip)
  }

  function MatchInclude(s: string, text: string): (m: Match)
    requires s != []
    ensures 1 <= m.len <= |s|
  {
    if IsPlainText(s[0]) then
      var n := Span((c: char) => IsPlainText(c), s);
      Match(n, InInclude, text + CString(s[..n]), Skip)
    else if s[0] == '\"' then Match(1, Initial, "", Open(text))
    else if At(s, 1) == '\\' then Match(2, InInclude, text + "\\", Skip)
    else if At(s, 1) == '\"' then Match(2, InInclude, text + "\"", Skip)
    else Match(1, InInclude, text, Skip)
  }

  /** The scanner's part of a state: start condition, beginning-of-line flag of the
      current buffer, and the shared string buffer. */
  datatype LexState = LexState(condition: Condition, bol: bool, text: string)

  const Start: LexState := LexState(Initial, true, "")

  function NextMatch(s: string, st: LexState): (m: Match)
    requires s != []
    ensures 1 <= m.len <= |s|
  {
    match st.condition
    case Initial => MatchInitial(s, st.bol, st.text)
    case InComment => MatchComment(s, st.text)
    case InString => MatchString(s, st.text)
    case InInclude => MatchInclude(s, st.text)
  }

  function After(s: string, m: Match): LexState
    requires 1 <= m.len <= |s|
  {
    LexState(m.condition, s[m.len - 1] == Newline, m.text)
  }

  // ----- scanning with includes, by recursion over the files -----

  datatype Scan = Scan(tokens: seq<Token>, last: LexState, ok: bool)

  type Files = map<string, string>

  function Prepend(ts: seq<Token>, r: Scan): Scan { r.(tokens := ts + r.tokens) }

  /** The tokens of the text `s` met at include depth `depth`, each directive replaced
      by the tokens of the file it names. The start condition and the string buffer at
      the end of an included file carry over to the outer one. A directive that nests
      too deeply, or names a file that does not open, ends the scan with an error. */
  function ScanText(fs: Files, s: string, st: LexState, depth: nat): (r: Scan)
    decreases MAX_INCLUDE_DEPTH - depth, |s|
  {
    if s == [] then Scan([], st, true)
    else
      var m := NextMatch(s, st);
      var st' := After(s, m);
      match m.effect
      case Skip => ScanText(fs, s[m.len..], st', depth)
      case Emit(t) => Prepend([t], ScanText(fs, s[m.len..], st', depth))
      case Open(file) =>
        if depth >= MAX_INCLUDE_DEPTH || file !in fs then Scan([TError], st', false)
        else
          var inner := ScanText(fs, fs[file], st'.(bol := true), depth + 1);
          if !inner.ok then inner
          else Prepend(inner.tokens, ScanText(fs, s[m.len..], inner.last.(bol := false), depth))
  }

  /** The tokens of a file, to the end or to the first include error. */
  function Tokens(fs: Files, s: string): seq<Token>
  {
    ScanText(fs, s, Start, 0).tokens
  }

  // ----- scanning with an explicit stack of suspended files -----

  /** A suspended outer file: the text after the directive. Its beginning-of-line flag
      is false, because the directive ends with a quote. */
  type Suspended = string

  /** What is still to be scanned when `s` is the current text and `stack` holds the
      suspended ones, innermost last. */
  function ScanStack(fs: Files, s: string, st: LexState, stack: seq<Suspended>): (r: Scan)
    decreases |stack|
  {
    var r := ScanText(fs, s, st, |stack|);
    if !r.ok || stack == [] then r
    else
      var top := |stack| - 1;
      Prepend(r.tokens, ScanStack(fs, stack[top], r.last.(bol := false), stack[..top]))
  }

  /** The number of rule matches and file openings that `ScanText` goes through. */
  ghost function Work(fs: Files, s: string, st: LexState, depth: nat): nat
    decreases MAX_INCLUDE_DEPTH - depth, |s|
  {
    if s == [] then 0
    else
      var m := NextMatch(s, st);
      var st' := After(s, m);
      match m.effect
      case Skip => 1 + Work(fs, s[m.len..], st', depth)
      case Emit(t) => 1 + Work(fs, s[m.len..], st', depth)
      case Open(file) =>
        if depth >= MAX_INCLUDE_DEPTH || file !in fs then 1
        else
          var inner := ScanText(fs, fs[file], st'.(bol := true), depth + 1);
          2 + Work(fs, fs[file], st'.(bol := true), depth + 1) +
          (if inner.ok then Work(fs, s[m.len..], inner.last.(bol := false), depth) else 0)
  }

  ghost function WorkStack(fs: Files, s: string, st: LexState, stack: seq<Suspended>): nat
    decreases |stack|
  {
    var r := ScanText(fs, s, st, |stack|);
    Work(fs, s, st, |stack|) +
    if !r.ok || stack == [] then 0
    else
      var top := |stack| - 1;
      1 + WorkStack(fs, stack[top], r.last.(bol := false), stack[..top])
  }

  lemma EmitIsNotError(s: string, st: LexState)
    requires s != []
    ensures NextMatch(s, st).effect != Emit(TError)
  {}

  /** At the end of a file, scanning goes on in the one that includes it. */
  lemma EndOfFile(fs: Files, st: LexState, stack: seq<Suspended>)
    ensures
      var top := |stack| - 1;
      if stack == [] then ScanStack(fs, "", st, stack) == Scan([], st, true)
      else
        && ScanStack(fs, "", st, stack) == ScanStack(fs, stack[top], st.(bol := false), stack[..top])
        && WorkStack(fs, stack[top], st.(bol := false), stack[..top]) < WorkStack(fs, "", st, stack)
  {
    if stack != [] {
      var top := |stack| - 1;
      var below := ScanStack(fs, stack[top], st.(bol := false), stack[..top]);
      assert [] + below.tokens == below.tokens;
    }
  }

  /** One rule that opens no file. */
  lemma RuleStep(fs: Files, s: string, st: LexState, stack: seq<Suspended>)
    requires s != [] && !NextMatch(s, st).effect.Open?
    ensures
      var m := NextMatch(s, st);
      var later := ScanStack(fs, s[m.len..], After(s, m), stack);
      && ScanStack(fs, s, st, stack) == (if m.effect.Emit? then Prepend([m.effect.token], later) else later)
      && WorkStack(fs, s[m.len..], After(s, m), stack) < WorkStack(fs, s, st, stack)
  {
    hide NextMatch;
    var m := NextMatch(s, st);
    var r := ScanText(fs, s[m.len..], After(s, m), |stack|);
    if m.effect.Emit? && r.ok && stack != [] {
      var top := |stack| - 1;
      var below := ScanStack(fs, stack[top], r.last.(bol := false), stack[..top]);
      assert [m.effect.token] + (r.tokens + below.tokens) == ([m.effect.token] + r.tokens) + below.tokens;
    }
  }

  /** A file that is not opened. */
  lemma FailedOpen(fs: Files, s: string, st: LexState, stack: seq<Suspended>)
    requires s != [] && NextMatch(s, st).effect.Open?
    requires |stack| >= MAX_INCLUDE_DEPTH || NextMatch(s, st).effect.file !in fs
    ensures ScanStack(fs, s, st, stack).tokens == [TError] && !ScanStack(fs, s, st, stack).ok
  {
    hide NextMatch;
  }

  /** Opening a file leaves the pending tokens as they are: the recursion over files and
      the explicit stack agree, and opening a file uses up work. No induction is needed. */
  lemma {:induction false} PushSplits(fs: Files, s: string, st: LexState, stack: seq<Suspended>)
    requires s != [] && |stack| < MAX_INCLUDE_DEPTH
    requires NextMatch(s, st).effect.Open? && NextMatch(s, st).effect.file in fs
    ensures
      var m := NextMatch(s, st);
      var text, st' := fs[m.effect.file], After(s, m).(bol := true);
      && ScanStack(fs, text, st', stack + [s[m.len..]]) == ScanStack(fs, s, st, stack)
      && WorkStack(fs, text, st', stack + [s[m.len..]]) < WorkStack(fs, s, st, stack)
  {
    hide NextMatch;
    var m := NextMatch(s, st);
    var text, st' := fs[m.effect.file], After(s, m).(bol := true);
    var longer := stack + [s[m.len..]];
    assert longer[..|stack|] == stack && longer[|stack|] == s[m.len..];
    var inner := ScanText(fs, text, st', |stack| + 1);
    if inner.ok {
      var outer := ScanText(fs, s[m.len..], inner.last.(bol := false), |stack|);
      assert ScanText(fs, s, st, |stack|) == Prepend(inner.tokens, outer);
      if outer.ok && stack != [] {
        var top := |stack| - 1;
        var below := ScanStack(fs, stack[top], outer.last.(bol := false), stack[..top]);
        assert inner.tokens + (outer.tokens + below.tokens) == (inner.tokens + outer.tokens) + below.tokens;
      }
    }
  }
}
