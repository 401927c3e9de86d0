/** Every way to spell a token, and what may stand between tokens: blanks, line ends and
    comments. */
module ConfigSpelling {
  import opened CLibrary
  import opened ConfigTree
  import opened ConfigScanner
  import opened ConfigTokens
  import opened ConfigIncludes
  import opened ConfigComments
  import opened Options
  import opened Seqs

  /** A piece of a string. */
  datatype Part =
    | Chars(text: string)
    | Escaped(letter: char)
    | Code(x: char, high: char, low: char)
    | Stray  // a backslash that starts no escape

  datatype Exponent = NoExponent | Exponent(e: char, sign: string, digits: string)

  datatype Lexeme =
    | Blanks(text: string)
    | LineEnd(c: char)
    | LineNote(text: string)  // with its line feed
    | BlockNote(text: string)  // what is between the two marks
    | Mark(c: char)
    | Word(text: string)
    | Number(sign: string, digits: string, suffix: string)
    | HexNumber(x: char, digits: string, suffix: string)
    | RealNumber(sign: string, whole: string, fraction: Option<string>, exponent: Exponent)
    | Quoted(parts: seq<Part>)

  // ----- what is written -----

  function PartText(p: Part): string
  {
    match p
    case Chars(text) => text
    case Escaped(letter) => ['\\', letter]
    case Code(x, high, low) => ['\\', x, high, low]
    case Stray => "\\"
  }

  function PartsText(parts: seq<Part>): string
  {
    if parts == [] then "" else PartText(parts[0]) + PartsText(parts[1..])
  }

  function Written(l: Lexeme): string
  {
    match l
    case Blanks(text) => text
    case LineEnd(c) => [c]
    case LineNote(text) => text + "\n"
    case BlockNote(text) => "/*" + text + "*/"
    case Mark(c) => [c]
    case Word(text) => text
    case Number(sign, digits, suffix) => sign + digits + suffix
    case HexNumber(x, digits, suffix) => ['0', x] + digits + suffix
    case RealNumber(sign, whole, fraction, exponent) =>
      sign + whole + FractionText(fraction) + ExponentText(exponent)
    case Quoted(parts) => "\"" + PartsText(parts) + "\""
  }

  function FractionText(fraction: Option<string>): string
  {
    if fraction.Some? then "." + fraction.value else ""
  }

  function ExponentText(x: Exponent): string
  {
    if x.NoExponent? then "" else [x.e] + x.sign + x.digits
  }

  // ----- what is meant -----

  function PartValue(p: Part): string
    requires ProperPart(p)
  {
    match p
    case Chars(text) => text
    case Escaped(letter) =>
      if letter == 'n' then "\n" else if letter == 'r' then "\r" else if letter == 't' then "\t"
      else if letter == 'f' then [12 as char] else [letter]
    case Code(_, high, low) =>
      var code := DigitValue(high) * 16 + DigitValue(low);
      if code == 0 then "" else [code as char]
    case Stray => "\\"
  }

  predicate IsWord(text: string, lower: string, upper: string)
    requires |lower| == |upper|
  {
    |text| == |lower| && forall i | 0 <= i < |text| :: text[i] == lower[i] || text[i] == upper[i]
  }

  function SignedNumber(sign: string, digits: string): int
    requires AllDigits(digits, 10)
  {
    var magnitude: int := FromBase(digits, 10);
    if sign == "-" then -magnitude else magnitude
  }

  /** Numbers with the highest bit set are negative. */
  function Signed(n: nat, bound: nat): int { if n < bound / 2 then n else n - bound }

  const TwoTo32: nat := 0x1_0000_0000
  const TwoTo64: nat := 0x1_0000_0000_0000_0000

  function Emitted(l: Lexeme): seq<Token>
    requires Proper(l)
  {
    match l
    case Mark(c) =>
      [if c == '=' || c == ':' then TEquals else if c == ',' then TComma else if c == ';' then TSemicolon
       else if c == '[' then TArrayStart else if c == ']' then TArrayEnd else if c == '(' then TListStart
       else if c == ')' then TListEnd else if c == '{' then TGroupStart else TGroupEnd]
    case Word(text) =>
      [if IsWord(text, "true", "TRUE") then TBoolean(true)
       else if IsWord(text, "false", "FALSE") then TBoolean(false)
       else TName(text)]
    case Number(sign, digits, suffix) =>
      var n := SignedNumber(sign, digits);
      [if suffix == "" then TInteger(n) else TInteger64(n)]
    case HexNumber(_, digits, suffix) =>
      var n := FromBase(digits, 16);
      [if suffix == "" then THex(Signed(n, TwoTo32)) else THex64(Signed(n, TwoTo64))]
    case RealNumber(_, _, _, _) => [TFloat(Written(l))]
    case Quoted(parts) => [TString(PartsValue(parts))]
    case _ => []
  }

  function PartsValue(parts: seq<Part>): string
    requires forall p | p in parts :: ProperPart(p)
  {
    if parts == [] then "" else PartValue(parts[0]) + PartsValue(parts[1..])
  }

  // ----- what is allowed -----

  predicate ProperPart(p: Part)
  {
    match p
    case Chars(text) => forall c | c in text :: c !in {'\"', '\\', '\0'}
    case Escaped(letter) => letter in {'n', 'r', 't', 'f', '\\', '\"'}
    case Code(x, high, low) => x in {'x', 'X'} && IsHexDigit(high) && IsHexDigit(low)
    case Stray => true
  }

  predicate StartsWord(c: char) { 'a' <= c <= 'z' || 'A' <= c <= 'Z' || c == '*' }

  predicate InWord(c: char) { StartsWord(c) || '0' <= c <= '9' || c == '_' || c == '-' }

  predicate IsSuffix(suffix: string) { suffix == "" || suffix == "L" || suffix == "LL" }

  predicate IsSign(sign: string) { sign == "" || sign == "+" || sign == "-" }

  predicate ProperExponent(x: Exponent)
  {
    x.Exponent? ==> x.e in {'e', 'E'} && IsSign(x.sign) && x.digits != [] && AllDigits(x.digits, 10)
  }

  predicate Proper(l: Lexeme)
  {
    match l
    case Blanks(text) => text != [] && forall c | c in text :: c == ' ' || c == '\t'
    case LineEnd(c) => c in {'\n', '\r', 12 as char}
    case LineNote(text) => StartsLineComment(text) && '\n' !in text
    case BlockNote(text) => BlockEnd(text + "*/") == |text|
    case Mark(c) => c in {'=', ':', ',', ';', '{', '}', '[', ']', '(', ')'}
    case Word(text) =>
      text != [] && StartsWord(text[0]) && forall c | c in text :: InWord(c)
    case Number(sign, digits, suffix) =>
      && IsSign(sign) && digits != [] && AllDigits(digits, 10) && IsSuffix(suffix)
      && (if suffix == "" then IsInt32(SignedNumber(sign, digits)) else IsInt64(SignedNumber(sign, digits)))
    case HexNumber(x, digits, suffix) =>
      && x in {'x', 'X'} && digits != [] && AllDigits(digits, 16) && IsSuffix(suffix)
      && FromBase(digits, 16) < (if suffix == "" then TwoTo32 else TwoTo64)
    case RealNumber(sign, whole, fraction, exponent) =>
      && IsSign(sign) && AllDigits(whole, 10) && (fraction.Some? ==> AllDigits(fraction.value, 10))
      && (fraction.Some? || (whole != [] && exponent.Exponent?)) && ProperExponent(exponent)
    case Quoted(parts) => forall p | p in parts :: ProperPart(p)
  }

  /** A backslash must not start an escape with what follows. */
  predicate StraysAlone(parts: seq<Part>)
  {
    parts == [] || (
      && StraysAlone(parts[1..])
      && (parts[0].Stray? ==>
            var rest := PartsText(parts[1..]) + "\"";
            && rest[0] !in {'n', 'r', 't', 'f', '\\', '\"'}
            && !(rest[0] in {'x', 'X'} && IsHexDigit(At(rest, 1)) && IsHexDigit(At(rest, 2)))))
  }

  /** What follows must not make the lexeme longer. */
  predicate Ended(l: Lexeme, t: string)
  {
    match l
    case Blanks(_) => t == [] || (!IsBlank(t[0]) && t[0] != '@')
    case Word(_) => t == [] || !InWord(t[0])
    case Number(_, _, _) => t == [] || (!IsDigit(t[0]) && t[0] !in {'.', 'e', 'E', 'x', 'X', 'L'})
    case HexNumber(_, _, _) => t == [] || (!IsHexDigit(t[0]) && t[0] !in {'.', 'L'})
    case RealNumber(_, _, _, _) => t == [] || (!IsDigit(t[0]) && t[0] !in {'e', 'E'})
    case Quoted(parts) => StraysAlone(parts)
    case _ => true
  }

  // ----- each lexeme is scanned -----

  lemma NoDirectiveHere(s: string)
    requires s != [] && !IsBlank(s[0]) && s[0] != '@'
    ensures IncludeLength(s) == 0
  {
    NotADirective(s);
  }

  lemma BlanksScanned(fs: Files, l: Lexeme, t: string, bol: bool, d: nat)
    requires l.Blanks? && Proper(l) && Ended(l, t)
    ensures ScanText(fs, l.text + t, Plainly(bol), d) == ScanText(fs, t, Plainly(false), d)
  {
    hide ScanText;
    var s := l.text + t;
    SpanIs((c: char) => IsBlank(c), l.text, t);
    assert s[|l.text|..] == t;
    assert IncludeLength(s) == 0;
    assert s[0] == l.text[0] && l.text[0] in l.text && l.text[|l.text| - 1] in l.text;
    OneLexeme(fs, l.text, t, bol, Skip, d);
  }

  lemma LineEndScanned(fs: Files, c: char, t: string, bol: bool, d: nat)
    requires c in {'\n', '\r', 12 as char}
    ensures ScanText(fs, [c] + t, Plainly(bol), d) == ScanText(fs, t, Plainly(c == '\n'), d)
  {
    hide ScanText, IncludeLength;
    NoDirectiveHere([c] + t);
    OneLexeme(fs, [c], t, bol, Skip, d);
  }

  lemma LineNoteScanned(fs: Files, text: string, t: string, bol: bool, d: nat)
    requires StartsLineComment(text) && '\n' !in text && text != []
    ensures ScanText(fs, text + "\n" + t, Plainly(bol), d) == ScanText(fs, t, Plainly(true), d)
  {
    hide ScanText, StartsLineComment, IndexOf;
    var s := text + "\n" + t;
    StillAComment(text, "\n" + t);
    assert s == text + ("\n" + t);
    FirstNewline(text, t);
    LineComment(fs, s, bol, "", d);
    assert s[|text| + 1..] == t;
  }

  lemma StillAComment(text: string, t: string)
    requires StartsLineComment(text)
    ensures StartsLineComment(text + t) && text != []
  {}

  lemma FirstNewline(text: string, t: string)
    requires '\n' !in text
    ensures IndexOf(Newline, text + "\n" + t) == |text|
  {
    SpanIs((c: char) => c != Newline, text, "\n" + t);
    assert text + "\n" + t == text + ("\n" + t);
  }

  lemma BlockNoteScanned(fs: Files, text: string, t: string, bol: bool, d: nat)
    requires BlockEnd(text + "*/") == |text|
    ensures ScanText(fs, "/*" + text + "*/" + t, Plainly(bol), d) == ScanText(fs, t, Plainly(false), d)
  {
    hide ScanText, BlockEnd;
    var body := text + "*/" + t;
    BlockEndStays(text + "*/", t);
    assert "/*" + text + "*/" + t == "/*" + body;
    BlockComment(fs, body, bol, "", d);
    assert body[|text| + 2..] == t;
  }

  lemma {:induction false} BlockEndStays(s: string, t: string)
    requires BlockEnd(s) < |s|
    ensures BlockEnd(s + t) == BlockEnd(s)
  {
    var n := BlockEnd(s);
    assert At(s + t, n) == At(s, n) && At(s + t, n + 1) == At(s, n + 1);
    assert n > 0 ==> !EndsBlock(s, 0) && At(s + t, 0) == At(s, 0) && At(s + t, 1) == At(s, 1);
    if n > 0 {
      BlockEndStays(s[1..], t);
      assert (s + t)[1..] == s[1..] + t;
    }
  }

  lemma MarkScanned(fs: Files, c: char, t: string, bol: bool, d: nat)
    requires Proper(Mark(c))
    ensures ScanText(fs, [c] + t, Plainly(bol), d) == Prepend(Emitted(Mark(c)), ScanText(fs, t, Plainly(false), d))
  {
    hide ScanText;
    ScanPunctuation(fs, c, t, bol, d);
  }

  lemma LowerIs(c: char, lower: char, upper: char)
    requires 'a' <= lower <= 'z' && upper as int == lower as int - 32
    ensures Lower(c) == lower <==> c == lower || c == upper
  {}

  lemma BooleanWord(text: string)
    ensures LowerAll(text) == "true" <==> IsWord(text, "true", "TRUE")
    ensures LowerAll(text) == "false" <==> IsWord(text, "false", "FALSE")
  {
    LowerWord(text, "true", "TRUE");
    LowerWord(text, "false", "FALSE");
  }

  lemma LowerWord(text: string, lower: string, upper: string)
    requires |lower| == |upper|
    requires forall i | 0 <= i < |lower| :: 'a' <= lower[i] <= 'z' && upper[i] as int == lower[i] as int - 32
    ensures LowerAll(text) == lower <==> IsWord(text, lower, upper)
  {
    var r := LowerAll(text);
    if |text| == |lower| {
      forall i | 0 <= i < |text| ensures r[i] == lower[i] <==> text[i] == lower[i] || text[i] == upper[i] {
        LowerIs(text[i], lower[i], upper[i]);
      }
      if r == lower {
        assert forall i | 0 <= i < |text| :: r[i] == lower[i];
      }
    }
  }

  lemma WordScanned(fs: Files, text: string, t: string, bol: bool, d: nat)
    requires Proper(Word(text)) && Ended(Word(text), t)
    ensures ScanText(fs, text + t, Plainly(bol), d) == Prepend(Emitted(Word(text)), ScanText(fs, t, Plainly(false), d))
  {
    hide ScanText, NextMatch, KeywordToken, IsWord;
    var s := text + t;
    assert s[0] == text[0] && s[..|text|] == text && text[|text| - 1] in text;
    NoDirectiveHere(s);
    MatchName(s, bol);
    SpanIs((c: char) => IsNameChar(c), text, t);
    hide Span;
    OneLexeme(fs, text, t, bol, Emit(KeywordToken(text)), d);
    WordToken(text);
  }

  lemma WordToken(text: string)
    requires Proper(Word(text))
    ensures [KeywordToken(text)] == Emitted(Word(text))
  {
    hide IsWord, LowerAll;
    BooleanWord(text);
  }

  // ----- numbers -----

  lemma MatchNumeric(s: string, bol: bool)
    requires s != [] && (IsDigit(s[0]) || s[0] in {'+', '-', '.'}) && IncludeLength(s) == 0
    ensures NextMatch(s, Plainly(bol)) == MatchNumber(s).(text := "")
  {
    hide IncludeLength, MatchNumber, IndexOf, KeywordToken, Span, Punctuation;
  }

  /** What the numeric patterns find in a signed digit string. */
  lemma NumberLengths(sign: string, ds: string, t: string)
    requires IsSign(sign) && ds != [] && AllDigits(ds, 10)
    requires t == [] || (!IsDigit(t[0]) && t[0] !in {'.', 'e', 'E', 'x', 'X'})
    ensures
      var p := sign + ds;
      && IntegerLength(p + t) == |p| && FloatLength(p + t) == 0 && HexLength(p + t) == 0
      && (IsDigit(p[0]) || p[0] in {'+', '-'})
  {
    hide FromBase;
    var p := sign + ds;
    var s := p + t;
    assert ds[0] in ds && s[|sign|] == ds[0];
    assert SignLength(s) == |sign|;
    assert s[|sign|..] == ds + t;
    SpanIs((c: char) => IsDigit(c), ds, t);
    assert s[|p|..] == t && (t != [] ==> s[|p|] == t[0]);
    assert ExponentLength(t) == 0;
    assert |ds| > 1 ==> ds[1] in ds && s[|sign| + 1] == ds[1];
  }

  lemma NumberValue(sign: string, ds: string, u: string)
    requires IsSign(sign) && ds != [] && AllDigits(ds, 10)
    requires u == [] || !IsDigit(u[0])
    ensures SignedValue(sign + ds + u) == SignedNumber(sign, ds)
  {
    hide FromBase;
    var s := sign + ds + u;
    assert ds[0] in ds && s[|sign|] == ds[0];
    assert s[|sign|..] == ds + u && (ds + u)[..|ds|] == ds;
    SpanIs((c: char) => IsDigit(c), ds, u);
  }

  lemma SuffixFound(s: string, n: nat, suffix: string, t: string)
    requires IsSuffix(suffix) && 0 < n <= |s| && s[n..] == suffix + t && (t == [] || t[0] != 'L')
    ensures SuffixLength(s, n) == (if suffix == "" then 0 else n + |suffix|)
  {
    assert forall k | n <= k < |s| :: s[k] == (suffix + t)[k - n];
  }

  lemma NumberMatched(s: string, n: nat)
    requires s != [] && 0 < n == IntegerLength(s) && FloatLength(s) == 0 && HexLength(s) == 0
    ensures
      var m := SuffixLength(s, n);
      MatchNumber(s) ==
      if m == 0 then Match(n, Initial, "", Emit(TInteger(Atoi(s[..n]))))
      else Match(m, Initial, "", Emit(TInteger64(Atoll(s[..m]))))
  {
    hide IntegerLength, FloatLength, HexLength, Atoi, Atoll;
  }

  /** The parts of a number with its suffix and what follows. */
  lemma NumberParts(p: string, suffix: string, t: string)
    ensures
      var text := p + suffix;
      && text + t == p + (suffix + t) && (text + t)[|p|..] == suffix + t
      && (text + t)[..|text|] == text && (text + t)[..|p|] == p
  {
    Assoc(p, suffix, t);
  }

  /** The token a number stands for. */
  lemma NumberToken(sign: string, digits: string, suffix: string)
    requires Proper(Number(sign, digits, suffix))
    ensures suffix == "" ==> Emitted(Number(sign, digits, suffix)) == [TInteger(Atoi(sign + digits))]
    ensures suffix != "" ==> Emitted(Number(sign, digits, suffix)) == [TInteger64(Atoll(sign + digits + suffix))]
  {
    hide FromBase, AllDigits, SignedValue, SignedNumber;
    NumberValue(sign, digits, "");
    NumberValue(sign, digits, suffix);
    PlusNothing(sign + digits);
  }

  lemma NumberFound(sign: string, digits: string, suffix: string, t: string)
    requires IsSign(sign) && digits != [] && AllDigits(digits, 10) && IsSuffix(suffix)
    requires t == [] || (!IsDigit(t[0]) && t[0] !in {'.', 'e', 'E', 'x', 'X', 'L'})
    ensures
      var p := sign + digits;
      var text := p + suffix;
      && IncludeLength(text + t) == 0 && text != [] && (IsDigit((text + t)[0]) || (text + t)[0] in {'+', '-'})
      && MatchNumber(text + t) ==
         Match(|text|, Initial, "", Emit(if suffix == "" then TInteger(Atoi(p)) else TInteger64(Atoll(text))))
  {
    hide IntegerLength, FloatLength, HexLength, AllDigits, Atoi, Atoll, MatchNumber, IncludeLength, SuffixLength;
    var p := sign + digits;
    var s := p + suffix + t;
    NumberParts(p, suffix, t);
    SuffixLater(suffix, t);
    NumberLengths(sign, digits, suffix + t);
    assert s[0] == p[0];
    NoDirectiveHere(s);
    SuffixFound(s, |p|, suffix, t);
    NumberMatched(s, |p|);
    PlusNothing(p);
  }

  lemma NumberScanned(fs: Files, l: Lexeme, t: string, bol: bool, d: nat)
    requires l.Number? && Proper(l) && Ended(l, t)
    ensures ScanText(fs, Written(l) + t, Plainly(bol), d) == Prepend(Emitted(l), ScanText(fs, t, Plainly(false), d))
  {
    hide ScanText, NextMatch, AllDigits, MatchNumber, IncludeLength, SignedNumber, Atoi, Atoll, Emitted;
    NumberToken(l.sign, l.digits, l.suffix);
    NumberFound(l.sign, l.digits, l.suffix, t);
    MatchNumeric(Written(l) + t, bol);
    LastOfNumber(l);
    OneLexeme(fs, Written(l), t, bol, Emit(Emitted(l)[0]), d);
  }

  lemma SuffixLater(suffix: string, t: string)
    requires IsSuffix(suffix)
    ensures suffix + t == [] || (suffix + t)[0] == if suffix == "" then t[0] else 'L'
  {}

  lemma LastOfNumber(l: Lexeme)
    requires Proper(l) && (l.Number? || l.HexNumber?)
    ensures Written(l) != [] && Written(l)[|Written(l)| - 1] != Newline
  {
    assert l.digits[|l.digits| - 1] in l.digits;
  }

  lemma HexNumberLengths(x: char, ds: string, t: string)
    requires x in {'x', 'X'} && ds != [] && AllDigits(ds, 16)
    requires t == [] || (!IsHexDigit(t[0]) && t[0] != '.')
    ensures
      var p := ['0', x] + ds;
      IntegerLength(p + t) == 1 && FloatLength(p + t) == 0 && HexLength(p + t) == |p|
  {
    hide FromBase;
    var p := ['0', x] + ds;
    var s := p + t;
    assert s[2..] == ds + t;
    SpanIs((c: char) => IsHexDigit(c), ds, t);
    var tail := s[1..];
    assert s[0..] == "0" + tail && tail[0] == x;
    SpanIs((c: char) => IsDigit(c), "0", tail);
    assert s[0] == '0' && s[1] == x;
    assert ExponentLength(s[1..]) == 0;
  }

  lemma HexNumberValue(x: char, ds: string, u: string)
    requires AllDigits(ds, 16) && (u == [] || !IsHexDigit(u[0]))
    ensures HexMagnitude(['0', x] + ds + u) == FromBase(ds, 16)
  {
    hide FromBase;
    assert (['0', x] + ds + u)[2..] == ds + u && (ds + u)[..|ds|] == ds;
    SpanIs((c: char) => IsHexDigit(c), ds, u);
  }

  lemma HexNumberMatched(s: string, n: nat)
    requires s != [] && 1 < n == HexLength(s) && FloatLength(s) == 0 && IntegerLength(s) == 1 && At(s, 1) != 'L'
    ensures
      var m := SuffixLength(s, n);
      MatchNumber(s) ==
      if m == 0 then Match(n, Initial, "", Emit(THex(HexToInt(s[..n]))))
      else Match(m, Initial, "", Emit(THex64(HexToInt64(s[..m]))))
  {
    hide IntegerLength, FloatLength, HexLength, HexToInt, HexToInt64;
  }

  lemma SignedIsWrapped(n: nat)
    ensures n < TwoTo32 ==> Wrap32(n) == Signed(n, TwoTo32)
    ensures n < TwoTo64 ==> Wrap64(n) == Signed(n, TwoTo64)
  {}

  lemma HexNumberScanned(fs: Files, l: Lexeme, t: string, bol: bool, d: nat)
    requires l.HexNumber? && Proper(l) && Ended(l, t)
    ensures ScanText(fs, Written(l) + t, Plainly(bol), d) == Prepend(Emitted(l), ScanText(fs, t, Plainly(false), d))
  {
    hide ScanText, NextMatch, IntegerLength, FloatLength, HexLength, FromBase, AllDigits, HexMagnitude, MatchNumber;
    hide IncludeLength, SuffixLength, Wrap32, Wrap64, Signed;
    var p, n := ['0', l.x] + l.digits, 2 + |l.digits|;
    var text, s := Written(l), Written(l) + t;
    assert s == p + (l.suffix + t) && s[n..] == l.suffix + t && s[..|text|] == text && s[..n] == p && s[1] == l.x;
    HexNumberLengths(l.x, l.digits, l.suffix + t);
    NoDirectiveHere(s);
    MatchNumeric(s, bol);
    SuffixFound(s, n, l.suffix, t);
    HexNumberMatched(s, n);
    HexNumberValue(l.x, l.digits, "");
    HexNumberValue(l.x, l.digits, l.suffix);
    SignedIsWrapped(FromBase(l.digits, 16));
    assert p + "" == p;
    LastOfNumber(l);
    OneLexeme(fs, text, t, bol, Emit(Emitted(l)[0]), d);
  }

  lemma DigitsThen(ds: string, t: string)
    requires AllDigits(ds, 10) && (t == [] || !IsDigit(t[0]))
    ensures Digits(ds + t) == |ds| && (ds + t)[|ds|..] == t
    ensures ds != [] ==> IsDigit((ds + t)[0])
  {
    assert ds != [] ==> ds[0] in ds && (ds + t)[0] == ds[0];
    SpanIs((c: char) => IsDigit(c), ds, t);
  }

  lemma SignThen(sign: string, t: string)
    requires IsSign(sign) && (t == [] || t[0] !in {'+', '-'})
    ensures SignLength(sign + t) == |sign| && (sign + t)[|sign|..] == t
    ensures sign != [] ==> (sign + t)[0] in {'+', '-'}
  {}

  lemma ExponentLengthIs(s: string, a: nat, b: nat)
    requires s != [] && s[0] in {'e', 'E'} && SignLength(s[1..]) == a && 1 + a <= |s| && Digits(s[1 + a..]) == b > 0
    ensures ExponentLength(s) == 1 + a + b
  {
    hide Digits, SignLength;
  }

  lemma NoExponentHere(t: string)
    requires t == [] || t[0] !in {'e', 'E'}
    ensures ExponentLength(t) == 0
  {}

  lemma ExponentParts(x: Exponent, t: string)
    requires x.Exponent?
    ensures ExponentText(x) + t == [x.e] + (x.sign + (x.digits + t))
    ensures ([x.e] + (x.sign + (x.digits + t)))[1..] == x.sign + (x.digits + t)
    ensures ([x.e] + (x.sign + (x.digits + t)))[1 + |x.sign|..] == x.digits + t
    ensures |ExponentText(x)| == 1 + |x.sign| + |x.digits|
  {
    Assoc([x.e] + x.sign, x.digits, t);
    Assoc([x.e], x.sign, x.digits + t);
  }

  lemma ExponentFound(x: Exponent, t: string)
    requires ProperExponent(x) && (t == [] || (!IsDigit(t[0]) && t[0] !in {'e', 'E'}))
    ensures ExponentLength(ExponentText(x) + t) == |ExponentText(x)|
  {
    hide Digits, SignLength, AllDigits, ExponentLength;
    if x.NoExponent? {
      assert ExponentText(x) + t == t;
      NoExponentHere(t);
    } else {
      DigitsThen(x.digits, t);
      SignThen(x.sign, x.digits + t);
      ExponentParts(x, t);
      ExponentLengthIs(ExponentText(x) + t, |x.sign|, |x.digits|);
    }
  }

  lemma FloatLengthIs(s: string, a: nat, b: nat, c: nat, x: nat)
    requires SignLength(s) == a && a + b < |s| && Digits(s[a..]) == b
    requires s[a + b] == '.' ==> a + b + 1 + c <= |s| && Digits(s[a + b + 1..]) == c
    requires s[a + b] == '.' ==> ExponentLength(s[a + b + 1 + c..]) == x
    requires s[a + b] != '.' ==> b > 0 && ExponentLength(s[a + b..]) == x > 0
    ensures FloatLength(s) == a + b + (if s[a + b] == '.' then 1 + c else 0) + x
  {
    hide Digits, SignLength, ExponentLength;
  }

  lemma IntegerLengthIs(s: string, a: nat, b: nat)
    requires SignLength(s) == a && a + b <= |s| && Digits(s[a..]) == b
    ensures IntegerLength(s) == if b > 0 then a + b else 0
  {
    hide Digits, SignLength;
  }

  lemma NoHexHere(s: string)
    requires |s| > 1 ==> s[1] !in {'x', 'X'} || s[0] != '0'
    ensures HexLength(s) == 0
  {}

  lemma FirstOfWhole(whole: string, after: string)
    requires AllDigits(whole, 10) && after != [] && after[0] in {'.', 'e', 'E'}
    ensures
      var u := whole + after;
      && u[0] !in {'+', '-', 'x', 'X'} && (if whole == [] then u[0] == after[0] else IsDigit(u[0]))
      && (whole != [] ==> u[1] !in {'x', 'X'})
  {
    hide FromBase;
    assert whole != [] ==> whole[0] in whole;
    assert |whole| > 1 ==> whole[1] in whole;
    var u := whole + after;
    assert whole != [] ==> u[1] == if |whole| == 1 then after[0] else whole[1];
  }

  /** A text that is a sign, digits, and something else. */
  lemma WholePart(s: string, sign: string, whole: string, after: string)
    requires s == sign + (whole + after) && IsSign(sign) && AllDigits(whole, 10)
    requires after != [] && after[0] in {'.', 'e', 'E'} && (whole == [] ==> after[0] == '.')
    ensures
      var n := |sign| + |whole|;
      && SignLength(s) == |sign| && Digits(s[|sign|..]) == |whole|
      && n < |s| && s[n..] == after && s[n] == after[0]
      && (IsDigit(s[0]) || s[0] in {'+', '-', '.'})
      && (|s| > 1 && s[0] == '0' ==> s[1] !in {'x', 'X'})
  {
    DigitsThen(whole, after);
    FirstOfWhole(whole, after);
    SignThen(sign, whole + after);
    hide SignLength, Digits, AllDigits;
    assert s[|sign|..] == whole + after;
    assert s[|sign| + |whole|..] == (whole + after)[|whole|..] == after;
    assert sign == [] ==> s == whole + after;
  }

  lemma NoExponentFirst(l: Lexeme)
    requires l.RealNumber? && Proper(l)
    ensures
      var after := FractionText(l.fraction) + ExponentText(l.exponent);
      && after != [] && after[0] in {'.', 'e', 'E'} && (l.fraction.Some? <==> after[0] == '.')
      && (l.whole == [] ==> after[0] == '.')
  {}

  lemma RealParts(l: Lexeme, t: string)
    requires l.RealNumber?
    ensures
      var end := ExponentText(l.exponent) + t;
      var after := FractionText(l.fraction) + end;
      && Written(l) + t == l.sign + (l.whole + after)
      && |Written(l)| == |l.sign| + |l.whole| + |FractionText(l.fraction)| + |ExponentText(l.exponent)|
      && (Written(l) + t)[|l.sign|..] == l.whole + after
      && (l.fraction.Some? ==>
            && (Written(l) + t)[|l.sign| + |l.whole| + 1..] == l.fraction.value + end
            && (Written(l) + t)[|l.sign| + |l.whole| + 1 + |l.fraction.value|..] == end)
  {
    hide ExponentText;
    var x, f := ExponentText(l.exponent), FractionText(l.fraction);
    Assoc(l.sign + l.whole + f, x, t);
    Assoc(l.sign + l.whole, f, x + t);
    Assoc(l.sign, l.whole, f + (x + t));
    var s, n := Written(l) + t, |l.sign| + |l.whole|;
    assert s[n..] == f + (x + t);
    assert l.fraction.Some? ==> (f + (x + t))[1..] == l.fraction.value + (x + t);
  }

  lemma OtherLengths(s: string, sign: string, whole: string, after: string)
    requires s == sign + (whole + after) && IsSign(sign) && AllDigits(whole, 10)
    requires after != [] && after[0] in {'.', 'e', 'E'} && (whole == [] ==> after[0] == '.')
    ensures
      var n := |sign| + |whole|;
      && (IntegerLength(s) == 0 || IntegerLength(s) == n) && HexLength(s) == 0
      && n < |s| && s[n] in {'.', 'e', 'E'} && (IsDigit(s[0]) || s[0] in {'+', '-', '.'})
  {
    hide AllDigits, Digits, SignLength, IntegerLength, HexLength;
    WholePart(s, sign, whole, after);
    IntegerLengthIs(s, |sign|, |whole|);
    NoHexHere(s);
  }

  lemma PointFirst(fraction: Option<string>, end: string)
    requires fraction.Some?
    ensures |FractionText(fraction)| == 1 + |fraction.value|
    ensures FractionText(fraction) + end != [] && (FractionText(fraction) + end)[0] == '.'
  {}

  predicate RealParted(l: Lexeme, t: string)
  {
    && l.RealNumber? && IsSign(l.sign) && AllDigits(l.whole, 10) && ProperExponent(l.exponent)
    && (l.fraction.Some? ==> AllDigits(l.fraction.value, 10))
    && (l.fraction.None? ==> l.whole != [] && l.exponent.Exponent?)
    && (t == [] || (!IsDigit(t[0]) && t[0] !in {'e', 'E'}))
  }

  lemma BeforePoint(l: Lexeme, t: string)
    requires RealParted(l, t) && l.fraction.Some?
    ensures
      var s, n := Written(l) + t, |l.sign| + |l.whole|;
      SignLength(s) == |l.sign| && n < |s| && Digits(s[|l.sign|..]) == |l.whole| && s[n] == '.'
  {
    hide AllDigits, Digits, SignLength, ExponentText, Written, FractionText;
    var end := ExponentText(l.exponent) + t;
    RealParts(l, t);
    PointFirst(l.fraction, end);
    WholePart(Written(l) + t, l.sign, l.whole, FractionText(l.fraction) + end);
  }

  lemma BehindPoint(l: Lexeme, t: string)
    requires RealParted(l, t) && l.fraction.Some?
    ensures
      var s, n, f := Written(l) + t, |l.sign| + |l.whole|, l.fraction.value;
      && n + 1 + |f| <= |s| && Digits(s[n + 1..]) == |f|
      && ExponentLength(s[n + 1 + |f|..]) == |ExponentText(l.exponent)|
  {
    hide ExponentLength, AllDigits, Digits, ExponentText, Written, FractionText;
    var end := ExponentText(l.exponent) + t;
    RealParts(l, t);
    PointFirst(l.fraction, end);
    ExponentFound(l.exponent, t);
    NotADigit(l.exponent, t);
    DigitsThen(l.fraction.value, end);
  }

  lemma FractionFound(l: Lexeme, t: string)
    requires RealParted(l, t) && l.fraction.Some?
    ensures FloatLength(Written(l) + t) == |Written(l)|
  {
    hide ExponentLength, AllDigits, Digits, SignLength, FloatLength, ExponentText, Written, FractionText;
    BeforePoint(l, t);
    BehindPoint(l, t);
    RealWidth(l);
    var f, x := l.fraction.value, ExponentText(l.exponent);
    FloatLengthIs(Written(l) + t, |l.sign|, |l.whole|, |f|, |x|);
  }

  lemma RealWidth(l: Lexeme)
    requires l.RealNumber?
    ensures |Written(l)| ==
            |l.sign| + |l.whole| + (if l.fraction.Some? then 1 + |l.fraction.value| else 0) + |ExponentText(l.exponent)|
  {
    hide ExponentText;
  }

  lemma NoFraction(l: Lexeme, end: string)
    requires l.RealNumber? && l.fraction.None?
    ensures FractionText(l.fraction) == "" && FractionText(l.fraction) + end == end
  {}

  lemma BeforeExponent(l: Lexeme, t: string)
    requires RealParted(l, t) && l.fraction.None?
    ensures
      var s, n := Written(l) + t, |l.sign| + |l.whole|;
      && SignLength(s) == |l.sign| && n < |s| && Digits(s[|l.sign|..]) == |l.whole|
      && s[n..] == ExponentText(l.exponent) + t && s[n] in {'e', 'E'}
  {
    hide AllDigits, Digits, SignLength, ExponentText, Written, FractionText;
    var end := ExponentText(l.exponent) + t;
    RealParts(l, t);
    NoFraction(l, end);
    ExponentNotEmpty(l.exponent);
    assert end[0] == ExponentText(l.exponent)[0];
    WholePart(Written(l) + t, l.sign, l.whole, end);
  }

  lemma NoFractionFound(l: Lexeme, t: string)
    requires RealParted(l, t) && l.fraction.None?
    ensures FloatLength(Written(l) + t) == |Written(l)|
  {
    hide ExponentLength, AllDigits, Digits, SignLength, FloatLength, ExponentText, Written, FractionText;
    BeforeExponent(l, t);
    ExponentNotEmpty(l.exponent);
    ExponentFound(l.exponent, t);
    RealWidth(l);
    FloatLengthIs(Written(l) + t, |l.sign|, |l.whole|, 0, |ExponentText(l.exponent)|);
  }

  /** What the patterns find: the digits before the point, behind it, and the exponent. */
  lemma RealLength(l: Lexeme, t: string)
    requires l.RealNumber? && Proper(l) && Ended(l, t)
    ensures
      var s, n := Written(l) + t, |l.sign| + |l.whole|;
      && FloatLength(s) == |Written(l)| && HexLength(s) == 0
      && (IntegerLength(s) == 0 || IntegerLength(s) == n)
      && n < |Written(l)| <= |s| && s[n] in {'.', 'e', 'E'} && (IsDigit(s[0]) || s[0] in {'+', '-', '.'})
  {
    hide ExponentLength, AllDigits, Digits, SignLength, FloatLength, IntegerLength, HexLength, ExponentText, Written;
    var end := ExponentText(l.exponent) + t;
    NoExponentFirst(l);
    Assoc(FractionText(l.fraction), ExponentText(l.exponent), t);
    RealParts(l, t);
    OtherLengths(Written(l) + t, l.sign, l.whole, FractionText(l.fraction) + end);
    if l.fraction.Some? {
      FractionFound(l, t);
    } else {
      NoFractionFound(l, t);
      ExponentNotEmpty(l.exponent);
    }
  }

  lemma ExponentNotEmpty(x: Exponent)
    requires x.Exponent?
    ensures ExponentText(x) != [] && ExponentText(x)[0] == x.e
  {}

  lemma NotADigit(x: Exponent, t: string)
    requires ProperExponent(x) && (t == [] || !IsDigit(t[0]))
    ensures
      var end := ExponentText(x) + t;
      end == [] || !IsDigit(end[0])
  {}

  lemma RealMatched(s: string)
    requires s != [] && FloatLength(s) > IntegerLength(s) && (IntegerLength(s) > 0 ==> At(s, IntegerLength(s)) != 'L')
    requires HexLength(s) == 0
    ensures MatchNumber(s) == Match(FloatLength(s), Initial, "", Emit(TFloat(s[..FloatLength(s)])))
  {
    hide IntegerLength, FloatLength, HexLength;
  }

  lemma RealScanned(fs: Files, l: Lexeme, t: string, bol: bool, d: nat)
    requires l.RealNumber? && Proper(l) && Ended(l, t)
    ensures ScanText(fs, Written(l) + t, Plainly(bol), d) == Prepend(Emitted(l), ScanText(fs, t, Plainly(false), d))
  {
    hide ScanText, NextMatch, IntegerLength, FloatLength, HexLength, FromBase, AllDigits, MatchNumber;
    hide IncludeLength, FractionText, ExponentText;
    var text, s := Written(l), Written(l) + t;
    assert s[..|text|] == text;
    RealLength(l, t);
    NoDirectiveHere(s);
    MatchNumeric(s, bol);
    RealMatched(s);
    LastOfReal(l);
    OneLexeme(fs, text, t, bol, Emit(TFloat(text)), d);
  }

  lemma LastOfReal(l: Lexeme)
    requires l.RealNumber? && Proper(l)
    ensures Written(l) != [] && Written(l)[|Written(l)| - 1] != Newline
  {
    hide FromBase;
    var text := Written(l);
    if l.exponent.Exponent? {
      assert text[|text| - 1] == l.exponent.digits[|l.exponent.digits| - 1];
      assert l.exponent.digits[|l.exponent.digits| - 1] in l.exponent.digits;
    } else if l.fraction.value != [] {
      assert text[|text| - 1] == l.fraction.value[|l.fraction.value| - 1];
      assert l.fraction.value[|l.fraction.value| - 1] in l.fraction.value;
    } else {
      assert text[|text| - 1] == '.';
    }
  }

  /** A decimal number that is too large: the low bits are taken, after clamping to 64 bits. */
  lemma LargeNumber(sign: string, digits: string, suffix: string)
    requires IsSign(sign) && digits != [] && AllDigits(digits, 10) && IsSuffix(suffix)
    ensures
      var n, r := SignedNumber(sign, digits), Atoi(sign + digits);
      && IsInt32(r)
      && (IsInt64(n) ==> (r - n) % TwoTo32 == 0) && (n > INT64_MAX ==> r == -1) && (n < INT64_MIN ==> r == 0)
    ensures
      var n := SignedNumber(sign, digits);
      Atoll(sign + digits + suffix) == if n > INT64_MAX then INT64_MAX else if n < INT64_MIN then INT64_MIN else n
  {
    hide FromBase, AllDigits, SignedValue, SignedNumber;
    NumberValue(sign, digits, "");
    NumberValue(sign, digits, suffix);
    PlusNothing(sign + digits);
  }

  /** Every other character is garbage; so is `@` when the line does not start with it. */
  lemma GarbageScanned(fs: Files, c: char, t: string, bol: bool, d: nat)
    requires !StartsWord(c) && !('0' <= c <= '9') && !Proper(Mark(c)) && !Proper(LineEnd(c))
    requires c !in {' ', '\t', '+', '-', '.', '/', '#', '\"'} && (c == '@' ==> !bol)
    ensures ScanText(fs, [c] + t, Plainly(bol), d) == Prepend([TGarbage], ScanText(fs, t, Plainly(false), d))
  {
    hide ScanText, IncludeLength, MatchNumber;
    if c != '@' {
      NoDirectiveHere([c] + t);
    }
    OneLexeme(fs, [c], t, bol, Emit(TGarbage), d);
  }

  // ----- strings -----

  lemma QuoteStarts(fs: Files, t: string, bol: bool, d: nat)
    ensures ScanText(fs, "\"" + t, Plainly(bol), d) == ScanText(fs, t, InText(false, ""), d)
  {
    hide ScanText, IncludeLength;
    NoDirectiveHere("\"" + t);
    SkipOne(fs, "\"" + t, Plainly(bol), Match(1, InString, "", Skip), d);
    assert ("\"" + t)[1..] == t;
  }

  lemma QuoteEnds(fs: Files, t: string, bol: bool, text: string, d: nat)
    ensures ScanText(fs, "\"" + t, InText(bol, text), d) == Prepend([TString(text)], ScanText(fs, t, Plainly(false), d))
  {
    hide ScanText;
    EmitOne(fs, "\"" + t, InText(bol, text), Match(1, Initial, "", Emit(TString(text))), d);
    assert ("\"" + t)[1..] == t;
  }

  lemma PartMatched(p: Part, rest: string, text: string)
    requires ProperPart(p) && !p.Chars?
    requires p.Stray? ==>
      && At(rest, 0) !in {'n', 'r', 't', 'f', '\\', '\"'}
      && !(At(rest, 0) in {'x', 'X'} && IsHexDigit(At(rest, 1)) && IsHexDigit(At(rest, 2)))
    ensures MatchString(PartText(p) + rest, text) == Match(|PartText(p)|, InString, text + PartValue(p), Skip)
  {
    hide Span;
    var s := PartText(p) + rest;
    assert s[0] == '\\';
    match p {
      case Escaped(letter) =>
        assert s[1] == letter;
      case Code(x, high, low) =>
        assert s[1] == x && s[2] == high && s[3] == low;
        var code := DigitValue(high) * 16 + DigitValue(low);
        if code != 0 {
          OneCString(code as char);
        } else {
          NulCString();
        }
      case Stray =>
        assert forall k: nat :: At(s, k + 1) == At(rest, k);
        assert At(s, 1) == At(rest, 0) && At(s, 2) == At(rest, 1) && At(s, 3) == At(rest, 2);
    }
  }

  lemma NulCString()
    ensures CString([0 as char]) == ""
  {}

  lemma PartsCons(parts: seq<Part>, end: string, text: string)
    requires parts != [] && forall p | p in parts :: ProperPart(p)
    ensures PartsText(parts) + end == PartText(parts[0]) + (PartsText(parts[1..]) + end)
    ensures text + PartsValue(parts) == (text + PartValue(parts[0])) + PartsValue(parts[1..])
    ensures forall q | q in parts[1..] :: ProperPart(q)
    ensures StraysAlone(parts) ==> StraysAlone(parts[1..])
  {
    hide PartText, PartValue, ProperPart;
    Assoc(PartText(parts[0]), PartsText(parts[1..]), end);
    Assoc(text, PartValue(parts[0]), PartsValue(parts[1..]));
  }

  lemma PartScanned(fs: Files, p: Part, rest: string, bol: bool, text: string, d: nat)
    requires ProperPart(p) && !p.Chars?
    requires p.Stray? ==>
      && At(rest, 0) !in {'n', 'r', 't', 'f', '\\', '\"'}
      && !(At(rest, 0) in {'x', 'X'} && IsHexDigit(At(rest, 1)) && IsHexDigit(At(rest, 2)))
    ensures exists next ::
      ScanText(fs, PartText(p) + rest, InText(bol, text), d) == ScanText(fs, rest, InText(next, text + PartValue(p)), d)
  {
    PartMatched(p, rest, text);
    PartNotEmpty(p);
    hide ScanText, MatchString, PartText, PartValue, ProperPart;
    var s, n := PartText(p) + rest, |PartText(p)|;
    SkipOne(fs, s, InText(bol, text), Match(n, InString, text + PartValue(p), Skip), d);
    assert s[n..] == rest;
    var next := s[n - 1] == Newline;
    assert ScanText(fs, s, InText(bol, text), d) == ScanText(fs, rest, InText(next, text + PartValue(p)), d);
  }

  /** The rest of a string, from inside it. */
  lemma {:induction false} PartsScanned(fs: Files, parts: seq<Part>, t: string, bol: bool, text: string, d: nat)
    requires (forall p | p in parts :: ProperPart(p)) && StraysAlone(parts)
    ensures ScanText(fs, PartsText(parts) + ("\"" + t), InText(bol, text), d) ==
            Prepend([TString(text + PartsValue(parts))], ScanText(fs, t, Plainly(false), d))
    decreases 2 * |parts|, 0
  {
    hide ScanText, ProperPart, PartText, PartValue, StraysAlone;
    if parts == [] {
      PlusNothing("\"" + t);
      PlusNothing(text);
      QuoteEnds(fs, t, bol, text, d);
    } else {
      var p, rest := parts[0], PartsText(parts[1..]) + ("\"" + t);
      PartsCons(parts, "\"" + t, text);
      hide PartsText, PartsValue;
      if p.Chars? {
        CharsAre(p);
        CharsScanned(fs, p.text, parts[1..], t, bol, text, d);
      } else {
        StrayRest(parts, t);
        PartScanned(fs, p, rest, bol, text, d);
        var next :|
          ScanText(fs, PartText(p) + rest, InText(bol, text), d) ==
          ScanText(fs, rest, InText(next, text + PartValue(p)), d);
        PartsScanned(fs, parts[1..], t, next, text + PartValue(p), d);
      }
    }
  }

  lemma CharsAre(p: Part)
    requires p.Chars? && ProperPart(p)
    ensures PartText(p) == PartValue(p) == p.text
  {}

  lemma PartNotEmpty(p: Part)
    requires !p.Chars?
    ensures PartText(p) != []
  {}

  lemma StrayRest(parts: seq<Part>, t: string)
    requires parts != [] && StraysAlone(parts)
    ensures parts[0].Stray? ==>
      var rest := PartsText(parts[1..]) + ("\"" + t);
      && At(rest, 0) !in {'n', 'r', 't', 'f', '\\', '\"'}
      && !(At(rest, 0) in {'x', 'X'} && IsHexDigit(At(rest, 1)) && IsHexDigit(At(rest, 2)))
  {}

  lemma {:induction false} CharsScanned(
    fs: Files, chars: string, parts: seq<Part>, t: string, bol: bool, text: string, d: nat)
    requires ProperPart(Chars(chars)) && (forall p | p in parts :: ProperPart(p)) && StraysAlone(parts)
    ensures ScanText(fs, chars + (PartsText(parts) + ("\"" + t)), InText(bol, text), d) ==
            Prepend([TString(text + chars + PartsValue(parts))], ScanText(fs, t, Plainly(false), d))
    decreases 2 * |parts| + 1, |chars|
  {
    hide ScanText, PartText, PartValue;
    var rest := PartsText(parts) + ("\"" + t);
    if chars == [] {
      assert "" + rest == rest && text + "" == text;
      PartsScanned(fs, parts, t, bol, text, d);
    } else {
      assert chars[0] in chars && forall c | c in chars[1..] :: c in chars;
      assert chars + rest == [chars[0]] + (chars[1..] + rest) && chars[1..] + rest != [];
      assert text + chars == (text + [chars[0]]) + chars[1..];
      ScanTextChar(fs, chars[0], chars[1..] + rest, bol, text, d);
      CharsScanned(fs, chars[1..], parts, t, chars[0] == Newline, text + [chars[0]], d);
    }
  }

  lemma QuotedScanned(fs: Files, parts: seq<Part>, t: string, bol: bool, d: nat)
    requires Proper(Quoted(parts)) && StraysAlone(parts)
    ensures ScanText(fs, Written(Quoted(parts)) + t, Plainly(bol), d) ==
            Prepend(Emitted(Quoted(parts)), ScanText(fs, t, Plainly(false), d))
  {
    hide ScanText, ProperPart, StraysAlone;
    var inner := PartsText(parts) + ("\"" + t);
    assert Written(Quoted(parts)) + t == "\"" + inner;
    QuoteStarts(fs, inner, bol, d);
    PartsScanned(fs, parts, t, false, "", d);
    assert "" + PartsValue(parts) == PartsValue(parts);
  }

  // ----- whole texts -----

  function WrittenAll(ls: seq<Lexeme>): string
  {
    if ls == [] then "" else Written(ls[0]) + WrittenAll(ls[1..])
  }

  function EmittedAll(ls: seq<Lexeme>): seq<Token>
    requires forall l | l in ls :: Proper(l)
  {
    if ls == [] then [] else Emitted(ls[0]) + EmittedAll(ls[1..])
  }

  /** Each lexeme is proper, and ended by those behind it, or by `t`. */
  predicate AllEnded(ls: seq<Lexeme>, t: string)
  {
    ls == [] || (Proper(ls[0]) && Ended(ls[0], WrittenAll(ls[1..]) + t) && AllEnded(ls[1..], t))
  }

  predicate EndsLine(l: Lexeme) { l.LineNote? || (l.LineEnd? && l.c == '\n') }

  /** Whether a line starts behind the lexemes. */
  predicate AtLineStart(ls: seq<Lexeme>, bol: bool)
  {
    if ls == [] then bol else EndsLine(ls[|ls| - 1])
  }

  lemma OneScanned(fs: Files, l: Lexeme, t: string, bol: bool, d: nat) returns (next: bool)
    requires Proper(l) && Ended(l, t)
    ensures ScanText(fs, Written(l) + t, Plainly(bol), d) == Prepend(Emitted(l), ScanText(fs, t, Plainly(next), d))
    ensures next == EndsLine(l)
  {
    hide ScanText, BlockEnd, StartsLineComment, ProperPart, StraysAlone, FromBase, PartsText, ExponentText;
    next := false;
    match l {
      case Blanks(_) =>
        BlanksScanned(fs, l, t, bol, d);
        NothingBefore(ScanText(fs, t, Plainly(next), d));
      case LineEnd(c) =>
        next := c == '\n';
        LineEndScanned(fs, c, t, bol, d);
        NothingBefore(ScanText(fs, t, Plainly(next), d));
      case LineNote(text) =>
        next := true;
        assert text != [] by {
          StillAComment(text, "");
        }
        LineNoteScanned(fs, text, t, bol, d);
        NothingBefore(ScanText(fs, t, Plainly(next), d));
      case BlockNote(text) =>
        BlockNoteScanned(fs, text, t, bol, d);
        NothingBefore(ScanText(fs, t, Plainly(next), d));
      case Mark(c) => MarkScanned(fs, c, t, bol, d);
      case Word(text) => WordScanned(fs, text, t, bol, d);
      case Number(_, _, _) => NumberScanned(fs, l, t, bol, d);
      case HexNumber(_, _, _) => HexNumberScanned(fs, l, t, bol, d);
      case RealNumber(_, _, _, _) => RealScanned(fs, l, t, bol, d);
      case Quoted(parts) => QuotedScanned(fs, parts, t, bol, d);
    }
  }

  /** However the tokens of a text are spelled and separated, scanning gives the tokens, and goes on
      with what follows. */
  lemma {:induction false} TextScanned(fs: Files, ls: seq<Lexeme>, t: string, bol: bool, d: nat)
    requires AllEnded(ls, t)
    ensures forall l | l in ls :: Proper(l)
    ensures
      ScanText(fs, WrittenAll(ls) + t, Plainly(bol), d) ==
      Prepend(EmittedAll(ls), ScanText(fs, t, Plainly(AtLineStart(ls, bol)), d))
  {
    hide ScanText, Written, Emitted, Proper, Ended, EndsLine;
    if ls == [] {
      PlusNothing(t);
      NothingBefore(ScanText(fs, t, Plainly(bol), d));
    } else {
      var l, rest := ls[0], ls[1..];
      var next := OneScanned(fs, l, WrittenAll(rest) + t, bol, d);
      TextScanned(fs, rest, t, next, d);
      assert forall k | k in ls :: k == l || k in rest;
      Assoc(Written(l), WrittenAll(rest), t);
      Assoc(Emitted(l), EmittedAll(rest), ScanText(fs, t, Plainly(AtLineStart(ls, bol)), d).tokens);
    }
  }
}
