/** Scanning what the writer printed gives back one token per printed item. */
module ConfigTokens {
  import opened CLibrary
  import opened ConfigTree
  import opened ConfigScanner
  import opened ConfigWriter

  function ValueTokens(v: Value, default: Format): seq<Token>
    decreases v, 1
  {
    match v
    case Untyped => [TGarbage, TGarbage, TGarbage]
    case Boolean(b) => [TBoolean(b)]
    case Integer(i, fmt) => [if EffectiveFormat(fmt, default) == Hex then THex(i) else TInteger(i)]
    case Integer64(l, fmt) => [if EffectiveFormat(fmt, default) == Hex then THex64(l) else TInteger64(l)]
    case Float(text) => [TFloat(text)]
    case Str(s) => [TString(s)]
    case Array(elems) => [TArrayStart] + ElemTokens(elems, default) + [TArrayEnd]
    case List(elems) => [TListStart] + ElemTokens(elems, default) + [TListEnd]
    case Group(members) => [TGroupStart] + MemberTokens(members, default) + [TGroupEnd]
  }

  function ElemTokens(vs: seq<Value>, default: Format): seq<Token>
    decreases vs, 0
  {
    if vs == [] then []
    else ValueTokens(vs[0], default) + (if |vs| > 1 then [TComma] else []) + ElemTokens(vs[1..], default)
  }

  function MemberTokens(ms: seq<Member>, default: Format): seq<Token>
    decreases ms, 0
  {
    if ms == [] then []
    else
      [KeywordToken(ms[0].name), TEquals] + ValueTokens(ms[0].value, default) + [TSemicolon] +
      MemberTokens(ms[1..], default)
  }

  /** Outside strings, with nothing collected. */
  function Plainly(bol: bool): LexState { LexState(Initial, bol, "") }

  /** A character that ends every number and name. */
  predicate Ends(rest: string) { rest != [] && rest[0] in {' ', ',', ';'} }

  predicate NotInclude(t: string) { t != [] && !IsBlank(t[0]) && t[0] != '@' }

  lemma NoDirective(blanks: string, t: string)
    requires forall c | c in blanks :: IsBlank(c)
    requires NotInclude(t)
    ensures IncludeLength(blanks + t) == 0
  {
    SpanIs((c: char) => IsBlank(c), blanks, t);
    assert (blanks + t)[|blanks|..] == t;
  }

  /** One skipped or emitted lexeme. */
  lemma OneLexeme(fs: Files, lexeme: string, t: string, bol: bool, effect: Effect, d: nat)
    requires lexeme != [] && !effect.Open?
    requires NextMatch(lexeme + t, Plainly(bol)) == Match(|lexeme|, Initial, "", effect)
    ensures
      var rest := ScanText(fs, t, Plainly(lexeme[|lexeme| - 1] == Newline), d);
      ScanText(fs, lexeme + t, Plainly(bol), d) == if effect.Emit? then Prepend([effect.token], rest) else rest
  {
    hide NextMatch;
    assert (lexeme + t)[|lexeme|..] == t;
    assert (lexeme + t)[|lexeme| - 1] == lexeme[|lexeme| - 1];
  }

  lemma MatchPunctuation(c: char, t: string, bol: bool)
    requires c in {'=', ':', ',', ';', '{', '}', '[', ']', '(', ')'}
    requires IncludeLength([c] + t) == 0
    ensures NextMatch([c] + t, Plainly(bol)) == Match(1, Initial, "", Emit(Punctuation(c)))
  {
    hide IncludeLength, MatchNumber, IndexOf, KeywordToken, Span, At, Punctuation;
  }

  lemma ScanPunctuation(fs: Files, c: char, t: string, bol: bool, d: nat)
    requires c in {'=', ':', ',', ';', '{', '}', '[', ']', '(', ')'}
    ensures ScanText(fs, [c] + t, Plainly(bol), d) == Prepend([Punctuation(c)], ScanText(fs, t, Plainly(false), d))
  {
    hide ScanText, NextMatch;
    NoDirective([], [c] + t);
    assert [] + ([c] + t) == [c] + t;
    MatchPunctuation(c, t, bol);
    OneLexeme(fs, [c], t, bol, Emit(Punctuation(c)), d);
  }

  lemma ScanNewline(fs: Files, t: string, bol: bool, d: nat)
    ensures ScanText(fs, "\n" + t, Plainly(bol), d) == ScanText(fs, t, Plainly(true), d)
  {
    hide ScanText;
    NoDirective([], "\n" + t);
    assert [] + ("\n" + t) == "\n" + t;
    OneLexeme(fs, "\n", t, bol, Skip, d);
  }

  lemma ScanBlanks(fs: Files, blanks: string, t: string, bol: bool, d: nat)
    requires forall c | c in blanks :: IsBlank(c)
    requires NotInclude(t)
    ensures ScanText(fs, blanks + t, Plainly(bol), d) == ScanText(fs, t, Plainly(bol && blanks == []), d)
  {
    hide ScanText;
    if blanks == [] {
      assert blanks + t == t;
    } else {
      NoDirective(blanks, t);
      SpanIs((c: char) => IsBlank(c), blanks, t);
      assert blanks[0] in blanks && (blanks + t)[0] == blanks[0];
      assert blanks[|blanks| - 1] in blanks;
      OneLexeme(fs, blanks, t, bol, Skip, d);
    }
  }

  lemma MatchName(s: string, bol: bool)
    requires s != [] && IsNameStart(s[0]) && IncludeLength(s) == 0
    ensures
      var n := Span((d: char) => IsNameChar(d), s);
      NextMatch(s, Plainly(bol)) == Match(n, Initial, "", Emit(KeywordToken(s[..n])))
  {
    hide IncludeLength, MatchNumber, IndexOf, KeywordToken, Span, At, Punctuation;
  }

  lemma ScanName(fs: Files, name: string, t: string, bol: bool, d: nat)
    requires name != [] && IsNameStart(name[0]) && forall c | c in name :: IsNameChar(c)
    requires t != [] && !IsNameChar(t[0])
    ensures ScanText(fs, name + t, Plainly(bol), d) == Prepend([KeywordToken(name)], ScanText(fs, t, Plainly(false), d))
  {
    hide ScanText, NextMatch, KeywordToken;
    assert (name + t)[0] == name[0] && (name + t)[..|name|] == name;
    assert name[|name| - 1] in name;
    NoDirective([], name + t);
    assert [] + (name + t) == name + t;
    MatchName(name + t, bol);
    SpanIs((c: char) => IsNameChar(c), name, t);
    hide Span;
    OneLexeme(fs, name, t, bol, Emit(KeywordToken(name)), d);
  }

  // ----- numbers -----

  /** What the numeric patterns find in a signed digit string. */
  lemma SignedLengths(negative: bool, ds: string, t: string)
    requires ds != [] && AllDigits(ds, 10)
    requires t != [] && !IsDigit(t[0]) && t[0] !in {'.', 'e', 'E', 'x', 'X'}
    ensures
      var p := (if negative then "-" else "") + ds;
      && IntegerLength(p + t) == |p|
      && FloatLength(p + t) == 0
      && HexLength(p + t) == 0
      && (IsDigit(p[0]) || p[0] == '-')
  {
    hide FromBase;
    var p := (if negative then "-" else "") + ds;
    var sign := if negative then 1 else 0;
    var s := p + t;
    assert ds[0] in ds && s[sign] == ds[0];
    assert SignLength(s) == sign;
    assert s[sign..] == ds + t;
    SpanIs((c: char) => IsDigit(c), ds, t);
    assert s[|p|..] == t && s[|p|] == t[0];
    assert ExponentLength(t) == 0;
    assert |ds| > 1 ==> ds[1] in ds && s[sign + 1] == ds[1];
  }

  lemma HexLengths(ds: string, t: string)
    requires ds != [] && AllDigits(ds, 16)
    requires t != [] && !IsHexDigit(t[0]) && t[0] !in {'.', 'x', 'X'}
    ensures
      var p := "0x" + ds;
      && IntegerLength(p + t) == 1
      && FloatLength(p + t) == 0
      && HexLength(p + t) == |p|
  {
    hide FromBase;
    var p := "0x" + ds;
    var s := p + t;
    assert s[2..] == ds + t;
    SpanIs((c: char) => IsHexDigit(c), ds, t);
    var tail := s[1..];
    assert s[0..] == "0" + tail && tail[0] == 'x';
    SpanIs((c: char) => IsDigit(c), "0", tail);
    assert s[0] == '0' && s[1] == 'x';
    assert ExponentLength(s[1..]) == 0;
  }

  /** The value read from a signed digit string does not depend on what follows it. */
  lemma SignedText(negative: bool, ds: string, u: string)
    requires ds != [] && AllDigits(ds, 10)
    requires u == [] || !IsDigit(u[0])
    ensures
      var p := (if negative then "-" else "") + ds;
      var magnitude: int := FromBase(ds, 10);
      SignedValue(p + u) == if negative then -magnitude else magnitude
  {
    hide FromBase;
    var p := (if negative then "-" else "") + ds;
    var sign := if negative then 1 else 0;
    assert ds[0] in ds && (p + u)[sign] == ds[0];
    assert (p + u)[sign..] == ds + u && (ds + u)[..|ds|] == ds;
    SpanIs((c: char) => IsDigit(c), ds, u);
  }

  lemma HexText(ds: string, u: string)
    requires AllDigits(ds, 16)
    requires u == [] || !IsHexDigit(u[0])
    ensures HexMagnitude("0x" + ds + u) == FromBase(ds, 16)
  {
    hide FromBase;
    assert ("0x" + ds + u)[2..] == ds + u && (ds + u)[..|ds|] == ds;
    SpanIs((c: char) => IsHexDigit(c), ds, u);
  }

  lemma MatchDigits(s: string, bol: bool)
    requires s != [] && (IsDigit(s[0]) || s[0] == '-') && IncludeLength(s) == 0
    ensures NextMatch(s, Plainly(bol)) == MatchNumber(s).(text := "")
  {
    hide IncludeLength, MatchNumber, IndexOf, KeywordToken, Span, At, Punctuation;
  }

  lemma NumberText(p: string, t: string)
    requires p != [] && (IsDigit(p[0]) || p[0] == '-')
    ensures IncludeLength(p + t) == 0 && (p + t)[..|p|] == p && p[|p| - 1] == (p + t)[|p| - 1]
    ensures t != [] ==> At(p + t, |p|) == t[0]
  {
    NoDirective([], p + t);
    assert [] + (p + t) == p + t;
  }

  /** A text of which only the integer pattern matches the beginning. */
  lemma IntegerMatched(s: string, n: nat)
    requires s != [] && 0 < n == IntegerLength(s) && FloatLength(s) == 0 && HexLength(s) == 0 && At(s, n) != 'L'
    ensures MatchNumber(s) == Match(n, Initial, "", Emit(TInteger(Atoi(s[..n]))))
  {
    hide IntegerLength, FloatLength, HexLength, Atoi;
  }

  /** The digits of a number, with its sign. */
  lemma DecimalText(i: int) returns (ds: string)
    ensures ds != [] && AllDigits(ds, 10) && FromBase(ds, 10) == (if i < 0 then -i else i)
    ensures Decimal(i) == (if i < 0 then "-" else "") + ds
  {
    var magnitude: nat := if i < 0 then -i else i;
    ds := ToBase(magnitude, 10, true);
    hide ToBase, FromBase, AllDigits;
    ToBaseRoundTrip(magnitude, 10, true);
  }

  lemma AtoiDecimal(i: int)
    requires IsInt32(i)
    ensures Atoi(Decimal(i)) == i
  {
    hide FromBase, SignedValue, AllDigits, Decimal;
    var ds := DecimalText(i);
    SignedText(i < 0, ds, []);
    assert Decimal(i) + [] == Decimal(i);
  }

  lemma MatchDecimal(i: int, t: string)
    requires IsInt32(i) && Ends(t)
    ensures
      var p := Decimal(i);
      && MatchNumber(p + t) == Match(|p|, Initial, "", Emit(TInteger(i)))
      && (IsDigit(p[0]) || p[0] == '-') && p[|p| - 1] != Newline
  {
    hide Decimal, FromBase, IntegerLength, FloatLength, HexLength, Atoi, AllDigits, MatchNumber;
    var p := Decimal(i);
    var ds := DecimalText(i);
    SignedLengths(i < 0, ds, t);
    AtoiDecimal(i);
    LastDigit(ds);
    assert p[|p| - 1] == ds[|ds| - 1];
    assert At(p + t, |p|) == t[0] && (p + t)[..|p|] == p;
    IntegerMatched(p + t, |p|);
  }

  lemma LastDigit(ds: string)
    requires ds != [] && AllDigits(ds, 10)
    ensures ds[|ds| - 1] != Newline
  {
    assert ds[|ds| - 1] in ds;
  }

  lemma MatchHex(i: int, t: string)
    requires IsInt32(i) && Ends(t)
    ensures
      var p := "0x" + ToBase(Unsigned32(i), 16, true);
      && MatchNumber(p + t) == Match(|p|, Initial, "", Emit(THex(i)))
      && p[|p| - 1] != Newline
  {
    hide ToBase, FromBase, IntegerLength, FloatLength, HexLength, SignedValue, HexMagnitude;
    var ds := ToBase(Unsigned32(i), 16, true);
    ToBaseRoundTrip(Unsigned32(i), 16, true);
    WrapUnsigned(i);
    var p := "0x" + ds;
    assert ds[|ds| - 1] in ds && p[|p| - 1] == ds[|ds| - 1];
    HexLengths(ds, t);
    HexText(ds, []);
    assert At(p + t, 1) == 'x' && At(p + t, |p|) == t[0] && (p + t)[..|p|] == p && p + [] == p;
  }

  lemma ScanInteger(fs: Files, i: int, fmt: Format, t: string, d: nat)
    requires IsInt32(i) && Ends(t)
    ensures
      var token := if fmt == Hex then THex(i) else TInteger(i);
      ScanText(fs, PrintInteger(i, fmt) + t, Plainly(false), d) == Prepend([token], ScanText(fs, t, Plainly(false), d))
  {
    hide ScanText, ToBase, MatchNumber, NextMatch, IncludeLength;
    var p := PrintInteger(i, fmt);
    if fmt == Hex {
      MatchHex(i, t);
    } else {
      MatchDecimal(i, t);
    }
    NumberText(p, t);
    MatchDigits(p + t, false);
    OneLexeme(fs, p, t, false, Emit(if fmt == Hex then THex(i) else TInteger(i)), d);
  }

  lemma MatchDecimal64(l: int, t: string)
    requires IsInt64(l) && Ends(t)
    ensures
      var p := Decimal(l) + "L";
      && MatchNumber(p + t) == Match(|p|, Initial, "", Emit(TInteger64(l)))
      && (IsDigit(p[0]) || p[0] == '-')
  {
    hide ToBase, FromBase, IntegerLength, FloatLength, HexLength, SignedValue, HexMagnitude;
    var magnitude: nat := if l < 0 then -l else l;
    var ds := ToBase(magnitude, 10, true);
    ToBaseRoundTrip(magnitude, 10, true);
    var q, p := Decimal(l), Decimal(l) + "L";
    assert q == (if l < 0 then "-" else "") + ds && p + t == q + ("L" + t);
    SignedLengths(l < 0, ds, "L" + t);
    SignedText(l < 0, ds, "L");
    assert At(p + t, |q|) == 'L' && At(p + t, |q| + 1) == t[0] && (p + t)[..|p|] == p && p[0] == q[0];
  }

  lemma MatchHex64(l: int, t: string)
    requires IsInt64(l) && Ends(t)
    ensures
      var p := "0x" + ToBase(Unsigned64(l), 16, true) + "L";
      MatchNumber(p + t) == Match(|p|, Initial, "", Emit(THex64(l)))
  {
    hide ToBase, FromBase, IntegerLength, FloatLength, HexLength, SignedValue, HexMagnitude;
    var ds := ToBase(Unsigned64(l), 16, true);
    ToBaseRoundTrip(Unsigned64(l), 16, true);
    WrapUnsigned(l);
    var q, p := "0x" + ds, "0x" + ds + "L";
    assert p + t == q + ("L" + t);
    HexLengths(ds, "L" + t);
    HexText(ds, "L");
    assert At(p + t, 1) == 'x' && At(p + t, |q|) == 'L' && At(p + t, |q| + 1) == t[0] && (p + t)[..|p|] == p;
  }

  lemma ScanInteger64(fs: Files, l: int, fmt: Format, t: string, d: nat)
    requires IsInt64(l) && Ends(t)
    ensures
      var token := if fmt == Hex then THex64(l) else TInteger64(l);
      ScanText(fs, PrintInteger64(l, fmt) + t, Plainly(false), d) ==
      Prepend([token], ScanText(fs, t, Plainly(false), d))
  {
    hide ScanText, ToBase, MatchNumber, NextMatch, IncludeLength;
    var p := PrintInteger64(l, fmt);
    if fmt == Hex {
      MatchHex64(l, t);
    } else {
      MatchDecimal64(l, t);
    }
    NumberText(p, t);
    MatchDigits(p + t, false);
    OneLexeme(fs, p, t, false, Emit(if fmt == Hex then THex64(l) else TInteger64(l)), d);
  }

  // ----- strings -----

  function InText(bol: bool, text: string): LexState { LexState(InString, bol, text) }

  function TextLength(s: string): nat { Span((c: char) => IsPlainText(c), s) }

  /** A run of ordinary characters may be consumed one at a time. */
  lemma ScanTextChar(fs: Files, c: char, t: string, bol: bool, text: string, d: nat)
    requires IsPlainText(c) && c != '\0' && t != []
    ensures ScanText(fs, [c] + t, InText(bol, text), d) == ScanText(fs, t, InText(c == Newline, text + [c]), d)
  {
    var s, n := [c] + t, TextLength(t);
    assert s[1..] == t;
    assert TextLength(s) == 1 + n;
    hide ScanText, Span, CString, TextLength;
    TextRun(fs, s, bol, text, d);
    assert s[..1 + n] == [c] + t[..n] && s[1 + n..] == t[n..];
    CStringCons(c, t[..n]);
    assert text + ([c] + CString(t[..n])) == (text + [c]) + CString(t[..n]);
    if n > 0 {
      TextRun(fs, t, c == Newline, text + [c], d);
      assert s[n] == t[n - 1];
    } else {
      EmptyCString();
      assert t[..0] == [] && t[0..] == t && (text + [c]) + [] == text + [c];
    }
  }

  lemma EmptyCString()
    ensures CString([]) == []
  {}

  lemma CStringCons(c: char, s: string)
    requires c != '\0'
    ensures CString([c] + s) == [c] + CString(s)
  {
    assert ([c] + s)[1..] == s;
  }

  lemma TextRun(fs: Files, s: string, bol: bool, text: string, d: nat)
    requires s != [] && TextLength(s) > 0
    ensures
      var n := TextLength(s);
      ScanText(fs, s, InText(bol, text), d) ==
      ScanText(fs, s[n..], InText(s[n - 1] == Newline, text + CString(s[..n])), d)
  {
    hide MatchInitial, MatchInclude, MatchComment, CString;
  }

  lemma MatchEscape(c: char, t: string, text: string)
    requires c != '\0' && !(IsPlainText(c) && c >= ' ')
    ensures MatchString(EscapeChar(c) + t, text) == Match(|EscapeChar(c)|, InString, text + [c], Skip)
  {
    hide Span;
    var e := EscapeChar(c);
    var s := e + t;
    assert s[0] == '\\' && s[1] == e[1] && At(s, 1) == e[1];
    if |e| == 4 {
      assert s[2] == e[2] && s[3] == e[3];
      assert DigitValue(e[2]) * 16 + DigitValue(e[3]) == c as int;
      OneCString(c);
    }
  }

  lemma OneCString(c: char)
    requires c != '\0'
    ensures CString([c]) == [c]
  {}

  /** A printed character is read back as that character. */
  lemma ScanEscape(fs: Files, c: char, t: string, bol: bool, text: string, d: nat)
    requires c != '\0' && t != []
    ensures exists b ::
      ScanText(fs, EscapeChar(c) + t, InText(bol, text), d) == ScanText(fs, t, InText(b, text + [c]), d)
  {
    if IsPlainText(c) && c >= ' ' {
      hide ScanText;
      ScanTextChar(fs, c, t, bol, text, d);
    } else {
      var e := EscapeChar(c);
      MatchEscape(c, t, text);
      hide MatchInitial, MatchInclude, MatchComment, MatchString, EscapeChar;
      assert (e + t)[|e|..] == t;
      assert After(e + t, MatchString(e + t, text)) == InText((e + t)[|e| - 1] == Newline, text + [c]);
    }
  }

  lemma {:induction false} ScanEscaped(fs: Files, s: string, t: string, bol: bool, text: string, d: nat)
    requires forall c | c in s :: c != '\0'
    requires t != []
    ensures exists b :: ScanText(fs, Escape(s) + t, InText(bol, text), d) == ScanText(fs, t, InText(b, text + s), d)
  {
    hide ScanText, EscapeChar;
    if s == [] {
      assert Escape(s) + t == t && text + s == text;
    } else {
      var e, r := EscapeChar(s[0]), Escape(s[1..]) + t;
      assert Escape(s) + t == e + r;
      assert s[0] in s && forall c | c in s[1..] :: c in s;
      ScanEscape(fs, s[0], r, bol, text, d);
      var b :| ScanText(fs, e + r, InText(bol, text), d) == ScanText(fs, r, InText(b, text + [s[0]]), d);
      ScanEscaped(fs, s[1..], t, b, text + [s[0]], d);
      assert (text + [s[0]]) + s[1..] == text + s;
    }
  }

  lemma ScanString(fs: Files, s: string, t: string, d: nat)
    requires forall c | c in s :: c != '\0'
    ensures ScanText(fs, "\"" + Escape(s) + "\"" + t, Plainly(false), d) ==
            Prepend([TString(s)], ScanText(fs, t, Plainly(false), d))
  {
    var close := "\"" + t;
    var body := Escape(s) + close;
    hide ScanText, Escape, NextMatch;
    assert "\"" + Escape(s) + "\"" + t == "\"" + body;
    OpenQuote(body);
    EnterText(fs, body, d);
    ScanEscaped(fs, s, close, false, "", d);
    var b :| ScanText(fs, body, InText(false, ""), d) == ScanText(fs, close, InText(b, "" + s), d);
    assert "" + s == s;
    LeaveText(fs, t, b, s, d);
  }

  lemma EnterText(fs: Files, t: string, d: nat)
    requires NextMatch("\"" + t, Plainly(false)) == Match(1, InString, "", Skip)
    ensures ScanText(fs, "\"" + t, Plainly(false), d) == ScanText(fs, t, InText(false, ""), d)
  {
    hide NextMatch;
    assert ("\"" + t)[1..] == t;
  }

  lemma LeaveText(fs: Files, t: string, bol: bool, text: string, d: nat)
    ensures ScanText(fs, "\"" + t, InText(bol, text), d) == Prepend([TString(text)], ScanText(fs, t, Plainly(false), d))
  {
    hide MatchInitial, MatchInclude, MatchComment, Span, CString;
    assert ("\"" + t)[1..] == t;
  }

  lemma OpenQuote(t: string)
    ensures NextMatch("\"" + t, Plainly(false)) == Match(1, InString, "", Skip)
  {
    hide IncludeLength, MatchNumber, IndexOf, KeywordToken, Span, At, Punctuation;
  }
}
