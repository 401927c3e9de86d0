/** Comments: what the scanner passes over, and what an open comment or string does at the end of
    a file. */
module ConfigComments {
  import opened CLibrary
  import opened ConfigScanner
  import opened ConfigIncludes

  predicate StartsLineComment(s: string)
  {
    At(s, 0) == '#' || (At(s, 0) == '/' && At(s, 1) == '/')
  }

  lemma NotADirective(s: string)
    requires s != [] && !IsBlank(s[0]) && s[0] != '@'
    ensures IncludeLength(s) == 0
  {
    assert s[0..] == s;
  }

  lemma LineCommentMatched(s: string, bol: bool, text: string)
    requires s != [] && StartsLineComment(s)
    ensures
      var n := IndexOf(Newline, s);
      MatchInitial(s, bol, text) ==
      if n < |s| then Match(n, Initial, text, Skip) else Match(1, Initial, text, Emit(TGarbage))
  {
    hide IndexOf, IncludeLength;
    NotADirective(s);
  }

  lemma NewlineMatched(s: string, bol: bool, text: string)
    requires s != [] && s[0] == Newline
    ensures MatchInitial(s, bol, text) == Match(1, Initial, text, Skip)
  {
    hide IncludeLength;
    NotADirective(s);
  }

  lemma EmitOne(fs: Files, s: string, st: LexState, m: Match, d: nat)
    requires s != [] && NextMatch(s, st) == m && m.effect.Emit?
    ensures ScanText(fs, s, st, d) == Prepend([m.effect.token], ScanText(fs, s[m.len..], After(s, m), d))
  {
    hide NextMatch;
  }

  /** A comment up to the end of the line is passed over with its line feed. Without one, in the
      last line of a file, it is no comment: its first character is garbage. */
  lemma LineComment(fs: Files, s: string, bol: bool, text: string, d: nat)
    requires StartsLineComment(s) && s != []
    ensures
      var n := IndexOf(Newline, s);
      var r := ScanText(fs, s, LexState(Initial, bol, text), d);
      if n < |s| then r == ScanText(fs, s[n + 1..], LexState(Initial, true, text), d)
      else r.tokens != [] && r.tokens[0] == TGarbage
  {
    hide ScanText, MatchInitial, IndexOf;
    var n := IndexOf(Newline, s);
    LineCommentMatched(s, bol, text);
    if n < |s| {
      SkipOne(fs, s, LexState(Initial, bol, text), Match(n, Initial, text, Skip), d);
      var rest := s[n..];
      assert rest[0] == s[n] && rest[1..] == s[n + 1..] && s[n - 1] != Newline;
      NewlineMatched(rest, false, text);
      SkipOne(fs, rest, LexState(Initial, false, text), Match(1, Initial, text, Skip), d);
    } else {
      EmitOne(fs, s, LexState(Initial, bol, text), Match(1, Initial, text, Emit(TGarbage)), d);
    }
  }

  predicate EndsBlock(s: string, i: nat) { At(s, i) == '*' && At(s, i + 1) == '/' }

  /** The first position where the end of a block comment stands, or the length. */
  function BlockEnd(s: string): (n: nat)
    ensures n <= |s| && (n < |s| ==> EndsBlock(s, n) && n + 2 <= |s|)
    ensures forall i: nat | i < n :: !EndsBlock(s, i)
  {
    if s == [] || EndsBlock(s, 0) then 0
    else
      assert forall i: nat | 0 < i :: EndsBlock(s[1..], i - 1) <==> EndsBlock(s, i);
      1 + BlockEnd(s[1..])
  }

  /** From inside a block comment: everything up to its first end is passed over; without an end,
      the comment is still open at the end of the file. */
  lemma {:induction false} InsideBlock(fs: Files, s: string, bol: bool, text: string, d: nat)
    ensures
      var n := BlockEnd(s);
      var r := ScanText(fs, s, LexState(InComment, bol, text), d);
      if n < |s| then r == ScanText(fs, s[n + 2..], LexState(Initial, false, text), d)
      else r == Scan([], LexState(InComment, if s == [] then bol else s[|s| - 1] == Newline, text), true)
    decreases |s|
  {
    hide ScanText, EndsBlock;
    if s == [] {
      NothingToScan(fs, LexState(InComment, bol, text), d);
    } else if EndsBlock(s, 0) {
      BlockEnds(s, text);
      SkipOne(fs, s, LexState(InComment, bol, text), Match(2, Initial, text, Skip), d);
      assert At(s, 1) == s[1];
    } else {
      BlockGoesOn(s, text);
      SkipOne(fs, s, LexState(InComment, bol, text), Match(1, InComment, text, Skip), d);
      InsideBlock(fs, s[1..], s[0] == Newline, text, d);
      var n := BlockEnd(s[1..]);
      if n < |s[1..]| {
        assert s[1..][n + 2..] == s[n + 3..];
      }
    }
  }

  lemma NothingToScan(fs: Files, st: LexState, d: nat)
    ensures ScanText(fs, "", st, d) == Scan([], st, true)
  {}

  lemma BlockEnds(s: string, text: string)
    requires EndsBlock(s, 0)
    ensures |s| >= 2 && s[1] == '/' && MatchComment(s, text) == Match(2, Initial, text, Skip)
  {}

  lemma BlockGoesOn(s: string, text: string)
    requires s != [] && !EndsBlock(s, 0)
    ensures MatchComment(s, text) == Match(1, InComment, text, Skip)
  {}

  /** A block comment is passed over up to its first end, whatever it contains; comments do not
      nest. */
  lemma BlockComment(fs: Files, body: string, bol: bool, text: string, d: nat)
    ensures
      var n := BlockEnd(body);
      var r := ScanText(fs, "/*" + body, LexState(Initial, bol, text), d);
      if n < |body| then r == ScanText(fs, body[n + 2..], LexState(Initial, false, text), d)
      else r.ok && r.tokens == [] && r.last.condition == InComment && r.last.text == text
  {
    hide ScanText, IncludeLength;
    var s := "/*" + body;
    NotADirective(s);
    assert s[2..] == body;
    SkipOne(fs, s, LexState(Initial, bol, text), Match(2, InComment, text, Skip), d);
    InsideBlock(fs, body, false, text, d);
  }

  /** A block comment left open by an included file goes on in the file that includes it. */
  lemma OpenCommentGoesOn(fs: Files, file: string, body: string, t: string, d: nat)
    requires PlainFileName(file) && file in fs && d < MAX_INCLUDE_DEPTH
    requires fs[file] == "/*" + body && BlockEnd(body) == |body|
    ensures ScanText(fs, Directive(file) + t, Start, d) == ScanText(fs, t, LexState(InComment, false, ""), d)
  {
    hide ScanText, Directive, BlockEnd;
    DirectiveIncludes(fs, file, t, d);
    BlockComment(fs, body, true, "", d + 1);
    NothingBefore(ScanText(fs, t, LexState(InComment, false, ""), d));
  }

  lemma NothingBefore(r: Scan)
    ensures Prepend([], r) == r
  {
    assert [] + r.tokens == r.tokens;
  }

  /** A string left open by an included file goes on in the file that includes it. */
  lemma OpenStringGoesOn(fs: Files, file: string, text: string, t: string, d: nat)
    requires PlainFileName(file) && file in fs && d < MAX_INCLUDE_DEPTH
    requires text != "" && (forall c | c in text :: IsPlainText(c) && c != '\0') && fs[file] == "\"" + text
    ensures ScanText(fs, Directive(file) + t, Start, d) == ScanText(fs, t, LexState(InString, false, text), d)
  {
    hide ScanText, Directive;
    DirectiveIncludes(fs, file, t, d);
    var s := "\"" + text;
    StringStarts(text);
    SkipOne(fs, s, Start, Match(1, InString, "", Skip), d + 1);
    assert s[1..] == text;
    PlainMatched(text);
    SkipOne(fs, text, LexState(InString, false, ""), Match(|text|, InString, text, Skip), d + 1);
    NothingToScan(fs, LexState(InString, text[|text| - 1] == Newline, text), d + 1);
    assert text[|text|..] == "";
    NothingBefore(ScanText(fs, t, LexState(InString, false, text), d));
  }

  lemma StringStarts(text: string)
    ensures MatchInitial("\"" + text, true, "") == Match(1, InString, "", Skip)
  {
    hide IncludeLength;
    NotADirective("\"" + text);
  }

  lemma PlainMatched(text: string)
    requires text != "" && forall c | c in text :: IsPlainText(c) && c != '\0'
    ensures MatchString(text, "") == Match(|text|, InString, text, Skip)
  {
    hide Span;
    assert text[0] in text;
    SpanIs((c: char) => IsPlainText(c), text, "");
    SpanIs((c: char) => c != '\0', text, "");
    assert text + "" == text && "" + text == text && text[..|text|] == text;
  }
}
