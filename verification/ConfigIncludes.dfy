/** What an include directive does to the token sequence. */
module ConfigIncludes {
  import opened CLibrary
  import opened ConfigScanner

  /** A file name that a directive can spell without escapes. */
  predicate PlainFileName(file: string)
  {
    file != [] && forall c | c in file :: IsPlainText(c) && c != '\0'
  }

  function Directive(file: string): string { "@include \"" + file + "\"" }

  lemma DirectiveStarts(t: string)
    ensures MatchInitial("@include \"" + t, true, "") == Match(10, InInclude, "", Skip)
  {
    hide Span;
    var s := "@include \"" + t;
    var blank := (c: char) => IsBlank(c);
    assert s[0] == '@' && !blank(s[0]);
    assert Span(blank, s) == 0;
    assert s[0..] == s && IncludeWord <= s by {
      assert s[..8] == IncludeWord;
    }
    assert s[8..] == " " + ("\"" + t);
    SpanIs(blank, " ", "\"" + t);
    assert At(s, 9) == '\"';
  }

  lemma FileNameMatched(file: string, t: string)
    requires PlainFileName(file)
    ensures MatchInclude(file + ("\"" + t), "") == Match(|file|, InInclude, file, Skip)
  {
    var s := file + ("\"" + t);
    hide Span;
    assert file[0] in file && s[0] == file[0];
    SpanIs((c: char) => IsPlainText(c), file, "\"" + t);
    assert s[..|file|] == file;
    SpanIs((c: char) => c != '\0', file, "");
    assert file + "" == file && "" + file == file;
  }

  lemma SkipOne(fs: Files, s: string, st: LexState, m: Match, d: nat)
    requires s != [] && NextMatch(s, st) == m && m.effect == Skip
    ensures ScanText(fs, s, st, d) == ScanText(fs, s[m.len..], After(s, m), d)
  {
    hide NextMatch;
  }

  lemma OpenOne(fs: Files, s: string, st: LexState, m: Match, d: nat)
    requires s != [] && NextMatch(s, st) == m && m.effect.Open?
    ensures
      var st' := After(s, m);
      ScanText(fs, s, st, d) ==
      if d >= MAX_INCLUDE_DEPTH || m.effect.file !in fs then Scan([TError], st', false)
      else
        var inner := ScanText(fs, fs[m.effect.file], st'.(bol := true), d + 1);
        if !inner.ok then inner
        else Prepend(inner.tokens, ScanText(fs, s[m.len..], inner.last.(bol := false), d))
  {
    hide NextMatch;
  }

  /** The directive up to the quote that ends the file name. */
  lemma ReachQuote(fs: Files, file: string, t: string, d: nat)
    requires PlainFileName(file)
    ensures ScanText(fs, Directive(file) + t, Start, d) ==
            ScanText(fs, "\"" + t, LexState(InInclude, file[|file| - 1] == Newline, file), d)
  {
    hide ScanText, MatchInitial, MatchInclude;
    var named := file + ("\"" + t);
    var s := "@include \"" + named;
    assert Directive(file) + t == s;
    DirectiveStarts(named);
    SkipOne(fs, s, Start, Match(10, InInclude, "", Skip), d);
    assert s[10..] == named && s[9] == '\"';
    FileNameMatched(file, t);
    SkipOne(fs, named, LexState(InInclude, false, ""), Match(|file|, InInclude, file, Skip), d);
    assert named[|file|..] == "\"" + t;
    assert named[|file| - 1] == file[|file| - 1];
  }

  /** A directive at the beginning of a text stands for the tokens of the file it names, one level
      deeper; scanning resumes right after it. A file that cannot be opened, or one level too
      many, is an error. */
  lemma DirectiveIncludes(fs: Files, file: string, t: string, d: nat)
    requires PlainFileName(file)
    ensures
      var r := ScanText(fs, Directive(file) + t, Start, d);
      if d >= MAX_INCLUDE_DEPTH || file !in fs then r.tokens == [TError] && !r.ok
      else
        var inner := ScanText(fs, fs[file], Start, d + 1);
        r == if !inner.ok then inner else Prepend(inner.tokens, ScanText(fs, t, inner.last.(bol := false), d))
  {
    hide ScanText, MatchInitial, MatchInclude, Directive;
    ReachQuote(fs, file, t, d);
    QuoteOpens("\"" + t, file);
    OpenOne(fs, "\"" + t, LexState(InInclude, file[|file| - 1] == Newline, file), Match(1, Initial, "", Open(file)), d);
    assert ("\"" + t)[1..] == t;
  }

  lemma QuoteOpens(s: string, file: string)
    requires s != [] && s[0] == '\"'
    ensures MatchInclude(s, file) == Match(1, Initial, "", Open(file))
  {}

  /** The scan comes to a directive that names a file of the set, unless it ends in an error
      before. */
  ghost predicate ComesTo(fs: Files, s: string, st: LexState, d: nat, cycle: set<string>)
    decreases |s|
  {
    s != [] &&
    var m := NextMatch(s, st);
    var st' := After(s, m);
    match m.effect
    case Skip => ComesTo(fs, s[m.len..], st', d, cycle)
    case Emit(_) => ComesTo(fs, s[m.len..], st', d, cycle)
    case Open(file) =>
      || file in cycle || file !in fs || d >= MAX_INCLUDE_DEPTH
      || (var inner := ScanText(fs, fs[file], st'.(bol := true), d + 1);
          !inner.ok || ComesTo(fs, s[m.len..], inner.last.(bol := false), d, cycle))
  }

  /** Each file of the set comes to a directive that names one of the set. */
  ghost predicate IsCycle(fs: Files, cycle: set<string>)
  {
    forall file, d: nat | file in cycle && file in fs :: ComesTo(fs, fs[file], Start, d, cycle)
  }

  lemma OpensAtStart(s: string, st: LexState)
    requires s != [] && NextMatch(s, st).effect.Open?
    ensures After(s, NextMatch(s, st)).(bol := true) == Start
  {}

  lemma {:induction false} ComesToAnError(fs: Files, s: string, st: LexState, d: nat, cycle: set<string>)
    requires IsCycle(fs, cycle) && ComesTo(fs, s, st, d, cycle)
    ensures !ScanText(fs, s, st, d).ok
    decreases MAX_INCLUDE_DEPTH - d, |s|
  {
    hide NextMatch;
    var m := NextMatch(s, st);
    var st' := After(s, m);
    match m.effect {
      case Skip =>
        ComesToAnError(fs, s[m.len..], st', d, cycle);
      case Emit(_) =>
        ComesToAnError(fs, s[m.len..], st', d, cycle);
      case Open(file) =>
        if d < MAX_INCLUDE_DEPTH && file in fs {
          OpensAtStart(s, st);
          if file in cycle {
            ComesToAnError(fs, fs[file], Start, d + 1, cycle);
          }
          var inner := ScanText(fs, fs[file], st'.(bol := true), d + 1);
          if inner.ok {
            ComesToAnError(fs, s[m.len..], inner.last.(bol := false), d, cycle);
          }
        }
    }
  }

  /** Files that include each other, each wherever it is in its text, are scanned to an error,
      from any depth: the nesting limit ends the cycle. The error token is the last one. */
  lemma CycleIsAnError(fs: Files, file: string, d: nat, cycle: set<string>)
    requires IsCycle(fs, cycle) && file in cycle && file in fs
    ensures
      var r := ScanText(fs, fs[file], Start, d);
      !r.ok && ErrorAtEnd(r.tokens)
  {
    hide ScanText;
    ComesToAnError(fs, fs[file], Start, d, cycle);
    ErrorsAreLast(fs, fs[file], Start, d);
  }

  /** The file begins with a directive that names a file of the set. */
  ghost predicate BeginsWith(text: string, cycle: set<string>)
  {
    exists file, t :: file in cycle && PlainFileName(file) && text == Directive(file) + t
  }

  /** When each of the files begins with such a directive, nothing but the error is found. */
  lemma {:induction false} RingIsAnError(fs: Files, file: string, d: nat, ring: set<string>)
    requires file in ring && forall f | f in ring :: f in fs && BeginsWith(fs[f], ring)
    ensures ScanText(fs, fs[file], Start, d).tokens == [TError] && !ScanText(fs, fs[file], Start, d).ok
    decreases MAX_INCLUDE_DEPTH - d
  {
    hide ScanText, Directive, PlainFileName;
    var next, t :| next in ring && PlainFileName(next) && fs[file] == Directive(next) + t;
    DirectiveIncludes(fs, next, t, d);
    if d < MAX_INCLUDE_DEPTH {
      RingIsAnError(fs, next, d + 1, ring);
    }
  }

  /** The error token ends the sequence, and stands for an include that failed. */
  predicate ErrorAtEnd(ts: seq<Token>)
  {
    ts != [] && ts[|ts| - 1] == TError && TError !in ts[..|ts| - 1]
  }

  lemma PrependErrors(before: seq<Token>, after: seq<Token>)
    requires TError !in before
    ensures TError !in after ==> TError !in before + after
    ensures ErrorAtEnd(after) ==> ErrorAtEnd(before + after)
  {
    if ErrorAtEnd(after) {
      var ts := before + after;
      assert ts[..|ts| - 1] == before + after[..|after| - 1];
    }
  }

  /** Scanning ends without error, or with exactly one error token, its last. */
  lemma {:induction false} ErrorsAreLast(fs: Files, s: string, st: LexState, d: nat)
    ensures
      var r := ScanText(fs, s, st, d);
      if r.ok then TError !in r.tokens else ErrorAtEnd(r.tokens)
    decreases MAX_INCLUDE_DEPTH - d, |s|
  {
    hide NextMatch;
    if s != [] {
      var m := NextMatch(s, st);
      var st' := After(s, m);
      EmitIsNotError(s, st);
      match m.effect {
        case Skip =>
          ErrorsAreLast(fs, s[m.len..], st', d);
        case Emit(t) =>
          ErrorsAreLast(fs, s[m.len..], st', d);
          PrependErrors([t], ScanText(fs, s[m.len..], st', d).tokens);
        case Open(file) =>
          if d < MAX_INCLUDE_DEPTH && file in fs {
            ErrorsAreLast(fs, fs[file], st'.(bol := true), d + 1);
            var inner := ScanText(fs, fs[file], st'.(bol := true), d + 1);
            if inner.ok {
              ErrorsAreLast(fs, s[m.len..], inner.last.(bol := false), d);
              PrependErrors(inner.tokens, ScanText(fs, s[m.len..], inner.last.(bol := false), d).tokens);
            }
          }
      }
    }
  }
}
