/** Whole texts, in any number of files. */
module ConfigTexts {
  // Lexemes and include directives are read as the tree they spell.

  import opened CLibrary
  import opened ConfigTree
  import opened ConfigScanner
  import opened ConfigGrammar
  import opened ConfigTokens
  import opened ConfigIncludes
  import opened ConfigComments
  import opened ConfigSpelling
  import opened ConfigSyntax
  import opened Seqs

  /** A piece of a file name. */
  datatype NamePart =
    | NameChars(text: string)
    | NameEscape(letter: char)
    | NameStray  // a backslash that escapes nothing is dropped

  datatype Piece =
    | Plain(lexemes: seq<Lexeme>)
    | Directive(before: string, between: string, name: seq<NamePart>)

  type Document = seq<Piece>

  // ----- what is written -----

  function NamePartText(p: NamePart): string
  {
    match p
    case NameChars(text) => text
    case NameEscape(letter) => ['\\', letter]
    case NameStray => "\\"
  }

  function NameText(parts: seq<NamePart>): string
  {
    if parts == [] then "" else NamePartText(parts[0]) + NameText(parts[1..])
  }

  function PieceText(p: Piece): string
  {
    match p
    case Plain(lexemes) => WrittenAll(lexemes)
    case Directive(before, between, name) => before + ("@include" + (between + ("\"" + (NameText(name) + "\""))))
  }

  function DocumentText(doc: Document): string
  {
    if doc == [] then "" else PieceText(doc[0]) + DocumentText(doc[1..])
  }

  // ----- what is meant -----

  function NamePartValue(p: NamePart): string
  {
    match p
    case NameChars(text) => text
    case NameEscape(letter) => [letter]
    case NameStray => ""
  }

  function NameValue(parts: seq<NamePart>): string
  {
    if parts == [] then "" else NamePartValue(parts[0]) + NameValue(parts[1..])
  }

  /** The tokens, and whether all files could be included. */
  function DocumentTokens(docs: map<string, Document>, doc: Document, d: nat): (r: (seq<Token>, bool))
    requires (forall p | p in doc :: ProperPiece(p)) && ProperDocuments(docs)
    decreases MAX_INCLUDE_DEPTH - d, |doc|
  {
    if doc == [] then ([], true)
    else
      assert ProperPiece(doc[0]);
      var later := DocumentTokens(docs, doc[1..], d);
      match doc[0]
      case Plain(lexemes) => (EmittedAll(lexemes) + later.0, later.1)
      case Directive(_, _, name) =>
        if d >= 10 || NameValue(name) !in docs then ([TError], false)
        else
          var inner := DocumentTokens(docs, docs[NameValue(name)], d + 1);
          if inner.1 then (inner.0 + later.0, later.1) else inner
  }

  // ----- what is allowed -----

  predicate ProperNamePart(p: NamePart, rest: string)
  {
    match p
    case NameChars(text) =>
      text != [] && (forall c | c in text :: c !in {'\"', '\\', '\0'}) && At(rest, 0) in {'\"', '\\'}
    case NameEscape(letter) => letter in {'\\', '\"'}
    case NameStray => At(rest, 0) !in {'\"', '\\'}
  }

  predicate ProperName(parts: seq<NamePart>)
  {
    parts == [] || (ProperNamePart(parts[0], NameText(parts[1..]) + "\"") && ProperName(parts[1..]))
  }

  predicate AllBlank(s: string) { forall c | c in s :: c == ' ' || c == '\t' }

  predicate ProperPiece(p: Piece)
  {
    match p
    case Plain(lexemes) => forall l | l in lexemes :: Proper(l)
    case Directive(before, between, name) =>
      AllBlank(before) && between != [] && AllBlank(between) && ProperName(name)
  }

  predicate ProperDocuments(docs: map<string, Document>)
  {
    forall file, p | file in docs && p in docs[file] :: ProperPiece(p)
  }

  /** Lexemes are ended by what follows them, and directives start their line. */
  predicate WellSpelled(doc: Document, bol: bool)
  {
    doc == [] ||
    match doc[0]
    case Plain(lexemes) =>
      AllEnded(lexemes, DocumentText(doc[1..])) && WellSpelled(doc[1..], AtLineStart(lexemes, bol))
    case Directive(_, _, _) => bol && WellSpelled(doc[1..], false)
  }

  /** The files hold these documents. */
  ghost predicate Holds(fs: Files, docs: map<string, Document>)
  {
    && fs.Keys == docs.Keys
    && forall file | file in docs :: fs[file] == DocumentText(docs[file]) && WellSpelled(docs[file], true)
  }

  // ----- a directive -----

  lemma BlankRun(blanks: string, rest: string)
    requires AllBlank(blanks) && (rest == [] || !IsBlank(rest[0]))
    ensures Span((c: char) => IsBlank(c), blanks + rest) == |blanks|
  {
    SpanIs((c: char) => IsBlank(c), blanks, rest);
  }

  lemma Behind(a: string, b: string)
    ensures (a + b)[|a|..] == b
    ensures |a + b| == |a| + |b|
    ensures b != [] ==> (a + b)[|a|] == b[0]
  {}

  lemma DirectiveLength(before: string, between: string, rest: string)
    requires AllBlank(before) && between != [] && AllBlank(between)
    ensures
      IncludeLength(before + ("@include" + (between + ("\"" + rest)))) == |before| + 8 + |between| + 1
  {
    hide Span;
    var quoted := "\"" + rest;
    var word := "@include" + (between + quoted);
    var s := before + word;
    BlankRun(before, word);
    Behind(before, word);
    assert IncludeWord <= word by {
      assert word[..8] == IncludeWord;
    }
    Behind("@include", between + quoted);
    BlankRun(between, quoted);
    Behind(between, quoted);
    assert s[|before| + 8..] == word[8..];
    assert s[|before| + 8 + |between|] == (between + quoted)[|between|];
  }

  lemma DirectiveOpens(fs: Files, before: string, between: string, rest: string, d: nat)
    requires AllBlank(before) && between != [] && AllBlank(between)
    ensures
      ScanText(fs, before + ("@include" + (between + ("\"" + rest))), Plainly(true), d) ==
      ScanText(fs, rest, LexState(InInclude, false, ""), d)
  {
    hide ScanText, IncludeLength;
    DirectiveLength(before, between, rest);
    var n := |before| + 8 + |between| + 1;
    var s := before + ("@include" + (between + ("\"" + rest)));
    SkipOne(fs, s, Plainly(true), Match(n, InInclude, "", Skip), d);
    var front := before + "@include" + between + "\"";
    assert s == front + rest && |front| == n;
    assert s[n..] == rest && s[n - 1] == front[n - 1] == '\"';
  }

  lemma NamePartMatched(p: NamePart, rest: string, text: string)
    requires ProperNamePart(p, rest)
    ensures MatchInclude(NamePartText(p) + rest, text) ==
            Match(|NamePartText(p)|, InInclude, text + NamePartValue(p), Skip)
  {
    hide Span;
    var s := NamePartText(p) + rest;
    match p {
      case NameChars(chars) =>
        assert chars[0] in chars && s[0] == chars[0] && rest[0] == At(rest, 0);
        SpanIs((c: char) => IsPlainText(c), chars, rest);
        assert s[..|chars|] == chars;
        SpanIs((c: char) => c != '\0', chars, "");
        PlusNothing(chars);
      case NameEscape(letter) =>
        assert s[0] == '\\' && s[1] == letter;
      case NameStray =>
        assert s[0] == '\\' && At(s, 1) == At(rest, 0);
        PlusNothing(text);
    }
  }

  lemma NameUnfold(parts: seq<NamePart>, t: string, text: string)
    requires parts != [] && ProperName(parts)
    ensures NameText(parts) + ("\"" + t) == NamePartText(parts[0]) + (NameText(parts[1..]) + ("\"" + t))
    ensures text + NameValue(parts) == text + NamePartValue(parts[0]) + NameValue(parts[1..])
    ensures ProperNamePart(parts[0], NameText(parts[1..]) + ("\"" + t)) && NamePartText(parts[0]) != []
  {
    Assoc(NamePartText(parts[0]), NameText(parts[1..]), "\"" + t);
    Assoc(text, NamePartValue(parts[0]), NameValue(parts[1..]));
    assert At(NameText(parts[1..]) + ("\"" + t), 0) == At(NameText(parts[1..]) + "\"", 0);
  }

  lemma {:induction false} NameScanned(fs: Files, parts: seq<NamePart>, t: string, bol: bool, text: string, d: nat)
    returns (next: bool)
    requires ProperName(parts)
    ensures
      ScanText(fs, NameText(parts) + ("\"" + t), LexState(InInclude, bol, text), d) ==
      ScanText(fs, "\"" + t, LexState(InInclude, next, text + NameValue(parts)), d)
  {
    hide ScanText, MatchInclude, NamePartText, NamePartValue, ProperNamePart;
    if parts == [] {
      next := bol;
      PlusNothing("\"" + t);
      PlusNothing(text);
    } else {
      var p, rest := parts[0], NameText(parts[1..]) + ("\"" + t);
      NameUnfold(parts, t, text);
      NamePartMatched(p, rest, text);
      var s, n := NamePartText(p) + rest, |NamePartText(p)|;
      SkipOne(fs, s, LexState(InInclude, bol, text), Match(n, InInclude, text + NamePartValue(p), Skip), d);
      Behind(NamePartText(p), rest);
      next := NameScanned(fs, parts[1..], t, s[n - 1] == Newline, text + NamePartValue(p), d);
    }
  }

  /** A directive stands for its file, whatever the blanks and the spelling of the name. */
  lemma DirectiveScanned(fs: Files, p: Piece, t: string, d: nat)
    requires p.Directive? && ProperPiece(p)
    ensures
      var file, r := NameValue(p.name), ScanText(fs, PieceText(p) + t, Plainly(true), d);
      if d >= 10 || file !in fs then r.tokens == [TError] && !r.ok
      else
        var inner := ScanText(fs, fs[file], Plainly(true), d + 1);
        r == if !inner.ok then inner else Prepend(inner.tokens, ScanText(fs, t, inner.last.(bol := false), d))
  {
    hide ScanText, MatchInclude, NameText, NameValue, AllBlank, ProperName;
    var file, quoted := NameValue(p.name), NameText(p.name) + ("\"" + t);
    PieceSplit(p, t);
    DirectiveOpens(fs, p.before, p.between, quoted, d);
    var next := NameScanned(fs, p.name, t, false, "", d);
    PlusNothing(file);
    QuoteOpens("\"" + t, file);
    OpenOne(fs, "\"" + t, LexState(InInclude, next, file), Match(1, Initial, "", Open(file)), d);
    Behind("\"", t);
  }

  lemma PieceSplit(p: Piece, t: string)
    requires p.Directive?
    ensures
      PieceText(p) + t == p.before + ("@include" + (p.between + ("\"" + (NameText(p.name) + ("\"" + t)))))
  {
    hide NameText;
    var name := NameText(p.name);
    Assoc(name, "\"", t);
    Assoc("\"", name + "\"", t);
    Assoc(p.between, "\"" + (name + "\""), t);
    Assoc("@include", p.between + ("\"" + (name + "\"")), t);
    Assoc(p.before, "@include" + (p.between + ("\"" + (name + "\""))), t);
  }

  // ----- texts with directives -----

  lemma {:induction false} DocumentUnfold(docs: map<string, Document>, p: Piece, rest: Document, d: nat)
    requires ProperPiece(p) && (forall q | q in rest :: ProperPiece(q)) && ProperDocuments(docs)
    ensures forall q | q in [p] + rest :: ProperPiece(q)
    ensures DocumentText([p] + rest) == PieceText(p) + DocumentText(rest)
    ensures
      var r, later := DocumentTokens(docs, [p] + rest, d), DocumentTokens(docs, rest, d);
      match p
      case Plain(lexemes) => r == (EmittedAll(lexemes) + later.0, later.1)
      case Directive(_, _, name) =>
        if d >= 10 || NameValue(name) !in docs then r == ([TError], false)
        else
          var inner := DocumentTokens(docs, docs[NameValue(name)], d + 1);
          r == if inner.1 then (inner.0 + later.0, later.1) else inner
  {
    hide PieceText, EmittedAll, NameValue;
    assert ([p] + rest)[0] == p && ([p] + rest)[1..] == rest;
  }

  lemma SpelledFirst(p: Piece, rest: Document, bol: bool)
    requires WellSpelled([p] + rest, bol)
    ensures p.Plain? ==>
      AllEnded(p.lexemes, DocumentText(rest)) && WellSpelled(rest, AtLineStart(p.lexemes, bol)) &&
      PieceText(p) == WrittenAll(p.lexemes)
    ensures p.Directive? ==> bol && WellSpelled(rest, false)
  {
    hide AllEnded, AtLineStart, WrittenAll, DocumentText;
    assert ([p] + rest)[1..] == rest;
  }

  /** The tokens of a text are those of its lexemes and of the files its directives name. */
  lemma {:induction false} DocumentScanned(
    fs: Files, docs: map<string, Document>, doc: Document, bol: bool, d: nat) returns (next: bool)
    requires (forall p | p in doc :: ProperPiece(p)) && ProperDocuments(docs)
    requires Holds(fs, docs) && WellSpelled(doc, bol)
    ensures
      var r, meant := ScanText(fs, DocumentText(doc), Plainly(bol), d), DocumentTokens(docs, doc, d);
      r.tokens == meant.0 && r.ok == meant.1 && (r.ok ==> r.last == Plainly(next))
    decreases MAX_INCLUDE_DEPTH - d, |doc|
  {
    hide ScanText, ProperPiece, AllEnded, EmittedAll, PieceText, AtLineStart, WrittenAll;
    next := bol;
    if doc == [] {
      NothingToScan(fs, Plainly(bol), d);
    } else {
      var p, rest := doc[0], doc[1..];
      assert doc == [p] + rest;
      DocumentUnfold(docs, p, rest, d);
      hide DocumentText, DocumentTokens, WellSpelled;
      if p.Plain? {
        SpelledFirst(p, rest, bol);
        TextScanned(fs, p.lexemes, DocumentText(rest), bol, d);
        next := DocumentScanned(fs, docs, rest, AtLineStart(p.lexemes, bol), d);
      } else {
        SpelledFirst(p, rest, bol);
        DirectiveScanned(fs, p, DocumentText(rest), d);
        var file := NameValue(p.name);
        if d < MAX_INCLUDE_DEPTH && file in docs {
          var last := DocumentScanned(fs, docs, docs[file], true, d + 1);
          next := DocumentScanned(fs, docs, rest, false, d);
        }
      }
    }
  }

  /** A text is read as the tree it spells, whatever the choice of signs, terminators, cases, bases,
      escapes, blanks and comments, and however it is spread over files. */
  lemma ReadSpelled(fs: Files, docs: map<string, Document>, top: Document, root: Value, ms: seq<StyledSetting>)
    requires (forall p | p in top :: ProperPiece(p)) && ProperDocuments(docs)
    requires Holds(fs, docs) && WellSpelled(top, true)
    requires DocumentTokens(docs, top, 0).1 && Spells(DocumentTokens(docs, top, 0).0, root, ms)
    ensures ParseConfig(Tokens(fs, DocumentText(top))) == Ok(root, [])
  {
    hide ScanText, ProperPiece, ParseConfig, Spells, WellSpelled, DocumentText, DocumentTokens;
    var next := DocumentScanned(fs, docs, top, true, 0);
    AcceptedExactly(DocumentTokens(docs, top, 0).0, root);
  }
}
