/** The header lines of a part: which lines the pattern of a content disposition matches, and what
    each line says about the part. */
module MultipartHeaders {
  import opened CLibrary
  import opened HttpText
  import opened Multipart
  import opened MultipartCuts
  import opened MultipartRoundTrip
  import opened Options
  import opened Seqs

  /** `; filename="..."`, with the white space and the spelling of the word. */
  datatype FilenameParameter = FilenameParameter(space: string, word: string, filename: string)

  /** `; filename*=...` */
  datatype StarParameter = StarParameter(space: string, word: string, value: string)

  datatype Header =
    | Disposition(
        word: string, space1: string, formData: string, space2: string, nameWord: string, name: string,
        filename: Option<FilenameParameter>, star: Option<StarParameter>, end: string)
    | TypeLine(typeWord: string, left: string, value: string, right: string)
    | OtherLine(text: string)

  function FilenameParameterText(p: Option<FilenameParameter>): string
  {
    if p.Some? then ";" + (p.value.space + (p.value.word + (p.value.filename + "\""))) else ""
  }

  function StarParameterText(p: Option<StarParameter>): string
  {
    if p.Some? then ";" + (p.value.space + (p.value.word + p.value.value)) else ""
  }

  function LineText(h: Header): string
  {
    match h
    case Disposition(word, space1, formData, space2, nameWord, name, filename, star, end) =>
      word + (space1 + (formData + (space2 + (nameWord + (name + "\"" +
      (FilenameParameterText(filename) + (StarParameterText(star) + end)))))))
    case TypeLine(word, left, value, right) => word + (left + value + right)
    case OtherLine(text) => text
  }

  /** What a line says about the part. */
  function Said(file: Item, h: Header): Item
  {
    match h
    case Disposition(_, _, _, _, _, name, filename, _, _) =>
      file.(name := name, filename := if filename.Some? then filename.value.filename else "")
    case TypeLine(_, _, value, _) => file.(contentType := value)
    case OtherLine(_) => file
  }

  function SaidAll(file: Item, hs: seq<Header>): Item
    decreases |hs|
  {
    if hs == [] then file else SaidAll(Said(file, hs[0]), hs[1..])
  }

  /** The same word up to the case of its letters. */
  predicate Spells(s: string, word: string)
  {
    |s| == |word| && forall i | 0 <= i < |s| :: Lower(s[i]) == Lower(word[i])
  }

  predicate IsWhite(s: string) { forall c | c in s :: IsSpace(c) }

  predicate InOneLine(s: string) { '\r' !in s && '\n' !in s }

  predicate ProperStar(star: Option<StarParameter>)
  {
    star.Some? ==>
      && IsWhite(star.value.space) && Spells(star.value.word, "filename*=")
      && star.value.value != [] && forall c | c in star.value.value :: !IsSpace(c)
  }

  predicate ProperFilename(filename: Option<FilenameParameter>)
  {
    filename.Some? ==>
      && IsWhite(filename.value.space) && Spells(filename.value.word, "filename=\"")
      && InOneLine(filename.value.filename)
  }

  /** A disposition in some spelling. */
  predicate IsDisposition(h: Header)
  {
    && h.Disposition?
    && Spells(h.word, "content-disposition:") && Spells(h.formData, "form-data;") && Spells(h.nameWord, "name=\"")
    && IsWhite(h.space1) && IsWhite(h.space2) && IsWhite(h.end) && InOneLine(h.name)
    && ProperFilename(h.filename) && ProperStar(h.star)
  }

  function FilenameOf(filename: Option<FilenameParameter>): string
  {
    if filename.Some? then filename.value.filename else ""
  }

  /** Names without quotes say where they end. Every line that is neither a content type nor a
      disposition in any spelling is just another line. */
  ghost predicate ProperHeader(h: Header)
  {
    var line := LineText(h);
    && line != [] && InOneLine(line) && |line| < HEADER_MAX_LENGTH
    && match h
       case Disposition(_, _, _, _, _, name, filename, _, _) =>
         IsDisposition(h) && '\"' !in name && '\"' !in FilenameOf(filename)
       case TypeLine(word, left, value, right) =>
         && Spells(word, "content-type:") && Trimmed(value)
         && forall c | c in left + right :: c == ' ' || c == '\t'
       case OtherLine(text) =>
         !StartsIgnoringCase(text, "content-type:") && forall d | IsDisposition(d) :: LineText(d) != text
  }

  // ----- the pattern -----

  lemma SpelledStarts(word: string, w: string, rest: string)
    requires Spells(word, w)
    ensures StartsIgnoringCase(word + rest, w) && (word + rest)[|w|..] == rest
  {
    assert forall i | 0 <= i < |w| :: (word + rest)[i] == word[i];
  }

  lemma {:induction false} WhiteSkipped(space: string, rest: string)
    requires IsWhite(space) && (rest == [] || !IsSpace(rest[0]))
    ensures SkipWhite(space + rest) == rest
  {
    if space != [] {
      assert space[0] in space && forall c | c in space[1..] :: c in space;
      WhiteSkipped(space[1..], rest);
      assert (space + rest)[0] == space[0] && (space + rest)[1..] == space[1..] + rest;
    } else {
      PlusNothing(rest);
    }
  }

  lemma {:induction false} DarkSkipped(dark: string, rest: string)
    requires (forall c | c in dark :: !IsSpace(c)) && (rest == [] || IsSpace(rest[0]))
    ensures SkipDark(dark + rest) == rest
  {
    if dark != [] {
      assert dark[0] in dark && forall c | c in dark[1..] :: c in dark;
      DarkSkipped(dark[1..], rest);
      assert (dark + rest)[0] == dark[0] && (dark + rest)[1..] == dark[1..] + rest;
    } else {
      PlusNothing(rest);
    }
  }

  /** A spelled word does not start with white space when the word does not. */
  lemma WordIsDark(word: string, w: string, rest: string)
    requires Spells(word, w) && w != [] && 'a' <= w[0] <= 'z'
    ensures word + rest != [] && !IsSpace((word + rest)[0])
  {}

  lemma StarAccepted(p: StarParameter, end: string)
    requires ProperStar(Some(p)) && IsWhite(end)
    ensures LineEnd(";" + (p.space + (p.word + (p.value + end))))
  {
    hide StartsIgnoringCase, SkipWhite, SkipDark;
    var rest := p.value + end;
    var t := p.word + rest;
    BehindSemicolon(p.space + t);
    WordIsDark(p.word, "filename*=", rest);
    WhiteSkipped(p.space, t);
    SpelledStarts(p.word, "filename*=", rest);
    DarkSkipped(p.value, end) by {
      assert end != [] ==> end[0] in end;
    }
    PlusNothing(end);
    WhiteSkipped(end, "");
  }

  lemma BehindSemicolon(s: string)
    ensures (";" + s)[0] == ';' && (";" + s)[1..] == s
  {}

  lemma BlankEnd(end: string)
    requires IsWhite(end)
    ensures LineEnd(end)
  {
    WhiteSkipped(end, "");
    PlusNothing(end);
  }

  lemma EndAccepted(star: Option<StarParameter>, end: string)
    requires ProperStar(star) && IsWhite(end)
    ensures LineEnd(StarParameterText(star) + end)
  {
    hide LineEnd, Spells;
    if star.Some? {
      var p := star.value;
      StarAccepted(p, end);
      Assoc(";", p.space + (p.word + p.value), end);
      Assoc(p.space, p.word + p.value, end);
      Assoc(p.word, p.value, end);
    } else {
      BlankEnd(end);
      PlusNothing(end);
    }
  }

  /** The file name ends at the first quote that the rest of the line allows. */
  lemma {:induction false} FilenameEnds(filename: string, rest: string, n: nat)
    requires InOneLine(filename) && n <= |filename| && LineEnd(rest)
    ensures
      var r := QuotedFilename(filename + "\"" + rest, n);
      r.0 && n <= |r.1| <= |filename| && ('\"' !in filename ==> r.1 == filename)
    decreases |filename| - n
  {
    hide LineEnd;
    var s := filename + "\"" + rest;
    if n < |filename| {
      assert s[n] == filename[n] && filename[n] in filename;
      FilenameEnds(filename, rest, n + 1);
    } else {
      assert s[n] == '\"' && s[..n] == filename && s[n + 1..] == rest;
    }
  }

  /** So does the name. */
  lemma {:induction false} NameEnds(name: string, tail: string, n: nat)
    requires InOneLine(name) && n <= |name| && FilenameTail(tail).0
    ensures
      var r := QuotedName(name + "\"" + tail, n);
      && r.0 && n <= |r.1| <= |name| && ('\"' !in name ==> r.1 == name)
      && (r.1 == name ==> r.2 == FilenameTail(tail).1)
    decreases |name| - n
  {
    hide FilenameTail;
    var s := name + "\"" + tail;
    if n < |name| {
      assert s[n] == name[n] && name[n] in name;
      NameEnds(name, tail, n + 1);
    } else {
      assert s[n] == '\"' && s[..n] == name && s[n + 1..] == tail;
    }
  }

  /** A parameter behind a semicolon, and the rest of the line. */
  lemma ParameterText(space: string, word: string, value: string, rest: string)
    ensures
      var s := ";" + (space + (word + value)) + rest;
      s == ";" + (space + (word + (value + rest))) && s[0] == ';' && s[1..] == space + (word + (value + rest))
  {
    Assoc(";", space + (word + value), rest);
    Assoc(space, word + value, rest);
    Assoc(word, value, rest);
  }

  lemma TailUnfold(s: string, t: string)
    requires s != [] && s[0] == ';' && SkipWhite(s[1..]) == t
    ensures FilenameTail(s) ==
      if StartsIgnoringCase(t, "filename=\"") && QuotedFilename(t[10..], 0).0 then QuotedFilename(t[10..], 0)
      else (LineEnd(s), "")
  {
    hide LineEnd, SkipWhite, QuotedFilename, StartsIgnoringCase;
  }

  lemma NoParameter(s: string)
    requires s == [] || s[0] != ';'
    ensures FilenameTail(s) == (LineEnd(s), "")
  {
    hide LineEnd, SkipWhite, QuotedFilename;
  }

  lemma StarIsNoFilename(word: string, rest: string)
    requires Spells(word, "filename*=")
    ensures !StartsIgnoringCase(word + rest, "filename=\"")
  {
    assert (word + rest)[8] == word[8] && Lower(word[8]) == Lower('*');
    assert "filename=\""[8] == '=';
  }

  lemma NoFilenameHere(star: Option<StarParameter>, end: string)
    requires ProperStar(star) && IsWhite(end)
    ensures FilenameTail(StarParameterText(star) + end) == (true, "")
  {
    EndAccepted(star, end);
    hide LineEnd, SkipWhite, QuotedFilename, StartsIgnoringCase, FilenameTail;
    if star.Some? {
      var p := star.value;
      ParameterText(p.space, p.word, p.value, end);
      WordIsDark(p.word, "filename*=", p.value + end);
      WhiteSkipped(p.space, p.word + (p.value + end));
      StarIsNoFilename(p.word, p.value + end);
      TailUnfold(StarParameterText(star) + end, p.word + (p.value + end));
    } else {
      PlusNothing(end);
      assert end != [] ==> end[0] in end;
      NoParameter(end);
    }
  }

  lemma TailAccepted(filename: Option<FilenameParameter>, star: Option<StarParameter>, end: string)
    requires ProperFilename(filename) && ProperStar(star) && IsWhite(end)
    ensures
      var r := FilenameTail(FilenameParameterText(filename) + (StarParameterText(star) + end));
      && r.0 && |r.1| <= |FilenameOf(filename)|
      && ('\"' !in FilenameOf(filename) ==> r.1 == FilenameOf(filename))
  {
    hide LineEnd, SkipWhite, QuotedFilename, StartsIgnoringCase, StarParameterText, FilenameTail;
    var rest := StarParameterText(star) + end;
    if filename.Some? {
      EndAccepted(star, end);
      var p := filename.value;
      var quoted := p.filename + "\"" + rest;
      ParameterText(p.space, p.word, p.filename + "\"", rest);
      WordIsDark(p.word, "filename=\"", quoted);
      WhiteSkipped(p.space, p.word + quoted);
      SpelledStarts(p.word, "filename=\"", quoted);
      FilenameEnds(p.filename, rest, 0);
      TailUnfold(FilenameParameterText(filename) + rest, p.word + quoted);
    } else {
      NoFilenameHere(star, end);
      PlusNothing(rest);
    }
  }

  /** Every spelling of a disposition line matches. The name that is found is the shortest one, and
      behind it the shortest file name; without quotes in them there is only one choice. */
  lemma DispositionMatches(h: Header)
    requires IsDisposition(h)
    ensures
      var (matched, name, filename) := MatchDisposition(LineText(h));
      && matched && |name| <= |h.name| && ('\"' !in h.name ==> name == h.name)
      && (name == h.name ==>
            |filename| <= |FilenameOf(h.filename)| &&
            ('\"' !in FilenameOf(h.filename) ==> filename == FilenameOf(h.filename)))
  {
    hide QuotedName, FilenameTail, StartsIgnoringCase, SkipWhite, FilenameParameterText, StarParameterText;
    var tail := FilenameParameterText(h.filename) + (StarParameterText(h.star) + h.end);
    var quoted := h.name + "\"" + tail;
    var c := h.nameWord + quoted;
    var b := h.formData + (h.space2 + c);
    SpelledStarts(h.word, DispositionWord, h.space1 + b);
    WordIsDark(h.formData, FormDataWord, h.space2 + c);
    WhiteSkipped(h.space1, b);
    SpelledStarts(h.formData, FormDataWord, h.space2 + c);
    WordIsDark(h.nameWord, NameWord, quoted);
    WhiteSkipped(h.space2, c);
    SpelledStarts(h.nameWord, NameWord, quoted);
    TailAccepted(h.filename, h.star, h.end);
    NameEnds(h.name, tail, 0);
  }

  // ----- nothing else matches -----

  lemma {:induction false} WhiteFound(s: string) returns (space: string)
    ensures IsWhite(space) && s == space + SkipWhite(s)
  {
    if s != [] && IsSpace(s[0]) {
      var rest := WhiteFound(s[1..]);
      space := [s[0]] + rest;
      assert s == [s[0]] + s[1..];
      Assoc([s[0]], rest, SkipWhite(s));
    } else {
      space := "";
    }
  }

  lemma {:induction false} DarkFound(s: string) returns (dark: string)
    ensures (forall c | c in dark :: !IsSpace(c)) && s == dark + SkipDark(s)
  {
    if s != [] && !IsSpace(s[0]) {
      var rest := DarkFound(s[1..]);
      dark := [s[0]] + rest;
      assert s == [s[0]] + s[1..];
      Assoc([s[0]], rest, SkipDark(s));
    } else {
      dark := "";
    }
  }

  lemma WordFound(s: string, w: string)
    requires StartsIgnoringCase(s, w)
    ensures Spells(s[..|w|], w) && s == s[..|w|] + s[|w|..]
  {}

  lemma AllWhiteIs(s: string)
    requires AllWhite(s)
    ensures IsWhite(s)
  {
    var space := WhiteFound(s);
    PlusNothing(space);
  }

  lemma LineEndFound(s: string) returns (star: Option<StarParameter>, end: string)
    requires LineEnd(s)
    ensures ProperStar(star) && IsWhite(end) && s == StarParameterText(star) + end
  {
    hide StartsIgnoringCase, SkipWhite, SkipDark, Spells;
    if AllWhite(s) {
      star, end := None, s;
      AllWhiteIs(s);
      PlusNothing(s);
    } else {
      var t := SkipWhite(s[1..]);
      var space := WhiteFound(s[1..]);
      WordFound(t, "filename*=");
      var value := DarkFound(t[10..]);
      end := SkipDark(t[10..]);
      AllWhiteIs(end);
      star := Some(StarParameter(space, t[..10], value));
      Assoc(t[..10], value, end);
      Assoc(space, t[..10] + value, end);
      Assoc(";", space + (t[..10] + value), end);
      assert s == ";" + s[1..];
    }
  }

  lemma {:induction false} QuotedFilenameFound(s: string, n: nat)
    requires n <= |s| && InOneLine(s[..n]) && QuotedFilename(s, n).0
    ensures
      var filename := QuotedFilename(s, n).1;
      && InOneLine(filename) && |filename| < |s| && LineEnd(s[|filename| + 1..])
      && s == filename + ("\"" + s[|filename| + 1..])
    decreases |s| - n
  {
    hide LineEnd;
    if s[n] == '\"' && LineEnd(s[n + 1..]) {
      assert s == s[..n] + ("\"" + s[n + 1..]);
    } else {
      assert s[..n + 1] == s[..n] + [s[n]];
      QuotedFilenameFound(s, n + 1);
    }
  }

  lemma FirstAndRest(s: string)
    requires s != []
    ensures s == [s[0]] + s[1..]
  {}

  lemma NoFilenameText()
    ensures FilenameParameterText(None) == ""
  {}

  lemma FilenameTextIs(p: FilenameParameter, rest: string)
    ensures
      FilenameParameterText(Some(p)) + rest ==
      ";" + (p.space + (p.word + (p.filename + ("\"" + rest))))
  {
    Assoc(p.filename, "\"", rest);
    Assoc(p.word, p.filename + "\"", rest);
    Assoc(p.space, p.word + (p.filename + "\""), rest);
    Assoc(";", p.space + (p.word + (p.filename + "\"")), rest);
  }

  lemma TailFound(s: string)
    returns (filename: Option<FilenameParameter>, star: Option<StarParameter>, end: string)
    requires FilenameTail(s).0
    ensures ProperFilename(filename) && ProperStar(star) && IsWhite(end)
    ensures s == FilenameParameterText(filename) + (StarParameterText(star) + end)
    ensures FilenameTail(s).1 == FilenameOf(filename)
  {
    hide LineEnd, QuotedFilename, SkipWhite, StarParameterText, FilenameParameterText, Spells, IsWhite, ProperStar;
    var t := if s != [] && s[0] == ';' then SkipWhite(s[1..]) else "";
    if StartsIgnoringCase(t, "filename=\"") && QuotedFilename(t[10..], 0).0 {
      var q := t[10..];
      var found := QuotedFilename(q, 0).1;
      QuotedFilenameFound(q, 0);
      var rest := q[|found| + 1..];
      star, end := LineEndFound(rest);
      var space := WhiteFound(s[1..]);
      WordFound(t, "filename=\"");
      filename := Some(FilenameParameter(space, t[..10], found));
      FirstAndRest(s);
      FilenameTextIs(filename.value, rest);
    } else {
      star, end := LineEndFound(s);
      filename := None;
      NoFilenameText();
      PlusNothing(s);
    }
  }

  lemma {:induction false} QuotedNameFound(s: string, n: nat)
    requires n <= |s| && InOneLine(s[..n]) && QuotedName(s, n).0
    ensures
      var r := QuotedName(s, n);
      && InOneLine(r.1) && |r.1| < |s| && FilenameTail(s[|r.1| + 1..]) == (true, r.2)
      && s == r.1 + ("\"" + s[|r.1| + 1..])
    decreases |s| - n
  {
    hide FilenameTail;
    if s[n] == '\"' && FilenameTail(s[n + 1..]).0 {
      assert s == s[..n] + ("\"" + s[n + 1..]);
    } else {
      assert s[..n + 1] == s[..n] + [s[n]];
      QuotedNameFound(s, n + 1);
    }
  }

  /** A line that matches is a spelling of a disposition with what is found. */
  lemma MatchIsDisposition(line: string) returns (h: Header)
    requires MatchDisposition(line).0
    ensures IsDisposition(h) && LineText(h) == line
    ensures MatchDisposition(line) == (true, h.name, FilenameOf(h.filename))
  {
    hide QuotedName, FilenameTail, SkipWhite, FilenameParameterText, StarParameterText, Spells, StartsIgnoringCase;
    WordFound(line, DispositionWord);
    var space1 := WhiteFound(line[20..]);
    var s := SkipWhite(line[20..]);
    WordFound(s, FormDataWord);
    var space2 := WhiteFound(s[10..]);
    var t := SkipWhite(s[10..]);
    WordFound(t, NameWord);
    var q := t[6..];
    QuotedNameFound(q, 0);
    var name := QuotedName(q, 0).1;
    var tail := q[|name| + 1..];
    var filename, star, end := TailFound(tail);
    h := Disposition(line[..20], space1, s[..10], space2, t[..6], name, filename, star, end);
    Assoc(name, "\"", tail);
  }

  /** The lines that match are exactly the spellings of a disposition. */
  lemma MatchedExactly(line: string)
    ensures MatchDisposition(line).0 <==> exists h | IsDisposition(h) :: LineText(h) == line
  {
    hide MatchDisposition, IsDisposition, LineText;
    if MatchDisposition(line).0 {
      var h := MatchIsDisposition(line);
    }
    if h :| IsDisposition(h) && LineText(h) == line {
      DispositionMatches(h);
    }
  }

  lemma NotTyped(h: Header)
    requires h.Disposition? && ProperHeader(h)
    ensures !StartsIgnoringCase(LineText(h), ContentTypeWord)
  {
    hide FilenameParameterText, StarParameterText;
    assert LineText(h)[8] == h.word[8] && Lower(h.word[8]) == Lower("content-disposition:"[8]);
    assert ContentTypeWord[8] == 't';
  }

  lemma {:induction false} BlanksBefore(left: string, rest: string)
    requires (forall c | c in left :: c == ' ' || c == '\t') && (rest == [] || !IsSpaceOrTab(rest[0]))
    ensures TrimLeft(left + rest) == rest
  {
    if left != [] {
      assert left[0] in left && forall c | c in left[1..] :: c in left;
      BlanksBefore(left[1..], rest);
      assert (left + rest)[0] == left[0] && (left + rest)[1..] == left[1..] + rest;
    } else {
      PlusNothing(rest);
    }
  }

  lemma LastOfBoth(a: string, b: string, n: nat)
    requires |b| == n + 1
    ensures (a + b)[|a + b| - 1] == b[n] && (a + b)[..|a + b| - 1] == a + b[..n]
  {}

  lemma {:induction false} BlanksBehind(value: string, right: string)
    requires (forall c | c in right :: c == ' ' || c == '\t') && (value == [] || !IsSpaceOrTab(value[|value| - 1]))
    ensures TrimRight(value + right) == value
  {
    if right != [] {
      var n := |right| - 1;
      assert right[n] in right && forall c | c in right[..n] :: c in right;
      BlanksBehind(value, right[..n]);
      LastOfBoth(value, right, n);
    } else {
      PlusNothing(value);
    }
  }

  lemma OnlyBlanks(left: string, right: string)
    requires forall c | c in left + right :: c == ' ' || c == '\t'
    ensures Trim(left + right) == ""
  {
    BlanksBefore(left + right, "");
    PlusNothing(left + right);
  }

  lemma TypeTrimmed(left: string, value: string, right: string)
    requires (forall c | c in left + right :: c == ' ' || c == '\t') && Trimmed(value)
    ensures Trim(left + value + right) == value
  {
    assert forall c | c in left || c in right :: c in left + right;
    if value == [] {
      assert left + value + right == left + right;
      OnlyBlanks(left, right);
    } else {
      assert left + value + right == left + (value + right);
      BlanksBefore(left, value + right);
      BlanksBehind(value, right);
    }
  }

  /** A line changes the part in what it says, and in nothing else. */
  lemma LineRead(file: Item, h: Header)
    requires ProperHeader(h)
    ensures ReadHeader(file, LineText(h)) == Said(file, h)
  {
    hide MatchDisposition, StartsIgnoringCase, Trim, FilenameParameterText, StarParameterText;
    match h {
      case Disposition(_, _, _, _, _, _, _, _, _) =>
        DispositionMatches(h);
        NotTyped(h);
      case TypeLine(word, left, value, right) =>
        SpelledStarts(word, ContentTypeWord, left + value + right);
        TypeTrimmed(left, value, right);
      case OtherLine(text) =>
        MatchedExactly(text);
    }
  }
}
