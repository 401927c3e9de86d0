/** Reading back what the writer of multipart form data produces. */
module MultipartRoundTrip {
  import opened CLibrary
  import opened HttpText
  import opened Multipart
  import opened MultipartCuts
  import opened Seqs

  predicate IsBoundaryChar(c: char)
  {
    IsAlnum(c) || c == '-' || c == '_'
  }

  /** `is_multipart_boundary_chars_valid` */
  predicate BoundaryCharsValid(boundary: string)
  {
    forall c | c in boundary :: IsBoundaryChar(c)
  }

  predicate OneLine(s: string) { '\r' !in s && '\n' !in s }

  /** The items that survive the trip. */
  predicate Sendable(item: Item, boundary: string)
  {
    && OneLine(item.name) && '\"' !in item.name
    && OneLine(item.filename) && '\"' !in item.filename
    && OneLine(item.contentType) && Trimmed(item.contentType)
    && |DispositionLine(item)| < HEADER_MAX_LENGTH && |ContentTypeLine(item)| < HEADER_MAX_LENGTH
    && Find(item.content, Delimiter(boundary)) == |item.content|
  }

  // ----- the header lines -----

  lemma {:induction false} QuotedNameBack(name: string, tail: string, n: nat)
    requires OneLine(name) && '\"' !in name && n <= |name| && FilenameTail(tail).0
    ensures QuotedName(name + "\"" + tail, n) == (true, name, FilenameTail(tail).1)
    decreases |name| - n
  {
    hide FilenameTail;
    var s := name + "\"" + tail;
    if n < |name| {
      assert s[n] == name[n] && name[n] in name;
      QuotedNameBack(name, tail, n + 1);
    } else {
      assert s[n] == '\"' && s[..n] == name && s[n + 1..] == tail;
    }
  }

  lemma {:induction false} QuotedFilenameBack(filename: string, n: nat)
    requires OneLine(filename) && '\"' !in filename && n <= |filename|
    ensures QuotedFilename(filename + "\"", n) == (true, filename)
    decreases |filename| - n
  {
    var s := filename + "\"";
    if n < |filename| {
      assert s[n] == filename[n] && filename[n] in filename;
      QuotedFilenameBack(filename, n + 1);
    } else {
      assert s[n] == '\"' && s[..n] == filename && s[n + 1..] == "";
    }
  }

  function FilenameText(filename: string): string
  {
    if filename != [] then "; filename=\"" + filename + "\"" else ""
  }

  lemma FilenameBack(filename: string)
    requires OneLine(filename) && '\"' !in filename
    ensures FilenameTail(FilenameText(filename)) == (true, filename)
  {
    hide LineEnd, QuotedFilename, StartsIgnoringCase;
    if filename == [] {
      NothingIsAnEnd();
    } else {
      var t := "filename=\"" + (filename + "\"");
      var s := ";" + (" " + t);
      assert FilenameText(filename) == s;
      assert s[0] == ';' && s[1..] == " " + t;
      SkipBlank(t);
      FilenameWordIs();
      StartsWith("filename=\"", filename + "\"", "filename=\"");
      QuotedFilenameBack(filename, 0);
    }
  }

  lemma NothingIsAnEnd()
    ensures LineEnd("") && !StartsIgnoringCase("", "filename=\"")
  {}

  lemma StartsWith(a: string, b: string, w: string)
    requires |a| == |w| && StartsIgnoringCase(a, w)
    ensures StartsIgnoringCase(a + b, w) && (a + b)[|w|..] == b
  {
    assert forall i | 0 <= i < |w| :: (a + b)[i] == a[i];
  }

  lemma DispositionWordIs()
    ensures StartsIgnoringCase("Content-Disposition:", DispositionWord) && |DispositionWord| == 20
  {}

  lemma FormDataWordIs()
    ensures StartsIgnoringCase("form-data;", FormDataWord) && |FormDataWord| == 10
  {}

  lemma NameWordIs()
    ensures StartsIgnoringCase("name=\"", NameWord) && |NameWord| == 6
  {}

  lemma FilenameWordIs()
    ensures StartsIgnoringCase("filename=\"", "filename=\"")
  {}

  lemma ContentTypeWordIs()
    ensures StartsIgnoringCase("Content-Type:", ContentTypeWord) && |ContentTypeWord| == 13
  {}

  lemma DispositionBack(item: Item)
    requires OneLine(item.name) && '\"' !in item.name && OneLine(item.filename) && '\"' !in item.filename
    ensures MatchDisposition(DispositionLine(item)) == (true, item.name, item.filename)
  {
    hide QuotedName, FilenameTail, StartsIgnoringCase, DispositionLine, SkipWhite;
    var quoted := item.name + "\"" + FilenameText(item.filename);
    var c := "name=\"" + quoted;
    var b := "form-data;" + (" " + c);
    DispositionText(item);
    DispositionWordIs();
    FormDataWordIs();
    NameWordIs();
    StartsWith("Content-Disposition:", " " + b, DispositionWord);
    SkipBlank(b);
    StartsWith("form-data;", " " + c, FormDataWord);
    SkipBlank(c);
    StartsWith("name=\"", quoted, NameWord);
    FilenameBack(item.filename);
    QuotedNameBack(item.name, FilenameText(item.filename), 0);
  }

  lemma DispositionText(item: Item)
    ensures
      var c := "name=\"" + (item.name + "\"" + FilenameText(item.filename));
      DispositionLine(item) == "Content-Disposition:" + (" " + ("form-data;" + (" " + c)))
  {
    var f := FilenameText(item.filename);
    var tail := item.name + "\"" + f;
    assert "Content-Disposition: form-data; name=\"" == "Content-Disposition:" + " " + "form-data;" + " " + "name=\"";
    assert DispositionLine(item) == "Content-Disposition: form-data; name=\"" + item.name + "\"" + f;
    hide *;
    Assoc("Content-Disposition: form-data; name=\"", item.name, "\"");
    Assoc("Content-Disposition: form-data; name=\"", item.name + "\"", f);
    Assoc("Content-Disposition:" + " " + "form-data;" + " ", "name=\"", tail);
    Assoc("Content-Disposition:" + " " + "form-data;", " ", "name=\"" + tail);
    Assoc("Content-Disposition:" + " ", "form-data;", " " + ("name=\"" + tail));
    Assoc("Content-Disposition:", " ", "form-data;" + (" " + ("name=\"" + tail)));
  }

  lemma NotAContentType(item: Item)
    ensures !StartsIgnoringCase(DispositionLine(item), ContentTypeWord)
  {
    hide DispositionLine;
    DispositionText(item);
    var line := DispositionLine(item);
    assert line[8] == "Content-Disposition:"[8] && ContentTypeWord[8] == 't';
  }

  lemma SkipBlank(s: string)
    requires s != [] && !IsSpace(s[0])
    ensures SkipWhite(" " + s) == s
  {
    assert (" " + s)[1..] == s;
  }

  lemma ContentTypeBack(file: Item, item: Item)
    requires Trimmed(item.contentType)
    ensures ReadHeader(file, ContentTypeLine(item)) == file.(contentType := item.contentType)
  {
    hide TrimRight, StartsIgnoringCase;
    ContentTypeWordIs();
    var line, ct := ContentTypeLine(item), item.contentType;
    assert line == "Content-Type:" + (" " + ct);
    StartsWith("Content-Type:", " " + ct, ContentTypeWord);
    assert (" " + ct)[1..] == ct && TrimLeft(" " + ct) == TrimLeft(ct);
    TrimTrimmed(ct);
  }

  // ----- the text of one item -----

  /** The text is orderly, also when it follows other header lines, and has no epilogue. */
  ghost predicate IsOrderly(boundary: string, st: State, s: string)
  {
    Orderly(boundary, st, s, false, true)
  }

  /** The converse of a move: what follows decides about the text before it. */
  lemma MoveBack(boundary: string, st: State, s: string, next: State, t: string)
    requires s != [] && Step(boundary, st, s).Move? && Step(boundary, st, s).next == next
    requires s[Step(boundary, st, s).used..] == t && IsOrderly(boundary, next, t)
    requires st.phase.Headers? ==> Find(s, CRLF) < HEADER_MAX_LENGTH
    requires !Closing(st, s)
    ensures IsOrderly(boundary, st, s) && Feed(boundary, st, s, true) == Feed(boundary, next, t, true)
  {
    hide Step, Feed, Orderly, Find, Occurs, Closing;
    FirstIsIrrelevant(boundary, next, t, true);
    OrderlyUnfold(boundary, st, s, false, true);
    FeedUnfold(boundary, st, s, true);
  }

  lemma HeaderLine(boundary: string, st: State, line: string, t: string)
    requires st.phase.Headers? && line != [] && '\r' !in line && |line| < HEADER_MAX_LENGTH
    requires IsOrderly(boundary, st.(file := ReadHeader(st.file, line)), t)
    ensures
      var s := line + CRLF + t;
      && IsOrderly(boundary, st, s)
      && Feed(boundary, st, s, true) == Feed(boundary, st.(file := ReadHeader(st.file, line)), t, true)
  {
    hide Find, ReadHeader, IsOrderly, Feed, Occurs;
    var s := line + CRLF + t;
    assert s == line + (CRLF + t);
    FindAfter(line, CRLF + t, CRLF);
    FindAtStart(CRLF, t);
    assert s[..|line|] == line && s[|line| + 2..] == t;
    MoveBack(boundary, st, s, st.(file := ReadHeader(st.file, line)), t);
  }

  lemma BlankLine(boundary: string, st: State, t: string)
    requires st.phase.Headers? && st.offered != FILE_MAX_COUNT && IsOrderly(boundary, Entered(st), t)
    ensures IsOrderly(boundary, st, CRLF + t)
    ensures Feed(boundary, st, CRLF + t, true) == Feed(boundary, Entered(st), t, true)
  {
    hide Find, IsOrderly, Feed, WithPart, Occurs;
    FindAtStart(CRLF, t);
    assert (CRLF + t)[2..] == t;
    MoveBack(boundary, st, CRLF + t, Entered(st), t);
  }

  lemma ContentBack(boundary: string, st: State, content: string, t: string)
    requires st.phase.Body? && BoundaryCharsValid(boundary) && Find(content, Delimiter(boundary)) == |content|
    requires IsOrderly(boundary, st.(phase := Boundary, received := WithContent(st.received, content)), t)
    ensures
      var s := content + Delimiter(boundary) + t;
      && IsOrderly(boundary, st, s)
      && Feed(boundary, st, s, true) ==
         Feed(boundary, st.(phase := Boundary, received := WithContent(st.received, content)), t, true)
  {
    var d := Delimiter(boundary);
    OneReturn(boundary);
    hide Find, IsOrderly, Feed, WithContent, Delimiter, Occurs;
    var s := content + d + t;
    FindThere(content, d, t);
    assert s[..|content|] == content && s[|content| + |d|..] == t;
    MoveBack(boundary, st, s, st.(phase := Boundary, received := WithContent(st.received, content)), t);
  }

  lemma OneReturn(boundary: string)
    requires BoundaryCharsValid(boundary)
    ensures Delimiter(boundary)[0] !in Delimiter(boundary)[1..]
  {
    assert Delimiter(boundary)[1..] == "\n--" + boundary;
  }

  lemma EntryBack(boundary: string, st: State, t: string)
    requires st.phase.Entry? && t != [] && IsOrderly(boundary, st.(phase := Headers, file := NoItem), t)
    ensures IsOrderly(boundary, st, t)
    ensures Feed(boundary, st, t, true) == Feed(boundary, st.(phase := Headers, file := NoItem), t, true)
  {
    hide IsOrderly, Feed, Occurs;
    assert t[0..] == t;
    MoveBack(boundary, st, t, st.(phase := Headers, file := NoItem), t);
  }

  lemma DelimiterLine(boundary: string, st: State, t: string)
    requires st.phase.Boundary? && IsOrderly(boundary, st.(phase := Entry), t)
    ensures IsOrderly(boundary, st, CRLF + t)
    ensures Feed(boundary, st, CRLF + t, true) == Feed(boundary, st.(phase := Entry), t, true)
  {
    hide IsOrderly, Feed;
    var s := CRLF + t;
    assert s[2..] == t && s[0..2] == CRLF && DashCrlf[0] == '-';
    if |s| >= 4 {
      assert s[0..4][0] == '\r';
    }
    MoveBack(boundary, st, s, st.(phase := Entry), t);
  }

  lemma LastLine(boundary: string, st: State)
    requires st.phase.Boundary?
    ensures IsOrderly(boundary, st, DashCrlf)
    ensures Feed(boundary, st, DashCrlf, true) == Parsed(st.(valid := true), "", true)
  {
    hide Feed, Orderly;
    assert DashCrlf[0..4] == DashCrlf && DashCrlf[4..] == "";
    OrderlyUnfold(boundary, st, DashCrlf, false, true);
    ClosingFeed(boundary, st, DashCrlf, true);
  }

  lemma NothingLeft(boundary: string, st: State)
    ensures IsOrderly(boundary, st, "") && Feed(boundary, st, "", true) == Parsed(st, "", true)
  {}

  /** The header lines of an entry. */
  lemma HeaderLinesBack(boundary: string, st: State, item: Item, t: string)
    requires st.phase.Headers? && st.file == NoItem && Sendable(item, boundary)
    requires IsOrderly(boundary, st.(file := item.(content := "")), CRLF + t)
    ensures IsOrderly(boundary, st, HeaderText(item) + t)
    ensures Feed(boundary, st, HeaderText(item) + t, true) ==
            Feed(boundary, st.(file := item.(content := "")), CRLF + t, true)
  {
    hide IsOrderly, Feed, ReadHeader, Find, MatchDisposition;
    var file := item.(content := "");
    var first, second := DispositionLine(item), ContentTypeLine(item);
    var named := Item(item.name, item.filename, "", "");
    LinesHaveNoReturn(item);
    DispositionRead(item);
    ContentTypeBack(named, item);
    hide DispositionLine, ContentTypeLine;
    if item.contentType != [] {
      assert HeaderText(item) + t == first + CRLF + (second + CRLF + (CRLF + t));
      HeaderLine(boundary, st.(file := named), second, CRLF + t);
      HeaderLine(boundary, st, first, second + CRLF + (CRLF + t));
    } else {
      assert HeaderText(item) + t == first + CRLF + (CRLF + t);
      assert named == file;
      HeaderLine(boundary, st, first, CRLF + t);
    }
  }

  /** The header lines and the blank line after them. */
  lemma HeadersBack(boundary: string, st: State, item: Item, t: string)
    requires st.phase.Headers? && st.file == NoItem && Sendable(item, boundary)
    requires st.offered != FILE_MAX_COUNT && IsOrderly(boundary, Entered(st.(file := item.(content := ""))), t)
    ensures IsOrderly(boundary, st, HeaderText(item) + t)
    ensures Feed(boundary, st, HeaderText(item) + t, true) ==
            Feed(boundary, Entered(st.(file := item.(content := ""))), t, true)
  {
    hide IsOrderly, Feed, HeaderText, Sendable;
    BlankLine(boundary, st.(file := item.(content := "")), t);
    HeaderLinesBack(boundary, st, item, t);
  }

  /** The entry after the last one the receiver takes. */
  lemma HeadersRefused(boundary: string, st: State, item: Item, t: string)
    requires st.phase.Headers? && st.file == NoItem && Sendable(item, boundary) && st.offered == FILE_MAX_COUNT
    ensures IsOrderly(boundary, st, HeaderText(item) + t)
    ensures
      var p := Feed(boundary, st, HeaderText(item) + t, true);
      !p.ok && p.state == Refused(st.(file := item.(content := "")))
  {
    hide IsOrderly, Feed, HeaderText, Sendable;
    BlankRefused(boundary, st.(file := item.(content := "")), t);
    HeaderLinesBack(boundary, st, item, t);
  }

  lemma BlankRefused(boundary: string, st: State, t: string)
    requires st.phase.Headers? && st.offered == FILE_MAX_COUNT
    ensures IsOrderly(boundary, st, CRLF + t)
    ensures !Feed(boundary, st, CRLF + t, true).ok && Feed(boundary, st, CRLF + t, true).state == Refused(st)
  {
    hide Find, Feed, Orderly, Occurs;
    FindAtStart(CRLF, t);
    HeaderStep(boundary, st, CRLF + t, true);
    OrderlyUnfold(boundary, st, CRLF + t, false, true);
  }

  lemma DispositionRead(item: Item)
    requires OneLine(item.name) && '\"' !in item.name && OneLine(item.filename) && '\"' !in item.filename
    ensures ReadHeader(NoItem, DispositionLine(item)) == Item(item.name, item.filename, "", "")
  {
    hide MatchDisposition, DispositionLine, StartsIgnoringCase;
    DispositionBack(item);
    NotAContentType(item);
  }

  lemma LinesHaveNoReturn(item: Item)
    requires OneLine(item.name) && OneLine(item.filename) && OneLine(item.contentType)
    ensures '\r' !in DispositionLine(item) && DispositionLine(item) != []
    ensures '\r' !in ContentTypeLine(item) && ContentTypeLine(item) != []
  {}

  // ----- the whole body -----

  /** The text after the first `--boundary`. */
  function AfterBoundary(items: seq<Item>, boundary: string): string
  {
    if items == [] then DashCrlf
    else
      CRLF + (HeaderText(items[0]) + (items[0].content + (Delimiter(boundary) + AfterBoundary(items[1..], boundary))))
  }

  lemma {:induction false} SerializeIs(items: seq<Item>, boundary: string)
    ensures Serialize(items, boundary) == "--" + boundary + AfterBoundary(items, boundary)
  {
    hide HeaderText;
    if items != [] {
      SerializeIs(items[1..], boundary);
      Regroup("--" + boundary, HeaderText(items[0]), items[0].content, AfterBoundary(items[1..], boundary));
      assert Delimiter(boundary) == CRLF + ("--" + boundary) && Opening(boundary) == ("--" + boundary) + CRLF;
    }
  }

  lemma Regroup(b: string, h: string, c: string, rest: string)
    ensures b + CRLF + h + c + CRLF + (b + rest) == b + (CRLF + (h + (c + ((CRLF + b) + rest))))
  {
    hide *;
    var tail := (CRLF + b) + rest;
    assert CRLF + (b + rest) == tail;
    assert b + CRLF + h + c + CRLF + (b + rest) == (b + CRLF + h + c) + tail;
    assert (b + CRLF + h + c) + tail == (b + CRLF + h) + (c + tail);
    assert (b + CRLF + h) + (c + tail) == (b + CRLF) + (h + (c + tail));
  }

  predicate AllSendable(items: seq<Item>, boundary: string)
  {
    forall item | item in items :: Sendable(item, boundary)
  }

  function LastFile(items: seq<Item>, file: Item): Item
  {
    if items == [] then file else items[|items| - 1].(content := "")
  }

  lemma PartReceived(received: seq<Item>, item: Item)
    ensures WithContent(WithPart(received, item.(content := "")), item.content) == received + [item]
  {
    assert "" + item.content == item.content;
  }

  function AfterItem(st: State, item: Item): State
  {
    State(Boundary, item.(content := ""), st.received + [item], st.offered + 1, st.valid)
  }

  /** One item, from the end of one delimiter to the end of the next. */
  lemma ItemBack(boundary: string, st: State, item: Item, t: string)
    requires st.phase.Boundary? && BoundaryCharsValid(boundary) && Sendable(item, boundary)
    requires st.offered != FILE_MAX_COUNT && IsOrderly(boundary, AfterItem(st, item), t)
    ensures
      var next := AfterItem(st, item);
      var s := CRLF + (HeaderText(item) + (item.content + (Delimiter(boundary) + t)));
      IsOrderly(boundary, st, s) && Feed(boundary, st, s, true) == Feed(boundary, next, t, true)
  {
    hide IsOrderly, Feed, WithPart, WithContent, Sendable, HeaderText, Delimiter, BoundaryCharsValid, Find;
    var file := item.(content := "");
    var heads := st.(phase := Headers, file := NoItem);
    var body := Entered(heads.(file := file));
    PartReceived(st.received, item);
    SendableContent(item, boundary);
    ContentBack(boundary, body, item.content, t);
    Assoc(item.content, Delimiter(boundary), t);
    var bodyText := item.content + (Delimiter(boundary) + t);
    HeadersBack(boundary, heads, item, bodyText);
    HeaderNotEmpty(item);
    EntryBack(boundary, st.(phase := Entry), HeaderText(item) + bodyText);
    DelimiterLine(boundary, st, HeaderText(item) + bodyText);
  }

  lemma HeaderNotEmpty(item: Item)
    ensures HeaderText(item) != ""
  {}

  /** From the end of a delimiter on, the remaining items are received one after the other. */
  lemma {:induction false} ItemsBack(boundary: string, st: State, items: seq<Item>)
    requires st.phase.Boundary? && BoundaryCharsValid(boundary) && AllSendable(items, boundary)
    requires st.offered + |items| <= FILE_MAX_COUNT
    ensures IsOrderly(boundary, st, AfterBoundary(items, boundary))
    ensures
      var last :=
        if items == [] then st.(valid := true)
        else
          State(Boundary, LastFile(items, st.file), st.received + items, st.offered + |items|, true);
      Feed(boundary, st, AfterBoundary(items, boundary), true) == Parsed(last, "", true)
    decreases |items|
  {
    hide IsOrderly, Feed, Sendable, HeaderText, Delimiter, BoundaryCharsValid;
    if items == [] {
      LastLine(boundary, st);
    } else {
      var item, rest := items[0], items[1..];
      assert item in items && forall i | i in rest :: i in items;
      ItemsBack(boundary, AfterItem(st, item), rest);
      ItemBack(boundary, st, item, AfterBoundary(rest, boundary));
      Assoc(st.received, [item], rest);
      assert items == [item] + rest;
      PlusNothing(st.received + [item]);
    }
  }

  /** An entry too many, from the end of a delimiter. */
  lemma ItemRefused(boundary: string, st: State, item: Item, t: string)
    requires st.phase.Boundary? && Sendable(item, boundary) && st.offered == FILE_MAX_COUNT
    ensures
      var s := CRLF + (HeaderText(item) + t);
      && IsOrderly(boundary, st, s) && !Feed(boundary, st, s, true).ok
      && Feed(boundary, st, s, true).state.received == st.received
  {
    hide IsOrderly, Feed, Sendable, HeaderText;
    HeadersRefused(boundary, st.(phase := Headers, file := NoItem), item, t);
    HeaderNotEmpty(item);
    EntryBack(boundary, st.(phase := Entry), HeaderText(item) + t);
    DelimiterLine(boundary, st, HeaderText(item) + t);
  }

  /** With more items than the receiver takes, those it takes are received, and the next one is
      refused. */
  lemma {:induction false} TooManyItems(boundary: string, st: State, items: seq<Item>)
    requires st.phase.Boundary? && BoundaryCharsValid(boundary) && AllSendable(items, boundary)
    requires st.offered <= FILE_MAX_COUNT < st.offered + |items|
    ensures
      var s := AfterBoundary(items, boundary);
      && IsOrderly(boundary, st, s) && !Feed(boundary, st, s, true).ok
      && Feed(boundary, st, s, true).state.received == st.received + items[..FILE_MAX_COUNT - st.offered]
    decreases |items|
  {
    hide IsOrderly, Feed, Sendable, HeaderText, Delimiter, BoundaryCharsValid;
    var item, rest := items[0], items[1..];
    assert item in items && forall i | i in rest :: i in items;
    var later := Delimiter(boundary) + AfterBoundary(rest, boundary);
    if st.offered == FILE_MAX_COUNT {
      ItemRefused(boundary, st, item, item.content + later);
      PlusNothing(st.received);
    } else {
      var n := FILE_MAX_COUNT - st.offered;
      TooManyItems(boundary, AfterItem(st, item), rest);
      ItemBack(boundary, st, item, AfterBoundary(rest, boundary));
      Assoc(st.received, [item], rest[..n - 1]);
      assert items[..n] == [item] + rest[..n - 1];
    }
  }

  lemma SendableContent(item: Item, boundary: string)
    requires Sendable(item, boundary)
    ensures Find(item.content, Delimiter(boundary)) == |item.content|
  {}

  /** The state in which the items have been received. */
  function Received(items: seq<Item>): State
  {
    State(Boundary, LastFile(items, NoItem), items, |items|, true)
  }

  /** The opening delimiter and everything after it. */
  lemma SerializedText(boundary: string, items: seq<Item>)
    requires items != [] && BoundaryCharsValid(boundary) && AllSendable(items, boundary)
    ensures
      var t := Serialize(items, boundary)[|Opening(boundary)|..];
      var p := Feed(boundary, Start.(phase := Entry), t, true);
      && |Opening(boundary)| <= |Serialize(items, boundary)|
      && Serialize(items, boundary) == Opening(boundary) + t
      && IsOrderly(boundary, Start.(phase := Entry), t)
      && (if |items| <= FILE_MAX_COUNT then p == Parsed(Received(items), "", true)
          else !p.ok && p.state.received == items[..FILE_MAX_COUNT])
  {
    hide IsOrderly, Feed, HeaderText, Sendable, Delimiter;
    var whole := AfterBoundary(items, boundary);
    var t := whole[2..];
    SerializeIs(items, boundary);
    assert whole == CRLF + t;
    assert Serialize(items, boundary) == Opening(boundary) + t;
    if |items| <= FILE_MAX_COUNT {
      ItemsBack(boundary, Start.(phase := Boundary), items);
      PlusNothing(items);
    } else {
      TooManyItems(boundary, Start.(phase := Boundary), items);
      PlusNothing(items[..FILE_MAX_COUNT]);
    }
    assert whole[..2] == CRLF;
    OrderlyEntry(boundary, Start.(phase := Boundary), t);
  }

  lemma OrderlyEntry(boundary: string, st: State, t: string)
    requires st.phase.Boundary? && IsOrderly(boundary, st, CRLF + t)
    ensures IsOrderly(boundary, st.(phase := Entry), t)
    ensures Feed(boundary, st, CRLF + t, true) == Feed(boundary, st.(phase := Entry), t, true)
  {
    hide Orderly, Feed;
    var s := CRLF + t;
    assert s[2..] == t && s[0..2] == CRLF;
    StartsOneWay(s);
    MoveKeepsFuture(boundary, st, s, false, true);
    FirstInHeadersOnly(boundary, st, s);
    FirstInHeadersOnly(boundary, st.(phase := Entry), t);
    MoveKeepsFuture(boundary, st, s, true, true);
  }

  lemma OpeningIsConsumed(boundary: string, first: string, rest: string, t: string)
    requires Opening(boundary) <= first && first + rest == Opening(boundary) + t
    ensures first[|Opening(boundary)|..] + rest == t
    ensures Find(first, Opening(boundary)) == 0
  {
    var o := Opening(boundary);
    assert first == o + first[|o|..];
    assert first + rest == o + (first[|o|..] + rest);
    assert (first + rest)[|o|..] == (o + t)[|o|..] == t;
    FindAtStart(o, first[|o|..]);
  }

  /** However the serialized items are cut, as long as the opening delimiter line comes in one
      piece: when there are not too many, every call succeeds, the message ends valid, and
      exactly the items have been received, with their contents whole; otherwise a call fails,
      and as many items as the receiver takes have been received. */
  lemma ReceivedAsSent(boundary: string, items: seq<Item>, pieces: seq<string>)
    requires items != [] && BoundaryCharsValid(boundary) && AllSendable(items, boundary)
    requires pieces != [] && Opening(boundary) <= pieces[0] && Concat(pieces) == Serialize(items, boundary)
    ensures
      var p := FeedAll(boundary, Start, "", pieces);
      if |items| <= FILE_MAX_COUNT then p == Parsed(Received(items), "", true)
      else !p.ok && p.state.received == items[..FILE_MAX_COUNT]
  {
    hide IsOrderly, Orderly, Feed, AllSendable, Serialize, Find, Opening, Concat;
    var o := Opening(boundary);
    SerializedText(boundary, items);
    var t := Serialize(items, boundary)[|o|..];
    ConcatCons(pieces);
    OpeningIsConsumed(boundary, pieces[0], Concat(pieces[1..]), t);
    var first := pieces[0][|o|..];
    assert "" + pieces[0] == pieces[0];
    PreambleFeed(boundary, pieces[0]);
    ConcatCons([first] + pieces[1..]);
    assert ([first] + pieces[1..])[1..] == pieces[1..];
    var entry := Start.(phase := Entry);
    assert "" + Concat([first] + pieces[1..]) == t;
    OrderlyAsFirst(boundary, entry, t);
    CutsAgree(boundary, entry, "", [first] + pieces[1..], true);
    assert "" + first == first;
  }

  lemma OrderlyAsFirst(boundary: string, st: State, s: string)
    requires IsOrderly(boundary, st, s)
    ensures Orderly(boundary, st, s, true, true)
  {
    hide Orderly;
    FirstIsIrrelevant(boundary, st, s, true);
  }

  lemma FirstInHeadersOnly(boundary: string, st: State, s: string)
    requires !st.phase.Headers?
    ensures Orderly(boundary, st, s, true, true) <==> Orderly(boundary, st, s, false, true)
  {
    hide Step, Find, Occurs, Quiet;
  }

  lemma ConcatCons(pieces: seq<string>)
    requires pieces != []
    ensures Concat(pieces) == pieces[0] + Concat(pieces[1..])
  {}

  /** A form without items is never valid: it has no opening delimiter line, or (when the
      boundary is made of dashes) one at its very end. */
  lemma EmptyFormIsInvalid(boundary: string)
    ensures
      var p := Feed(boundary, Start, Serialize([], boundary), true);
      p.ok && p.unread == "" && !p.state.valid && p.state.received == []
  {
    hide Feed, Find;
    var s, o, n := Serialize([], boundary), Opening(boundary), |boundary| + 2;
    assert s == ("--" + boundary) + DashCrlf && o == ("--" + boundary) + CRLF;
    PreambleFeed(boundary, s);
    var i := Find(s, o);
    if i < |s| {
      assert s[i + n] == s[i..i + |o|][n] == o[n] == '\r';
      assert s[n] == '-' && s[n + 1] == '-';
      assert s[i + |o|..] == "";
      FeedUnfold(boundary, Start.(phase := Entry), "", true);
    }
  }

  lemma NotQuoted(boundary: string)
    requires boundary != [] && BoundaryCharsValid(boundary)
    ensures boundary[0] != '\"'
  {
    assert boundary[0] in boundary;
  }

  /** The receiver takes the boundary from the content type the sender announces. */
  lemma BoundaryAnnounced(boundary: string)
    requires boundary != [] && BoundaryCharsValid(boundary)
    ensures ParseBoundary(ContentTypePrefix + boundary) == (true, boundary)
  {
    hide Find, BoundaryCharsValid;
    var s, w := "multipart/form-data; ", "boundary=";
    NotQuoted(boundary);
    assert ContentTypePrefix == s + w;
    Assoc(s, w, boundary);
    assert 'b' !in s;
    FindAfter(s, w + boundary, w);
    FindAtStart(w, boundary);
    assert (s + (w + boundary))[|s| + 9..] == boundary;
  }

  lemma BoundaryText(before: string, value: string)
    requires 'b' !in before && value != []
    ensures
      var s := before + ("boundary=" + value);
      Find(s, "boundary=") == |before| < |s| && s[|before| + 9..] == value
  {
    hide Find;
    var w := "boundary=";
    FindAfter(before, w + value, w);
    FindAtStart(w, value);
    assert (before + (w + value))[|before| + 9..] == value;
  }

  /** A boundary may be in quotes, and the parameter may come behind any other text that does not
      look like it. */
  lemma QuotedBoundary(before: string, boundary: string)
    requires boundary != [] && 'b' !in before && '\"' !in boundary
    ensures ParseBoundary(before + ("boundary=" + ("\"" + boundary + "\""))) == (true, boundary)
    ensures ParseBoundary(before + ("boundary=" + boundary)) == (true, boundary)
  {
    hide Find;
    var quoted := "\"" + boundary + "\"";
    BoundaryText(before, quoted);
    BoundaryText(before, boundary);
    assert quoted[1..|quoted| - 1] == boundary;
    assert boundary[0] in boundary;
  }

  /** Without the parameter there is no boundary. */
  lemma NoBoundary(text: string)
    requires Find(text, "boundary=") == |text|
    ensures !ParseBoundary(text).0
  {
    hide Find;
  }
}
