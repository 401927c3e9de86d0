/** Forms as other clients write them. */
module MultipartForms {
  // Any header lines in any order and spelling, and text before the first delimiter.

  import opened CLibrary
  import opened HttpText
  import opened Multipart
  import opened MultipartCuts
  import opened MultipartHeaders
  import opened MultipartRoundTrip
  import opened Seqs

  // ----- forms -----

  datatype Part = Part(headers: seq<Header>, content: string)

  /** The item that is meant. */
  function Meant(p: Part): Item { SaidAll(NoItem, p.headers).(content := p.content) }

  function MeantAll(parts: seq<Part>): (items: seq<Item>)
    ensures |items| == |parts| && forall i | 0 <= i < |parts| :: items[i] == Meant(parts[i])
  {
    if parts == [] then [] else [Meant(parts[0])] + MeantAll(parts[1..])
  }

  function HeadersText(hs: seq<Header>): string
  {
    if hs == [] then CRLF else LineText(hs[0]) + CRLF + HeadersText(hs[1..])
  }

  /** The text behind `--boundary`. */
  function PartsText(parts: seq<Part>, boundary: string): string
  {
    if parts == [] then "--" + CRLF
    else
      CRLF + (HeadersText(parts[0].headers) +
              (parts[0].content + (CRLF + "--" + boundary + PartsText(parts[1..], boundary))))
  }

  ghost predicate ProperPart(p: Part, boundary: string)
  {
    (forall h | h in p.headers :: ProperHeader(h)) && Find(p.content, CRLF + "--" + boundary) == |p.content|
  }

  ghost predicate ProperParts(parts: seq<Part>, boundary: string)
  {
    forall p | p in parts :: ProperPart(p, boundary)
  }

  lemma HeadersUnfold(hs: seq<Header>, t: string)
    ensures HeadersText(hs) + t == if hs == [] then CRLF + t else LineText(hs[0]) + CRLF + (HeadersText(hs[1..]) + t)
  {
    hide LineText;
    if hs != [] {
      Assoc(LineText(hs[0]) + CRLF, HeadersText(hs[1..]), t);
    }
  }

  /** The header lines of a part, and the blank line. */
  lemma {:induction false} HeadersReceived(boundary: string, st: State, hs: seq<Header>, t: string)
    requires st.phase.Headers? && st.offered != FILE_MAX_COUNT && forall h | h in hs :: ProperHeader(h)
    requires IsOrderly(boundary, Entered(st.(file := SaidAll(st.file, hs))), t)
    ensures IsOrderly(boundary, st, HeadersText(hs) + t)
    ensures Feed(boundary, st, HeadersText(hs) + t, true) ==
            Feed(boundary, Entered(st.(file := SaidAll(st.file, hs))), t, true)
    decreases |hs|
  {
    hide IsOrderly, Feed, ReadHeader, LineText, HeadersText, Said;
    HeadersUnfold(hs, t);
    if hs == [] {
      BlankLine(boundary, st, t);
    } else {
      assert hs[0] in hs && forall h | h in hs[1..] :: h in hs;
      var next := st.(file := Said(st.file, hs[0]));
      HeadersReceived(boundary, next, hs[1..], t);
      LineRead(st.file, hs[0]);
      HeaderLine(boundary, st, LineText(hs[0]), HeadersText(hs[1..]) + t);
    }
  }

  lemma {:induction false} HeadersThenRefused(boundary: string, st: State, hs: seq<Header>, t: string)
    requires st.phase.Headers? && st.offered == FILE_MAX_COUNT && forall h | h in hs :: ProperHeader(h)
    ensures IsOrderly(boundary, st, HeadersText(hs) + t)
    ensures
      var p := Feed(boundary, st, HeadersText(hs) + t, true);
      !p.ok && p.state.received == st.received
    decreases |hs|
  {
    hide IsOrderly, Feed, ReadHeader, LineText, HeadersText, Said;
    HeadersUnfold(hs, t);
    if hs == [] {
      BlankRefused(boundary, st, t);
    } else {
      assert hs[0] in hs && forall h | h in hs[1..] :: h in hs;
      HeadersThenRefused(boundary, st.(file := Said(st.file, hs[0])), hs[1..], t);
      LineRead(st.file, hs[0]);
      HeaderLine(boundary, st, LineText(hs[0]), HeadersText(hs[1..]) + t);
    }
  }

  function AfterPart(st: State, p: Part): State
  {
    State(Boundary, SaidAll(NoItem, p.headers), st.received + [Meant(p)], st.offered + 1, st.valid)
  }

  lemma SaidKeepsContent(file: Item, h: Header)
    ensures Said(file, h).content == file.content
  {}

  lemma {:induction false} SaidAllKeepsContent(file: Item, hs: seq<Header>)
    ensures SaidAll(file, hs).content == file.content
    decreases |hs|
  {
    hide Said;
    if hs != [] {
      SaidKeepsContent(file, hs[0]);
      SaidAllKeepsContent(Said(file, hs[0]), hs[1..]);
    }
  }

  lemma HeadersNotEmpty(hs: seq<Header>)
    ensures HeadersText(hs) != ""
  {
    hide LineText;
  }

  lemma PartReceived(boundary: string, st: State, p: Part, t: string)
    requires st.phase.Boundary? && BoundaryCharsValid(boundary) && ProperPart(p, boundary)
    requires st.offered != FILE_MAX_COUNT && IsOrderly(boundary, AfterPart(st, p), t)
    ensures
      var s := CRLF + (HeadersText(p.headers) + (p.content + (CRLF + "--" + boundary + t)));
      IsOrderly(boundary, st, s) && Feed(boundary, st, s, true) == Feed(boundary, AfterPart(st, p), t, true)
  {
    hide IsOrderly, Feed, WithPart, WithContent, ProperHeader, HeadersText, SaidAll, BoundaryCharsValid, Find;
    var file := SaidAll(NoItem, p.headers);
    SaidAllKeepsContent(NoItem, p.headers);
    var heads := st.(phase := Headers, file := NoItem);
    var body := Entered(heads.(file := file));
    MultipartRoundTrip.PartReceived(st.received, Meant(p));
    ContentBack(boundary, body, p.content, t);
    Assoc(p.content, Delimiter(boundary), t);
    var bodyText := p.content + (Delimiter(boundary) + t);
    HeadersReceived(boundary, heads, p.headers, bodyText);
    HeadersNotEmpty(p.headers);
    EntryBack(boundary, st.(phase := Entry), HeadersText(p.headers) + bodyText);
    DelimiterLine(boundary, st, HeadersText(p.headers) + bodyText);
  }

  /** The state in which all parts have been received. */
  function Complete(st: State, parts: seq<Part>): State
  {
    State(Boundary, if parts == [] then st.file else SaidAll(NoItem, parts[|parts| - 1].headers),
          st.received + MeantAll(parts), st.offered + |parts|, true)
  }

  lemma PartsUnfold(p: Part, rest: seq<Part>, boundary: string)
    ensures
      PartsText([p] + rest, boundary) ==
      CRLF + (HeadersText(p.headers) + (p.content + (CRLF + "--" + boundary + PartsText(rest, boundary))))
  {}

  lemma CompleteStep(st: State, p: Part, rest: seq<Part>)
    ensures Complete(AfterPart(st, p), rest) == Complete(st, [p] + rest)
    ensures AfterPart(st, p).received + MeantAll(rest) == st.received + MeantAll([p] + rest)
  {
    hide SaidAll, Meant;
    Assoc(st.received, [Meant(p)], MeantAll(rest));
    if rest == [] {
      PlusNothing(st.received + [Meant(p)]);
    } else {
      assert ([p] + rest)[|rest|] == rest[|rest| - 1];
    }
  }

  lemma FirstOfBoth<T>(x: T, s: seq<T>, n: nat)
    requires n <= |s|
    ensures ([x] + s)[..n + 1] == [x] + s[..n]
  {}

  lemma MeantFirst(items: seq<Item>, p: Part, rest: seq<Part>, n: nat)
    requires 0 < n <= |rest| + 1
    ensures items + [Meant(p)] + MeantAll(rest)[..n - 1] == items + MeantAll([p] + rest)[..n]
  {
    hide Meant, MeantAll;
    FirstOfBoth(Meant(p), MeantAll(rest), n - 1);
    Assoc(items, [Meant(p)], MeantAll(rest)[..n - 1]);
    MeantUnfold(p, rest);
  }

  lemma MeantUnfold(p: Part, rest: seq<Part>)
    ensures MeantAll([p] + rest) == [Meant(p)] + MeantAll(rest)
  {
    hide Meant;
    assert ([p] + rest)[1..] == rest;
  }

  lemma {:induction false} PartsReceived(boundary: string, st: State, parts: seq<Part>)
    requires st.phase.Boundary? && BoundaryCharsValid(boundary) && ProperParts(parts, boundary)
    requires st.offered <= FILE_MAX_COUNT
    ensures
      var s := PartsText(parts, boundary);
      var p := Feed(boundary, st, s, true);
      && IsOrderly(boundary, st, s)
      && if st.offered + |parts| <= FILE_MAX_COUNT then p == Parsed(Complete(st, parts), "", true)
         else !p.ok && p.state.received == st.received + MeantAll(parts)[..FILE_MAX_COUNT - st.offered]
    decreases |parts|, 0
  {
    hide IsOrderly, Feed, ProperPart, HeadersText, BoundaryCharsValid, SaidAll, Meant;
    if parts == [] {
      assert "--" + CRLF == DashCrlf;
      LastLine(boundary, st);
      PlusNothing(st.received);
    } else {
      PartsStep(boundary, st, parts[0], parts[1..]);
      assert [parts[0]] + parts[1..] == parts;
    }
  }

  lemma ProperFirst(p: Part, rest: seq<Part>, boundary: string)
    requires ProperParts([p] + rest, boundary)
    ensures ProperPart(p, boundary) && ProperParts(rest, boundary)
  {
    hide ProperPart;
    assert ([p] + rest)[0] == p;
    assert forall q | q in rest :: q in [p] + rest;
  }

  lemma PartsStep(boundary: string, st: State, p: Part, rest: seq<Part>)
    requires st.phase.Boundary? && BoundaryCharsValid(boundary) && ProperParts([p] + rest, boundary)
    requires st.offered <= FILE_MAX_COUNT
    ensures
      var s := PartsText([p] + rest, boundary);
      var r := Feed(boundary, st, s, true);
      && IsOrderly(boundary, st, s)
      && if st.offered + |rest| + 1 <= FILE_MAX_COUNT then r == Parsed(Complete(st, [p] + rest), "", true)
         else !r.ok && r.state.received == st.received + MeantAll([p] + rest)[..FILE_MAX_COUNT - st.offered]
    decreases |rest|, 1
  {
    hide IsOrderly, Feed, HeadersText, BoundaryCharsValid, SaidAll, Meant, PartsText, Complete, MeantAll;
    hide ProperPart, ProperParts;
    ProperFirst(p, rest, boundary);
    PartsUnfold(p, rest, boundary);
    var later := CRLF + "--" + boundary + PartsText(rest, boundary);
    var n := FILE_MAX_COUNT - st.offered;
    if n == 0 {
      PartRefused(boundary, st, p, p.content + later);
      PlusNothing(st.received);
    } else {
      PartsReceived(boundary, AfterPart(st, p), rest);
      PartReceived(boundary, st, p, PartsText(rest, boundary));
      CompleteStep(st, p, rest);
      if |rest| + 1 > n {
        MeantFirst(st.received, p, rest, n);
      }
    }
  }

  lemma PartRefused(boundary: string, st: State, p: Part, t: string)
    requires st.phase.Boundary? && ProperPart(p, boundary) && st.offered == FILE_MAX_COUNT
    ensures
      var s := CRLF + (HeadersText(p.headers) + t);
      && IsOrderly(boundary, st, s) && !Feed(boundary, st, s, true).ok
      && Feed(boundary, st, s, true).state.received == st.received
  {
    hide IsOrderly, Feed, ProperHeader, HeadersText;
    HeadersThenRefused(boundary, st.(phase := Headers, file := NoItem), p.headers, t);
    HeadersNotEmpty(p.headers);
    EntryBack(boundary, st.(phase := Entry), HeadersText(p.headers) + t);
    DelimiterLine(boundary, st, HeadersText(p.headers) + t);
  }

  /** A form: text that is dropped, and the parts between their delimiters. */
  function FormText(preamble: string, parts: seq<Part>, boundary: string): string
  {
    preamble + ("--" + boundary + PartsText(parts, boundary))
  }

  /** However the form is cut, as long as its beginning, up to the end of the opening delimiter line,
      is in the first piece: exactly the parts that are meant are received, whatever further
      header lines they have, in whatever order and spelling. */
  lemma FormReceived(boundary: string, preamble: string, parts: seq<Part>, pieces: seq<string>)
    requires parts != [] && BoundaryCharsValid(boundary) && ProperParts(parts, boundary)
    requires Find(preamble + ("--" + boundary + CRLF), "--" + boundary + CRLF) == |preamble|
    requires pieces != [] && preamble + ("--" + boundary + CRLF) <= pieces[0]
    requires Concat(pieces) == FormText(preamble, parts, boundary)
    ensures
      var p := FeedAll(boundary, Start, "", pieces);
      if |parts| <= FILE_MAX_COUNT then
        p.ok && p.unread == "" && p.state.valid && p.state.received == MeantAll(parts)
      else !p.ok && p.state.received == MeantAll(parts)[..FILE_MAX_COUNT]
  {
    hide IsOrderly, Orderly, Feed, FeedAll, ProperParts, Find, Opening, Concat, PartsText, BoundaryCharsValid, FormText;
    var t := BehindOpening(parts, boundary);
    OpeningIs(boundary);
    FormParts(preamble, parts, boundary, t);
    RestReceived(boundary, parts, t);
    var rest := OpeningRead(boundary, preamble, t, pieces);
    PlusNothing(t);
    CutsAgree(boundary, Start.(phase := Entry), "", rest, true);
  }

  /** What follows the opening delimiter line, in one piece. */
  lemma RestReceived(boundary: string, parts: seq<Part>, t: string)
    requires parts != [] && BoundaryCharsValid(boundary) && ProperParts(parts, boundary)
    requires PartsText(parts, boundary) == CRLF + t
    ensures
      var p := Feed(boundary, Start.(phase := Entry), t, true);
      && Orderly(boundary, Start.(phase := Entry), t, true, true)
      && if |parts| <= FILE_MAX_COUNT then
           p.ok && p.unread == "" && p.state.valid && p.state.received == MeantAll(parts)
         else !p.ok && p.state.received == MeantAll(parts)[..FILE_MAX_COUNT]
  {
    hide IsOrderly, Orderly, Feed, ProperParts, PartsText, BoundaryCharsValid;
    PartsReceived(boundary, Start.(phase := Boundary), parts);
    PlusNothing(MeantAll(parts));
    OrderlyEntry(boundary, Start.(phase := Boundary), t);
    OrderlyAsFirst(boundary, Start.(phase := Entry), t);
    if |parts| > FILE_MAX_COUNT {
      PlusNothing(MeantAll(parts)[..FILE_MAX_COUNT]);
    }
  }

  /** The first piece up to the end of the opening delimiter line is read. */
  lemma OpeningRead(boundary: string, preamble: string, t: string, pieces: seq<string>) returns (rest: seq<string>)
    requires pieces != [] && preamble + Opening(boundary) <= pieces[0]
    requires Concat(pieces) == preamble + Opening(boundary) + t
    requires Find(preamble + Opening(boundary), Opening(boundary)) == |preamble|
    ensures rest != [] && "" + Concat(rest) == t
    ensures FeedAll(boundary, Start, "", pieces) == FeedAll(boundary, Start.(phase := Entry), "", rest)
  {
    hide Feed, Find, Opening, Concat;
    var o := Opening(boundary);
    ConcatCons(pieces);
    OpeningPassed(preamble, o, pieces[0], Concat(pieces[1..]), t);
    var first := pieces[0][|preamble + o|..];
    PlusNothing(pieces[0]);
    PreambleFeed(boundary, pieces[0]);
    rest := [first] + pieces[1..];
    ConcatCons(rest);
    assert rest[1..] == pieces[1..];
    PlusNothing(first);
    PlusNothing(t);
  }

  lemma OpeningIs(boundary: string)
    ensures Opening(boundary) == "--" + boundary + CRLF
  {}

  lemma BehindOpening(parts: seq<Part>, boundary: string) returns (t: string)
    requires parts != []
    ensures PartsText(parts, boundary) == CRLF + t
  {
    hide HeadersText;
    var later := CRLF + "--" + boundary + PartsText(parts[1..], boundary);
    t := HeadersText(parts[0].headers) + (parts[0].content + later);
  }

  lemma FormParts(preamble: string, parts: seq<Part>, boundary: string, t: string)
    requires PartsText(parts, boundary) == CRLF + t
    ensures FormText(preamble, parts, boundary) == preamble + Opening(boundary) + t
  {
    hide PartsText;
    Assoc("--" + boundary, CRLF, t);
    Assoc(preamble, "--" + boundary + CRLF, t);
  }

  lemma OpeningPassed(preamble: string, o: string, first: string, rest: string, t: string)
    requires preamble + o <= first && first + rest == preamble + o + t && o != []
    requires Find(preamble + o, o) == |preamble|
    ensures first[|preamble + o|..] + rest == t
    ensures Find(first, o) == |preamble| && |preamble| < |first|
    ensures first[|preamble| + |o|..] == first[|preamble + o|..]
  {
    hide Find;
    var later := first[|preamble + o|..];
    assert first == preamble + o + later;
    assert first + rest == preamble + o + (later + rest);
    assert (first + rest)[|preamble + o|..] == (preamble + o + t)[|preamble + o|..] == t;
    FindAppend(preamble + o, later, o);
  }
}
