/** The parser of multipart form data, and the writer. */
module Multipart {
  // The callbacks are those of the server: the header callback starts a new part, unless there are too
  // many, and the content callback appends to the last one.

  import opened CLibrary
  import opened HttpText
  import opened Seqs

  datatype Item = Item(name: string, filename: string, contentType: string, content: string)

  const NoItem: Item := Item("", "", "", "")

  const CRLF: string := "\r\n"
  const DashCrlf: string := "--\r\n"

  /** `CPPHTTPLIB_HEADER_MAX_LENGTH` */
  const HEADER_MAX_LENGTH: nat := 8192

  function Opening(boundary: string): (s: string)
    ensures |s| == |boundary| + 4
  {
    "--" + boundary + CRLF
  }

  function Delimiter(boundary: string): (s: string)
    ensures |s| == |boundary| + 4 && s[0] == '\r'
  {
    CRLF + "--" + boundary
  }

  // ----- header lines -----

  /** A match of `"(.*?)"` after its first quote, followed by what `tail` accepts: the
      shortest text for which the rest matches. */
  function QuotedName(s: string, n: nat): (r: (bool, string, string))
    requires n <= |s|
    decreases |s| - n
  {
    if n < |s| && s[n] == '\"' && FilenameTail(s[n + 1..]).0 then (true, s[..n], FilenameTail(s[n + 1..]).1)
    else if n < |s| && s[n] != '\n' && s[n] != '\r' then QuotedName(s, n + 1)
    else (false, "", "")
  }

  /** The optional `; filename="..."`, then the end of the line. */
  function FilenameTail(s: string): (r: (bool, string))
  {
    var t := if s != [] && s[0] == ';' then SkipWhite(s[1..]) else "";
    if StartsIgnoringCase(t, "filename=\"") && QuotedFilename(t[10..], 0).0 then QuotedFilename(t[10..], 0)
    else (LineEnd(s), "")
  }

  function QuotedFilename(s: string, n: nat): (r: (bool, string))
    requires n <= |s|
    decreases |s| - n
  {
    if n < |s| && s[n] == '\"' && LineEnd(s[n + 1..]) then (true, s[..n])
    else if n < |s| && s[n] != '\n' && s[n] != '\r' then QuotedFilename(s, n + 1)
    else (false, "")
  }

  predicate AllWhite(s: string) { SkipWhite(s) == [] }

  function SkipDark(s: string): (r: string)
  {
    if s != [] && !IsSpace(s[0]) then SkipDark(s[1..]) else s
  }

  /** An optional `; filename*=...`, then only white space. */
  predicate LineEnd(s: string)
  {
    || AllWhite(s)
    || (s[0] == ';' &&
        var t := SkipWhite(s[1..]);
        StartsIgnoringCase(t, "filename*=") && |SkipDark(t[10..])| < |t[10..]| && AllWhite(SkipDark(t[10..])))
  }

  const DispositionWord: string := "content-disposition:"
  const FormDataWord: string := "form-data;"
  const NameWord: string := "name=\""

  /** The match of a whole header line with the content disposition pattern. */
  function MatchDisposition(line: string): (bool, string, string)
  {
    if !StartsIgnoringCase(line, DispositionWord) then (false, "", "")
    else
      var s := SkipWhite(line[20..]);
      if !StartsIgnoringCase(s, FormDataWord) then (false, "", "")
      else
        var t := SkipWhite(s[10..]);
        if !StartsIgnoringCase(t, NameWord) then (false, "", "") else QuotedName(t[6..], 0)
  }

  const ContentTypeWord: string := "content-type:"

  /** What one header line does to the current entry. */
  function ReadHeader(file: Item, line: string): Item
  {
    if StartsIgnoringCase(line, ContentTypeWord) then file.(contentType := Trim(line[13..]))
    else
      var (matched, name, filename) := MatchDisposition(line);
      if matched then file.(name := name, filename := filename) else file
  }

  // ----- one step of the parser -----

  datatype Phase = Preamble | Entry | Headers | Body | Boundary

  /** `offered` counts the calls of the header callback. */
  datatype State = State(phase: Phase, file: Item, received: seq<Item>, offered: nat, valid: bool)

  const Start: State := State(Preamble, NoItem, [], 0, false)

  /** `CPPHTTPLIB_MULTIPART_FORM_DATA_FILE_MAX_COUNT` */
  const FILE_MAX_COUNT: nat := 1024

  function WithPart(received: seq<Item>, file: Item): seq<Item>
  {
    received + [file.(content := "")]
  }

  /** The header callback accepts the part, */
  function Entered(st: State): State
  {
    st.(phase := Body, received := WithPart(st.received, st.file), offered := st.offered + 1)
  }

  /** or refuses it. */
  function Refused(st: State): State { st.(offered := st.offered + 1, valid := false) }

  /** The content callback. */
  function WithContent(received: seq<Item>, data: string): (r: seq<Item>)
    ensures |r| == |received|
  {
    if received == [] then []
    else
      var last := |received| - 1;
      received[..last] + [received[last].(content := received[last].content + data)]
  }

  /** Wait for more data, take `used` characters off the buffer, or give up. */
  datatype Outcome = Wait | Move(next: State, used: nat) | Refuse

  function Step(boundary: string, st: State, buf: string): (r: Outcome)
    requires buf != []
    ensures r.Move? ==> r.used <= |buf| && (r.used == 0 ==> st.phase == Entry && r.next.phase == Headers)
  {
    match st.phase
    case Preamble =>
      var n := Find(buf, Opening(boundary));
      if n == |buf| then Move(st, |buf|) else Move(st.(phase := Entry), n + |Opening(boundary)|)
    case Entry => Move(st.(phase := Headers, file := NoItem), 0)
    case Headers =>
      var n := Find(buf, CRLF);
      if n == |buf| then Wait
      else if n == 0 then (if st.offered == FILE_MAX_COUNT then Refuse else Move(Entered(st), 2))
      else Move(st.(file := ReadHeader(st.file, buf[..n])), n + 2)
    case Body =>
      var d := Delimiter(boundary);
      if |d| > |buf| then Wait
      else
        var n := Find(buf, d);
        if n < |buf| then Move(st.(phase := Boundary, received := WithContent(st.received, buf[..n])), n + |d|)
        else if |buf| == |d| then Wait
        else Move(st.(received := WithContent(st.received, buf[..|buf| - |d|])), |buf| - |d|)
    case Boundary =>
      if |buf| < 2 then Wait
      else if Occurs(buf, CRLF, 0) then Move(st.(phase := Entry), 2)
      else if |buf| < 4 then Wait
      else if Occurs(buf, DashCrlf, 0) then Move(st.(valid := true), |buf|)
      else Wait
  }

  /** The state and the unread text after a call, and what the call returned. */
  datatype Parsed = Parsed(state: State, unread: string, ok: bool)

  function PhaseRank(p: Phase): nat { if p.Entry? then 1 else 0 }

  /** One call of `parse`. The length of a header line is checked only for the first line a
      call sees (`first`), and for the first line of each entry. */
  function Feed(boundary: string, st: State, buf: string, first: bool): Parsed
    decreases |buf|, PhaseRank(st.phase)
  {
    if buf == [] then Parsed(st, buf, true)
    else if st.phase.Headers? && first && Find(buf, CRLF) > HEADER_MAX_LENGTH then Parsed(st, buf, false)
    else
      match Step(boundary, st, buf)
      case Wait => Parsed(st, buf, true)
      case Refuse => Parsed(Refused(st), buf, false)
      case Move(next, used) => Feed(boundary, next, buf[used..], !(st.phase.Headers? && next.phase.Headers?))
  }

  /** Successive calls, until one fails. */
  function FeedAll(boundary: string, st: State, buf: string, pieces: seq<string>): Parsed
    decreases |pieces|
  {
    if pieces == [] then Parsed(st, buf, true)
    else
      var p := Feed(boundary, st, buf + pieces[0], true);
      if p.ok then FeedAll(boundary, p.state, p.unread, pieces[1..]) else p
  }

  // ----- the writer -----

  function DispositionLine(item: Item): (s: string)
  {
    "Content-Disposition: form-data; name=\"" + item.name + "\"" +
    (if item.filename != [] then "; filename=\"" + item.filename + "\"" else "")
  }

  function ContentTypeLine(item: Item): string { "Content-Type: " + item.contentType }

  function HeaderText(item: Item): string
  {
    DispositionLine(item) + CRLF +
    (if item.contentType != [] then ContentTypeLine(item) + CRLF else "") + CRLF
  }

  function Serialize(items: seq<Item>, boundary: string): string
  {
    if items == [] then "--" + boundary + DashCrlf
    else
      Opening(boundary) + HeaderText(items[0]) + items[0].content + CRLF + Serialize(items[1..], boundary)
  }

  lemma ItemText(before: string, o: string, h: string, c: string, rest: string)
    ensures before + o + h + (c + CRLF) + rest == before + (o + h + c + CRLF + rest)
  {
    Assoc(o + h, c, CRLF);
    Assoc(before, o, h);
    Assoc(before, o + h, c + CRLF);
    Assoc(before, o + h + (c + CRLF), rest);
  }

  const ContentTypePrefix: string := "multipart/form-data; boundary="

  lemma SerializeFrom(items: seq<Item>, i: nat, boundary: string)
    requires i <= |items|
    ensures Serialize(items[i..], boundary) ==
      if i == |items| then "--" + boundary + DashCrlf
      else
        Opening(boundary) + HeaderText(items[i]) + items[i].content + CRLF + Serialize(items[i + 1..], boundary)
  {
    hide HeaderText, Opening;
    assert i < |items| ==> items[i..][1..] == items[i + 1..];
  }

  /** `serialize_multipart_formdata` */
  method SerializeFormData(items: seq<Item>, boundary: string) returns (body: string, contentType: string)
    ensures body == Serialize(items, boundary)
    ensures contentType == ContentTypePrefix + boundary
  {
    hide HeaderText, Opening, Serialize;
    body := "";
    assert items[0..] == items;
    PlusNothing(Serialize(items, boundary));
    var i := 0;
    while i < |items|
      invariant 0 <= i <= |items|
      invariant body + Serialize(items[i..], boundary) == Serialize(items, boundary)
    {
      SerializeFrom(items, i, boundary);
      var opening, header := Opening(boundary), HeaderText(items[i]);
      ItemText(body, opening, header, items[i].content, Serialize(items[i + 1..], boundary));
      body := body + opening;
      body := body + header;
      body := body + (items[i].content + CRLF);
      i := i + 1;
    }
    SerializeFrom(items, i, boundary);
    Assoc(body, "--", boundary);
    Assoc(body, "--" + boundary, DashCrlf);
    body := body + "--" + boundary + DashCrlf;
    contentType := ContentTypePrefix + boundary;
  }

  /** `parse_multipart_boundary` */
  function ParseBoundary(contentType: string): (bool, string)
  {
    var pos := Find(contentType, "boundary=");
    if pos == |contentType| then (false, "")
    else
      var b := contentType[pos + 9..];
      var plain := if |b| >= 2 && b[0] == '\"' && b[|b| - 1] == '\"' then b[1..|b| - 1] else b;
      (plain != [], plain)
  }

  // ----- the parser object -----

  class Parser {
    const boundary: string
    const dashBoundaryCrlf: string
    const crlfDashBoundary: string
    var phase: Phase
    var isValid: bool
    var file: Item
    var received: seq<Item>
    var offered: nat
    var buf: array<char>
    var spos: nat
    var epos: nat

    predicate Valid()
      reads this`spos, this`epos, this`buf
    {
      && spos <= epos <= buf.Length
      && dashBoundaryCrlf == Opening(boundary) && crlfDashBoundary == Delimiter(boundary)
    }

    /** The unread text. */
    function Window(): (w: string)
      requires Valid()
      reads this`spos, this`epos, this`buf, buf
      ensures |w| == epos - spos
    {
      buf[spos..epos]
    }

    function Current(): State
      reads this`phase, this`file, this`received, this`offered, this`isValid
    {
      State(phase, file, received, offered, isValid)
    }

    constructor (boundary: string)
      ensures Valid() && fresh(buf) && this.boundary == boundary
      ensures Current() == Start && Window() == ""
    {
      this.boundary := boundary;
      dashBoundaryCrlf := "--" + boundary + CRLF;
      crlfDashBoundary := CRLF + "--" + boundary;
      phase, isValid, file, received, offered := Preamble, false, NoItem, [], 0;
      buf := new char[0];
      spos, epos := 0, 0;
    }

    /** `buf_append`: the unread text moves to the front, in place. */
    method Append(data: string)
      requires Valid()
      modifies this`buf, this`spos, this`epos, buf
      ensures Valid() && (buf == old(buf) || fresh(buf))
      ensures Window() == old(Window()) + data
    {
      hide Window;
      MoveToFront();
      if epos + |data| > buf.Length {
        Resize(epos + |data|);
      }
      CopyIn(data);
    }

    method MoveToFront()
      requires Valid()
      modifies this`spos, this`epos, buf
      ensures Valid() && spos == 0 && Window() == old(Window())
    {
      ghost var text := Window();
      var remaining := epos - spos;
      if remaining > 0 && spos > 0 {
        var i := 0;
        while i < remaining
          modifies buf
          invariant 0 <= i <= remaining
          invariant forall k | 0 <= k < i :: buf[k] == text[k]
          invariant forall k | spos + i <= k < epos :: buf[k] == text[k - spos]
        {
          buf[i] := buf[spos + i];
          i := i + 1;
        }
      }
      spos, epos := 0, remaining;
    }

    method Resize(n: nat)
      requires Valid() && n > buf.Length
      modifies this`buf
      ensures Valid() && fresh(buf) && buf.Length == n && Window() == old(Window())
    {
      var bigger := new char[n];
      forall k | 0 <= k < buf.Length {
        bigger[k] := buf[k];
      }
      buf := bigger;
    }

    method CopyIn(data: string)
      requires Valid() && spos == 0 && epos + |data| <= buf.Length
      modifies this`epos, buf
      ensures Valid() && Window() == old(Window()) + data
    {
      var i := 0;
      while i < |data|
        modifies buf
        invariant 0 <= i <= |data|
        invariant forall k | 0 <= k < epos :: buf[k] == old(buf[k])
        invariant forall k | 0 <= k < i :: buf[epos + k] == data[k]
      {
        buf[epos + i] := data[i];
        i := i + 1;
      }
      epos := epos + |data|;
    }

    /** `buf_erase` */
    method Erase(n: nat)
      requires Valid() && n <= epos - spos
      modifies this`spos
      ensures Valid() && Window() == old(Window())[n..] && spos == old(spos) + n
    {
      ghost var w := Window();
      spos := spos + n;
      assert Window() == w[n..];
    }

    /** `buf_head` */
    method BufHead(n: nat) returns (s: string)
      requires Valid() && n <= epos - spos
      ensures s == Window()[..n]
    {
      s := buf[spos..spos + n];
      assert s == Window()[..n];
    }

    /** `start_with` at an absolute position of the buffer. */
    method StartsAt(at: nat, s: string) returns (r: bool)
      requires Valid() && spos <= at <= epos
      ensures r <==> Occurs(Window(), s, at - spos)
    {
      if epos - at < |s| {
        return false;
      }
      ghost var here := Window()[at - spos..at - spos + |s|];
      assert forall k | 0 <= k < |s| :: here[k] == buf[at + k];
      var i := 0;
      while i < |s|
        invariant 0 <= i <= |s|
        invariant forall k | 0 <= k < i :: buf[at + k] == s[k]
      {
        if buf[at + i] != s[i] {
          assert here[i] != s[i];
          return false;
        }
        i := i + 1;
      }
      return true;
    }

    /** `buf_find` */
    method FindText(s: string) returns (n: nat)
      requires Valid() && s != []
      ensures n == Find(Window(), s)
    {
      hide Find, Occurs;
      ghost var w := Window();
      var c, off := s[0], spos;
      while off < epos
        invariant spos <= off <= epos
        invariant forall i: nat | i < off - spos :: !Occurs(w, s, i)
        decreases epos - off
      {
        var pos := off;
        while pos < epos && buf[pos] != c
          invariant off <= pos <= epos
          invariant forall i: nat | i < pos - spos :: !Occurs(w, s, i)
          decreases epos - pos
        {
          NoFirst(w, s, pos - spos);
          pos := pos + 1;
        }
        if pos == epos {
          break;
        }
        if |s| > epos - pos {
          NoRoom(w, s, pos - spos);
          break;
        }
        var here := StartsAt(pos, s);
        if here {
          FindIs(w, s, pos - spos);
          return pos - spos;
        }
        off := pos + 1;
      }
      FindIs(w, s, epos - spos);
      return epos - spos;
    }

    /** The header callback of the server */
    method HeaderCallback() returns (accepted: bool)
      modifies this`received, this`offered
      ensures accepted == (old(offered) != FILE_MAX_COUNT) && offered == old(offered) + 1
      ensures received == if accepted then WithPart(old(received), file) else old(received)
    {
      accepted := offered != FILE_MAX_COUNT;
      offered := offered + 1;
      if accepted {
        received := WithPart(received, file);
      }
    }

    /** The blank line after the header lines */
    method EndHeaders() returns (accepted: bool)
      requires Valid() && 2 <= epos - spos
      modifies this`spos, this`phase, this`received, this`offered, this`isValid
      ensures Valid() && accepted == (old(offered) != FILE_MAX_COUNT)
      ensures accepted ==> Current() == Entered(old(Current())) && Window() == old(Window())[2..]
      ensures accepted ==> spos == old(spos) + 2
      ensures !accepted ==> Current() == Refused(old(Current())) && Window() == old(Window()) && spos == old(spos)
    {
      accepted := HeaderCallback();
      if accepted {
        Erase(|CRLF|);
        phase := Body;
      } else {
        isValid := false;
      }
    }

    /** The header state: the lines of one entry, up to the blank one. */
    method ParseHeaders(ghost start: Parsed) returns (ok: bool)
      requires Valid() && phase.Headers? && spos < epos
      requires Feed(boundary, Current(), Window(), true) == start
      modifies this`spos, this`phase, this`file, this`received, this`offered, this`isValid
      ensures Valid() && spos >= old(spos)
      ensures !ok ==> start == Parsed(Current(), Window(), false)
      ensures ok && phase.Body? ==> spos > old(spos) && start == Feed(boundary, Current(), Window(), true)
      ensures ok && !phase.Body? ==> start == Parsed(Current(), Window(), true)
    {
      hide Feed, ReadHeader, Find, Window, WithPart, Opening, Delimiter;
      HeaderStep(boundary, Current(), Window(), true);
      var pos := FindText(CRLF);
      if pos > HEADER_MAX_LENGTH {
        return false;
      }
      ghost var first := true;
      while pos < epos - spos
        invariant Valid() && phase.Headers? && spos >= old(spos)
        invariant pos == Find(Window(), CRLF) && (first ==> pos <= HEADER_MAX_LENGTH)
        invariant Feed(boundary, Current(), Window(), first) == start
        decreases epos - spos
      {
        HeaderStep(boundary, Current(), Window(), first);
        if pos == 0 {
          ok := EndHeaders();
          return;
        }
        var header := BufHead(pos);
        file := ReadHeader(file, header);
        Erase(pos + |CRLF|);
        first := false;
        pos := FindText(CRLF);
      }
      HeaderStep(boundary, Current(), Window(), first);
      return true;
    }

    /** The body state: content up to the delimiter, or all that cannot hold a part of it. */
    method ParseBody(ghost start: Parsed) returns (found: bool)
      requires Valid() && phase.Body? && spos < epos
      requires Feed(boundary, Current(), Window(), true) == start
      modifies this`spos, this`phase, this`received
      ensures Valid()
      ensures found ==> spos > old(spos) && start == Feed(boundary, Current(), Window(), true)
      ensures !found ==> start == Parsed(Current(), Window(), true)
    {
      hide Feed, Find, Window, Opening, WithContent, Delimiter;
      FeedUnfold(boundary, Current(), Window(), true);
      if |crlfDashBoundary| > epos - spos {
        return false;
      }
      var n := FindText(crlfDashBoundary);
      if n < epos - spos {
        FindRoom(Window(), crlfDashBoundary);
        var data := BufHead(n);
        received := WithContent(received, data);
        Erase(n + |crlfDashBoundary|);
        phase := Boundary;
        return true;
      }
      var len := epos - spos - |crlfDashBoundary|;
      if len > 0 {
        BodyRetained(boundary, Current(), Window());
        var data := BufHead(len);
        received := WithContent(received, data);
        Erase(len);
      }
      return false;
    }

    /** The state after a delimiter: another entry, the end, or neither. */
    method ParseBoundary(ghost start: Parsed) returns (moved: bool)
      requires Valid() && phase.Boundary? && spos < epos
      requires Feed(boundary, Current(), Window(), true) == start
      modifies this`spos, this`phase, this`isValid
      ensures Valid()
      ensures moved ==> spos > old(spos) && start == Feed(boundary, Current(), Window(), true)
      ensures !moved ==> start == Parsed(Current(), Window(), true)
    {
      hide Feed, Find, Window, Occurs, Opening, Delimiter;
      FeedUnfold(boundary, Current(), Window(), true);
      if |CRLF| > epos - spos {
        return false;
      }
      var more := StartsAt(spos, CRLF);
      if more {
        Erase(|CRLF|);
        phase := Entry;
        return true;
      }
      if |DashCrlf| > epos - spos {
        return false;
      }
      var last := StartsAt(spos, DashCrlf);
      if last {
        ghost var w := Window();
        Erase(|DashCrlf|);
        isValid := true;
        Erase(epos - spos);
        assert w[4..][|w| - 4..] == w[|w|..];
        return true;
      }
      return false;
    }

    /** The initial state: everything before the first delimiter line is dropped. */
    method ParsePreamble(ghost start: Parsed)
      requires Valid() && phase.Preamble? && spos < epos
      requires Feed(boundary, Current(), Window(), true) == start
      modifies this`spos, this`phase
      ensures Valid() && spos > old(spos) && start == Feed(boundary, Current(), Window(), true)
    {
      hide Feed, Find, Window, Opening, Delimiter;
      FeedUnfold(boundary, Current(), Window(), true);
      ghost var w := Window();
      var n := FindText(dashBoundaryCrlf);
      FindRoom(w, dashBoundaryCrlf);
      Erase(n);
      // A match found by the search is whole, so it starts the remaining text.
      if |dashBoundaryCrlf| <= epos - spos {
        Erase(|dashBoundaryCrlf|);
        phase := Entry;
        assert n < |w| ==> w[n..][|dashBoundaryCrlf|..] == w[n + |dashBoundaryCrlf|..];
      }
    }

    /** `parse` */
    method Parse(data: string) returns (ok: bool)
      requires Valid()
      modifies this, buf
      ensures Valid() && (buf == old(buf) || fresh(buf))
      ensures Feed(boundary, old(Current()), old(Window()) + data, true) == Parsed(Current(), Window(), ok)
    {
      hide Feed, Find, Window, Step;
      Append(data);
      ghost var start := Feed(boundary, Current(), Window(), true);
      while spos < epos
        invariant Valid() && (buf == old(buf) || fresh(buf))
        invariant Feed(boundary, Current(), Window(), true) == start
        decreases epos - spos, PhaseRank(phase)
      {
        match phase {
          case Preamble =>
            ParsePreamble(start);
          case Entry =>
            EntryStep(boundary, Current(), Window());
            file := NoItem;
            phase := Headers;
          case Headers =>
            ok := ParseHeaders(start);
            if !ok || !phase.Body? {
              return;
            }
          case Body =>
            var found := ParseBody(start);
            if !found {
              return true;
            }
          case Boundary =>
            var moved := ParseBoundary(start);
            if !moved {
              return true;
            }
        }
      }
      FeedUnfold(boundary, Current(), Window(), true);
      return true;
    }
  }

  lemma FindRoom(s: string, pattern: string)
    ensures Find(s, pattern) < |s| ==> Find(s, pattern) + |pattern| <= |s|
  {}

  lemma HeaderStep(boundary: string, st: State, buf: string, first: bool)
    requires st.phase.Headers?
    ensures
      var n := Find(buf, CRLF);
      && (n < |buf| ==> n + 2 <= |buf|)
      && Feed(boundary, st, buf, first) ==
         if first && n > HEADER_MAX_LENGTH then Parsed(st, buf, false)
         else if n == |buf| then Parsed(st, buf, true)
         else if n == 0 then
           (if st.offered == FILE_MAX_COUNT then Parsed(Refused(st), buf, false)
            else Feed(boundary, Entered(st), buf[2..], true))
         else Feed(boundary, st.(file := ReadHeader(st.file, buf[..n])), buf[n + 2..], false)
  {
    hide Feed, ReadHeader, WithPart;
    FeedUnfold(boundary, st, buf, first);
  }

  lemma EntryStep(boundary: string, st: State, buf: string)
    requires st.phase.Entry? && buf != []
    ensures Feed(boundary, st, buf, true) == Feed(boundary, st.(phase := Headers, file := NoItem), buf, true)
  {
    hide Feed;
    FeedUnfold(boundary, st, buf, true);
    assert buf[0..] == buf;
  }

  /** Content without a delimiter is handed over, but for as many characters as a delimiter has. */
  lemma BodyRetained(boundary: string, st: State, buf: string)
    requires st.phase.Body? && |Delimiter(boundary)| < |buf| && Find(buf, Delimiter(boundary)) == |buf|
    ensures
      var k := |buf| - |Delimiter(boundary)|;
      Feed(boundary, st, buf, true) == Parsed(st.(received := WithContent(st.received, buf[..k])), buf[k..], true)
  {
    hide Feed, Find, Delimiter, WithContent;
    var d := Delimiter(boundary);
    var k := |buf| - |d|;
    FindRetained(buf, "", d);
    assert buf + "" == buf && buf[k..] + "" == buf[k..];
    FeedUnfold(boundary, st, buf, true);
    FeedUnfold(boundary, st.(received := WithContent(st.received, buf[..k])), buf[k..], true);
  }

  lemma NoRoom(s: string, pattern: string, n: nat)
    requires n + |pattern| > |s| && forall i: nat | i < n :: !Occurs(s, pattern, i)
    ensures forall i: nat | i < |s| :: !Occurs(s, pattern, i)
  {}

  lemma FeedUnfold(boundary: string, st: State, buf: string, first: bool)
    ensures Feed(boundary, st, buf, first) ==
      if buf == [] then Parsed(st, buf, true)
      else if st.phase.Headers? && first && Find(buf, CRLF) > HEADER_MAX_LENGTH then Parsed(st, buf, false)
      else
        match Step(boundary, st, buf)
        case Wait => Parsed(st, buf, true)
        case Refuse => Parsed(Refused(st), buf, false)
        case Move(next, used) => Feed(boundary, next, buf[used..], !(st.phase.Headers? && next.phase.Headers?))
  {
    hide Step;
  }

  /** A reader that hands its pieces to the parser as they arrive. */
  method ParsePieces(boundary: string, pieces: seq<string>) returns (received: seq<Item>, valid: bool, ok: bool)
    ensures
      var p := FeedAll(boundary, Start, "", pieces);
      ok == p.ok && valid == p.state.valid && received == p.state.received
  {
    hide Feed;
    var parser := new Parser(boundary);
    ok := true;
    var i := 0;
    assert pieces[0..] == pieces;
    while ok && i < |pieces|
      invariant 0 <= i <= |pieces|
      invariant parser.Valid() && fresh(parser) && fresh(parser.buf) && parser.boundary == boundary
      invariant ok ==>
        FeedAll(boundary, parser.Current(), parser.Window(), pieces[i..]) == FeedAll(boundary, Start, "", pieces)
      invariant !ok ==> FeedAll(boundary, Start, "", pieces) == Parsed(parser.Current(), parser.Window(), false)
    {
      assert pieces[i..][0] == pieces[i] && pieces[i..][1..] == pieces[i + 1..];
      ok := parser.Parse(pieces[i]);
      i := i + 1;
    }
    received, valid := parser.received, parser.isValid;
  }
}
