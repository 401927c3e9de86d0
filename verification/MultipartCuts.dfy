/** How the cutting of a form into pieces matters. */
module MultipartCuts {
  import opened HttpText
  import opened Multipart
  import opened Seqs

  /** What two ways of reading the same text must agree on: whether a call failed, and the state,
      with all parts received. With `unreadToo`, also the text that is left in the buffer. */
  predicate Agree(p: Parsed, q: Parsed, unreadToo: bool)
  {
    p.ok == q.ok && p.state == q.state && (unreadToo && p.ok ==> p.unread == q.unread)
  }

  /** A header line that could be rejected when a piece ends inside it or right before it. */
  predicate TooLong(rest: string)
  {
    var n := Find(rest, CRLF);
    n > HEADER_MAX_LENGTH || (n == HEADER_MAX_LENGTH && n < |rest|)
  }

  /** Text behind the closing delimiter that is harmless. */
  predicate Quiet(epilogue: string, unreadToo: bool)
  {
    if unreadToo then epilogue == "" else Find(epilogue, CRLF) == |epilogue|
  }

  predicate Rejected(st: State, rest: string, first: bool)
  {
    st.phase.Headers? && first && Find(rest, CRLF) > HEADER_MAX_LENGTH
  }

  predicate Closing(st: State, rest: string)
  {
    st.phase.Boundary? && Occurs(rest, DashCrlf, 0)
  }

  /** No header line that the parser comes to is too long, unless it is rejected at once, and
      nothing of consequence follows the closing delimiter. */
  ghost predicate Orderly(boundary: string, st: State, rest: string, first: bool, unreadToo: bool)
    decreases |rest|, PhaseRank(st.phase)
  {
    if rest == [] || Rejected(st, rest, first) then true
    else if st.phase.Headers? && TooLong(rest) then false
    else if Closing(st, rest) then Quiet(rest[4..], unreadToo)
    else
      match Step(boundary, st, rest)
      case Wait => true
      case Refuse => true
      case Move(next, used) =>
        Orderly(boundary, next, rest[used..], !(st.phase.Headers? && next.phase.Headers?), unreadToo)
  }

  lemma OrderlyUnfold(boundary: string, st: State, rest: string, first: bool, unreadToo: bool)
    requires rest != [] && !Rejected(st, rest, first)
    ensures Orderly(boundary, st, rest, first, unreadToo) <==>
      if st.phase.Headers? && TooLong(rest) then false
      else if Closing(st, rest) then Quiet(rest[4..], unreadToo)
      else
        match Step(boundary, st, rest)
        case Wait => true
        case Refuse => true
        case Move(next, used) =>
          Orderly(boundary, next, rest[used..], !(st.phase.Headers? && next.phase.Headers?), unreadToo)
  {
    hide Step, Rejected, TooLong, Closing, Quiet;
  }

  /** Without a line that is too long, the length check never fires. */
  lemma FirstIsIrrelevant(boundary: string, st: State, rest: string, unreadToo: bool)
    requires Orderly(boundary, st, rest, false, unreadToo)
    ensures Orderly(boundary, st, rest, true, unreadToo)
    ensures Feed(boundary, st, rest, true) == Feed(boundary, st, rest, false)
  {
    hide Step, Find, Occurs, Quiet;
  }

  /** What the parser has come to: a state, the text it is going to read, and whether a header
      line at its start would be the first one of the call or of the entry. */
  datatype Moment = Moment(st: State, text: string, first: bool)

  function Outlook(boundary: string, m: Moment): Parsed { Feed(boundary, m.st, m.text, m.first) }

  /** The later moment is orderly too, and ends as the earlier one does. */
  ghost predicate SameFuture(boundary: string, a: Moment, b: Moment, unreadToo: bool)
  {
    && Agree(Outlook(boundary, a), Outlook(boundary, b), unreadToo)
    && Orderly(boundary, b.st, b.text, b.first, unreadToo)
  }

  /** The moment after a move. */
  function Moved(boundary: string, st: State, s: string): Moment
    requires s != [] && Step(boundary, st, s).Move?
  {
    var m := Step(boundary, st, s);
    Moment(m.next, s[m.used..], !(st.phase.Headers? && m.next.phase.Headers?))
  }

  lemma MoveKeepsFuture(boundary: string, st: State, s: string, first: bool, unreadToo: bool)
    requires s != [] && Orderly(boundary, st, s, first, unreadToo) && Step(boundary, st, s).Move?
    requires !Rejected(st, s, first) && !Closing(st, s)
    ensures Outlook(boundary, Moment(st, s, first)) == Outlook(boundary, Moved(boundary, st, s))
    ensures SameFuture(boundary, Moment(st, s, first), Moved(boundary, st, s), unreadToo)
  {
    hide Step, Feed, Orderly, Find, Occurs, Closing, Quiet, TooLong;
    OrderlyUnfold(boundary, st, s, first, unreadToo);
    FeedUnfold(boundary, st, s, first);
  }

  lemma ContentTwice(received: seq<Item>, a: string, b: string)
    ensures WithContent(WithContent(received, a), b) == WithContent(received, a + b)
  {
    if received != [] {
      var last := |received| - 1;
      assert WithContent(received, a)[..last] == received[..last];
      assert received[last].content + a + b == received[last].content + (a + b);
    }
  }

  /** In the body state, content may be handed over early. */
  lemma BodyMove(boundary: string, st: State, buf: string, c: string, first: bool, unreadToo: bool)
    requires st.phase.Body? && Orderly(boundary, st, buf + c, first, unreadToo)
    requires |Delimiter(boundary)| < |buf| && Find(buf, Delimiter(boundary)) == |buf|
    ensures
      var k := |buf| - |Delimiter(boundary)|;
      var next := st.(received := WithContent(st.received, buf[..k]));
      SameFuture(boundary, Moment(st, buf + c, first), Moment(next, buf[k..] + c, true), unreadToo)
  {
    hide Find, Occurs, Feed, Orderly, WithContent, Delimiter;
    var d := Delimiter(boundary);
    var k := |buf| - |d|;
    var s, t := buf + c, buf[k..] + c;
    var next := st.(received := WithContent(st.received, buf[..k]));
    FindRetained(buf, c, d);
    FindRoom(t, d);
    assert s[..k] == buf[..k] && s[k..] == t;
    MoveKeepsFuture(boundary, st, s, first, unreadToo);
    if Find(t, d) == |t| && |t| == |d| {
      return;
    }
    var m := if Find(t, d) < |t| then Find(t, d) else |t| - |d|;
    ContentTwice(st.received, buf[..k], t[..m]);
    assert s[..k + m] == buf[..k] + t[..m];
    var used := if Find(t, d) < |t| then m + |d| else m;
    assert s[k + used..] == t[used..];
    BodyLater(boundary, next, t, st, s, k, first, unreadToo);
  }

  /** Two body states one move away from the same state have the same future. */
  lemma BodyLater(
    boundary: string, next: State, t: string, st: State, s: string, k: nat, first: bool, unreadToo: bool)
    requires t != [] && s != [] && k <= |s| && s[k..] == t && st.phase.Body? && next.phase.Body?
    requires Orderly(boundary, st, s, first, unreadToo)
    requires
      var a, b := Step(boundary, st, s), Step(boundary, next, t);
      a.Move? && b.Move? && a.next == b.next && a.used == k + b.used
    ensures SameFuture(boundary, Moment(st, s, first), Moment(next, t, true), unreadToo)
  {
    hide Step, Feed, Orderly, Find, Occurs;
    var a, b := Step(boundary, st, s), Step(boundary, next, t);
    assert s[a.used..] == t[b.used..];
    MoveKeepsFuture(boundary, st, s, first, unreadToo);
    OrderlyUnfold(boundary, next, t, true, unreadToo);
    FeedUnfold(boundary, next, t, true);
  }

  lemma HeadersExtend(boundary: string, st: State, buf: string, c: string)
    requires buf != [] && st.phase.Headers? && Find(buf, CRLF) < |buf|
    ensures Step(boundary, st, buf + c) == Step(boundary, st, buf) && Find(buf + c, CRLF) == Find(buf, CRLF)
  {
    hide Find, ReadHeader, WithPart;
    FindAppend(buf, c, CRLF);
    FindRoom(buf, CRLF);
    assert (buf + c)[..Find(buf, CRLF)] == buf[..Find(buf, CRLF)];
  }

  lemma BodyExtends(boundary: string, st: State, buf: string, c: string)
    requires buf != [] && st.phase.Body? && Find(buf, Delimiter(boundary)) < |buf|
    ensures Step(boundary, st, buf).Move? && Step(boundary, st, buf + c) == Step(boundary, st, buf)
  {
    hide Find, WithContent, Delimiter;
    var d := Delimiter(boundary);
    FindAppend(buf, c, d);
    FindRoom(buf, d);
    assert (buf + c)[..Find(buf, d)] == buf[..Find(buf, d)];
  }

  lemma BoundaryExtends(boundary: string, st: State, buf: string, c: string)
    requires buf != [] && st.phase.Boundary? && Step(boundary, st, buf).Move? && !Closing(st, buf)
    ensures Step(boundary, st, buf + c) == Step(boundary, st, buf) && !Closing(st, buf + c)
  {
    hide Occurs;
    OccursAppend(buf, c, CRLF, 0);
    assert Occurs(buf, CRLF, 0);
    StartsOneWay(buf + c);
  }

  lemma StartsOneWay(s: string)
    ensures !(Occurs(s, CRLF, 0) && Occurs(s, DashCrlf, 0))
  {
    if |s| >= 4 {
      assert s[0..2][0] == s[0] && s[0..4][0] == s[0];
    }
  }

  /** Once the closing delimiter has been read, the text behind it changes nothing. */
  lemma QuietIgnored(boundary: string, st: State, c: string, unreadToo: bool)
    requires st.phase.Boundary? && Quiet(c, false)
    ensures Feed(boundary, st, c, true) == Parsed(st, c, true) && Orderly(boundary, st, c, true, unreadToo)
  {
    if c != [] {
      hide Find, Feed, Orderly, Quiet, Occurs;
      NoBreak(c);
      FeedUnfold(boundary, st, c, true);
      OrderlyUnfold(boundary, st, c, true, unreadToo);
    }
  }

  lemma NoBreak(c: string)
    requires c != [] && Quiet(c, false)
    ensures !Occurs(c, CRLF, 0) && !Occurs(c, DashCrlf, 0)
  {
    hide Find, Occurs;
    FindFirst(c, CRLF);
    assert !Occurs(c, CRLF, 0);
    if Occurs(c, DashCrlf, 0) {
      BreakInside(c);
      assert false;
    }
  }

  lemma BreakInside(c: string)
    requires Occurs(c, DashCrlf, 0)
    ensures |c| >= 4 && Occurs(c, CRLF, 2)
  {
    assert c[2..4] == c[0..4][2..];
  }

  lemma QuietTail(e: string, c: string, unreadToo: bool)
    requires Quiet(e + c, unreadToo)
    ensures Quiet(c, unreadToo) && Quiet(c, false)
  {
    if !unreadToo || e + c != [] {
      FindFirst(e + c, CRLF);
      var n := Find(c, CRLF);
      if n < |c| {
        assert (e + c)[|e|..] == c;
        OccursLater(e + c, CRLF, |e|, n);
      }
    }
  }

  /** The closing delimiter, in the first of two pieces. */
  lemma ClosingExtends(boundary: string, st: State, buf: string, c: string, first: bool, unreadToo: bool)
    requires Closing(st, buf) && Orderly(boundary, st, buf + c, first, unreadToo)
    ensures
      var next := st.(valid := true);
      && Feed(boundary, st, buf, first) == Parsed(next, "", true)
      && SameFuture(boundary, Moment(st, buf + c, first), Moment(next, "" + c, true), unreadToo)
  {
    hide Occurs, Feed, Orderly, Quiet, Find;
    var next := st.(valid := true);
    AtLeastFour(buf);
    OccursAppend(buf, c, DashCrlf, 0);
    OrderlyUnfold(boundary, st, buf + c, first, unreadToo);
    assert (buf + c)[4..] == buf[4..] + c && "" + c == c;
    QuietTail(buf[4..], c, unreadToo);
    ClosingFeed(boundary, st, buf, first);
    ClosingFeed(boundary, st, buf + c, first);
    QuietIgnored(boundary, next, c, unreadToo);
    NothingUnread(c, unreadToo);
  }

  lemma NothingUnread(c: string, unreadToo: bool)
    requires Quiet(c, unreadToo)
    ensures unreadToo ==> c == ""
  {}

  lemma AtLeastFour(s: string)
    requires Occurs(s, DashCrlf, 0)
    ensures |s| >= 4
  {}

  lemma ClosingFeed(boundary: string, st: State, s: string, first: bool)
    requires Closing(st, s)
    ensures Feed(boundary, st, s, first) == Parsed(st.(valid := true), "", true)
  {
    hide Occurs, Feed;
    AtLeastFour(s);
    StartsOneWay(s);
    FeedUnfold(boundary, st, s, first);
    assert s[|s|..] == "";
    FeedUnfold(boundary, st.(valid := true), "", true);
  }

  /** The same moment with more text behind it. */
  function Extended(m: Moment, c: string): Moment { m.(text := m.text + c) }

  /** A move made on the beginning of an orderly text. */
  lemma StepExtends(boundary: string, st: State, buf: string, c: string, first: bool, unreadToo: bool)
    requires buf != [] && !st.phase.Preamble? && Orderly(boundary, st, buf + c, first, unreadToo)
    requires Step(boundary, st, buf).Move? && !Rejected(st, buf, first) && !Closing(st, buf)
    ensures SameFuture(boundary, Moment(st, buf + c, first), Extended(Moved(boundary, st, buf), c), unreadToo)
  {
    hide Find, Occurs, Feed, Orderly, SameFuture, ReadHeader, WithPart, WithContent, Delimiter, Closing, Outlook;
    var s := buf + c;
    var m := Step(boundary, st, buf);
    assert s[m.used..] == buf[m.used..] + c;
    if st.phase.Body? && Find(buf, Delimiter(boundary)) == |buf| {
      BodyMove(boundary, st, buf, c, first, unreadToo);
      return;
    }
    match st.phase {
      case Entry =>
      case Headers =>
        HeadersExtend(boundary, st, buf, c);
      case Body =>
        BodyExtends(boundary, st, buf, c);
      case Boundary =>
        BoundaryExtends(boundary, st, buf, c);
    }
    OnlyBoundaryCloses(st, s);
    MoveKeepsFuture(boundary, st, s, first, unreadToo);
  }

  lemma OnlyBoundaryCloses(st: State, s: string)
    ensures Closing(st, s) ==> st.phase.Boundary?
  {}

  /** A line rejected in its first piece is rejected in the whole text. */
  lemma RejectedLater(boundary: string, st: State, buf: string, c: string, first: bool, unreadToo: bool)
    requires Rejected(st, buf, first) && Orderly(boundary, st, buf + c, first, unreadToo)
    ensures Rejected(st, buf + c, first)
  {
    hide Find, Orderly, Closing, Step, Quiet;
    var n := Find(buf + c, CRLF);
    if n <= HEADER_MAX_LENGTH {
      BreakIsLate(buf, c);
      OrderlyUnfold(boundary, st, buf + c, first, unreadToo);
    }
  }

  lemma BreakIsLate(buf: string, c: string)
    requires Find(buf, CRLF) > HEADER_MAX_LENGTH >= Find(buf + c, CRLF)
    ensures Find(buf + c, CRLF) == HEADER_MAX_LENGTH < |buf + c|
  {
    var n := Find(buf + c, CRLF);
    if n < HEADER_MAX_LENGTH {
      OccursAppend(buf, c, CRLF, n);
      FindFirst(buf, CRLF);
    }
  }

  lemma FeedRejected(boundary: string, st: State, s: string, first: bool)
    requires Rejected(st, s, first)
    ensures Feed(boundary, st, s, first) == Parsed(st, s, false)
  {
    hide Find, Feed;
    FeedUnfold(boundary, st, s, first);
    NothingFound();
  }

  lemma NothingFound()
    ensures Find("", CRLF) == 0
  {}

  lemma FutureOfFuture(boundary: string, a: Moment, b: Moment, c: Moment, unreadToo: bool)
    requires SameFuture(boundary, a, b, unreadToo) && SameFuture(boundary, b, c, unreadToo)
    ensures SameFuture(boundary, a, c, unreadToo)
  {
    hide Orderly, Outlook;
  }

  /** Waiting for more text makes a line the first one of the next call. */
  lemma FeedStays(boundary: string, st: State, s: string, first: bool, unreadToo: bool)
    requires Orderly(boundary, st, s, first, unreadToo)
    ensures SameFuture(boundary, Moment(st, s, first), Moment(st, s, true), unreadToo)
  {
    hide Orderly, Feed;
    if !first {
      FirstIsIrrelevant(boundary, st, s, unreadToo);
    }
  }

  /** Reading the first piece and then the rest is reading the whole. */
  lemma {:induction false} FeedInTwo(
    boundary: string, st: State, buf: string, c: string, first: bool, unreadToo: bool)
    requires !st.phase.Preamble? && Orderly(boundary, st, buf + c, first, unreadToo)
    ensures
      var p := Feed(boundary, st, buf, first);
      var whole := Moment(st, buf + c, first);
      if p.ok then
        !p.state.phase.Preamble? && SameFuture(boundary, whole, Moment(p.state, p.unread + c, true), unreadToo)
      else Agree(p, Outlook(boundary, whole), unreadToo)
    decreases |buf|, PhaseRank(st.phase)
  {
    hide Step, Feed, Orderly, Find, Occurs, Rejected, Closing, SameFuture;
    if Rejected(st, buf, first) {
      RejectedLater(boundary, st, buf, c, first, unreadToo);
      FeedRejected(boundary, st, buf, first);
      FeedRejected(boundary, st, buf + c, first);
    } else if Closing(st, buf) {
      ClosingExtends(boundary, st, buf, c, first, unreadToo);
    } else {
      NotRejected(boundary, st, buf, first);
      if buf == [] || Step(boundary, st, buf).Wait? {
        FeedStays(boundary, st, buf + c, first, unreadToo);
      } else if Step(boundary, st, buf).Refuse? {
        RefusedLater(boundary, st, buf, c, first);
      } else {
        var next := Moved(boundary, st, buf);
        StepExtends(boundary, st, buf, c, first, unreadToo);
        StaysInside(boundary, st, buf);
        OrderlyLater(boundary, Moment(st, buf + c, first), Extended(next, c), unreadToo);
        FeedInTwo(boundary, next.st, next.text, c, next.first, unreadToo);
        var p := Outlook(boundary, next);
        if p.ok {
          FutureOfFuture(boundary, Moment(st, buf + c, first), Extended(next, c), Moment(p.state, p.unread + c, true),
                         unreadToo);
        }
      }
    }
  }

  /** A part that is refused is refused in the whole text. */
  lemma RefusedLater(boundary: string, st: State, buf: string, c: string, first: bool)
    requires buf != [] && Step(boundary, st, buf).Refuse?
    ensures Feed(boundary, st, buf + c, first).state == Refused(st) && !Feed(boundary, st, buf + c, first).ok
  {
    hide Find, Feed;
    FindAppend(buf, c, CRLF);
    HeaderStep(boundary, st, buf + c, first);
  }

  lemma OrderlyLater(boundary: string, a: Moment, b: Moment, unreadToo: bool)
    requires SameFuture(boundary, a, b, unreadToo)
    ensures Orderly(boundary, b.st, b.text, b.first, unreadToo)
    ensures Agree(Outlook(boundary, a), Outlook(boundary, b), unreadToo)
  {}

  lemma NotRejected(boundary: string, st: State, s: string, first: bool)
    requires !Rejected(st, s, first)
    ensures
      Feed(boundary, st, s, first) ==
      if s == [] || Step(boundary, st, s).Wait? then Parsed(st, s, true)
      else if Step(boundary, st, s).Refuse? then Parsed(Refused(st), s, false)
      else Outlook(boundary, Moved(boundary, st, s))
  {
    hide Feed, Step, Find;
    FeedUnfold(boundary, st, s, first);
  }

  lemma StaysInside(boundary: string, st: State, buf: string)
    requires buf != [] && !st.phase.Preamble? && Step(boundary, st, buf).Move?
    ensures !Step(boundary, st, buf).next.phase.Preamble?
  {
    hide Find, Occurs;
  }

  /** Any cutting of an orderly text agrees with reading it in one piece. */
  lemma {:induction false} CutsAgree(boundary: string, st: State, buf: string, pieces: seq<string>, unreadToo: bool)
    requires !st.phase.Preamble? && pieces != [] && Orderly(boundary, st, buf + Concat(pieces), true, unreadToo)
    ensures Agree(FeedAll(boundary, st, buf, pieces), Feed(boundary, st, buf + Concat(pieces), true), unreadToo)
    decreases |pieces|
  {
    hide Feed, Orderly, SameFuture;
    var c := Concat(pieces[1..]);
    assert (buf + pieces[0]) + c == buf + Concat(pieces);
    var p := Feed(boundary, st, buf + pieces[0], true);
    FeedInTwo(boundary, st, buf + pieces[0], c, true, unreadToo);
    if p.ok {
      OrderlyLater(boundary, Moment(st, buf + Concat(pieces), true), Moment(p.state, p.unread + c, true), unreadToo);
      if |pieces| > 1 {
        CutsAgree(boundary, p.state, p.unread, pieces[1..], unreadToo);
      } else {
        assert c == [] && pieces[1..] == [];
        assert (buf + pieces[0]) + [] == buf + pieces[0];
      }
    }
  }

  // ----- texts that the cutting matters for -----

  predicate Heading(p: Phase) { p.Entry? || p.Headers? }

  /** No call of the header callback is taken back, leaving the header lines of an entry calls it,
      and after the first line of an entry nothing is rejected before it is called. */
  lemma {:induction false} Receives(boundary: string, st: State, buf: string, first: bool)
    ensures
      var p := Feed(boundary, st, buf, first);
      && p.state.offered >= st.offered
      && (Heading(st.phase) && !Heading(p.state.phase) ==> p.state.offered > st.offered)
      && (st.phase.Headers? && !first && !p.ok ==> p.state.offered > st.offered)
    decreases |buf|, PhaseRank(st.phase)
  {
    hide Feed, Step, Find, WithContent;
    FeedUnfold(boundary, st, buf, first);
    if buf != [] && !(st.phase.Headers? && first && Find(buf, CRLF) > HEADER_MAX_LENGTH) {
      var m := Step(boundary, st, buf);
      if m.Move? {
        StepReceives(boundary, st, buf);
        Receives(boundary, m.next, buf[m.used..], !(st.phase.Headers? && m.next.phase.Headers?));
      }
    }
  }

  lemma StepReceives(boundary: string, st: State, buf: string)
    requires buf != [] && Step(boundary, st, buf).Move?
    ensures
      var next := Step(boundary, st, buf).next;
      && next.offered >= st.offered
      && (st.phase.Entry? ==> next.phase.Headers?)
      && (st.phase.Headers? && !next.phase.Headers? ==> next.offered > st.offered)
  {
    hide Find, Occurs;
  }

  ghost predicate Cuts(pieces: seq<string>, s: string)
  {
    pieces != [] && Concat(pieces) == s && "" !in pieces
  }

  lemma TwoPieces(a: string, b: string)
    ensures a != "" && b != "" ==> Cuts([a, b], a + b)
  {
    OnePiece(b);
    assert [a, b][1..] == [b];
    assert Concat([a, b]) == a + Concat([b]);
  }

  lemma OnePiece(a: string)
    ensures Concat([a]) == a && (a != "" ==> Cuts([a], a))
  {
    assert [a][1..] == [];
    PlusNothing(a);
  }

  lemma TwoCalls(boundary: string, st: State, a: string, b: string)
    ensures
      var p := Feed(boundary, st, a, true);
      FeedAll(boundary, st, "", [a, b]) == if p.ok then Feed(boundary, p.state, p.unread + b, true) else p
  {
    hide Feed;
    PlusNothing(a);
    assert [a, b][1..] == [b];
    var p := Feed(boundary, st, a, true);
    OneCall(boundary, p.state, p.unread, b);
  }

  lemma OneCall(boundary: string, st: State, buf: string, a: string)
    ensures FeedAll(boundary, st, buf, [a]) == Feed(boundary, st, buf + a, true)
  {
    hide Feed;
    assert [a][1..] == [];
  }

  /** A line that is too long is rejected when a piece ends in the middle of its line break, or
      starts with it. */
  lemma LongLine(boundary: string, st: State, s: string, first: bool) returns (pieces: seq<string>)
    requires s != [] && st.phase.Headers? && !Rejected(st, s, first) && TooLong(s)
    ensures Cuts(pieces, s) && FeedAll(boundary, st, "", pieces).state == st && !FeedAll(boundary, st, "", pieces).ok
  {
    hide Find, Feed;
    var n := Find(s, CRLF);
    if n > HEADER_MAX_LENGTH {
      pieces := [s];
      OnePiece(s);
      OneCall(boundary, st, "", s);
      PlusNothing(s);
      FeedRejected(boundary, st, s, true);
    } else {
      FindRoom(s, CRLF);
      var line, rest := s[..n + 1], s[n + 1..];
      pieces := [line, rest];
      assert s == line + rest;
      TwoPieces(line, rest);
      TwoCalls(boundary, st, line, rest);
      LateBreak(s, n);
      FeedRejected(boundary, st, line, true);
    }
  }

  lemma LateBreak(s: string, n: nat)
    requires n == Find(s, CRLF) < |s|
    ensures n + 1 <= |s| && Find(s[..n + 1], CRLF) == n + 1
  {
    FindFirst(s, CRLF);
    var a, b := s[..n + 1], s[n + 1..];
    assert s == a + b;
    var m := Find(a, CRLF);
    if m < n + 1 {
      OccursAppend(a, b, CRLF, m);
    }
  }

  lemma WholeLater(boundary: string, st: State, s: string, first: bool)
    requires s != [] && st.phase.Headers? && !Rejected(st, s, first) && TooLong(s)
    ensures Feed(boundary, st, s, first).ok || Feed(boundary, st, s, first).state != st
  {
    hide Feed, Find, ReadHeader, WithPart;
    HeaderStep(boundary, st, s, first);
    var n := Find(s, CRLF);
    if n < |s| {
      Receives(boundary, st.(file := ReadHeader(st.file, s[..n])), s[n + 2..], false);
    }
  }

  /** Text behind the closing delimiter that is not quiet: it is taken for another entry, or
      stays in the buffer, when a piece starts with it. */
  lemma LoudEpilogue(boundary: string, st: State, s: string, first: bool, unreadToo: bool)
    returns (pieces: seq<string>)
    requires Closing(st, s) && |s| >= 4 && !Quiet(s[4..], unreadToo)
    ensures Cuts(pieces, s) && !Agree(FeedAll(boundary, st, "", pieces), Feed(boundary, st, s, first), unreadToo)
  {
    hide Find, Feed, FeedAll, Occurs, Quiet;
    var e := s[4..];
    var k := if Quiet(e, false) then 0 else Find(e, CRLF);
    LoudPlace(e, unreadToo);
    var front, back := s[..4 + k], e[k..];
    assert s[4 + k..] == back;
    assert s == front + back;
    pieces := [front, back];
    TwoPieces(front, back);
    TwoCalls(boundary, st, front, back);
    PlusNothing(back);
    ClosingFeed(boundary, st, s, first);
    assert Closing(st, front) by {
      OccursAppend(front, back, DashCrlf, 0);
    }
    ClosingFeed(boundary, st, front, true);
    var next := st.(valid := true);
    if Quiet(e, false) {
      assert back == e;
      QuietIgnored(boundary, next, e, false);
    } else {
      assert Occurs(back, CRLF, 0) by {
        OccursLater(e, CRLF, k, 0);
      }
      AnotherEntry(boundary, next, back);
    }
  }

  lemma LoudPlace(e: string, unreadToo: bool)
    requires !Quiet(e, unreadToo)
    ensures e != "" && (!Quiet(e, false) ==> Find(e, CRLF) < |e| && Occurs(e, CRLF, Find(e, CRLF)))
    ensures Quiet(e, false) ==> unreadToo
  {}

  lemma AnotherEntry(boundary: string, st: State, s: string)
    requires st.phase.Boundary? && Occurs(s, CRLF, 0)
    ensures Feed(boundary, st, s, true).ok ==> Feed(boundary, st, s, true).state != st
  {
    hide Find, Feed;
    FeedUnfold(boundary, st, s, true);
    Receives(boundary, st.(phase := Entry), s[2..], true);
  }

  /** A move that takes text off the buffer can be made alone. */
  lemma MoveAlone(boundary: string, st: State, s: string, pieces: seq<string>)
    requires s != [] && !st.phase.Preamble? && Step(boundary, st, s).Move? && !Closing(st, s)
    requires st.phase.Headers? ==> !TooLong(s)
    requires st.phase.Body? ==> Find(s, Delimiter(boundary)) < |s|
    requires Step(boundary, st, s).used > 0
    ensures
      var m := Step(boundary, st, s);
      FeedAll(boundary, st, "", [s[..m.used]] + pieces) == FeedAll(boundary, m.next, "", pieces)
  {
    hide Feed, Find, Occurs, ReadHeader, WithPart, WithContent, Delimiter;
    var m := Step(boundary, st, s);
    var front := s[..m.used];
    assert "" + front == front;
    AloneStep(boundary, st, s);
    NotRejected(boundary, st, front, true);
    assert front[m.used..] == "";
    NotRejected(boundary, m.next, "", !(st.phase.Headers? && m.next.phase.Headers?));
  }

  lemma FindInFront(s: string, pattern: string, k: nat)
    requires Find(s, pattern) < |s| && Find(s, pattern) + |pattern| <= k <= |s|
    ensures Find(s[..k], pattern) == Find(s, pattern)
  {
    hide Find, Occurs;
    var n, front, back := Find(s, pattern), s[..k], s[k..];
    assert s == front + back;
    FindFirst(s, pattern);
    forall i: nat | i <= n ensures Occurs(front, pattern, i) <==> Occurs(s, pattern, i) {
      OccursAppend(front, back, pattern, i);
    }
    assert forall i: nat | i < n :: !Occurs(front, pattern, i);
    FindIs(front, pattern, n);
  }

  lemma AloneStep(boundary: string, st: State, s: string)
    requires s != [] && !st.phase.Preamble? && Step(boundary, st, s).Move? && !Closing(st, s)
    requires st.phase.Headers? ==> !TooLong(s)
    requires st.phase.Body? ==> Find(s, Delimiter(boundary)) < |s|
    requires Step(boundary, st, s).used > 0
    ensures
      var m := Step(boundary, st, s);
      var front := s[..m.used];
      Step(boundary, st, front) == m && !Rejected(st, front, true)
  {
    hide Find, Occurs, ReadHeader, WithPart, WithContent, Delimiter;
    var m := Step(boundary, st, s);
    var front := s[..m.used];
    match st.phase {
      case Headers =>
        var n := Find(s, CRLF);
        FindRoom(s, CRLF);
        FindInFront(s, CRLF, n + 2);
        assert front == s[..n + 2] && front[..n] == s[..n];
      case Body =>
        var d := Delimiter(boundary);
        var n := Find(s, d);
        FindRoom(s, d);
        FindInFront(s, d, n + |d|);
        assert front[..n] == s[..n];
      case Boundary =>
        assert front + s[m.used..] == s;
        OccursAppend(front, s[m.used..], CRLF, 0);
    }
  }

  /** Content without a delimiter is orderly. */
  lemma ContentIsOrderly(boundary: string, st: State, s: string, first: bool, unreadToo: bool)
    requires st.phase.Body? && Find(s, Delimiter(boundary)) == |s|
    ensures Orderly(boundary, st, s, first, unreadToo)
  {
    hide Find, Occurs, Orderly, Delimiter, WithContent, Quiet;
    var d := Delimiter(boundary);
    if s != [] {
      OrderlyUnfold(boundary, st, s, first, unreadToo);
      if |d| < |s| {
        var k := |s| - |d|;
        FindRetained(s, "", d);
        assert s[k..] + "" == s[k..] && s + "" == s;
        OrderlyUnfold(boundary, st.(received := WithContent(st.received, s[..k])), s[k..], true, unreadToo);
      }
    } else {
      NothingIsOrderly(boundary, st, first, unreadToo);
    }
  }

  lemma NothingIsOrderly(boundary: string, st: State, first: bool, unreadToo: bool)
    ensures Orderly(boundary, st, "", first, unreadToo)
  {}

  /** A text that is not orderly has a cutting that makes a difference. */
  lemma {:induction false} CuttingMatters(boundary: string, st: State, s: string, first: bool, unreadToo: bool)
    returns (pieces: seq<string>)
    requires !st.phase.Preamble? && !Orderly(boundary, st, s, first, unreadToo)
    ensures Cuts(pieces, s) && !Agree(FeedAll(boundary, st, "", pieces), Feed(boundary, st, s, first), unreadToo)
    decreases |s|, PhaseRank(st.phase)
  {
    hide Step, Feed, FeedAll, Orderly, Find, Rejected, TooLong, Closing, Quiet, Cuts, Delimiter;
    RejectedIsOrderly(boundary, st, s, first, unreadToo);
    OrderlyUnfold(boundary, st, s, first, unreadToo);
    if st.phase.Headers? && TooLong(s) {
      pieces := LongLine(boundary, st, s, first);
      WholeLater(boundary, st, s, first);
    } else if Closing(st, s) {
      CloserLength(st, s);
      pieces := LoudEpilogue(boundary, st, s, first, unreadToo);
    } else {
      var next := Moved(boundary, st, s);
      var m := Step(boundary, st, s);
      StaysInside(boundary, st, s);
      NotRejected(boundary, st, s, first);
      var later := CuttingMatters(boundary, next.st, next.text, next.first, unreadToo);
      if m.used == 0 {
        pieces := later;
        assert s[0..] == s;
        EntryFirst(boundary, st, later, s);
      } else {
        if st.phase.Body? && Find(s, Delimiter(boundary)) == |s| {
          ContentIsOrderly(boundary, st, s, first, unreadToo);
          assert false;
        }
        pieces := [s[..m.used]] + later;
        MoveAlone(boundary, st, s, later);
        CutsCons(s[..m.used], later, next.text);
        assert s[..m.used] + s[m.used..] == s;
      }
    }
  }

  lemma RejectedIsOrderly(boundary: string, st: State, s: string, first: bool, unreadToo: bool)
    ensures s == [] || Rejected(st, s, first) ==> Orderly(boundary, st, s, first, unreadToo)
  {}

  lemma CloserLength(st: State, s: string)
    requires Closing(st, s)
    ensures |s| >= 4
  {}

  lemma CutsCons(front: string, pieces: seq<string>, rest: string)
    requires front != "" && Cuts(pieces, rest)
    ensures Cuts([front] + pieces, front + rest)
  {
    assert ([front] + pieces)[1..] == pieces;
  }

  lemma EntryFirst(boundary: string, st: State, pieces: seq<string>, s: string)
    requires s != "" && st.phase.Entry? && Cuts(pieces, s)
    ensures FeedAll(boundary, st, "", pieces) == FeedAll(boundary, Step(boundary, st, s).next, "", pieces)
  {
    hide Feed;
    assert pieces[0] in pieces;
    assert "" + pieces[0] == pieces[0];
    EntryStep(boundary, st, pieces[0]);
  }

  /** Once the opening delimiter has been seen, all cuttings of a text agree with reading it in
      one piece exactly when the text is orderly. */
  lemma CuttingIsIrrelevant(boundary: string, st: State, s: string, unreadToo: bool)
    requires !st.phase.Preamble?
    ensures
      (forall pieces | pieces != [] && Concat(pieces) == s ::
         Agree(FeedAll(boundary, st, "", pieces), Feed(boundary, st, s, true), unreadToo)) <==>
      Orderly(boundary, st, s, true, unreadToo)
  {
    hide Feed, FeedAll, Orderly, Concat, Agree;
    if Orderly(boundary, st, s, true, unreadToo) {
      forall pieces | pieces != [] && Concat(pieces) == s
        ensures Agree(FeedAll(boundary, st, "", pieces), Feed(boundary, st, s, true), unreadToo)
      {
        assert "" + Concat(pieces) == s;
        CutsAgree(boundary, st, "", pieces, unreadToo);
      }
    } else {
      var pieces := CuttingMatters(boundary, st, s, true, unreadToo);
    }
  }

  // ----- the opening delimiter -----

  /** The opening delimiter is found only inside one piece: as long as no piece holds it,
      everything is dropped and nothing is received. */
  lemma {:induction false} OpeningMustBeWhole(boundary: string, pieces: seq<string>)
    ensures
      var p := FeedAll(boundary, Start, "", pieces);
      p == Parsed(Start, "", true) <==> forall piece | piece in pieces :: Find(piece, Opening(boundary)) == |piece|
    decreases |pieces|
  {
    hide Find, Step, Feed, Opening;
    if pieces != [] {
      var piece := pieces[0];
      assert "" + piece == piece;
      PreambleFeed(boundary, piece);
      if Find(piece, Opening(boundary)) == |piece| {
        OpeningMustBeWhole(boundary, pieces[1..]);
        assert forall p | p in pieces :: p == piece || p in pieces[1..];
      } else {
        assert piece in pieces;
        var p := Feed(boundary, Start, piece, true);
        if p.ok {
          NeverBack(boundary, p.state, p.unread, pieces[1..]);
        }
      }
    }
  }

  lemma PreambleFeed(boundary: string, piece: string)
    ensures
      var p := Feed(boundary, Start, piece, true);
      var n := Find(piece, Opening(boundary));
      if n == |piece| then p == Parsed(Start, "", true)
      else
        && n + |Opening(boundary)| <= |piece|
        && p == Feed(boundary, Start.(phase := Entry), piece[n + |Opening(boundary)|..], true)
        && !p.state.phase.Preamble?
  {
    hide Find, Feed, Opening, Step;
    var n := Find(piece, Opening(boundary));
    FindRoom(piece, Opening(boundary));
    FeedUnfold(boundary, Start, "", true);
    if piece != [] {
      PreambleStep(boundary, Start, piece);
      FeedUnfold(boundary, Start, piece, true);
      if n < |piece| {
        NoWayBack(boundary, Start.(phase := Entry), piece[n + |Opening(boundary)|..], true);
      } else {
        assert piece[|piece|..] == "";
      }
    }
  }

  lemma PreambleStep(boundary: string, st: State, buf: string)
    requires st.phase.Preamble? && buf != []
    ensures
      var n := Find(buf, Opening(boundary));
      Step(boundary, st, buf) ==
      if n == |buf| then Move(st, |buf|) else Move(st.(phase := Entry), n + |Opening(boundary)|)
  {
    hide Find, Opening;
  }

  lemma {:induction false} NoWayBack(boundary: string, st: State, buf: string, first: bool)
    requires !st.phase.Preamble?
    ensures !Feed(boundary, st, buf, first).state.phase.Preamble?
    decreases |buf|, PhaseRank(st.phase)
  {
    hide Step, Find;
    if buf != [] && Step(boundary, st, buf).Move? {
      var m := Step(boundary, st, buf);
      StaysInside(boundary, st, buf);
      NoWayBack(boundary, m.next, buf[m.used..], !(st.phase.Headers? && m.next.phase.Headers?));
    }
  }

  lemma {:induction false} NeverBack(boundary: string, st: State, buf: string, pieces: seq<string>)
    requires !st.phase.Preamble?
    ensures !FeedAll(boundary, st, buf, pieces).state.phase.Preamble?
    decreases |pieces|
  {
    hide Feed;
    if pieces != [] {
      var p := Feed(boundary, st, buf + pieces[0], true);
      NoWayBack(boundary, st, buf + pieces[0], true);
      if p.ok {
        NeverBack(boundary, p.state, p.unread, pieces[1..]);
      }
    }
  }

  function Singles(s: string): (pieces: seq<string>)
    ensures forall p | p in pieces :: |p| == 1
    ensures s != "" ==> pieces != []
    ensures Concat(pieces) == s
  {
    if s == "" then []
    else
      assert s[..1] + s[1..] == s;
      [s[..1]] + Singles(s[1..])
  }

  /** From the start, all cuttings agree exactly when the text has no opening delimiter: cut
      into single characters, it is lost. */
  lemma OpeningDependsOnCutting(boundary: string, s: string)
    ensures
      (forall pieces | pieces != [] && Concat(pieces) == s ::
         FeedAll(boundary, Start, "", pieces) == Feed(boundary, Start, s, true)) <==>
      Find(s, Opening(boundary)) == |s|
  {
    hide Find, Feed, FeedAll, Opening;
    var o := Opening(boundary);
    PreambleFeed(boundary, s);
    if Find(s, o) == |s| {
      forall pieces | pieces != [] && Concat(pieces) == s
        ensures FeedAll(boundary, Start, "", pieces) == Feed(boundary, Start, s, true)
      {
        OpeningMustBeWhole(boundary, pieces);
        forall piece | piece in pieces ensures Find(piece, o) == |piece| {
          InNoPiece(s, o, pieces, piece);
        }
      }
    } else {
      var pieces := Singles(s);
      OpeningMustBeWhole(boundary, pieces);
      forall piece | piece in pieces ensures Find(piece, o) == |piece| {
        FindShort(piece, o);
      }
    }
  }

  /** What a whole text lacks, its pieces lack. */
  lemma {:induction false} InNoPiece(s: string, pattern: string, pieces: seq<string>, piece: string)
    requires Concat(pieces) == s && piece in pieces && Find(s, pattern) == |s|
    ensures Find(piece, pattern) == |piece|
  {
    hide Find, Occurs;
    var rest := Concat(pieces[1..]);
    FindFirst(s, pattern);
    if piece == pieces[0] {
      var n := Find(piece, pattern);
      if n < |piece| {
        FindRoom(piece, pattern);
        OccursAppend(piece, rest, pattern, n);
      }
    } else {
      var k, n := |pieces[0]|, Find(rest, pattern);
      assert s[k..] == rest;
      if n < |rest| {
        OccursLater(s, pattern, k, n);
      }
      InNoPiece(rest, pattern, pieces[1..], piece);
    }
  }

  // ----- the bound on header lines -----

  /** A header line is accepted however much of it has arrived exactly when it is shorter than
      the limit. A line of the maximal length is rejected when a piece ends inside its line
      break, although it is accepted as a whole. */
  lemma LimitDependsOnCutting(boundary: string, st: State, line: string)
    requires st.phase.Headers? && '\r' !in line && '\n' !in line && (line != "" || st.offered != FILE_MAX_COUNT)
    ensures
      (forall k: nat | k <= |line| + 2 :: Feed(boundary, st, (line + CRLF)[..k], true).ok) <==>
      |line| < HEADER_MAX_LENGTH
    ensures Feed(boundary, st, line + CRLF, true).ok <==> |line| <= HEADER_MAX_LENGTH
  {
    hide Feed, Find;
    var s, n := line + CRLF, |line|;
    forall k: nat | k <= n + 2
      ensures Feed(boundary, st, s[..k], true).ok <==> (if k == n + 2 then n else k) <= HEADER_MAX_LENGTH
    {
      LinePart(boundary, st, line, k, true);
    }
    assert s[..n + 2] == s;
    if n >= HEADER_MAX_LENGTH {
      assert !Feed(boundary, st, s[..n + 1], true).ok;
    }
  }

  /** The beginning of a line, at the start of a call or after another line. */
  lemma LinePart(boundary: string, st: State, line: string, k: nat, first: bool)
    requires st.phase.Headers? && '\r' !in line && '\n' !in line && k <= |line| + 2
    requires line != "" || st.offered != FILE_MAX_COUNT
    ensures
      Feed(boundary, st, (line + CRLF)[..k], first).ok <==>
      !(first && (if k == |line| + 2 then |line| else k) > HEADER_MAX_LENGTH)
  {
    hide Feed, Find, ReadHeader, WithPart;
    var s := (line + CRLF)[..k];
    HeaderStep(boundary, st, s, first);
    if k < |line| + 2 {
      NoBreakYet(line, k);
    } else {
      FindAfter(line, CRLF, CRLF);
      FindAtStart(CRLF, "");
      assert CRLF + "" == CRLF && s == line + CRLF && s[|line| + 2..] == "";
      NothingToRead(boundary, st.(file := ReadHeader(st.file, s[..|line|])), "", false);
      NothingToRead(boundary, Entered(st), "", true);
    }
  }

  lemma NothingToRead(boundary: string, st: State, s: string, first: bool)
    requires s == ""
    ensures Feed(boundary, st, s, first) == Parsed(st, s, true)
  {}

  lemma NoBreakYet(line: string, k: nat)
    requires '\r' !in line && k < |line| + 2
    ensures Find((line + CRLF)[..k], CRLF) == k
  {
    var s := (line + CRLF)[..k];
    forall i: nat | i < k ensures !Occurs(s, CRLF, i) {
      if i < |line| {
        NoFirst(s, CRLF, i);
      }
    }
    FindIs(s, CRLF, k);
  }

  /** The same for a line that follows another one: in one call with it, the line is accepted
      whatever its length, but in a call of its own it has to be shorter than the limit. */
  lemma LaterLineDependsOnCutting(boundary: string, st: State, before: string, line: string)
    requires st.phase.Headers? && before != "" && '\r' !in before && |before| <= HEADER_MAX_LENGTH
    requires '\r' !in line && '\n' !in line && (line != "" || st.offered != FILE_MAX_COUNT)
    ensures forall k: nat | k <= |line| + 2 :: Feed(boundary, st, before + CRLF + (line + CRLF)[..k], true).ok
    ensures
      (forall k: nat | k <= |line| + 2 :: FeedAll(boundary, st, "", [before + CRLF, (line + CRLF)[..k]]).ok) <==>
      |line| < HEADER_MAX_LENGTH
  {
    hide Feed, Find, FeedAll, ReadHeader;
    var next := st.(file := ReadHeader(st.file, before));
    forall k: nat | k <= |line| + 2
      ensures Feed(boundary, st, before + CRLF + (line + CRLF)[..k], true).ok
      ensures FeedAll(boundary, st, "", [before + CRLF, (line + CRLF)[..k]]).ok <==>
              Feed(boundary, next, (line + CRLF)[..k], true).ok
    {
      var t := (line + CRLF)[..k];
      LineThen(boundary, st, before, t);
      LinePart(boundary, next, line, k, false);
      InTwoCalls(boundary, st, before, t);
    }
    LimitDependsOnCutting(boundary, next, line);
  }

  lemma LineThen(boundary: string, st: State, before: string, t: string)
    requires st.phase.Headers? && before != "" && '\r' !in before && |before| <= HEADER_MAX_LENGTH
    ensures
      Feed(boundary, st, before + CRLF + t, true) ==
      Feed(boundary, st.(file := ReadHeader(st.file, before)), t, false)
  {
    hide Feed, Find, ReadHeader;
    var s := before + CRLF + t;
    assert s == before + (CRLF + t);
    FindAfter(before, CRLF + t, CRLF);
    FindAtStart(CRLF, t);
    HeaderStep(boundary, st, s, true);
    assert s[..|before|] == before && s[|before| + 2..] == t;
  }

  lemma InTwoCalls(boundary: string, st: State, before: string, t: string)
    requires st.phase.Headers? && before != "" && '\r' !in before && |before| <= HEADER_MAX_LENGTH
    ensures
      FeedAll(boundary, st, "", [before + CRLF, t]).ok <==>
      Feed(boundary, st.(file := ReadHeader(st.file, before)), t, true).ok
  {
    hide Feed, Find, ReadHeader;
    LineThen(boundary, st, before, "");
    PlusNothing(before + CRLF);
    PlusNothing(t);
    NothingToRead(boundary, st.(file := ReadHeader(st.file, before)), "", false);
    TwoCalls(boundary, st, before + CRLF, t);
  }
}
