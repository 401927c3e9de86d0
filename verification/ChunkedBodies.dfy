/** Which inputs the chunked reader accepts. */
module ChunkedBodies {
  import opened CLibrary
  import opened HttpText
  import opened Seqs
  import opened Chunked

  /** A chunk as it arrives: its line, which may hold more than the length, and its data. */
  datatype RawChunk = RawChunk(line: string, data: string)

  predicate WholeLineOf(line: string)
  {
    line != "" && line[|line| - 1] == '\n' && '\n' !in line[..|line| - 1]
  }

  /** A line that the reader takes the length `n` from. It may start with white space, a sign or
      `0x`, hold any text behind the digits, and end with a bare line feed. */
  predicate SizeLine(line: string, n: nat)
  {
    WholeLineOf(line) && Strtoul16(line) == (true, n)
  }

  /** The form of a body: chunks with data, each closed by a line break, then a chunk of length
      zero and a line break. */
  predicate ValidChunks(chunks: seq<RawChunk>)
  {
    forall c | c in chunks :: 0 < |c.data| < UINT64_MAX && SizeLine(c.line, |c.data|)
  }

  function Text(chunks: seq<RawChunk>): string
  {
    if chunks == [] then "" else chunks[0].line + (chunks[0].data + (LineBreak + Text(chunks[1..])))
  }

  function Data(chunks: seq<RawChunk>): string
  {
    if chunks == [] then "" else chunks[0].data + Data(chunks[1..])
  }

  ghost predicate IsBody(s: string, chunks: seq<RawChunk>, last: string, rest: string)
  {
    ValidChunks(chunks) && SizeLine(last, 0) && s == Text(chunks) + (last + (LineBreak + rest))
  }

  /** The input starts with a whole body, terminator included. */
  ghost predicate Terminated(s: string)
  {
    exists chunks, last, rest :: IsBody(s, chunks, last, rest)
  }

  /** No data of a chunk is followed by anything else than a line break. */
  predicate AllEnded(s: string)
    decreases |s|
  {
    var line := Line(s);
    var rest := s[|line|..];
    var (converted, n) := Strtoul16(line);
    (converted && 0 < n < UINT64_MAX && n < |rest|) ==> (LineBreak <= rest[n..] && AllEnded(rest[n + 2..]))
  }

  lemma EndedUnfold(s: string)
    ensures AllEnded(s) <==>
      var line := Line(s);
      var rest := s[|line|..];
      var (converted, n) := Strtoul16(line);
      (converted && 0 < n < UINT64_MAX && n < |rest|) ==> (LineBreak <= rest[n..] && AllEnded(rest[n + 2..]))
  {
    hide Line, Strtoul16;
  }

  lemma LineIs(line: string, t: string)
    requires WholeLineOf(line)
    ensures Line(line + t) == line && (line + t)[|line|..] == t
  {
    var text := line[..|line| - 1];
    assert line == text + ['\n'];
    EndOfLine(text, t);
  }

  /** A line is whole, or nothing follows it. */
  lemma LineIsWhole(s: string)
    ensures s[|Line(s)|..] != "" ==> WholeLineOf(Line(s))
  {}

  lemma BreakIsLine(s: string)
    ensures Line(s) == LineBreak <==> LineBreak <= s
  {
    if LineBreak <= s {
      assert s == LineBreak + s[2..];
      LineIs(LineBreak, s[2..]);
    }
  }

  /** The data of a chunk and its line break. */
  lemma SplitData(data: string, later: string)
    ensures
      var after := data + (LineBreak + later);
      && after[..|data|] == data && after[|data|..] == LineBreak + later && after[|data| + 2..] == later
      && (LineBreak + later)[2..] == later && Line(LineBreak + later) == LineBreak
  {
    assert LineBreak <= LineBreak + later;
    BreakIsLine(LineBreak + later);
  }

  /** One chunk is read, and reading goes on behind it. */
  lemma DecodeRaw(line: string, data: string, later: string)
    requires 0 < |data| < UINT64_MAX && SizeLine(line, |data|)
    ensures
      var s := line + (data + (LineBreak + later));
      Decode(s) == WithData(data, Decode(later)) && (AllEnded(s) <==> AllEnded(later))
  {
    hide Decode, DecodeAfter, DecodeChunk, Strtoul16, Line, AllEnded, WholeLineOf;
    var after := data + (LineBreak + later);
    SplitData(data, later);
    LineIs(line, after);
    DecodeUnfold(line + after);
    AfterUnfold(line, after);
    ChunkUnfold(|data|, after);
    EndedUnfold(line + after);
  }

  /** The chunk of length zero and its line break are read, and nothing more. */
  lemma DecodeLast(last: string, rest: string)
    requires SizeLine(last, 0)
    ensures
      var s := last + (LineBreak + rest);
      Decode(s) == Reading(true, "", rest) && AllEnded(s)
  {
    hide Decode, DecodeAfter, DecodeChunk, Strtoul16, Line, AllEnded, WholeLineOf;
    var end := LineBreak + rest;
    SplitData("", rest);
    LineIs(last, end);
    DecodeUnfold(last + end);
    AfterUnfold(last, end);
    EndedUnfold(last + end);
  }

  /** A whole body is read whole: all its data, and nothing behind it. */
  lemma {:induction false} DecodeBody(chunks: seq<RawChunk>, last: string, rest: string)
    requires ValidChunks(chunks) && SizeLine(last, 0)
    ensures
      var s := Text(chunks) + (last + (LineBreak + rest));
      Decode(s) == Reading(true, Data(chunks), rest) && AllEnded(s)
  {
    hide Decode, AllEnded, SizeLine;
    var end := last + (LineBreak + rest);
    if chunks == [] {
      PlusNothing(end);
      DecodeLast(last, rest);
    } else {
      var c := chunks[0];
      assert c in chunks && ValidChunks(chunks[1..]);
      DecodeBody(chunks[1..], last, rest);
      TextCons(c.line, c.data, Text(chunks[1..]), end);
      DecodeRaw(c.line, c.data, Text(chunks[1..]) + end);
    }
  }

  lemma TextCons(line: string, data: string, later: string, end: string)
    ensures line + (data + (LineBreak + later)) + end == line + (data + (LineBreak + (later + end)))
  {
    Assoc(LineBreak, later, end);
    Assoc(data, LineBreak + later, end);
    Assoc(line, data + (LineBreak + later), end);
  }

  /** The end of an accepted input, or its first chunk. */
  lemma AcceptedStep(s: string) returns (line: string, data: string, later: string)
    requires Decode(s).ok && AllEnded(s)
    ensures SizeLine(line, |data|) && |data| < UINT64_MAX
    ensures s == line + (data + (LineBreak + later)) && |later| < |s|
    ensures data != "" ==> Decode(later).ok && AllEnded(later)
  {
    hide Decode, DecodeAfter, DecodeChunk, Strtoul16, Line, AllEnded, WholeLineOf;
    DecodeUnfold(s);
    line := Line(s);
    var after := s[|line|..];
    AfterUnfold(line, after);
    EndedUnfold(s);
    LineIsWhole(s);
    var n := Strtoul16(line).1;
    if n > 0 {
      ChunkUnfold(n, after);
    }
    data, later := after[..n], after[n + 2..];
    BreakIsLine(after[n..]);
    assert after[n..] == LineBreak + later && after == data + after[n..] && after[n..][2..] == later;
  }

  /** An accepted input in which every chunk is ended is a whole body. */
  lemma {:induction false} AcceptedBody(s: string) returns (chunks: seq<RawChunk>, last: string, rest: string)
    requires Decode(s).ok && AllEnded(s)
    ensures IsBody(s, chunks, last, rest)
    decreases |s|
  {
    hide Decode, AllEnded, SizeLine;
    var line, data, later := AcceptedStep(s);
    if data == "" {
      chunks, last, rest := [], line, later;
      PlusNothing(LineBreak + later);
      PlusNothing(s);
    } else {
      var more;
      more, last, rest := AcceptedBody(later);
      chunks := [RawChunk(line, data)] + more;
      assert chunks[1..] == more;
      TextCons(line, data, Text(more), last + (LineBreak + rest));
    }
  }

  /** The reader accepts every whole body. Of the inputs it accepts, the whole bodies are
      exactly those in which each chunk is followed by a line break. */
  lemma AcceptedMeans(s: string)
    ensures Terminated(s) <==> Decode(s).ok && AllEnded(s)
    ensures
      forall chunks, last, rest | IsBody(s, chunks, last, rest) :: Decode(s) == Reading(true, Data(chunks), rest)
  {
    hide Decode, AllEnded, Text, ValidChunks, SizeLine;
    forall chunks, last, rest | IsBody(s, chunks, last, rest)
      ensures Decode(s) == Reading(true, Data(chunks), rest) && AllEnded(s)
    {
      DecodeBody(chunks, last, rest);
    }
    if Decode(s).ok && AllEnded(s) {
      var chunks, last, rest := AcceptedBody(s);
    }
  }

  // ----- strict bodies -----

  function HexDigits(line: string): (n: nat)
    ensures n <= |line|
  {
    Span((c: char) => IsHexDigit(c), line)
  }

  /** A line that section 7.1 of RFC 9112 allows: hexadecimal digits, perhaps an extension, and a
      line break. */
  predicate StrictLine(line: string)
  {
    var d := HexDigits(line);
    && WholeLineOf(line) && 0 < d <= |line| - 2 && line[|line| - 2] == '\r'
    && (d == |line| - 2 || line[d] in {';', ' ', '\t'})
  }

  /** From such a line the reader takes the value of its digits. */
  lemma StrictValue(line: string)
    requires StrictLine(line)
    ensures AllDigits(line[..HexDigits(line)], 16)
    ensures
      var n := FromBase(line[..HexDigits(line)], 16);
      Strtoul16(line) == (true, if n > UINT64_MAX then UINT64_MAX else n)
  {
    hide FromBase, Strtoul16, CString, WholeLineOf, Span;
    var d := HexDigits(line);
    BeforeNul(line, d);
    var t := CString(line);
    assert t == line[..d] + t[d..];
    DigitsThen(line, line[..d], t[d..]);
  }

  lemma DigitsThen(line: string, hex: string, more: string)
    requires hex != "" && AllDigits(hex, 16) && CString(line) == hex + more
    requires more != "" && !IsHexDigit(more[0]) && more[0] !in {'x', 'X'}
    ensures
      var n := FromBase(hex, 16);
      Strtoul16(line) == (true, if n > UINT64_MAX then UINT64_MAX else n)
  {
    hide FromBase, CString, SkipWhite, Span;
    var t := hex + more;
    assert hex[0] in hex && t[0] == hex[0] && t[1] == (if |hex| > 1 then hex[1] else more[0]);
    assert |hex| > 1 ==> hex[1] in hex;
    NoWhite(t);
    SpanIs((c: char) => IsHexDigit(c), hex, more);
    assert t[..|hex|] == hex;
  }

  /** What else the reader takes a length from: white space, a sign and `0x` may come before the digits,
      and anything that is not a digit behind them. A minus sign negates the number, which is
      kept to 64 bits. */
  lemma LooseValue(white: string, sign: string, prefix: string, hex: string, more: string)
    requires (forall c | c in white :: c in {' ', '\t', '\n', '\r', 11 as char, 12 as char})
    requires sign in {"", "+", "-"} && prefix in {"", "0x", "0X"}
    requires hex != "" && AllDigits(hex, 16) && (more == "" || (!IsHexDigit(more[0]) && more[0] !in {'x', 'X'}))
    requires '\0' !in more
    ensures
      var n := FromBase(hex, 16);
      Strtoul16(white + (sign + (prefix + (hex + more)))) ==
      if n > UINT64_MAX then (true, UINT64_MAX)
      else if sign == "-" && n > 0 then (true, UINT64_MAX + 1 - n)
      else (true, n)
  {
    hide FromBase, CString, SkipWhite, Span, Strtoul16, AllDigits;
    var u := prefix + (hex + more);
    var s := sign + u;
    HexFirst(prefix, hex, more);
    NoNulHere(white, sign, prefix, hex, more);
    assert u[0] == s[|sign|] && !IsSpace(s[0]) && (sign == "" ==> s[0] !in {'+', '-'});
    AllWhiteSkipped(white, s);
    assert sign != "" ==> s[1..] == u;
    assert prefix != "" ==> u[2..] == hex + more;
    assert prefix == "" ==> u == hex + more;
    assert sign == "" ==> s == u;
    DigitsRead(white + s, s, u, hex, more);
  }

  /** The value of the digits, when the sign and the prefix have been passed over. */
  lemma DigitsRead(line: string, s: string, u: string, hex: string, more: string)
    requires SkipWhite(CString(line)) == s && s != "" && u == (if s[0] == '+' || s[0] == '-' then s[1..] else s)
    requires
      var prefixed := |u| >= 3 && u[0] == '0' && (u[1] == 'x' || u[1] == 'X') && IsHexDigit(u[2]);
      hex + more == if prefixed then u[2..] else u
    requires hex != "" && AllDigits(hex, 16) && (more == "" || !IsHexDigit(more[0]))
    ensures
      var n := FromBase(hex, 16);
      Strtoul16(line) ==
      if n > UINT64_MAX then (true, UINT64_MAX)
      else if s[0] == '-' then (true, (UINT64_MAX + 1 - n) % (UINT64_MAX + 1))
      else (true, n)
  {
    hide FromBase, CString, SkipWhite, Span;
    SpanIs((c: char) => IsHexDigit(c), hex, more);
    assert (hex + more)[..|hex|] == hex;
  }

  lemma HexFirst(prefix: string, hex: string, more: string)
    requires prefix in {"", "0x", "0X"} && hex != "" && AllDigits(hex, 16)
    requires more == "" || (!IsHexDigit(more[0]) && more[0] !in {'x', 'X'})
    ensures
      var u := prefix + (hex + more);
      && IsHexDigit(u[0]) && |u| > 0
      && ((|u| >= 3 && u[0] == '0' && (u[1] == 'x' || u[1] == 'X') && IsHexDigit(u[2])) <==> prefix != "")
  {
    var u := prefix + (hex + more);
    assert hex[0] in hex && (|hex| > 1 ==> hex[1] in hex);
    if prefix == "" {
      assert u[0] == hex[0] && (|hex| > 1 ==> u[1] == hex[1]) && (|hex| == 1 && |u| > 1 ==> u[1] == more[0]);
    } else {
      assert u[0] == '0' && u[1] == prefix[1] && u[2] == hex[0];
    }
  }

  lemma NoNulHere(white: string, sign: string, prefix: string, hex: string, more: string)
    requires (forall c | c in white :: c in {' ', '\t', '\n', '\r', 11 as char, 12 as char})
    requires sign in {"", "+", "-"} && prefix in {"", "0x", "0X"} && AllDigits(hex, 16) && '\0' !in more
    ensures
      var s := white + (sign + (prefix + (hex + more)));
      CString(s) == s
  {
    var s := white + (sign + (prefix + (hex + more)));
    assert '\0' !in sign && '\0' !in prefix && '\0' !in hex && '\0' !in white;
    NoNul(s);
  }

  lemma {:induction false} AllWhiteSkipped(white: string, s: string)
    requires forall c | c in white :: c in {' ', '\t', '\n', '\r', 11 as char, 12 as char}
    requires s != "" && !IsSpace(s[0])
    ensures SkipWhite(white + s) == s
  {
    if white == "" {
      PlusNothing(s);
      NoWhite(s);
    } else {
      assert white[0] in white && forall c | c in white[1..] :: c in white;
      AllWhiteSkipped(white[1..], s);
      assert (white + s)[0] == white[0] && (white + s)[1..] == white[1..] + s;
    }
  }

  /** A line without a digit where the number should be gives nothing. */
  lemma NoValue(line: string)
    requires line == "" || (!IsHexDigit(line[0]) && !IsSpace(line[0]) && line[0] !in {'+', '-'})
    ensures !Strtoul16(line).0
  {
    hide FromBase;
    var t := CString(line);
    assert t == "" || t[0] == line[0];
    assert SkipWhite(t) == t;
  }

  /** Text before any NUL is kept. */
  lemma BeforeNul(line: string, d: nat)
    requires d < |line| && forall i | 0 <= i <= d :: line[i] != '\0'
    ensures |CString(line)| > d && CString(line)[..d] == line[..d] && CString(line)[d] == line[d]
  {}

  /** Every line that the reader takes a length from is of that form. */
  predicate AllStrict(s: string)
    decreases |s|
  {
    var line := Line(s);
    var rest := s[|line|..];
    var (converted, n) := Strtoul16(line);
    && StrictLine(line)
    && (converted && 0 < n < UINT64_MAX && n + 2 <= |rest| ==> AllStrict(rest[n + 2..]))
  }

  lemma StrictUnfold(s: string)
    ensures AllStrict(s) <==>
      var line := Line(s);
      var rest := s[|line|..];
      var (converted, n) := Strtoul16(line);
      && StrictLine(line)
      && (converted && 0 < n < UINT64_MAX && n + 2 <= |rest| ==> AllStrict(rest[n + 2..]))
  {
    hide Line, Strtoul16, StrictLine;
  }

  predicate StrictLines(chunks: seq<RawChunk>, last: string)
  {
    StrictLine(last) && forall c | c in chunks :: StrictLine(c.line)
  }

  lemma {:induction false} StrictBody(chunks: seq<RawChunk>, last: string, rest: string)
    requires ValidChunks(chunks) && SizeLine(last, 0)
    ensures AllStrict(Text(chunks) + (last + (LineBreak + rest))) <==> StrictLines(chunks, last)
  {
    hide AllStrict, StrictLine, Strtoul16, Line, WholeLineOf;
    var end := last + (LineBreak + rest);
    if chunks == [] {
      PlusNothing(end);
      LineIs(last, LineBreak + rest);
      StrictUnfold(end);
    } else {
      var c, later := chunks[0], Text(chunks[1..]) + end;
      assert c in chunks && ValidChunks(chunks[1..]);
      StrictBody(chunks[1..], last, rest);
      TextCons(c.line, c.data, Text(chunks[1..]), end);
      SplitData(c.data, later);
      LineIs(c.line, c.data + (LineBreak + later));
      StrictUnfold(c.line + (c.data + (LineBreak + later)));
      assert forall x | x in chunks :: x == c || x in chunks[1..];
    }
  }

  /** The input starts with a body as section 7.1 of RFC 9112 has it (without trailer fields). */
  ghost predicate StrictlyTerminated(s: string)
  {
    exists chunks, last, rest :: IsBody(s, chunks, last, rest) && StrictLines(chunks, last)
  }

  /** Of the inputs the reader accepts, these are exactly those with strict lines and ended chunks. */
  lemma AcceptedStrictly(s: string)
    ensures StrictlyTerminated(s) <==> Decode(s).ok && AllEnded(s) && AllStrict(s)
  {
    hide Decode, AllEnded, AllStrict, Text, ValidChunks, SizeLine, StrictLines;
    AcceptedMeans(s);
    forall chunks, last, rest | IsBody(s, chunks, last, rest) ensures AllStrict(s) <==> StrictLines(chunks, last) {
      StrictBody(chunks, last, rest);
    }
    if Decode(s).ok && AllEnded(s) {
      var chunks, last, rest := AcceptedBody(s);
      assert IsBody(s, chunks, last, rest);
    }
  }

  lemma WrittenLine(n: nat)
    requires n <= UINT64_MAX
    ensures
      var line := ToBase(n, 16, false) + LineBreak;
      SizeLine(line, n) && StrictLine(line)
  {
    hide ToBase, FromBase, Strtoul16, Line, StrictLine, WholeLineOf;
    var hex := ToBase(n, 16, false);
    HexLine(n, "");
    ToBaseRoundTrip(n, 16, false);
    HexIsStrict(hex);
  }

  lemma HexIsStrict(hex: string)
    requires hex != "" && AllDigits(hex, 16)
    ensures StrictLine(hex + LineBreak) && WholeLineOf(hex + LineBreak)
  {
    hide Span;
    var line := hex + LineBreak;
    assert forall c | c in hex :: IsHexDigit(c);
    assert line[..|line| - 1] == hex + "\r";
    SpanIs((c: char) => IsHexDigit(c), hex, LineBreak);
  }

  /** The chunks of what has been written. */
  lemma {:induction false} WrittenChunks(writes: seq<string>) returns (chunks: seq<RawChunk>)
    requires Fits(writes)
    ensures ValidChunks(chunks) && forall c | c in chunks :: StrictLine(c.line)
    ensures Text(chunks) == Chunks(writes) && Data(chunks) == Concat(writes)
  {
    hide SizeLine, StrictLine;
    chunks := [];
    if writes != [] {
      var w := writes[0];
      chunks := WrittenChunks(writes[1..]);
      assert w in writes;
      if w == "" {
        PlusNothing(Chunks(writes[1..]));
        PlusNothing(Concat(writes[1..]));
      } else {
        WrittenLine(|w|);
        var line, later := ToBase(|w|, 16, false) + LineBreak, chunks;
        chunks := [RawChunk(line, w)] + later;
        assert chunks[1..] == later;
        Assoc(line, w, LineBreak);
        Assoc(line, w + LineBreak, Text(later));
        Assoc(w, LineBreak, Text(later));
      }
    }
  }

  /** What the writer sends is such a body. */
  lemma WrittenIsStrict(writes: seq<string>, t: string)
    requires Fits(writes)
    ensures StrictlyTerminated(Encode(writes) + t)
  {
    hide SizeLine, StrictLine, Text, Chunks, ToBase;
    var chunks := WrittenChunks(writes);
    WrittenLine(0);
    ZeroDigit();
    var last := "0" + LineBreak;
    assert DoneMarker == last + LineBreak;
    Assoc(Chunks(writes), DoneMarker, t);
    Assoc(last, LineBreak, t);
    assert IsBody(Encode(writes) + t, chunks, last, t) && StrictLines(chunks, last);
  }

  const Cut: string := "1\r\naX"

  /** A chunk of one byte and one byte more: accepted, although there is no terminator. */
  lemma AcceptedWithoutTerminator()
    ensures Decode(Cut) == Reading(true, "a", "") && !AllEnded(Cut) && !Terminated(Cut)
  {
    hide Decode, AllEnded, Terminated, Line, Strtoul16;
    assert FromBase("1", 16) == 1 && "1" + LineBreak == "1\r\n";
    HexNumber("1");
    LineIs("1\r\n", "aX");
    assert "1\r\n" + "aX" == Cut;
    EndedUnfold(Cut);
    assert "aX"[1..] == "X" && "aX"[..1] == "a";
    WholeLine("X");
    DecodeUnfold(Cut);
    AfterUnfold("1\r\n", "aX");
    ChunkUnfold(1, "aX");
    AcceptedMeans(Cut);
  }
}
