/** Chunked transfer coding. */
module Chunked {
  // The writer's sink, the line reader and the reader.

  import opened CLibrary
  import opened HttpText
  import opened Options
  import opened Seqs
  import opened Wire

  // ----- the coding -----

  const LineBreak: string := "\r\n"
  const DoneMarker: string := "0\r\n\r\n"

  /** `from_i_to_hex` */
  method FromIToHex(n: nat) returns (s: string)
    ensures s == ToBase(n, 16, false)
  {
    s := [Digit(n % 16, false)];
    var rest: nat := n / 16;
    while rest > 0
      invariant ToBase(n, 16, false) == if rest == 0 then s else ToBase(rest, 16, false) + s
    {
      ToHexStep(rest, s);
      s := [Digit(rest % 16, false)] + s;
      rest := rest / 16;
    }
  }

  lemma ToHexStep(n: nat, s: string)
    requires n > 0
    ensures
      var t := [Digit(n % 16, false)] + s;
      ToBase(n, 16, false) + s == if n / 16 == 0 then t else ToBase(n / 16, 16, false) + t
  {
    if n >= 16 {
      Assoc(ToBase(n / 16, 16, false), [Digit(n % 16, false)], s);
    }
  }

  function Chunk(data: string): string
  {
    if data == "" then "" else ToBase(|data|, 16, false) + LineBreak + data + LineBreak
  }

  function Chunks(writes: seq<string>): string
  {
    if writes == [] then "" else Chunk(writes[0]) + Chunks(writes[1..])
  }

  /** A whole body. */
  function Encode(writes: seq<string>): string { Chunks(writes) + DoneMarker }

  // ----- reading -----

  /** `strtoul` with base 16: nothing when there is no conversion. */
  function Strtoul16(line: string): (r: (bool, nat))
    ensures r.1 <= UINT64_MAX
  {
    var s := SkipWhite(CString(line));
    var unsigned := if s != [] && (s[0] == '+' || s[0] == '-') then s[1..] else s;
    var prefixed :=
      |unsigned| >= 3 && unsigned[0] == '0' && (unsigned[1] == 'x' || unsigned[1] == 'X') && IsHexDigit(unsigned[2]);
    var t := if prefixed then unsigned[2..] else unsigned;
    var digits := t[..Span((c: char) => IsHexDigit(c), t)];
    if digits == [] then (false, 0)
    else
      var v := FromBase(digits, 16);
      if v > UINT64_MAX then (true, UINT64_MAX)
      else if s[0] == '-' then (true, (UINT64_MAX + 1 - v) % (UINT64_MAX + 1))
      else (true, v)
  }

  /** The first line with its line feed, or everything when there is none. */
  function Line(s: string): (r: string)
    ensures |r| <= |s| && (s != [] ==> r != [])
    ensures s == r + s[|r|..]
  {
    var n := Span((c: char) => c != '\n', s);
    if n < |s| then s[..n + 1] else s
  }

  /** What a reader that is not interrupted makes of an input. */
  datatype Reading = Reading(ok: bool, data: string, rest: string)

  function WithData(data: string, r: Reading): Reading { r.(data := data + r.data) }

  function Decode(s: string): Reading
    decreases |s|
  {
    if s == [] then Reading(false, "", "")
    else
      var line := Line(s);
      DecodeAfter(line, s[|line|..])
  }

  /** The rest of a body, once the line with the length of a chunk has been read. */
  function DecodeAfter(line: string, s: string): Reading
    decreases |s|, 1
  {
    var (converted, n) := Strtoul16(line);
    if !converted || n == UINT64_MAX then Reading(false, "", s)
    else if n > 0 then DecodeChunk(n, s)
    else if s == [] then Reading(false, "", "")
    else Reading(Line(s) == LineBreak, "", s[|Line(s)|..])
  }

  /** A chunk of `n` bytes and what follows it. Without a line break after the data the body
      ends there, as if it were complete. */
  function DecodeChunk(n: nat, s: string): Reading
    decreases |s|, 0
  {
    if |s| < n then Reading(false, s, "")
    else
      var t := s[n..];
      if t == [] then Reading(false, s[..n], "")
      else if Line(t) != LineBreak then Reading(true, s[..n], t[|Line(t)|..])
      else WithData(s[..n], Decode(t[2..]))
  }

  /** `stream_line_reader`: a fixed buffer that spills into a growing one. */
  class LineReader {
    const stream: Stream
    const fixed: array<char>
    var used: nat
    var growing: string

    predicate Valid()
      reads this, fixed
    {
      && used < fixed.Length && fixed[used] == '\0'
      && (growing != "" ==> used == fixed.Length - 1)
    }

    constructor (stream: Stream, size: nat)
      requires size > 0
      ensures Valid() && fresh(fixed) && this.stream == stream && Text() == ""
    {
      this.stream := stream;
      fixed := new char[size](_ => '\0');
      used, growing := 0, "";
    }

    /** What `ptr` and `size` delimit. */
    function Text(): string
      requires Valid()
      reads this, fixed
    {
      if growing == "" then fixed[..used] else growing
    }

    method Append(c: char)
      requires Valid()
      modifies this`used, this`growing, fixed
      ensures Valid()
      ensures Text() == old(Text()) + [c]
    {
      if used < fixed.Length - 1 {
        fixed[used] := c;
        used := used + 1;
        fixed[used] := '\0';
      } else {
        if growing == "" {
          growing := fixed[..used];
        }
        growing := growing + [c];
      }
    }

    method Clear()
      requires Valid()
      modifies this`used, this`growing, fixed
      ensures Valid() && Text() == ""
    {
      used, growing := 0, "";
      fixed[0] := '\0';
    }

    /** `getline` */
    method GetLine() returns (ok: bool)
      requires Valid()
      modifies this`used, this`growing, fixed, stream`input, stream`broken
      ensures Valid()
      ensures stream.broken ==> old(stream.broken) || !ok
      ensures old(stream.broken) ==> stream.broken
      ensures !stream.broken ==> (ok <==> old(stream.input) != "")
      ensures ok ==> old(stream.input) != "" && Text() == Line(old(stream.input))
      ensures ok ==> stream.input == old(stream.input)[|Text()|..]
      ensures !stream.broken && !ok ==> stream.input == ""
    {
      hide Line, Text, Valid;
      Clear();
      ghost var start := stream.input;
      var i := 0;
      while true
        invariant Valid()
        invariant i == |Text()|
        invariant Text() + stream.input == start && '\n' !in Text()
        invariant stream.broken == old(stream.broken)
        decreases |stream.input|
      {
        ghost var text, before := Text(), stream.input;
        var failed, data := stream.Read(1);
        if failed {
          return false;
        }
        if data == "" {
          assert text + "" == text;
          WholeLine(start);
          return i > 0;
        }
        Append(data[0]);
        i := i + 1;
        OneMore(text, data, stream.input);
        if data[0] == '\n' {
          EndOfLine(text, stream.input);
          return true;
        }
      }
      assert false;
    }
  }

  lemma OneMore(text: string, data: string, t: string)
    requires |data| == 1
    ensures text + [data[0]] + t == text + (data + t)
  {}

  lemma WholeLine(s: string)
    requires '\n' !in s
    ensures Line(s) == s && s[|s|..] == ""
  {
    assert forall i | 0 <= i < |s| :: s[i] != '\n';
  }

  lemma EndOfLine(text: string, t: string)
    requires '\n' !in text
    ensures
      var s := text + ['\n'] + t;
      Line(s) == text + ['\n'] && s[|text| + 1..] == t
  {
    var s := text + ['\n'] + t;
    assert s == text + (['\n'] + t);
    SpanIs((c: char) => c != '\n', text, ['\n'] + t);
    assert s[..|text| + 1] == text + ['\n'];
  }

  /** `CPPHTTPLIB_RECV_BUFSIZ` */
  const RECV_BUFSIZ: nat := 4096

  /** Whether the receiver takes one more piece, given all it has been handed with it. */
  type Receiver = string -> bool

  /** Whether reading goes on, given how much has been read of how much. */
  type Progress = (nat, nat) -> bool

  predicate GoesOn(progress: Option<Progress>, done: nat, len: nat)
  {
    progress.Some? ==> progress.value(done, len)
  }

  /** `read_content_with_length`: pieces go to the receiver as they arrive, after `before`. */
  method ReadWithLength(stream: Stream, len: nat, progress: Option<Progress>, accepts: Receiver, before: string)
    returns (ok: bool, data: string, refused: bool)
    modifies stream`input, stream`broken
    ensures data + stream.input == old(stream.input) && |data| <= len
    ensures ok <==> |data| == len && !refused
    ensures refused ==> data != "" && !(accepts(before + data) && GoesOn(progress, |data|, len))
    ensures !refused && data != "" ==> accepts(before + data) && GoesOn(progress, |data|, len)
    ensures ok || refused ==> stream.broken == old(stream.broken)
    ensures old(stream.broken) ==> stream.broken
    ensures !ok && !refused && !stream.broken ==> stream.input == ""
  {
    data := "";
    var r := 0;
    while r < len
      invariant r == |data| <= len
      invariant data + stream.input == old(stream.input)
      invariant stream.broken == old(stream.broken)
      invariant data != "" ==> accepts(before + data) && GoesOn(progress, |data|, len)
    {
      ghost var input := stream.input;
      var failed, piece := stream.Read(if len - r < RECV_BUFSIZ then len - r else RECV_BUFSIZ);
      if failed || piece == "" {
        return false, data, false;
      }
      assert data + piece + stream.input == data + input;
      data := data + piece;
      if !accepts(before + data) {
        return false, data, true;
      }
      r := r + |piece|;
      if progress.Some? && !progress.value(r, len) {
        return false, data, true;
      }
    }
    return true, data, false;
  }

  datatype Next = Failed | Refused | Finished | More

  /** One round of the loop: the data of a chunk, its line break and the next line. */
  method ReadChunk(reader: LineReader, n: nat, accepts: Receiver, before: string) returns (next: Next, piece: string)
    requires reader.Valid() && !reader.stream.broken && n > 0
    modifies reader`used, reader`growing, reader.fixed, reader.stream`input, reader.stream`broken
    ensures reader.Valid()
    ensures next == Refused ==> !reader.stream.broken && piece != "" && !accepts(before + piece)
    ensures next != Refused && piece != "" ==> accepts(before + piece)
    ensures
      var s, rest := old(reader.stream.input), reader.stream.input;
      && (reader.stream.broken ==> next == Failed && piece <= DecodeChunk(n, s).data)
      && (!reader.stream.broken ==>
            match next
            case Failed => DecodeChunk(n, s) == Reading(false, piece, rest)
            case Refused => piece <= DecodeChunk(n, s).data
            case Finished => DecodeChunk(n, s) == Reading(true, piece, rest)
            case More => |rest| < |s| && DecodeChunk(n, s) == WithData(piece, DecodeAfter(reader.Text(), rest)))
  {
    hide Line, Decode, DecodeChunk, DecodeAfter;
    ghost var s := reader.stream.input;
    ChunkUnfold(n, s);
    var got, refused;
    got, piece, refused := ReadWithLength(reader.stream, n, None, accepts, before);
    Taken(s, piece, reader.stream.input, n);
    if !got {
      return if refused then Refused else Failed, piece;
    }
    var ended := reader.GetLine();
    if !ended {
      return Failed, piece;
    }
    if reader.Text() != LineBreak {
      return Finished, piece;
    }
    DecodeUnfold(reader.stream.input);
    var more := reader.GetLine();
    return if more then More else Failed, piece;
  }

  /** `read_content_chunked`: unless the connection breaks or the receiver refuses a piece, the
      result and the data are those of `Decode`, and otherwise a beginning of the data. */
  method ReadContentChunked(stream: Stream, accepts: Receiver) returns (ok: bool, data: string, refused: bool)
    requires !stream.broken
    modifies stream`input, stream`broken
    ensures !stream.broken && !refused ==> Reading(ok, data, stream.input) == Decode(old(stream.input))
    ensures stream.broken || refused ==> !ok && data <= Decode(old(stream.input)).data
    ensures if refused then data != "" && !accepts(data) else data == "" || accepts(data)
  {
    hide Strtoul16, Line, Decode, DecodeAfter, DecodeChunk;
    data, refused := "", false;
    ghost var whole := Decode(stream.input);
    DecodeUnfold(stream.input);
    var reader := new LineReader(stream, 16);
    ok := reader.GetLine();
    if !ok {
      return;
    }
    while true
      invariant reader.Valid() && reader.stream == stream && fresh(reader) && fresh(reader.fixed)
      invariant !stream.broken && !refused
      invariant WithData(data, DecodeAfter(reader.Text(), stream.input)) == whole
      invariant data == "" || accepts(data)
      decreases |stream.input|
    {
      AfterUnfold(reader.Text(), stream.input);
      var (converted, n) := Strtoul16(reader.Text());
      if !converted || n == UINT64_MAX {
        return false, data, false;
      }
      if n == 0 {
        // The terminator after the chunks.
        var last := reader.GetLine();
        return last && reader.Text() == LineBreak, data, false;
      }
      var next, piece := ReadChunk(reader, n, accepts, data);
      DataTwice(data, piece, DecodeAfter(reader.Text(), stream.input));
      DataPrefix(data, piece, whole.data);
      PlusNothing(data);
      data := data + piece;
      if next != More {
        return next == Finished, data, next == Refused;
      }
    }
    assert false;
  }

  lemma DataTwice(a: string, b: string, r: Reading)
    ensures WithData(a, WithData(b, r)) == WithData(a + b, r)
  {
    assert a + (b + r.data) == (a + b) + r.data;
  }

  lemma DataPrefix(a: string, b: string, whole: string)
    ensures a <= whole && b <= whole[|a|..] ==> a + b <= whole
  {
    if a <= whole && b <= whole[|a|..] {
      assert whole == a + whole[|a|..];
      assert whole == (a + b) + whole[|a|..][|b|..];
    }
  }

  lemma Taken(s: string, piece: string, rest: string, n: nat)
    requires piece + rest == s && |piece| <= n
    ensures |piece| == n ==> |s| >= n && piece == s[..n] && rest == s[n..]
    ensures |piece| < n ==> (rest == "" ==> |s| < n && piece == s) && piece <= s && (n <= |s| ==> piece <= s[..n])
    ensures forall t :: |piece| == n ==> piece <= s[..n] + t
    ensures forall t :: |piece| < n && n <= |s| ==> piece <= s[..n] + t
  {
    if |piece| < n <= |s| {
      assert piece == s[..n][..|piece|];
    }
  }

  lemma DecodeUnfold(s: string)
    ensures Decode(s) == if s == [] then Reading(false, "", "") else DecodeAfter(Line(s), s[|Line(s)|..])
  {
    hide DecodeAfter, Line;
  }

  lemma ChunkUnfold(n: nat, s: string)
    ensures DecodeChunk(n, s) ==
      if |s| < n then Reading(false, s, "")
      else
        var t := s[n..];
        if t == [] then Reading(false, s[..n], "")
        else if Line(t) != LineBreak then Reading(true, s[..n], t[|Line(t)|..])
        else WithData(s[..n], Decode(t[2..]))
  {
    hide Line, Decode;
  }

  lemma AfterUnfold(line: string, s: string)
    ensures DecodeAfter(line, s) ==
      var (converted, n) := Strtoul16(line);
      if !converted || n == UINT64_MAX then Reading(false, "", s)
      else if n > 0 then DecodeChunk(n, s)
      else if s == [] then Reading(false, "", "")
      else Reading(Line(s) == LineBreak, "", s[|Line(s)|..])
  {
    hide Strtoul16, Line, DecodeChunk;
  }

  // ----- writing -----

  /** The data sink of `write_content_chunked`, without compression. */
  class Sink {
    const stream: Stream
    var offset: nat
    var dataAvailable: bool
    var ok: bool

    constructor (stream: Stream)
      ensures this.stream == stream && offset == 0 && dataAvailable && ok
    {
      this.stream := stream;
      offset, dataAvailable, ok := 0, true, true;
    }

    method Write(d: string) returns (r: bool)
      modifies this, stream`output, stream`broken
      ensures r == ok
      ensures ok ==> old(ok) && stream.broken == old(stream.broken)
      ensures ok ==> stream.output == old(stream.output) + Chunk(d)
      ensures ok ==> dataAvailable == (d != "") && offset == old(offset) + |d|
      ensures !ok && old(ok) ==> stream.broken
      ensures !ok && old(ok) ==> stream.output <= old(stream.output) + Chunk(d)
      ensures !old(ok) ==> !ok && stream.output == old(stream.output) && stream.broken == old(stream.broken)
    {
      if ok {
        dataAvailable := |d| > 0;
        offset := offset + |d|;
        if d != "" {
          var size := FromIToHex(|d|);
          var chunk := size + LineBreak + d + LineBreak;
          ok := WriteData(stream, chunk);
          PrefixesFit(old(stream.output), chunk);
        } else {
          assert stream.output + "" == stream.output;
        }
      }
      return ok;
    }

    method Done()
      modifies this, stream`output, stream`broken
      ensures ok ==> old(ok) && !dataAvailable && stream.broken == old(stream.broken)
      ensures ok ==> stream.output == old(stream.output) + DoneMarker
      ensures !ok && old(ok) ==> stream.broken && stream.output <= old(stream.output) + DoneMarker
      ensures !old(ok) ==> !ok && stream.output == old(stream.output) && stream.broken == old(stream.broken)
    {
      if !ok {
        return;
      }
      dataAvailable := false;
      ok := WriteData(stream, DoneMarker);
      PrefixesFit(old(stream.output), DoneMarker);
    }
  }

  lemma PrefixesFit(a: string, b: string)
    ensures forall n | 0 <= n < |b| :: a + b[..n] <= a + b
  {
    forall n | 0 <= n < |b| ensures a + b[..n] <= a + b {
      assert a + b == a + b[..n] + b[n..];
    }
  }

  /** One call of the content provider: it writes some pieces, and ends the body with the last
      call. */
  method Provide(sink: Sink, pieces: seq<string>, last: bool)
    requires sink.ok
    modifies sink, sink.stream`output, sink.stream`broken
    ensures
      var sent := Chunks(pieces) + (if last then DoneMarker else "");
      && (sink.ok ==>
            && sink.stream.broken == old(sink.stream.broken)
            && sink.stream.output == old(sink.stream.output) + sent
            && sink.dataAvailable ==
               (!last && if pieces == [] then old(sink.dataAvailable) else pieces[|pieces| - 1] != ""))
      && (!sink.ok ==> sink.stream.broken && sink.stream.output <= old(sink.stream.output) + sent)
  {
    hide Chunks, Chunk;
    ghost var start, all := sink.stream.output, Chunks(pieces);
    ghost var sent := all + (if last then DoneMarker else "");
    var i := 0;
    NoChunks();
    assert pieces[..0] == [];
    PlusNothing(start);
    while i < |pieces|
      invariant 0 <= i <= |pieces|
      invariant sink.ok ==> sink.stream.broken == old(sink.stream.broken)
      invariant sink.ok ==> sink.stream.output == start + Chunks(pieces[..i])
      invariant sink.ok ==> sink.dataAvailable == if i == 0 then old(sink.dataAvailable) else pieces[i - 1] != ""
      invariant !sink.ok ==> sink.stream.broken && sink.stream.output <= start + all
    {
      ChunksAppend(pieces, i);
      Assoc(start, Chunks(pieces[..i]), Chunk(pieces[i]));
      ghost var was := sink.ok;
      var _ := sink.Write(pieces[i]);
      if was && !sink.ok {
        MorePrefix(sink.stream.output, start, Chunks(pieces[..i + 1]), Chunks(pieces[i + 1..]));
      }
      i := i + 1;
    }
    assert pieces[..i] == pieces;
    PlusNothing(all);
    if !sink.ok {
      MorePrefix(sink.stream.output, start, all, if last then DoneMarker else "");
    }
    Assoc(start, all, DoneMarker);
    if last {
      sink.Done();
    }
  }

  lemma NoChunks()
    ensures Chunks([]) == ""
  {}

  lemma ChunksAppend(pieces: seq<string>, i: nat)
    requires i < |pieces|
    ensures Chunks(pieces[..i + 1]) == Chunks(pieces[..i]) + Chunk(pieces[i])
    ensures Chunks(pieces) == Chunks(pieces[..i]) + Chunk(pieces[i]) + Chunks(pieces[i + 1..])
  {
    hide Chunk, Chunks, Concat;
    SliceAt(pieces, i);
    ChunksJoin(pieces[..i + 1], pieces[i + 1..]);
    ChunksJoin(pieces[..i], [pieces[i]]);
    ChunksSingle(pieces[i]);
  }

  lemma ChunksSingle(piece: string)
    ensures Chunks([piece]) == Chunk(piece)
  {
    hide Chunk;
    assert [piece][1..] == [];
    PlusNothing(Chunk(piece));
  }

  lemma {:induction false} ChunksJoin(a: seq<string>, b: seq<string>)
    ensures Chunks(a + b) == Chunks(a) + Chunks(b)
    ensures Concat(a + b) == Concat(a) + Concat(b)
  {
    hide Chunk;
    if a == [] {
      PlusNothing(b);
      PlusNothing(Chunks(b));
      PlusNothing(Concat(b));
    } else {
      ChunksJoin(a[1..], b);
      assert (a + b)[0] == a[0] && (a + b)[1..] == a[1..] + b;
      Assoc(Chunk(a[0]), Chunks(a[1..]), Chunks(b));
      Assoc(a[0], Concat(a[1..]), Concat(b));
    }
  }

  lemma MorePrefix(s: string, start: string, a: string, b: string)
    requires s <= start + a
    ensures s <= start + (a + b)
  {
    Assoc(start, a, b);
    assert start + a + b == s + ((start + a) + b)[|s|..];
  }

  predicate EndsEmpty(pieces: seq<string>) { pieces != [] && pieces[|pieces| - 1] == "" }

  /** What a transfer sends whose provider writes `calls[k]` in its call number `k`, when the server
      begins to shut down after `until` calls. */
  function Sent(calls: seq<seq<string>>, until: nat): string
    requires calls != []
  {
    if until == 0 then ""
    else if |calls| == 1 then Chunks(calls[0]) + DoneMarker
    else if EndsEmpty(calls[0]) then Chunks(calls[0])
    else Chunks(calls[0]) + Sent(calls[1..], until - 1)
  }

  /** The number of calls that are made. */
  function Made(calls: seq<seq<string>>, until: nat): nat
    requires calls != []
  {
    if until == 0 then 0
    else if |calls| == 1 || EndsEmpty(calls[0]) then 1
    else 1 + Made(calls[1..], until - 1)
  }

  datatype SendError = Success | Canceled | Write

  lemma MadeUnfold(calls: seq<seq<string>>, until: nat)
    requires calls != [] && until > 0
    ensures Made(calls, until) == if |calls| == 1 || EndsEmpty(calls[0]) then 1 else 1 + Made(calls[1..], until - 1)
  {}

  lemma NothingMade(calls: seq<seq<string>>)
    requires calls != []
    ensures Made(calls, 0) == 0 && Sent(calls, 0) == ""
  {}

  /** `write_content_chunked`: the provider is called until no more data is available, or the server
      shuts down. The provider may give up in the call number `cancelAt`. */
  method WriteContentChunked(stream: Stream, calls: seq<seq<string>>, until: nat, cancelAt: nat)
    returns (error: SendError)
    requires calls != []
    modifies stream`output, stream`broken
    ensures error == Success ==>
      stream.broken == old(stream.broken) && stream.output == old(stream.output) + Sent(calls, until)
    ensures error == Canceled ==> cancelAt < |calls| && cancelAt < until
    ensures error == Success ==> Made(calls, until) <= cancelAt
    ensures error == Write ==> stream.broken
    ensures stream.output <= old(stream.output) + Sent(calls, until)
  {
    hide Chunks, Sent, Made, EndsEmpty;
    var sink := new Sink(stream);
    ghost var whole := stream.output + Sent(calls, until);
    var k := 0;
    assert calls[0..] == calls;
    while sink.dataAvailable && k < until
      invariant 0 <= k <= |calls| && k <= until && k <= cancelAt
      invariant sink.stream == stream && fresh(sink) && sink.ok && stream.broken == old(stream.broken)
      invariant sink.dataAvailable ==> k < |calls| && stream.output + Sent(calls[k..], until - k) == whole
      invariant !sink.dataAvailable ==> stream.output == whole
      invariant Made(calls, until) == k + (if sink.dataAvailable then Made(calls[k..], until - k) else 0)
      decreases |calls| - k
    {
      error := CallOnce(sink, calls, until, k, cancelAt, whole);
      if error != Success {
        return;
      }
      k := k + 1;
    }
    if sink.dataAvailable {
      NothingMade(calls[k..]);
    }
    PlusNothing(stream.output);
    return Success;
  }

  /** One round of the loop. */
  method CallOnce(sink: Sink, calls: seq<seq<string>>, until: nat, k: nat, cancelAt: nat, ghost whole: string)
    returns (error: SendError)
    requires k < |calls| && k < until && k <= cancelAt && sink.ok && sink.dataAvailable
    requires sink.stream.output + Sent(calls[k..], until - k) == whole
    modifies sink, sink.stream`output, sink.stream`broken
    ensures sink.stream.output <= whole
    ensures error == Canceled ==> cancelAt < |calls| && cancelAt < until
    ensures error == Write ==> sink.stream.broken
    ensures error == Success ==> k < cancelAt && sink.ok && sink.stream.broken == old(sink.stream.broken)
    ensures error == Success ==>
      if sink.dataAvailable then
        && k + 1 < |calls| && sink.stream.output + Sent(calls[k + 1..], until - k - 1) == whole
        && Made(calls[k..], until - k) == 1 + Made(calls[k + 1..], until - k - 1)
      else sink.stream.output == whole && Made(calls[k..], until - k) == 1
  {
    hide Chunks, Sent, Made, EndsEmpty;
    ghost var before, rest := sink.stream.output, calls[k..];
    ghost var later := if |rest| == 1 || EndsEmpty(rest[0]) then "" else Sent(rest[1..], until - k - 1);
    var last := k + 1 == |calls|;
    SentUnfold(rest, until - k, before);
    MadeUnfold(rest, until - k);
    assert rest[0] == calls[k] && rest[1..] == calls[k + 1..];
    ghost var sent := Chunks(calls[k]) + (if last then DoneMarker else "");
    Provide(sink, calls[k], last);
    MorePrefix(sink.stream.output, before, sent, later);
    Assoc(before, sent, later);
    LastEmpty(calls[k]);
    if k == cancelAt {
      return Canceled;
    }
    if !sink.ok {
      return Write;
    }
    PlusNothing(sink.stream.output);
    return Success;
  }

  lemma LastEmpty(pieces: seq<string>)
    ensures EndsEmpty(pieces) <==> pieces != [] && pieces[|pieces| - 1] == ""
  {}

  lemma SentUnfold(calls: seq<seq<string>>, until: nat, before: string)
    requires calls != [] && until > 0
    ensures
      var later := if |calls| == 1 || EndsEmpty(calls[0]) then "" else Sent(calls[1..], until - 1);
      before + (Chunks(calls[0]) + (if |calls| == 1 then DoneMarker else "")) + later == before + Sent(calls, until)
  {
    hide Chunks, EndsEmpty;
    var c := Chunks(calls[0]);
    if |calls| == 1 {
      PlusNothing(before + (c + DoneMarker));
    } else {
      PlusNothing(c);
      PlusNothing(before + c);
      Assoc(before, c, Sent(calls[1..], until - 1));
    }
  }

  // ----- the round trip -----

  function Flatten(calls: seq<seq<string>>): seq<string>
  {
    if calls == [] then [] else calls[0] + Flatten(calls[1..])
  }

  /** An empty write ends the transfer, unless it is made in the last call, and so does a
      shutdown before the last call. */
  predicate CutShort(calls: seq<seq<string>>, until: nat)
  {
    until < |calls| || exists k | 0 <= k < |calls| - 1 :: EndsEmpty(calls[k])
  }

  lemma CutShortTail(calls: seq<seq<string>>, until: nat)
    requires |calls| > 1 && !EndsEmpty(calls[0]) && until > 0
    ensures CutShort(calls, until) <==> CutShort(calls[1..], until - 1)
  {
    var rest := calls[1..];
    if k :| 0 <= k < |calls| - 1 && EndsEmpty(calls[k]) {
      assert EndsEmpty(rest[k - 1]);
    }
    if k :| 0 <= k < |rest| - 1 && EndsEmpty(rest[k]) {
      assert EndsEmpty(calls[k + 1]);
    }
  }

  /** The whole body is sent exactly when no call but the last ends with an empty write, and all
      calls are made. */
  lemma {:induction false} SentWhole(calls: seq<seq<string>>, until: nat)
    requires calls != []
    ensures Sent(calls, until) == Encode(Flatten(calls)) <==> !CutShort(calls, until)
    ensures CutShort(calls, until) ==> |Sent(calls, until)| < |Encode(Flatten(calls))|
  {
    hide Chunks, EndsEmpty, CutShort;
    var first, rest := calls[0], calls[1..];
    ChunksJoin(first, Flatten(rest));
    if until == 0 {
      NoCalls(calls);
    } else if |calls| == 1 {
      OneCall(calls, until);
      PlusNothing(first);
    } else {
      SentWhole(rest, until - 1);
      Assoc(Chunks(first), Chunks(Flatten(rest)), DoneMarker);
      if EndsEmpty(first) {
        CutAtOnce(calls, until);
      } else {
        CutShortTail(calls, until);
        var c := Chunks(first);
        assert Encode(Flatten(calls)) == c + Encode(Flatten(rest)) && Sent(calls, until) == c + Sent(rest, until - 1);
        assert (c + Sent(rest, until - 1))[|c|..] == Sent(rest, until - 1);
        assert (c + Encode(Flatten(rest)))[|c|..] == Encode(Flatten(rest));
      }
    }
  }

  lemma NoCalls(calls: seq<seq<string>>)
    requires calls != []
    ensures CutShort(calls, 0)
  {}

  lemma OneCall(calls: seq<seq<string>>, until: nat)
    requires |calls| == 1 && until > 0
    ensures !CutShort(calls, until) && Flatten(calls) == calls[0] + []
  {
    assert calls[1..] == [];
  }

  lemma CutAtOnce(calls: seq<seq<string>>, until: nat)
    requires |calls| > 1 && EndsEmpty(calls[0])
    ensures CutShort(calls, until)
  {}

  lemma HexNumber(hex: string)
    requires hex != "" && AllDigits(hex, 16) && (hex[0] == '0' ==> |hex| == 1) && FromBase(hex, 16) <= UINT64_MAX
    ensures Strtoul16(hex + LineBreak) == (true, FromBase(hex, 16))
  {
    hide FromBase, CString, SkipWhite, Span;
    var line := hex + LineBreak;
    assert hex[0] in hex && line[0] == hex[0];
    assert '\0' !in line;
    NoNul(line);
    NoWhite(line);
    SpanIs((c: char) => IsHexDigit(c), hex, LineBreak);
    assert line[..|hex|] == hex;
    assert |hex| == 1 ==> line[1] == '\r';
  }

  lemma NoWhite(s: string)
    requires s != "" && !IsSpace(s[0])
    ensures SkipWhite(s) == s
  {}

  lemma HexLine(n: nat, t: string)
    ensures
      var line := ToBase(n, 16, false) + LineBreak;
      Line(line + t) == line && (n <= UINT64_MAX ==> Strtoul16(line) == (true, n))
  {
    var hex := ToBase(n, 16, false);
    ToBaseRoundTrip(n, 16, false);
    NoLeadingZero(n, 16, false);
    if n == 0 {
      ZeroDigit();
    }
    hide ToBase, FromBase, Strtoul16, Line;
    assert forall c | c in hex :: IsHexDigit(c);
    assert '\n' !in hex + "\r";
    EndOfLine(hex + "\r", t);
    Assoc(hex, "\r", ['\n']);
    assert "\r" + ['\n'] == LineBreak;
    if n <= UINT64_MAX {
      HexNumber(hex);
    }
  }

  lemma ZeroDigit()
    ensures ToBase(0, 16, false) == "0"
  {}

  lemma NoNul(s: string)
    requires '\0' !in s
    ensures CString(s) == s
  {
    SpanIs((c: char) => c != '\0', s, "");
    assert s + "" == s;
  }

  predicate Fits(writes: seq<string>)
  {
    forall w | w in writes :: |w| < UINT64_MAX
  }

  lemma DecodeOne(w: string, t: string)
    requires w != "" && |w| < UINT64_MAX
    ensures Decode(Chunk(w) + t) == WithData(w, Decode(t))
  {
    hide Decode, DecodeAfter, DecodeChunk, Strtoul16, Line, ToBase;
    var n := |w|;
    var line := ToBase(n, 16, false) + LineBreak;
    var after := w + (LineBreak + t);
    assert Chunk(w) + t == line + after;
    HexLine(n, after);
    DecodeUnfold(line + after);
    assert (line + after)[|line|..] == after;
    AfterUnfold(line, after);
    ChunkUnfold(n, after);
    assert after[..n] == w && after[n..] == LineBreak + t && (LineBreak + t)[2..] == t;
    EndOfLine("\r", t);
    assert "\r" + ['\n'] == LineBreak;
  }

  /** The reader delivers exactly what was written and stops right after the terminator. */
  lemma {:induction false} DecodeEncode(writes: seq<string>, t: string)
    requires Fits(writes)
    ensures Decode(Encode(writes) + t) == Reading(true, Concat(writes), t)
  {
    hide Decode, DecodeAfter, Strtoul16, Line, Chunk;
    if writes == [] {
      assert Encode([]) + t == "0" + LineBreak + (LineBreak + t) by {
        assert DoneMarker == "0" + LineBreak + LineBreak;
      }
      ZeroDigit();
      HexLine(0, LineBreak + t);
      var s := "0" + LineBreak + (LineBreak + t);
      DecodeUnfold(s);
      assert s[3..] == LineBreak + t && (LineBreak + t)[2..] == t;
      AfterUnfold("0" + LineBreak, LineBreak + t);
      EndOfLine("\r", t);
      assert "\r" + ['\n'] == LineBreak;
    } else {
      var rest := Encode(writes[1..]) + t;
      assert Encode(writes) + t == Chunk(writes[0]) + rest;
      DecodeEncode(writes[1..], t);
      if writes[0] == "" {
        EmptyChunk();
        assert "" + rest == rest;
      } else {
        assert writes[0] in writes;
        DecodeOne(writes[0], rest);
      }
    }
  }

  lemma EmptyChunk()
    ensures Chunk("") == ""
  {}

  /** A body without its terminator is reported as failed; its data has been delivered. */
  lemma {:induction false} DecodeUnfinished(writes: seq<string>)
    requires Fits(writes)
    ensures Decode(Chunks(writes)) == Reading(false, Concat(writes), "")
  {
    hide Decode, Chunk;
    if writes == [] {
      DecodeUnfold("");
    } else {
      DecodeUnfinished(writes[1..]);
      if writes[0] == "" {
        EmptyChunk();
        assert "" + Chunks(writes[1..]) == Chunks(writes[1..]);
      } else {
        assert writes[0] in writes;
        DecodeOne(writes[0], Chunks(writes[1..]));
      }
    }
  }

  lemma DecodeUnterminated(w: string, junk: string)
    requires 0 < |w| < UINT64_MAX && junk != "" && Line(junk) != LineBreak
    ensures Decode(ToBase(|w|, 16, false) + LineBreak + (w + junk)) == Reading(true, w, junk[|Line(junk)|..])
  {
    hide Decode, DecodeAfter, DecodeChunk, Strtoul16, Line, ToBase;
    var n := |w|;
    var line := ToBase(n, 16, false) + LineBreak;
    HexLine(n, w + junk);
    DecodeUnfold(line + (w + junk));
    assert (line + (w + junk))[|line|..] == w + junk;
    AfterUnfold(line, w + junk);
    ChunkUnfold(n, w + junk);
    assert (w + junk)[..n] == w && (w + junk)[n..] == junk;
  }

  /** A chunk followed by anything but a line break is taken for the end of a complete body,
      although no terminator has been seen. */
  lemma {:induction false} MissingLineBreak(writes: seq<string>, w: string, junk: string)
    requires Fits(writes) && 0 < |w| < UINT64_MAX && junk != "" && Line(junk) != LineBreak
    ensures Decode(Chunks(writes) + (ToBase(|w|, 16, false) + LineBreak + (w + junk))) ==
            Reading(true, Concat(writes) + w, junk[|Line(junk)|..])
  {
    hide Decode, Line, ToBase, Chunk;
    var s := ToBase(|w|, 16, false) + LineBreak + (w + junk);
    if writes == [] {
      PlusNothing(s);
      PlusNothing(w);
      DecodeUnterminated(w, junk);
    } else {
      MissingLineBreak(writes[1..], w, junk);
      var later := Chunks(writes[1..]) + s;
      Assoc(Chunk(writes[0]), Chunks(writes[1..]), s);
      Assoc(writes[0], Concat(writes[1..]), w);
      if writes[0] == "" {
        EmptyChunk();
        PlusNothing(later);
        PlusNothing(Concat(writes[1..]));
        PlusNothing(Chunks(writes[1..]));
      } else {
        assert writes[0] in writes;
        DecodeOne(writes[0], later);
      }
    }
  }

  /** The writes of a transfer that is cut short. */
  function Reached(calls: seq<seq<string>>, until: nat): seq<string>
  {
    if calls == [] || until == 0 then []
    else if EndsEmpty(calls[0]) then calls[0]
    else calls[0] + Reached(calls[1..], until - 1)
  }

  lemma {:induction false} SentReached(calls: seq<seq<string>>, until: nat)
    requires calls != [] && CutShort(calls, until) && Fits(Flatten(calls))
    ensures Sent(calls, until) == Chunks(Reached(calls, until)) && Fits(Reached(calls, until))
  {
    if until > 0 {
      hide Chunks, EndsEmpty;
      var first, rest := calls[0], calls[1..];
      assert forall w | w in first || w in Flatten(rest) :: w in Flatten(calls);
      if !EndsEmpty(first) {
        CutShortTail(calls, until);
        SentReached(rest, until - 1);
        ChunksJoin(first, Reached(rest, until - 1));
      }
    }
  }

  /** The reader accepts what a transfer sent exactly when the transfer was not cut short. */
  lemma TransferMeans(calls: seq<seq<string>>, until: nat)
    requires calls != [] && Fits(Flatten(calls))
    ensures
      Decode(Sent(calls, until)) ==
      if CutShort(calls, until) then Reading(false, Concat(Reached(calls, until)), "")
      else Reading(true, Concat(Flatten(calls)), "")
  {
    hide Decode, Chunks, Sent, EndsEmpty, CutShort, Fits;
    SentWhole(calls, until);
    if CutShort(calls, until) {
      SentReached(calls, until);
      DecodeUnfinished(Reached(calls, until));
    } else {
      DecodeEncode(Flatten(calls), "");
      assert Encode(Flatten(calls)) + "" == Encode(Flatten(calls));
    }
  }

  /** A receiver with a bound on the length of what it takes. */
  function UpTo(max: nat): Receiver { (data: string) => |data| <= max }

  /** A transfer over a connection with short writes, read back with short reads by a receiver
      with a bound on the payload: when neither side reports a broken connection, the reader
      accepts exactly the transfers that were not cut short and fit, and delivers what was
      written. */
  method Transfer(calls: seq<seq<string>>, until: nat, cancelAt: nat, max: nat)
    returns (error: SendError, intact: bool, received: bool, data: string)
    requires calls != [] && Fits(Flatten(calls))
    ensures error == Success && intact ==>
      (received <==> !CutShort(calls, until) && |Concat(Flatten(calls))| <= max)
    ensures error == Success && intact && received ==> data == Concat(Flatten(calls))
  {
    hide Decode, Sent, Fits, CutShort;
    var out := new Stream("");
    error := WriteContentChunked(out, calls, until, cancelAt);
    var back := new Stream(out.output);
    var refused;
    received, data, refused := ReadContentChunked(back, UpTo(max));
    intact := !back.broken;
    if error == Success && intact {
      TransferMeans(calls, until);
      PlusNothing(Sent(calls, until));
    }
  }
}
