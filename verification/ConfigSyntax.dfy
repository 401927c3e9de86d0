/** The configuration language. */
module ConfigSyntax {
  // Its rules as trees that keep the choices a writer has, and the token sequences they stand for. The
  // parser accepts exactly these.

  import opened ConfigTree
  import opened ConfigScanner
  import opened ConfigGrammar
  import opened ConfigSpelling
  import opened ConfigTokens
  import opened Seqs

  /** What may follow the value of a setting. */
  datatype Terminator = Nothing | Semicolon | Comma

  datatype Styled =
    | Flag(b: bool)
    | Int(i: int, hex: bool)
    | Long(l: int, hex: bool)
    | Real(digits: string)
    | Text(pieces: seq<string>)  // adjacent string tokens
    | Vector(elems: seq<Styled>)
    | Sequence(elems: seq<Styled>)
    | Block(settings: seq<StyledSetting>)

  datatype StyledSetting = StyledSetting(name: string, value: Styled, end: Terminator)

  /** The tree that is meant. */
  function Meant(v: Styled): Value
  {
    match v
    case Flag(b) => Boolean(b)
    case Int(i, hex) => Integer(i, if hex then Hex else Plain)
    case Long(l, hex) => Integer64(l, if hex then Hex else Plain)
    case Real(digits) => Float(digits)
    case Text(pieces) => Str(Concat(pieces))
    case Vector(elems) => Array(MeantAll(elems))
    case Sequence(elems) => List(MeantAll(elems))
    case Block(settings) => Group(MeantSettings(settings))
  }

  function MeantAll(vs: seq<Styled>): (r: seq<Value>)
    ensures |r| == |vs| && forall i | 0 <= i < |vs| :: r[i] == Meant(vs[i])
  {
    if vs == [] then [] else [Meant(vs[0])] + MeantAll(vs[1..])
  }

  function MeantSettings(ms: seq<StyledSetting>): (r: seq<Member>)
    ensures |r| == |ms| && forall i | 0 <= i < |ms| :: r[i] == Member(ms[i].name, Meant(ms[i].value))
  {
    if ms == [] then [] else [Member(ms[0].name, Meant(ms[0].value))] + MeantSettings(ms[1..])
  }

  /** The tokens of a value, with `t` behind them. */
  function Spelled(v: Styled, t: seq<Token>): seq<Token>
    decreases v, 1
  {
    match v
    case Flag(b) => [TBoolean(b)] + t
    case Int(i, hex) => [if hex then THex(i) else TInteger(i)] + t
    case Long(l, hex) => [if hex then THex64(l) else TInteger64(l)] + t
    case Real(digits) => [TFloat(digits)] + t
    case Text(pieces) => SpelledPieces(pieces, t)
    case Vector(elems) => [TArrayStart] + SpelledAll(elems, [TArrayEnd] + t)
    case Sequence(elems) => [TListStart] + SpelledAll(elems, [TListEnd] + t)
    case Block(settings) => [TGroupStart] + SpelledSettings(settings, [TGroupEnd] + t)
  }

  function SpelledPieces(pieces: seq<string>, t: seq<Token>): seq<Token>
  {
    if pieces == [] then t else [TString(pieces[0])] + SpelledPieces(pieces[1..], t)
  }

  function SpelledAll(vs: seq<Styled>, t: seq<Token>): seq<Token>
    decreases vs, 0
  {
    if vs == [] then t
    else Spelled(vs[0], if |vs| == 1 then t else [TComma] + SpelledAll(vs[1..], t))
  }

  function SpelledEnd(end: Terminator, t: seq<Token>): seq<Token>
  {
    match end
    case Nothing => t
    case Semicolon => [TSemicolon] + t
    case Comma => [TComma] + t
  }

  function SpelledSettings(ms: seq<StyledSetting>, t: seq<Token>): seq<Token>
    decreases ms, 0
  {
    if ms == [] then t
    else [TName(ms[0].name), TEquals] + Spelled(ms[0].value, SpelledEnd(ms[0].end, SpelledSettings(ms[1..], t)))
  }

  predicate IsSimple(v: Styled) { !v.Vector? && !v.Sequence? && !v.Block? }

  /** Arrays hold scalars of one type, and the settings of a group have different valid names. */
  predicate WellFormed(v: Styled)
  {
    match v
    case Text(pieces) => pieces != []
    case Vector(elems) =>
      && (forall e | e in elems :: IsSimple(e) && WellFormed(e))
      && (forall i | 0 <= i < |elems| :: SameType(Meant(elems[0]), Meant(elems[i])))
    case Sequence(elems) => forall e | e in elems :: WellFormed(e)
    case Block(settings) => Distinct(settings) && forall m | m in settings :: ValidName(m.name) && WellFormed(m.value)
    case _ => true
  }

  predicate Distinct(ms: seq<StyledSetting>)
  {
    forall i, j | 0 <= i < j < |ms| :: ms[i].name != ms[j].name
  }

  // ----- everything so spelled is accepted -----

  lemma {:induction false} PiecesAccepted(pieces: seq<string>, t: seq<Token>)
    requires !Peek(t).TString?
    ensures StringRun(SpelledPieces(pieces, t)) == (Concat(pieces), t)
  {
    if pieces != [] {
      PiecesAccepted(pieces[1..], t);
      assert SpelledPieces(pieces, t)[1..] == SpelledPieces(pieces[1..], t);
    }
  }

  lemma SimpleAccepted(v: Styled, t: seq<Token>)
    requires IsSimple(v) && WellFormed(v) && !Peek(t).TString?
    ensures StartsScalar(Spelled(v, t)) && ParseScalar(Spelled(v, t)) == (Meant(v), t)
  {
    hide StringRun;
    if v.Text? {
      PiecesAccepted(v.pieces, t);
    } else {
      assert Spelled(v, t)[1..] == t;
    }
  }

  lemma ParseSimple(ts: seq<Token>)
    requires StartsScalar(ts)
    ensures ParseValue(ts) == Ok(ParseScalar(ts).0, ParseScalar(ts).1)
  {
    hide ParseScalar, ParseArray, ParseList, ParseSettings;
  }

  lemma ParseBracketed(token: Token, inner: seq<Token>)
    requires token in {TArrayStart, TListStart, TGroupStart}
    ensures
      ParseValue([token] + inner) ==
      if token == TArrayStart then
        (if Peek(inner) == TArrayEnd then Ok(Array([]), inner[1..])
         else
           var r := ParseArray(inner, []);
           if r.Ok? then Ok(Array(r.value), r.rest) else Fail(r.error))
      else if token == TListStart then
        (if Peek(inner) == TListEnd then Ok(List([]), inner[1..])
         else
           var r := ParseList(inner, []);
           if r.Ok? then Ok(List(r.value), r.rest) else Fail(r.error))
      else
        var r := ParseSettings(inner, []);
        if r.Fail? then Fail(r.error)
        else if Peek(r.rest) == TGroupEnd then Ok(Group(r.value), r.rest[1..])
        else Fail(SyntaxError)
  {
    hide ParseScalar, ParseArray, ParseList, ParseSettings;
    assert ([token] + inner)[1..] == inner;
    assert inner != [] ==> ([token] + inner)[2..] == inner[1..];
  }

  lemma ParseArrayStep(ts: seq<Token>, done: seq<Value>)
    requires StartsScalar(ts)
    ensures
      var v, rest := ParseScalar(ts).0, ParseScalar(ts).1;
      ParseArray(ts, done) ==
      if done != [] && !SameType(done[0], v) then Fail(MismatchedType)
      else if Peek(rest) == TComma then ParseArray(rest[1..], done + [v])
      else if Peek(rest) == TArrayEnd then Ok(done + [v], rest[1..])
      else Fail(SyntaxError)
  {
    hide SameType, ParseScalar;
  }

  lemma ParseListStep(ts: seq<Token>, done: seq<Value>)
    ensures
      var p := ParseValue(ts);
      ParseList(ts, done) ==
      if p.Fail? then Fail(p.error)
      else if Peek(p.rest) == TComma then ParseList(p.rest[1..], done + [p.value])
      else if Peek(p.rest) == TListEnd then Ok(done + [p.value], p.rest[1..])
      else Fail(SyntaxError)
  {
    hide ParseValue;
  }

  lemma ParseSettingsStep(ts: seq<Token>, done: seq<Member>)
    ensures !Peek(ts).TName? ==> ParseSettings(ts, done) == Ok(done, ts)
    ensures Peek(ts).TName? ==>
      var name := ts[0].name;
      ParseSettings(ts, done) ==
      if HasName(done, name) || !ValidName(name) then Fail(DuplicateName)
      else if Peek(ts[1..]) != TEquals then Fail(SyntaxError)
      else
        var p := ParseValue(ts[2..]);
        if p.Fail? then Fail(p.error)
        else ParseSettings(SkipTerminator(p.rest), done + [Member(name, p.value)])
  {
    hide ParseValue, HasName, ValidName, SkipTerminator;
  }

  /** Tokens that cannot belong to a setting before them. */
  predicate Separate(t: seq<Token>)
  {
    !Peek(t).TString? && Peek(t) != TSemicolon && Peek(t) != TComma
  }

  lemma AfterValue(end: Terminator, ms: seq<StyledSetting>, t: seq<Token>)
    requires Separate(t)
    ensures
      var later := SpelledSettings(ms, t);
      SkipTerminator(SpelledEnd(end, later)) == later && !Peek(SpelledEnd(end, later)).TString?
  {
    var later := SpelledSettings(ms, t);
    assert Separate(later);
    assert !end.Nothing? ==> SpelledEnd(end, later)[1..] == later;
  }

  /** A value, however it is spelled, is accepted with what it means, and what follows is left. */
  lemma {:induction false} ValueAccepted(v: Styled, t: seq<Token>)
    requires WellFormed(v) && !Peek(t).TString?
    ensures ParseValue(Spelled(v, t)) == Ok(Meant(v), t)
    decreases v, 1
  {
    hide ParseValue, ParseScalar, ParseArray, ParseList, ParseSettings, StartsScalar, SpelledAll, SpelledSettings;
    hide MeantAll, MeantSettings, SameType;
    match v {
      case Vector(elems) =>
        var inner := SpelledAll(elems, [TArrayEnd] + t);
        ParseBracketed(TArrayStart, inner);
        if elems == [] {
          NoneSpelled([TArrayEnd] + t);
        } else {
          FirstIsSimple(elems, [TArrayEnd] + t);
          ArrayAccepted(elems, [], t);
          PlusNothing(MeantAll(elems));
        }
      case Sequence(elems) =>
        var inner := SpelledAll(elems, [TListEnd] + t);
        ParseBracketed(TListStart, inner);
        if elems == [] {
          NoneSpelled([TListEnd] + t);
        } else {
          FirstIsNoEnd(elems, [TListEnd] + t);
          ListAccepted(elems, [], t);
          PlusNothing(MeantAll(elems));
        }
      case Block(settings) =>
        var inner := SpelledSettings(settings, [TGroupEnd] + t);
        ParseBracketed(TGroupStart, inner);
        SettingsRead(settings, [], [TGroupEnd] + t);
        ParseSettingsStep([TGroupEnd] + t, MeantSettings(settings));
        PlusNothing(MeantSettings(settings));
        assert ([TGroupEnd] + t)[1..] == t;
      case _ =>
        SimpleAccepted(v, t);
        ParseSimple(Spelled(v, t));
    }
  }

  lemma NoneSpelled(t: seq<Token>)
    ensures SpelledAll([], t) == t && MeantAll([]) == []
    ensures t != [] ==> Peek(t) == t[0] && t[1..] == t[1..]
  {}

  lemma FirstIsSimple(vs: seq<Styled>, t: seq<Token>)
    requires vs != [] && forall v | v in vs :: IsSimple(v) && WellFormed(v)
    ensures StartsScalar(SpelledAll(vs, t)) && Peek(SpelledAll(vs, t)) != TArrayEnd
  {
    assert vs[0] in vs;
  }

  lemma FirstIsNoEnd(vs: seq<Styled>, t: seq<Token>)
    requires vs != [] && WellFormed(vs[0])
    ensures Peek(SpelledAll(vs, t)) != TListEnd
  {}

  lemma AllUnfold(vs: seq<Styled>, t: seq<Token>)
    requires vs != []
    ensures SpelledAll(vs, t) == Spelled(vs[0], if |vs| == 1 then t else [TComma] + SpelledAll(vs[1..], t))
    ensures MeantAll(vs) == [Meant(vs[0])] + MeantAll(vs[1..])
  {
    hide Spelled, Meant;
  }

  lemma {:induction false} ArrayAccepted(vs: seq<Styled>, done: seq<Value>, t: seq<Token>)
    requires vs != [] && forall v | v in vs :: IsSimple(v) && WellFormed(v)
    requires forall i | 0 <= i < |vs| :: SameType(if done == [] then Meant(vs[0]) else done[0], Meant(vs[i]))
    ensures ParseArray(SpelledAll(vs, [TArrayEnd] + t), done) == Ok(done + MeantAll(vs), t)
    decreases |vs|
  {
    hide ParseScalar, ParseArray, StartsScalar, Spelled, SpelledAll, Meant, MeantAll, WellFormed, SameType;
    var v, end := vs[0], [TArrayEnd] + t;
    assert v in vs && forall w | w in vs[1..] :: w in vs;
    AllUnfold(vs, end);
    assert end[1..] == t;
    if |vs| == 1 {
      SimpleAccepted(v, end);
      ParseArrayStep(SpelledAll(vs, end), done);
      assert vs[1..] == [];
      NothingMeant();
      PlusNothing([Meant(v)]);
    } else {
      var later := SpelledAll(vs[1..], end);
      SimpleAccepted(v, [TComma] + later);
      assert ([TComma] + later)[1..] == later;
      ParseArrayStep(SpelledAll(vs, end), done);
      ArrayAccepted(vs[1..], done + [Meant(v)], t);
      Assoc(done, [Meant(v)], MeantAll(vs[1..]));
    }
  }

  lemma NothingMeant()
    ensures MeantAll([]) == []
  {}

  lemma {:induction false} ListAccepted(vs: seq<Styled>, done: seq<Value>, t: seq<Token>)
    requires vs != [] && forall v | v in vs :: WellFormed(v)
    ensures ParseList(SpelledAll(vs, [TListEnd] + t), done) == Ok(done + MeantAll(vs), t)
    decreases vs, 0
  {
    hide ParseValue, ParseList, Spelled, SpelledAll, Meant, MeantAll, WellFormed;
    var v, end := vs[0], [TListEnd] + t;
    assert v in vs && forall w | w in vs[1..] :: w in vs;
    AllUnfold(vs, end);
    assert end[1..] == t;
    ParseListStep(SpelledAll(vs, end), done);
    if |vs| == 1 {
      ValueAccepted(v, end);
      assert vs[1..] == [];
      NothingMeant();
      PlusNothing([Meant(v)]);
    } else {
      var later := SpelledAll(vs[1..], end);
      ValueAccepted(v, [TComma] + later);
      assert ([TComma] + later)[1..] == later;
      ListAccepted(vs[1..], done + [Meant(v)], t);
      Assoc(done, [Meant(v)], MeantAll(vs[1..]));
    }
  }

  lemma SettingsUnfold(ms: seq<StyledSetting>, t: seq<Token>)
    requires ms != []
    ensures SpelledSettings(ms, t) ==
            [TName(ms[0].name), TEquals] + Spelled(ms[0].value, SpelledEnd(ms[0].end, SpelledSettings(ms[1..], t)))
    ensures MeantSettings(ms) == [Member(ms[0].name, Meant(ms[0].value))] + MeantSettings(ms[1..])
  {
    hide Spelled, SpelledEnd, Meant;
  }

  lemma NoSettings(t: seq<Token>)
    ensures SpelledSettings([], t) == t && MeantSettings([]) == []
  {}

  /** The names of settings are new. */
  predicate NewNames(done: seq<Member>, ms: seq<StyledSetting>)
  {
    Distinct(ms) && forall m | m in ms :: !HasName(done, m.name)
  }

  lemma NewNamesStep(done: seq<Member>, ms: seq<StyledSetting>, v: Value)
    requires ms != []
    ensures NewNames(done, ms) ==> NewNames(done + [Member(ms[0].name, v)], ms[1..]) && !HasName(done, ms[0].name)
    ensures NewNames(done + [Member(ms[0].name, v)], ms[1..]) && !HasName(done, ms[0].name) ==> NewNames(done, ms)
  {
    var more, rest := done + [Member(ms[0].name, v)], ms[1..];
    forall name ensures HasName(more, name) <==> HasName(done, name) || name == ms[0].name {
      assert more[|done|].name == ms[0].name;
      if HasName(done, name) {
        var i :| 0 <= i < |done| && done[i].name == name;
        assert more[i].name == name;
      }
    }
    if NewNames(done, ms) {
      assert ms[0] in ms;
      forall m | m in rest ensures !HasName(more, m.name) {
        var i :| 0 <= i < |rest| && rest[i] == m;
        assert ms[i + 1] == m && m in ms;
      }
    }
    if NewNames(more, rest) && !HasName(done, ms[0].name) {
      forall i, j | 0 <= i < j < |ms| ensures ms[i].name != ms[j].name {
        assert rest[j - 1] == ms[j] && rest[j - 1] in rest;
        if i > 0 {
          assert rest[i - 1] == ms[i];
        }
      }
      forall m | m in ms ensures !HasName(done, m.name) {
        assert m == ms[0] || m in rest;
      }
    }
  }

  lemma {:induction false} SettingsRead(ms: seq<StyledSetting>, done: seq<Member>, t: seq<Token>)
    requires NewNames(done, ms) && forall m | m in ms :: ValidName(m.name) && WellFormed(m.value)
    requires Separate(t)
    ensures ParseSettings(SpelledSettings(ms, t), done) == ParseSettings(t, done + MeantSettings(ms))
    decreases ms, 0
  {
    hide ParseValue, ParseSettings, Spelled, SpelledSettings, SpelledEnd, Meant, MeantSettings;
    hide WellFormed, ValidName, NewNames, SkipTerminator, HasName;
    if ms == [] {
      NoSettings(t);
      PlusNothing(done);
    } else {
      var m := ms[0];
      assert m in ms && forall n | n in ms[1..] :: n in ms;
      var later := SpelledSettings(ms[1..], t);
      var tail := Spelled(m.value, SpelledEnd(m.end, later));
      SettingsUnfold(ms, t);
      AfterValue(m.end, ms[1..], t);
      ValueAccepted(m.value, SpelledEnd(m.end, later));
      NewNamesStep(done, ms, Meant(m.value));
      OneSetting(m.name, tail, done);
      SettingsRead(ms[1..], done + [Member(m.name, Meant(m.value))], t);
      Assoc(done, [Member(m.name, Meant(m.value))], MeantSettings(ms[1..]));
    }
  }

  lemma OneSetting(name: string, tail: seq<Token>, done: seq<Member>)
    ensures
      ParseSettings([TName(name), TEquals] + tail, done) ==
      if HasName(done, name) || !ValidName(name) then Fail(DuplicateName)
      else
        var p := ParseValue(tail);
        if p.Fail? then Fail(p.error)
        else ParseSettings(SkipTerminator(p.rest), done + [Member(name, p.value)])
  {
    hide ParseValue, ParseSettings, HasName, ValidName, SkipTerminator;
    var ts := [TName(name), TEquals] + tail;
    assert ts[1..] == [TEquals] + tail && ts[2..] == tail;
    ParseSettingsStep(ts, done);
  }

  // ----- everything accepted is so spelled -----

  lemma {:induction false} PiecesFound(ts: seq<Token>) returns (pieces: seq<string>)
    ensures ts == SpelledPieces(pieces, StringRun(ts).1) && Concat(pieces) == StringRun(ts).0
    ensures Peek(ts).TString? ==> pieces != []
  {
    pieces := [];
    if Peek(ts).TString? {
      var more := PiecesFound(ts[1..]);
      pieces := [ts[0].s] + more;
      assert pieces[1..] == more;
      assert ts == [ts[0]] + ts[1..];
    }
  }

  lemma SimpleFound(ts: seq<Token>) returns (v: Styled)
    requires StartsScalar(ts)
    ensures IsSimple(v) && WellFormed(v) && Meant(v) == ParseScalar(ts).0
    ensures ts == Spelled(v, ParseScalar(ts).1)
  {
    assert ts == [ts[0]] + ts[1..];
    match ts[0] {
      case TBoolean(b) => v := Flag(b);
      case TInteger(i) => v := Int(i, false);
      case THex(i) => v := Int(i, true);
      case TInteger64(l) => v := Long(l, false);
      case THex64(l) => v := Long(l, true);
      case TFloat(text) => v := Real(text);
      case TString(_) =>
        var pieces := PiecesFound(ts);
        v := Text(pieces);
    }
  }

  /** An accepted value is the spelling of some well-formed tree. */
  lemma {:induction false} ValueFound(ts: seq<Token>) returns (v: Styled)
    requires ParseValue(ts).Ok?
    ensures WellFormed(v) && Meant(v) == ParseValue(ts).value && ts == Spelled(v, ParseValue(ts).rest)
    decreases |ts|, 0
  {
    hide ParseScalar, ParseArray, ParseList, ParseSettings, StartsScalar, Spelled, Meant, WellFormed, ParseValue;
    if StartsScalar(ts) {
      ParseSimple(ts);
      v := SimpleFound(ts);
    } else {
      NotEmpty(ts);
      var inner := ts[1..];
      assert ts == [ts[0]] + inner;
      ParseBracketed(ts[0], inner);
      if ts[0] == TGroupStart {
        v := BlockFound(inner);
      } else if Peek(inner) == (if ts[0] == TArrayStart then TArrayEnd else TListEnd) {
        v := EmptyFound(ts[0], inner);
      } else if ts[0] == TArrayStart {
        v := VectorFound(inner);
      } else {
        v := SequenceFound(inner);
      }
    }
  }

  lemma EmptyFound(token: Token, inner: seq<Token>) returns (v: Styled)
    requires token in {TArrayStart, TListStart}
    requires Peek(inner) == (if token == TArrayStart then TArrayEnd else TListEnd)
    ensures WellFormed(v) && Meant(v) == (if token == TArrayStart then Array([]) else List([]))
    ensures [token] + inner == Spelled(v, inner[1..])
  {
    v := if token == TArrayStart then Vector([]) else Sequence([]);
    assert inner == [inner[0]] + inner[1..];
  }

  lemma VectorFound(inner: seq<Token>) returns (v: Styled)
    requires ParseArray(inner, []).Ok?
    ensures WellFormed(v) && Meant(v) == Array(ParseArray(inner, []).value)
    ensures [TArrayStart] + inner == Spelled(v, ParseArray(inner, []).rest)
    decreases |inner|, 2
  {
    hide ParseArray, SpelledAll, MeantAll, SameType;
    var vs := ArrayFound(inner, []);
    v := Vector(vs);
    PlusNothing(MeantAll(vs));
  }

  lemma SequenceFound(inner: seq<Token>) returns (v: Styled)
    requires ParseList(inner, []).Ok?
    ensures WellFormed(v) && Meant(v) == List(ParseList(inner, []).value)
    ensures [TListStart] + inner == Spelled(v, ParseList(inner, []).rest)
    decreases |inner|, 2
  {
    hide ParseList, SpelledAll, MeantAll;
    var vs := ListFound(inner, []);
    v := Sequence(vs);
    PlusNothing(MeantAll(vs));
  }

  lemma BlockFound(inner: seq<Token>) returns (v: Styled)
    requires ParseSettings(inner, []).Ok? && Peek(ParseSettings(inner, []).rest) == TGroupEnd
    ensures WellFormed(v) && Meant(v) == Group(ParseSettings(inner, []).value)
    ensures [TGroupStart] + inner == Spelled(v, ParseSettings(inner, []).rest[1..])
    decreases |inner|, 3
  {
    hide ParseSettings, SpelledSettings, MeantSettings, ValidName;
    var rest := ParseSettings(inner, []).rest;
    var ms := SettingsFound(inner, []);
    v := Block(ms);
    PlusNothing(MeantSettings(ms));
    assert rest == [TGroupEnd] + rest[1..];
  }

  lemma NotEmpty(ts: seq<Token>)
    requires ParseValue(ts).Ok? && !StartsScalar(ts)
    ensures ts != [] && ts[0] in {TArrayStart, TListStart, TGroupStart}
  {
    hide ParseArray, ParseList, ParseSettings, StartsScalar;
  }

  lemma {:induction false} ArrayFound(ts: seq<Token>, done: seq<Value>) returns (vs: seq<Styled>)
    requires ParseArray(ts, done).Ok?
    ensures vs != [] && forall v | v in vs :: IsSimple(v) && WellFormed(v)
    ensures forall i | 0 <= i < |vs| :: SameType(if done == [] then Meant(vs[0]) else done[0], Meant(vs[i]))
    ensures ParseArray(ts, done).value == done + MeantAll(vs)
    ensures ts == SpelledAll(vs, [TArrayEnd] + ParseArray(ts, done).rest)
    decreases |ts|, 1
  {
    hide ParseScalar, StartsScalar, Spelled, SpelledAll, Meant, MeantAll, WellFormed, SameType;
    var result := ParseArray(ts, done);
    var w, rest := ParseScalar(ts).0, ParseScalar(ts).1;
    var v := SimpleFound(ts);
    ParseArrayStep(ts, done);
    hide ParseArray;
    OwnType(w);
    if Peek(rest) == TComma {
      var later := ArrayFound(rest[1..], done + [w]);
      vs := [v] + later;
      assert vs[1..] == later && rest == [TComma] + rest[1..];
      Assoc(done, [w], MeantAll(later));
      AllUnfold(vs, [TArrayEnd] + result.rest);
      assert done == [] ==> (done + [w])[0] == w;
    } else {
      vs := [v];
      assert vs[1..] == [] && rest == [TArrayEnd] + rest[1..];
      NothingMeant();
      PlusNothing([w]);
      AllUnfold(vs, [TArrayEnd] + result.rest);
    }
  }

  lemma OwnType(v: Value)
    ensures SameType(v, v)
  {}

  lemma {:induction false} ListFound(ts: seq<Token>, done: seq<Value>) returns (vs: seq<Styled>)
    requires ParseList(ts, done).Ok?
    ensures vs != [] && forall v | v in vs :: WellFormed(v)
    ensures ParseList(ts, done).value == done + MeantAll(vs)
    ensures ts == SpelledAll(vs, [TListEnd] + ParseList(ts, done).rest)
    decreases |ts|, 1
  {
    hide ParseValue, Spelled, SpelledAll, Meant, MeantAll, WellFormed;
    var result, p := ParseList(ts, done), ParseValue(ts);
    ParseListStep(ts, done);
    hide ParseList;
    var v := ValueFound(ts);
    var w, rest := p.value, p.rest;
    if Peek(rest) == TComma {
      var later := ListFound(rest[1..], done + [w]);
      vs := [v] + later;
      assert vs[1..] == later && rest == [TComma] + rest[1..];
      Assoc(done, [w], MeantAll(later));
      AllUnfold(vs, [TListEnd] + result.rest);
    } else {
      vs := [v];
      assert vs[1..] == [] && rest == [TListEnd] + rest[1..];
      NothingMeant();
      PlusNothing([w]);
      AllUnfold(vs, [TListEnd] + result.rest);
    }
  }

  lemma EndFound(rest: seq<Token>) returns (end: Terminator)
    ensures rest == SpelledEnd(end, SkipTerminator(rest))
  {
    end := if Peek(rest) == TSemicolon then Semicolon else if Peek(rest) == TComma then Comma else Nothing;
    assert rest != [] ==> rest == [rest[0]] + rest[1..];
  }

  lemma {:induction false} SettingsFound(ts: seq<Token>, done: seq<Member>) returns (ms: seq<StyledSetting>)
    requires ParseSettings(ts, done).Ok?
    ensures NewNames(done, ms) && forall m | m in ms :: ValidName(m.name) && WellFormed(m.value)
    ensures ParseSettings(ts, done).value == done + MeantSettings(ms)
    ensures ts == SpelledSettings(ms, ParseSettings(ts, done).rest)
    decreases |ts|, 2
  {
    hide ParseValue, Spelled, SpelledSettings, SpelledEnd, Meant, MeantSettings, WellFormed, ValidName, NewNames;
    hide SkipTerminator, HasName;
    var result := ParseSettings(ts, done);
    ParseSettingsStep(ts, done);
    hide ParseSettings;
    ms := [];
    if Peek(ts).TName? {
      var name, tail := ts[0].name, ts[2..];
      var v := ValueFound(tail);
      var p := ParseValue(tail);
      var end := EndFound(p.rest);
      var later := SettingsFound(SkipTerminator(p.rest), done + [Member(name, p.value)]);
      ms := [StyledSetting(name, v, end)] + later;
      assert ms[1..] == later && ms[0].name == name;
      assert ts == [TName(name), TEquals] + tail;
      SettingsUnfold(ms, result.rest);
      NewNamesStep(done, ms, p.value);
      Assoc(done, [Member(name, p.value)], MeantSettings(later));
    } else {
      NoSettings(ts);
      NothingNew(done);
      PlusNothing(done);
    }
  }

  lemma NothingNew(done: seq<Member>)
    ensures NewNames(done, [])
  {}

  // ----- whole configurations -----

  ghost predicate Spells(ts: seq<Token>, root: Value, ms: seq<StyledSetting>)
  {
    ts == SpelledSettings(ms, []) && root == Group(MeantSettings(ms)) && WellFormed(Block(ms))
  }

  /** The parser accepts exactly the spellings of well-formed configurations, and gives the tree
      that is meant: settings end with a semicolon, a comma or nothing, strings may be split into
      adjacent ones, and every kind of token is taken as what it is. */
  lemma AcceptedExactly(ts: seq<Token>, root: Value)
    ensures ParseConfig(ts) == Ok(root, []) <==> exists ms :: Spells(ts, root, ms)
  {
    hide ParseSettings, SpelledSettings, MeantSettings, ValidName;
    if ParseConfig(ts) == Ok(root, []) {
      var ms := SettingsFound(ts, []);
      PlusNothing(MeantSettings(ms));
      assert Spells(ts, root, ms);
    }
    forall ms | Spells(ts, root, ms) ensures ParseConfig(ts) == Ok(root, []) {
      SettingsRead(ms, [], []);
      ParseSettingsStep([], MeantSettings(ms));
      PlusNothing(MeantSettings(ms));
    }
  }

  /** A name that is taken, or not valid, is reported as soon as it is read. */
  lemma TakenNameRejected(ms: seq<StyledSetting>, name: string, t: seq<Token>)
    requires WellFormed(Block(ms)) && (!ValidName(name) || exists m | m in ms :: m.name == name)
    ensures ParseConfig(SpelledSettings(ms, [TName(name)] + t)) == Fail(DuplicateName)
  {
    hide ParseSettings, SpelledSettings, ValidName;
    var u := [TName(name)] + t;
    SettingsRead(ms, [], u);
    PlusNothing(MeantSettings(ms));
    ParseSettingsStep(u, MeantSettings(ms));
    if m :| m in ms && m.name == name {
      var i :| 0 <= i < |ms| && ms[i] == m;
      assert MeantSettings(ms)[i].name == name;
    }
  }

  lemma {:induction false} ArrayRead(vs: seq<Styled>, done: seq<Value>, u: seq<Token>)
    requires vs != [] && forall v | v in vs :: IsSimple(v) && WellFormed(v)
    requires forall i | 0 <= i < |vs| :: SameType(if done == [] then Meant(vs[0]) else done[0], Meant(vs[i]))
    ensures ParseArray(SpelledAll(vs, [TComma] + u), done) == ParseArray(u, done + MeantAll(vs))
    decreases |vs|
  {
    hide ParseScalar, ParseArray, StartsScalar, Spelled, SpelledAll, Meant, MeantAll, WellFormed, SameType;
    var v, end := vs[0], [TComma] + u;
    assert v in vs && forall w | w in vs[1..] :: w in vs;
    AllUnfold(vs, end);
    var later := if |vs| == 1 then u else SpelledAll(vs[1..], end);
    SimpleAccepted(v, [TComma] + later);
    assert ([TComma] + later)[1..] == later;
    ParseArrayStep(SpelledAll(vs, end), done);
    if |vs| == 1 {
      assert vs[1..] == [];
      NothingMeant();
      PlusNothing([Meant(v)]);
    } else {
      ArrayRead(vs[1..], done + [Meant(v)], u);
      Assoc(done, [Meant(v)], MeantAll(vs[1..]));
    }
  }

  /** An array element of another type than the first is reported. */
  lemma MixedArrayRejected(vs: seq<Styled>, w: Styled, t: seq<Token>)
    requires vs != [] && WellFormed(Vector(vs)) && IsSimple(w) && WellFormed(w) && !Peek(t).TString?
    requires !SameType(Meant(vs[0]), Meant(w))
    ensures ParseValue([TArrayStart] + SpelledAll(vs, [TComma] + Spelled(w, t))) == Fail(MismatchedType)
  {
    hide ParseArray, SpelledAll, Spelled, StartsScalar, ParseScalar, SameType, ParseValue;
    var u := Spelled(w, t);
    ParseBracketed(TArrayStart, SpelledAll(vs, [TComma] + u));
    FirstIsSimple(vs, [TComma] + u);
    ArrayRead(vs, [], u);
    PlusNothing(MeantAll(vs));
    SimpleAccepted(w, t);
    ParseArrayStep(u, MeantAll(vs));
  }
}
