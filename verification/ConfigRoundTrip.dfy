/** Reading back what the writer printed. */
module ConfigRoundTrip {
  import opened ConfigTree
  import opened ConfigScanner
  import opened ConfigWriter
  import opened ConfigTokens
  import opened ConfigScanBack
  import opened ConfigGrammar

  lemma {:induction false} ParseValueBack(v: Value, default: Format, t: seq<Token>)
    requires Printable(v) && Unambiguous(v) && !Peek(t).TString?
    ensures ParseValue(ValueTokens(v, default) + t) == Ok(Effective(v, default), t)
    decreases v, 1
  {
    hide ParseValue, ParseScalar, ParseArray, ParseList, ParseSettings, ValueTokens, ElemTokens, MemberTokens;
    hide Effective, EffectiveAll, EffectiveMembers;
    match v
    case Array(elems) =>
      if elems != [] {
        ScalarFirst(elems, default, [TArrayEnd] + t);
        ParseArrayBack(elems, default, [], elems[0], t);
      }
      BracketedBack(v, elems, default, t);
    case List(elems) =>
      if elems != [] {
        ValueFirst(elems, default, [TListEnd] + t);
        ParseListBack(elems, default, [], t);
      }
      BracketedBack(v, elems, default, t);
    case Group(members) =>
      assert [] + members == members;
      ParseSettingsBack(members, default, [], [TGroupEnd] + t);
      GroupBack(members, default, t);
    case _ =>
      ParseScalarBack(v, default, t);
      ScalarIsValue(v, default, t);
  }

  lemma ScalarIsValue(v: Value, default: Format, t: seq<Token>)
    requires StartsScalar(ValueTokens(v, default) + t)
    requires ParseScalar(ValueTokens(v, default) + t) == (Effective(v, default), t)
    ensures ParseValue(ValueTokens(v, default) + t) == Ok(Effective(v, default), t)
  {
    hide ParseScalar, ParseArray, ParseList, ParseSettings, ValueTokens, Effective;
  }

  lemma GroupBack(ms: seq<Member>, default: Format, t: seq<Token>)
    requires ParseSettings(MemberTokens(ms, default) + ([TGroupEnd] + t), []) ==
             Ok([] + EffectiveMembers(ms, default), [TGroupEnd] + t)
    ensures ParseValue(ValueTokens(Group(ms), default) + t) == Ok(Effective(Group(ms), default), t)
  {
    hide ParseValue, ParseSettings, MemberTokens, ValueTokens, Effective, EffectiveMembers;
    var inner := MemberTokens(ms, default) + ([TGroupEnd] + t);
    BraceTokens(ms, default, t);
    EffectiveGroup(ms, default);
    assert [] + EffectiveMembers(ms, default) == EffectiveMembers(ms, default);
    InBraces(inner, EffectiveMembers(ms, default), t);
  }

  lemma BraceTokens(ms: seq<Member>, default: Format, t: seq<Token>)
    ensures ValueTokens(Group(ms), default) + t == [TGroupStart] + (MemberTokens(ms, default) + ([TGroupEnd] + t))
  {
    hide MemberTokens;
  }

  lemma InBraces(inner: seq<Token>, ms: seq<Member>, t: seq<Token>)
    requires ParseSettings(inner, []) == Ok(ms, [TGroupEnd] + t)
    ensures ParseValue([TGroupStart] + inner) == Ok(Group(ms), t)
  {
    hide ParseScalar, ParseArray, ParseList, ParseSettings;
    assert ([TGroupStart] + inner)[1..] == inner;
    assert ([TGroupEnd] + t)[1..] == t;
  }

  lemma InBrackets(inner: seq<Token>, vs: seq<Value>, t: seq<Token>)
    requires StartsScalar(inner) && ParseArray(inner, []) == Ok(vs, t)
    ensures ParseValue([TArrayStart] + inner) == Ok(Array(vs), t)
  {
    hide ParseScalar, ParseArray, ParseList, ParseSettings;
    assert ([TArrayStart] + inner)[1..] == inner;
  }

  lemma InParentheses(inner: seq<Token>, vs: seq<Value>, t: seq<Token>)
    requires Peek(inner) != TListEnd && ParseList(inner, []) == Ok(vs, t)
    ensures ParseValue([TListStart] + inner) == Ok(List(vs), t)
  {
    hide ParseScalar, ParseArray, ParseList, ParseSettings;
    assert ([TListStart] + inner)[1..] == inner;
  }

  lemma EmptyBrackets(t: seq<Token>)
    ensures ParseValue([TArrayStart, TArrayEnd] + t) == Ok(Array([]), t)
    ensures ParseValue([TListStart, TListEnd] + t) == Ok(List([]), t)
  {
    hide ParseScalar, ParseArray, ParseList, ParseSettings;
    assert ([TArrayStart, TArrayEnd] + t)[2..] == t;
    assert ([TListStart, TListEnd] + t)[2..] == t;
  }

  /** The two bracketed forms, given what their elements parse to. */
  lemma BracketedBack(v: Value, elems: seq<Value>, default: Format, t: seq<Token>)
    requires v == Array(elems) || v == List(elems)
    requires
      var inner := ElemTokens(elems, default) + ([if v.Array? then TArrayEnd else TListEnd] + t);
      elems != [] ==>
        if v.Array? then StartsScalar(inner) && ParseArray(inner, []) == Ok([] + EffectiveAll(elems, default), t)
        else Peek(inner) != TListEnd && ParseList(inner, []) == Ok([] + EffectiveAll(elems, default), t)
    ensures ParseValue(ValueTokens(v, default) + t) == Ok(Effective(v, default), t)
  {
    hide ParseValue, ParseScalar, ParseArray, ParseList, ValueTokens, ElemTokens, Effective, EffectiveAll, StartsScalar;
    var inner := ElemTokens(elems, default) + ([if v.Array? then TArrayEnd else TListEnd] + t);
    var vs := EffectiveAll(elems, default);
    BracketTokens(v, elems, default, t);
    assert [] + vs == vs;
    if elems == [] {
      NoElements(default);
      EmptyBrackets(t);
    } else if v.Array? {
      InBrackets(inner, vs, t);
    } else {
      InParentheses(inner, vs, t);
    }
  }

  lemma BracketTokens(v: Value, elems: seq<Value>, default: Format, t: seq<Token>)
    requires v == Array(elems) || v == List(elems)
    ensures
      var open := if v.Array? then TArrayStart else TListStart;
      var shut := if v.Array? then TArrayEnd else TListEnd;
      && ValueTokens(v, default) + t == [open] + (ElemTokens(elems, default) + ([shut] + t))
      && (elems == [] ==> ValueTokens(v, default) + t == [open, shut] + t)
    ensures Effective(v, default) ==
            if v.Array? then Array(EffectiveAll(elems, default)) else List(EffectiveAll(elems, default))
  {
    NoElements(default);
    hide ElemTokens, EffectiveAll;
  }

  lemma NoElements(default: Format)
    ensures ElemTokens([], default) == [] && EffectiveAll([], default) == []
  {}

  lemma EffectiveGroup(ms: seq<Member>, default: Format)
    ensures Effective(Group(ms), default) == Group(EffectiveMembers(ms, default))
  {}

  lemma ElemTokensCons(vs: seq<Value>, default: Format, t: seq<Token>)
    requires vs != []
    ensures ElemTokens(vs, default) + t ==
            ValueTokens(vs[0], default) + (if |vs| > 1 then [TComma] + (ElemTokens(vs[1..], default) + t) else t)
  {
    hide ValueTokens;
    var here, later := ValueTokens(vs[0], default), ElemTokens(vs[1..], default);
    if |vs| > 1 {
      assert ElemTokens(vs, default) == here + [TComma] + later;
      assert here + [TComma] + later + t == here + ([TComma] + (later + t));
    } else {
      assert ElemTokens(vs, default) == here + [] + [];
      assert here + [] + [] == here;
    }
  }

  lemma EffectiveCons(vs: seq<Value>, default: Format)
    requires vs != []
    ensures EffectiveAll(vs, default) == [Effective(vs[0], default)] + EffectiveAll(vs[1..], default)
    ensures |vs| == 1 ==> EffectiveAll(vs, default) == [Effective(vs[0], default)]
  {
    hide Effective;
  }

  lemma ParseScalarBack(v: Value, default: Format, t: seq<Token>)
    requires Printable(v) && IsScalar(v) && !Peek(t).TString?
    ensures StartsScalar(ValueTokens(v, default) + t)
    ensures ParseScalar(ValueTokens(v, default) + t) == (Effective(v, default), t)
  {
    var ts := ValueTokens(v, default) + t;
    assert ts[1..] == t;
    if v.Str? {
      assert StringRun(t) == ("", t);
      assert v.s + "" == v.s;
    }
  }

  lemma ScalarFirst(vs: seq<Value>, default: Format, t: seq<Token>)
    requires vs != [] && forall v | v in vs :: IsScalar(v)
    ensures StartsScalar(ElemTokens(vs, default) + t)
  {
    assert vs[0] in vs;
  }

  lemma ValueFirst(vs: seq<Value>, default: Format, t: seq<Token>)
    requires vs != []
    ensures Peek(ElemTokens(vs, default) + t) != TListEnd
  {}

  lemma SameTypeChain(u: Value, v: Value, w: Value)
    requires SameType(u, v) && SameType(v, w)
    ensures SameType(u, w)
  {}

  lemma {:induction false} ParseArrayBack(vs: seq<Value>, default: Format, done: seq<Value>, kind: Value, t: seq<Token>)
    requires vs != [] && forall v | v in vs :: Printable(v) && IsScalar(v) && SameType(kind, v)
    requires done != [] ==> SameType(done[0], kind)
    ensures ParseArray(ElemTokens(vs, default) + ([TArrayEnd] + t), done) == Ok(done + EffectiveAll(vs, default), t)
    decreases |vs|
  {
    hide ParseScalar, ParseValue, Printable, ElemTokens, ValueTokens, EffectiveAll, Effective;
    hide SameType, IsScalar, StartsScalar;
    assert vs[0] in vs && forall v | v in vs[1..] :: v in vs;
    var v' := Effective(vs[0], default);
    SameTypeChain(kind, vs[0], v');
    if done != [] {
      SameTypeChain(done[0], kind, v');
    } else {
      TypeIsOwn(kind, v');
      assert (done + [v'])[0] == v';
    }
    hide ParseArray;
    ElemTokensCons(vs, default, [TArrayEnd] + t);
    EffectiveCons(vs, default);
    if |vs| == 1 {
      ParseScalarBack(vs[0], default, [TArrayEnd] + t);
      LastElement(ElemTokens(vs, default) + ([TArrayEnd] + t), done, v', t);
    } else {
      var later := ElemTokens(vs[1..], default) + ([TArrayEnd] + t);
      ParseScalarBack(vs[0], default, [TComma] + later);
      MoreElements(ElemTokens(vs, default) + ([TArrayEnd] + t), done, v', later);
      ParseArrayBack(vs[1..], default, done + [v'], kind, t);
      assert done + [v'] + EffectiveAll(vs[1..], default) == done + ([v'] + EffectiveAll(vs[1..], default));
    }
  }

  lemma LastElement(ts: seq<Token>, done: seq<Value>, v: Value, t: seq<Token>)
    requires StartsScalar(ts) && ParseScalar(ts) == (v, [TArrayEnd] + t)
    requires done != [] ==> SameType(done[0], v)
    ensures ParseArray(ts, done) == Ok(done + [v], t)
  {
    hide ParseScalar, StartsScalar, SameType;
    assert ([TArrayEnd] + t)[1..] == t;
  }

  lemma MoreElements(ts: seq<Token>, done: seq<Value>, v: Value, later: seq<Token>)
    requires StartsScalar(ts) && ParseScalar(ts) == (v, [TComma] + later)
    requires done != [] ==> SameType(done[0], v)
    ensures ParseArray(ts, done) == ParseArray(later, done + [v])
  {
    hide ParseScalar, StartsScalar, SameType;
    assert ([TComma] + later)[1..] == later;
  }

  lemma TypeIsOwn(u: Value, v: Value)
    requires SameType(u, v)
    ensures SameType(v, u)
  {}

  lemma {:induction false} ParseListBack(vs: seq<Value>, default: Format, done: seq<Value>, t: seq<Token>)
    requires vs != [] && forall v | v in vs :: Printable(v) && Unambiguous(v)
    ensures ParseList(ElemTokens(vs, default) + ([TListEnd] + t), done) == Ok(done + EffectiveAll(vs, default), t)
    decreases vs, 0
  {
    hide ParseValue, Printable, Unambiguous, ElemTokens, ValueTokens, EffectiveAll, Effective;
    assert vs[0] in vs && forall v | v in vs[1..] :: v in vs;
    var v' := Effective(vs[0], default);
    ElemTokensCons(vs, default, [TListEnd] + t);
    EffectiveCons(vs, default);
    if |vs| == 1 {
      assert ([TListEnd] + t)[1..] == t;
      ParseValueBack(vs[0], default, [TListEnd] + t);
    } else {
      var later := ElemTokens(vs[1..], default) + ([TListEnd] + t);
      assert ([TComma] + later)[1..] == later;
      ParseValueBack(vs[0], default, [TComma] + later);
      ParseListBack(vs[1..], default, done + [v'], t);
      assert done + [v'] + EffectiveAll(vs[1..], default) == done + ([v'] + EffectiveAll(vs[1..], default));
    }
  }

  lemma {:induction false} ParseSettingsBack(ms: seq<Member>, default: Format, done: seq<Member>, t: seq<Token>)
    requires forall m | m in ms :: ValidName(m.name) && Printable(m.value) && !IsKeyword(m.name) && Unambiguous(m.value)
    requires DistinctNames(done + ms)
    requires !Peek(t).TName?
    ensures ParseSettings(MemberTokens(ms, default) + t, done) == Ok(done + EffectiveMembers(ms, default), t)
    decreases ms, 0
  {
    hide ParseValue, Printable, Unambiguous, ValueTokens, ValidName, IsKeyword, MemberTokens, EffectiveMembers;
    hide Effective, DistinctNames;
    if ms == [] {
      NoMembers(default);
      assert [] + t == t && done + [] == done;
    } else {
      assert ms[0] in ms && forall m | m in ms[1..] :: m in ms;
      var m := ms[0];
      var m' := Member(m.name, Effective(m.value, default));
      var later := MemberTokens(ms[1..], default) + t;
      var tail := ValueTokens(m.value, default) + ([TSemicolon] + later);
      MemberTokensCons(ms, default, t);
      RenamedDistinct(done, ms, m');
      ParseValueBack(m.value, default, [TSemicolon] + later);
      hide ParseSettings;
      PlainName(m.name);
      OneSetting(m.name, tail, done, m'.value, later);
      ParseSettingsBack(ms[1..], default, done + [m'], t);
      assert done + [m'] + EffectiveMembers(ms[1..], default) == done + ([m'] + EffectiveMembers(ms[1..], default));
    }
  }

  lemma OneSetting(name: string, tail: seq<Token>, done: seq<Member>, v: Value, later: seq<Token>)
    requires ValidName(name) && !HasName(done, name)
    requires ParseValue(tail) == Ok(v, [TSemicolon] + later)
    ensures ParseSettings([TName(name), TEquals] + tail, done) == ParseSettings(later, done + [Member(name, v)])
  {
    hide ValidName, HasName, ParseValue;
    var ts := [TName(name), TEquals] + tail;
    assert ts[1..] == [TEquals] + tail && ts[2..] == tail;
    assert ([TSemicolon] + later)[1..] == later;
  }

  lemma NoMembers(default: Format)
    ensures MemberTokens([], default) == [] && EffectiveMembers([], default) == []
  {}

  lemma MemberTokensCons(ms: seq<Member>, default: Format, t: seq<Token>)
    requires ms != []
    ensures MemberTokens(ms, default) + t ==
            [KeywordToken(ms[0].name), TEquals] +
            (ValueTokens(ms[0].value, default) + ([TSemicolon] + (MemberTokens(ms[1..], default) + t)))
    ensures EffectiveMembers(ms, default) ==
            [Member(ms[0].name, Effective(ms[0].value, default))] + EffectiveMembers(ms[1..], default)
  {
    hide ValueTokens, Effective, KeywordToken;
  }

  lemma PlainName(name: string)
    ensures !IsKeyword(name) ==> KeywordToken(name) == TName(name)
    ensures IsKeyword(name) ==> KeywordToken(name).TBoolean?
  {}

  lemma RenamedDistinct(done: seq<Member>, ms: seq<Member>, m': Member)
    requires ms != [] && DistinctNames(done + ms) && m'.name == ms[0].name
    ensures DistinctNames(done + [m'] + ms[1..])
    ensures !HasName(done, m'.name)
  {
    var a, b := done + ms, done + [m'] + ms[1..];
    assert forall i | 0 <= i < |a| :: a[i].name == b[i].name;
    assert forall i | 0 <= i < |done| :: a[i] == done[i];
    assert a[|done|] == ms[0];
  }

  /** What `config_read` makes of a text, when the files it includes are `fs`. */
  function Read(fs: Files, text: string): Parsed<Value>
  {
    ParseConfig(Tokens(fs, text))
  }

  // ----- names that read as booleans -----

  /** A value with such a name in it is not accepted. */
  lemma {:induction false} ParseValueBad(v: Value, default: Format, t: seq<Token>)
    requires Printable(v) && !Unambiguous(v)
    ensures ParseValue(ValueTokens(v, default) + t) == Fail(SyntaxError)
    decreases v, 1
  {
    hide ParseValue, ParseList, ParseSettings, ValueTokens, ElemTokens, MemberTokens;
    match v
    case Array(elems) =>
      ScalarsUnambiguous(elems);
      assert false;
    case List(elems) =>
      ParseListBad(elems, default, [], t);
      BracketTokens(v, elems, default, t);
      ValueFirst(elems, default, [TListEnd] + t);
      BadParentheses(ElemTokens(elems, default) + ([TListEnd] + t));
    case Group(members) =>
      assert [] + members == members;
      ParseSettingsBad(members, default, [], [TGroupEnd] + t);
      BraceTokens(members, default, t);
      BadBraces(MemberTokens(members, default) + ([TGroupEnd] + t));
    case _ =>
      assert false;
  }

  lemma ScalarsUnambiguous(vs: seq<Value>)
    requires forall v | v in vs :: IsScalar(v)
    ensures forall v | v in vs :: Unambiguous(v)
  {}

  lemma BadParentheses(inner: seq<Token>)
    requires Peek(inner) != TListEnd && ParseList(inner, []) == Fail(SyntaxError)
    ensures ParseValue([TListStart] + inner) == Fail(SyntaxError)
  {
    hide ParseScalar, ParseArray, ParseList, ParseSettings;
    assert ([TListStart] + inner)[1..] == inner;
  }

  lemma BadBraces(inner: seq<Token>)
    requires StopsAtBoolean(ParseSettings(inner, []))
    ensures ParseValue([TGroupStart] + inner) == Fail(SyntaxError)
  {
    hide ParseScalar, ParseArray, ParseList, ParseSettings;
    assert ([TGroupStart] + inner)[1..] == inner;
  }

  /** Settings that fail, or end where a boolean stands in place of a name. */
  predicate StopsAtBoolean(r: Parsed<seq<Member>>)
  {
    match r
    case Ok(_, rest) => Peek(rest).TBoolean?
    case Fail(e) => e == SyntaxError
  }

  lemma {:induction false} ParseListBad(vs: seq<Value>, default: Format, done: seq<Value>, t: seq<Token>)
    requires (forall v | v in vs :: Printable(v)) && !(forall v | v in vs :: Unambiguous(v))
    ensures ParseList(ElemTokens(vs, default) + ([TListEnd] + t), done) == Fail(SyntaxError)
    decreases vs, 0
  {
    hide ParseValue, Printable, Unambiguous, ElemTokens, ValueTokens, Effective;
    var first, later := vs[0], ElemTokens(vs[1..], default) + ([TListEnd] + t);
    assert first in vs && forall v | v in vs[1..] :: v in vs;
    assert forall v | v in vs :: v == first || v in vs[1..];
    ElemTokensCons(vs, default, [TListEnd] + t);
    if !Unambiguous(first) {
      ParseValueBad(first, default, if |vs| > 1 then [TComma] + later else [TListEnd] + t);
    } else {
      assert ([TComma] + later)[1..] == later;
      ParseValueBack(first, default, [TComma] + later);
      ParseListBad(vs[1..], default, done + [Effective(first, default)], t);
    }
  }

  predicate Readable(m: Member) { !IsKeyword(m.name) && Unambiguous(m.value) }

  lemma {:induction false} ParseSettingsBad(ms: seq<Member>, default: Format, done: seq<Member>, t: seq<Token>)
    requires (forall m | m in ms :: ValidName(m.name) && Printable(m.value)) && !(forall m | m in ms :: Readable(m))
    requires DistinctNames(done + ms)
    ensures StopsAtBoolean(ParseSettings(MemberTokens(ms, default) + t, done))
    decreases ms, 0
  {
    hide ParseValue, Printable, Unambiguous, ValueTokens, ValidName, IsKeyword, MemberTokens, Effective, DistinctNames;
    var m, later := ms[0], MemberTokens(ms[1..], default) + t;
    assert m in ms && forall n | n in ms[1..] :: n in ms;
    assert forall n | n in ms :: n == m || n in ms[1..];
    var tail := ValueTokens(m.value, default) + ([TSemicolon] + later);
    MemberTokensCons(ms, default, t);
    PlainName(m.name);
    var m' := Member(m.name, Effective(m.value, default));
    RenamedDistinct(done, ms, m');
    if IsKeyword(m.name) {
      NoSettings([KeywordToken(m.name), TEquals] + tail, done);
    } else if !Unambiguous(m.value) {
      ParseValueBad(m.value, default, [TSemicolon] + later);
      BadSetting(m.name, tail, done);
    } else {
      ParseValueBack(m.value, default, [TSemicolon] + later);
      OneSetting(m.name, tail, done, m'.value, later);
      ParseSettingsBad(ms[1..], default, done + [m'], t);
    }
  }

  lemma NoSettings(ts: seq<Token>, done: seq<Member>)
    requires Peek(ts).TBoolean?
    ensures ParseSettings(ts, done) == Ok(done, ts)
  {}

  lemma BadSetting(name: string, tail: seq<Token>, done: seq<Member>)
    requires ValidName(name) && !HasName(done, name) && ParseValue(tail) == Fail(SyntaxError)
    ensures ParseSettings([TName(name), TEquals] + tail, done) == Fail(SyntaxError)
  {
    hide ValidName, HasName, ParseValue;
    var ts := [TName(name), TEquals] + tail;
    assert ts[1..] == [TEquals] + tail && ts[2..] == tail;
  }

  // ----- the round trip -----

  /** Writing a configuration and reading it back gives the same tree, with every number in the
      format it was printed in, for every tab width and every default format: exactly when
      no setting is named like a boolean. Otherwise reading fails. */
  lemma ReadWrite(fs: Files, root: Value, default: Format, width: nat)
    requires root.Group? && Printable(root)
    ensures Read(fs, PrintConfig(root, default, width)) ==
            if Unambiguous(root) then Ok(Effective(root, default), []) else Fail(SyntaxError)
  {
    hide ScanText, PrintConfig, ParseSettings, MemberTokens, EffectiveMembers;
    hide ValidName, Printable, Unambiguous, IsKeyword;
    var ms := root.members;
    PrintableGroup(ms);
    ScanConfig(fs, ms, default, width);
    assert [] + ms == ms && MemberTokens(ms, default) + [] == MemberTokens(ms, default);
    if Unambiguous(root) {
      ParseSettingsBack(ms, default, [], []);
      assert [] + EffectiveMembers(ms, default) == EffectiveMembers(ms, default);
      EffectiveGroup(ms, default);
    } else {
      ParseSettingsBad(ms, default, [], []);
    }
  }

  lemma PrintableGroup(ms: seq<Member>)
    requires Printable(Group(ms))
    ensures DistinctNames(ms) && forall m | m in ms :: ValidName(m.name) && Printable(m.value)
    ensures Unambiguous(Group(ms)) <==> forall m | m in ms :: Readable(m)
    ensures Unambiguous(Group(ms)) ==> forall m | m in ms :: !IsKeyword(m.name) && Unambiguous(m.value)
  {
    hide IsKeyword, ValidName;
  }

  /** With the default number format the tree comes back unchanged. */
  lemma ReadWritePlain(fs: Files, root: Value, width: nat)
    requires root.Group? && Printable(root)
    ensures Read(fs, PrintConfig(root, Plain, width)) == Ok(root, []) <==> Unambiguous(root)
  {
    hide Read, PrintConfig, Printable, Effective, Unambiguous;
    ReadWrite(fs, root, Plain, width);
    EffectivePlain(root);
  }

  /** One setting, `True = 1;`. */
  const KeywordNamed: Value := Group([Member("True", Integer(1, Plain))])

  lemma KeywordNamedIsPrintable()
    ensures Printable(KeywordNamed) && !Unambiguous(KeywordNamed)
  {
    var m := KeywordNamed.members[0];
    assert m.name == "True" && ValidName("True");
    assert LowerAll("True") == "true" by {
      var t := LowerAll("True");
      assert t[0] == 't' && t[1] == 'r' && t[2] == 'u' && t[3] == 'e';
    }
    assert IsKeyword(m.name);
  }

  /** It can be written, but what is written is not accepted. */
  lemma KeywordNamedIsRejected(fs: Files, default: Format, width: nat)
    ensures Printable(KeywordNamed) && Read(fs, PrintConfig(KeywordNamed, default, width)) == Fail(SyntaxError)
  {
    hide Printable, Unambiguous, Read, PrintConfig;
    KeywordNamedIsPrintable();
    ReadWrite(fs, KeywordNamed, default, width);
  }
}
