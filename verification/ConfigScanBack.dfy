/** The scanner applied to the writer's output, for every printable tree, tab width
    and default format. */
module ConfigScanBack {
  import opened CLibrary
  import opened ConfigTree
  import opened ConfigScanner
  import opened ConfigWriter
  import opened ConfigTokens

  lemma PrependTwice(a: seq<Token>, b: seq<Token>, r: Scan)
    ensures Prepend(a, Prepend(b, r)) == Prepend(a + b, r)
  {
    assert a + (b + r.tokens) == (a + b) + r.tokens;
  }

  lemma FirstCharacter(v: Value, default: Format, depth: nat, width: nat, t: string)
    requires Printable(v) && depth > 0
    ensures NotInclude(PrintValue(v, default, depth, width) + t)
  {
    match v
    case Integer(i, fmt) => FirstDigit(i);
    case Integer64(l, fmt) => FirstDigit(l);
    case _ =>
  }

  lemma FirstDigit(i: int)
    ensures IsDigit(Decimal(i)[0]) || Decimal(i)[0] == '-'
  {
    var magnitude := if i < 0 then -i else i;
    ToBaseRoundTrip(magnitude, 10, true);
    var ds := ToBase(magnitude, 10, true);
    assert ds[0] in ds;
  }

  lemma {:induction false} ScanValue(fs: Files, v: Value, default: Format, depth: nat, width: nat, t: string, d: nat)
    requires Printable(v) && depth > 0 && Ends(t)
    ensures ScanText(fs, PrintValue(v, default, depth, width) + t, Plainly(false), d) ==
            Prepend(ValueTokens(v, default), ScanText(fs, t, Plainly(false), d))
    decreases v, 1
  {
    hide ScanText, PrintInteger, PrintInteger64, Escape, Indent, Prepend, PrintElems, PrintMembers,
      ElemTokens, MemberTokens;
    match v
    case Boolean(b) => ScanBoolean(fs, b, t, d);
    case Integer(i, fmt) => ScanInteger(fs, i, EffectiveFormat(fmt, default), t, d);
    case Integer64(l, fmt) => ScanInteger64(fs, l, EffectiveFormat(fmt, default), t, d);
    case Str(s) => ScanString(fs, s, t, d);
    case Array(elems) => ScanBracketed(fs, '[', elems, ']', default, depth, width, t, d);
    case List(elems) => ScanBracketed(fs, '(', elems, ')', default, depth, width, t, d);
    case Group(members) =>
      var close := Indent(depth, width) + ("}" + t);
      ScanMembers(fs, members, default, depth + 1, width, close, d);
      ScanBraces(fs, members, default, depth, width, t, d);
  }

  /** The braces around the members of a group. */
  lemma ScanBraces(fs: Files, ms: seq<Member>, default: Format, depth: nat, width: nat, t: string, d: nat)
    requires depth > 0
    requires
      var close := Indent(depth, width) + ("}" + t);
      ScanText(fs, PrintMembers(ms, default, depth + 1, width) + close, Plainly(true), d) ==
      Prepend(MemberTokens(ms, default), ScanText(fs, close, Plainly(true), d))
    ensures ScanText(fs, PrintValue(Group(ms), default, depth, width) + t, Plainly(false), d) ==
            Prepend(ValueTokens(Group(ms), default), ScanText(fs, t, Plainly(false), d))
  {
    hide ScanText, Indent, PrintMembers, MemberTokens, Prepend;
    var blanks, toks := Indent(depth, width), MemberTokens(ms, default);
    var s0 := "}" + t;
    var s1 := blanks + s0;
    var s2 := PrintMembers(ms, default, depth + 1, width) + s1;
    var s3 := "\n" + s2;
    var s4 := "{" + s3;
    var s5 := blanks + s4;
    assert PrintValue(Group(ms), default, depth, width) + t == "\n" + s5;
    ScanNewline(fs, s5, false, d);
    ScanBlanks(fs, blanks, s4, true, d);
    ScanPunctuation(fs, '{', s3, blanks == [], d);
    ScanNewline(fs, s2, false, d);
    ScanBlanks(fs, blanks, s0, true, d);
    ScanPunctuation(fs, '}', t, blanks == [], d);
    var r := ScanText(fs, t, Plainly(false), d);
    PrependTwice(toks, [TGroupEnd], r);
    PrependTwice([TGroupStart], toks + [TGroupEnd], r);
    assert [TGroupStart] + (toks + [TGroupEnd]) == ValueTokens(Group(ms), default);
  }

  lemma ScanBoolean(fs: Files, b: bool, t: string, d: nat)
    requires Ends(t)
    ensures ScanText(fs, (if b then "true" else "false") + t, Plainly(false), d) ==
            Prepend([TBoolean(b)], ScanText(fs, t, Plainly(false), d))
  {
    hide ScanText;
    var word := if b then "true" else "false";
    assert LowerAll(word) == word;
    ScanName(fs, word, t, false, d);
  }

  lemma {:induction false} ScanBracketed(
    fs: Files, open: char, vs: seq<Value>, close: char, default: Format, depth: nat, width: nat, t: string, d: nat)
    requires forall v | v in vs :: Printable(v)
    requires open in {'[', '('} && close in {']', ')'} && depth > 0
    ensures ScanText(fs, [open, ' '] + PrintElems(vs, default, depth, width) + [close] + t, Plainly(false), d) ==
            Prepend([Punctuation(open)] + ElemTokens(vs, default) + [Punctuation(close)],
                    ScanText(fs, t, Plainly(false), d))
    decreases vs, 1
  {
    hide ScanText, Punctuation, Printable, Prepend, PrintElems, ElemTokens;
    var text, toks := PrintElems(vs, default, depth, width), ElemTokens(vs, default);
    var s0 := [close] + t;
    var s1 := text + s0;
    assert [open, ' '] + text + [close] + t == [open] + (" " + s1);
    ScanPunctuation(fs, open, " " + s1, false, d);
    FirstElement(vs, default, depth, width, s0);
    ScanBlanks(fs, " ", s1, false, d);
    ScanElems(fs, vs, default, depth, width, s0, d);
    ScanPunctuation(fs, close, t, false, d);
    var r := ScanText(fs, t, Plainly(false), d);
    PrependTwice(toks, [Punctuation(close)], r);
    PrependTwice([Punctuation(open)], toks + [Punctuation(close)], r);
    assert [Punctuation(open)] + (toks + [Punctuation(close)]) == [Punctuation(open)] + toks + [Punctuation(close)];
  }

  lemma FirstElement(vs: seq<Value>, default: Format, depth: nat, width: nat, t: string)
    requires forall v | v in vs :: Printable(v)
    requires NotInclude(t)
    ensures NotInclude(PrintElems(vs, default, depth, width) + t)
  {
    hide Printable, PrintValue;
    if vs != [] {
      var after := (if |vs| > 1 then ", " else " ") + PrintElems(vs[1..], default, depth, width) + t;
      assert vs[0] in vs;
      FirstCharacter(vs[0], default, depth + 1, width, after);
      assert PrintElems(vs, default, depth, width) + t == PrintValue(vs[0], default, depth + 1, width) + after;
    } else {
      assert PrintElems(vs, default, depth, width) + t == t;
    }
  }

  lemma {:induction false} ScanElems(
    fs: Files, vs: seq<Value>, default: Format, depth: nat, width: nat, t: string, d: nat)
    requires forall v | v in vs :: Printable(v)
    requires NotInclude(t) && depth > 0
    ensures ScanText(fs, PrintElems(vs, default, depth, width) + t, Plainly(false), d) ==
            Prepend(ElemTokens(vs, default), ScanText(fs, t, Plainly(false), d))
    decreases vs, 0
  {
    hide ScanText, PrintValue, ValueTokens, Printable;
    var r := ScanText(fs, t, Plainly(false), d);
    if vs == [] {
      assert PrintElems(vs, default, depth, width) + t == t && [] + r.tokens == r.tokens;
    } else {
      assert vs[0] in vs && forall v | v in vs[1..] :: v in vs;
      var rest := PrintElems(vs[1..], default, depth, width) + t;
      var here, later := ValueTokens(vs[0], default), ElemTokens(vs[1..], default);
      var s1 := " " + rest;
      FirstElement(vs[1..], default, depth, width, t);
      ScanBlanks(fs, " ", rest, false, d);
      ScanElems(fs, vs[1..], default, depth, width, t, d);
      if |vs| > 1 {
        var s2 := "," + s1;
        assert PrintElems(vs, default, depth, width) + t == PrintValue(vs[0], default, depth + 1, width) + s2;
        ScanValue(fs, vs[0], default, depth + 1, width, s2, d);
        ScanPunctuation(fs, ',', s1, false, d);
        PrependTwice([TComma], later, r);
        PrependTwice(here, [TComma] + later, r);
        assert here + ([TComma] + later) == ElemTokens(vs, default);
      } else {
        assert PrintElems(vs, default, depth, width) + t == PrintValue(vs[0], default, depth + 1, width) + s1;
        ScanValue(fs, vs[0], default, depth + 1, width, s1, d);
        PrependTwice(here, later, r);
        assert here + later == ElemTokens(vs, default);
      }
    }
  }

  lemma {:induction false} ScanMembers(
    fs: Files, ms: seq<Member>, default: Format, depth: nat, width: nat, t: string, d: nat)
    requires forall m | m in ms :: ValidName(m.name) && Printable(m.value)
    requires depth > 0
    ensures ScanText(fs, PrintMembers(ms, default, depth, width) + t, Plainly(true), d) ==
            Prepend(MemberTokens(ms, default), ScanText(fs, t, Plainly(true), d))
    decreases ms, 0
  {
    hide ScanText, PrintValue, ValueTokens, Indent, Printable, KeywordToken, ValidName;
    var r := ScanText(fs, t, Plainly(true), d);
    if ms == [] {
      assert PrintMembers(ms, default, depth, width) + t == t && [] + r.tokens == r.tokens;
    } else {
      hide Prepend;
      assert ms[0] in ms && forall m | m in ms[1..] :: m in ms;
      var m, blanks := ms[0], Indent(depth, width);
      var equals := if m.value.Group? then ':' else '=';
      var s0 := PrintMembers(ms[1..], default, depth, width) + t;
      var s1 := "\n" + s0;
      var s2 := ";" + s1;
      var s3 := PrintValue(m.value, default, depth, width) + s2;
      ScanValue(fs, m.value, default, depth, width, s2, d);
      FirstCharacter(m.value, default, depth, width, s2);
      ScanMembers(fs, ms[1..], default, depth, width, t, d);
      var valueTokens, laterTokens := ValueTokens(m.value, default), MemberTokens(ms[1..], default);
      ScanAssignment(fs, blanks, m.name, equals, s3, valueTokens, s0, laterTokens, r, d);
      MembersText(ms, default, depth, width, t);
      assert [KeywordToken(m.name), TEquals] + valueTokens + [TSemicolon] + laterTokens == MemberTokens(ms, default);
    }
  }

  lemma MembersText(ms: seq<Member>, default: Format, depth: nat, width: nat, t: string)
    requires ms != []
    ensures
      var m, equals := ms[0], if ms[0].value.Group? then ':' else '=';
      var rest := PrintMembers(ms[1..], default, depth, width) + t;
      PrintMembers(ms, default, depth, width) + t ==
      Indent(depth, width) +
      (m.name + (" " + ([equals] + (" " + (PrintValue(m.value, default, depth, width) + (";" + ("\n" + rest)))))))
  {
    hide Indent, PrintValue;
    var m, equals := ms[0], if ms[0].value.Group? then ':' else '=';
    var text, more := PrintValue(m.value, default, depth, width), PrintMembers(ms[1..], default, depth, width);
    Regroup(Indent(depth, width) + m.name, if m.value.Group? then " : " else " = ", text, more, t);
    var s3 := text + (";" + ("\n" + (more + t)));
    assert (if m.value.Group? then " : " else " = ") + s3 == " " + ([equals] + (" " + s3));
    assert (Indent(depth, width) + m.name) + (" " + ([equals] + (" " + s3))) ==
           Indent(depth, width) + (m.name + (" " + ([equals] + (" " + s3))));
  }

  lemma Regroup(a: string, b: string, c: string, d: string, t: string)
    ensures a + b + c + ";\n" + d + t == a + (b + (c + (";" + ("\n" + (d + t)))))
  {
    var tail := ";" + ("\n" + (d + t));
    assert a + b + c + ";\n" + d + t == (a + b + c) + tail;
    assert (a + b + c) + tail == (a + b) + (c + tail);
    assert (a + b) + (c + tail) == a + (b + (c + tail));
  }

  /** One member: its name, the sign, the value and the terminator. */
  lemma ScanAssignment(
    fs: Files, blanks: string, name: string, equals: char, value: string, toks: seq<Token>,
    rest: string, later: seq<Token>, r: Scan, d: nat)
    requires forall c | c in blanks :: IsBlank(c)
    requires ValidName(name) && equals in {'=', ':'} && NotInclude(value)
    requires ScanText(fs, value, Plainly(false), d) ==
             Prepend(toks, ScanText(fs, ";" + ("\n" + rest), Plainly(false), d))
    requires ScanText(fs, rest, Plainly(true), d) == Prepend(later, r)
    ensures ScanText(fs, blanks + (name + (" " + ([equals] + (" " + value)))), Plainly(true), d) ==
            Prepend([KeywordToken(name), TEquals] + toks + [TSemicolon] + later, r)
  {
    hide ScanText, Prepend, KeywordToken;
    var s4 := " " + value;
    var s5 := [equals] + s4;
    var s6 := " " + s5;
    var s7 := name + s6;
    ScanBlanks(fs, blanks, s7, true, d);
    ScanName(fs, name, s6, blanks == [], d);
    ScanBlanks(fs, " ", s5, false, d);
    ScanPunctuation(fs, equals, s4, false, d);
    ScanBlanks(fs, " ", value, false, d);
    ScanPunctuation(fs, ';', "\n" + rest, false, d);
    ScanNewline(fs, rest, false, d);
    PrependTwice([TSemicolon], later, r);
    PrependTwice(toks, [TSemicolon] + later, r);
    PrependTwice([TEquals], toks + ([TSemicolon] + later), r);
    PrependTwice([KeywordToken(name)], [TEquals] + (toks + ([TSemicolon] + later)), r);
    assert [KeywordToken(name)] + ([TEquals] + (toks + ([TSemicolon] + later))) ==
           [KeywordToken(name), TEquals] + toks + [TSemicolon] + later;
  }

  /** The printed configuration scans to the tokens of its members, without error. */
  lemma ScanConfig(fs: Files, members: seq<Member>, default: Format, width: nat)
    requires Printable(Group(members))
    ensures
      var scan := ScanText(fs, PrintConfig(Group(members), default, width), Start, 0);
      scan.ok && scan.tokens == MemberTokens(members, default)
  {
    hide Indent, PrintMembers, MatchInitial, NextMatch;
    assert Indent(0, width) == [] by { NoIndent(width); }
    assert PrintConfig(Group(members), default, width) == PrintMembers(members, default, 1, width) + [];
    ScanMembers(fs, members, default, 1, width, [], 0);
    assert MemberTokens(members, default) + [] == MemberTokens(members, default);
  }

  lemma NoIndent(width: nat)
    ensures Indent(0, width) == []
  {}
}
