/** How a tree is written: the formats of its numbers, and its layout. */
module ConfigLayout {
  import opened CLibrary
  import opened ConfigTree
  import opened ConfigWriter
  import opened Seqs

  // ----- formats -----

  /** The tree without the formats of its numbers. */
  function Unformatted(v: Value): Value
    decreases v, 1
  {
    match v
    case Integer(i, _) => Integer(i, Plain)
    case Integer64(l, _) => Integer64(l, Plain)
    case Array(elems) => Array(UnformattedAll(elems))
    case List(elems) => List(UnformattedAll(elems))
    case Group(members) => Group(UnformattedMembers(members))
    case _ => v
  }

  function UnformattedAll(vs: seq<Value>): seq<Value>
    decreases vs, 0
  {
    if vs == [] then [] else [Unformatted(vs[0])] + UnformattedAll(vs[1..])
  }

  function UnformattedMembers(ms: seq<Member>): seq<Member>
    decreases ms, 0
  {
    if ms == [] then []
    else [Member(ms[0].name, Unformatted(ms[0].value))] + UnformattedMembers(ms[1..])
  }

  /** The formats of the numbers, from left to right. */
  function Formats(v: Value): seq<Format>
    decreases v, 1
  {
    match v
    case Integer(_, fmt) => [fmt]
    case Integer64(_, fmt) => [fmt]
    case Array(elems) => FormatsAll(elems)
    case List(elems) => FormatsAll(elems)
    case Group(members) => FormatsMembers(members)
    case _ => []
  }

  function FormatsAll(vs: seq<Value>): seq<Format>
    decreases vs, 0
  {
    if vs == [] then [] else Formats(vs[0]) + FormatsAll(vs[1..])
  }

  function FormatsMembers(ms: seq<Member>): seq<Format>
    decreases ms, 0
  {
    if ms == [] then [] else Formats(ms[0].value) + FormatsMembers(ms[1..])
  }

  /** Each format, or the default where there is none. */
  predicate Defaulted(was: seq<Format>, now: seq<Format>, default: Format)
  {
    |now| == |was| && forall i | 0 <= i < |was| :: now[i] == (if was[i] == Plain then default else was[i])
  }

  lemma DefaultedBoth(a: seq<Format>, a': seq<Format>, b: seq<Format>, b': seq<Format>, default: Format)
    requires Defaulted(a, a', default) && Defaulted(b, b', default)
    ensures Defaulted(a + b, a' + b', default)
  {}

  /** What is read back differs from the tree in the formats only, and these are the formats of the
      tree, with the default where a number has none. */
  lemma {:induction false} EffectiveMeans(v: Value, default: Format)
    ensures Unformatted(Effective(v, default)) == Unformatted(v)
    ensures Defaulted(Formats(v), Formats(Effective(v, default)), default)
    decreases v, 1
  {
    match v {
      case Array(elems) => AllMean(elems, default);
      case List(elems) => AllMean(elems, default);
      case Group(members) => MembersMean(members, default);
      case _ =>
    }
  }

  lemma {:induction false} AllMean(vs: seq<Value>, default: Format)
    ensures UnformattedAll(EffectiveAll(vs, default)) == UnformattedAll(vs)
    ensures Defaulted(FormatsAll(vs), FormatsAll(EffectiveAll(vs, default)), default)
    decreases vs, 0
  {
    hide Unformatted, Effective, Formats, Defaulted;
    if vs == [] {
      NoFormats(default);
    } else {
      EffectiveMeans(vs[0], default);
      AllMean(vs[1..], default);
      var first, rest := Effective(vs[0], default), EffectiveAll(vs[1..], default);
      assert ([first] + rest)[1..] == rest;
      DefaultedBoth(Formats(vs[0]), Formats(first), FormatsAll(vs[1..]), FormatsAll(rest), default);
    }
  }

  lemma NoFormats(default: Format)
    ensures Defaulted([], [], default)
  {}

  lemma {:induction false} MembersMean(ms: seq<Member>, default: Format)
    ensures UnformattedMembers(EffectiveMembers(ms, default)) == UnformattedMembers(ms)
    ensures Defaulted(FormatsMembers(ms), FormatsMembers(EffectiveMembers(ms, default)), default)
    decreases ms, 0
  {
    hide Unformatted, Effective, Formats, Defaulted;
    if ms == [] {
      NoFormats(default);
    } else {
      EffectiveMeans(ms[0].value, default);
      MembersMean(ms[1..], default);
      var value, rest := Effective(ms[0].value, default), EffectiveMembers(ms[1..], default);
      assert ([Member(ms[0].name, value)] + rest)[1..] == rest;
      DefaultedBoth(Formats(ms[0].value), Formats(value), FormatsMembers(ms[1..]), FormatsMembers(rest), default);
    }
  }

  // ----- layout -----

  lemma TwoElements(v: Value, w: Value, default: Format, depth: nat, width: nat)
    ensures
      PrintElems([v, w], default, depth, width) ==
      PrintValue(v, default, depth + 1, width) + ", " + (PrintValue(w, default, depth + 1, width) + " ")
  {
    hide PrintValue;
    OneElement(w, default, depth, width);
    assert [v, w][1..] == [w];
  }

  lemma OneElement(w: Value, default: Format, depth: nat, width: nat)
    ensures PrintElems([w], default, depth, width) == PrintValue(w, default, depth + 1, width) + " "
  {
    hide PrintValue;
    PlusNothing(PrintValue(w, default, depth + 1, width) + " ");
  }

  lemma OneMember(m: Member, default: Format, depth: nat, width: nat)
    ensures
      PrintMembers([m], default, depth, width) ==
      Indent(depth, width) + m.name + (if m.value.Group? then " : " else " = ") +
      PrintValue(m.value, default, depth, width) + ";\n"
  {
    hide PrintValue, Indent;
    assert [m][1..] == [];
  }

  const SampleNumbers: Value := Array([Integer(-7, Plain), Integer(255, Hex)])

  const SampleGroup: Value := Group([Member("y", SampleNumbers)])

  const Sample: Value := Group([Member("x", SampleGroup)])

  lemma SampleNumbersText(depth: nat, width: nat)
    ensures PrintValue(SampleNumbers, Plain, depth, width) == "[ -7, 0xFF ]"
  {
    hide PrintElems, ToBase;
    TwoElements(Integer(-7, Plain), Integer(255, Hex), Plain, depth, width);
    SampleDigits();
    assert "-" + "7" + ", " + ("0x" + "FF" + " ") == "-7, 0xFF ";
    assert "[ " + "-7, 0xFF " + "]" == "[ -7, 0xFF ]";
  }

  lemma SampleDigits()
    ensures ToBase(255, 16, true) == "FF" && ToBase(7, 10, true) == "7"
  {
    assert ToBase(255, 16, true) == "F" + "F";
  }

  lemma SpacesAre()
    ensures Indent(0, 2) == Indent(1, 2) == "" && Indent(2, 2) == "  "
  {}

  lemma SampleGroupText()
    ensures PrintValue(SampleGroup, Plain, 1, 2) == "\n{\n" + "  y = [ -7, 0xFF ];\n" + "}"
  {
    hide PrintMembers, Indent;
    SpacesAre();
    OneMember(Member("y", SampleNumbers), Plain, 2, 2);
    SampleNumbersText(2, 2);
    SampleLine();
  }

  lemma SampleLine()
    ensures "  " + "y" + " = " + "[ -7, 0xFF ]" + ";\n" == "  y = [ -7, 0xFF ];\n"
  {}

  /** A group in the root, two spaces to a level. */
  lemma SampleText()
    ensures PrintConfig(Sample, Plain, 2) == "x : " + ("\n{\n" + "  y = [ -7, 0xFF ];\n" + "}") + ";\n"
  {
    hide PrintMembers, Indent, PrintValue;
    SpacesAre();
    OneMember(Member("x", SampleGroup), Plain, 1, 2);
    SampleGroupText();
    GroupText(Member("x", SampleGroup));
    assert "" + "x" + " : " == "x : ";
  }

  lemma GroupText(m: Member)
    ensures PrintValue(Group([m]), Plain, 0, 2) == PrintMembers([m], Plain, 1, 2)
  {
    hide PrintMembers;
    var t := PrintMembers([m], Plain, 1, 2);
    assert "" + t + "" + "" == t;
  }
}
