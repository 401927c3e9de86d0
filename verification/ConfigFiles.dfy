/** Writing linked settings, and reading them. */
module ConfigFiles {
  import opened ConfigTree
  import opened ConfigScanner
  import opened ConfigLexer
  import opened ConfigWriter
  import opened ConfigGrammar
  import opened ConfigRoundTrip
  import opened ConfigStore
  import opened Options
  import opened LibConfig
  import opened ConfigReader

  class Stream {
    var text: string

    constructor ()
      ensures text == ""
    {
      text := "";
    }

    method Put(s: string)
      modifies this
      ensures text == old(text) + s
    {
      text := text + s;
    }
  }

  /** What is still to be printed before the children from `n` on, and after them. */
  lemma NextElement(st: Store, p: nat, kids: seq<nat>, n: nat, default: Format, depth: nat, width: nat)
    requires Linked(st) && p < |st| && n < |kids| && forall k | k in kids :: p < k < |st|
    ensures kids[n] < |st|
    ensures
      var vs := AbsAll(st, p, kids);
      PrintElems(vs[n..], default, depth, width) ==
      PrintValue(Abs(st, kids[n]), default, depth + 1, width) + (if n + 1 < |kids| then ", " else " ") +
      PrintElems(vs[n + 1..], default, depth, width)
  {
    hide PrintValue, Abs, AbsAll;
    ElementAt(st, p, kids, n);
    var vs := AbsAll(st, p, kids);
    assert vs[n..][1..] == vs[n + 1..];
  }

  lemma NextMember(st: Store, p: nat, kids: seq<nat>, n: nat, default: Format, depth: nat, width: nat)
    requires Linked(st) && p < |st| && n < |kids| && forall k | k in kids :: p < k < |st|
    ensures kids[n] < |st|
    ensures
      var ms := AbsMembers(st, p, kids);
      var v := Abs(st, kids[n]);
      PrintMembers(ms[n..], default, depth, width) ==
      Indent(depth, width) + NameOf(st[kids[n]]) + (if v.Group? then " : " else " = ") +
      PrintValue(v, default, depth, width) + ";\n" + PrintMembers(ms[n + 1..], default, depth, width)
  {
    hide PrintValue, Abs, AbsMembers, Indent;
    MemberAt(st, p, kids, n);
    var ms := AbsMembers(st, p, kids);
    assert ms[n..][1..] == ms[n + 1..];
  }

  /** `__config_write_value` for a setting of the store. */
  method WriteValue(config: Config, i: nat, default: Format, depth: nat, width: nat, out: Stream)
    requires config.Valid() && i < |config.store|
    modifies out
    ensures out.text == old(out.text) + PrintValue(Abs(config.store, i), default, depth, width)
    decreases |config.store| - i, 1
  {
    hide PrintElems, PrintMembers, Indent, Abs, PrintValue, Named, KidsLinked, Elements, Members;
    AbsCases(config.store, i);
    PrintCases(Abs(config.store, i), default, depth, width);
    match config.store[i].payload {
      case NoType => out.Put(PrintValue(Untyped, default, depth, width));
      case ScalarOf(v) => out.Put(PrintValue(v, default, depth, width));
      case Aggregate(GroupKind, _) =>
        ghost var before := out.text;
        var open := if depth > 0 then "\n" + Indent(depth, width) + "{\n" else "";
        var close := Indent(depth, width) + (if depth > 0 then "}" else "");
        out.Put(open);
        WriteMembers(config, i, default, depth + 1, width, out);
        out.Put(close);
        Joined(before, open, PrintMembers(Members(config.store, i), default, depth + 1, width), close);
      case Aggregate(kind, _) =>
        ghost var before := out.text;
        var open, close := if kind == ArrayKind then "[ " else "( ", if kind == ArrayKind then "]" else ")";
        out.Put(open);
        WriteElements(config, i, default, depth, width, out);
        out.Put(close);
        Joined(before, open, PrintElems(Elements(config.store, i), default, depth, width), close);
    }
  }

  lemma Joined(a: string, b: string, c: string, d: string)
    ensures a + b + c + d == a + (b + c + d)
  {}

  lemma AbsCases(st: Store, i: nat)
    requires Linked(st) && i < |st|
    ensures
      match st[i].payload
      case NoType => Abs(st, i) == Untyped
      case ScalarOf(v) => Abs(st, i) == v
      case Aggregate(ArrayKind, _) => Abs(st, i) == Array(Elements(st, i))
      case Aggregate(ListKind, _) => Abs(st, i) == List(Elements(st, i))
      case Aggregate(GroupKind, _) => Abs(st, i) == Group(Members(st, i))
    ensures Abs(st, i).Group? == IsKind(st[i], GroupKind)
  {
    assert KidsLinked(st, i);
  }

  lemma PrintCases(v: Value, default: Format, depth: nat, width: nat)
    ensures v.Array? ==>
      PrintValue(v, default, depth, width) == "[ " + PrintElems(v.elems, default, depth, width) + "]"
    ensures v.List? ==>
      PrintValue(v, default, depth, width) == "( " + PrintElems(v.elems, default, depth, width) + ")"
    ensures v.Group? ==>
      PrintValue(v, default, depth, width) ==
      ((if depth > 0 then "\n" + Indent(depth, width) + "{\n" else "") +
       PrintMembers(v.members, default, depth + 1, width) + (Indent(depth, width) + (if depth > 0 then "}" else "")))
  {
    hide PrintElems, PrintMembers, Indent;
  }

  method WriteElements(config: Config, i: nat, default: Format, depth: nat, width: nat, out: Stream)
    requires config.Valid() && i < |config.store|
    modifies out
    ensures out.text == old(out.text) + PrintElems(Elements(config.store, i), default, depth, width)
    decreases |config.store| - i, 0
  {
    hide PrintElems, PrintValue, AbsAll, Abs, Named;
    var st := config.store;
    assert KidsLinked(st, i);
    var kids := Kids(st[i]);
    ghost var vs, start := Elements(st, i), out.text;
    assert vs[0..] == vs;
    var n := 0;
    while n < |kids|
      invariant n <= |kids|
      invariant out.text + PrintElems(vs[n..], default, depth, width) == start + PrintElems(vs, default, depth, width)
    {
      NextElement(st, i, kids, n, default, depth, width);
      assert kids[n] in kids;
      ghost var before := out.text;
      WriteValue(config, kids[n], default, depth + 1, width, out);
      var sign := if n + 1 < |kids| then ", " else " ";
      out.Put(sign);
      ghost var printed := PrintValue(Abs(st, kids[n]), default, depth + 1, width);
      ghost var later := PrintElems(vs[n + 1..], default, depth, width);
      assert before + printed + sign + later == before + (printed + sign + later);
      n := n + 1;
    }
    NothingPrinted(default, depth, width);
    assert vs[n..] == [] && out.text + "" == out.text;
  }

  lemma NothingPrinted(default: Format, depth: nat, width: nat)
    ensures PrintElems([], default, depth, width) == "" && PrintMembers([], default, depth, width) == ""
  {}

  /** `__config_write_setting` for each member of a group. */
  method WriteMembers(config: Config, i: nat, default: Format, depth: nat, width: nat, out: Stream)
    requires config.Valid() && i < |config.store|
    modifies out
    ensures out.text == old(out.text) + PrintMembers(Members(config.store, i), default, depth, width)
    decreases |config.store| - i, 0
  {
    hide PrintMembers, PrintValue, AbsMembers, Abs, Indent, Named;
    var st := config.store;
    assert KidsLinked(st, i);
    var kids := Kids(st[i]);
    ghost var ms, start := Members(st, i), out.text;
    assert ms[0..] == ms;
    var n := 0;
    while n < |kids|
      invariant n <= |kids|
      invariant out.text + PrintMembers(ms[n..], default, depth, width) ==
                start + PrintMembers(ms, default, depth, width)
    {
      NextMember(st, i, kids, n, default, depth, width);
      assert kids[n] in kids;
      ghost var before := out.text;
      AbsCases(st, kids[n]);
      var sign := if IsKind(st[kids[n]], GroupKind) then " : " else " = ";
      var heading := Indent(depth, width) + NameOf(st[kids[n]]) + sign;
      out.Put(heading);
      WriteValue(config, kids[n], default, depth, width, out);
      out.Put(";\n");
      ghost var printed := PrintValue(Abs(st, kids[n]), default, depth, width);
      ghost var later := PrintMembers(ms[n + 1..], default, depth, width);
      assert before + heading + printed + ";\n" + later == before + (heading + printed + ";\n" + later);
      n := n + 1;
    }
    NothingPrinted(default, depth, width);
    assert ms[n..] == [] && out.text + "" == out.text;
  }

  /** `config_write` */
  method WriteConfig(config: Config, default: Format, width: nat) returns (text: string)
    requires config.Valid()
    ensures text == PrintConfig(Abs(config.store, 0), default, width)
  {
    var out := new Stream();
    WriteValue(config, 0, default, 0, width, out);
    text := out.text;
  }

  /** `config_read` */
  method ReadConfig(files: Files, text: string) returns (config: Config, error: Option<Error>)
    ensures error.Some? ==> Read(files, text) == Fail(error.value)
    ensures error.None? ==>
      && config.Valid() && Homogeneous(config.store)
      && Read(files, text) == Ok(Abs(config.store, 0), [])
  {
    var tokens, _ := ScanAll(files, text);
    var context;
    context, error := ParseTokens(tokens);
    config := context.config;
  }

  /** A saved configuration is read back as the same tree, exactly when no setting is named like
      a boolean. */
  method SaveAndLoad(config: Config, files: Files, default: Format, width: nat)
    returns (again: Config, error: Option<Error>)
    requires config.Valid() && Printable(Abs(config.store, 0))
    ensures error == if Unambiguous(Abs(config.store, 0)) then None else Some(SyntaxError)
    ensures error.None? ==>
      && again.Valid() && Homogeneous(again.store)
      && Abs(again.store, 0) == Effective(Abs(config.store, 0), default)
  {
    hide PrintConfig, Read, Printable, Effective, Unambiguous;
    AbsCases(config.store, 0);
    ReadWrite(files, Abs(config.store, 0), default, width);
    var text := WriteConfig(config, default, width);
    again, error := ReadConfig(files, text);
  }
}
