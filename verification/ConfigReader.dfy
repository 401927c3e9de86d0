/** The parser's semantic actions. */
module ConfigReader {
  // The tree is built in place through the parse context's `parent` and `setting` pointers.

  import opened ConfigTree
  import opened ConfigScanner
  import opened ConfigGrammar
  import opened ConfigStore
  import opened Options
  import opened LibConfig

  /** Everything below the last setting of `a` is unchanged, and so are its name and parent:
      only its payload and later settings differ. */
  ghost predicate Filled(a: Store, b: Store)
  {
    && 0 < |a| <= |b|
    && (forall i | 0 <= i < |a| - 1 :: a[i] == b[i])
    && b[|a| - 1] == a[|a| - 1].(payload := b[|a| - 1].payload)
  }

  /** Exactly one element, the setting with index `|a|`, was appended to the list `p`. */
  ghost predicate Extended(a: Store, b: Store, p: nat)
  {
    && p < |a| < |b|
    && (forall i | 0 <= i < |a| && i != p :: a[i] == b[i])
    && a[p].payload.Aggregate?
    && b[p] == a[p].(payload := Aggregate(a[p].payload.kind, Kids(a[p]) + [|a|]))
    && b[|a|].parent == Some(p)
  }

  /** Where the next value goes: into the pending member, or a new element of a list. */
  datatype Slot = PendingMember | NewElement

  ghost predicate Grown(a: Store, b: Store, p: nat, slot: Slot)
  {
    if slot.PendingMember? then Filled(a, b) else Extended(a, b, p)
  }

  ghost function Target(a: Store, slot: Slot): int
  {
    if slot.PendingMember? then |a| - 1 else |a|
  }

  class ParseContext {
    const tokens: seq<Token>
    const config: Config
    var pos: nat
    var parent: Option<nat>
    var setting: Option<nat>

    ghost predicate Valid()
      reads this, config
    {
      && pos <= |tokens|
      && config.Valid() && Homogeneous(config.store)
      && parent.Some? && parent.value < |config.store|
      && config.store[parent.value].payload.Aggregate?
    }

    /** The innermost open aggregate is the parent, and the slot agrees with it. */
    ghost predicate Expecting(slot: Slot)
      reads this, config
    {
      && Valid()
      && (slot.PendingMember? ==>
            && IsKind(config.store[parent.value], GroupKind)
            && setting == Some(|config.store| - 1)
            && parent.value < setting.value
            && config.store[setting.value].payload == NoType
            && config.store[setting.value].parent == parent)
      && (slot.NewElement? ==> IsKind(config.store[parent.value], ListKind))
    }

    /** A fresh aggregate of the given kind has just been opened. */
    ghost predicate Opened(kind: Kind)
      reads this, config
    {
      && Valid()
      && parent == Some(|config.store| - 1)
      && config.store[parent.value].payload == Aggregate(kind, [])
    }

    constructor (tokens: seq<Token>)
      ensures Opened(GroupKind) && pos == 0 && this.tokens == tokens && config.store == [Root]
      ensures fresh(config)
    {
      this.tokens := tokens;
      config := new Config();
      pos, parent, setting := 0, Some(0), Some(0);
    }

    function Rest(): seq<Token>
      requires pos <= |tokens|
      reads this
    {
      tokens[pos..]
    }

    method TakeScalar() returns (v: Value)
      requires pos <= |tokens| && StartsScalar(Rest())
      modifies this`pos
      ensures old(pos) < pos <= |tokens|
      ensures ParseScalar(old(Rest())) == (v, Rest())
    {
      ghost var start := Rest();
      if tokens[pos].TString? {
        var text := "";
        assert "" + StringRun(start).0 == StringRun(start).0;
        while pos < |tokens| && tokens[pos].TString?
          invariant old(pos) <= pos <= |tokens|
          invariant pos == old(pos) ==> tokens[pos].TString?
          invariant text + StringRun(Rest()).0 == StringRun(start).0
          invariant StringRun(Rest()).1 == StringRun(start).1
          decreases |tokens| - pos
        {
          assert Rest()[1..] == tokens[pos + 1..];
          text := text + tokens[pos].s;
          pos := pos + 1;
        }
        assert text + "" == text;
        v := Str(text);
      } else {
        v := ParseScalar(Rest()).0;
        assert Rest()[1..] == tokens[pos + 1..];
        pos := pos + 1;
      }
    }

    /** The actions that open an array, a list or a group. */
    method Open(kind: Kind, ghost slot: Slot)
      requires Expecting(slot)
      modifies this`parent, this`setting, config
      ensures Opened(kind)
      ensures Grown(old(config.store), config.store, old(parent).value, slot)
      ensures |config.store| == Target(old(config.store), slot) + 1
      ensures config.store[parent.value].parent == old(parent)
    {
      if IsKind(config.store[parent.value], ListKind) {
        var t := match kind case ArrayKind => ArrayType case ListKind => ListType case GroupKind => GroupType;
        parent := config.Add(parent.value, None, t);
      } else {
        config.SetAggregate(setting.value, kind);
        parent, setting := setting, None;
      }
    }

    /** The action that closes an aggregate: back to its parent. */
    method Close()
      requires Valid() && config.store[parent.value].parent.Some?
      modifies this`parent
      ensures parent == config.store[old(parent).value].parent
    {
      parent := config.store[parent.value].parent;
    }

    method Scalar(v: Value, ghost slot: Slot)
      requires Expecting(slot) && IsScalar(v)
      modifies config
      ensures Valid()
      ensures Grown(old(config.store), config.store, parent.value, slot)
      ensures |config.store| == Target(old(config.store), slot) + 1
      ensures Abs(config.store, |config.store| - 1) == v
    {
      if IsKind(config.store[parent.value], ListKind) {
        var _ := config.AppendElem(parent.value, v);
      } else {
        var _ := config.SetScalar(setting.value, v, None);
      }
    }

    method ParseValue(ghost slot: Slot) returns (error: Option<Error>)
      requires Expecting(slot)
      modifies this, config
      ensures pos <= |tokens|
      ensures error.Some? ==> ConfigGrammar.ParseValue(old(Rest())) == Fail(error.value)
      ensures error.None? ==>
        && Valid() && parent == old(parent) && pos > old(pos)
        && Grown(old(config.store), config.store, parent.value, slot)
        && ConfigGrammar.ParseValue(old(Rest())) == Ok(Abs(config.store, Target(old(config.store), slot)), Rest())
      decreases |tokens| - pos, 0
    {
      hide ConfigGrammar.ParseValue, ConfigGrammar.ParseScalar, BodySpec, Abs, Named, Homogeneous, KidsLinked;
      ghost var start, st0 := Rest(), config.store;
      if StartsScalar(Rest()) {
        ScalarValue(start);
        var v := TakeScalar();
        Scalar(v, slot);
        return None;
      }
      var token := Peek(Rest());
      if token != TArrayStart && token != TListStart && token != TGroupStart {
        NoValue(start);
        return Some(SyntaxError);
      }
      var kind := match token case TArrayStart => ArrayKind case TListStart => ListKind case _ => GroupKind;
      BodyValue(start, kind);
      var outer := parent;
      Open(kind, slot);
      assert start[1..] == tokens[pos + 1..];
      pos := pos + 1;
      ghost var st1 := config.store;
      error := ParseBody(kind);
      if error.None? {
        CloseUndoesOpen(st0, st1, config.store, outer.value, slot);
        Close();
      }
    }

    /** What stands between the brackets, with the closing bracket. */
    method ParseBody(kind: Kind) returns (error: Option<Error>)
      requires Opened(kind)
      modifies this, config
      ensures pos <= |tokens|
      ensures
        var spec := BodySpec(kind, old(Rest()));
        && (error.Some? ==> spec == Fail(error.value))
        && (error.None? ==>
              && Valid() && parent == old(parent) && pos > old(pos)
              && Filled(old(config.store), config.store)
              && IsKind(config.store[parent.value], kind)
              && spec == Ok(Abs(config.store, parent.value), Rest()))
      decreases |tokens| - pos, 3
    {
      hide ConfigGrammar.ParseScalar, ParseArray, ParseList, ConfigGrammar.ParseSettings;
      var close := match kind case ArrayKind => TArrayEnd case ListKind => TListEnd case GroupKind => TGroupEnd;
      ghost var start := Rest();
      if kind != GroupKind && Peek(Rest()) == close {
        assert Rest()[1..] == tokens[pos + 1..];
        pos := pos + 1;
        return None;
      }
      match kind {
        case ArrayKind => error := ParseArrayElements();
        case ListKind => error := ParseListElements();
        case GroupKind =>
          error := ParseSettings();
          if error.None? {
            if Peek(Rest()) != TGroupEnd {
              return Some(SyntaxError);
            }
            assert Rest()[1..] == tokens[pos + 1..];
            pos := pos + 1;
          }
      }
    }

    /** One scalar of an array; every scalar has the type of the first. */
    method ParseArrayElement() returns (error: Option<Error>)
      requires Valid() && IsKind(config.store[parent.value], ArrayKind) && StartsScalar(Rest())
      modifies this, config
      ensures pos <= |tokens| && pos > old(pos)
      ensures
        var v := ParseScalar(old(Rest())).0;
        var done := old(Elements(config.store, parent.value));
        && Valid() && parent == old(parent) && Rest() == ParseScalar(old(Rest())).1
        && (error.Some? <==> done != [] && !SameType(done[0], v))
        && (error.Some? ==> error.value == MismatchedType)
        && (error.None? ==>
              && Extended(old(config.store), config.store, parent.value)
              && Elements(config.store, parent.value) == done + [v])
    {
      hide ConfigGrammar.ParseScalar, AbsAll, StartsScalar, SameType, Named, Homogeneous;
      var v := TakeScalar();
      ghost var before, p := config.store, parent.value;
      FirstOfArray(before, p);
      var element := config.AppendElem(parent.value, v);
      if element.None? {
        return Some(MismatchedType);
      }
      hide KidsLinked, Linked;
      ElementAdded(before, config.store, p);
      return None;
    }

    /** One element with the comma or the bracket after it. */
    method ParseArrayItem() returns (error: Option<Error>, last: bool)
      requires Valid() && IsKind(config.store[parent.value], ArrayKind)
      modifies this, config
      ensures pos <= |tokens|
      ensures
        var spec := ParseArray(old(Rest()), old(Elements(config.store, parent.value)));
        && (error.Some? ==> spec == Fail(error.value))
        && (error.None? ==>
              && Valid() && parent == old(parent) && pos > old(pos)
              && Extended(old(config.store), config.store, parent.value)
              && spec == if last then Ok(Elements(config.store, parent.value), Rest())
                         else ParseArray(Rest(), Elements(config.store, parent.value)))
      decreases |tokens| - pos, 1
    {
      hide ConfigGrammar.ParseScalar, ParseArray, StartsScalar, Elements, SameType, Extended;
      hide Linked, Named, Homogeneous, KidsLinked;
      if !StartsScalar(Rest()) {
        NoArray(Rest(), Elements(config.store, parent.value));
        return Some(SyntaxError), false;
      }
      ArrayStep(Rest(), Elements(config.store, parent.value));
      error := ParseArrayElement();
      if error.Some? {
        return error, false;
      }
      var next := Peek(Rest());
      if next != TComma && next != TArrayEnd {
        return Some(SyntaxError), false;
      }
      assert Rest()[1..] == tokens[pos + 1..];
      pos := pos + 1;
      return None, next == TArrayEnd;
    }

    method ParseArrayElements() returns (error: Option<Error>)
      requires Opened(ArrayKind)
      modifies this, config
      ensures pos <= |tokens|
      ensures
        var spec := ParseArray(old(Rest()), []);
        && (error.Some? ==> spec == Fail(error.value))
        && (error.None? ==>
              && Valid() && parent == old(parent) && pos > old(pos)
              && Filled(old(config.store), config.store)
              && IsKind(config.store[parent.value], ArrayKind)
              && Abs(config.store, parent.value).Array?
              && spec == Ok(Abs(config.store, parent.value).elems, Rest()))
      decreases |tokens| - pos, 2
    {
      NoElementsYet(config.store, parent.value);
      hide ParseArray, Abs, Elements, Filled, Extended, Linked, Named, Homogeneous, KidsLinked;
      ghost var start, st0, p := Rest(), config.store, parent.value;
      FilledSelf(st0);
      while true
        invariant pos <= |tokens| && pos >= old(pos)
        invariant Valid() && parent == old(parent) && p == parent.value
        invariant Filled(st0, config.store) && IsKind(config.store[p], ArrayKind)
        invariant ParseArray(start, []) == ParseArray(Rest(), Elements(config.store, p))
        decreases |tokens| - pos
      {
        ghost var before := config.store;
        var last;
        error, last := ParseArrayItem();
        if error.Some? {
          return;
        }
        FilledThenExtended(st0, before, config.store, p);
        KindKept(before, config.store, p, ArrayKind);
        if last {
          AbsIs(config.store, p);
          return;
        }
      }
      assert false;
    }

    /** One element with the comma or the bracket after it. */
    method ParseListItem() returns (error: Option<Error>, last: bool)
      requires Valid() && IsKind(config.store[parent.value], ListKind)
      modifies this, config
      ensures pos <= |tokens|
      ensures
        var spec := ParseList(old(Rest()), old(Elements(config.store, parent.value)));
        && (error.Some? ==> spec == Fail(error.value))
        && (error.None? ==>
              && Valid() && parent == old(parent) && pos > old(pos)
              && Extended(old(config.store), config.store, parent.value)
              && spec == if last then Ok(Elements(config.store, parent.value), Rest())
                         else ParseList(Rest(), Elements(config.store, parent.value)))
      decreases |tokens| - pos, 1
    {
      hide ConfigGrammar.ParseValue, ParseList, Abs, Elements, Extended, Linked, Named, Homogeneous, KidsLinked;
      ghost var before, p := config.store, parent.value;
      ListStep(Rest(), Elements(before, p));
      error := ParseValue(NewElement);
      if error.Some? {
        return error, false;
      }
      ElementAdded(before, config.store, p);
      var next := Peek(Rest());
      if next != TComma && next != TListEnd {
        return Some(SyntaxError), false;
      }
      assert Rest()[1..] == tokens[pos + 1..];
      pos := pos + 1;
      return None, next == TListEnd;
    }

    method ParseListElements() returns (error: Option<Error>)
      requires Opened(ListKind)
      modifies this, config
      ensures pos <= |tokens|
      ensures
        var spec := ParseList(old(Rest()), []);
        && (error.Some? ==> spec == Fail(error.value))
        && (error.None? ==>
              && Valid() && parent == old(parent) && pos > old(pos)
              && Filled(old(config.store), config.store)
              && IsKind(config.store[parent.value], ListKind)
              && Abs(config.store, parent.value).List?
              && spec == Ok(Abs(config.store, parent.value).elems, Rest()))
      decreases |tokens| - pos, 2
    {
      NoElementsYet(config.store, parent.value);
      hide ParseList, Abs, Elements, Filled, Extended, Linked, Named, Homogeneous, KidsLinked;
      ghost var start, st0, p := Rest(), config.store, parent.value;
      FilledSelf(st0);
      while true
        invariant pos <= |tokens| && pos >= old(pos)
        invariant Valid() && parent == old(parent) && p == parent.value
        invariant Filled(st0, config.store) && IsKind(config.store[p], ListKind)
        invariant ParseList(start, []) == ParseList(Rest(), Elements(config.store, p))
        decreases |tokens| - pos
      {
        ghost var before := config.store;
        var last;
        error, last := ParseListItem();
        if error.Some? {
          return;
        }
        FilledThenExtended(st0, before, config.store, p);
        KindKept(before, config.store, p, ListKind);
        if last {
          AbsIs(config.store, p);
          return;
        }
      }
      assert false;
    }

    /** What follows the name of a setting: the sign, the value and the optional terminator. */
    method ParseAssignment() returns (error: Option<Error>)
      requires Expecting(PendingMember)
      modifies this, config
      ensures pos <= |tokens|
      ensures
        var spec := AssignmentSpec(old(Rest()));
        && (error.Some? ==> spec == Fail(error.value))
        && (error.None? ==>
              && Valid() && parent == old(parent) && pos > old(pos)
              && Filled(old(config.store), config.store)
              && spec == Ok(Abs(config.store, |old(config.store)| - 1), Rest()))
      decreases |tokens| - pos, 1
    {
      hide ConfigGrammar.ParseValue, Abs, Linked, Named, Homogeneous, KidsLinked, Filled;
      ghost var start := Rest();
      if Peek(Rest()) != TEquals {
        return Some(SyntaxError);
      }
      assert start[1..] == tokens[pos + 1..];
      pos := pos + 1;
      error := ParseValue(PendingMember);
      if error.Some? {
        return;
      }
      if Peek(Rest()) == TSemicolon || Peek(Rest()) == TComma {
        assert Rest()[1..] == tokens[pos + 1..];
        pos := pos + 1;
      }
    }

    method ParseSetting() returns (error: Option<Error>)
      requires Valid() && IsKind(config.store[parent.value], GroupKind) && Peek(Rest()).TName?
      modifies this, config
      ensures pos <= |tokens|
      ensures
        var spec := ConfigGrammar.ParseSetting(old(Rest()), old(Members(config.store, parent.value)));
        && (error.Some? ==> spec == Fail(error.value))
        && (error.None? ==>
              && Valid() && parent == old(parent) && pos > old(pos)
              && Extended(old(config.store), config.store, parent.value)
              && spec.Ok? && spec.rest == Rest()
              && Members(config.store, parent.value) == old(Members(config.store, parent.value)) + [spec.value])
      decreases |tokens| - pos, 1
    {
      hide ConfigGrammar.ParseValue, ConfigGrammar.ParseSetting, AssignmentSpec, ValidName, HasName, MemberOf, Members;
      hide Abs, Linked, Named, Homogeneous, KidsLinked, Appended, Filled, Extended;
      ghost var before, p, start := config.store, parent.value, Rest();
      SettingStep(start, Members(before, p));
      var name := tokens[pos].name;
      assert start[1..] == tokens[pos + 1..];
      NamesAgree(before, p, name);
      pos := pos + 1;
      setting := config.Add(parent.value, Some(name), NoneType);
      if setting.None? {
        return Some(DuplicateName);
      }
      MemberPending(before, p, name);
      error := ParseAssignment();
      if error.None? {
        PendingFilled(before, config.store, p, name);
        MemberAdded(before, config.store, p, name);
      }
    }

    method ParseSettings() returns (error: Option<Error>)
      requires Opened(GroupKind)
      modifies this, config
      ensures pos <= |tokens|
      ensures
        var spec := ConfigGrammar.ParseSettings(old(Rest()), []);
        && (error.Some? ==> spec == Fail(error.value))
        && (error.None? ==>
              && Valid() && parent == old(parent) && pos >= old(pos)
              && Filled(old(config.store), config.store)
              && IsKind(config.store[parent.value], GroupKind)
              && Abs(config.store, parent.value).Group?
              && spec == Ok(Abs(config.store, parent.value).members, Rest()))
      decreases |tokens| - pos, 2
    {
      hide ConfigGrammar.ParseSetting, AbsMembers, Abs, Members, Named, Homogeneous, KidsLinked;
      OpenedGroup(config.store, parent.value);
      ghost var start, st0, p := Rest(), config.store, parent.value;
      while Peek(Rest()).TName?
        invariant pos <= |tokens| && pos >= old(pos)
        invariant Valid() && parent == old(parent) && p == parent.value
        invariant Filled(st0, config.store) && IsKind(config.store[p], GroupKind)
        invariant ConfigGrammar.ParseSettings(start, []) ==
                  ConfigGrammar.ParseSettings(Rest(), Members(config.store, p))
        decreases |tokens| - pos
      {
        error := ParseSetting();
        if error.Some? {
          return;
        }
      }
      AbsIs(config.store, p);
      return None;
    }
  }

  lemma ArrayStep(ts: seq<Token>, done: seq<Value>)
    requires StartsScalar(ts)
    ensures
      var v, rest := ParseScalar(ts).0, ParseScalar(ts).1;
      && (done != [] && !SameType(done[0], v) ==> ParseArray(ts, done) == Fail(MismatchedType))
      && (!(done != [] && !SameType(done[0], v)) ==>
            ParseArray(ts, done) ==
            if Peek(rest) == TComma then ParseArray(rest[1..], done + [v])
            else if Peek(rest) == TArrayEnd then Ok(done + [v], rest[1..])
            else Fail(SyntaxError))
  {
    hide SameType, ParseScalar;
  }

  lemma NoArray(ts: seq<Token>, done: seq<Value>)
    requires !StartsScalar(ts)
    ensures ParseArray(ts, done) == Fail(SyntaxError)
  {
    hide StartsScalar;
  }

  lemma FilledSelf(a: Store)
    requires a != []
    ensures Filled(a, a)
  {}

  lemma ListStep(ts: seq<Token>, done: seq<Value>)
    ensures
      var p := ConfigGrammar.ParseValue(ts);
      ParseList(ts, done) ==
      if p.Fail? then Fail(p.error)
      else if Peek(p.rest) == TComma then ParseList(p.rest[1..], done + [p.value])
      else if Peek(p.rest) == TListEnd then Ok(done + [p.value], p.rest[1..])
      else Fail(SyntaxError)
  {
    hide ConfigGrammar.ParseValue;
  }

  function AssignmentSpec(ts: seq<Token>): Parsed<Value>
  {
    if Peek(ts) != TEquals then Fail(SyntaxError)
    else
      match ConfigGrammar.ParseValue(ts[1..])
      case Fail(e) => Fail(e)
      case Ok(v, rest) => Ok(v, SkipTerminator(rest))
  }

  lemma SettingStep(ts: seq<Token>, done: seq<Member>)
    requires Peek(ts).TName?
    ensures
      var spec, value := ConfigGrammar.ParseSetting(ts, done), AssignmentSpec(ts[1..]);
      spec ==
      if HasName(done, ts[0].name) || !ValidName(ts[0].name) then Fail(DuplicateName)
      else if value.Fail? then Fail(value.error)
      else Ok(ConfigTree.Member(ts[0].name, value.value), value.rest)
  {
    hide ConfigGrammar.ParseValue, HasName, ValidName;
    assert |ts| > 1 ==> ts[1..][1..] == ts[2..];
  }

  lemma FilledThenExtended(a: Store, b: Store, c: Store, p: nat)
    requires Filled(a, b) && Extended(b, c, p) && p == |a| - 1
    ensures Filled(a, c)
  {}

  lemma KindKept(a: Store, b: Store, p: nat, kind: Kind)
    requires Extended(a, b, p) && IsKind(a[p], kind)
    ensures p < |b| && IsKind(b[p], kind)
  {}

  lemma NoElementsYet(st: Store, p: nat)
    requires Linked(st) && p < |st| && st[p].payload.Aggregate? && st[p].payload.kids == []
    ensures Elements(st, p) == []
  {}

  lemma OpenedGroup(st: Store, p: nat)
    requires Linked(st) && p < |st| && st[p].payload == Aggregate(GroupKind, [])
    ensures Members(st, p) == []
  {}

  ghost function Elements(st: Store, p: nat): seq<Value>
    requires Linked(st) && p < |st|
  {
    assert KidsLinked(st, p);
    AbsAll(st, p, Kids(st[p]))
  }

  ghost function Members(st: Store, p: nat): seq<Member>
    requires Linked(st) && p < |st|
  {
    assert KidsLinked(st, p);
    AbsMembers(st, p, Kids(st[p]))
  }

  lemma AbsIs(st: Store, p: nat)
    requires Linked(st) && p < |st| && st[p].payload.Aggregate?
    ensures
      match st[p].payload.kind
      case ArrayKind => Abs(st, p) == Array(Elements(st, p))
      case ListKind => Abs(st, p) == List(Elements(st, p))
      case GroupKind => Abs(st, p) == Group(Members(st, p))
  {}

  /** The first element fixes the type of an array. */
  lemma FirstOfArray(st: Store, p: nat)
    requires ConfigStore.Valid(st) && Homogeneous(st) && p < |st| && IsKind(st[p], ArrayKind)
    ensures
      var kids, done := Kids(st[p]), Elements(st, p);
      && |kids| == |done|
      && (kids != [] ==> kids[0] < |st| && st[kids[0]].payload == ScalarOf(done[0]))
  {
    assert KidsLinked(st, p) && KidsAlike(st, p);
    var kids := Kids(st[p]);
    if kids != [] {
      assert kids[0] in kids;
      ElementAt(st, p, kids, 0);
    }
  }

  lemma {:induction false} ElementAt(st: Store, p: nat, kids: seq<nat>, n: nat)
    requires Linked(st) && p < |st| && n < |kids| && forall k | k in kids :: p < k < |st|
    ensures kids[n] < |st| && AbsAll(st, p, kids)[n] == Abs(st, kids[n])
  {
    var last := |kids| - 1;
    assert kids[last] in kids && kids[n] in kids && forall k | k in kids[..last] :: k in kids;
    if n < last {
      ElementAt(st, p, kids[..last], n);
    }
  }

  /** A new element leaves the trees of the earlier ones alone. */
  lemma ElementAdded(a: Store, b: Store, p: nat)
    requires Linked(a) && Linked(b) && Extended(a, b, p)
    ensures Elements(b, p) == Elements(a, p) + [Abs(b, |a|)]
  {
    assert KidsLinked(a, p) && KidsLinked(b, p);
    var kids := Kids(a[p]);
    AbsAllFrame(a, b, p, kids);
    assert Kids(b[p])[..|kids|] == kids;
  }

  /** The setting just added is the pending member. */
  lemma MemberPending(st: Store, p: nat, name: string)
    requires p < |st| && IsKind(st[p], GroupKind)
    ensures
      var added := Appended(st, p, Some(name), NoType);
      && |added| == |st| + 1 && IsKind(added[p], GroupKind)
      && added[|st|].payload == NoType && added[|st|].parent == Some(p)
  {}

  lemma PendingFilled(a: Store, b: Store, p: nat, name: string)
    requires p < |a| && IsKind(a[p], GroupKind) && Filled(Appended(a, p, Some(name), NoType), b)
    ensures Extended(a, b, p) && b[|a|].name == Some(name)
  {}

  lemma MemberAdded(a: Store, b: Store, p: nat, name: string)
    requires Linked(a) && Linked(b) && Extended(a, b, p) && IsKind(a[p], GroupKind) && b[|a|].name == Some(name)
    ensures Members(b, p) == Members(a, p) + [Member(name, Abs(b, |a|))]
  {
    hide Abs, Linked;
    assert KidsLinked(a, p) && KidsLinked(b, p) by {
      LinkedAt(a, p);
      LinkedAt(b, p);
    }
    var kids := Kids(a[p]);
    AbsMembersFrame(a, b, p, kids);
    assert Kids(b[p])[..|kids|] == kids;
  }

  lemma LinkedAt(st: Store, i: nat)
    requires Linked(st) && i < |st|
    ensures KidsLinked(st, i)
  {}

  lemma {:induction false} MemberAt(st: Store, p: nat, kids: seq<nat>, n: nat)
    requires Linked(st) && p < |st| && n < |kids| && forall k | k in kids :: p < k < |st|
    ensures kids[n] < |st| && AbsMembers(st, p, kids)[n] == ConfigTree.Member(NameOf(st[kids[n]]), Abs(st, kids[n]))
  {
    var last := |kids| - 1;
    assert kids[last] in kids && kids[n] in kids && forall k | k in kids[..last] :: k in kids;
    if n < last {
      MemberAt(st, p, kids[..last], n);
    }
  }

  /** The search in the list finds a valid name exactly when the tree has it. */
  lemma NamesAgree(st: Store, p: nat, name: string)
    requires ConfigStore.Valid(st) && p < |st| && IsKind(st[p], GroupKind)
    ensures ValidName(name) ==> (MemberOf(st, p, name).Some? <==> HasName(Members(st, p), name))
  {
    assert KidsLinked(st, p) && KidsNamed(st, p);
    var kids, ms := Kids(st[p]), Members(st, p);
    if ValidName(name) {
      HeadOfName(name);
      FindMemberMeans(st, kids, name);
      assert |ms| == |kids| && forall k | k in kids :: k < |st|;
      forall n | 0 <= n < |kids|
        ensures kids[n] in kids && ms[n].name == NameOf(st[kids[n]]) && Head(ms[n].name) == ms[n].name
      {
        MemberAt(st, p, kids, n);
        assert kids[n] in kids;
        HeadOfName(st[kids[n]].name.value);
      }
      hide ValidName, Head, AbsMembers;
      var found := FindMember(st, kids, name);
      if found.Some? {
        assert ms[found.value].name == name;
      } else {
        forall n | 0 <= n < |ms| ensures ms[n].name != name {
          assert kids[n] in kids;
        }
      }
    }
  }

  function BodySpec(kind: Kind, ts: seq<Token>): Parsed<Value>
  {
    match kind
    case ArrayKind =>
      if Peek(ts) == TArrayEnd then Ok(Array([]), ts[1..])
      else (match ParseArray(ts, []) case Ok(vs, rest) => Ok(Array(vs), rest) case Fail(e) => Fail(e))
    case ListKind =>
      if Peek(ts) == TListEnd then Ok(List([]), ts[1..])
      else (match ParseList(ts, []) case Ok(vs, rest) => Ok(List(vs), rest) case Fail(e) => Fail(e))
    case GroupKind =>
      match ConfigGrammar.ParseSettings(ts, [])
      case Ok(ms, rest) => if Peek(rest) == TGroupEnd then Ok(Group(ms), rest[1..]) else Fail(SyntaxError)
      case Fail(e) => Fail(e)
  }

  lemma ScalarValue(ts: seq<Token>)
    requires StartsScalar(ts)
    ensures ConfigGrammar.ParseValue(ts) == Ok(ParseScalar(ts).0, ParseScalar(ts).1)
  {
    hide ParseScalar, ParseArray, ParseList, ConfigGrammar.ParseSettings;
  }

  lemma NoValue(ts: seq<Token>)
    requires !StartsScalar(ts) && Peek(ts) !in {TArrayStart, TListStart, TGroupStart}
    ensures ConfigGrammar.ParseValue(ts) == Fail(SyntaxError)
  {
    hide ParseScalar, ParseArray, ParseList, ConfigGrammar.ParseSettings;
  }

  lemma BodyValue(ts: seq<Token>, kind: Kind)
    requires
      Peek(ts) == match kind case ArrayKind => TArrayStart case ListKind => TListStart case GroupKind => TGroupStart
    ensures ConfigGrammar.ParseValue(ts) == BodySpec(kind, ts[1..])
  {
    hide ParseScalar, ParseArray, ParseList, ConfigGrammar.ParseSettings;
    assert Peek(ts[1..]) != TError ==> ts[1..][1..] == ts[2..];
  }

  /** After an aggregate has been opened and filled, closing it leads back to the parent from before
      it was opened. */
  lemma CloseUndoesOpen(a: Store, b: Store, c: Store, p: nat, slot: Slot)
    requires p < |a| && Grown(a, b, p, slot) && |b| == Target(a, slot) + 1 && Filled(b, c)
    requires slot.PendingMember? ==> a[|a| - 1].parent == Some(p)
    ensures c[Target(a, slot)].parent == Some(p) && Grown(a, c, p, slot)
  {}

  /** Parsing a token sequence builds, in place, exactly the tree the grammar assigns to it:
      afterwards the parent is the root again, the links and names are valid and arrays
      hold scalars of one type. */
  method ParseTokens(tokens: seq<Token>) returns (context: ParseContext, error: Option<Error>)
    ensures error.Some? ==> ParseConfig(tokens) == Fail(error.value)
    ensures error.None? ==>
      && context.Valid() && Homogeneous(context.config.store)
      && context.parent == Some(0) && context.Rest() == []
      && ParseConfig(tokens) == Ok(Abs(context.config.store, 0), [])
  {
    hide ConfigGrammar.ParseSettings;
    context := new ParseContext(tokens);
    assert context.Rest() == tokens;
    error := context.ParseSettings();
    if error.None? && context.pos < |tokens| {
      error := Some(SyntaxError);
    }
  }
}
