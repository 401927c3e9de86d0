/** Copying a setting, with everything below it, into another configuration, child by child. */
module ConfigCopy {
  import opened ConfigTree
  import opened ConfigStore
  import opened LibConfig
  import opened ConfigReader
  import opened Options
  import opened Seqs

  /** The tree that a copy is: list elements without a type are passed over. */
  function Copied(v: Value): Value
  {
    match v
    case Array(elems) => Array(CopiedAll(elems))
    case List(elems) => List(CopiedAll(elems))
    case Group(members) => Group(CopiedMembers(members))
    case _ => v
  }

  function CopiedAll(vs: seq<Value>): seq<Value>
  {
    if vs == [] then []
    else
      var last := vs[|vs| - 1];
      CopiedAll(vs[..|vs| - 1]) + (if last.Untyped? then [] else [Copied(last)])
  }

  function CopiedMembers(ms: seq<Member>): (r: seq<Member>)
    ensures |r| == |ms| && forall i | 0 <= i < |ms| :: r[i] == Member(ms[i].name, Copied(ms[i].value))
  {
    if ms == [] then []
    else
      var last := ms[|ms| - 1];
      CopiedMembers(ms[..|ms| - 1]) + [Member(last.name, Copied(last.value))]
  }

  /** Without untyped list elements, the copy is the same tree. */
  lemma {:induction false} CopiedIsSame(v: Value)
    requires Typed(v)
    ensures Copied(v) == v
  {
    match v {
      case Array(elems) => CopiedAllSame(elems);
      case List(elems) => CopiedAllSame(elems);
      case Group(members) => CopiedMembersSame(members);
      case _ =>
    }
  }

  predicate Typed(v: Value)
  {
    match v
    case Array(elems) => forall e | e in elems :: !e.Untyped? && Typed(e)
    case List(elems) => forall e | e in elems :: !e.Untyped? && Typed(e)
    case Group(members) => forall m | m in members :: Typed(m.value)
    case _ => true
  }

  lemma {:induction false} CopiedAllSame(vs: seq<Value>)
    requires forall e | e in vs :: !e.Untyped? && Typed(e)
    ensures CopiedAll(vs) == vs
  {
    if vs != [] {
      var last := vs[|vs| - 1];
      assert last in vs;
      CopiedIsSame(last);
      CopiedAllSame(vs[..|vs| - 1]);
      assert vs == vs[..|vs| - 1] + [last];
    }
  }

  lemma {:induction false} CopiedMembersSame(ms: seq<Member>)
    requires forall m | m in ms :: Typed(m.value)
    ensures CopiedMembers(ms) == ms
  {
    if ms != [] {
      var last := ms[|ms| - 1];
      assert last in ms;
      CopiedIsSame(last.value);
      CopiedMembersSame(ms[..|ms| - 1]);
      assert ms == ms[..|ms| - 1] + [last];
    }
  }

  function TypeOfSetting(s: Setting): Type { TypeOf(Held(s.payload)) }

  /** A source setting. */
  ghost predicate Source(src: Store, i: nat)
  {
    ConfigStore.Valid(src) && Homogeneous(src) && i < |src|
  }

  /** A group in which the name is new, or a list. */
  ghost predicate Takes(st: Store, p: nat, name: Option<string>)
  {
    && ConfigStore.Valid(st) && Homogeneous(st) && p < |st|
    && (if IsKind(st[p], GroupKind) then
          name.Some? && ValidName(name.value) && MemberOf(st, p, name.value).None?
        else IsKind(st[p], ListKind))
  }

  /** The setting with index `|a|` has been added below `p`, and stands for the tree. */
  ghost predicate Grew(a: Store, b: Store, p: nat, name: Option<string>, v: Value)
  {
    && Linked(b) && Extended(a, b, p) && Abs(b, |a|) == v
    && (IsKind(a[p], GroupKind) ==> b[|a|].name == name)
  }

  /** The type and the value of a scalar, one after the other. */
  method SetValue(config: Config, i: nat, v: Value) returns (ok: bool)
    requires config.Valid() && Homogeneous(config.store) && i < |config.store|
    requires config.store[i].payload == InitialPayload(TypeOf(v)) && (IsScalar(v) || v.Untyped?)
    modifies config
    ensures ok && config.Valid() && Homogeneous(config.store)
    ensures
      var setting := old(config.store)[i];
      config.store == old(config.store)[i := setting.(payload := if IsScalar(v) then ScalarOf(v) else NoType)]
  {
    ok := true;
    if IsScalar(v) {
      ok := config.SetScalar(i, v, None);
      if v.Integer? {
        var _ := config.SetFormat(i, v.fmt);
      } else if v.Integer64? {
        var _ := config.SetFormat(i, v.fmt);
      }
    }
  }

  /** A store with one more setting below `p`, which has no children. */
  lemma LeafGrew(a: Store, b: Store, p: nat, name: Option<string>, payload: Payload)
    requires p < |a| && a[p].payload.Aggregate? && Linked(b) && b == Appended(a, p, name, payload)
    requires payload == NoType || payload.ScalarOf?
    ensures Grew(a, b, p, name, Held(payload))
  {}

  lemma AppendedThenSet(st: Store, p: nat, name: Option<string>, first: Payload, payload: Payload)
    requires p < |st| && st[p].payload.Aggregate?
    ensures
      var added := Appended(st, p, name, first);
      && |added| == |st| + 1
      && added[|st| := added[|st|].(payload := payload)] == Appended(st, p, name, payload)
      && added[|st|].payload == first && added[|st|].name == name
  {}

  lemma HeldIsAbs(src: Store, i: nat)
    requires Linked(src) && i < |src| && !src[i].payload.Aggregate?
    ensures Held(src[i].payload) == Abs(src, i) && Copied(Abs(src, i)) == Abs(src, i)
    ensures IsScalar(Abs(src, i)) || Abs(src, i).Untyped?
    ensures src[i].payload.ScalarOf? ==> IsScalar(src[i].payload.v)
  {
    assert KidsLinked(src, i);
  }

  /** `config_setting_copy_simple` */
  method CopySimple(config: Config, p: nat, src: Store, i: nat)
    requires Source(src, i) && config.Valid() && Homogeneous(config.store) && p < |config.store|
    requires IsKind(config.store[p], ListKind) || (IsKind(config.store[p], GroupKind) && src[i].name.Some?)
    modifies config
    ensures config.Valid() && Homogeneous(config.store)
    ensures if old(Takes(config.store, p, src[i].name)) then
              Grew(old(config.store), config.store, p, src[i].name, Copied(Abs(src, i)))
            else config.store == old(config.store)
    decreases |src| - i, 1, 0
  {
    hide Grew, Copied, Abs;
    if src[i].payload.Aggregate? {
      CopyAggregate(config, p, src, i);
    } else {
      ghost var before := config.store;
      ghost var name := if IsKind(before[p], GroupKind) then src[i].name else None;
      HeldIsAbs(src, i);
      var v := Held(src[i].payload);
      var added := config.Add(p, src[i].name, TypeOf(v));
      if added.None? {
        return;
      }
      AppendedThenSet(before, p, name, InitialPayload(TypeOf(v)), if IsScalar(v) then ScalarOf(v) else NoType);
      var _ := SetValue(config, added.value, v);
      LeafGrew(before, config.store, p, name, if IsScalar(v) then ScalarOf(v) else NoType);
      NameGrew(before, config.store, p, name, src[i].name, v);
    }
  }

  lemma NameGrew(a: Store, b: Store, p: nat, name: Option<string>, given: Option<string>, v: Value)
    requires Grew(a, b, p, name, v) && (IsKind(a[p], GroupKind) ==> name == given)
    ensures Grew(a, b, p, given, v)
  {
    hide Linked, Abs;
  }

  /** `config_setting_copy_elem`: into an array or a list. */
  method CopyElem(config: Config, p: nat, src: Store, i: nat)
    requires Source(src, i) && config.Valid() && Homogeneous(config.store) && p < |config.store|
    requires
      || IsKind(config.store[p], ListKind)
      || (IsKind(config.store[p], ArrayKind) && src[i].payload.ScalarOf? &&
          config.AcceptsType(p, src[i].payload.v))
    modifies config
    ensures config.Valid() && Homogeneous(config.store)
    ensures if src[i].payload == NoType then config.store == old(config.store)
            else Grew(old(config.store), config.store, p, None, Copied(Abs(src, i)))
    decreases |src| - i, 1, 0
  {
    hide Grew, Copied, Abs;
    ghost var before := config.store;
    if src[i].payload.Aggregate? {
      CopyAggregate(config, p, src, i);
      NameGrew(before, config.store, p, src[i].name, None, Copied(Abs(src, i)));
    } else if src[i].payload.ScalarOf? {
      HeldIsAbs(src, i);
      var v := src[i].payload.v;
      var plain := if v.Integer? then Integer(v.i, Plain) else if v.Integer64? then Integer64(v.l, Plain) else v;
      SameAccepted(config.store, p, v, plain);
      var element := config.AppendElem(p, plain);
      AppendedThenSet(before, p, None, ScalarOf(plain), ScalarOf(v));
      if v.Integer? || v.Integer64? {
        var _ := config.SetFormat(element.value, v.fmt);
      }
      LeafGrew(before, config.store, p, None, ScalarOf(v));
    }
  }

  lemma SameAccepted(st: Store, p: nat, v: Value, plain: Value)
    requires p < |st| && SameType(v, plain)
    ensures
      var kids := Kids(st[p]);
      kids != [] && kids[0] < |st| && st[kids[0]].payload.ScalarOf? && SameType(st[kids[0]].payload.v, v) ==>
        SameType(st[kids[0]].payload.v, plain)
  {}

  /** One child of an aggregate, into the new one. */
  method CopyKid(config: Config, ghost started: Store, k: nat, kind: Kind, src: Store, i: nat, n: nat)
    requires Source(src, i) && IsKind(src[i], kind) && n < |Kids(src[i])|
    requires config.Valid() && Homogeneous(config.store) && k < |config.store| && IsKind(config.store[k], kind)
    requires k == |started| - 1 && Filled(started, config.store) && CopiedUpTo(config.store, k, kind, src, i, n)
    modifies config
    ensures config.Valid() && Homogeneous(config.store)
    ensures k < |config.store| && Filled(started, config.store) && IsKind(config.store[k], kind)
    ensures CopiedUpTo(config.store, k, kind, src, i, n + 1)
    decreases |src| - i, 0, 0
  {
    hide Grew, Copied, Abs, Filled, Extended, Homogeneous, Named, Linked, CopiedUpTo;
    ghost var st := config.store;
    SourceKid(src, i, n);
    var kid := Kids(src[i])[n];
    if kind == GroupKind {
      NameStillNew(st, k, src, i, n);
      CopySimple(config, k, src, kid);
    } else {
      if kind == ArrayKind {
        TypeStillRight(st, k, src, i, n);
      }
      CopyElem(config, k, src, kid);
    }
    OneMoreKid(started, st, config.store, k, kind, src, i, n);
  }

  /** `config_setting_copy_aggregate` */
  method CopyAggregate(config: Config, p: nat, src: Store, i: nat)
    requires Source(src, i) && src[i].payload.Aggregate?
    requires config.Valid() && Homogeneous(config.store) && p < |config.store|
    requires IsKind(config.store[p], ListKind) || (IsKind(config.store[p], GroupKind) && src[i].name.Some?)
    modifies config
    ensures config.Valid() && Homogeneous(config.store)
    ensures if old(Takes(config.store, p, src[i].name)) then
              Grew(old(config.store), config.store, p, src[i].name, Copied(Abs(src, i)))
            else config.store == old(config.store)
    decreases |src| - i, 0, 1
  {
    hide Grew, Copied, Abs, Filled, Extended, Homogeneous, Named, Linked, CopiedUpTo;
    ghost var before := config.store;
    var kind := src[i].payload.kind;
    var t := match kind case ArrayKind => ArrayType case ListKind => ListType case GroupKind => GroupType;
    var added := config.Add(p, src[i].name, t);
    if added.None? {
      return;
    }
    var k := added.value;
    ghost var started := config.store;
    StartedCopy(before, p, if IsKind(before[p], GroupKind) then src[i].name else None, kind);
    NothingYet(started, k, kind, src, i);
    var kids, n := Kids(src[i]), 0;
    while n < |kids|
      invariant 0 <= n <= |kids| && config.Valid() && Homogeneous(config.store)
      invariant k < |config.store| && Filled(started, config.store) && IsKind(config.store[k], kind)
      invariant CopiedUpTo(config.store, k, kind, src, i, n)
    {
      CopyKid(config, started, k, kind, src, i, n);
      n := n + 1;
    }
    AggregateGrew(before, started, config.store, p, src[i].name, kind, src, i);
  }

  /** The first `n` children have been copied. */
  ghost predicate CopiedUpTo(st: Store, k: nat, kind: Kind, src: Store, i: nat, n: nat)
    requires Linked(src) && i < |src| && n <= |Kids(src[i])|
  {
    && Linked(st) && k < |st| && KidsLinked(src, i)
    && (forall j | j in Kids(src[i])[..n] :: j in Kids(src[i]))
    && (if kind == GroupKind then Members(st, k) == CopiedMembers(AbsMembers(src, i, Kids(src[i])[..n]))
        else Elements(st, k) == CopiedAll(AbsAll(src, i, Kids(src[i])[..n])))
  }

  lemma StartedCopy(st: Store, p: nat, name: Option<string>, kind: Kind)
    requires p < |st| && st[p].payload.Aggregate?
    ensures
      var started := Appended(st, p, name, Aggregate(kind, []));
      && Extended(st, started, p) && |started| == |st| + 1 && Filled(started, started)
      && IsKind(started[|st|], kind) && Kids(started[|st|]) == [] && started[|st|].name == name
  {}

  lemma NothingYet(started: Store, k: nat, kind: Kind, src: Store, i: nat)
    requires Linked(started) && k < |started| && IsKind(started[k], kind) && Kids(started[k]) == []
    requires Source(src, i)
    ensures CopiedUpTo(started, k, kind, src, i, 0)
  {
    assert KidsLinked(src, i) && Kids(src[i])[..0] == [];
  }

  lemma SourceKid(src: Store, i: nat, n: nat)
    requires Source(src, i) && n < |Kids(src[i])|
    ensures
      var kid := Kids(src[i])[n];
      && i < kid < |src|
      && (IsKind(src[i], GroupKind) ==> src[kid].name.Some? && ValidName(src[kid].name.value))
      && (!IsKind(src[i], GroupKind) ==> src[kid].name == None)
      && (IsKind(src[i], ArrayKind) ==> src[kid].payload.ScalarOf?)
  {
    assert KidsLinked(src, i) && KidsNamed(src, i) && Kids(src[i])[n] in Kids(src[i]);
    if IsKind(src[i], ArrayKind) {
      assert KidsAlike(src, i);
    }
  }

  /** The names of the children before position `n` are other names. */
  lemma NameStillNew(st: Store, k: nat, src: Store, i: nat, n: nat)
    requires Source(src, i) && n < |Kids(src[i])| && IsKind(src[i], GroupKind)
    requires ConfigStore.Valid(st) && Homogeneous(st) && k < |st| && IsKind(st[k], GroupKind)
    requires CopiedUpTo(st, k, GroupKind, src, i, n)
    ensures Kids(src[i])[n] < |src| && Takes(st, k, src[Kids(src[i])[n]].name)
  {
    SourceKid(src, i, n);
    var kids := Kids(src[i]);
    var name := src[kids[n]].name.value;
    assert KidsLinked(src, i) && KidsNamed(src, i);
    hide ValidName, MemberOf, AbsMembers, KidsNamed, Homogeneous, Abs;
    NamesAgree(st, k, name);
    forall j | 0 <= j < n ensures Members(st, k)[j].name != name {
      assert kids[j] in kids && kids[n] in kids && kids[..n][j] == kids[j];
      MemberAt(src, i, kids[..n], j);
      OtherName(src, i, j, n);
    }
  }

  lemma OtherName(src: Store, i: nat, j: nat, n: nat)
    requires Source(src, i) && j < n < |Kids(src[i])| && IsKind(src[i], GroupKind)
    ensures
      var kids := Kids(src[i]);
      kids[j] < |src| && kids[n] < |src| && NameOf(src[kids[j]]) != NameOf(src[kids[n]])
  {
    var kids := Kids(src[i]);
    assert KidsLinked(src, i) && KidsNamed(src, i) && kids[j] in kids && kids[n] in kids;
  }

  lemma {:induction false} ScalarsCopied(src: Store, i: nat, kids: seq<nat>)
    requires Linked(src) && i < |src|
    requires forall k | k in kids :: i < k < |src| && src[k].payload.ScalarOf?
    ensures CopiedAll(AbsAll(src, i, kids)) == AbsAll(src, i, kids)
  {
    hide Linked;
    if kids != [] {
      var n := |kids| - 1;
      assert kids[n] in kids && forall k | k in kids[..n] :: k in kids;
      ScalarsCopied(src, i, kids[..n]);
      HeldIsAbs(src, kids[n]);
      var vs := AbsAll(src, i, kids);
      assert vs[..n] == AbsAll(src, i, kids[..n]) && vs[n] == Abs(src, kids[n]);
      ScalarTyped(src, kids[n]);
    }
  }

  lemma ScalarTyped(src: Store, k: nat)
    requires Linked(src) && k < |src| && src[k].payload.ScalarOf?
    ensures !Abs(src, k).Untyped?
  {
    assert KidsLinked(src, k);
  }

  /** The elements copied so far have the type of the next one. */
  lemma TypeStillRight(st: Store, k: nat, src: Store, i: nat, n: nat)
    requires Source(src, i) && n < |Kids(src[i])| && IsKind(src[i], ArrayKind)
    requires ConfigStore.Valid(st) && Homogeneous(st) && k < |st| && IsKind(st[k], ArrayKind)
    requires CopiedUpTo(st, k, ArrayKind, src, i, n)
    ensures Kids(src[i])[n] < |src| && src[Kids(src[i])[n]].payload.ScalarOf?
    ensures
      var kids, v := Kids(st[k]), src[Kids(src[i])[n]].payload.v;
      kids == [] ||
      (kids[0] < |st| && st[kids[0]].payload.ScalarOf? && SameType(st[kids[0]].payload.v, v))
  {
    SourceKid(src, i, n);
    var kids := Kids(src[i]);
    assert KidsLinked(src, i) && KidsAlike(src, i);
    FirstOfArray(st, k);
    var done := kids[..n];
    assert forall j | j in done :: j in kids;
    ScalarsCopied(src, i, done);
    if done != [] {
      assert done[0] == kids[0] && kids[0] in kids && kids[n] in kids;
      ElementAt(src, i, done, 0);
      HeldIsAbs(src, kids[0]);
    }
  }

  lemma MembersUnfold(src: Store, i: nat, n: nat, m: nat)
    requires m == n + 1 && Linked(src) && i < |src| && n < |Kids(src[i])| && KidsLinked(src, i)
    ensures forall j | j in Kids(src[i])[..m] :: i < j < |src|
    ensures forall j | j in Kids(src[i])[..n] :: i < j < |src|
    ensures Kids(src[i])[n] in Kids(src[i]) && Kids(src[i])[n] < |src|
    ensures
      var kids := Kids(src[i]);
      && AbsMembers(src, i, kids[..m]) ==
         AbsMembers(src, i, kids[..n]) + [Member(NameOf(src[kids[n]]), Abs(src, kids[n]))]
      && AbsAll(src, i, kids[..m]) == AbsAll(src, i, kids[..n]) + [Abs(src, kids[n])]
  {
    hide Linked;
    var kids := Kids(src[i]);
    assert kids[n] in kids;
    var longer := kids[..m];
    forall j | j in longer || j in kids[..n] ensures i < j < |src| {
      assert j in kids;
    }
    assert longer[..n] == kids[..n] && longer[n] == kids[n] && kids[n] in longer;
    assert forall j | j in kids[..n] :: j in longer;
  }

  lemma CopiedUnfold(ms: seq<Member>, m: Member, vs: seq<Value>, v: Value)
    ensures CopiedMembers(ms + [m]) == CopiedMembers(ms) + [Member(m.name, Copied(m.value))]
    ensures CopiedAll(vs + [v]) == CopiedAll(vs) + (if v.Untyped? then [] else [Copied(v)])
  {
    hide Copied;
    assert (ms + [m])[..|ms|] == ms && (vs + [v])[..|vs|] == vs;
  }

  /** One more child has been copied. */
  lemma OneMoreKid(started: Store, st: Store, after: Store, k: nat, kind: Kind, src: Store, i: nat, n: nat)
    requires Source(src, i) && IsKind(src[i], kind) && n < |Kids(src[i])| && Kids(src[i])[n] < |src|
    requires k == |started| - 1 && Filled(started, st) && k < |st| && IsKind(st[k], kind) && Linked(after)
    requires CopiedUpTo(st, k, kind, src, i, n)
    requires
      var kid := Kids(src[i])[n];
      if kind != GroupKind && src[kid].payload == NoType then after == st
      else Grew(st, after, k, src[kid].name, Copied(Abs(src, kid)))
    ensures Filled(started, after) && k < |after| && IsKind(after[k], kind)
    ensures CopiedUpTo(after, k, kind, src, i, n + 1)
  {
    var kid := Kids(src[i])[n];
    assert KidsLinked(src, i);
    MembersUnfold(src, i, n, n + 1);
    var kids := Kids(src[i]);
    SourceKid(src, i, n);
    CopiedUnfold(AbsMembers(src, i, kids[..n]), Member(NameOf(src[kid]), Abs(src, kid)),
                 AbsAll(src, i, kids[..n]), Abs(src, kid));
    UntypedIs(src, kid);
    hide Linked, Abs, Copied, AbsAll, AbsMembers, CopiedAll, CopiedMembers, Filled, Homogeneous, Named, KidsLinked;
    if after == st {
      PlusNothing(Elements(st, k));
    } else {
      FilledThenExtended(started, st, after, k);
      KindKept(st, after, k, kind);
      if kind == GroupKind {
        MemberAdded(st, after, k, src[kid].name.value);
      } else {
        ElementAdded(st, after, k);
      }
    }
  }

  lemma UntypedIs(src: Store, k: nat)
    requires Linked(src) && k < |src|
    ensures Abs(src, k).Untyped? <==> src[k].payload == NoType
  {
    assert KidsLinked(src, k);
  }

  /** All children have been copied. */
  lemma AggregateGrew(before: Store, started: Store, after: Store, p: nat, name: Option<string>, kind: Kind,
                      src: Store, i: nat)
    requires Source(src, i) && IsKind(src[i], kind) && p < |before| && |started| == |before| + 1
    requires Extended(before, started, p) && Filled(started, after) && IsKind(after[|before|], kind)
    requires IsKind(before[p], GroupKind) ==> started[|before|].name == name
    requires CopiedUpTo(after, |before|, kind, src, i, |Kids(src[i])|)
    ensures Grew(before, after, p, name, Copied(Abs(src, i)))
  {
    hide Linked, Abs, Extended, Filled, Copied, CopiedUpTo;
    CloseUndoesOpen(before, started, after, p, NewElement);
    NameKept(started, after);
    CopyIs(after, |before|, kind, src, i);
  }

  lemma NameKept(started: Store, after: Store)
    requires Filled(started, after)
    ensures |started| <= |after| && after[|started| - 1].name == started[|started| - 1].name
  {}

  lemma CopyIs(after: Store, k: nat, kind: Kind, src: Store, i: nat)
    requires Source(src, i) && IsKind(src[i], kind) && k < |after| && IsKind(after[k], kind)
    requires CopiedUpTo(after, k, kind, src, i, |Kids(src[i])|)
    ensures Linked(after) && Abs(after, k) == Copied(Abs(src, i))
  {
    var kids := Kids(src[i]);
    assert kids[..|kids|] == kids;
    hide Linked, Abs, AbsAll, AbsMembers, CopiedAll, CopiedMembers;
    AbsIs(after, k);
    AbsIs(src, i);
  }

  /** `config_setting_copy`: below a group or a list, the copy is the same tree, but for list elements
      without a type; where the name is taken, nothing is copied. */
  method Copy(config: Config, p: nat, src: Store, i: nat) returns (ok: bool)
    requires Source(src, i) && config.Valid() && Homogeneous(config.store) && p < |config.store|
    requires IsKind(config.store[p], GroupKind) ==> src[i].name.Some?
    modifies config
    ensures config.Valid() && Homogeneous(config.store)
    ensures ok <==> old(IsKind(config.store[p], GroupKind) || IsKind(config.store[p], ListKind))
    ensures ok && old(Takes(config.store, p, src[i].name)) ==>
      && Grew(old(config.store), config.store, p, src[i].name, Copied(Abs(src, i)))
      && (Typed(Abs(src, i)) ==> Abs(config.store, |old(config.store)|) == Abs(src, i))
    ensures !(ok && old(Takes(config.store, p, src[i].name))) ==> config.store == old(config.store)
  {
    hide Typed, Copied, Abs;
    if !IsKind(config.store[p], GroupKind) && !IsKind(config.store[p], ListKind) {
      return false;
    }
    if Typed(Abs(src, i)) {
      CopiedIsSame(Abs(src, i));
    }
    if src[i].payload.Aggregate? {
      CopyAggregate(config, p, src, i);
    } else {
      CopySimple(config, p, src, i);
    }
    return true;
  }
}
