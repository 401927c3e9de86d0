/** The configuration object. */
module LibConfig {
  // Settings are added, set, removed, searched and looked up in place.

  import opened CLibrary
  import opened ConfigTree
  import opened ConfigScanner
  import opened ConfigStore
  import opened Options
  import opened Seqs

  /** The zeroed payload of a new setting of the given type. */
  function InitialPayload(t: Type): (payload: Payload)
    ensures FreshPayload(payload)
    ensures TypeOf(Held(payload)) == t
    ensures payload.ScalarOf? ==>
      payload.v in {Boolean(false), Integer(0, Plain), Integer64(0, Plain), Float("0.0"), Str("")}
  {
    match t
    case NoneType => NoType
    case BoolType => ScalarOf(Boolean(false))
    case IntType => ScalarOf(Integer(0, Plain))
    case Int64Type => ScalarOf(Integer64(0, Plain))
    case FloatType => ScalarOf(Float("0.0"))
    case StringType => ScalarOf(Str(""))
    case ArrayType => Aggregate(ArrayKind, [])
    case ListType => Aggregate(ListKind, [])
    case GroupType => Aggregate(GroupKind, [])
  }

  /** The value of a setting without children. */
  function Held(payload: Payload): Value
  {
    match payload
    case NoType => Untyped
    case ScalarOf(v) => v
    case Aggregate(ArrayKind, _) => Array([])
    case Aggregate(ListKind, _) => List([])
    case Aggregate(GroupKind, _) => Group([])
  }

  function MemberOf(st: Store, i: nat, path: string): Option<nat>
    requires i < |st|
  {
    if !IsKind(st[i], GroupKind) then None
    else
      match FindMember(st, Kids(st[i]), path)
      case Some(n) => Some(Kids(st[i])[n])
      case None => None
  }

  function ElementOf(st: Store, i: nat, n: nat): Option<nat>
    requires i < |st|
  {
    if n < |Kids(st[i])| then Some(Kids(st[i])[n]) else None
  }

  // ----- lookup by path -----

  /** `atoi` on arbitrary text, converted to an unsigned index. */
  function IndexText(s: string): nat
  {
    Unsigned32(Atoi(s[Span((c: char) => IsSpace(c), s)..]))
  }

  function SkipSeparators(path: string): (r: string)
    ensures |r| <= |path| && (r != [] ==> !IsPathToken(r[0]))
  {
    path[Span((c: char) => IsPathToken(c), path)..]
  }

  function SkipStep(path: string): (r: string)
    ensures |r| <= |path| && (path != [] && !IsPathToken(path[0]) ==> |r| < |path|)
  {
    path[Span((c: char) => !IsPathToken(c), path)..]
  }

  /** The setting one step leads to: an element for `[n]`, otherwise a member. */
  function Step(st: Store, i: nat, path: string): Option<nat>
    requires i < |st|
  {
    if path != [] && path[0] == '[' then ElementOf(st, i, IndexText(path[1..])) else MemberOf(st, i, path)
  }

  /** `config_lookup_from`. A path that ends with an unresolved `[` finds the setting reached
      before it. */
  function LookupFrom(st: Store, i: nat, path: string): Option<nat>
    requires Linked(st) && i < |st|
    decreases |path|
  {
    var p := SkipSeparators(path);
    if p == [] then Some(i)
    else
      var rest := if p[0] == '[' then p[1..] else p;
      match Step(st, i, p)
      case None => if rest == [] then Some(i) else None
      case Some(k) =>
        assert KidsLinked(st, i);
        assert k in Kids(st[i]);
        LookupFrom(st, k, SkipStep(rest))
  }

  class Config {
    var store: Store

    ghost predicate Valid()
      reads this
    {
      ConfigStore.Valid(store)
    }

    /** `config_init` */
    constructor ()
      ensures Valid() && Homogeneous(store)
      ensures store == [Root]
    {
      store := [Root];
    }

    /** `__config_name_compare` */
    static method NameCompare(a: string, b: string) returns (r: int)
      ensures r == Order(Head(a), Head(b))
      ensures r == 0 <==> Head(a) == Head(b)
    {
      OrderZero(Head(a), Head(b));
      var i := 0;
      while true
        invariant i <= |Head(a)| && i <= |Head(b)|
        invariant Order(Head(a), Head(b)) == Order(Head(a)[i..], Head(b)[i..])
        decreases |a| - i
      {
        assert Head(a)[i..] != [] ==> Head(a)[i..][1..] == Head(a)[i + 1..];
        assert Head(b)[i..] != [] ==> Head(b)[i..][1..] == Head(b)[i + 1..];
        var pd := i == |a| || IsPathToken(a[i]);
        var qd := i == |b| || IsPathToken(b[i]);
        HeadEnds(a, i);
        HeadEnds(b, i);
        if pd && qd {
          return 0;
        } else if pd {
          return -1;
        } else if qd {
          return 1;
        } else if a[i] < b[i] {
          return -1;
        } else if a[i] > b[i] {
          return 1;
        }
        i := i + 1;
      }
      assert false;
    }

    /** `__config_list_search`: the position of the first member of that name. */
    method ListSearch(kids: seq<nat>, name: string) returns (found: Option<nat>)
      requires forall k | k in kids :: k < |store|
      ensures found == FindMember(store, kids, name)
    {
      hide Head, Order, FindMember;
      var n := 0;
      assert kids[n..] == kids;
      while n < |kids|
        invariant n <= |kids|
        invariant FindMember(store, kids, name) == Shift(FindMember(store, kids[n..], name), n)
      {
        FindFrom(store, kids, n, name);
        assert kids[n] in kids;
        if store[kids[n]].name.Some? {
          var order := NameCompare(name, store[kids[n]].name.value);
          if order == 0 {
            return Some(n);
          }
        }
        n := n + 1;
      }
      FindNone(store, name);
      assert kids[n..] == [];
      return None;
    }

    /** `config_setting_get_member` */
    method GetMember(i: nat, name: string) returns (found: Option<nat>)
      requires Valid() && i < |store|
      ensures found == MemberOf(store, i, name)
    {
      if !IsKind(store[i], GroupKind) {
        return None;
      }
      assert KidsLinked(store, i);
      var n := ListSearch(Kids(store[i]), name);
      return if n.Some? then Some(Kids(store[i])[n.value]) else None;
    }

    /** `config_setting_get_elem` */
    method GetElem(i: nat, n: nat) returns (found: Option<nat>)
      requires Valid() && i < |store|
      ensures found == ElementOf(store, i, n)
    {
      if !store[i].payload.Aggregate? || n >= |Kids(store[i])| {
        return None;
      }
      return Some(Kids(store[i])[n]);
    }

    /** `config_setting_add`. Names are ignored outside groups. A group without members takes a member
        without a name, and is then no longer `Valid`; with other members the code would compare
        the missing name with theirs. */
    method Add(p: nat, name: Option<string>, t: Type) returns (r: Option<nat>)
      requires Valid() && p < |store|
      requires IsKind(store[p], GroupKind) && name.None? ==> Kids(store[p]) == []
      modifies this
      ensures (old(IsKind(store[p], GroupKind)) ==> name.Some?) ==> Valid()
      ensures Linked(store)
      ensures r.Some? <==>
        && old(store)[p].payload.Aggregate?
        && (IsKind(old(store)[p], GroupKind) && name.Some? ==>
              ValidName(name.value) && MemberOf(old(store), p, name.value).None?)
      ensures r.Some? ==> r.value == |old(store)|
      ensures r.Some? ==>
        store == Appended(old(store), p, if IsKind(old(store)[p], GroupKind) then name else None, InitialPayload(t))
      ensures r.None? ==> store == old(store)
      ensures old(Homogeneous(store)) && !IsKind(old(store)[p], ArrayKind) ==> Homogeneous(store)
    {
      var memberName := if IsKind(store[p], ArrayKind) || IsKind(store[p], ListKind) then None else name;
      if memberName.Some? && !ValidName(memberName.value) {
        return None;
      }
      if IsKind(store[p], GroupKind) && Kids(store[p]) != [] {
        var existing := GetMember(p, memberName.value);
        if existing.Some? {
          return None;
        }
      }
      if !store[p].payload.Aggregate? {
        return None;
      }
      AppendedLinked(store, p, memberName, InitialPayload(t));
      if !IsKind(store[p], GroupKind) || memberName.Some? {
        AppendedNamed(store, p, memberName, InitialPayload(t));
      }
      if Homogeneous(store) && !IsKind(store[p], ArrayKind) {
        AppendedElsewhere(store, p, memberName, InitialPayload(t));
      }
      r := Some(|store|);
      store := Appended(store, p, memberName, InitialPayload(t));
    }

    /** `__config_vector_checktype` */
    predicate AcceptsType(p: nat, v: Value)
      requires p < |store|
      reads this
    {
      var kids := Kids(store[p]);
      kids == [] || IsKind(store[p], ListKind) ||
      (kids[0] < |store| && store[kids[0]].payload.ScalarOf? && SameType(store[kids[0]].payload.v, v))
    }

    /** The `config_setting_set_*_elem` family with a negative index: append an element. */
    method AppendElem(p: nat, v: Value) returns (r: Option<nat>)
      requires Valid() && p < |store| && IsScalar(v)
      modifies this
      ensures Valid() && (old(Homogeneous(store)) ==> Homogeneous(store))
      ensures r.Some? <==> old((IsKind(store[p], ArrayKind) || IsKind(store[p], ListKind)) && AcceptsType(p, v))
      ensures r.Some? ==> r.value == |old(store)| && store == Appended(old(store), p, None, ScalarOf(v))
      ensures r.None? ==> store == old(store)
    {
      if !IsKind(store[p], ArrayKind) && !IsKind(store[p], ListKind) {
        return None;
      }
      if !AcceptsType(p, v) {
        return None;
      }
      AppendedNamed(store, p, None, ScalarOf(v));
      if Homogeneous(store) {
        AppendedHomogeneous(store, p, v);
      }
      r := Some(|store|);
      store := Appended(store, p, None, ScalarOf(v));
    }

    /** The `config_setting_set_*` family: a typeless setting takes the value as it is; a number keeps
        its own format; an int accepts a 64-bit value, as 0 when it does not fit; with automatic
        conversion, integers and floating point numbers accept each other; no type changes. */
    method SetScalar(i: nat, v: Value, auto: Option<Conversion>) returns (ok: bool)
      requires Valid() && i < |store| && IsScalar(v)
      modifies this
      ensures Valid()
      ensures
        var was := old(store)[i].payload;
        ok <==> (was == NoType || (was.ScalarOf? && (
          || TypeOf(was.v) == TypeOf(v) || (TypeOf(was.v) == IntType && TypeOf(v) == Int64Type)
          || (auto.Some? && was.v.Float? && (v.Integer? || v.Integer64?))
          || (auto.Some? && (was.v.Integer? || was.v.Integer64?) && v.Float?))))
      ensures ok ==>
        && |store| == |old(store)| && TakesValue(old(store)[i].payload, v, store[i].payload)
        && store[i] == old(store)[i].(payload := store[i].payload)
        && forall j | 0 <= j < |store| && j != i :: store[j] == old(store)[j]
      ensures ok ==>
        var setting := old(store)[i];
        store == old(store)[i := setting.(payload := ScalarOf(SetTo(setting.payload, v, auto)))]
      ensures !ok ==> store == old(store)
      ensures old(Homogeneous(store)) ==> Homogeneous(store)
    {
      if !Settable(store[i].payload, v, auto) {
        return false;
      }
      var v' := SetTo(store[i].payload, v, auto);
      RetypedValid(store, i, ScalarOf(v'));
      if Homogeneous(store) {
        if store[i].payload.ScalarOf? {
          RetypedHomogeneous(store, i, v');
        } else {
          TypedHomogeneous(store, i, ScalarOf(v'));
        }
      }
      store := store[i := store[i].(payload := ScalarOf(v'))];
      return true;
    }

    /** The `config_setting_set_*_elem` family: a negative index appends an element, any other sets
        an element that is there. */
    method SetElem(p: nat, idx: int, v: Value, auto: Option<Conversion>) returns (r: Option<nat>)
      requires Valid() && p < |store| && IsScalar(v)
      modifies this
      ensures Valid() && (old(Homogeneous(store)) ==> Homogeneous(store))
      ensures r.None? ==> store == old(store)
      ensures idx < 0 ==>
        && (r.Some? <==> old((IsKind(store[p], ArrayKind) || IsKind(store[p], ListKind)) && AcceptsType(p, v)))
        && (r.Some? ==> r.value == |old(store)| && store == Appended(old(store), p, None, ScalarOf(v)))
      ensures idx >= 0 ==>
        var e := ElementOf(old(store), p, idx);
        && (r.Some? <==>
              && (IsKind(old(store)[p], ArrayKind) || IsKind(old(store)[p], ListKind))
              && e.Some? && e.value < |old(store)| && Settable(old(store)[e.value].payload, v, auto))
        && (r.Some? ==>
              && r == e && r.value < |store| && TakesValue(old(store)[r.value].payload, v, store[r.value].payload)
              && var element := old(store)[r.value];
                 store == old(store)[r.value := element.(payload := ScalarOf(SetTo(element.payload, v, auto)))])
    {
      if !IsKind(store[p], ArrayKind) && !IsKind(store[p], ListKind) {
        return None;
      }
      if idx < 0 {
        r := AppendElem(p, v);
        return;
      }
      r := GetElem(p, idx);
      if r.None? {
        return None;
      }
      assert KidsLinked(store, p) && r.value in Kids(store[p]);
      var ok := SetScalar(r.value, v, auto);
      return if ok then r else None;
    }

    /** `config_setting_set_format`, for integers only */
    method SetFormat(i: nat, fmt: Format) returns (ok: bool)
      requires Valid() && i < |store|
      modifies this
      ensures Valid() && (old(Homogeneous(store)) ==> Homogeneous(store))
      ensures
        var payload := old(store)[i].payload;
        ok <==> payload.ScalarOf? && (payload.v.Integer? || payload.v.Integer64?)
      ensures !ok ==> store == old(store)
      ensures ok ==>
        var v := old(store)[i].payload.v;
        store == old(store)[i := old(store)[i].(payload :=
          ScalarOf(if v.Integer? then Integer(v.i, fmt) else Integer64(v.l, fmt)))]
    {
      if !(store[i].payload.ScalarOf? && (store[i].payload.v.Integer? || store[i].payload.v.Integer64?)) {
        return false;
      }
      var v' := Reformatted(store[i].payload.v, fmt);
      RetypedValid(store, i, ScalarOf(v'));
      if Homogeneous(store) {
        RetypedHomogeneous(store, i, v');
      }
      store := store[i := store[i].(payload := ScalarOf(v'))];
      return true;
    }

    /** The parser's direct assignment of an aggregate type to a typeless setting. */
    method SetAggregate(i: nat, kind: Kind)
      requires Valid() && i < |store| && store[i].payload == NoType
      modifies this
      ensures Valid()
      ensures store == old(store)[i := old(store)[i].(payload := Aggregate(kind, []))]
      ensures old(Homogeneous(store)) ==> Homogeneous(store)
    {
      RetypedValid(store, i, Aggregate(kind, []));
      if Homogeneous(store) {
        TypedHomogeneous(store, i, Aggregate(kind, []));
      }
      store := store[i := store[i].(payload := Aggregate(kind, []))];
    }

    /** `config_setting_remove_elem` */
    method RemoveElem(p: nat, n: nat) returns (ok: bool)
      requires Valid() && p < |store|
      modifies this
      ensures Valid() && (old(Homogeneous(store)) ==> Homogeneous(store))
      ensures ok <==> n < |Kids(old(store)[p])|
      ensures ok ==> store == old(store)[p := old(store)[p].(payload :=
        Aggregate(old(store)[p].payload.kind, Without(Kids(old(store)[p]), n)))]
      ensures !ok ==> store == old(store)
    {
      if !store[p].payload.Aggregate? || n >= |Kids(store[p])| {
        return false;
      }
      RemovedValid(store, p, n);
      if Homogeneous(store) {
        RemovedHomogeneous(store, p, n);
      }
      store := store[p := store[p].(payload := Aggregate(store[p].payload.kind, Without(Kids(store[p]), n)))];
      return true;
    }

    /** `config_setting_remove`: afterwards the group has no member of that name. */
    method Remove(p: nat, name: string) returns (ok: bool)
      requires Valid() && p < |store|
      modifies this
      ensures Valid() && (old(Homogeneous(store)) ==> Homogeneous(store))
      ensures ok <==> MemberOf(old(store), p, name).Some?
      ensures !ok ==> store == old(store)
      ensures |store| == |old(store)|
      ensures ok ==> MemberOf(store, p, name).None?
      ensures forall i | 0 <= i < |store| && i != p :: store[i] == old(store)[i]
      ensures forall k | k in Kids(store[p]) :: k in Kids(old(store)[p])
      ensures forall k | k in Kids(old(store)[p]) && k !in Kids(store[p]) ::
        ok && k < |store| && store[k].name.Some? && Head(store[k].name.value) == Head(name)
    {
      if !IsKind(store[p], GroupKind) {
        return false;
      }
      assert KidsLinked(store, p);
      var found := ListSearch(Kids(store[p]), name);
      if found.None? {
        return false;
      }
      FindMemberMeans(store, Kids(store[p]), name);
      RemovedMember(store, p, found.value, name);
      ok := RemoveElem(p, found.value);
    }

    /** `config_lookup_from` */
    method Lookup(from: nat, path: string) returns (r: Option<nat>)
      requires Valid() && from < |store|
      ensures r == LookupFrom(store, from, path)
    {
      var setting: nat, p := from, path;
      hide LookupFrom, KidsLinked, Named, ElementOf, MemberOf, IndexText, SkipSeparators, SkipStep;
      while true
        invariant setting < |store|
        invariant LookupFrom(store, setting, p) == LookupFrom(store, from, path)
        decreases |p|
      {
        LookupUnfold(store, setting, p);
        p := SkipSeparators(p);
        if p == [] {
          return Some(setting);
        }
        var found: Option<nat>;
        if p[0] == '[' {
          found := GetElem(setting, IndexText(p[1..]));
        } else {
          found := GetMember(setting, p);
        }
        var rest := if p[0] == '[' then p[1..] else p;
        if found.None? {
          return if rest == [] then Some(setting) else None;
        }
        setting, p := found.value, SkipStep(rest);
      }
      assert false;
    }
  }

  lemma LookupUnfold(st: Store, i: nat, path: string)
    requires Linked(st) && i < |st|
    ensures
      var p := SkipSeparators(path);
      if p == [] then LookupFrom(st, i, path) == Some(i)
      else
        var rest := if p[0] == '[' then p[1..] else p;
        match Step(st, i, p)
        case None => LookupFrom(st, i, path) == if rest == [] then Some(i) else None
        case Some(k) =>
          k < |st| && |SkipStep(rest)| < |p| <= |path| && LookupFrom(st, i, path) == LookupFrom(st, k, SkipStep(rest))
  {
    hide SkipSeparators, SkipStep, IndexText, FindMember;
    assert KidsLinked(st, i);
    var p := SkipSeparators(path);
    if p != [] && Step(st, i, p).Some? {
      assert Step(st, i, p).value in Kids(st[i]);
    }
  }

  /** What a setting holds after a value has been set: the value itself if it had no type or the
      value's own type, where a number keeps its format; a 64-bit number given to an int is
      stored if it fits, and 0 otherwise. */
  predicate TakesValue(was: Payload, v: Value, now: Payload)
  {
    && now.ScalarOf?
    && (was == NoType ==> now.v == v)
    && (was.ScalarOf? ==>
          match (was.v, v)
          case (Boolean(_), Boolean(b)) => now.v == Boolean(b)
          case (Str(_), Str(s)) => now.v == Str(s)
          case (Float(_), Float(text)) => now.v == Float(text)
          case (Integer(_, fmt), Integer(i, _)) => now.v == Integer(i, fmt)
          case (Integer64(_, fmt), Integer64(l, _)) => now.v == Integer64(l, fmt)
          case (Integer(_, fmt), Integer64(l, _)) =>
            now.v == Integer(if -0x8000_0000 <= l <= 0x7FFF_FFFF then l else 0, fmt)
          case _ => true)
  }

  /** The conversions of C between integers and floating point numbers; the latter are texts here. */
  datatype Conversion = Conversion(float: int -> string, int32: string -> int, int64: string -> int)

  predicate IsInteger(v: Value) { v.Integer? || v.Integer64? }

  /** Which scalars a `set` call accepts; `auto` is given when automatic conversion is on. */
  predicate Settable(payload: Payload, v: Value, auto: Option<Conversion>)
  {
    || payload == NoType
    || (payload.ScalarOf? && (
          || SameType(payload.v, v) || (payload.v.Integer? && v.Integer64?)
          || (auto.Some? && ((payload.v.Float? && IsInteger(v)) || (IsInteger(payload.v) && v.Float?)))))
  }

  /** The same number in another format. */
  function Reformatted(v: Value, fmt: Format): (r: Value)
    ensures SameType(v, r) && (IsScalar(v) <==> IsScalar(r))
  {
    match v
    case Integer(n, _) => Integer(n, fmt)
    case Integer64(l, _) => Integer64(l, fmt)
    case _ => v
  }

  function SetTo(payload: Payload, v: Value, auto: Option<Conversion>): (r: Value)
    requires IsScalar(v)
    ensures IsScalar(r)
    ensures (payload == NoType || payload.ScalarOf?) ==> TakesValue(payload, v, ScalarOf(r))
    ensures Settable(payload, v, auto) && payload.ScalarOf? ==> SameType(payload.v, r)
  {
    if !payload.ScalarOf? then v
    else
      match (payload.v, v)
      case (Integer(_, fmt), Integer(i, _)) => Integer(i, fmt)
      case (Integer(_, fmt), Integer64(l, _)) => Integer(if IsInt32(l) then l else 0, fmt)
      case (Integer64(_, fmt), Integer64(l, _)) => Integer64(l, fmt)
      case (Float(_), Integer(i, _)) => if auto.Some? then Float(auto.value.float(i)) else v
      case (Float(_), Integer64(l, _)) => if auto.Some? then Float(auto.value.float(l)) else v
      case (Integer(_, fmt), Float(text)) => if auto.Some? then Integer(auto.value.int32(text), fmt) else v
      case (Integer64(_, fmt), Float(text)) => if auto.Some? then Integer64(auto.value.int64(text), fmt) else v
      case _ => v
  }

  function Shift(r: Option<nat>, n: nat): Option<nat>
  {
    if r.Some? then Some(r.value + n) else None
  }

  lemma FindFrom(st: Store, kids: seq<nat>, n: nat, path: string)
    requires n < |kids|
    ensures FindMember(st, kids[n..], path) ==
      if kids[n] < |st| && st[kids[n]].name.Some? && Head(st[kids[n]].name.value) == Head(path) then Some(0)
      else Shift(FindMember(st, kids[n + 1..], path), 1)
  {
    assert kids[n..][0] == kids[n] && kids[n..][1..] == kids[n + 1..];
  }

  lemma FindNone(st: Store, path: string)
    ensures FindMember(st, [], path) == None
  {}

  lemma HeadEnds(s: string, i: nat)
    requires i <= |Head(s)|
    ensures i < |Head(s)| <==> i < |s| && !IsPathToken(s[i])
    ensures i < |Head(s)| ==> Head(s)[i] == s[i]
  {}

  lemma RemovedMember(st: Store, p: nat, n: nat, name: string)
    requires ConfigStore.Valid(st) && p < |st| && IsKind(st[p], GroupKind)
    requires FindMember(st, Kids(st[p]), name) == Some(n)
    ensures
      var st' := st[p := st[p].(payload := Aggregate(GroupKind, Without(Kids(st[p]), n)))];
      && MemberOf(st', p, name).None?
      && (forall k | k in Kids(st'[p]) :: k in Kids(st[p]))
      && (forall k | k in Kids(st[p]) && k !in Kids(st'[p]) :: k == Kids(st[p])[n])
  {
    var kids := Kids(st[p]);
    assert KidsLinked(st, p) && KidsNamed(st, p);
    var fewer := Without(kids, n);
    WithoutOne(kids, n);
    var st' := st[p := st[p].(payload := Aggregate(GroupKind, fewer))];
    FindMemberMeans(st, kids, name);
    assert kids[n] in kids;
    hide Head, ValidName, KidsLinked, Without, FindMember;
    HeadOfName(st[kids[n]].name.value);
    forall k | k in fewer ensures Head(st'[k].name.value) != Head(name) {
      HeadOfName(st[k].name.value);
    }
    FindMemberMeans(st', fewer, name);
    assert Kids(st'[p]) == fewer;
  }

  lemma WithoutOne(kids: seq<nat>, n: nat)
    requires n < |kids| && forall a, b | 0 <= a < b < |kids| :: kids[a] != kids[b]
    ensures forall k :: k in Without(kids, n) <==> k in kids && k != kids[n]
  {
    var fewer := Without(kids, n);
    assert forall a | 0 <= a < |kids| && a != n :: kids[a] == fewer[if a < n then a else a - 1];
    assert forall a | 0 <= a < |fewer| :: fewer[a] == kids[if a < n then a else a + 1] != kids[n];
  }

  /** An index finds the setting that stands at its position, a child of this one, and each child
      is found by one index only. Removing the element at position `n` moves the later ones
      up, and an element added at the end is found at the end. */
  lemma ElementsAreFound(st: Store, p: nat, n: nat, m: nat, payload: Payload)
    requires ConfigStore.Valid(st) && p < |st| && st[p].payload.Aggregate? && n < |Kids(st[p])| && m != n
    ensures
      var kids := Kids(st[p]);
      var removed := st[p := st[p].(payload := Aggregate(st[p].payload.kind, Without(kids, n)))];
      var added := Appended(st, p, None, payload);
      var k := ElementOf(st, p, n);
      && k.Some? && k.value < |st| && st[k.value].parent == Some(p)
      && ElementOf(st, p, m) != k
      && ElementOf(removed, p, if m < n then m else m - 1) == ElementOf(st, p, m)
      && (forall j :: ElementOf(removed, p, j) != k)
      && p < |added| && ElementOf(added, p, n) == k && ElementOf(added, p, |kids|) == Some(|st|)
  {
    assert KidsLinked(st, p);
    var kids := Kids(st[p]);
    assert kids[n] in kids;
    WithoutOne(kids, n);
    var fewer := Without(kids, n);
    assert forall j | 0 <= j < |fewer| :: fewer[j] in fewer;
  }
}
