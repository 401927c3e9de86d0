/** libconfig's linked settings. */
module ConfigStore {
  // A pointer to a setting is its index in the store; the root has index 0 and a new setting takes the
  // next free index. A setting that has been removed from its parent's list keeps its index but is no
  // longer linked.

  import opened CLibrary
  import opened ConfigTree
  import opened Options
  import opened Seqs

  datatype Kind = ArrayKind | ListKind | GroupKind

  datatype Payload =
    | NoType
    | ScalarOf(v: Value)
    | Aggregate(kind: Kind, kids: seq<nat>)

  datatype Setting = Setting(parent: Option<nat>, name: Option<string>, payload: Payload)

  type Store = seq<Setting>

  const Root: Setting := Setting(None, None, Aggregate(GroupKind, []))

  function Kids(s: Setting): seq<nat>
  {
    if s.payload.Aggregate? then s.payload.kids else []
  }

  predicate IsKind(s: Setting, kind: Kind) { s.payload.Aggregate? && s.payload.kind == kind }

  /** The list of children and the parent pointers agree; children come later. */
  ghost predicate Linked(st: Store)
  {
    && st != [] && st[0].parent == None && IsKind(st[0], GroupKind)
    && (forall i | 0 <= i < |st| :: KidsLinked(st, i))
  }

  ghost predicate KidsLinked(st: Store, i: nat)
    requires i < |st|
  {
    && (forall k | k in Kids(st[i]) :: i < k < |st| && st[k].parent == Some(i))
    && (forall a, b | 0 <= a < b < |Kids(st[i])| :: Kids(st[i])[a] != Kids(st[i])[b])
    && (st[i].payload.ScalarOf? ==> IsScalar(st[i].payload.v))
  }

  /** Members of groups have valid and pairwise distinct names; elements have none. */
  ghost predicate Named(st: Store)
  {
    forall i | 0 <= i < |st| :: KidsNamed(st, i)
  }

  ghost predicate KidsNamed(st: Store, i: nat)
    requires i < |st|
  {
    forall k | k in Kids(st[i]) && k < |st| ::
      if IsKind(st[i], GroupKind) then
        && st[k].name.Some? && ValidName(st[k].name.value)
        && (forall l | l in Kids(st[i]) && l < |st| && l != k :: st[l].name != st[k].name)
      else st[k].name == None
  }

  /** The elements of an array are scalars of one type. */
  ghost predicate Homogeneous(st: Store)
  {
    forall i | 0 <= i < |st| && IsKind(st[i], ArrayKind) :: KidsAlike(st, i)
  }

  ghost predicate KidsAlike(st: Store, i: nat)
    requires i < |st|
  {
    forall k, l | k in Kids(st[i]) && l in Kids(st[i]) && k < |st| && l < |st| ::
      st[k].payload.ScalarOf? && st[l].payload.ScalarOf? && SameType(st[k].payload.v, st[l].payload.v)
  }

  ghost predicate Valid(st: Store) { Linked(st) && Named(st) }

  // ----- the tree a setting stands for -----

  ghost function Abs(st: Store, i: nat): Value
    requires Linked(st) && i < |st|
    decreases |st| - i, 2, 0
  {
    assert KidsLinked(st, i);
    match st[i].payload
    case NoType => Untyped
    case ScalarOf(v) => v
    case Aggregate(ArrayKind, kids) => Array(AbsAll(st, i, kids))
    case Aggregate(ListKind, kids) => List(AbsAll(st, i, kids))
    case Aggregate(GroupKind, kids) => Group(AbsMembers(st, i, kids))
  }

  ghost function AbsAll(st: Store, i: nat, kids: seq<nat>): (r: seq<Value>)
    requires Linked(st) && i < |st| && forall k | k in kids :: i < k < |st|
    ensures |r| == |kids|
    decreases |st| - i, 1, |kids|
  {
    if kids == [] then []
    else
      var n := |kids| - 1;
      assert kids[n] in kids && forall k | k in kids[..n] :: k in kids;
      AbsAll(st, i, kids[..n]) + [Abs(st, kids[n])]
  }

  function NameOf(s: Setting): string { if s.name.Some? then s.name.value else "" }

  ghost function AbsMembers(st: Store, i: nat, kids: seq<nat>): (r: seq<Member>)
    requires Linked(st) && i < |st| && forall k | k in kids :: i < k < |st|
    ensures |r| == |kids|
    decreases |st| - i, 1, |kids|
  {
    if kids == [] then []
    else
      var n := |kids| - 1;
      assert kids[n] in kids && forall k | k in kids[..n] :: k in kids;
      AbsMembers(st, i, kids[..n]) + [Member(NameOf(st[kids[n]]), Abs(st, kids[n]))]
  }

  ghost predicate SameFrom(a: Store, b: Store, lo: nat)
  {
    |a| <= |b| && forall j | lo <= j < |a| :: a[j] == b[j]
  }

  /** A tree depends only on the settings from its root upwards. */
  lemma {:induction false} AbsFrame(a: Store, b: Store, i: nat)
    requires Linked(a) && Linked(b) && i < |a| && SameFrom(a, b, i)
    ensures Abs(a, i) == Abs(b, i)
    decreases |a| - i, 2, 0
  {
    assert KidsLinked(a, i);
    var kids := Kids(a[i]);
    AbsAllFrame(a, b, i, kids);
    AbsMembersFrame(a, b, i, kids);
  }

  lemma {:induction false} AbsAllFrame(a: Store, b: Store, i: nat, kids: seq<nat>)
    requires Linked(a) && Linked(b) && i < |a| && SameFrom(a, b, i + 1)
    requires forall k | k in kids :: i < k < |a|
    ensures AbsAll(a, i, kids) == AbsAll(b, i, kids)
    decreases |a| - i, 1, |kids|
  {
    if kids != [] {
      var n := |kids| - 1;
      assert kids[n] in kids && forall k | k in kids[..n] :: k in kids;
      AbsAllFrame(a, b, i, kids[..n]);
      AbsFrame(a, b, kids[n]);
    }
  }

  lemma {:induction false} AbsMembersFrame(a: Store, b: Store, i: nat, kids: seq<nat>)
    requires Linked(a) && Linked(b) && i < |a| && SameFrom(a, b, i + 1)
    requires forall k | k in kids :: i < k < |a|
    ensures AbsMembers(a, i, kids) == AbsMembers(b, i, kids)
    decreases |a| - i, 1, |kids|
  {
    if kids != [] {
      var n := |kids| - 1;
      assert kids[n] in kids && forall k | k in kids[..n] :: k in kids;
      AbsMembersFrame(a, b, i, kids[..n]);
      AbsFrame(a, b, kids[n]);
    }
  }

  // ----- names -----

  const PATH_TOKENS: string := ":./"

  predicate IsPathToken(c: char) { c in PATH_TOKENS }

  /** The part of a path up to the next separator. */
  function Head(path: string): (s: string)
    ensures |s| <= |path|
    ensures forall c | c in s :: !IsPathToken(c)
  {
    path[..Span((c: char) => !IsPathToken(c), path)]
  }

  lemma HeadOfName(name: string)
    requires ValidName(name)
    ensures Head(name) == name
  {
    var plain := (c: char) => !IsPathToken(c);
    assert forall c | c in name :: plain(c);
    SpanIs(plain, name, []);
    assert name + [] == name;
  }

  /** The first member whose name is the head of `path`. */
  function FindMember(st: Store, kids: seq<nat>, path: string): (r: Option<nat>)
    ensures r.Some? ==> r.value < |kids| && kids[r.value] < |st|
  {
    if kids == [] then None
    else if kids[0] < |st| && st[kids[0]].name.Some? && Head(st[kids[0]].name.value) == Head(path) then Some(0)
    else
      match FindMember(st, kids[1..], path)
      case Some(j) => Some(j + 1)
      case None => None
  }

  lemma {:induction false} FindMemberMeans(st: Store, kids: seq<nat>, path: string)
    ensures
      match FindMember(st, kids, path)
      case Some(n) => st[kids[n]].name.Some? && Head(st[kids[n]].name.value) == Head(path)
      case None => forall k | k in kids && k < |st| && st[k].name.Some? :: Head(st[k].name.value) != Head(path)
  {
    if kids != [] {
      FindMemberMeans(st, kids[1..], path);
    }
  }

  // ----- the updates -----

  /** The store after a child with index `|st|` is appended to the children of `p`. */
  function Appended(st: Store, p: nat, name: Option<string>, payload: Payload): Store
    requires p < |st| && st[p].payload.Aggregate?
  {
    st[p := st[p].(payload := Aggregate(st[p].payload.kind, Kids(st[p]) + [|st|]))] + [Setting(Some(p), name, payload)]
  }

  ghost predicate FreshPayload(payload: Payload)
  {
    match payload
    case NoType => true
    case ScalarOf(v) => IsScalar(v)
    case Aggregate(_, kids) => kids == []
  }

  lemma AppendedLinked(st: Store, p: nat, name: Option<string>, payload: Payload)
    requires Linked(st) && p < |st| && st[p].payload.Aggregate? && FreshPayload(payload)
    ensures Linked(Appended(st, p, name, payload))
  {
    var st' := Appended(st, p, name, payload);
    forall i | 0 <= i < |st'| ensures KidsLinked(st', i) {
      if i < |st| {
        assert KidsLinked(st, i);
        if i == p {
          var n := |Kids(st[p])|;
          forall a, b | 0 <= a < b < |Kids(st'[p])| ensures Kids(st'[p])[a] != Kids(st'[p])[b] {
            assert Kids(st[p])[a] in Kids(st[p]);
          }
        }
      }
    }
  }

  /** When the search finds nothing, no member has the name. */
  lemma NameIsNew(st: Store, kids: seq<nat>, name: string)
    requires ValidName(name) && FindMember(st, kids, name).None?
    requires forall k | k in kids :: k < |st| && st[k].name.Some? && ValidName(st[k].name.value)
    ensures forall k | k in kids :: st[k].name != Some(name)
  {
    FindMemberMeans(st, kids, name);
    hide ValidName, FindMember;
    HeadOfName(name);
    forall k | k in kids ensures st[k].name != Some(name) {
      HeadOfName(st[k].name.value);
    }
  }

  /** The names of the members of `p`, with the new one. */
  lemma AppendedMember(st: Store, p: nat, name: string, payload: Payload)
    requires Valid(st) && p < |st| && IsKind(st[p], GroupKind) && ValidName(name)
    requires FindMember(st, Kids(st[p]), name).None?
    ensures KidsNamed(Appended(st, p, Some(name), payload), p)
  {
    hide ValidName, FindMember;
    assert KidsNamed(st, p) && KidsLinked(st, p);
    NameIsNew(st, Kids(st[p]), name);
    var st' := Appended(st, p, Some(name), payload);
    assert forall k | k in Kids(st[p]) :: k < |st| && st'[k].name == st[k].name;
  }

  /** The names of the members of any other setting. */
  lemma AppendedOthers(st: Store, p: nat, name: Option<string>, payload: Payload, i: nat)
    requires Valid(st) && p < |st| && st[p].payload.Aggregate? && i <= |st| && FreshPayload(payload)
    requires i == p ==> !IsKind(st[p], GroupKind) && name == None
    ensures KidsNamed(Appended(st, p, name, payload), i)
  {
    hide ValidName;
    var st' := Appended(st, p, name, payload);
    if i < |st| {
      assert KidsNamed(st, i) && KidsLinked(st, i);
      assert forall k | k in Kids(st[i]) :: k < |st| && st'[k].name == st[k].name;
    }
  }

  lemma AppendedNamed(st: Store, p: nat, name: Option<string>, payload: Payload)
    requires Valid(st) && p < |st| && st[p].payload.Aggregate? && FreshPayload(payload)
    requires IsKind(st[p], GroupKind) ==>
      name.Some? && ValidName(name.value) && FindMember(st, Kids(st[p]), name.value).None?
    requires !IsKind(st[p], GroupKind) ==> name == None
    ensures Valid(Appended(st, p, name, payload))
  {
    hide KidsNamed, ValidName, FindMember, Linked;
    AppendedLinked(st, p, name, payload) by {
      ValidIsLinked(st);
    }
    var st' := Appended(st, p, name, payload);
    forall i | 0 <= i < |st'| ensures KidsNamed(st', i) {
      if i == p && IsKind(st[p], GroupKind) {
        AppendedMember(st, p, name.value, payload);
      } else {
        AppendedOthers(st, p, name, payload, i);
      }
    }
  }

  lemma ValidIsLinked(st: Store)
    requires Valid(st)
    ensures Linked(st)
  {}

  /** Changing what a scalar or typeless setting holds keeps the links and the names. */
  lemma RetypedValid(st: Store, i: nat, payload: Payload)
    requires Valid(st) && i < |st| && Kids(st[i]) == [] && i != 0 && FreshPayload(payload)
    ensures Valid(st[i := st[i].(payload := payload)])
  {
    var st' := st[i := st[i].(payload := payload)];
    forall j | 0 <= j < |st'| ensures KidsLinked(st', j) && KidsNamed(st', j) {
      assert KidsLinked(st, j) && KidsNamed(st, j);
    }
  }

  lemma RemovedValid(st: Store, p: nat, n: nat)
    requires Valid(st) && p < |st| && st[p].payload.Aggregate? && n < |Kids(st[p])|
    ensures Valid(st[p := st[p].(payload := Aggregate(st[p].payload.kind, Without(Kids(st[p]), n)))])
  {
    var kids := Kids(st[p]);
    var fewer := Without(kids, n);
    var st' := st[p := st[p].(payload := Aggregate(st[p].payload.kind, fewer))];
    forall j | 0 <= j < |st'| ensures KidsLinked(st', j) && KidsNamed(st', j) {
      assert KidsLinked(st, j) && KidsNamed(st, j);
      if j == p {
        FewerKids(kids, n);
      }
    }
  }

  lemma FewerKids(kids: seq<nat>, n: nat)
    requires n < |kids| && forall a, b | 0 <= a < b < |kids| :: kids[a] != kids[b]
    ensures forall k | k in Without(kids, n) :: k in kids
    ensures forall a, b | 0 <= a < b < |Without(kids, n)| :: Without(kids, n)[a] != Without(kids, n)[b]
  {
    var fewer := Without(kids, n);
    assert forall a | 0 <= a < |fewer| :: fewer[a] == kids[if a < n then a else a + 1];
  }

  // ----- homogeneous arrays -----

  lemma AppendedHomogeneous(st: Store, p: nat, v: Value)
    requires Valid(st) && Homogeneous(st) && p < |st| && IsScalar(v)
    requires st[p].payload.Aggregate?
    requires IsKind(st[p], ArrayKind) && Kids(st[p]) != [] ==>
      Kids(st[p])[0] < |st| && st[Kids(st[p])[0]].payload.ScalarOf? && SameType(st[Kids(st[p])[0]].payload.v, v)
    ensures Homogeneous(Appended(st, p, None, ScalarOf(v)))
  {
    hide SameType;
    var st' := Appended(st, p, None, ScalarOf(v));
    forall i | 0 <= i < |st'| && IsKind(st'[i], ArrayKind) ensures KidsAlike(st', i) {
      if i < |st| {
        assert KidsAlike(st, i) && KidsLinked(st, i);
        if i == p {
          forall k | k in Kids(st'[p])
            ensures st'[k].payload.ScalarOf? && TypeOf(st'[k].payload.v) == TypeOf(v)
          {
            SameTypeMeans(st, p, k, v);
          }
          AllOfType(st', p, TypeOf(v));
        }
      }
    }
  }

  lemma SameTypeMeans(st: Store, p: nat, k: nat, v: Value)
    requires p < |st| && IsKind(st[p], ArrayKind) && KidsLinked(st, p) && KidsAlike(st, p)
    requires Kids(st[p]) != [] ==>
      Kids(st[p])[0] < |st| && st[Kids(st[p])[0]].payload.ScalarOf? && SameType(st[Kids(st[p])[0]].payload.v, v)
    ensures k in Kids(st[p]) ==> st[k].payload.ScalarOf? && TypeOf(st[k].payload.v) == TypeOf(v)
  {
    if k in Kids(st[p]) {
      assert Kids(st[p])[0] in Kids(st[p]);
    }
  }

  lemma AllOfType(st: Store, p: nat, t: Type)
    requires p < |st|
    requires forall k | k in Kids(st[p]) && k < |st| :: st[k].payload.ScalarOf? && TypeOf(st[k].payload.v) == t
    ensures KidsAlike(st, p)
  {}

  lemma RemovedHomogeneous(st: Store, p: nat, n: nat)
    requires Valid(st) && Homogeneous(st) && p < |st| && st[p].payload.Aggregate? && n < |Kids(st[p])|
    ensures Homogeneous(st[p := st[p].(payload := Aggregate(st[p].payload.kind, Without(Kids(st[p]), n)))])
  {
    var kids := Kids(st[p]);
    var fewer := Without(kids, n);
    var st' := st[p := st[p].(payload := Aggregate(st[p].payload.kind, fewer))];
    assert forall a | 0 <= a < |fewer| :: fewer[a] == kids[if a < n then a else a + 1] && fewer[a] in kids;
    forall i | 0 <= i < |st'| && IsKind(st'[i], ArrayKind) ensures KidsAlike(st', i) {
      assert KidsAlike(st, i) && KidsLinked(st, i);
    }
  }

  /** Setting an element keeps its type. */
  lemma RetypedHomogeneous(st: Store, i: nat, v: Value)
    requires Valid(st) && Homogeneous(st) && i < |st| && st[i].payload.ScalarOf? && SameType(st[i].payload.v, v)
    ensures Homogeneous(st[i := st[i].(payload := ScalarOf(v))])
  {
    var st' := st[i := st[i].(payload := ScalarOf(v))];
    forall j | 0 <= j < |st'| && IsKind(st'[j], ArrayKind) ensures KidsAlike(st', j) {
      assert KidsAlike(st, j) && KidsLinked(st, j);
      assert forall a | 0 <= a < |Kids(st[j])| :: Kids(st[j])[a] in Kids(st[j]);
    }
  }

  lemma AppendedElsewhere(st: Store, p: nat, name: Option<string>, payload: Payload)
    requires Valid(st) && Homogeneous(st) && p < |st| && FreshPayload(payload)
    requires st[p].payload.Aggregate? && !IsKind(st[p], ArrayKind)
    ensures Homogeneous(Appended(st, p, name, payload))
  {
    var st' := Appended(st, p, name, payload);
    forall i | 0 <= i < |st'| && IsKind(st'[i], ArrayKind) ensures KidsAlike(st', i) {
      if i < |st| {
        assert KidsAlike(st, i) && KidsLinked(st, i);
      }
    }
  }

  /** Giving a type to a typeless setting: it is no element of an array. */
  lemma TypedHomogeneous(st: Store, i: nat, payload: Payload)
    requires Valid(st) && Homogeneous(st) && i < |st| && st[i].payload == NoType && FreshPayload(payload)
    ensures Homogeneous(st[i := st[i].(payload := payload)])
  {
    var st' := st[i := st[i].(payload := payload)];
    forall j | 0 <= j < |st'| && IsKind(st'[j], ArrayKind) ensures KidsAlike(st', j) {
      if j != i {
        assert KidsAlike(st, j) && KidsLinked(st, j);
      }
    }
  }
}
