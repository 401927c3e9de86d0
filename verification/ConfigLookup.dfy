/** Paths to settings. */
module ConfigLookup {
  // Every linked setting is found again by the path that names it.

  import opened CLibrary
  import opened ConfigTree
  import opened ConfigScanner
  import opened ConfigSpelling
  import opened ConfigTokens
  import opened ConfigStore
  import opened Options
  import opened LibConfig

  /** The setting can be reached from the root through lists of children. */
  ghost predicate Attached(st: Store, i: nat)
    requires i < |st|
    decreases i
  {
    i == 0 || (
      && st[i].parent.Some? && st[i].parent.value < i
      && i in Kids(st[st[i].parent.value]) && Attached(st, st[i].parent.value))
  }

  function IndexIn(kids: seq<nat>, k: nat): (n: nat)
    requires k in kids
    ensures n < |kids| && kids[n] == k
  {
    if kids[0] == k then 0 else 1 + IndexIn(kids[1..], k)
  }

  /** A member is named; an element is given by its position. */
  ghost function StepText(st: Store, i: nat): string
    requires i < |st| && i != 0 && Attached(st, i)
  {
    var p := st[i].parent.value;
    if IsKind(st[p], GroupKind) then NameOf(st[i]) else "[" + Decimal(IndexIn(Kids(st[p]), i)) + "]"
  }

  /** One or more of the three separators. */
  predicate IsSeparator(s: string)
  {
    s != "" && forall c | c in s :: c == ':' || c == '.' || c == '/'
  }

  /** The path from the root, with the separator `sep(p)` behind the setting `p`. */
  ghost function PathBy(st: Store, i: nat, sep: nat -> string): string
    requires i < |st| && Attached(st, i)
    decreases i
  {
    if i == 0 then ""
    else
      var p := st[i].parent.value;
      (if p == 0 then "" else PathBy(st, p, sep) + sep(p)) + StepText(st, i)
  }

  function Dots(): nat -> string { (p: nat) => "." }

  /** The dotted path from the root. */
  ghost function PathTo(st: Store, i: nat): string
    requires i < |st| && Attached(st, i)
  {
    PathBy(st, i, Dots())
  }

  predicate EndsStep(t: string) { t == [] || IsPathToken(t[0]) }

  lemma HeadIs(step: string, t: string)
    requires step != [] && (forall c | c in step :: !IsPathToken(c)) && EndsStep(t)
    ensures Head(step + t) == step && SkipStep(step + t) == t && SkipSeparators(step + t) == step + t
  {
    SpanIs((c: char) => !IsPathToken(c), step, t);
    assert (step + t)[0] == step[0] && step[0] in step;
    assert (step + t)[|step|..] == t;
  }

  lemma MemberStep(st: Store, p: nat, i: nat, t: string)
    requires Valid(st) && p < |st| && i < |st| && i in Kids(st[p]) && IsKind(st[p], GroupKind) && EndsStep(t)
    ensures LookupFrom(st, p, NameOf(st[i]) + t) == LookupFrom(st, i, t)
  {
    assert KidsNamed(st, p) && KidsLinked(st, p);
    var name := NameOf(st[i]);
    HeadIs(name, t);
    assert (name + t)[0] == name[0];
    HeadOfName(name);
    hide Head, SkipStep, SkipSeparators, ValidName, FindMember;
    FindMemberMeans(st, Kids(st[p]), name + t);
    var found := FindMember(st, Kids(st[p]), name + t);
    if found.Some? {
      HeadOfName(st[Kids(st[p])[found.value]].name.value);
    }
    LookupUnfold(st, p, name + t);
  }

  lemma NoSpace(s: string)
    requires s != [] && !IsSpace(s[0])
    ensures IndexText(s) == Unsigned32(Atoi(s))
  {
    hide Atoi;
    assert Span((c: char) => IsSpace(c), s) == 0;
    assert s[0..] == s;
  }

  lemma DigitsOnly(n: nat)
    ensures Decimal(n) == ToBase(n, 10, true) && AllDigits(Decimal(n), 10)
    ensures IsDigit(Decimal(n)[0]) && FromBase(Decimal(n), 10) == n
  {
    ToBaseRoundTrip(n, 10, true);
    assert ToBase(n, 10, true)[0] in ToBase(n, 10, true);
  }

  lemma IndexOfText(n: nat, t: string)
    requires n < 0x1_0000_0000
    ensures IndexText(Decimal(n) + ("]" + t)) == n
  {
    DigitsOnly(n);
    hide ToBase, FromBase, SignedValue, Decimal, AllDigits, IndexText;
    var ds := Decimal(n);
    SignedText(false, ds, "]" + t);
    assert "" + ds + ("]" + t) == ds + ("]" + t);
    NoSpace(ds + ("]" + t));
  }

  lemma NoSeparators(ds: string)
    requires AllDigits(ds, 10)
    ensures forall c | c in ds + "]" :: !IsPathToken(c)
    ensures forall c | c in "[" + ds + "]" :: !IsPathToken(c)
  {}

  lemma ElementText(n: nat, t: string)
    requires EndsStep(t)
    ensures
      var path := "[" + Decimal(n) + "]" + t;
      && path[0] == '[' && path[1..] == Decimal(n) + ("]" + t)
      && SkipSeparators(path) == path && SkipStep(path[1..]) == t
  {
    DigitsOnly(n);
    hide ToBase, FromBase, Decimal, Head, SkipSeparators, SkipStep, EndsStep;
    var ds := Decimal(n);
    NoSeparators(ds);
    hide AllDigits, IsPathToken;
    HeadIs("[" + ds + "]", t);
    HeadIs(ds + "]", t);
    assert (ds + "]") + t == ds + ("]" + t);
    assert ("[" + ds + "]" + t)[1..] == ds + ("]" + t);
  }

  lemma ElementStep(st: Store, p: nat, n: nat, t: string)
    requires Valid(st) && p < |st| && n < |Kids(st[p])| <= 0x1_0000_0000 && EndsStep(t)
    ensures Kids(st[p])[n] < |st|
    ensures LookupFrom(st, p, "[" + Decimal(n) + "]" + t) == LookupFrom(st, Kids(st[p])[n], t)
  {
    hide SkipStep, SkipSeparators, IndexText, Decimal, MemberOf, LookupFrom, Named, EndsStep;
    assert KidsLinked(st, p);
    ElementText(n, t);
    IndexOfText(n, t);
    LookupUnfold(st, p, "[" + Decimal(n) + "]" + t);
  }

  lemma LinkedKids(st: Store, p: nat)
    requires Valid(st) && p < |st|
    ensures Linked(st) && forall k | k in Kids(st[p]) :: k < |st|
  {
    assert KidsLinked(st, p);
  }

  /** A list length is an unsigned 32-bit number. */
  ghost predicate ShortLists(st: Store)
  {
    forall i | 0 <= i < |st| :: |Kids(st[i])| <= 0x1_0000_0000
  }

  lemma OneStep(st: Store, i: nat, t: string)
    requires Valid(st) && ShortLists(st) && i < |st| && i != 0 && Attached(st, i) && EndsStep(t)
    ensures LookupFrom(st, st[i].parent.value, StepText(st, i) + t) == LookupFrom(st, i, t)
  {
    var p := st[i].parent.value;
    hide LookupFrom, Decimal, Valid, KidsLinked, EndsStep, Attached;
    LinkedKids(st, p);
    if IsKind(st[p], GroupKind) {
      MemberStep(st, p, i, t);
    } else {
      ElementStep(st, p, IndexIn(Kids(st[p]), i), t);
    }
  }

  lemma {:induction false} SeparatorsSkipped(sep: string, t: string)
    requires forall c | c in sep :: c == ':' || c == '.' || c == '/'
    ensures SkipSeparators(sep + t) == SkipSeparators(t)
  {
    if sep == "" {
      assert sep + t == t;
    } else {
      assert sep[0] in sep && forall c | c in sep[1..] :: c in sep;
      SeparatorsSkipped(sep[1..], t);
      assert (sep + t)[1..] == sep[1..] + t && (sep + t)[0] == sep[0];
      OneSeparator(sep[0], sep[1..] + t);
      assert [sep[0]] + (sep[1..] + t) == sep + t;
    }
  }

  lemma OneSeparator(c: char, t: string)
    requires c == ':' || c == '.' || c == '/'
    ensures SkipSeparators([c] + t) == SkipSeparators(t)
  {
    assert ([c] + t)[1..] == t;
  }

  lemma SkipThem(st: Store, i: nat, sep: string, t: string)
    requires Linked(st) && i < |st| && forall c | c in sep :: c == ':' || c == '.' || c == '/'
    ensures LookupFrom(st, i, sep + t) == LookupFrom(st, i, t)
  {
    hide SkipSeparators, LookupFrom;
    SeparatorsSkipped(sep, t);
    LookupUnfold(st, i, sep + t);
    LookupUnfold(st, i, t);
  }

  lemma PathByUnfold(st: Store, i: nat, sep: nat -> string)
    requires i < |st| && i != 0 && Attached(st, i)
    ensures st[i].parent.Some?
    ensures
      var p := st[i].parent.value;
      && p < i && Attached(st, p)
      && PathBy(st, i, sep) == (if p == 0 then "" else PathBy(st, p, sep) + sep(p)) + StepText(st, i)
  {
    hide StepText;
  }

  lemma SeparatorEnds(sep: string, t: string)
    requires IsSeparator(sep)
    ensures EndsStep(sep + t)
  {
    assert sep[0] in sep && (sep + t)[0] == sep[0];
  }

  lemma RootPath(st: Store, sep: nat -> string)
    requires st != []
    ensures Attached(st, 0) && PathBy(st, 0, sep) == ""
  {}

  lemma {:induction false} PrefixBy(st: Store, i: nat, sep: nat -> string, t: string)
    requires Valid(st) && ShortLists(st) && i < |st| && Attached(st, i) && EndsStep(t)
    requires forall p :: IsSeparator(sep(p))
    ensures LookupFrom(st, 0, PathBy(st, i, sep) + t) == LookupFrom(st, i, t)
    decreases i
  {
    hide LookupFrom, EndsStep, Attached, StepText, Linked, Named, PathBy, ShortLists, IsSeparator;
    if i == 0 {
      RootPath(st, sep);
      assert "" + t == t;
    } else {
      PathByUnfold(st, i, sep);
      OneStep(st, i, t);
      var p, step := st[i].parent.value, StepText(st, i);
      if p == 0 {
        assert "" + step + t == step + t;
      } else {
        SeparatorEnds(sep(p), step + t);
        PrefixBy(st, p, sep, sep(p) + (step + t));
        SeparatorChars(sep(p));
        SkipThem(st, p, sep(p), step + t);
        assert PathBy(st, p, sep) + sep(p) + step + t == PathBy(st, p, sep) + (sep(p) + (step + t));
      }
    }
  }

  lemma SeparatorChars(s: string)
    requires IsSeparator(s)
    ensures forall c | c in s :: c == ':' || c == '.' || c == '/'
  {}

  lemma DotsAreSeparators()
    ensures forall p :: IsSeparator(Dots()(p))
    ensures IsSeparator(".")
  {}

  /** `config_lookup` of the path to a setting returns that setting. */
  lemma LookupFinds(st: Store, i: nat)
    requires Valid(st) && ShortLists(st) && i < |st| && Attached(st, i)
    ensures LookupFrom(st, 0, PathTo(st, i)) == Some(i)
  {
    hide PathBy, Attached, IsSeparator, Dots;
    DotsAreSeparators();
    PrefixBy(st, i, Dots(), []);
    assert PathTo(st, i) + [] == PathTo(st, i);
    NothingLeft(st, i);
  }

  lemma NothingLeft(st: Store, i: nat)
    requires Linked(st) && i < |st|
    ensures LookupFrom(st, i, []) == Some(i)
  {}

  /** Any mixture of separators between the steps, before them and behind them leads to the same
      setting. */
  lemma LookupFindsBy(st: Store, i: nat, before: string, sep: nat -> string, behind: string)
    requires Valid(st) && ShortLists(st) && i < |st| && Attached(st, i)
    requires (before == "" || IsSeparator(before)) && (behind == "" || IsSeparator(behind))
    requires forall p :: IsSeparator(sep(p))
    ensures LookupFrom(st, 0, before + (PathBy(st, i, sep) + behind)) == Some(i)
  {
    hide LookupFrom, PathBy, Attached, ShortLists;
    LinkedKids(st, i);
    SkipThem(st, 0, before, PathBy(st, i, sep) + behind);
    assert behind + "" == behind;
    if behind != "" {
      SeparatorEnds(behind, "");
    }
    PrefixBy(st, i, sep, behind);
    SkipThem(st, i, behind, "");
    NothingLeft(st, i);
  }

  /** Distinct settings have distinct paths. */
  lemma PathsDiffer(st: Store, i: nat, j: nat)
    requires Valid(st) && ShortLists(st) && i < |st| && j < |st| && Attached(st, i) && Attached(st, j)
    ensures PathTo(st, i) == PathTo(st, j) <==> i == j
  {
    hide LookupFrom, PathTo;
    LookupFinds(st, i);
    LookupFinds(st, j);
  }

  lemma EmptyIndex()
    ensures IndexText("") == 0
  {}

  /** A path that ends with an opening bracket asks for the first element; where there is none, it
      finds the setting before the bracket. */
  lemma TrailingBracket(st: Store, i: nat)
    requires Valid(st) && ShortLists(st) && i < |st| && Attached(st, i)
    ensures
      LookupFrom(st, 0, PathTo(st, i) + ".[") ==
      if Kids(st[i]) == [] then Some(i) else Some(Kids(st[i])[0])
  {
    hide LookupFrom, PathBy, Attached, ShortLists, Valid, IndexText, IsSeparator, Dots;
    DotsAreSeparators();
    SeparatorEnds(".", "[");
    assert "." + "[" == ".[";
    PrefixBy(st, i, Dots(), ".[");
    LinkedKids(st, i);
    SeparatorChars(".");
    SkipThem(st, i, ".", "[");
    BracketOnly(st, i);
  }

  lemma BracketOnly(st: Store, i: nat)
    requires Linked(st) && i < |st| && forall k | k in Kids(st[i]) :: k < |st|
    ensures LookupFrom(st, i, "[") == if Kids(st[i]) == [] then Some(i) else Some(Kids(st[i])[0])
  {
    hide LookupFrom, IndexText, Linked;
    EmptyIndex();
    assert "["[1..] == "";
    assert SkipSeparators("[") == "[" && SkipStep("") == "";
    LookupUnfold(st, i, "[");
    if Kids(st[i]) != [] {
      assert Kids(st[i])[0] in Kids(st[i]);
      LookupUnfold(st, Kids(st[i])[0], "");
      assert SkipSeparators("") == "";
    }
  }

  // ----- any last step -----

  lemma WholeStep(step: string)
    requires step != [] && forall c | c in step :: !IsPathToken(c)
    ensures Head(step) == step && SkipStep(step) == "" && SkipSeparators(step) == step
  {
    HeadIs(step, "");
    assert step + "" == step;
  }

  lemma LastStep(st: Store, i: nat, step: string)
    requires Valid(st) && ShortLists(st) && i < |st| && Attached(st, i)
    ensures LookupFrom(st, 0, PathTo(st, i) + ("." + step)) == LookupFrom(st, i, step)
  {
    hide LookupFrom, PathBy, Attached, ShortLists, Valid, IsSeparator, Dots;
    DotsAreSeparators();
    SeparatorEnds(".", step);
    PrefixBy(st, i, Dots(), "." + step);
    LinkedKids(st, i);
    SeparatorChars(".");
    SkipThem(st, i, ".", step);
  }

  /** A name behind the path to a group finds the member with that name, if there is one. */
  lemma AnyMember(st: Store, i: nat, name: string)
    requires Valid(st) && ShortLists(st) && i < |st| && Attached(st, i)
    requires name != [] && name[0] != '[' && forall c | c in name :: !IsPathToken(c)
    ensures
      var r := LookupFrom(st, 0, PathTo(st, i) + ("." + name));
      if r.Some? then
        IsKind(st[i], GroupKind) && r.value in Kids(st[i]) && r.value < |st| && st[r.value].name == Some(name)
      else
        IsKind(st[i], GroupKind) ==> forall k | k in Kids(st[i]) && k < |st| :: st[k].name != Some(name)
  {
    LastStep(st, i, name);
    WholeStep(name);
    LinkedKids(st, i);
    hide Head, SkipStep, SkipSeparators, ValidName, FindMember, PathTo, Attached, ShortLists, LookupFrom;
    FindMemberMeans(st, Kids(st[i]), name);
    var found := FindMember(st, Kids(st[i]), name);
    assert KidsNamed(st, i);
    LookupUnfold(st, i, name);
    if IsKind(st[i], GroupKind) && found.Some? {
      var k := Kids(st[i])[found.value];
      HeadOfName(st[k].name.value);
      NothingLeft(st, k);
    }
  }

  /** An index behind the path finds the element at that position, where the index is any number of
      64 bits and counts modulo 2^32. */
  lemma AnyIndex(st: Store, i: nat, sign: string, digits: string, more: string)
    requires Valid(st) && ShortLists(st) && i < |st| && Attached(st, i)
    requires IsSign(sign) && digits != [] && AllDigits(digits, 10) && IsInt64(SignedNumber(sign, digits))
    requires (forall c | c in more :: !IsPathToken(c)) && (more == [] || !IsDigit(more[0]))
    ensures
      var n := SignedNumber(sign, digits) % 0x1_0000_0000;
      LookupFrom(st, 0, PathTo(st, i) + ("." + ("[" + (sign + digits + more)))) ==
      if n < |Kids(st[i])| then Some(Kids(st[i])[n]) else None
  {
    var step := sign + digits + more;
    LastStep(st, i, "[" + step);
    StepChars(sign, digits, more);
    WholeStep("[" + step);
    WholeStep(step);
    IndexValue(sign, digits, more);
    LinkedKids(st, i);
    hide PathTo, Attached, ShortLists, LookupFrom, SkipStep, SkipSeparators, IndexText, SignedNumber, Valid;
    hide AllDigits, IsPathToken, Linked, MemberOf;
    BehindBracket(step);
    LookupUnfold(st, i, "[" + step);
    var n := SignedNumber(sign, digits) % 0x1_0000_0000;
    if n < |Kids(st[i])| {
      NothingLeft(st, Kids(st[i])[n]);
    }
  }

  lemma BehindBracket(step: string)
    ensures ("[" + step)[0] == '[' && ("[" + step)[1..] == step
  {}

  lemma StepChars(sign: string, digits: string, more: string)
    requires IsSign(sign) && digits != [] && AllDigits(digits, 10) && forall c | c in more :: !IsPathToken(c)
    ensures
      var step := sign + digits + more;
      step != [] && (forall c | c in step :: !IsPathToken(c)) && forall c | c in "[" + step :: !IsPathToken(c)
  {
    assert forall c | c in sign :: c == '+' || c == '-';
  }

  lemma IndexValue(sign: string, digits: string, more: string)
    requires IsSign(sign) && digits != [] && AllDigits(digits, 10) && IsInt64(SignedNumber(sign, digits))
    requires more == [] || !IsDigit(more[0])
    ensures IndexText(sign + digits + more) == SignedNumber(sign, digits) % 0x1_0000_0000
  {
    NumberValue(sign, digits, more);
    assert digits[0] in digits;
    hide SignedNumber, AllDigits, SignedValue, IndexText;
    NoSpace(sign + digits + more);
    WrapMod(SignedNumber(sign, digits));
  }

  lemma WrapMod(i: int)
    ensures Wrap32(i) % 0x1_0000_0000 == i % 0x1_0000_0000
  {}
}
