/** Text helpers shared by the HTTP modules: searching, trimming, and words in any case. Bytes
    are characters. */
module HttpText {
  import opened CLibrary

  /** An occurrence of `pattern` starts at position `i`. */
  predicate Occurs(s: string, pattern: string, i: nat)
  {
    i + |pattern| <= |s| && s[i..i + |pattern|] == pattern
  }

  /** The position of the first occurrence of `pattern`, or the length of `s`. */
  function Find(s: string, pattern: string): (n: nat)
    ensures n <= |s|
    ensures n < |s| ==> Occurs(s, pattern, n)
  {
    FindFrom(s, pattern, 0)
  }

  function FindFrom(s: string, pattern: string, i: nat): (n: nat)
    requires i <= |s|
    ensures i <= n <= |s|
    ensures n < |s| ==> Occurs(s, pattern, n)
    decreases |s| - i
  {
    if i == |s| || Occurs(s, pattern, i) then i else FindFrom(s, pattern, i + 1)
  }

  /** Nothing before the position found is an occurrence. */
  lemma FindFirst(s: string, pattern: string)
    ensures forall i: nat | i < Find(s, pattern) :: !Occurs(s, pattern, i)
  {
    forall i: nat | i < Find(s, pattern) ensures !Occurs(s, pattern, i) {
      FindFromFirst(s, pattern, 0, i);
    }
  }

  lemma {:induction false} FindFromFirst(s: string, pattern: string, i: nat, j: nat)
    requires i <= j <= |s|
    ensures j < FindFrom(s, pattern, i) ==> !Occurs(s, pattern, j)
    ensures Occurs(s, pattern, j) ==> FindFrom(s, pattern, i) <= j
    decreases j - i
  {
    hide Occurs;
    if i < j {
      FindFromFirst(s, pattern, i + 1, j);
    }
  }

  /** The position found is the only one with these properties. */
  lemma FindIs(s: string, pattern: string, n: nat)
    requires n <= |s| && (n < |s| ==> Occurs(s, pattern, n))
    requires forall i: nat | i < n :: !Occurs(s, pattern, i)
    ensures Find(s, pattern) == n
  {
    hide Occurs;
    FindFromFirst(s, pattern, 0, n);
  }

  lemma OccursAppend(s: string, t: string, pattern: string, i: nat)
    requires i + |pattern| <= |s|
    ensures Occurs(s + t, pattern, i) <==> Occurs(s, pattern, i)
  {
    assert (s + t)[i..i + |pattern|] == s[i..i + |pattern|];
  }

  lemma OccursLater(s: string, pattern: string, k: nat, i: nat)
    requires k <= |s|
    ensures Occurs(s[k..], pattern, i) <==> Occurs(s, pattern, k + i)
  {
    if k + i + |pattern| <= |s| {
      assert s[k..][i..i + |pattern|] == s[k + i..k + i + |pattern|];
    }
  }

  /** Skipping positions that start no occurrence. */
  lemma FindSkip(s: string, pattern: string, k: nat)
    requires k <= |s| && forall i: nat | i < k :: !Occurs(s, pattern, i)
    ensures Find(s, pattern) == k + Find(s[k..], pattern)
  {
    hide Occurs, Find;
    var m := Find(s[k..], pattern);
    FindFirst(s[k..], pattern);
    forall i: nat | i < k + m ensures !Occurs(s, pattern, i) {
      if i >= k {
        OccursLater(s, pattern, k, i - k);
        assert !Occurs(s[k..], pattern, i - k);
      }
    }
    OccursLater(s, pattern, k, m);
    FindIs(s, pattern, k + m);
  }

  /** An occurrence stays the first one when more text arrives. */
  lemma FindAppend(s: string, t: string, pattern: string)
    requires Find(s, pattern) < |s|
    ensures Find(s + t, pattern) == Find(s, pattern)
  {
    var n := Find(s, pattern);
    FindFirst(s, pattern);
    forall i: nat | i <= n ensures Occurs(s + t, pattern, i) <==> Occurs(s, pattern, i) {
      OccursAppend(s, t, pattern, i);
    }
    hide Find, Occurs;
    assert forall i: nat | i < n :: !Occurs(s + t, pattern, i);
    FindIs(s + t, pattern, n);
  }

  /** Text without an occurrence can only hold the beginning of one at its end. */
  lemma FindRetained(s: string, t: string, pattern: string)
    requires |pattern| <= |s| && Find(s, pattern) == |s|
    ensures
      var k := |s| - |pattern|;
      Find(s + t, pattern) == k + Find(s[k..] + t, pattern)
  {
    hide Find, Occurs;
    var k := |s| - |pattern|;
    FindFirst(s, pattern);
    forall i: nat | i < k ensures !Occurs(s + t, pattern, i) {
      OccursAppend(s, t, pattern, i);
    }
    FindSkip(s + t, pattern, k);
    assert (s + t)[k..] == s[k..] + t;
  }

  lemma FindShort(s: string, pattern: string)
    requires |pattern| > |s|
    ensures Find(s, pattern) == |s|
  {}

  /** Text that lacks the first character of the pattern. */
  lemma FindAfter(s: string, t: string, pattern: string)
    requires pattern != [] && pattern[0] !in s
    ensures Find(s + t, pattern) == |s| + Find(t, pattern)
  {
    forall i: nat | i < |s| ensures !Occurs(s + t, pattern, i) {
      NoFirst(s + t, pattern, i);
    }
    hide Find, Occurs;
    FindSkip(s + t, pattern, |s|);
    assert (s + t)[|s|..] == t;
  }

  lemma FindAtStart(pattern: string, t: string)
    ensures Find(pattern + t, pattern) == 0
  {
    assert (pattern + t)[0..|pattern|] == pattern;
    FindIs(pattern + t, pattern, 0);
  }

  /** Text that ends where the pattern starts, when the pattern's first character occurs
      in it only once. */
  lemma FindThere(s: string, pattern: string, t: string)
    requires pattern != [] && pattern[0] !in pattern[1..] && Find(s, pattern) == |s|
    ensures Find(s + pattern + t, pattern) == |s|
  {
    var whole := s + pattern + t;
    FindFirst(s, pattern);
    forall i: nat | i < |s| ensures !Occurs(whole, pattern, i) {
      if i + |pattern| <= |s| {
        assert whole == s + (pattern + t);
        OccursAppend(s, pattern + t, pattern, i);
      } else if i + |pattern| <= |whole| {
        assert whole[i..i + |pattern|][|s| - i] == pattern[0] && pattern[|s| - i] == pattern[1..][|s| - i - 1];
      }
    }
    assert whole[|s|..|s| + |pattern|] == pattern;
    FindIs(whole, pattern, |s|);
  }

  lemma NoFirst(s: string, pattern: string, i: nat)
    requires pattern != [] && i < |s| && s[i] != pattern[0]
    ensures !Occurs(s, pattern, i)
  {
    if i + |pattern| <= |s| {
      assert s[i..i + |pattern|][0] == s[i];
    }
  }

  predicate IsSpaceOrTab(c: char) { c == ' ' || c == '\t' }

  function TrimLeft(s: string): (r: string)
    ensures |r| <= |s| && (r != [] ==> !IsSpaceOrTab(r[0]))
  {
    if s != [] && IsSpaceOrTab(s[0]) then TrimLeft(s[1..]) else s
  }

  function TrimRight(s: string): (r: string)
    ensures |r| <= |s| && (r != [] ==> !IsSpaceOrTab(r[|r| - 1]))
    ensures r <= s
  {
    if s != [] && IsSpaceOrTab(s[|s| - 1]) then TrimRight(s[..|s| - 1]) else s
  }

  /** `trim_copy` */
  function Trim(s: string): string { TrimRight(TrimLeft(s)) }

  predicate Trimmed(s: string)
  {
    s == [] || (!IsSpaceOrTab(s[0]) && !IsSpaceOrTab(s[|s| - 1]))
  }

  lemma TrimTrimmed(s: string)
    ensures Trimmed(s) ==> Trim(s) == s
    ensures Trimmed(Trim(s))
  {}

  /** `s` starts with `p`, up to the case of letters. */
  predicate StartsIgnoringCase(s: string, p: string)
  {
    |p| <= |s| && forall i | 0 <= i < |p| :: Lower(s[i]) == Lower(p[i])
  }

  function SkipWhite(s: string): (r: string)
    ensures |r| <= |s| && (r != [] ==> !IsSpace(r[0]))
  {
    if s != [] && IsSpace(s[0]) then SkipWhite(s[1..]) else s
  }
}
