/** Decryption of a PIN code. */
module Pincode {
  // A digit table is shuffled by a seeded generator, with swaps done by exclusive or.

  import opened CLibrary

  const PINCODE_LENGTH: nat := 4

  type Table = seq<bv8>

  const Sorted: Table := [0, 1, 2, 3, 4, 5, 6, 7, 8, 9]

  function Swapped(t: Table, i: nat, j: nat): Table
    requires i < |t| && j < |t|
  {
    t[i := t[j]][j := t[i]]
  }

  /** The generator, in 32-bit arithmetic. */
  function NextSeed(seed: nat): nat { (0x881234 + seed * 0x3498) % 0x1_0000_0000 }

  /** The table after the swaps for positions `i` to 9. */
  function Shuffled(t: Table, seed: nat, i: nat): Table
    requires |t| == 10 && 1 <= i <= 10
    decreases 10 - i
  {
    if i == 10 then t
    else
      var next := NextSeed(seed);
      Shuffled(Swapped(t, i, next % (i + 1)), next, i + 1)
  }

  function Xor(a: bv8, b: bv8): bv8 { a ^ b }

  lemma XorSwap(a: bv8, b: bv8)
    ensures
      var x := Xor(a, b);
      var y := Xor(b, x);
      y == a && Xor(x, y) == b
  {}

  /** The exclusive-or swap of two different entries. */
  method SwapEntries(tab: array<bv8>, i: nat, pos: nat)
    requires i < tab.Length && pos < tab.Length && i != pos
    modifies tab
    ensures tab[..] == Swapped(old(tab[..]), i, pos)
  {
    hide Xor;
    XorSwap(tab[i], tab[pos]);
    tab[i] := Xor(tab[i], tab[pos]);
    tab[pos] := Xor(tab[pos], tab[i]);
    tab[i] := Xor(tab[i], tab[pos]);
  }

  /** The shuffling loop, in place. */
  method Shuffle(seed: nat) returns (tab: array<bv8>)
    ensures fresh(tab) && tab[..] == TableOf(seed)
  {
    hide Shuffled;
    tab := new bv8[10] [0, 1, 2, 3, 4, 5, 6, 7, 8, 9];
    assert tab[..] == Sorted;
    var userSeed, i := seed, 1;
    while i < 10
      invariant 1 <= i <= 10 && fresh(tab) && tab.Length == 10
      invariant Shuffled(tab[..], userSeed, i) == Shuffled(Sorted, seed, 1)
    {
      ShuffledUnfold(tab[..], userSeed, i);
      userSeed := NextSeed(userSeed);
      var pos := userSeed % (i + 1);
      if i != pos {
        SwapEntries(tab, i, pos);
      } else {
        assert Swapped(tab[..], i, i) == tab[..];
      }
      i := i + 1;
    }
    ShuffledUnfold(tab[..], userSeed, 10);
  }

  lemma ShuffledUnfold(t: Table, seed: nat, i: nat)
    requires |t| == 10 && 1 <= i <= 10
    ensures i == 10 ==> Shuffled(t, seed, i) == t
    ensures i < 10 ==> Shuffled(t, seed, i) == Shuffled(Swapped(t, i, NextSeed(seed) % (i + 1)), NextSeed(seed), i + 1)
  {}

  /** All ten digits occur, each once. */
  ghost predicate IsPermutation(t: Table)
  {
    && |t| == 10
    && (forall i | 0 <= i < 10 :: t[i] < 10)
    && (forall i, j | 0 <= i < j < 10 :: t[i] != t[j])
    && (forall b: bv8 | b < 10 :: Occurs(t, b))
  }

  predicate Occurs(t: Table, b: bv8) { exists i | 0 <= i < |t| :: t[i] == b }

  lemma SwapKeepsEntries(t: Table, i: nat, j: nat)
    requires IsPermutation(t) && i < 10 && j < 10
    ensures IsPermutation(Swapped(t, i, j))
  {
    var t' := Swapped(t, i, j);
    forall b: bv8 | b < 10 ensures Occurs(t', b) {
      assert Occurs(t, b);
      var k :| 0 <= k < |t| && t[k] == b;
      assert t'[if k == i then j else if k == j then i else k] == b;
    }
  }

  lemma SortedIsPermutation()
    ensures IsPermutation(Sorted)
  {
    var t := Sorted;
    assert t[0] == 0 && t[1] == 1 && t[2] == 2 && t[3] == 3 && t[4] == 4;
    assert t[5] == 5 && t[6] == 6 && t[7] == 7 && t[8] == 8 && t[9] == 9;
  }

  /** For every seed, the table is a permutation of the ten digits. */
  lemma {:induction false} ShuffledIsPermutation(t: Table, seed: nat, i: nat)
    requires IsPermutation(t) && 1 <= i <= 10
    ensures IsPermutation(Shuffled(t, seed, i))
    decreases 10 - i
  {
    hide IsPermutation;
    IsTen(t);
    if i < 10 {
      var next := NextSeed(seed);
      SwapKeepsEntries(t, i, next % (i + 1));
      ShuffledIsPermutation(Swapped(t, i, next % (i + 1)), next, i + 1);
    }
  }

  lemma IsTen(t: Table)
    requires IsPermutation(t)
    ensures |t| == 10
  {}

  function TableOf(seed: nat): (t: Table)
    ensures IsPermutation(t)
  {
    SortedIsPermutation();
    ShuffledIsPermutation(Sorted, seed, 1);
    Shuffled(Sorted, seed, 1)
  }

  function DigitIndex(c: char): (n: nat)
    requires IsDigit(c)
    ensures n < 10
  {
    c as int - '0' as int
  }

  /** `%d` for an entry of the table */
  function DigitText(b: bv8): char
  {
    if b == 0 then '0' else if b == 1 then '1' else if b == 2 then '2' else if b == 3 then '3' else if b == 4 then '4'
    else if b == 5 then '5' else if b == 6 then '6' else if b == 7 then '7' else if b == 8 then '8' else '9'
  }

  /** A code is accepted when its first four characters are digits. */
  predicate Accepted(pin: string)
  {
    |pin| >= PINCODE_LENGTH && forall i | 0 <= i < PINCODE_LENGTH :: IsDigit(pin[i])
  }

  predicate IsPin(pin: string) { |pin| == PINCODE_LENGTH && Accepted(pin) }

  function Translate(t: Table, pin: string): (r: string)
    requires |t| == 10 && Accepted(pin)
    ensures |r| == PINCODE_LENGTH
    ensures forall i | 0 <= i < PINCODE_LENGTH :: r[i] == DigitText(t[DigitIndex(pin[i])])
  {
    var d := (i: nat) requires i < PINCODE_LENGTH => DigitText(t[DigitIndex(pin[i])]);
    [d(0), d(1), d(2), d(3)]
  }

  /** `char_pincode_decrypt` */
  method Decrypt(seed: nat, pin: string) returns (ok: bool, plain: string)
    ensures ok == Accepted(pin)
    ensures ok ==> plain == Translate(TableOf(seed), pin)
    ensures ok ==> |plain| == 4 && forall i | 0 <= i < 4 ::
      plain[i] as int == '0' as int + TableOf(seed)[pin[i] as int - '0' as int] as int
    ensures !ok ==> plain == pin
  {
    if |pin| < PINCODE_LENGTH {
      return false, pin;
    }
    var i := 0;
    while i < PINCODE_LENGTH
      invariant 0 <= i <= PINCODE_LENGTH && forall k | 0 <= k < i :: IsDigit(pin[k])
    {
      if !IsDigit(pin[i]) {
        return false, pin;
      }
      i := i + 1;
    }
    hide TableOf;
    var tab := Shuffle(seed);
    ghost var t := TableOf(seed);
    plain := "";
    i := 0;
    while i < PINCODE_LENGTH
      invariant 0 <= i <= PINCODE_LENGTH && tab[..] == t
      invariant plain == Translate(t, pin)[..i]
    {
      plain := plain + [DigitText(tab[DigitIndex(pin[i])])];
      i := i + 1;
    }
    DigitsOf(t, pin);
    return true, plain;
  }

  lemma DigitsOf(t: Table, pin: string)
    requires IsPermutation(t) && Accepted(pin)
    ensures forall i | 0 <= i < 4 ::
      Translate(t, pin)[i] as int == '0' as int + t[pin[i] as int - '0' as int] as int
  {
    forall i | 0 <= i < 4
      ensures Translate(t, pin)[i] as int == '0' as int + t[pin[i] as int - '0' as int] as int
    {
      DigitIs(t[DigitIndex(pin[i])]);
    }
  }

  lemma DigitIs(b: bv8)
    requires b < 10
    ensures DigitText(b) as int == '0' as int + b as int
  {}

  lemma DigitTextInjective(a: bv8, b: bv8)
    requires a < 10 && b < 10 && DigitText(a) == DigitText(b)
    ensures a == b
  {}

  lemma DigitOf(c: char) returns (b: bv8)
    requires IsDigit(c)
    ensures b < 10 && DigitText(b) == c
  {
    b :=
      if c == '0' then 0 else if c == '1' then 1 else if c == '2' then 2 else if c == '3' then 3
      else if c == '4' then 4 else if c == '5' then 5 else if c == '6' then 6 else if c == '7' then 7
      else if c == '8' then 8 else 9;
  }

  /** Every digit is the translation of some digit. */
  lemma DigitFound(t: Table, c: char) returns (d: char)
    requires IsPermutation(t) && IsDigit(c)
    ensures IsDigit(d) && DigitText(t[DigitIndex(d)]) == c
  {
    hide DigitText;
    var b := DigitOf(c);
    assert Occurs(t, b);
    var i :| 0 <= i < |t| && t[i] == b;
    d := ('0' as int + i) as char;
  }

  /** Different digits are translated differently. */
  lemma DigitsDiffer(t: Table, c: char, d: char)
    requires IsPermutation(t) && IsDigit(c) && IsDigit(d)
    requires DigitText(t[DigitIndex(c)]) == DigitText(t[DigitIndex(d)])
    ensures c == d
  {
    hide DigitText;
    DigitTextInjective(t[DigitIndex(c)], t[DigitIndex(d)]);
  }

  /** For a fixed seed, different codes decrypt differently. */
  lemma DecryptInjective(seed: nat, p: string, q: string)
    requires IsPin(p) && IsPin(q) && Translate(TableOf(seed), p) == Translate(TableOf(seed), q)
    ensures p == q
  {
    hide TableOf, IsPermutation, DigitText;
    var t := TableOf(seed);
    IsTen(t);
    forall i | 0 <= i < PINCODE_LENGTH ensures p[i] == q[i] {
      assert Translate(t, p)[i] == Translate(t, q)[i];
      DigitsDiffer(t, p[i], q[i]);
    }
  }

  /** For a fixed seed, every code is the decryption of some code. */
  lemma DecryptSurjective(seed: nat, q: string) returns (p: string)
    requires IsPin(q)
    ensures IsPin(p) && Translate(TableOf(seed), p) == q
  {
    hide TableOf, IsPermutation, DigitText;
    var t := TableOf(seed);
    IsTen(t);
    var a := DigitFound(t, q[0]);
    var b := DigitFound(t, q[1]);
    var c := DigitFound(t, q[2]);
    var d := DigitFound(t, q[3]);
    p := [a, b, c, d];
    assert Translate(t, p) == q;
  }

  // ----- the generator in closed form -----

  function Power(b: nat, k: nat): nat { if k == 0 then 1 else b * Power(b, k - 1) }

  /** 1 + b + ... , with `k` terms */
  function Geometric(b: nat, k: nat): nat { if k == 0 then 0 else 1 + b * Geometric(b, k - 1) }

  /** The seed after `k` rounds. */
  function SeedAt(seed: nat, k: nat): nat
  {
    (Power(0x3498, k) * seed + 0x881234 * Geometric(0x3498, k)) % 0x1_0000_0000
  }

  lemma ModMultiple(x: nat, q: nat)
    ensures (x + q * 0x1_0000_0000) % 0x1_0000_0000 == x % 0x1_0000_0000
  {}

  lemma NextSeedMod(x: nat)
    ensures NextSeed(x % 0x1_0000_0000) == (0x881234 + x * 0x3498) % 0x1_0000_0000
  {
    var q, r := x / 0x1_0000_0000, x % 0x1_0000_0000;
    assert x == r + q * 0x1_0000_0000;
    ModMultiple(0x881234 + r * 0x3498, q * 0x3498);
  }

  lemma SeedStep(seed: nat, k: nat)
    ensures NextSeed(SeedAt(seed, k)) == SeedAt(seed, k + 1)
  {
    var x := Power(0x3498, k) * seed + 0x881234 * Geometric(0x3498, k);
    NextSeedMod(x);
    assert Power(0x3498, k + 1) * seed == 0x3498 * (Power(0x3498, k) * seed);
  }

  /** The table with the entries at `i` and at the place given by the closed form exchanged, for
      `i` from here to 9. */
  function Exchanged(t: Table, seed: nat, i: nat): Table
    requires |t| == 10 && 1 <= i <= 10
    decreases 10 - i
  {
    if i == 10 then t
    else
      var j := SeedAt(seed, i) % (i + 1);
      Exchanged(t[i := t[j]][j := t[i]], seed, i + 1)
  }

  lemma {:induction false} ShuffledIsExchanged(t: Table, seed: nat, i: nat)
    requires |t| == 10 && 1 <= i <= 10
    ensures Shuffled(t, SeedAt(seed, i - 1), i) == Exchanged(t, seed, i)
    decreases 10 - i
  {
    hide SeedAt, NextSeed;
    if i < 10 {
      SeedStep(seed, i - 1);
      var j := SeedAt(seed, i) % (i + 1);
      ShuffledIsExchanged(t[i := t[j]][j := t[i]], seed, i + 1);
    }
  }

  lemma SeedAtStart(seed: nat)
    requires seed < 0x1_0000_0000
    ensures SeedAt(seed, 0) == seed
  {}

  /** The table is the one that the generator with multiplier 0x3498 and increment 0x881234 gives. */
  lemma TableInClosedForm(seed: nat)
    requires seed < 0x1_0000_0000
    ensures TableOf(seed) == Exchanged([0, 1, 2, 3, 4, 5, 6, 7, 8, 9], seed, 1)
  {
    hide SeedAt, Shuffled, Exchanged;
    SeedAtStart(seed);
    ShuffledIsExchanged(Sorted, seed, 1);
  }

  lemma OneRound(t: Table, seed: nat, i: nat, next: nat, j: nat, u: Table)
    requires |t| == 10 && 1 <= i < 10 && NextSeed(seed) == next && next % (i + 1) == j
    requires u == t[i := t[j]][j := t[i]]
    ensures Shuffled(t, seed, i) == Shuffled(u, next, i + 1)
  {
    hide NextSeed;
  }

  lemma FirstRounds()
    ensures Shuffled([0, 1, 2, 3, 4, 5, 6, 7, 8, 9], 0, 1) ==
            Shuffled([3, 0, 2, 1, 4, 5, 6, 7, 8, 9], 2528855572, 4)
  {
    hide Shuffled;
    OneRound([0, 1, 2, 3, 4, 5, 6, 7, 8, 9], 0, 1, 8917556, 0, [1, 0, 2, 3, 4, 5, 6, 7, 8, 9]);
    OneRound([1, 0, 2, 3, 4, 5, 6, 7, 8, 9], 8917556, 2, 4110774548, 2, [1, 0, 2, 3, 4, 5, 6, 7, 8, 9]);
    OneRound([1, 0, 2, 3, 4, 5, 6, 7, 8, 9], 4110774548, 3, 2528855572, 0, [3, 0, 2, 1, 4, 5, 6, 7, 8, 9]);
  }

  lemma MiddleRounds()
    ensures Shuffled([3, 0, 2, 1, 4, 5, 6, 7, 8, 9], 2528855572, 4) ==
            Shuffled([3, 0, 6, 1, 5, 2, 4, 7, 8, 9], 601554452, 7)
  {
    hide Shuffled;
    OneRound([3, 0, 2, 1, 4, 5, 6, 7, 8, 9], 2528855572, 4, 2314583572, 2, [3, 0, 4, 1, 2, 5, 6, 7, 8, 9]);
    OneRound([3, 0, 4, 1, 2, 5, 6, 7, 8, 9], 2314583572, 5, 3574398484, 4, [3, 0, 4, 1, 5, 2, 6, 7, 8, 9]);
    OneRound([3, 0, 4, 1, 5, 2, 6, 7, 8, 9], 3574398484, 6, 601554452, 2, [3, 0, 6, 1, 5, 2, 4, 7, 8, 9]);
  }

  lemma LastRounds()
    ensures Shuffled([3, 0, 6, 1, 5, 2, 4, 7, 8, 9], 601554452, 7) ==
            Shuffled([3, 0, 6, 1, 9, 8, 4, 5, 2, 7], 430636564, 10)
  {
    hide Shuffled;
    OneRound([3, 0, 6, 1, 5, 2, 4, 7, 8, 9], 601554452, 7, 3324706324, 4, [3, 0, 6, 1, 7, 2, 4, 5, 8, 9]);
    OneRound([3, 0, 6, 1, 7, 2, 4, 5, 8, 9], 3324706324, 8, 1705704980, 5, [3, 0, 6, 1, 7, 8, 4, 5, 2, 9]);
    OneRound([3, 0, 6, 1, 7, 8, 4, 5, 2, 9], 1705704980, 9, 430636564, 4, [3, 0, 6, 1, 9, 8, 4, 5, 2, 7]);
  }

  lemma ZeroTranslated(t: Table)
    requires t == [3, 0, 6, 1, 9, 8, 4, 5, 2, 7]
    ensures Accepted("1234") && Translate(t, "1234") == "0619"
  {}

  /** The table for seed 0. */
  lemma TableOfZero()
    ensures TableOf(0) == [3, 0, 6, 1, 9, 8, 4, 5, 2, 7]
    ensures Accepted("1234") && Translate(TableOf(0), "1234") == "0619"
  {
    hide Shuffled, Translate;
    FirstRounds();
    MiddleRounds();
    LastRounds();
    ShuffledUnfold([3, 0, 6, 1, 9, 8, 4, 5, 2, 7], 430636564, 10);
    ZeroTranslated(TableOf(0));
  }
}
