/** Query texts as other clients write them: any escapes, plus signs, blanks, empty pieces. */
module QueryForms {
  import opened CLibrary
  import opened HttpText
  import opened Query
  import opened Seqs

  // ----- escapes -----

  datatype UrlPiece =
    | Plain(c: char)
    | Plus
    | Escape(high: char, low: char)
    | Unicode(a: char, b: char, c: char, d: char)
    | Percent  // a percent sign that starts no escape

  function UrlText(p: UrlPiece): string
  {
    match p
    case Plain(c) => [c]
    case Plus => "+"
    case Escape(high, low) => ['%', high, low]
    case Unicode(a, b, c, d) => ['%', 'u', a, b, c, d]
    case Percent => "%"
  }

  function UrlTexts(ps: seq<UrlPiece>): string
  {
    if ps == [] then "" else UrlText(ps[0]) + UrlTexts(ps[1..])
  }

  predicate StartsEscape(rest: string)
  {
    || (|rest| >= 2 && IsHexDigit(rest[0]) && IsHexDigit(rest[1]))
    || (|rest| >= 5 && rest[0] == 'u' && IsHexDigit(rest[1]) && IsHexDigit(rest[2]) &&
        IsHexDigit(rest[3]) && IsHexDigit(rest[4]))
  }

  predicate ProperPiece(p: UrlPiece)
  {
    match p
    case Plain(c) => c != '%' && c != '+'
    case Escape(high, low) => IsHexDigit(high) && IsHexDigit(low)
    case Unicode(a, b, c, d) => IsHexDigit(a) && IsHexDigit(b) && IsHexDigit(c) && IsHexDigit(d)
    case _ => true
  }

  predicate ProperUrl(ps: seq<UrlPiece>)
  {
    ps == [] || (
      && ProperPiece(ps[0]) && ProperUrl(ps[1..])
      && (ps[0].Percent? ==> !StartsEscape(UrlTexts(ps[1..]))))
  }

  function UrlMeaning(p: UrlPiece, plus: bool): string
    requires ProperPiece(p)
  {
    match p
    case Plain(c) => [c]
    case Plus => if plus then " " else "+"
    case Escape(high, low) => [(DigitValue(high) * 16 + DigitValue(low)) as char]
    case Unicode(a, b, c, d) =>
      ToUtf8(DigitValue(a) * 4096 + DigitValue(b) * 256 + DigitValue(c) * 16 + DigitValue(d))
    case Percent => "%"
  }

  function UrlMeanings(ps: seq<UrlPiece>, plus: bool): string
    requires ProperUrl(ps)
  {
    if ps == [] then "" else UrlMeaning(ps[0], plus) + UrlMeanings(ps[1..], plus)
  }

  lemma FourDigits(a: char, b: char, c: char, d: char)
    requires IsHexDigit(a) && IsHexDigit(b) && IsHexDigit(c) && IsHexDigit(d)
    ensures AllDigits([a, b, c, d], 16)
    ensures FromBase([a, b, c, d], 16) ==
            DigitValue(a) * 4096 + DigitValue(b) * 256 + DigitValue(c) * 16 + DigitValue(d)
  {
    assert forall x | x in [a, b, c, d] :: x == a || x == b || x == c || x == d;
    assert [a, b, c, d][..3] == [a, b, c] && [a, b, c][..2] == [a, b];
    TwoDigits(a, b);
    assert FromBase([a, b, c], 16) == FromBase([a, b], 16) * 16 + DigitValue(c) by {
      assert forall x | x in [a, b, c] :: x == a || x == b || x == c;
    }
  }

  lemma UnicodeDecoded(p: UrlPiece, t: string, plus: bool)
    requires p.Unicode? && ProperPiece(p)
    ensures Decode(UrlText(p) + t, plus) == UrlMeaning(p, plus) + Decode(t, plus)
  {
    hide FromBase, ToUtf8;
    var s := UrlText(p) + t;
    assert s[1] == 'u' && s[2] == p.a && s[3] == p.b && s[4] == p.c && s[5] == p.d && s[6..] == t;
    assert s[2..6] == [p.a, p.b, p.c, p.d];
    FourDigits(p.a, p.b, p.c, p.d);
    assert HexAt(s, 2, 4);
  }

  lemma PercentDecoded(t: string, plus: bool)
    requires !StartsEscape(t)
    ensures Decode("%" + t, plus) == "%" + Decode(t, plus)
  {
    hide ToUtf8, HexValue;
    var s := "%" + t;
    assert s[1..] == t;
    assert |t| > 0 ==> s[1] == t[0];
    assert forall k | 0 <= k < |t| :: s[k + 1] == t[k];
  }

  lemma PieceDecoded(p: UrlPiece, t: string, plus: bool)
    requires ProperPiece(p) && (p.Percent? ==> !StartsEscape(t))
    ensures Decode(UrlText(p) + t, plus) == UrlMeaning(p, plus) + Decode(t, plus)
  {
    match p {
      case Escape(high, low) => DecodeEscape(high, low, t, plus);
      case Unicode(_, _, _, _) => UnicodeDecoded(p, t, plus);
      case Percent => PercentDecoded(t, plus);
      case _ =>
        assert (UrlText(p) + t)[1..] == t;
    }
  }

  /** Every piece of a text is decoded to what it means: escapes in either case, four-digit ones, plus
      signs as blanks where that is wanted, and percent signs that start nothing. */
  lemma {:induction false} UrlDecoded(ps: seq<UrlPiece>, plus: bool)
    requires ProperUrl(ps)
    ensures Decode(UrlTexts(ps), plus) == UrlMeanings(ps, plus)
  {
    hide Decode, UrlText, UrlMeaning, ProperPiece, StartsEscape;
    if ps == [] {
      NoPiece(plus);
    } else {
      PieceDecoded(ps[0], UrlTexts(ps[1..]), plus);
      UrlDecoded(ps[1..], plus);
    }
  }

  lemma NoPiece(plus: bool)
    ensures Decode("", plus) == ""
  {}

  // ----- encoding -----

  predicate Unreserved(c: char)
  {
    || 'a' <= c <= 'z' || 'A' <= c <= 'Z' || '0' <= c <= '9'
    || c in {'-', '_', '.', '!', '~', '*', '\'', '(', ')'}
  }

  predicate IsUpperHex(c: char) { '0' <= c <= '9' || 'A' <= c <= 'F' }

  lemma {:induction false} EncodeBoth(a: string, b: string)
    requires IsBytes(a) && IsBytes(b)
    ensures IsBytes(a + b) && Encode(a + b) == Encode(a) + Encode(b)
  {
    hide EncodeChar;
    if a == "" {
      PlusNothing(b);
      PlusNothing(Encode(b));
    } else {
      assert (a + b)[0] == a[0] && (a + b)[1..] == a[1..] + b;
      EncodeBoth(a[1..], b);
      Assoc(EncodeChar(a[0]), Encode(a[1..]), Encode(b));
    }
  }

  lemma EncodeAlone(c: char)
    requires c as int < 256
    ensures Encode([c]) == EncodeChar(c)
  {
    hide EncodeChar;
    PlusNothing(EncodeChar(c));
  }

  lemma UpperDigit(d: nat)
    requires d < 16
    ensures IsUpperHex(Digit(d, true))
  {}

  lemma EncodedCharMeans(c: char)
    requires c as int < 256
    ensures Unreserved(c) ==> EncodeChar(c) == [c]
    ensures !Unreserved(c) ==>
      var text := EncodeChar(c);
      && |text| == 3 && text[0] == '%' && IsUpperHex(text[1]) && IsUpperHex(text[2])
      && DigitValue(text[1]) * 16 + DigitValue(text[2]) == c as int
  {
    UpperDigit(c as int / 16);
    UpperDigit(c as int % 16);
  }

  /** Wherever it stands, an unreserved character is kept, and every other byte becomes a percent sign
      with its two hexadecimal digits in capital letters. */
  lemma EncodedMeans(a: string, c: char, b: string) returns (text: string)
    requires IsBytes(a) && IsBytes(b) && c as int < 256
    ensures IsBytes(a + ([c] + b)) && Encode(a + ([c] + b)) == Encode(a) + (text + Encode(b))
    ensures Unreserved(c) ==> text == [c]
    ensures !Unreserved(c) ==>
      && |text| == 3 && text[0] == '%' && IsUpperHex(text[1]) && IsUpperHex(text[2])
      && DigitValue(text[1]) * 16 + DigitValue(text[2]) == c as int
  {
    hide EncodeChar, Encode, Unreserved, IsUpperHex, DigitValue;
    text := EncodeChar(c);
    EncodeAlone(c);
    EncodedCharMeans(c);
    EncodeBoth([c], b);
    EncodeBoth(a, [c] + b);
  }

  // ----- fields -----

  /** Text between delimiters, with blanks around it. */
  datatype Field = Field(left: string, core: string, right: string)

  function FieldText(f: Field): string { f.left + f.core + f.right }

  predicate ProperField(f: Field, d: char)
  {
    && (forall c | c in f.left + f.right :: c == ' ' || c == '\t')
    && Trimmed(f.core) && d !in f.core
  }

  function Joined(fs: seq<Field>, d: char): string
  {
    if fs == [] then "" else FieldText(fs[0]) + (if |fs| > 1 then [d] + Joined(fs[1..], d) else "")
  }

  /** The texts that are not empty. */
  function Cores(fs: seq<Field>): seq<string>
  {
    if fs == [] then [] else (if fs[0].core == "" then [] else [fs[0].core]) + Cores(fs[1..])
  }

  lemma FieldTrimmed(f: Field, d: char)
    requires ProperField(f, d)
    ensures Trim(FieldText(f)) == f.core
  {
    var s := FieldText(f);
    Around(f, d);
    if f.core == "" {
      TrimLeftIs(s, |s|);
      assert s[|s|..] == "";
      TrimRightIs("", 0);
    } else {
      assert s == f.left + (f.core + f.right);
      TrimLeftIs(s, |f.left|);
      var t := f.core + f.right;
      assert s[|f.left|..] == t;
      TrimRightIs(t, |f.core|);
      assert t[..|f.core|] == f.core;
    }
  }

  lemma Around(f: Field, d: char)
    requires ProperField(f, d)
    ensures forall i | 0 <= i < |f.left| :: IsSpaceOrTab(FieldText(f)[i])
    ensures forall i | 0 <= i < |f.right| :: IsSpaceOrTab(f.right[i])
    ensures forall i | |f.core| <= i < |f.core + f.right| :: IsSpaceOrTab((f.core + f.right)[i])
    ensures f.core == "" ==> forall i | 0 <= i < |FieldText(f)| :: IsSpaceOrTab(FieldText(f)[i])
    ensures f.core != "" ==>
      FieldText(f)[|f.left|] == f.core[0] && (f.core + f.right)[|f.core| - 1] == f.core[|f.core| - 1]
  {
    assert forall i | 0 <= i < |f.left| :: f.left[i] in f.left + f.right;
    assert forall i | 0 <= i < |f.right| :: f.right[i] in f.left + f.right;
  }

  lemma FieldHas(f: Field, d: char)
    requires ProperField(f, d) && d != ' ' && d != '\t'
    ensures d !in FieldText(f)
  {
    assert forall c | c in f.left || c in f.right :: c in f.left + f.right;
  }

  /** Splitting gives the texts between the delimiters, without the blanks around them, and without
      the empty ones. */
  lemma {:induction false} FieldsSplit(fs: seq<Field>, d: char)
    requires fs != [] && d != ' ' && d != '\t' && forall f | f in fs :: ProperField(f, d)
    ensures Split(Joined(fs, d), d) == Cores(fs)
  {
    hide KeepPiece, Split, ProperField, FieldText;
    var f, text := fs[0], FieldText(fs[0]);
    assert f in fs && forall g | g in fs[1..] :: g in fs;
    FieldHas(f, d);
    FieldKept(f, d);
    assert forall k | 0 <= k < |text| :: text[k] in text;
    if |fs| == 1 {
      PlusNothing(text);
      assert text[0..] == text;
      LastPiece(text, 0, d);
      assert fs[1..] == [];
      PlusNothing(Cores([f]));
    } else {
      var later := Joined(fs[1..], d);
      var whole := text + ([d] + later);
      FieldsSplit(fs[1..], d);
      assert whole[0..] == whole && whole[0..|text|] == text && whole[|text|] == d && whole[|text| + 1..] == later;
      SplitAt(whole, 0, |text|, d);
    }
  }

  lemma FieldKept(f: Field, d: char)
    requires ProperField(f, d)
    ensures KeepPiece(FieldText(f)) == if f.core == "" then [] else [f.core]
  {
    hide Trim, FieldText;
    FieldTrimmed(f, d);
  }

  // ----- pairs -----

  /** A piece of parts between equals signs, with blanks around the parts and any escapes in them. The
      first part that is not empty is the key, the last of the others the value: this pair is
      added, unless the same piece has been seen before. Without such a part nothing is added. */
  lemma PieceAbsorbed(entries: seq<Pair>, seen: set<string>, fs: seq<Field>,
                      key: seq<UrlPiece>, value: seq<UrlPiece>, later: seq<string>)
    requires fs != [] && forall f | f in fs :: ProperField(f, '=')
    requires ProperUrl(key) && ProperUrl(value)
    requires Cores(fs) != [] ==> UrlTexts(key) == Cores(fs)[0]
    requires UrlTexts(value) == if |Cores(fs)| > 1 then Cores(fs)[|Cores(fs)| - 1] else ""
    ensures
      var text := Joined(fs, '=');
      Absorbed(entries, seen, [text] + later) ==
      if text in seen then Absorbed(entries, seen, later)
      else if Cores(fs) == [] then Absorbed(entries, seen + {text}, later)
      else Absorbed(Emplaced(entries, UrlMeanings(key, true), UrlMeanings(value, true)), seen + {text}, later)
  {
    hide Absorbed, Split, Decode, Emplaced, ProperField, FieldText, ProperUrl, UrlTexts, Cores, Joined;
    FieldsSplit(fs, '=');
    CoresNotEmpty(fs);
    assert Cores(fs) != [] ==> Cores(fs)[0] in Cores(fs);
    AbsorbedUnfold(entries, seen, Joined(fs, '='), later);
    UrlDecoded(key, true);
    UrlDecoded(value, true);
  }

  lemma {:induction false} CoresNotEmpty(fs: seq<Field>)
    ensures forall core | core in Cores(fs) :: core != ""
  {
    if fs != [] {
      CoresNotEmpty(fs[1..]);
    }
  }

  lemma {:induction false} OrderSwaps(a: string, b: string)
    ensures Order(a, b) < 0 <==> Order(b, a) > 0
  {
    if a != [] && b != [] && a[0] == b[0] {
      OrderSwaps(a[1..], b[1..]);
    }
  }

  lemma {:induction false} OrderChains(a: string, b: string, c: string)
    requires Order(a, b) >= 0 && Order(b, c) >= 0
    ensures Order(a, c) >= 0
  {
    if a != [] && b != [] && c != [] && a[0] == b[0] && b[0] == c[0] {
      OrderChains(a[1..], b[1..], c[1..]);
    }
  }

  /** No entry has a key before the first one. */
  lemma {:induction false} NoneBefore(entries: seq<Pair>, key: string)
    requires forall i | 0 <= i < |entries| :: entries[i].0 != key
    ensures ValuesOf(entries, key) == []
  {
    if entries != [] {
      NoneBefore(entries[1..], key);
    }
  }

  lemma KeyBefore(entries: seq<Pair>, key: string)
    requires Sorted(entries) && entries != [] && Order(key, entries[0].0) < 0
    ensures forall i | 0 <= i < |entries| :: Order(entries[i].0, key) >= 0 && entries[i].0 != key
  {
    OrderSwaps(key, entries[0].0);
    forall i | 0 <= i < |entries| ensures Order(entries[i].0, key) >= 0 && entries[i].0 != key {
      if i > 0 {
        OrderChains(entries[i].0, entries[0].0, key);
      }
      if entries[i].0 == key {
        OrderZero(key, key);
      }
    }
  }

  lemma {:induction false} EmplacedMembers(entries: seq<Pair>, key: string, value: string)
    ensures forall p | p in Emplaced(entries, key, value) :: p == (key, value) || p in entries
  {
    if entries != [] && Order(key, entries[0].0) >= 0 {
      EmplacedMembers(entries[1..], key, value);
    }
  }

  lemma SortedCons(p: Pair, rest: seq<Pair>)
    requires Sorted(rest) && forall q | q in rest :: Order(q.0, p.0) >= 0
    ensures Sorted([p] + rest)
  {
    var all := [p] + rest;
    forall i, j | 0 <= i < j < |all| ensures Order(all[j].0, all[i].0) >= 0 {
      assert all[j] == rest[j - 1] && all[j] in rest;
    }
  }

  lemma SortedTail(entries: seq<Pair>)
    requires Sorted(entries) && entries != []
    ensures Sorted(entries[1..]) && forall q | q in entries[1..] :: Order(q.0, entries[0].0) >= 0
  {
    forall q | q in entries[1..] ensures Order(q.0, entries[0].0) >= 0 {
      var i :| 0 <= i < |entries| - 1 && entries[1..][i] == q;
      assert entries[i + 1] == q;
    }
  }

  lemma EmplacedUnfold(entries: seq<Pair>, key: string, value: string)
    ensures Emplaced(entries, key, value) ==
      if entries == [] then [(key, value)]
      else if Order(key, entries[0].0) < 0 then [(key, value)] + entries
      else [entries[0]] + Emplaced(entries[1..], key, value)
  {
    hide Order;
    PlusNothing([(key, value)]);
  }

  lemma {:induction false} EmplacedSorted(entries: seq<Pair>, key: string, value: string)
    requires Sorted(entries)
    ensures Sorted(Emplaced(entries, key, value))
  {
    hide Order, Sorted, Emplaced;
    EmplacedUnfold(entries, key, value);
    if entries == [] {
      NoEntries((key, value));
    } else if Order(key, entries[0].0) < 0 {
      KeyBefore(entries, key);
      forall q | q in entries ensures Order(q.0, key) >= 0 {
        var i :| 0 <= i < |entries| && entries[i] == q;
      }
      SortedCons((key, value), entries);
    } else {
      SortedTail(entries);
      EmplacedSorted(entries[1..], key, value);
      EmplacedMembers(entries[1..], key, value);
      SortedCons(entries[0], Emplaced(entries[1..], key, value));
    }
  }

  lemma ValuesCons(p: Pair, rest: seq<Pair>, key: string)
    ensures ValuesOf([p] + rest, key) == (if p.0 == key then [p.1] else []) + ValuesOf(rest, key)
  {
    assert ([p] + rest)[1..] == rest;
  }

  lemma {:induction false} EmplacedValues(entries: seq<Pair>, key: string, value: string, k: string)
    requires Sorted(entries)
    ensures ValuesOf(Emplaced(entries, key, value), k) == ValuesOf(entries, k) + (if k == key then [value] else [])
    ensures multiset(Emplaced(entries, key, value)) == multiset(entries) + multiset{(key, value)}
  {
    hide Order, Sorted, Emplaced, ValuesOf;
    EmplacedUnfold(entries, key, value);
    if entries == [] {
      NoEntries((key, value));
      NoneBefore([], k);
    } else if Order(key, entries[0].0) < 0 {
      KeyBefore(entries, key);
      NoneBefore(entries, key);
      ValuesCons((key, value), entries, k);
      PlusNothing(ValuesOf(entries, k));
      PlusNothing([value]);
    } else {
      var p, rest := entries[0], entries[1..];
      assert entries == [p] + rest;
      SortedTail(entries);
      EmplacedValues(rest, key, value, k);
      ValuesCons(p, rest, k);
      ValuesCons(p, Emplaced(rest, key, value), k);
      Assoc(if p.0 == k then [p.1] else [], ValuesOf(rest, k), if k == key then [value] else []);
    }
  }

  /** A new entry goes behind those with its key, and the keys stay in order. */
  lemma EmplacedMeans(entries: seq<Pair>, key: string, value: string)
    requires Sorted(entries)
    ensures
      var after := Emplaced(entries, key, value);
      && Sorted(after) && multiset(after) == multiset(entries) + multiset{(key, value)}
      && (forall k: string :: ValuesOf(after, k) == ValuesOf(entries, k) + (if k == key then [value] else []))
  {
    hide Sorted, Emplaced, ValuesOf;
    EmplacedSorted(entries, key, value);
    EmplacedValues(entries, key, value, key);
    forall k: string
      ensures ValuesOf(Emplaced(entries, key, value), k) == ValuesOf(entries, k) + (if k == key then [value] else [])
    {
      EmplacedValues(entries, key, value, k);
    }
  }

  lemma NoEntries(p: Pair)
    ensures Sorted([p]) && forall k: string :: ValuesOf([p], k) == if k == p.0 then [p.1] else []
  {}

  function ValuesOf(entries: seq<Pair>, key: string): seq<string>
  {
    if entries == [] then []
    else (if entries[0].0 == key then [entries[0].1] else []) + ValuesOf(entries[1..], key)
  }
}