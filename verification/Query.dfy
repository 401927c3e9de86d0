/** Percent encoding, UTF-8, splitting of text, and query strings. Bytes are characters
    below 256. */
module Query {
  import opened CLibrary
  import opened HttpText
  import opened Seqs

  predicate IsBytes(s: string) { forall i | 0 <= i < |s| :: s[i] as int < 256 }

  predicate IsKept(c: char) { IsAlnum(c) || c in "-_.!~*'()" }

  // ----- percent encoding -----

  function EncodeChar(c: char): (s: string)
    requires c as int < 256
    ensures s != []
  {
    if IsKept(c) then [c] else ['%', Digit(c as int / 16, true), Digit(c as int % 16, true)]
  }

  function Encode(value: string): string
    requires IsBytes(value)
  {
    if value == [] then [] else EncodeChar(value[0]) + Encode(value[1..])
  }

  /** `encode_query_param` */
  method EncodeQueryParam(value: string) returns (escaped: string)
    requires IsBytes(value)
    ensures escaped == Encode(value)
  {
    hide Encode, EncodeChar;
    escaped := "";
    var i := 0;
    assert value[0..] == value;
    PlusNothing(Encode(value));
    while i < |value|
      invariant 0 <= i <= |value| && escaped + Encode(value[i..]) == Encode(value)
    {
      var c := value[i];
      EncodeFrom(value, i);
      Assoc(escaped, EncodeChar(c), Encode(value[i + 1..]));
      EncodedCharIs(c);
      if IsAlnum(c) || c == '-' || c == '_' || c == '.' || c == '!' || c == '~' || c == '*' || c == '\'' ||
         c == '(' || c == ')' {
        escaped := escaped + [c];
      } else {
        escaped := escaped + ['%', Digit(c as int / 16, true), Digit(c as int % 16, true)];
      }
      i := i + 1;
    }
    assert value[i..] == [];
    PlusNothing(escaped);
    NothingEncodes();
  }

  lemma NothingEncodes()
    ensures Encode("") == ""
  {}

  lemma EncodeFrom(value: string, i: nat)
    requires IsBytes(value) && i < |value|
    ensures Encode(value[i..]) == EncodeChar(value[i]) + Encode(value[i + 1..])
  {
    assert value[i..][1..] == value[i + 1..];
  }

  lemma EncodedCharIs(c: char)
    requires c as int < 256
    ensures
      var kept :=
        || IsAlnum(c) || c == '-' || c == '_' || c == '.' || c == '!' || c == '~'
        || c == '*' || c == '\'' || c == '(' || c == ')';
      EncodeChar(c) == if kept then [c] else ['%', Digit(c as int / 16, true), Digit(c as int % 16, true)]
  {}

  predicate HexAt(s: string, i: nat, count: nat)
  {
    i + count <= |s| && forall k | i <= k < i + count :: IsHexDigit(s[k])
  }

  function HexValue(s: string, i: nat, count: nat): (v: nat)
    requires HexAt(s, i, count)
  {
    assert forall c | c in s[i..i + count] :: IsHexDigit(c);
    FromBase(s[i..i + count], 16)
  }

  /** `from_hex_to_i`: fails at the end of the text and at anything but a hexadecimal digit. */
  method FromHexToI(s: string, start: nat, count: nat) returns (ok: bool, val: nat)
    requires count > 0
    ensures ok == HexAt(s, start, count)
    ensures ok ==> val == HexValue(s, start, count)
  {
    val := 0;
    if start >= |s| {
      return false, 0;
    }
    var i, left := start, count;
    while left > 0
      invariant i + left == start + count && start <= i <= |s|
      invariant HexAt(s, start, i - start) && val == HexValue(s, start, i - start)
      decreases left
    {
      if i == |s| || s[i] == '\0' {
        return false, val;
      }
      if !IsHexDigit(s[i]) {
        return false, val;
      }
      assert s[start..i + 1][..i - start] == s[start..i];
      val := val * 16 + DigitValue(s[i]);
      i, left := i + 1, left - 1;
    }
    return true, val;
  }

  function Byte(n: nat): (c: char)
    requires n < 256
    ensures c as int == n
  {
    n as char
  }

  /** `to_utf8` */
  function ToUtf8(code: nat): (s: string)
    ensures IsBytes(s)
  {
    if code < 0x80 then [Byte(code % 0x80)]
    else if code < 0x800 then [Byte(0xC0 + code / 64 % 32), Byte(0x80 + code % 64)]
    else if 0xD800 <= code < 0xE000 then []
    else if code < 0x10000 then [Byte(0xE0 + code / 4096 % 16), Byte(0x80 + code / 64 % 64), Byte(0x80 + code % 64)]
    else if code < 0x110000 then
      [Byte(0xF0 + code / 262144 % 8), Byte(0x80 + code / 4096 % 64), Byte(0x80 + code / 64 % 64),
       Byte(0x80 + code % 64)]
    else []
  }

  predicate IsTail(s: string, i: nat) { i < |s| && 0x80 <= s[i] as int < 0xC0 }

  function TailBits(s: string, i: nat): nat
    requires IsTail(s, i)
  {
    s[i] as int - 0x80
  }

  /** The first character of a UTF-8 text and its length, after section 3 of RFC 3629; the length is
      0 when the text does not start with a well-formed character. */
  function FromUtf8(s: string): (r: (nat, nat))
    ensures r.1 <= |s|
  {
    var malformed := (0, 0);
    if s == [] then malformed
    else
      var b := s[0] as int;
      if b < 0x80 then (b, 1)
      else if 0xC0 <= b < 0xE0 && IsTail(s, 1) then
        var code := (b - 0xC0) * 64 + TailBits(s, 1);
        if 0x80 <= code then (code, 2) else malformed
      else if 0xE0 <= b < 0xF0 && IsTail(s, 1) && IsTail(s, 2) then
        var code := (b - 0xE0) * 4096 + TailBits(s, 1) * 64 + TailBits(s, 2);
        if 0x800 <= code && !(0xD800 <= code < 0xE000) then (code, 3) else malformed
      else if 0xF0 <= b < 0xF8 && IsTail(s, 1) && IsTail(s, 2) && IsTail(s, 3) then
        var code := (b - 0xF0) * 262144 + TailBits(s, 1) * 4096 + TailBits(s, 2) * 64 + TailBits(s, 3);
        if 0x10000 <= code < 0x110000 then (code, 4) else malformed
      else malformed
  }

  lemma Base64Digits(code: nat)
    ensures code < 4096 ==> code == code / 64 * 64 + code % 64
    ensures code < 262144 ==> code == code / 4096 * 4096 + code / 64 % 64 * 64 + code % 64
    ensures code == code / 262144 * 262144 + code / 4096 % 64 * 4096 + code / 64 % 64 * 64 + code % 64
  {
    assert code / 64 / 64 == code / 4096 && code / 4096 / 64 == code / 262144;
    var a := code / 64;
    var b := code / 4096;
    assert code == a * 64 + code % 64;
    assert a == b * 64 + a % 64;
    assert b == code / 262144 * 64 + b % 64;
  }

  lemma OneOrTwoBytes(code: nat)
    requires code < 0x800
    ensures FromUtf8(ToUtf8(code)) == (code, |ToUtf8(code)|) && ToUtf8(code) != []
  {
    Base64Digits(code);
  }

  lemma ThreeBytes(code: nat)
    requires 0x800 <= code < 0x10000 && !(0xD800 <= code < 0xE000)
    ensures FromUtf8(ToUtf8(code)) == (code, 3) && |ToUtf8(code)| == 3
  {
    Base64Digits(code);
  }

  lemma FourBytes(code: nat)
    requires 0x10000 <= code < 0x110000
    ensures FromUtf8(ToUtf8(code)) == (code, 4) && |ToUtf8(code)| == 4
  {
    Base64Digits(code);
  }

  lemma Bits(a: nat, d: nat)
    requires d < 64
    ensures (a * 64 + d) / 64 == a && (a * 64 + d) % 64 == d
  {}

  lemma TwoBack(a: nat, d: nat)
    requires a < 32 && d < 64 && 0x80 <= a * 64 + d
    ensures ToUtf8(a * 64 + d) == [Byte(0xC0 + a), Byte(0x80 + d)]
  {
    Bits(a, d);
  }

  lemma ThreeBack(a: nat, c: nat, d: nat)
    requires a < 16 && c < 64 && d < 64
    requires var code := a * 4096 + c * 64 + d; 0x800 <= code && !(0xD800 <= code < 0xE000)
    ensures ToUtf8(a * 4096 + c * 64 + d) == [Byte(0xE0 + a), Byte(0x80 + c), Byte(0x80 + d)]
  {
    var code := a * 4096 + c * 64 + d;
    Bits(a * 64 + c, d);
    Bits(a, c);
    assert code / 64 == a * 64 + c && code / 4096 == code / 64 / 64;
  }

  lemma FourBack(a: nat, b: nat, c: nat, d: nat)
    requires a < 8 && b < 64 && c < 64 && d < 64
    requires 0x10000 <= a * 262144 + b * 4096 + c * 64 + d < 0x110000
    ensures ToUtf8(a * 262144 + b * 4096 + c * 64 + d) ==
            [Byte(0xF0 + a), Byte(0x80 + b), Byte(0x80 + c), Byte(0x80 + d)]
  {
    var code := a * 262144 + b * 4096 + c * 64 + d;
    Bits((a * 64 + b) * 64 + c, d);
    Bits(a * 64 + b, c);
    Bits(a, b);
    assert code / 64 == (a * 64 + b) * 64 + c;
    assert code / 4096 == code / 64 / 64 && code / 262144 == code / 4096 / 64;
  }

  lemma ByteOf(c: char)
    requires c as int < 256
    ensures Byte(c as int) == c
  {}

  lemma TailByte(s: string, i: nat)
    requires IsTail(s, i)
    ensures TailBits(s, i) < 64 && Byte(0x80 + TailBits(s, i)) == s[i]
  {}

  /** The converse: every well-formed character is what `to_utf8` makes of its code. */
  lemma Utf8Unique(s: string)
    requires FromUtf8(s).1 > 0
    ensures ToUtf8(FromUtf8(s).0) == s[..FromUtf8(s).1]
  {
    hide ToUtf8;
    var n := FromUtf8(s).1;
    var b := s[0] as int;
    ByteOf(s[0]);
    if n == 1 {
      OneByte(b);
      assert s[..1] == [s[0]];
    } else {
      TailByte(s, 1);
      hide TailBits, IsTail, Byte;
      if n == 2 {
        TwoBack(b - 0xC0, TailBits(s, 1));
        assert s[..2] == [s[0], s[1]];
      } else if n == 3 {
        TailByte(s, 2);
        ThreeBack(b - 0xE0, TailBits(s, 1), TailBits(s, 2));
        assert s[..3] == [s[0], s[1], s[2]];
      } else {
        TailByte(s, 2);
        TailByte(s, 3);
        FourBack(b - 0xF0, TailBits(s, 1), TailBits(s, 2), TailBits(s, 3));
        assert s[..4] == [s[0], s[1], s[2], s[3]];
      }
    }
  }

  lemma OneByte(code: nat)
    requires code < 0x80
    ensures ToUtf8(code) == [Byte(code)]
  {}

  /** `to_utf8` is UTF-8: a strict reference decoder gets the code back; only surrogates and
      numbers outside the code space give nothing. */
  lemma Utf8IsUtf8(code: nat)
    ensures ToUtf8(code) == [] <==> 0xD800 <= code < 0xE000 || code >= 0x110000
    ensures ToUtf8(code) != [] ==> FromUtf8(ToUtf8(code)) == (code, |ToUtf8(code)|)
  {
    hide FromUtf8;
    if code < 0x800 {
      OneOrTwoBytes(code);
    } else if code < 0x10000 && !(0xD800 <= code < 0xE000) {
      ThreeBytes(code);
    } else if 0x10000 <= code < 0x110000 {
      FourBytes(code);
    }
  }

  function Decode(s: string, plus: bool): string
  {
    if s == [] then []
    else if s[0] == '%' && |s| > 1 then
      if s[1] == 'u' then
        if HexAt(s, 2, 4) then ToUtf8(HexValue(s, 2, 4)) + Decode(s[6..], plus) else ['%'] + Decode(s[1..], plus)
      else if HexAt(s, 1, 2) then [Byte(HexValue(s, 1, 2) % 256)] + Decode(s[3..], plus)
      else ['%'] + Decode(s[1..], plus)
    else [if plus && s[0] == '+' then ' ' else s[0]] + Decode(s[1..], plus)
  }

  /** `decode_url` */
  method DecodeUrl(s: string, plus: bool) returns (result: string)
    ensures result == Decode(s, plus)
  {
    hide HexValue, ToUtf8;
    result := "";
    var i := 0;
    assert s[0..] == s;
    PlusNothing(Decode(s, plus));
    while i < |s|
      invariant 0 <= i <= |s| && result + Decode(s[i..], plus) == Decode(s, plus)
    {
      DecodeUnfold(s, i, plus);
      if s[i] == '%' && i + 1 < |s| {
        if s[i + 1] == 'u' {
          var ok, val := FromHexToI(s, i + 2, 4);
          if ok {
            Assoc(result, ToUtf8(val), Decode(s[i + 6..], plus));
            result := result + ToUtf8(val);
            i := i + 5;
          } else {
            Assoc(result, [s[i]], Decode(s[i + 1..], plus));
            result := result + [s[i]];
          }
        } else {
          var ok, val := FromHexToI(s, i + 1, 2);
          if ok {
            Assoc(result, [Byte(val % 256)], Decode(s[i + 3..], plus));
            result := result + [Byte(val % 256)];
            i := i + 2;
          } else {
            Assoc(result, [s[i]], Decode(s[i + 1..], plus));
            result := result + [s[i]];
          }
        }
      } else if plus && s[i] == '+' {
        Assoc(result, [' '], Decode(s[i + 1..], plus));
        result := result + [' '];
      } else {
        Assoc(result, [s[i]], Decode(s[i + 1..], plus));
        result := result + [s[i]];
      }
      i := i + 1;
    }
    assert s[i..] == [];
    PlusNothing(result);
  }

  lemma HexShift(s: string, i: nat, k: nat, count: nat)
    requires i <= |s|
    ensures HexAt(s[i..], k, count) <==> HexAt(s, i + k, count)
    ensures HexAt(s[i..], k, count) ==> HexValue(s[i..], k, count) == HexValue(s, i + k, count)
  {
    if HexAt(s[i..], k, count) {
      assert forall j | i + k <= j < i + k + count :: s[j] == s[i..][j - i];
      assert s[i..][k..k + count] == s[i + k..i + k + count];
    }
    if HexAt(s, i + k, count) {
      assert forall j | k <= j < k + count :: s[i..][j] == s[i + j];
    }
  }

  lemma DecodeUnfold(s: string, i: nat, plus: bool)
    requires i < |s|
    ensures Decode(s[i..], plus) ==
      if s[i] == '%' && i + 1 < |s| then
        if s[i + 1] == 'u' then
          if HexAt(s, i + 2, 4) then ToUtf8(HexValue(s, i + 2, 4)) + Decode(s[i + 6..], plus)
          else ['%'] + Decode(s[i + 1..], plus)
        else if HexAt(s, i + 1, 2) then [Byte(HexValue(s, i + 1, 2) % 256)] + Decode(s[i + 3..], plus)
        else ['%'] + Decode(s[i + 1..], plus)
      else [if plus && s[i] == '+' then ' ' else s[i]] + Decode(s[i + 1..], plus)
  {
    hide HexValue, ToUtf8;
    var t := s[i..];
    HexShift(s, i, 2, 4);
    HexShift(s, i, 1, 2);
    assert t[1..] == s[i + 1..];
    assert |t| >= 6 ==> t[6..] == s[i + 6..];
    assert |t| >= 3 ==> t[3..] == s[i + 3..];
  }

  lemma DecodeOne(c: char, t: string, plus: bool)
    requires c as int < 256
    ensures Decode(EncodeChar(c) + t, plus) == [c] + Decode(t, plus)
  {
    var s := EncodeChar(c) + t;
    if IsKept(c) {
      assert s[1..] == t;
    } else {
      var hi, lo := Digit(c as int / 16, true), Digit(c as int % 16, true);
      assert s == ['%', hi, lo] + t;
      DecodeEscape(hi, lo, t, plus);
    }
  }

  lemma DecodeEscape(hi: char, lo: char, t: string, plus: bool)
    requires IsHexDigit(hi) && IsHexDigit(lo)
    ensures Decode(['%', hi, lo] + t, plus) == [Byte(DigitValue(hi) * 16 + DigitValue(lo))] + Decode(t, plus)
  {
    hide FromBase, ToUtf8;
    var s := ['%', hi, lo] + t;
    assert s[1] == hi && s[2] == lo && s[3..] == t && s[1..3] == [hi, lo];
    TwoDigits(hi, lo);
    assert HexAt(s, 1, 2) && HexValue(s, 1, 2) == DigitValue(hi) * 16 + DigitValue(lo);
  }

  lemma TwoDigits(hi: char, lo: char)
    requires IsHexDigit(hi) && IsHexDigit(lo)
    ensures AllDigits([hi, lo], 16) && FromBase([hi, lo], 16) == DigitValue(hi) * 16 + DigitValue(lo)
  {
    assert forall c | c in [hi, lo] :: c == hi || c == lo;
    assert [hi, lo][..1] == [hi] && [hi][..0] == [];
    assert FromBase([hi], 16) == DigitValue(hi);
  }

  /** Decoding undoes encoding, for every byte string and either treatment of `+`. */
  lemma {:induction false} DecodeEncode(v: string, plus: bool)
    requires IsBytes(v)
    ensures Decode(Encode(v), plus) == v
  {
    if v != [] {
      DecodeEncode(v[1..], plus);
      DecodeOne(v[0], Encode(v[1..]), plus);
    }
  }

  // ----- splitting -----

  function KeepPiece(s: string): seq<string>
  {
    if Trim(s) == [] then [] else [Trim(s)]
  }

  function IndexOfChar(s: string, d: char): (n: nat)
    ensures n <= |s| && (n < |s| ==> s[n] == d) && d !in s[..n]
  {
    if s == [] || s[0] == d then 0 else 1 + IndexOfChar(s[1..], d)
  }

  /** The trimmed, non-empty pieces between delimiters. */
  function Split(s: string, d: char): seq<string>
  {
    var n := IndexOfChar(s, d);
    KeepPiece(s[..n]) + (if n < |s| then Split(s[n + 1..], d) else [])
  }

  /** `trim` inside `split`: bounds of the piece without blanks, crossed when nothing is left. */
  method TrimBounds(s: string, beg: nat, end: nat) returns (left: nat, right: nat)
    requires beg <= end <= |s|
    ensures left < right ==> beg <= left && right <= end && s[left..right] == Trim(s[beg..end])
    ensures left >= right ==> Trim(s[beg..end]) == []
  {
    left, right := beg, end;
    while left < |s| && IsSpaceOrTab(s[left])
      invariant beg <= left <= |s|
      invariant forall k | beg <= k < left :: IsSpaceOrTab(s[k])
    {
      left := left + 1;
    }
    while right > 0 && IsSpaceOrTab(s[right - 1])
      invariant 0 <= right <= end
      invariant forall k | right <= k < end :: IsSpaceOrTab(s[k])
    {
      right := right - 1;
    }
    TrimIs(s, beg, end, left, right);
  }

  lemma {:induction false} TrimLeftIs(s: string, k: nat)
    requires k <= |s| && (forall i | 0 <= i < k :: IsSpaceOrTab(s[i])) && (k < |s| ==> !IsSpaceOrTab(s[k]))
    ensures TrimLeft(s) == s[k..]
  {
    if k > 0 {
      assert forall i | 0 <= i < k - 1 :: s[1..][i] == s[i + 1];
      TrimLeftIs(s[1..], k - 1);
      assert s[1..][k - 1..] == s[k..];
    }
  }

  lemma {:induction false} TrimRightIs(s: string, k: nat)
    requires k <= |s| && (forall i | k <= i < |s| :: IsSpaceOrTab(s[i])) && (k > 0 ==> !IsSpaceOrTab(s[k - 1]))
    ensures TrimRight(s) == s[..k]
  {
    if k < |s| {
      TrimRightIs(s[..|s| - 1], k);
      assert s[..|s| - 1][..k] == s[..k];
    } else {
      assert s[..k] == s;
    }
  }

  lemma TrimIs(s: string, beg: nat, end: nat, left: nat, right: nat)
    requires beg <= end <= |s| && beg <= left <= |s| && right <= end
    requires (forall k | beg <= k < left :: IsSpaceOrTab(s[k])) && (left < |s| ==> !IsSpaceOrTab(s[left]))
    requires (forall k | right <= k < end :: IsSpaceOrTab(s[k])) && (right > 0 ==> !IsSpaceOrTab(s[right - 1]))
    ensures left < right ==> s[left..right] == Trim(s[beg..end])
    ensures left >= right ==> Trim(s[beg..end]) == []
  {
    hide TrimLeft, TrimRight;
    var piece := s[beg..end];
    if left < right {
      TrimLeftIs(piece, left - beg);
      assert piece[left - beg..] == s[left..end];
      TrimRightIs(s[left..end], right - left);
      assert s[left..end][..right - left] == s[left..right];
    } else {
      assert left >= end || right <= beg;
      assert forall k | 0 <= k < |piece| :: IsSpaceOrTab(piece[k]);
      TrimLeftIs(piece, |piece|);
      assert piece[|piece|..] == [];
      TrimRightIs([], 0);
    }
  }

  method AddPiece(s: string, beg: nat, end: nat, pieces: seq<string>) returns (more: seq<string>)
    requires beg <= end <= |s|
    ensures more == pieces + KeepPiece(s[beg..end])
  {
    hide Trim;
    var left, right := TrimBounds(s, beg, end);
    if left < right {
      more := pieces + [s[left..right]];
    } else {
      more := pieces;
      PlusNothing(pieces);
    }
  }

  /** `split`: the pieces in the order in which the callback gets them. */
  method SplitText(s: string, d: char) returns (pieces: seq<string>)
    ensures pieces == Split(s, d)
  {
    hide KeepPiece, Split;
    pieces := [];
    var i, beg := 0, 0;
    assert s[0..] == s;
    PlusNothing(Split(s, d));
    while i < |s|
      invariant 0 <= beg <= i <= |s| && forall k | beg <= k < i :: s[k] != d
      invariant pieces + Split(s[beg..], d) == Split(s, d)
    {
      if s[i] == d {
        SplitAt(s, beg, i, d);
        Assoc(pieces, KeepPiece(s[beg..i]), Split(s[i + 1..], d));
        pieces := AddPiece(s, beg, i, pieces);
        beg := i + 1;
      }
      i := i + 1;
    }
    LastPiece(s, beg, d);
    if i > 0 {
      pieces := AddPiece(s, beg, i, pieces);
    } else {
      PlusNothing(pieces);
    }
  }

  lemma {:induction false} IndexIs(s: string, d: char, n: nat)
    requires n <= |s| && d !in s[..n] && (n < |s| ==> s[n] == d)
    ensures IndexOfChar(s, d) == n
  {
    if n > 0 {
      assert s[0] in s[..n];
      assert s[1..][..n - 1] == s[1..n] && forall c | c in s[1..n] :: c in s[..n];
      IndexIs(s[1..], d, n - 1);
    }
  }

  lemma SplitAt(s: string, beg: nat, i: nat, d: char)
    requires beg <= i < |s| && s[i] == d && forall k | beg <= k < i :: s[k] != d
    ensures Split(s[beg..], d) == KeepPiece(s[beg..i]) + Split(s[i + 1..], d)
  {
    hide KeepPiece;
    var t := s[beg..];
    assert t[..i - beg] == s[beg..i] && t[i - beg] == d && t[i - beg + 1..] == s[i + 1..];
    IndexIs(t, d, i - beg);
  }

  lemma LastPiece(s: string, beg: nat, d: char)
    requires beg <= |s| && forall k | beg <= k < |s| :: s[k] != d
    ensures Split(s[beg..], d) == KeepPiece(s[beg..]) && s[beg..|s|] == s[beg..]
    ensures s == [] ==> KeepPiece(s[beg..]) == []
  {
    var t := s[beg..];
    assert t[..|t|] == t;
    IndexIs(t, d, |t|);
    PlusNothing(KeepPiece(t));
  }

  // ----- query strings -----

  type Pair = (string, string)

  /** The entries of a `std::multimap`, in order; an entry goes after those with its key. */
  class Params {
    var entries: seq<Pair>

    constructor ()
      ensures entries == []
    {
      entries := [];
    }

    method Emplace(key: string, value: string)
      modifies this
      ensures entries == Emplaced(old(entries), key, value)
    {
      entries := Emplaced(entries, key, value);
    }
  }

  function Emplaced(entries: seq<Pair>, key: string, value: string): seq<Pair>
  {
    if entries == [] || Order(key, entries[0].0) < 0 then [(key, value)] + entries
    else [entries[0]] + Emplaced(entries[1..], key, value)
  }

  predicate ValuesAreBytes(entries: seq<Pair>) { forall p | p in entries :: IsBytes(p.1) }

  function PairText(p: Pair): string
    requires IsBytes(p.1)
  {
    p.0 + "=" + Encode(p.1)
  }

  function QueryText(entries: seq<Pair>): string
    requires ValuesAreBytes(entries)
  {
    if entries == [] then ""
    else
      assert forall p | p in entries[1..] :: p in entries;
      PairText(entries[0]) + (if |entries| > 1 then "&" + QueryText(entries[1..]) else "")
  }

  /** `params_to_query_str` */
  method ParamsToQueryStr(params: Params) returns (query: string)
    requires ValuesAreBytes(params.entries)
    ensures query == QueryText(params.entries)
  {
    hide Encode;
    var entries := params.entries;
    query := "";
    var i := 0;
    assert entries[0..] == entries;
    while i < |entries|
      invariant 0 <= i <= |entries|
      invariant ValuesAreBytes(entries[i..])
      invariant i < |entries| ==>
        query + (if i > 0 then "&" else "") + QueryText(entries[i..]) == QueryText(entries)
      invariant i == |entries| ==> query == QueryText(entries)
    {
      var rest := entries[i..];
      assert rest[0] == entries[i] && rest[1..] == entries[i + 1..] && entries[i] in entries;
      assert forall p | p in rest[1..] :: p in rest;
      ghost var before := query + (if i > 0 then "&" else "");
      if i > 0 {
        query := query + "&";
      } else {
        PlusNothing(query);
      }
      var encoded := EncodeQueryParam(entries[i].1);
      query := query + entries[i].0;
      query := query + "=";
      query := query + encoded;
      assert query == before + PairText(entries[i]) by {
        assert before + (entries[i].0 + "=" + encoded) == before + entries[i].0 + "=" + encoded;
      }
      if i + 1 < |entries| {
        Assoc(before, PairText(entries[i]), "&" + QueryText(rest[1..]));
        Assoc(query, "&", QueryText(rest[1..]));
      } else {
        PlusNothing(PairText(entries[i]));
      }
      i := i + 1;
    }
  }

  /** Key and value of one piece: the first part and the last of the others. */
  function KeyValue(pieces: seq<string>): Pair
  {
    if pieces == [] then ("", "") else (pieces[0], if |pieces| > 1 then pieces[|pieces| - 1] else "")
  }

  /** What the pieces of a query text add, given the pieces seen before. */
  function Absorbed(entries: seq<Pair>, seen: set<string>, pieces: seq<string>): seq<Pair>
    decreases |pieces|
  {
    if pieces == [] then entries
    else if pieces[0] in seen then Absorbed(entries, seen, pieces[1..])
    else
      var (key, value) := KeyValue(Split(pieces[0], '='));
      var entries' := if key != "" then Emplaced(entries, Decode(key, true), Decode(value, true)) else entries;
      Absorbed(entries', seen + {pieces[0]}, pieces[1..])
  }

  lemma KeptNotEmpty(s: string)
    ensures forall p | p in KeepPiece(s) :: p != ""
  {
    hide Trim;
  }

  lemma {:induction false} PiecesNotEmpty(s: string, d: char)
    ensures forall p | p in Split(s, d) :: p != ""
  {
    hide KeepPiece;
    var n := IndexOfChar(s, d);
    KeptNotEmpty(s[..n]);
    if n < |s| {
      PiecesNotEmpty(s[n + 1..], d);
    }
  }

  /** The callback that takes the parts of one piece: the first becomes the key, each later one the
      value. */
  method TakeParts(kv: string) returns (key: string, val: string)
    ensures (key, val) == KeyValue(Split(kv, '='))
  {
    hide Split;
    key, val := "", "";
    var parts := SplitText(kv, '=');
    PiecesNotEmpty(kv, '=');
    var j := 0;
    while j < |parts|
      invariant 0 <= j <= |parts|
      invariant j == 0 ==> key == "" && val == ""
      invariant j > 0 ==> key == parts[0] && val == if j > 1 then parts[j - 1] else ""
    {
      assert parts[j] in parts && parts[0] in parts;
      if key == "" {
        key := parts[j];
      } else {
        val := parts[j];
      }
      j := j + 1;
    }
  }

  /** `parse_query_text` */
  method ParseQueryText(s: string, params: Params)
    modifies params
    ensures params.entries == Absorbed(old(params.entries), {}, Split(s, '&'))
  {
    hide Split, Decode, KeyValue, Emplaced;
    var cache: set<string> := {};
    var pieces := SplitText(s, '&');
    var i := 0;
    assert pieces[0..] == pieces;
    while i < |pieces|
      invariant 0 <= i <= |pieces|
      invariant Absorbed(params.entries, cache, pieces[i..]) == Absorbed(old(params.entries), {}, pieces)
    {
      assert pieces[i..][1..] == pieces[i + 1..];
      var kv := pieces[i];
      if kv !in cache {
        cache := cache + {kv};
        var key, val := TakeParts(kv);
        if key != "" {
          var k := DecodeUrl(key, true);
          var v := DecodeUrl(val, true);
          params.Emplace(k, v);
        }
      }
      i := i + 1;
    }
    assert pieces[i..] == [];
  }

  // ----- the round trip -----

  predicate IsKeyChar(c: char) { IsAlnum(c) || c == '-' || c == '_' }

  predicate PlainKey(key: string) { key != "" && forall c | c in key :: IsKeyChar(c) }

  predicate Sorted(entries: seq<Pair>)
  {
    forall i, j | 0 <= i < j < |entries| :: Order(entries[j].0, entries[i].0) >= 0
  }

  /** The entries without repetitions of identical pairs. */
  function Merged(entries: seq<Pair>): seq<Pair>
  {
    if entries == [] then []
    else
      var n := |entries| - 1;
      if entries[n] in entries[..n] then Merged(entries[..n]) else Merged(entries[..n]) + [entries[n]]
  }

  lemma {:induction false} EncodedChars(v: string)
    requires IsBytes(v)
    ensures forall c | c in Encode(v) :: IsKept(c) || c == '%'
  {
    if v != [] {
      EncodedChars(v[1..]);
      var d0, d1 := Digit(v[0] as int / 16, true), Digit(v[0] as int % 16, true);
      assert IsKept(d0) && IsKept(d1);
    }
  }

  lemma {:induction false} PlainDecodes(key: string)
    requires forall c | c in key :: IsKeyChar(c)
    ensures Decode(key, true) == key
  {
    if key != "" {
      assert key[0] in key;
      PlainDecodes(key[1..]);
    }
  }

  lemma TrimmedPiece(s: string)
    requires s != "" && !IsSpaceOrTab(s[0]) && !IsSpaceOrTab(s[|s| - 1])
    ensures KeepPiece(s) == [s]
  {
    TrimTrimmed(s);
  }

  /** The parts of a pair's text. */
  lemma PairSplits(p: Pair)
    requires PlainKey(p.0) && IsBytes(p.1)
    ensures Split(PairText(p), '=') == [p.0] + (if p.1 == "" then [] else [Encode(p.1)])
  {
    hide Encode, KeepPiece, Split;
    EncodedChars(p.1);
    EncodedNothing(p.1);
    KeyAndRest(p.0, Encode(p.1));
  }

  lemma KeyAndRest(key: string, value: string)
    requires PlainKey(key) && forall c | c in value :: IsKept(c) || c == '%'
    ensures Split(key + "=" + value, '=') == [key] + (if value == "" then [] else [value])
  {
    hide KeepPiece, Split, IsKeyChar, IsKept;
    NoEquals(key, value);
    var text := key + "=" + value;
    assert forall k | 0 <= k < |key| :: text[k] == key[k];
    assert text[|key|] == '=' && text[|key| + 1..] == value;
    assert text[0..] == text && text[0..|key|] == key;
    SplitAt(text, 0, |key|, '=');
    TrimmedPiece(key);
    assert value[0..] == value;
    LastPiece(value, 0, '=');
    if value != "" {
      TrimmedPiece(value);
    }
  }

  lemma NoEquals(key: string, value: string)
    requires PlainKey(key) && forall c | c in value :: IsKept(c) || c == '%'
    ensures forall k | 0 <= k < |key| :: key[k] != '=' && !IsSpaceOrTab(key[k])
    ensures forall k | 0 <= k < |value| :: value[k] != '=' && !IsSpaceOrTab(value[k])
  {
    assert forall k | 0 <= k < |key| :: key[k] in key;
    assert forall k | 0 <= k < |value| :: value[k] in value;
  }

  lemma EncodedNothing(v: string)
    requires IsBytes(v)
    ensures Encode(v) == "" <==> v == ""
  {}

  /** One pair comes back from its text. */
  lemma PairBack(p: Pair)
    requires PlainKey(p.0) && IsBytes(p.1)
    ensures
      var (key, value) := KeyValue(Split(PairText(p), '='));
      key != "" && (Decode(key, true), Decode(value, true)) == p
  {
    hide Encode, Decode, Split, PairText;
    PairSplits(p);
    PlainDecodes(p.0);
    DecodeEncode(p.1, true);
    NothingDecodes();
  }

  lemma NothingDecodes()
    ensures Decode("", true) == ""
  {}

  function PairTexts(entries: seq<Pair>): (r: seq<string>)
    requires ValuesAreBytes(entries)
    ensures |r| == |entries|
    ensures forall i | 0 <= i < |entries| :: entries[i] in entries && r[i] == PairText(entries[i])
  {
    if entries == [] then []
    else
      assert forall p | p in entries[1..] :: p in entries;
      [PairText(entries[0])] + PairTexts(entries[1..])
  }

  predicate PlainKeys(entries: seq<Pair>) { forall p | p in entries :: PlainKey(p.0) }

  lemma PairTextPiece(p: Pair)
    requires PlainKey(p.0) && IsBytes(p.1)
    ensures '&' !in PairText(p) && KeepPiece(PairText(p)) == [PairText(p)]
  {
    hide Encode, KeepPiece;
    EncodedChars(p.1);
    var text := PairText(p);
    assert text[0] == p.0[0] && p.0[0] in p.0;
    assert forall c | c in Encode(p.1) :: c != '&' && !IsSpaceOrTab(c);
    assert text[|text| - 1] == '=' || text[|text| - 1] in Encode(p.1);
    TrimmedPiece(text);
  }

  lemma SplitFirst(text: string, later: string)
    requires '&' !in text && KeepPiece(text) == [text]
    ensures Split(text + "&" + later, '&') == [text] + Split(later, '&')
    ensures Split(text, '&') == [text]
  {
    hide KeepPiece, Split;
    var whole := text + "&" + later;
    assert forall k | 0 <= k < |text| :: text[k] in text && whole[k] == text[k];
    assert whole[0..] == whole && whole[0..|text|] == text && whole[|text|] == '&' && whole[|text| + 1..] == later;
    SplitAt(whole, 0, |text|, '&');
    assert text[0..] == text;
    LastPiece(text, 0, '&');
  }

  lemma NothingSplits()
    ensures Split("", '&') == []
  {
    LastPiece("", 0, '&');
    assert ""[0..] == "";
  }

  /** Splitting a query text gives the texts of its pairs. */
  lemma {:induction false} QuerySplits(entries: seq<Pair>)
    requires ValuesAreBytes(entries) && PlainKeys(entries)
    ensures Split(QueryText(entries), '&') == PairTexts(entries)
  {
    hide PairText, KeepPiece, Split, PlainKey, IsBytes;
    if entries == [] {
      NothingSplits();
    } else {
      var first, rest := entries[0], entries[1..];
      assert first in entries && forall p | p in rest :: p in entries;
      PairTextPiece(first);
      var text := PairText(first);
      if rest == [] {
        PlusNothing(text);
        SplitFirst(text, "");
      } else {
        Assoc(text, "&", QueryText(rest));
        SplitFirst(text, QueryText(rest));
        QuerySplits(rest);
      }
    }
  }

  lemma {:induction false} EmplacedLast(entries: seq<Pair>, key: string, value: string)
    requires forall i | 0 <= i < |entries| :: Order(key, entries[i].0) >= 0
    ensures Emplaced(entries, key, value) == entries + [(key, value)]
  {
    if entries != [] {
      assert forall i | 0 <= i < |entries| - 1 :: entries[1..][i] == entries[i + 1];
      EmplacedLast(entries[1..], key, value);
    }
  }

  lemma {:induction false} MergedMembers(entries: seq<Pair>)
    ensures forall p :: p in Merged(entries) <==> p in entries
  {
    if entries != [] {
      var n := |entries| - 1;
      MergedMembers(entries[..n]);
      assert entries == entries[..n] + [entries[n]];
    }
  }

  /** Absorbing the text of the next pair. */
  lemma AbsorbNext(done: seq<Pair>, p: Pair, seen: set<string>, later: seq<string>)
    requires PlainKey(p.0) && IsBytes(p.1)
    requires forall i | 0 <= i < |done| :: Order(p.0, done[i].0) >= 0
    requires PairText(p) in seen <==> p in done
    ensures Absorbed(Merged(done), seen, [PairText(p)] + later) ==
            Absorbed(Merged(done + [p]), seen + {PairText(p)}, later)
  {
    hide Split, Decode, PairText, Order, Absorbed;
    var text := PairText(p);
    PairBack(p);
    AbsorbedUnfold(Merged(done), seen, text, later);
    assert (done + [p])[..|done|] == done;
    if p in done {
      assert seen + {text} == seen;
    } else {
      MergedMembers(done);
      forall k | 0 <= k < |Merged(done)| ensures Order(p.0, Merged(done)[k].0) >= 0 {
        assert Merged(done)[k] in Merged(done);
      }
      EmplacedLast(Merged(done), p.0, p.1);
    }
  }

  lemma AbsorbedUnfold(entries: seq<Pair>, seen: set<string>, text: string, later: seq<string>)
    ensures Absorbed(entries, seen, [text] + later) ==
      if text in seen then Absorbed(entries, seen, later)
      else
        var (key, value) := KeyValue(Split(text, '='));
        var entries' := if key != "" then Emplaced(entries, Decode(key, true), Decode(value, true)) else entries;
        Absorbed(entries', seen + {text}, later)
  {
    hide Split, Decode, Emplaced;
    assert ([text] + later)[1..] == later;
  }

  /** The texts of the first `i` pairs have been absorbed. */
  lemma {:induction false} AbsorbFrom(entries: seq<Pair>, i: nat, seen: set<string>)
    requires i <= |entries| && ValuesAreBytes(entries) && PlainKeys(entries) && Sorted(entries)
    requires seen == set k | 0 <= k < i :: PairTexts(entries)[k]
    ensures Absorbed(Merged(entries[..i]), seen, PairTexts(entries)[i..]) == Merged(entries)
    decreases |entries| - i
  {
    hide Absorbed, Merged, PairText, Order, PairTexts;
    var texts := PairTexts(entries);
    if i == |entries| {
      assert entries[..i] == entries && texts[i..] == [];
      NothingAbsorbed(Merged(entries), seen);
    } else {
      var p, done := entries[i], entries[..i];
      assert p in entries && texts[i] == PairText(p) && texts[i..] == [PairText(p)] + texts[i + 1..];
      SeenMeans(entries, i, seen);
      AbsorbNext(done, p, seen, texts[i + 1..]);
      assert entries[..i + 1] == done + [p];
      assert (set k | 0 <= k < i + 1 :: texts[k]) == seen + {texts[i]};
      AbsorbFrom(entries, i + 1, seen + {texts[i]});
    }
  }

  lemma NothingAbsorbed(entries: seq<Pair>, seen: set<string>)
    ensures Absorbed(entries, seen, []) == entries
  {}

  lemma SameText(p: Pair, q: Pair)
    requires PlainKey(p.0) && IsBytes(p.1) && PlainKey(q.0) && IsBytes(q.1) && PairText(p) == PairText(q)
    ensures p == q
  {
    hide Split, Decode, PairText, PlainKey, IsBytes;
    PairBack(p);
    PairBack(q);
  }

  lemma PlainPair(entries: seq<Pair>, i: nat)
    requires ValuesAreBytes(entries) && PlainKeys(entries) && i < |entries|
    ensures PlainKey(entries[i].0) && IsBytes(entries[i].1) && PairTexts(entries)[i] == PairText(entries[i])
  {
    hide PlainKey, IsBytes, PairText;
    assert entries[i] in entries;
  }

  /** A pair's text has been seen exactly when the pair has. */
  lemma SeenMeans(entries: seq<Pair>, i: nat, seen: set<string>)
    requires i < |entries| && ValuesAreBytes(entries) && PlainKeys(entries)
    requires seen == set k | 0 <= k < i :: PairTexts(entries)[k]
    ensures PairTexts(entries)[i] in seen <==> entries[i] in entries[..i]
  {
    hide PairText, PlainKey, IsBytes, ValuesAreBytes, PlainKeys, PairTexts;
    var texts := PairTexts(entries);
    PlainPair(entries, i);
    if texts[i] in seen {
      var k :| 0 <= k < i && texts[k] == texts[i];
      PlainPair(entries, k);
      SameText(entries[k], entries[i]);
      assert entries[..i][k] == entries[i];
    }
    if entries[i] in entries[..i] {
      var k :| 0 <= k < i && entries[..i][k] == entries[i];
      PlainPair(entries, k);
      assert texts[k] == texts[i];
    }
  }

  /** A query text is read back as the parameters it was made from, with repeated identical
      pairs merged. */
  lemma QueryBack(entries: seq<Pair>)
    requires ValuesAreBytes(entries) && PlainKeys(entries) && Sorted(entries)
    ensures Absorbed([], {}, Split(QueryText(entries), '&')) == Merged(entries)
  {
    hide Split, QueryText, Absorbed;
    QuerySplits(entries);
    assert entries[..0] == [] && PairTexts(entries)[0..] == PairTexts(entries);
    AbsorbFrom(entries, 0, {});
  }
}
