/** Characters, strings and numerals as the C library treats them, in the C locale. */
module CLibrary {

  /** `isspace` */
  predicate IsSpace(c: char) { c == ' ' || 9 <= c as int <= 13 }

  /** `tolower` */
  function Lower(c: char): char
  {
    if 'A' <= c <= 'Z' then (c as int + 32) as char else c
  }

  /** The part of a buffer before the first NUL. */
  function CString(s: string): string
  {
    s[..Span((c: char) => c != '\0', s)]
  }

  /** Three-way comparison of two character sequences. */
  function Order(a: string, b: string): int
  {
    if a == [] && b == [] then 0
    else if a == [] then -1
    else if b == [] then 1
    else if a[0] < b[0] then -1
    else if a[0] > b[0] then 1
    else Order(a[1..], b[1..])
  }

  lemma {:induction false} OrderZero(a: string, b: string)
    ensures Order(a, b) == 0 <==> a == b
  {
    if a != [] && b != [] && a[0] == b[0] {
      OrderZero(a[1..], b[1..]);
      assert a == [a[0]] + a[1..] && b == [b[0]] + b[1..];
    }
  }

  predicate IsDigit(c: char) { '0' <= c <= '9' }

  /** `isalpha` */
  predicate IsAlpha(c: char) { 'a' <= c <= 'z' || 'A' <= c <= 'Z' }

  /** `isalnum` */
  predicate IsAlnum(c: char) { IsAlpha(c) || IsDigit(c) }

  predicate IsHexDigit(c: char) { IsDigit(c) || 'a' <= c <= 'f' || 'A' <= c <= 'F' }

  function DigitValue(c: char): (d: nat)
    requires IsHexDigit(c)
    ensures d < 16 && (IsDigit(c) ==> d < 10)
  {
    if IsDigit(c) then c as int - '0' as int
    else if 'a' <= c <= 'f' then c as int - 'a' as int + 10
    else c as int - 'A' as int + 10
  }

  function Digit(d: nat, upper: bool): (c: char)
    requires d < 16
    ensures IsHexDigit(c) && DigitValue(c) == d && (d < 10 ==> IsDigit(c))
  {
    if upper then "0123456789ABCDEF"[d] else "0123456789abcdef"[d]
  }

  /** The digits of `n`, most significant first, without leading zeros. */
  function ToBase(n: nat, base: nat, upper: bool): (s: string)
    requires base == 10 || base == 16
    ensures |s| > 0
  {
    if n < base then [Digit(n, upper)] else ToBase(n / base, base, upper) + [Digit(n % base, upper)]
  }

  predicate AllDigits(s: string, base: nat)
  {
    forall c | c in s :: if base == 10 then IsDigit(c) else IsHexDigit(c)
  }

  /** The number a digit string denotes. */
  function FromBase(s: string, base: nat): nat
    requires base == 10 || base == 16
    requires AllDigits(s, base)
  {
    if s == [] then 0
    else FromBase(s[..|s| - 1], base) * base + DigitValue(s[|s| - 1])
  }

  lemma {:induction false} ToBaseRoundTrip(n: nat, base: nat, upper: bool)
    requires base == 10 || base == 16
    ensures AllDigits(ToBase(n, base, upper), base)
    ensures FromBase(ToBase(n, base, upper), base) == n
  {
    if n < base {
      assert ToBase(n, base, upper) == [Digit(n, upper)];
    } else {
      ToBaseRoundTrip(n / base, base, upper);
      var front, last := ToBase(n / base, base, upper), Digit(n % base, upper);
      assert (front + [last])[..|front|] == front;
    }
  }

  /** A leading zero is printed only for zero itself. */
  lemma {:induction false} NoLeadingZero(n: nat, base: nat, upper: bool)
    requires base == 10 || base == 16
    ensures ToBase(n, base, upper)[0] == '0' ==> n == 0
  {
    if n >= base {
      NoLeadingZero(n / base, base, upper);
    }
  }

  /** `%d` */
  function Decimal(i: int): (s: string)
    ensures |s| > 0
  {
    if i < 0 then "-" + ToBase(-i, 10, true) else ToBase(i, 10, true)
  }

  const INT32_MIN: int := -0x8000_0000
  const INT32_MAX: int := 0x7fff_ffff
  const INT64_MIN: int := -0x8000_0000_0000_0000
  const INT64_MAX: int := 0x7fff_ffff_ffff_ffff
  const UINT64_MAX: int := 0xffff_ffff_ffff_ffff

  predicate IsInt32(i: int) { INT32_MIN <= i <= INT32_MAX }

  predicate IsInt64(i: int) { INT64_MIN <= i <= INT64_MAX }

  /** Reinterpretation of the low bits of `i` as a two's complement number. */
  function Wrap32(i: int): (r: int)
    ensures IsInt32(r)
  {
    (i + 0x8000_0000) % 0x1_0000_0000 - 0x8000_0000
  }

  function Wrap64(i: int): (r: int)
    ensures IsInt64(r)
  {
    (i + 0x8000_0000_0000_0000) % 0x1_0000_0000_0000_0000 - 0x8000_0000_0000_0000
  }

  function Unsigned32(i: int): nat { i % 0x1_0000_0000 }

  function Unsigned64(i: int): nat { i % 0x1_0000_0000_0000_0000 }

  /** `strtoll` and `strtoull` clamp to the range of their result. */
  function Clamp(i: int, lo: int, hi: int): (r: int)
    requires lo <= hi
    ensures lo <= r <= hi && (lo <= i <= hi ==> r == i)
  {
    if i < lo then lo else if i > hi then hi else i
  }

  lemma WrapUnsigned(i: int)
    ensures IsInt32(i) ==> Wrap32(Unsigned32(i)) == i
    ensures IsInt64(i) ==> Wrap64(Unsigned64(i)) == i
  {}

  /** Length of the longest prefix of `s` whose characters satisfy `p`. */
  function Span(p: char -> bool, s: string): (n: nat)
    ensures n <= |s|
    ensures forall i | 0 <= i < n :: p(s[i])
    ensures n < |s| ==> !p(s[n])
  {
    if s != [] && p(s[0]) then 1 + Span(p, s[1..]) else 0
  }

  lemma {:induction false} SpanIs(p: char -> bool, a: string, b: string)
    requires forall c | c in a :: p(c)
    requires b == [] || !p(b[0])
    ensures Span(p, a + b) == |a|
  {
    if a != [] {
      assert (a + b)[1..] == a[1..] + b;
      SpanIs(p, a[1..], b);
    } else {
      assert a + b == b;
    }
  }
}
