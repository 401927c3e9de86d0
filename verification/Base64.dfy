/** Base64 encoding with a 32-bit accumulator, against section 4 of RFC 4648. */
module Base64 {
  import opened CLibrary
  import opened Seqs

  /** The alphabet: upper case, lower case, digits, plus and slash. */
  function Symbol(n: int): char
  {
    var k := n % 64;
    if k < 26 then ('A' as int + k) as char
    else if k < 52 then ('a' as int + k - 26) as char
    else if k < 62 then ('0' as int + k - 52) as char
    else if k == 62 then '+'
    else '/'
  }

  lemma FirstSymbols()
    ensures "ABCDEFGHIJKLMNOP" == [
      Symbol(0), Symbol(1), Symbol(2), Symbol(3), Symbol(4), Symbol(5), Symbol(6), Symbol(7),
      Symbol(8), Symbol(9), Symbol(10), Symbol(11), Symbol(12), Symbol(13), Symbol(14), Symbol(15)]
  {}

  lemma SecondSymbols()
    ensures "QRSTUVWXYZabcdef" == [
      Symbol(16), Symbol(17), Symbol(18), Symbol(19), Symbol(20), Symbol(21), Symbol(22), Symbol(23),
      Symbol(24), Symbol(25), Symbol(26), Symbol(27), Symbol(28), Symbol(29), Symbol(30), Symbol(31)]
  {}

  lemma ThirdSymbols()
    ensures "ghijklmnopqrstuv" == [
      Symbol(32), Symbol(33), Symbol(34), Symbol(35), Symbol(36), Symbol(37), Symbol(38), Symbol(39),
      Symbol(40), Symbol(41), Symbol(42), Symbol(43), Symbol(44), Symbol(45), Symbol(46), Symbol(47)]
  {}

  lemma LastSymbols()
    ensures "wxyz0123456789+/" == [
      Symbol(48), Symbol(49), Symbol(50), Symbol(51), Symbol(52), Symbol(53), Symbol(54), Symbol(55),
      Symbol(56), Symbol(57), Symbol(58), Symbol(59), Symbol(60), Symbol(61), Symbol(62), Symbol(63)]
  {}

  /** The alphabet of the standard, in four parts. */
  lemma SymbolsAreStandard()
    ensures "ABCDEFGHIJKLMNOP" == [
      Symbol(0), Symbol(1), Symbol(2), Symbol(3), Symbol(4), Symbol(5), Symbol(6), Symbol(7),
      Symbol(8), Symbol(9), Symbol(10), Symbol(11), Symbol(12), Symbol(13), Symbol(14), Symbol(15)]
    ensures "QRSTUVWXYZabcdef" == [
      Symbol(16), Symbol(17), Symbol(18), Symbol(19), Symbol(20), Symbol(21), Symbol(22), Symbol(23),
      Symbol(24), Symbol(25), Symbol(26), Symbol(27), Symbol(28), Symbol(29), Symbol(30), Symbol(31)]
    ensures "ghijklmnopqrstuv" == [
      Symbol(32), Symbol(33), Symbol(34), Symbol(35), Symbol(36), Symbol(37), Symbol(38), Symbol(39),
      Symbol(40), Symbol(41), Symbol(42), Symbol(43), Symbol(44), Symbol(45), Symbol(46), Symbol(47)]
    ensures "wxyz0123456789+/" == [
      Symbol(48), Symbol(49), Symbol(50), Symbol(51), Symbol(52), Symbol(53), Symbol(54), Symbol(55),
      Symbol(56), Symbol(57), Symbol(58), Symbol(59), Symbol(60), Symbol(61), Symbol(62), Symbol(63)]
  {
    hide Symbol;
    FirstSymbols();
    SecondSymbols();
    ThirdSymbols();
    LastSymbols();
  }

  type Byte = n: nat | n < 256

  /** Three bytes make four symbols; a shorter last group is padded. */
  function Encoded(s: seq<Byte>): (r: string)
  {
    if s == [] then ""
    else if |s| == 1 then [Symbol(s[0] / 4), Symbol(s[0] % 4 * 16), '=', '=']
    else if |s| == 2 then [Symbol(s[0] / 4), Symbol(s[0] % 4 * 16 + s[1] / 16), Symbol(s[1] % 16 * 4), '=']
    else
      [Symbol(s[0] / 4), Symbol(s[0] % 4 * 16 + s[1] / 16), Symbol(s[1] % 16 * 4 + s[2] / 64), Symbol(s[2] % 64)] +
      Encoded(s[3..])
  }

  lemma {:induction false} EncodedLength(s: seq<Byte>)
    ensures |Encoded(s)| == (|s| + 2) / 3 * 4
  {
    hide Symbol;
    if |s| >= 3 {
      EncodedLength(s[3..]);
      assert (|s| + 2) / 3 == (|s| - 1) / 3 + 1;
    }
  }

  function Value(c: char): (n: nat)
    ensures n < 64
  {
    if 'A' <= c <= 'Z' then c as int - 'A' as int
    else if 'a' <= c <= 'z' then c as int - 'a' as int + 26
    else if '0' <= c <= '9' then c as int - '0' as int + 52
    else if c == '+' then 62
    else 63
  }

  /** A reference decoder. */
  function Decoded(s: string): seq<Byte>
    decreases |s|
  {
    if |s| < 4 then []
    else
      var a, b, c, d := Value(s[0]), Value(s[1]), Value(s[2]), Value(s[3]);
      if s[2] == '=' then [a * 4 + b / 16]
      else if s[3] == '=' then [a * 4 + b / 16, b % 16 * 16 + c / 4]
      else [a * 4 + b / 16, b % 16 * 16 + c / 4, c % 4 * 64 + d] + Decoded(s[4..])
  }

  lemma SymbolValue(n: nat)
    requires n < 64
    ensures Value(Symbol(n)) == n && Symbol(n) != '='
  {}

  lemma Split16(x: nat, y: nat)
    requires y < 16
    ensures (x * 16 + y) / 16 == x && (x * 16 + y) % 16 == y
  {}

  lemma Split4(x: nat, y: nat)
    requires y < 4
    ensures (x * 4 + y) / 4 == x && (x * 4 + y) % 4 == y
  {}

  lemma DecodeFour(p: nat, q: nat, r: nat, u: nat, t: string)
    requires p < 64 && q < 64 && r < 64 && u < 64
    ensures Decoded([Symbol(p), Symbol(q), Symbol(r), Symbol(u)] + t) ==
            [p * 4 + q / 16, q % 16 * 16 + r / 4, r % 4 * 64 + u] + Decoded(t)
  {
    SymbolValue(p);
    SymbolValue(q);
    SymbolValue(r);
    SymbolValue(u);
    hide Symbol, Value;
    assert ([Symbol(p), Symbol(q), Symbol(r), Symbol(u)] + t)[4..] == t;
  }

  lemma DecodePadded(p: nat, q: nat, r: nat)
    requires p < 64 && q < 64 && r < 64
    ensures Decoded([Symbol(p), Symbol(q), '=', '=']) == [p * 4 + q / 16]
    ensures Decoded([Symbol(p), Symbol(q), Symbol(r), '=']) == [p * 4 + q / 16, q % 16 * 16 + r / 4]
  {
    SymbolValue(p);
    SymbolValue(q);
    SymbolValue(r);
    hide Symbol, Value;
  }

  /** The bits of three bytes, cut into four groups and joined again. */
  lemma JoinBits(a: Byte, b: Byte, c: Byte)
    ensures
      var q, r := a % 4 * 16 + b / 16, b % 16 * 4 + c / 64;
      a / 4 * 4 + q / 16 == a && q % 16 * 16 + r / 4 == b && r % 4 * 64 + c % 64 == c
  {
    Split16(a % 4, b / 16);
    Split4(b % 16, c / 64);
  }

  /** The symbols of a group of three bytes, read back. */
  lemma GroupBack(a: Byte, b: Byte, c: Byte, t: string)
    ensures
      var group := [Symbol(a / 4), Symbol(a % 4 * 16 + b / 16), Symbol(b % 16 * 4 + c / 64), Symbol(c % 64)];
      Decoded(group + t) == [a, b, c] + Decoded(t)
  {
    hide Symbol, Decoded;
    DecodeFour(a / 4, a % 4 * 16 + b / 16, b % 16 * 4 + c / 64, c % 64, t);
    JoinBits(a, b, c);
  }

  lemma OneBack(a: Byte)
    ensures Decoded([Symbol(a / 4), Symbol(a % 4 * 16), '=', '=']) == [a]
  {
    hide Symbol, Decoded;
    Split16(a % 4, 0);
    DecodePadded(a / 4, a % 4 * 16, 0);
  }

  lemma TwoBack(a: Byte, b: Byte)
    ensures Decoded([Symbol(a / 4), Symbol(a % 4 * 16 + b / 16), Symbol(b % 16 * 4), '=']) == [a, b]
  {
    hide Symbol, Decoded;
    Split16(a % 4, b / 16);
    Split4(b % 16, 0);
    DecodePadded(a / 4, a % 4 * 16 + b / 16, b % 16 * 4);
  }

  lemma PaddedBack(s: seq<Byte>)
    requires 0 < |s| < 3
    ensures Decoded(Encoded(s)) == s
  {
    hide Symbol, Decoded;
    if |s| == 1 {
      OneBack(s[0]);
    } else {
      TwoBack(s[0], s[1]);
    }
  }

  /** The reference decoder inverts the encoding, for every byte string. */
  lemma {:induction false} DecodeEncoded(s: seq<Byte>)
    ensures Decoded(Encoded(s)) == s
  {
    hide Symbol, Value, Decoded;
    if s == [] {
      NothingDecoded();
    } else if |s| < 3 {
      PaddedBack(s);
    } else {
      DecodeEncoded(s[3..]);
      GroupBack(s[0], s[1], s[2], Encoded(s[3..]));
      assert s == [s[0], s[1], s[2]] + s[3..];
    }
  }

  lemma NothingDecoded()
    ensures Decoded("") == []
  {}

  // ----- the loop -----

  /** What is still to be written after `i` bytes, when `last` is the last of them and `rest`
      the remaining ones. */
  function Remaining(i: nat, last: Byte, rest: seq<Byte>): string
    decreases |rest|
  {
    if i % 3 == 0 then Encoded(rest)
    else if i % 3 == 1 then
      if rest == [] then [Symbol(last % 4 * 16), '=', '=']
      else [Symbol(last % 4 * 16 + rest[0] / 16)] + Remaining(i + 1, rest[0], rest[1..])
    else if rest == [] then [Symbol(last % 16 * 4), '=']
    else [Symbol(last % 16 * 4 + rest[0] / 64), Symbol(rest[0] % 64)] + Encoded(rest[1..])
  }

  /** The bytes are taken one at a time. */
  lemma RemainingStep(i: nat, last: Byte, rest: seq<Byte>)
    requires rest != []
    ensures Remaining(i, last, rest) ==
      (if i % 3 == 0 then [Symbol(rest[0] / 4)]
       else if i % 3 == 1 then [Symbol(last % 4 * 16 + rest[0] / 16)]
       else [Symbol(last % 16 * 4 + rest[0] / 64), Symbol(rest[0] % 64)]) +
      Remaining(i + 1, rest[0], rest[1..])
  {
    hide Symbol;
    assert (i + 1) % 3 == (i % 3 + 1) % 3;
    if i % 3 == 0 {
      if |rest| >= 2 {
        assert (i + 2) % 3 == 2 && rest[1..][0] == rest[1];
        if |rest| >= 3 {
          assert rest[1..][1..][0] == rest[2] && rest[1..][1..][1..] == rest[3..];
        }
      }
    }
  }

  lemma Mod64(m: int, r: int)
    requires 0 <= r < 64
    ensures (64 * m + r) % 64 == r
  {}

  lemma Wrapped(x: int) returns (q: int)
    ensures Wrap32(x) == x - 0x1_0000_0000 * q
  {
    q := (x + 0x8000_0000) / 0x1_0000_0000;
  }

  /** The low bits of a number that ends with two bytes. */
  lemma LowBits(k: int, last: Byte, c: Byte)
    ensures
      var next := k * 65536 + last * 256 + c;
      && next % 256 == c
      && next / 4 % 64 == c / 4
      && next / 16 % 64 == last % 4 * 16 + c / 16
      && next / 64 % 64 == last % 16 * 4 + c / 64
      && next % 64 == c % 64
  {
    BitsFrom2(k, last, c);
    BitsFrom4(k, last, c);
    BitsFrom6(k, last, c);
    BitsFrom0(k, last, c);
    LastByte(k * 256 + last, c);
  }

  lemma BitsFrom0(k: int, last: Byte, c: Byte)
    ensures (k * 65536 + last * 256 + c) % 64 == c % 64
  {
    var q, r := c / 64, c % 64;
    assert c == 64 * q + r;
    Mod64(k * 1024 + last * 4 + q, r);
  }

  lemma LastByte(m: int, c: Byte)
    ensures (256 * m + c) % 256 == c
  {}

  lemma BitsFrom2(k: int, last: Byte, c: Byte)
    ensures (k * 65536 + last * 256 + c) / 4 % 64 == c / 4
  {
    var m := k * 256 + last;
    assert (k * 65536 + last * 256 + c) / 4 == 64 * m + c / 4;
    Mod64(m, c / 4);
  }

  lemma BitsFrom4(k: int, last: Byte, c: Byte)
    ensures (k * 65536 + last * 256 + c) / 16 % 64 == last % 4 * 16 + c / 16
  {
    var q, r := last / 4, last % 4;
    assert last == 4 * q + r;
    assert (k * 65536 + last * 256 + c) / 16 == 64 * (k * 64 + q) + (r * 16 + c / 16);
    Mod64(k * 64 + q, r * 16 + c / 16);
  }

  lemma BitsFrom6(k: int, last: Byte, c: Byte)
    ensures (k * 65536 + last * 256 + c) / 64 % 64 == last % 16 * 4 + c / 64
  {
    var q, r := last / 16, last % 16;
    assert last == 16 * q + r;
    assert (k * 65536 + last * 256 + c) / 64 == 64 * (k * 16 + q) + (r * 4 + c / 64);
    Mod64(k * 16 + q, r * 4 + c / 64);
  }

  /** Shifting the accumulator, which wraps around at 32 bits, keeps its low bits. */
  lemma Accumulate(val: int, last: Byte, c: Byte)
    requires val % 256 == last
    ensures
      var next := Wrap32(val * 256 + c);
      && next % 256 == c
      && next / 4 % 64 == c / 4
      && next / 16 % 64 == last % 4 * 16 + c / 16
      && next / 64 % 64 == last % 16 * 4 + c / 64
      && next % 64 == c % 64
  {
    var a := val / 256;
    var q := Wrapped(val * 256 + c);
    assert Wrap32(val * 256 + c) == (a - 65536 * q) * 65536 + last * 256 + c;
    hide Wrap32;
    LowBits(a - 65536 * q, last, c);
  }

  lemma Flush(val: int, last: Byte)
    requires val % 256 == last
    ensures Wrap32(val * 256) / 16 % 64 == last % 4 * 16
    ensures Wrap32(val * 256) / 64 % 64 == last % 16 * 4
  {
    Accumulate(val, last, 0);
  }

  /** The symbols that byte number `i` completes, from bit `v` of the accumulator on. */
  function Completed(i: nat, last: Byte, c: Byte, v: int): string
  {
    if v < 0 then ""
    else if i % 3 == 0 then [Symbol(c / 4)]
    else if i % 3 == 1 then [Symbol(last % 4 * 16 + c / 16)]
    else if v > 0 then [Symbol(last % 16 * 4 + c / 64), Symbol(c % 64)]
    else [Symbol(c % 64)]
  }

  function Shifted(val: int, v: nat): int
  {
    if v == 0 then val else if v == 2 then val / 4 else if v == 4 then val / 16 else val / 64
  }

  lemma CompletedStep(i: nat, last: Byte, c: Byte, v: nat, next: int)
    requires v == 2 + 2 * (i % 3) || (i % 3 == 2 && v == 0)
    requires Symbol(next / 4) == Symbol(c / 4) && Symbol(next / 16) == Symbol(last % 4 * 16 + c / 16)
    requires Symbol(next / 64) == Symbol(last % 16 * 4 + c / 64) && Symbol(next) == Symbol(c % 64)
    ensures Completed(i, last, c, v) == [Symbol(Shifted(next, v))] + Completed(i, last, c, v - 6)
  {
    hide Symbol;
  }

  lemma CompletedAll(i: nat, last: Byte, rest: seq<Byte>)
    requires rest != []
    ensures Remaining(i, last, rest) ==
            Completed(i, last, rest[0], 2 + 2 * (i % 3)) + Remaining(i + 1, rest[0], rest[1..])
    ensures |Completed(i, last, rest[0], 2 + 2 * (i % 3))| == if i % 3 == 2 then 2 else 1
  {
    hide Symbol, Remaining;
    RemainingStep(i, last, rest);
  }

  /** The symbols written after one more byte: one, and a second one after each third byte. */
  method TakeByte(out: string, i: nat, val: int, valb: int, c: Byte, ghost last: Byte, ghost rest: seq<Byte>)
    returns (out': string, val': int, valb': int)
    requires valb == -6 + 2 * (i % 3) && val % 256 == last && rest != [] && c == rest[0] && |out| % 4 == i % 3
    ensures valb' == -6 + 2 * ((i + 1) % 3) && val' % 256 == c && |out'| % 4 == (i + 1) % 3
    ensures out' + Remaining(i + 1, c, rest[1..]) == out + Remaining(i, last, rest)
  {
    hide Symbol, Encoded, Remaining, Wrap32, Completed, Shifted;
    CompletedAll(i, last, rest);
    Accumulate(val, last, c);
    val' := Wrap32(val * 256 + c);
    SymbolsAgree(val', last, c);
    valb' := valb + 8;
    out' := out;
    ghost var all := Completed(i, last, c, valb');
    while valb' >= 0
      invariant valb' == valb + 8 || valb' == valb + 2 || valb' == valb - 4 == -6
      invariant out' + Completed(i, last, c, valb') == out + all
      decreases valb'
    {
      CompletedStep(i, last, c, valb', val');
      Assoc(out', [Symbol(Shifted(val', valb'))], Completed(i, last, c, valb' - 6));
      out' := out' + [Symbol(Shifted(val', valb'))];
      valb' := valb' - 6;
    }
    NothingCompleted(i, last, c, valb');
    PlusNothing(out');
    Assoc(out, all, Remaining(i + 1, c, rest[1..]));
    NextLength(i, |out|);
  }

  lemma NextLength(i: nat, n: nat)
    requires n % 4 == i % 3
    ensures (i + 1) % 3 == (if i % 3 == 2 then 0 else i % 3 + 1)
    ensures (n + (if i % 3 == 2 then 2 else 1)) % 4 == (i + 1) % 3
  {}

  lemma NothingCompleted(i: nat, last: Byte, c: Byte, v: int)
    requires v < 0
    ensures Completed(i, last, c, v) == ""
  {}

  /** `base64_encode` */
  method Encode(input: seq<Byte>) returns (out: string)
    ensures out == Encoded(input)
  {
    hide Symbol, Encoded, Remaining, Wrap32;
    out := "";
    var val: int, valb := 0, -6;
    var i := 0;
    ghost var last: Byte := 0;
    StartRemaining(input);
    while i < |input|
      invariant 0 <= i <= |input|
      invariant valb == -6 + 2 * (i % 3) && |out| % 4 == i % 3 && val % 256 == last
      invariant out + Remaining(i, last, input[i..]) == Encoded(input)
    {
      assert input[i..][1..] == input[i + 1..];
      out, val, valb := TakeByte(out, i, val, valb, input[i], last, input[i..]);
      last := input[i];
      i := i + 1;
    }
    assert input[i..] == [];
    EndRemaining(i, last);
    if valb > -6 {
      FlushSymbols(val, last);
      out := out + [if valb == -4 then Symbol(Wrap32(val * 256) / 16) else Symbol(Wrap32(val * 256) / 64)];
    }
    out := Pad(out);
  }

  /** The last loop of the encoder */
  method Pad(text: string) returns (out: string)
    ensures out == text + Padding(|text|)
  {
    out := text;
    PlusNothing(text);
    while |out| % 4 != 0
      invariant out + Padding(|out|) == text + Padding(|text|)
      decreases (4 - |out| % 4) % 4
    {
      out := out + ['='];
    }
    PlusNothing(out);
  }

  function Padding(n: nat): string
  {
    if n % 4 == 0 then "" else if n % 4 == 1 then "===" else if n % 4 == 2 then "==" else "="
  }

  lemma FlushSymbols(val: int, last: Byte)
    requires val % 256 == last
    ensures Symbol(Wrap32(val * 256) / 16) == Symbol(last % 4 * 16)
    ensures Symbol(Wrap32(val * 256) / 64) == Symbol(last % 16 * 4)
  {
    hide Symbol, Wrap32;
    Flush(val, last);
    SymbolIs(Wrap32(val * 256) / 16, last % 4 * 16);
    SymbolIs(Wrap32(val * 256) / 64, last % 16 * 4);
  }

  lemma StartRemaining(input: seq<Byte>)
    ensures Remaining(0, 0, input[0..]) == Encoded(input)
  {
    assert input[0..] == input;
  }

  lemma EndRemaining(i: nat, last: Byte)
    ensures Remaining(i, last, []) ==
      if i % 3 == 0 then "" else if i % 3 == 1 then [Symbol(last % 4 * 16), '=', '='] else [Symbol(last % 16 * 4), '=']
  {}

  lemma SymbolIs(n: int, m: int)
    requires n % 64 == m && 0 <= m < 64
    ensures Symbol(n) == Symbol(m)
  {}

  lemma SymbolsAgree(next: int, last: Byte, c: Byte)
    requires next / 4 % 64 == c / 4 && next / 16 % 64 == last % 4 * 16 + c / 16
    requires next / 64 % 64 == last % 16 * 4 + c / 64 && next % 64 == c % 64
    ensures Symbol(next / 4) == Symbol(c / 4) && Symbol(next / 16) == Symbol(last % 4 * 16 + c / 16)
    ensures Symbol(next / 64) == Symbol(last % 16 * 4 + c / 64) && Symbol(next) == Symbol(c % 64)
  {
    hide Symbol;
    SymbolIs(next / 4, c / 4);
    SymbolIs(next / 16, last % 4 * 16 + c / 16);
    SymbolIs(next / 64, last % 16 * 4 + c / 64);
    SymbolIs(next, c % 64);
  }
}
