/**
 Printing and parsing numbers (lib/digits.c), in bases 2 to 36 and for 32-bit numbers.
 */
module Digits {
  import opened Bytes
  import opened CString

  const MINUS: byte := 45

  function DigitChar(d: nat): (c: byte)
    requires d < 36
    ensures c != 0 && c != MINUS
  {
    if d < 10 then (48 + d) as byte else (55 + d) as byte
  }

  /** The table "0123456789ABC...Z". */
  const DIGITS: seq<byte> := seq(36, d requires 0 <= d < 36 => DigitChar(d))

  function ToUpper(c: byte): byte {
    if 97 <= c <= 122 then c - 32 else c
  }

  /** The position of `c` in the table, or -1. */
  function DigitValue(c: byte): (d: int)
    ensures d == -1 || (0 <= d < 36 && DigitChar(d) == c)
    ensures d == -1 ==> forall k: nat :: k < 36 ==> DigitChar(k) != c
  {
    if 48 <= c <= 57 then c as int - 48 else if 65 <= c <= 90 then c as int - 55 else -1
  }

  lemma DigitRoundTrip(d: nat)
    requires d < 36
    ensures DigitValue(ToUpper(DigitChar(d))) == d
  {
  }

  /** The characters of the digits, and which characters read as which digit: letters in both cases. */
  lemma TableIsRead(d: nat, c: byte)
    requires d < 36
    ensures DigitChar(d) as int == "0123456789ABCDEFGHIJKLMNOPQRSTUVWXYZ"[d] as int
    ensures DigitValue(ToUpper(c)) == d <==>
              || c as int == "0123456789ABCDEFGHIJKLMNOPQRSTUVWXYZ"[d] as int
              || c as int == "0123456789abcdefghijklmnopqrstuvwxyz"[d] as int
  {
    UpperAt(d);
    LowerAt(d);
  }

  lemma UpperAt(d: nat)
    requires d < 36
    ensures "0123456789ABCDEFGHIJKLMNOPQRSTUVWXYZ"[d] as int == if d < 10 then 48 + d else 55 + d
  {
  }

  lemma LowerAt(d: nat)
    requires d < 36
    ensures "0123456789abcdefghijklmnopqrstuvwxyz"[d] as int == if d < 10 then 48 + d else 87 + d
  {
  }

  // ----- Printing -----

  /** The last `n` digits of `v`, the most significant first. */
  function DigitsOf(v: nat, base: nat, n: nat): (s: seq<byte>)
    requires 2 <= base <= 36
    ensures |s| == n && 0 !in s
    decreases n
  {
    if n == 0 then [] else DigitsOf(v / base, base, n - 1) + [DigitChar(v % base)]
  }

  /** How many digits `v` has; none for 0. */
  function DigitCount(v: nat, base: nat): nat
    requires 2 <= base
  {
    if v == 0 then 0 else 1 + DigitCount(v / base, base)
  }

  /** A number of `k` bits has at most `k` digits, in any base. */
  lemma {:induction false} DigitCountBound(v: nat, base: nat, k: nat)
    requires 2 <= base && v < Pow(2, k)
    ensures DigitCount(v, base) <= k
  {
    if v > 0 {
      assert v / base <= v / 2;
      DigitCountBound(v / base, base, k - 1);
    }
  }

  lemma Pow2Of32()
    ensures Pow(2, 32) == TWO_32
  {
    assert Pow(2, 4) == 16;
    assert Pow(2, 8) == 256;
    assert Pow(2, 12) == 4096;
    assert Pow(2, 16) == 65536;
    assert Pow(2, 20) == 0x10_0000;
    assert Pow(2, 24) == 0x100_0000;
    assert Pow(2, 28) == 0x1000_0000;
  }

  /** What `ulong_to_str` prints into `n` characters: a longer number loses its leading digits. */
  function Printed(v: nat, base: nat, n: nat): (s: seq<byte>)
    requires 2 <= base <= 36
    ensures |s| <= n && 0 !in s
  {
    if v == 0 then (if n == 0 then [] else [DigitChar(0)])
    else DigitsOf(v, base, Min(n, DigitCount(v, base)))
  }

  function DigitOf(v: nat, base: nat, p: nat): (d: nat)
    requires base > 0 && p > 0
    ensures d < base
  {
    v / p % base
  }

  /** Each printed character is the digit at its position `k`, counted from the last. */
  lemma {:induction false} DigitAt(v: nat, base: nat, n: nat, k: nat)
    requires 2 <= base <= 36 && k < n
    ensures Pow(base, k) > 0
    ensures DigitsOf(v, base, n)[n - 1 - k] == DigitChar(DigitOf(v, base, Pow(base, k)))
    decreases n
  {
    hide DigitChar;
    if k == 0 {
      assert DigitOf(v, base, 1) == v % base;
    } else {
      hide DigitOf;
      DigitAt(v / base, base, n - 1, k - 1);
      NextDigit(v, base, Pow(base, k - 1));
    }
  }

  lemma NextDigit(v: nat, base: nat, p: nat)
    requires base > 0 && p > 0
    ensures v / base >= 0 && base * p > 0 && DigitOf(v / base, base, p) == DigitOf(v, base, base * p)
  {
    ModSplit(v, base, p);
  }

  /** A number is printed without leading zeros, unless `n` characters are too few for it. */
  lemma PrintedIsShortest(v: nat, base: nat, n: nat)
    requires 2 <= base <= 36
    ensures var k := |Printed(v, base, n)|;
            && (k == n || v < Pow(base, k))
            && (k == 0 || k == 1 || Pow(base, k - 1) <= v)
            && (n > 0 ==> k > 0)
    ensures v == 0 && n > 0 ==> Printed(v, base, n) == [48]
    ensures v > 0 ==> Printed(v, base, n) == DigitsOf(v, base, |Printed(v, base, n)|)
  {
    hide Pow, DigitsOf;
    var count := DigitCount(v, base);
    var k := |Printed(v, base, n)|;
    PowPositive(base, 1);
    if v > 0 {
      CountBelowPow(v, base);
      CountAbovePow(v, base);
      if k > 0 {
        PowGrows(base, k - 1, count - 1);
      }
    }
  }

  lemma PowPositive(base: nat, k: nat)
    requires base >= 1
    ensures Pow(base, k) >= 1
  {
    PowGrows(base, 0, k);
  }

  lemma {:induction false} CountAbovePow(v: nat, base: nat)
    requires 2 <= base && v > 0
    ensures DigitCount(v, base) > 0 && Pow(base, DigitCount(v, base) - 1) <= v
    decreases v
  {
    QuotientIsLess(v, base);
    if v / base > 0 {
      CountAbovePow(v / base, base);
      AboveProduct(v, base, Pow(base, DigitCount(v / base, base) - 1));
    }
  }

  lemma AboveProduct(v: nat, base: nat, p: nat)
    requires base > 0 && p <= v / base
    ensures base * p <= v
  {
    var q := v / base;
    assert v == base * q + v % base;
    assert base * p <= base * q;
  }

  /** The text with a terminator, if there is room for one. */
  function Terminated(s: seq<byte>, n: nat): seq<byte> {
    if |s| < n then s + [0] else s
  }

  function Reversed(s: seq<byte>): (r: seq<byte>)
    ensures |r| == |s|
  {
    if s == [] then [] else [s[|s| - 1]] + Reversed(s[..|s| - 1])
  }

  lemma ReversedSnoc(s: seq<byte>, c: byte)
    ensures Reversed(s + [c]) == [c] + Reversed(s)
  {
    assert (s + [c])[..|s|] == s;
  }

  /** One more digit collected. */
  lemma CollectStep(v: nat, base: nat, n: nat, collected: seq<byte>)
    requires 2 <= base <= 36 && n > 0
    ensures DigitsOf(v, base, n) + Reversed(collected) ==
            DigitsOf(v / base, base, n - 1) + Reversed(collected + [DigitChar(v % base)])
  {
    ReversedSnoc(collected, DigitChar(v % base));
  }

  lemma CountStep(v: nat, base: nat)
    requires 2 <= base && v != 0
    ensures 0 <= v / base < v && 0 <= v % base < base
    ensures DigitCount(v, base) == 1 + DigitCount(v / base, base)
  {
    QuotientIsLess(v, base);
  }

  lemma QuotientIsLess(v: nat, base: nat)
    requires 2 <= base && v != 0
    ensures 0 <= v / base < v && 0 <= v % base < base
  {
    var q := v / base;
    assert base * q + v % base == v;
    if q >= 1 {
      assert base * q >= 2 * q;
    }
  }

  /** The first loop of `ulong_to_str`: the digits, the least significant first. */
  method CollectDigits(value: nat, base: nat, n: nat, buffer: array<byte>) returns (length: nat)
    requires 2 <= base <= 36 && value < TWO_32 && buffer.Length == 40
    modifies buffer
    ensures length == Min(n, DigitCount(value, base)) <= 32
    ensures Reversed(buffer[..length]) == DigitsOf(value, base, length)
  {
    hide Reversed, DigitsOf, DigitChar, DigitCount;
    Pow2Of32();
    DigitCountBound(value, base, 32);
    length := 0;
    var v: nat := value;
    ghost var total := Min(n, DigitCount(value, base));
    ReversedNothing();
    NoCount(base);
    while length < n && v != 0
      invariant 0 <= length <= total <= 32 && total - length == Min(n - length, DigitCount(v, base))
      invariant DigitsOf(value, base, total) == DigitsOf(v, base, total - length) + Reversed(buffer[..length])
      decreases v
    {
      ghost var before := buffer[..length];
      CountStep(v, base);
      CollectStep(v, base, total - length, before);
      var digit := v % base;
      buffer[length] := DIGITS[digit];
      assert buffer[..length + 1] == before + [DigitChar(digit)];
      v := v / base;
      length := length + 1;
    }
    assert total == length;
    NoDigits(v, base);
  }

  lemma NoCount(base: nat)
    requires 2 <= base
    ensures DigitCount(0, base) == 0
  {
  }

  lemma ReversedNothing()
    ensures Reversed([]) == []
  {
  }

  /** The second loop of `ulong_to_str`: the collected digits, the most significant first. */
  method PutReversed(buffer: array<byte>, length: nat, str: array<byte>, at: nat)
    requires length <= buffer.Length && at + length <= str.Length && buffer != str
    modifies str
    ensures str[..] == Blit(old(str[..]), at, Reversed(buffer[..length]))
  {
    hide Blit;
    ghost var m, text := str[..], Reversed(buffer[..length]);
    var k := 0;
    BlitNothing(m, at);
    assert text[..0] == [];
    assert buffer[..length - 0] == buffer[..length];
    while k < length
      invariant 0 <= k <= length && str[..] == Blit(m, at, text[..k])
      invariant text[k..] == Reversed(buffer[..length - k])
    {
      ghost var rest := buffer[..length - k];
      assert rest[..|rest| - 1] == buffer[..length - k - 1];
      assert text[k] == text[k..][0] == rest[|rest| - 1];
      BlitOneMore(m, at, text[..k], text[k]);
      assert text[..k + 1] == text[..k] + [text[k]];
      assert text[k + 1..] == text[k..][1..];
      str[at + k] := buffer[length - k - 1];
      k := k + 1;
    }
    assert text[..length] == text;
  }

  method UlongToStr(value: nat, base: nat, str: array<byte>, at: nat, n: nat)
    requires 2 <= base <= 36 && value < TWO_32 && at + n <= str.Length
    modifies str
    ensures str[..] == Blit(old(str[..]), at, Terminated(Printed(value, base, n), n))
    ensures var text := Printed(value, base, n);
            str[at..at + |text|] == text && (|text| < n ==> str[at + |text|] == 0)
  {
    hide Blit, DigitsOf, Reversed;
    ghost var m, text := str[..], Printed(value, base, n);
    BlitNothing(m, at);
    var i, left := at, n;
    if left != 0 && value == 0 {
      BlitOneMore(m, at, [], DIGITS[0]);
      str[i] := DIGITS[0];
      i, left := i + 1, left - 1;
    }
    var buffer := new byte[40];
    var length := CollectDigits(value, base, left, buffer);
    NoDigits(0, base);
    ghost var digits := DigitsOf(value, base, length);
    BlitNothing(str[..], i);
    PutReversed(buffer, length, str, i);
    if value == 0 {
      assert length == 0 && digits == [];
      assert n != 0 ==> [] + [DIGITS[0]] == text;
    } else {
      assert digits == text;
    }
    assert str[..] == Blit(m, at, text);
    i, left := i + length, left - length;
    if left != 0 {
      BlitOneMore(m, at, text, 0);
      str[i] := 0;
    }
    TextIsThere(m, at, text, n);
  }

  lemma TextIsThere(m: seq<byte>, at: nat, text: seq<byte>, n: nat)
    requires |text| <= n && at + n <= |m|
    ensures var r := Blit(m, at, Terminated(text, n));
            r[at..at + |text|] == text && (|text| < n ==> r[at + |text|] == 0)
  {
  }

  lemma NoDigits(v: nat, base: nat)
    requires 2 <= base <= 36
    ensures DigitsOf(v, base, 0) == []
  {
  }

  /** `ulong_to_str_align`: exactly `n` digits and a terminator. */
  method UlongToStrAlign(value: nat, base: nat, str: array<byte>, at: nat, n: nat)
    requires 2 <= base <= 36 && at + n < str.Length
    modifies str
    ensures str[..] == Blit(old(str[..]), at, DigitsOf(value, base, n) + [0])
  {
    hide Blit, DigitChar, DigitsOf;
    ghost var m := str[..];
    var i, left: nat, v: nat := at + n, n, value;
    BlitNothing(m, i + 1);
    BlitOneLess(m, i, [], 0);
    str[i] := 0;
    assert [0] + [] == [0];
    ghost var tail: seq<byte> := [0];
    while left != 0 && v != 0
      invariant i == at + left && left <= n && |tail| == n - left + 1
      invariant str[..] == Blit(m, i, tail)
      invariant DigitsOf(value, base, n) + [0] == DigitsOf(v, base, left) + tail
    {
      BlitOneLess(m, i - 1, tail, DigitChar(v % base));
      AlignStep(v, base, left, tail);
      tail := [DigitChar(v % base)] + tail;
      i := i - 1;
      str[i] := DIGITS[v % base];
      v := v / base;
      left := left - 1;
    }
    while left != 0
      invariant i == at + left && left <= n && |tail| == n - left + 1
      invariant left != 0 ==> v == 0
      invariant str[..] == Blit(m, i, tail)
      invariant DigitsOf(value, base, n) + [0] == DigitsOf(v, base, left) + tail
    {
      BlitOneLess(m, i - 1, tail, DigitChar(0));
      ZeroDigit(base);
      AlignStep(v, base, left, tail);
      tail := [DigitChar(0)] + tail;
      i := i - 1;
      str[i] := DIGITS[0];
      left := left - 1;
    }
    NoDigits(v, base);
    assert [] + tail == tail;
  }

  lemma ZeroDigit(base: nat)
    requires base > 0
    ensures 0 / base == 0 && 0 % base == 0
  {
  }

  lemma AlignStep(v: nat, base: nat, n: nat, tail: seq<byte>)
    requires 2 <= base <= 36 && n > 0
    ensures 0 <= v % base < base && 0 <= v / base
    ensures DigitsOf(v, base, n) + tail == DigitsOf(v / base, base, n - 1) + ([DigitChar(v % base)] + tail)
  {
  }

  lemma BlitOneLess(m: seq<byte>, a: nat, s: seq<byte>, b: byte)
    requires a + 1 + |s| <= |m|
    ensures Blit(m, a + 1, s)[a := b] == Blit(m, a, [b] + s)
  {
  }

  // ----- Parsing -----

  /** The number that the first `n` characters of `s` stand for, up to one that is not a digit. */
  function Parse(base: nat, s: seq<byte>, n: nat, value: nat): nat
    decreases n
  {
    if n == 0 || s == [] || s[0] == 0 then value
    else
      var d := DigitValue(ToUpper(s[0]));
      if d == -1 then value else Parse(base, s[1..], n - 1, (value * base + d) % TWO_32)
  }

  /** The unbounded number that the leading digits of `s`, up to `n`, stand for after `value`. */
  function Value(base: nat, s: seq<byte>, n: nat, value: nat): nat
    decreases n
  {
    if n == 0 || s == [] || s[0] == 0 then value
    else
      var d := DigitValue(ToUpper(s[0]));
      if d == -1 then value else Value(base, s[1..], n - 1, value * base + d)
  }

  /** Wrapping around at every digit is wrapping around once at the end, for any text. */
  lemma {:induction false} ParseIsValue(base: nat, s: seq<byte>, n: nat, value: nat)
    ensures Parse(base, s, n, value % TWO_32) == Value(base, s, n, value) % TWO_32
    decreases n
  {
    hide DigitValue, ToUpper;
    if n > 0 && s != [] && s[0] != 0 {
      var d := DigitValue(ToUpper(s[0]));
      if d != -1 {
        ModAfterStep(value, base, d);
        ParseIsValue(base, s[1..], n - 1, value * base + d);
      }
    }
  }

  /**
   The text before the first character that is no digit is read, whatever follows, and no more than
   `n` characters are.
   */
  lemma {:induction false} ValueOfPrefix(base: nat, s: seq<byte>, rest: seq<byte>, extra: nat, value: nat)
    requires forall i | 0 <= i < |s| :: 48 <= s[i] <= 57 || 65 <= s[i] <= 90 || 97 <= s[i] <= 122
    requires extra == 0 || rest == [] || !(48 <= rest[0] <= 57 || 65 <= rest[0] <= 90 || 97 <= rest[0] <= 122)
    ensures Value(base, s + rest, |s| + extra, value) == Value(base, s, |s|, value)
    decreases |s|
  {
    if s == [] {
      assert s + rest == rest;
    } else {
      assert (s + rest)[1..] == s[1..] + rest;
      ValueOfPrefix(base, s[1..], rest, extra, value * base + DigitValue(ToUpper(s[0])));
    }
  }

  /** Positional notation: one more digit `d`, in either case, multiplies by the base and adds `d`. */
  lemma {:induction false} ValueSnoc(base: nat, s: seq<byte>, c: byte, d: nat, value: nat)
    requires forall i | 0 <= i < |s| :: 48 <= s[i] <= 57 || 65 <= s[i] <= 90 || 97 <= s[i] <= 122
    requires d < 36
    requires || c as int == "0123456789ABCDEFGHIJKLMNOPQRSTUVWXYZ"[d] as int
             || c as int == "0123456789abcdefghijklmnopqrstuvwxyz"[d] as int
    ensures Value(base, [], 0, value) == value
    ensures Value(base, s + [c], |s| + 1, value) == Value(base, s, |s|, value) * base + d
    decreases |s|
  {
    if s == [] {
      TableIsRead(d, c);
      assert (s + [c])[1..] == [];
    } else {
      assert (s + [c])[1..] == s[1..] + [c];
      ValueSnoc(base, s[1..], c, d, value * base + DigitValue(ToUpper(s[0])));
    }
  }

  /** `strchr` in the table of digits. */
  method FindDigit(c: byte) returns (d: int)
    ensures d == DigitValue(c)
  {
    d := 0;
    while d < 36
      invariant 0 <= d <= 36
      invariant forall k: nat :: k < d ==> DigitChar(k) != c
    {
      if DIGITS[d] == c {
        return;
      }
      d := d + 1;
    }
    d := -1;
  }

  method StrToUlong(base: nat, m: seq<byte>, at: nat, n: nat) returns (value: nat)
    requires at <= |m| && (at + n <= |m| || HasNul(m, at))
    ensures value == Parse(base, m[at..], n, 0) == Value(base, m[at..], n, 0) % TWO_32
  {
    ParseIsValue(base, m[at..], n, 0);
    value := 0;
    var i, left := at, n;
    while left != 0 && m[i] != 0
      invariant at <= i <= |m| && (i + left <= |m| || HasNul(m, i))
      invariant Parse(base, m[at..], n, 0) == Parse(base, m[i..], left, value)
    {
      var d := FindDigit(ToUpper(m[i]));
      if d == -1 {
        return;
      }
      assert m[i..][1..] == m[i + 1..];
      value := (value * base + d) % TWO_32;
      i, left := i + 1, left - 1;
    }
  }

  lemma ModAfterStep(x: nat, base: nat, d: nat)
    ensures (x % TWO_32 * base + d) % TWO_32 == (x * base + d) % TWO_32
  {
    var q, r := x / TWO_32, x % TWO_32;
    var y := r * base + d;
    assert x * base == TWO_32 * (q * base) + r * base;
    ModUnique(x * base + d, TWO_32, q * base + y / TWO_32, y % TWO_32);
  }

  lemma ModSplit(v: nat, base: nat, p: nat)
    requires base > 0 && p > 0
    ensures 0 <= v / base && v % (base * p) == v / base % p * base + v % base
    ensures v / (base * p) == v / base / p
  {
    var q, d := v / base, v % base;
    var r := q % p * base + d;
    assert v == base * q + d;
    assert q == p * (q / p) + q % p;
    assert base * q == base * (p * (q / p)) + base * (q % p);
    assert base * (p * (q / p)) == base * p * (q / p);
    assert (q % p + 1) * base <= p * base;
    ModUnique(v, base * p, q / p, r);
  }

  /** Parsing printed digits appends them to the value read so far. */
  lemma {:induction false} ParseDigits(v: nat, base: nat, k: nat, rest: seq<byte>, extra: nat, value: nat)
    requires 2 <= base <= 36 && value < TWO_32
    ensures Parse(base, DigitsOf(v, base, k) + rest, k + extra, value) ==
            Parse(base, rest, extra, (value * Pow(base, k) + v % Pow(base, k)) % TWO_32)
    decreases k
  {
    hide DigitChar, Parse;
    if k == 0 {
      assert DigitsOf(v, base, 0) + rest == rest;
      SmallMod(value, TWO_32);
      assert value * 1 + v % 1 == value;
    } else {
      var next := [DigitChar(v % base)] + rest;
      ParseDigits(v / base, base, k - 1, next, extra + 1, value);
      assert DigitsOf(v, base, k) + rest == DigitsOf(v / base, base, k - 1) + next;
      ParseDigitsStep(v, base, Pow(base, k - 1), rest, extra, value);
    }
  }

  /** The last digit, after a value read modulo 2^32. */
  lemma ParseDigitsStep(v: nat, base: nat, p: nat, rest: seq<byte>, extra: nat, value: nat)
    requires 2 <= base <= 36 && p > 0
    ensures 0 <= v / base && 0 <= v % base < 36 && 0 <= v / base % p
    ensures Parse(base, [DigitChar(v % base)] + rest, extra + 1, (value * p + v / base % p) % TWO_32) ==
            Parse(base, rest, extra, (value * (base * p) + v % (base * p)) % TWO_32)
  {
    hide DigitChar, Parse;
    ModSplit(v, base, p);
    var a, d := v / base % p, v % base;
    var x := value * p + a;
    ParseOne(d, base, rest, extra, x % TWO_32);
    ModAfterStep(x, base, d);
    Regroup(value, p, a, base, d);
  }

  lemma ParseOne(d: nat, base: nat, rest: seq<byte>, extra: nat, value: nat)
    requires d < 36
    ensures Parse(base, [DigitChar(d)] + rest, extra + 1, value) == Parse(base, rest, extra, (value * base + d) % TWO_32)
  {
    DigitRoundTrip(d);
    assert ([DigitChar(d)] + rest)[1..] == rest;
  }

  lemma Regroup(value: nat, p: nat, a: nat, base: nat, d: nat)
    ensures (value * p + a) * base + d == value * (base * p) + (a * base + d)
  {
    assert (value * p + a) * base == value * p * base + a * base;
    assert value * p * base == value * (p * base);
  }

  /** The digits of a number below `base^k` are `k` at most. */
  lemma {:induction false} CountBelowPow(v: nat, base: nat)
    requires 2 <= base
    ensures v < Pow(base, DigitCount(v, base))
    decreases v
  {
    if v > 0 {
      QuotientIsLess(v, base);
      CountBelowPow(v / base, base);
      BelowProduct(v, base, Pow(base, DigitCount(v / base, base)));
    }
  }

  lemma BelowProduct(v: nat, base: nat, p: nat)
    requires base > 0 && v / base < p
    ensures v < base * p
  {
    var q := v / base;
    assert v == base * q + v % base;
    assert base * (q + 1) <= base * p;
  }

  /** The text of a number is followed by something that is not read as one more digit. */
  ghost predicate Ends(rest: seq<byte>, extra: nat) {
    extra == 0 || rest == [] || rest[0] == 0
  }

  /** Parsing what was printed into `n` characters gives the number back, modulo `base^n`. */
  lemma PrintedRoundTrip(v: nat, base: nat, n: nat, rest: seq<byte>)
    requires 2 <= base <= 36 && v < TWO_32 && Ends(rest, n - |Printed(v, base, n)|)
    ensures Parse(base, Printed(v, base, n) + rest, n, 0) == v % Pow(base, n)
  {
    hide Parse, Pow, DigitChar;
    if v == 0 {
      PrintedZero(base, n, rest);
    } else {
      var count := DigitCount(v, base);
      var k := Min(n, count);
      ParseDigitsAlone(v, base, k, rest, n - k);
      ParseStops(base, rest, n - k, v % Pow(base, k));
      if n > count {
        CountBelowPow(v, base);
        PowGrows(base, count, n);
        SmallMod(v, Pow(base, count));
        SmallMod(v, Pow(base, n));
      }
    }
  }

  lemma ParseStops(base: nat, rest: seq<byte>, extra: nat, value: nat)
    requires Ends(rest, extra)
    ensures Parse(base, rest, extra, value) == value
  {
  }

  /** Parsing printed digits from the start. */
  lemma ParseDigitsAlone(v: nat, base: nat, k: nat, rest: seq<byte>, extra: nat)
    requires 2 <= base <= 36 && v < TWO_32
    ensures 0 <= v % Pow(base, k)
    ensures Parse(base, DigitsOf(v, base, k) + rest, k + extra, 0) == Parse(base, rest, extra, v % Pow(base, k))
  {
    hide Parse, Pow, DigitsOf;
    ParseDigits(v, base, k, rest, extra, 0);
    ModIsLess(v, Pow(base, k));
    SmallMod(v % Pow(base, k), TWO_32);
  }

  lemma PrintedZero(base: nat, n: nat, rest: seq<byte>)
    requires 2 <= base <= 36 && Ends(rest, n - |Printed(0, base, n)|)
    ensures Parse(base, Printed(0, base, n) + rest, n, 0) == 0 % Pow(base, n)
  {
    SmallMod(0, Pow(base, n));
    hide DigitChar, Pow;
    if n > 0 {
      ParseOne(0, base, rest, n - 1, 0);
    } else {
      assert [] + rest == rest;
    }
  }

  lemma SmallMod(v: nat, m: nat)
    requires v < m
    ensures v % m == v
  {
  }

  lemma ModIsLess(v: nat, m: nat)
    requires m > 0
    ensures 0 <= v % m <= v
  {
    assert v == m * (v / m) + v % m;
  }

  lemma {:induction false} PowGrows(base: nat, k: nat, n: nat)
    requires base >= 1 && k <= n
    ensures Pow(base, k) <= Pow(base, n)
  {
    if k < n {
      PowGrows(base, k, n - 1);
      assert Pow(base, n) == base * Pow(base, n - 1) >= Pow(base, n - 1);
    }
  }

  /** The same for the printer that pads with zeros. */
  lemma AlignedRoundTrip(v: nat, base: nat, n: nat, rest: seq<byte>)
    requires 2 <= base <= 36 && v < TWO_32
    ensures Parse(base, DigitsOf(v, base, n) + rest, n, 0) == v % Pow(base, n)
  {
    hide Pow, DigitsOf;
    ParseDigitsAlone(v, base, n, rest, 0);
  }

  // ----- Signed numbers -----

  function PrintedSigned(v: int, base: nat, n: nat): (s: seq<byte>)
    requires 2 <= base <= 36 && n > 0
    ensures |s| <= n && 0 !in s
  {
    if v < 0 then [MINUS] + Printed(-v, base, n - 1) else Printed(v, base, n)
  }

  function Negated(v: int): int {
    if v == -TWO_31 then v else -v
  }

  /** The smallest number has no opposite; negating it is taken to wrap around. */
  method LongToStr(value: int, base: nat, str: array<byte>, at: nat, n: nat)
    requires 2 <= base <= 36 && -TWO_31 <= value < TWO_31 && at + n <= str.Length
    modifies str
    ensures str[..] == if n == 0 then old(str[..])
                       else Blit(old(str[..]), at, Terminated(PrintedSigned(value, base, n), n))
  {
    hide Blit, Printed, Terminated, PrintedSigned;
    if n == 0 {
      return;
    }
    SignedText(value, base, n);
    if value < 0 {
      SignFirst(str[..], at, Terminated(Printed(-value, base, n - 1), n - 1));
      str[at] := MINUS;
      UlongToStr(ToUnsigned(Negated(value)), base, str, at + 1, n - 1);
    } else {
      UlongToStr(value, base, str, at, n);
    }
  }

  lemma SignedText(value: int, base: nat, n: nat)
    requires 2 <= base <= 36 && n > 0
    ensures |Terminated(PrintedSigned(value, base, n), n)| <= n
    ensures value >= 0 ==> PrintedSigned(value, base, n) == Printed(value, base, n)
    ensures value < 0 ==>
              && |Terminated(Printed(-value, base, n - 1), n - 1)| <= n - 1
              && Terminated(PrintedSigned(value, base, n), n) == [MINUS] + Terminated(Printed(-value, base, n - 1), n - 1)
  {
    hide Printed;
  }

  lemma SignFirst(m: seq<byte>, at: nat, text: seq<byte>)
    requires at + 1 + |text| <= |m|
    ensures Blit(m[at := MINUS], at + 1, text) == Blit(m, at, [MINUS] + text)
  {
  }

  function ParseSigned(base: nat, s: seq<byte>, n: nat): int {
    if n == 0 then 0
    else if s != [] && s[0] == MINUS then Negated(ToSigned(Parse(base, s[1..], n - 1, 0)))
    else ToSigned(Parse(base, s, n, 0))
  }

  method StrToLong(base: nat, m: seq<byte>, at: nat, n: nat) returns (value: int)
    requires at <= |m| && (at + n <= |m| || HasNul(m, at))
    ensures value == ParseSigned(base, m[at..], n)
  {
    if n == 0 {
      return 0;
    }
    var sign := if m[at] == MINUS then 1 else 0;
    assert sign == 1 ==> m[at..][1..] == m[at + 1..];
    var u := StrToUlong(base, m, at + sign, n - sign);
    value := ToSigned(u);
    if sign == 1 {
      value := Negated(value);
    }
  }

  /**
   The number read differs from that of the text, with its sign, by a multiple of 2^32, and is the
   only 32-bit number that does.
   */
  lemma SignedValue(base: nat, s: seq<byte>, n: nat)
    requires n > 0
    ensures var r := ParseSigned(base, s, n);
            && -0x8000_0000 <= r < 0x8000_0000
            && (s != [] && s[0] == 45 ==> (r + Value(base, s[1..], n - 1, 0)) % 0x1_0000_0000 == 0)
            && (s == [] || s[0] != 45 ==> (r - Value(base, s, n, 0)) % 0x1_0000_0000 == 0)
  {
    hide Parse, Value;
    if s != [] && s[0] == MINUS {
      ParseIsValue(base, s[1..], n - 1, 0);
    } else {
      ParseIsValue(base, s, n, 0);
    }
  }

  /**
   A signed number printed into `n` characters is read back modulo a power of the base; it is the
   same number exactly when its digits fit, besides the sign.
   */
  lemma LongRoundTrip(v: int, base: nat, n: nat, rest: seq<byte>)
    requires 2 <= base <= 36 && -TWO_31 <= v < TWO_31 && n > 0
    requires Ends(rest, n - |PrintedSigned(v, base, n)|)
    ensures var room := if v < 0 then n - 1 else n;
            var r := ParseSigned(base, PrintedSigned(v, base, n) + rest, n);
            && r == (if v < 0 then -(Abs(v) % Pow(base, room)) else Abs(v) % Pow(base, room))
            && (r == v <==> Abs(v) < Pow(base, room))
    ensures PrintedSigned(v, base, n) == if v < 0 then [45] + Printed(-v, base, n - 1) else Printed(v, base, n)
  {
    var room := if v < 0 then n - 1 else n;
    var text := Printed(Abs(v), base, room);
    hide Pow, Parse, Printed;
    PrintedRoundTrip(Abs(v), base, room, rest);
    ModIsLess(Abs(v), Pow(base, room));
    if Abs(v) < Pow(base, room) {
      SmallMod(Abs(v), Pow(base, room));
    }
    if v < 0 {
      assert ([MINUS] + text + rest)[1..] == text + rest;
    } else {
      NoSign(v, base, n, rest);
    }
  }

  lemma NoSign(v: nat, base: nat, n: nat, rest: seq<byte>)
    requires 2 <= base <= 36 && n > 0
    ensures Printed(v, base, n) != [] && (Printed(v, base, n) + rest)[0] != MINUS
  {
    DigitsAreNoSign(v, base, Min(n, DigitCount(v, base)));
  }

  lemma {:induction false} DigitsAreNoSign(v: nat, base: nat, n: nat)
    requires 2 <= base <= 36
    ensures MINUS !in DigitsOf(v, base, n)
    decreases n
  {
    if n > 0 {
      DigitsAreNoSign(v / base, base, n - 1);
    }
  }
}
