/** Decimal text of 64-bit integers: `string2ll` (src/util.c), `sdsll2str` and `sdsull2str`
    (src/common/sds.c).
 */
module Decimal {
  import opened CStrings

  const LLONG_MIN: int := -0x8000_0000_0000_0000
  const LLONG_MAX: int := 0x7FFF_FFFF_FFFF_FFFF
  const ULLONG_MAX: int := 0xFFFF_FFFF_FFFF_FFFF
  const SDS_LLSTR_SIZE: nat := 21

  // Arithmetic on this type is checked: an unsigned 64-bit computation that could wrap around
  // does not verify.
  newtype u64 = x: int | 0 <= x <= 0xFFFF_FFFF_FFFF_FFFF

  predicate InLongLong(n: int)
  {
    LLONG_MIN <= n <= LLONG_MAX
  }

  predicate IsDigit(c: char)
  {
    '0' <= c <= '9'
  }

  function DigitValue(c: char): (d: nat)
    requires IsDigit(c)
    ensures d < 10 && Digit(d) == c
  {
    c as int - '0' as int
  }

  function Digit(d: nat): (c: char)
    requires d < 10
    ensures IsDigit(c) && c as int == '0' as int + d
  {
    (d + '0' as int) as char
  }

  /** The shortest decimal text of a natural number. */
  function Digits(n: nat): (s: string)
    ensures |s| > 0 && IsDigit(s[0])
    ensures n > 0 ==> s[0] != '0'
  {
    if n < 10 then [Digit(n)] else Digits(n / 10) + [Digit(n % 10)]
  }

  /** The canonical decimal text of an integer: no leading zero, no plus sign, no "-0". */
  function ToDecimal(n: int): string
  {
    if n < 0 then "-" + Digits(-n) else Digits(n)
  }

  ghost predicate AllDigits(s: string)
  {
    forall i :: 0 <= i < |s| ==> IsDigit(s[i])
  }

  /** The number a run of digits stands for, leading zeros allowed. */
  function Value(s: string): nat
    requires AllDigits(s)
  {
    if s == [] then 0 else 10 * Value(s[..|s| - 1]) + DigitValue(s[|s| - 1])
  }

  lemma {:induction false} ValueOfDigits(n: nat)
    ensures AllDigits(Digits(n)) && Value(Digits(n)) == n
  {
    if n >= 10 {
      ValueOfDigits(n / 10);
      assert Digits(n)[..|Digits(n)| - 1] == Digits(n / 10);
    }
  }

  /** The text of a number is that of its tens and the digit of its units, by their codes in ASCII;
      below zero with a minus sign in front. */
  lemma TextByPlaces(n: nat, d: nat)
    requires d < 10
    ensures ToDecimal(d) == [(48 + d) as char]
    ensures n > 0 ==> ToDecimal(10 * n + d) == ToDecimal(n) + [(48 + d) as char]
    ensures n > 0 ==> ToDecimal(0 - n) == [45 as char] + ToDecimal(n)
  {
    assert (10 * n + d) / 10 == n && (10 * n + d) % 10 == d;
  }

  lemma {:induction false} DigitsOfValue(s: string)
    requires AllDigits(s) && s != [] && s[0] != '0'
    ensures Digits(Value(s)) == s && Value(s) > 0
  {
    var init := s[..|s| - 1];
    if init != [] {
      DigitsOfValue(init);
      assert s == init + [s[|s| - 1]];
    } else {
      assert Value(s) == DigitValue(s[0]);
    }
  }

  lemma {:induction false} ValueOfPrefix(s: string, k: nat)
    requires AllDigits(s) && k <= |s|
    ensures Value(s[..k]) <= Value(s)
  {
    if k < |s| {
      ValueOfPrefix(s[..|s| - 1], k);
      assert s[..|s| - 1][..k] == s[..k];
    } else {
      assert s[..k] == s;
    }
  }

  lemma DecimalInjective(m: int, n: int)
    requires ToDecimal(m) == ToDecimal(n)
    ensures m == n
  {
    ValueOfDigits(if m < 0 then -m else m);
    ValueOfDigits(if n < 0 then -n else n);
    if m < 0 && n < 0 {
      assert Digits(-m) == ToDecimal(m)[1..] == ToDecimal(n)[1..] == Digits(-n);
    }
  }

  /** The 64-bit integer a byte string is the canonical text of, if there is one. */
  ghost function ParseLL(s: string): (r: Option<int>)
    ensures r.Some? ==> InLongLong(r.value) && ToDecimal(r.value) == s
    ensures r == None ==> forall n :: InLongLong(n) ==> ToDecimal(n) != s
  {
    if exists n :: InLongLong(n) && ToDecimal(n) == s
    then var n :| InLongLong(n) && ToDecimal(n) == s; Some(n)
    else None
  }

  lemma ParseLLOfDecimal(n: int)
    requires InLongLong(n)
    ensures ParseLL(ToDecimal(n)) == Some(n)
  {
    DecimalInjective(n, ParseLL(ToDecimal(n)).value);
  }

  /** Parsing and printing are mutual inverses over the whole 64-bit range. */
  lemma ParsesExactlyItsPrint(s: string, n: int)
    ensures ParseLL(s) == Some(n) <==> InLongLong(n) && s == ToDecimal(n)
  {
    if InLongLong(n) { ParseLLOfDecimal(n); }
  }

  // A canonical text that starts like `s` stands for a magnitude at least as large.
  lemma MagnitudeFromPrefix(s: string, n: int, start: nat, k: nat)
    requires s == ToDecimal(n) && start == (if n < 0 then 1 else 0) && start <= k <= |s|
    ensures AllDigits(s[start..]) && Value(s[start..k]) <= Value(s[start..]) == (if n < 0 then -n else n)
  {
    var m := if n < 0 then -n else n;
    ValueOfDigits(m);
    assert s[start..] == Digits(m);
    ValueOfPrefix(s[start..], k - start);
    assert s[start..][..k - start] == s[start..k];
  }

  function Signed(negative: bool, magnitude: int): int
  {
    if negative then -magnitude else magnitude
  }

  // Where the digits start: after the minus sign, if there is one.
  function SignLength(s: string): (r: nat)
    ensures r <= |s|
  {
    if s != [] && s[0] == '-' then 1 else 0
  }

  // The parser may give up as soon as the digits read so far exceed an unsigned 64-bit integer.
  lemma TooLarge(s: string, start: nat, k: nat)
    requires start <= k <= |s| && start == SignLength(s)
    requires AllDigits(s[start..k]) && Value(s[start..k]) > ULLONG_MAX
    ensures ParseLL(s) == None
  {
    var r := ParseLL(s);
    if r.Some? {
      MagnitudeFromPrefix(s, r.value, start, k);
    }
  }

  // A canonical text has a first digit, and it is a zero only in "0" itself.
  lemma BadFirstDigit(s: string)
    requires s != "0"
    requires SignLength(s) < |s| ==> !('1' <= s[SignLength(s)] <= '9')
    ensures ParseLL(s) == None
  {
    assert ParseLL(s).Some? ==> ToDecimal(ParseLL(s).value) == s;
  }

  lemma LoneZero(s: string)
    requires s == "0"
    ensures ParseLL(s) == Some(0)
  {
    assert s == ToDecimal(0);
    ParseLLOfDecimal(0);
  }

  // Nothing may follow the digits.
  lemma BadTail(s: string, k: nat)
    requires SignLength(s) <= k < |s| && !IsDigit(s[k])
    ensures ParseLL(s) == None
  {
    assert s[k] == s[SignLength(s)..][k - SignLength(s)];
    var r := ParseLL(s);
    if r.Some? {
      MagnitudeFromPrefix(s, r.value, SignLength(s), k);
    }
  }

  // A text that passes both tests is canonical; only its range remains to be checked.
  lemma GoodDigits(s: string, start: nat)
    requires start == SignLength(s) < |s| && AllDigits(s[start..]) && s[start] != '0'
    ensures var n := Signed(start == 1, Value(s[start..]));
            s == ToDecimal(n) && ParseLL(s) == if InLongLong(n) then Some(n) else None
  {
    DigitsOfValue(s[start..]);
    var n := Signed(start == 1, Value(s[start..]));
    if start == 1 { assert s == "-" + s[1..]; } else { assert s[0..] == s; }
    ParsesExactlyItsPrint(s, n);
    if ParseLL(s).Some? { DecimalInjective(n, ParseLL(s).value); }
  }

  lemma OneMoreDigit(s: string, start: nat, k: nat)
    requires start <= k < |s| && AllDigits(s[start..k]) && IsDigit(s[k])
    ensures AllDigits(s[start..k + 1]) && Value(s[start..k + 1]) == 10 * Value(s[start..k]) + DigitValue(s[k])
  {
    assert s[start..k + 1][..k - start] == s[start..k];
  }

  lemma FirstDigit(s: string, k: nat)
    requires k < |s| && IsDigit(s[k])
    ensures AllDigits(s[k..k + 1]) && Value(s[k..k + 1]) == DigitValue(s[k])
  {
    assert Value([]) == 0;
    OneMoreDigit(s, k, k);
  }

  method StringToLL(s: string) returns (ok: bool, value: int)
    ensures ok <==> ParseLL(s).Some?
    ensures ok ==> value == ParseLL(s).value
  {
    hide ParseLL, ToDecimal, Value;
    var plen, negative := 0, false;
    if plen == |s| {
      BadFirstDigit(s);
      return false, 0;
    }
    if |s| == 1 && s[0] == '0' {
      LoneZero(s);
      return true, 0;
    }
    if s[0] == '-' {
      negative := true;
      plen := plen + 1;
      if plen == |s| {
        BadFirstDigit(s);
        return false, 0;
      }
    }
    ghost var start := SignLength(s);
    var v: u64;
    if '1' <= s[plen] <= '9' {
      v := DigitValue(s[plen]) as u64;
      plen := plen + 1;
    } else {
      // The source also tests here for a lone "0", which cannot get this far.
      BadFirstDigit(s);
      return false, 0;
    }
    FirstDigit(s, start);
    while plen < |s| && '0' <= s[plen] <= '9'
      invariant start < plen <= |s| && AllDigits(s[start..plen]) && Value(s[start..plen]) == v as int
    {
      OneMoreDigit(s, start, plen);
      if v > 0xFFFF_FFFF_FFFF_FFFF / 10 {
        TooLarge(s, start, plen + 1);
        return false, 0;
      }
      v := v * 10;
      if v > 0xFFFF_FFFF_FFFF_FFFF - (DigitValue(s[plen]) as u64) {
        TooLarge(s, start, plen + 1);
        return false, 0;
      }
      v := v + DigitValue(s[plen]) as u64;
      plen := plen + 1;
    }
    if plen < |s| {
      BadTail(s, plen);
      return false, 0;
    }
    assert s[start..plen] == s[start..];
    GoodDigits(s, start);
    if negative {
      return v <= 0x8000_0000_0000_0000, -(v as int);
    } else {
      return v <= 0x7FFF_FFFF_FFFF_FFFF, v as int;
    }
  }

  function Reversed(s: string): (r: string)
    ensures |r| == |s| && forall i :: 0 <= i < |s| ==> r[i] == s[|s| - 1 - i]
  {
    if s == [] then [] else Reversed(s[1..]) + [s[0]]
  }

  lemma ReversedSnoc(s: string, c: char)
    ensures Reversed(s + [c]) == [c] + Reversed(s)
  {
  }

  function Pow10(k: nat): nat
  {
    if k == 0 then 1 else 10 * Pow10(k - 1)
  }

  lemma {:induction false} DigitsLength(n: nat, k: nat)
    requires k > 0 && n < Pow10(k)
    ensures |Digits(n)| <= k
  {
    if k > 1 && n >= 10 {
      DigitsLength(n / 10, k - 1);
    }
  }

  lemma Pow10Limits()
    ensures Pow10(19) == 10_000_000_000_000_000_000 && Pow10(20) == 100_000_000_000_000_000_000
  {
    assert Pow10(5) == 100_000;
    assert Pow10(10) == 10_000_000_000;
    assert Pow10(15) == 1_000_000_000_000_000;
  }

  // The swap loop that ends both printers.
  method ReverseInPlace(buf: array<char>, l: nat)
    requires 0 < l < buf.Length
    modifies buf
    ensures buf[..l] == Reversed(old(buf[..l])) && buf[l..] == old(buf[l..])
  {
    var i, p := 0, l - 1;
    while i < p
      invariant 0 <= i <= l && p == l - 1 - i && i <= p + 1
      invariant forall k :: 0 <= k < i ==> buf[k] == old(buf[l - 1 - k]) && buf[l - 1 - k] == old(buf[k])
      invariant forall k :: i <= k <= p ==> buf[k] == old(buf[k])
      invariant forall k :: l <= k < buf.Length ==> buf[k] == old(buf[k])
    {
      var aux := buf[i];
      buf[i] := buf[p];
      buf[p] := aux;
      i, p := i + 1, p - 1;
    }
    forall k | 0 <= k < l ensures buf[k] == old(buf[l - 1 - k]) {
      if k >= i && k > p { assert buf[l - 1 - (l - 1 - k)] == old(buf[l - 1 - k]); }
    }
  }

  // The digit loop both printers share: least significant digit first.
  method PutDigits(buf: array<char>, value: u64) returns (p: nat)
    requires buf.Length == SDS_LLSTR_SIZE
    modifies buf
    ensures p <= 20 && (value as int < Pow10(19) ==> p <= 19)
    ensures p == |Digits(value as int)| && Reversed(buf[..p]) == Digits(value as int)
  {
    var v := value;
    p := 0;
    Pow10Limits();
    DigitsLength(value as int, 20);
    if value as int < Pow10(19) { DigitsLength(value as int, 19); }
    assert buf[..0] == [];
    while true
      invariant p < |Digits(value as int)| <= 20
      invariant Digits(value as int) == Digits(v as int) + Reversed(buf[..p])
      decreases v
    {
      ghost var before := buf[..p];
      buf[p] := Digit((v % 10) as int);
      p := p + 1;
      assert buf[..p] == before + [Digit((v % 10) as int)];
      ReversedSnoc(before, Digit((v % 10) as int));
      v := v / 10;
      if v == 0 { break; }
    }
  }

  method LLToStr(buf: array<char>, value: int) returns (l: nat)
    requires buf.Length == SDS_LLSTR_SIZE && InLongLong(value)
    modifies buf
    ensures l < SDS_LLSTR_SIZE && buf[..l] == ToDecimal(value) && buf[l] == NUL
  {
    Pow10Limits();
    var v: u64 := (if value < 0 then -value else value) as u64;
    l := PutDigits(buf, v);
    ghost var digits := buf[..l];
    if value < 0 {
      buf[l] := '-';
      l := l + 1;
      assert buf[..l] == digits + ['-'];
      ReversedSnoc(digits, '-');
    }
    buf[l] := NUL;
    assert Reversed(buf[..l]) == ToDecimal(value) by { assert buf[..l] == if value < 0 then digits + ['-'] else digits; }
    ghost var end := buf[l..];
    ReverseInPlace(buf, l);
    assert buf[l] == buf[l..][0] == end[0];
  }

  method ULLToStr(buf: array<char>, v: u64) returns (l: nat)
    requires buf.Length == SDS_LLSTR_SIZE
    modifies buf
    ensures l < SDS_LLSTR_SIZE && buf[..l] == ToDecimal(v as int) && buf[l] == NUL
  {
    l := PutDigits(buf, v);
    ghost var digits := buf[..l];
    buf[l] := NUL;
    assert buf[..l] == digits;
    ghost var end := buf[l..];
    ReverseInPlace(buf, l);
    assert buf[l] == buf[l..][0] == end[0];
  }
}
