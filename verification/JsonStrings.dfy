/** String literals of src/common/cJSON.c: escapes, UTF-16 to UTF-8, and the buffers both are
    written into.
 */
module JsonStrings {
  import opened CStrings
  import opened SdsArgs

  // ---- UTF-8 (section 3 of RFC 3629) ----

  // Code points are unsigned 32-bit integers, as in the source.

  predicate IsScalar(c: bv32)
  {
    c < 0xD800 || 0xE000 <= c < 0x110000
  }

  function Octet(b: bv32): (c: char)
    requires b < 0x100
    ensures BitsOf(c) == b && (b != 0 ==> c != NUL)
  {
    OctetValue(b);
    (b as nat) as char
  }

  function BitsOf(c: char): bv32
  {
    (c as int) as bv32
  }

  lemma OctetValue(b: bv32)
    requires b < 0x100
    ensures b as nat < 0x100 && (b as nat) as bv32 == b && (b != 0 ==> b as nat != 0)
  {
  }

  /** An octet that is not the first: the last six bits of what it belongs to. */
  function Continuation(c: bv32): (o: char)
    ensures o != NUL
  {
    Octet(TailValue(c))
  }

  function TailValue(c: bv32): (b: bv32)
    ensures 0x80 <= b < 0xC0
  {
    0x80 + c % 64
  }

  /** What is left when the last six bits are taken off. */
  function Rest(c: bv32): bv32
  {
    c / 64
  }

  predicate LeadFits(len: nat, c: bv32)
  {
    (len == 1 && c < 0x80) || (len == 2 && c < 0x20) || (len == 3 && c < 0x10) || (len == 4 && c < 5)
  }

  function FirstByteMark(len: nat): bv32
  {
    if len == 2 then 0xC0 else if len == 3 then 0xE0 else if len == 4 then 0xF0 else 0
  }

  /** The first of `len` octets. */
  function Lead(len: nat, c: bv32): (o: char)
    requires LeadFits(len, c)
    ensures len > 1 || c != 0 ==> o != NUL
  {
    Octet(LeadValue(len, c))
  }

  function LeadValue(len: nat, c: bv32): (b: bv32)
    requires LeadFits(len, c)
    ensures b < 0x100 && (len > 1 || c != 0 ==> b != 0)
  {
    FirstByteMark(len) + c
  }

  lemma RestsFit(c: bv32)
    ensures c < 0x80 ==> LeadFits(1, c)
    ensures c < 0x800 ==> LeadFits(2, Rest(c))
    ensures c < 0x10000 ==> LeadFits(3, Rest(Rest(c)))
    ensures c < 0x110000 ==> LeadFits(4, Rest(Rest(Rest(c))))
  {
  }

  /** The octets of a scalar, most significant bits first. */
  function Utf8(c: bv32): (r: string)
    requires IsScalar(c)
    ensures 1 <= |r| <= 4 && (c != 0 ==> NulFree(r))
  {
    RestsFit(c);
    if c < 0x80 then [Lead(1, c)]
    else if c < 0x800 then [Lead(2, Rest(c)), Continuation(c)]
    else if c < 0x10000 then [Lead(3, Rest(Rest(c))), Continuation(Rest(c)), Continuation(c)]
    else [Lead(4, Rest(Rest(Rest(c)))), Continuation(Rest(Rest(c))), Continuation(Rest(c)), Continuation(c)]
  }

  /** The value of an octet that may be the first of `len`, or one behind the first. */
  predicate IsLead(len: nat, b: bv32)
  {
    (len == 1 && b < 0x80) || (len == 2 && 0xC2 <= b < 0xE0) || (len == 3 && 0xE0 <= b < 0xF0) || (len == 4 && 0xF0 <= b < 0xF5)
  }

  predicate IsTail(b: bv32)
  {
    0x80 <= b < 0xC0
  }

  function Two(b: bv32, b1: bv32): bv32
  {
    (b - 0xC0) * 64 + (b1 - 0x80)
  }

  function Three(b: bv32, b1: bv32, b2: bv32): bv32
  {
    (b - 0xE0) * 4096 + (b1 - 0x80) * 64 + (b2 - 0x80)
  }

  function Four(b: bv32, b1: bv32, b2: bv32, b3: bv32): bv32
  {
    (b - 0xF0) * 262144 + (b1 - 0x80) * 4096 + (b2 - 0x80) * 64 + (b3 - 0x80)
  }

  /** The scalar at the front of s and how many octets it takes, by the syntax of section 4 of
      RFC 3629: no overlong form, no surrogate, nothing above 10FFFF. */
  function DecodeUtf8(s: string): Option<(bv32, nat)>
  {
    var b := seq(|s|, i requires 0 <= i < |s| => BitsOf(s[i]));
    if |b| >= 1 && IsLead(1, b[0]) then Some((b[0], 1))
    else if |b| >= 2 && IsLead(2, b[0]) && IsTail(b[1]) then Some((Two(b[0], b[1]), 2))
    else if |b| >= 3 && IsLead(3, b[0]) && IsTail(b[1]) && IsTail(b[2]) then
      var c := Three(b[0], b[1], b[2]);
      if c >= 0x800 && IsScalar(c) then Some((c, 3)) else None
    else if |b| >= 4 && IsLead(4, b[0]) && IsTail(b[1]) && IsTail(b[2]) && IsTail(b[3]) then
      var c := Four(b[0], b[1], b[2], b[3]);
      if 0x10000 <= c < 0x110000 then Some((c, 4)) else None
    else None
  }

  // The parts of a scalar, put together again.

  lemma TwoParts(c: bv32)
    requires 0x80 <= c < 0x800 && LeadFits(2, Rest(c))
    ensures Two(LeadValue(2, Rest(c)), TailValue(c)) == c
    ensures IsLead(2, LeadValue(2, Rest(c))) && !IsLead(1, LeadValue(2, Rest(c)))
  {
  }

  lemma ThreeParts(c: bv32)
    requires LeadFits(3, Rest(Rest(c)))
    ensures Three(LeadValue(3, Rest(Rest(c))), TailValue(Rest(c)), TailValue(c)) == c
  {
  }

  lemma FourParts(c: bv32)
    requires LeadFits(4, Rest(Rest(Rest(c))))
    ensures Four(LeadValue(4, Rest(Rest(Rest(c)))), TailValue(Rest(Rest(c))), TailValue(Rest(c)), TailValue(c)) == c
  {
  }

  lemma LeadsAreLeads(c: bv32)
    ensures LeadFits(1, c) ==> IsLead(1, LeadValue(1, c)) && LeadValue(1, c) == c
    ensures LeadFits(3, c) ==> IsLead(3, LeadValue(3, c)) && !IsLead(2, LeadValue(3, c)) && !IsLead(1, LeadValue(3, c))
    ensures LeadFits(4, c) ==> IsLead(4, LeadValue(4, c)) && !IsLead(3, LeadValue(4, c))
    ensures LeadFits(4, c) ==> !IsLead(2, LeadValue(4, c)) && !IsLead(1, LeadValue(4, c))
  {
  }

  lemma TailsAreTails(c: bv32)
    ensures IsTail(TailValue(c)) && BitsOf(Continuation(c)) == TailValue(c)
  {
  }

  /** What is written for a scalar is read back as that scalar, whatever follows. */
  lemma DecodeUndoesUtf8(c: bv32, tail: string)
    requires IsScalar(c)
    ensures DecodeUtf8(Utf8(c) + tail) == Some((c, |Utf8(c)|))
  {
    hide BitsOf, Octet, Continuation, TailValue, LeadValue, Rest, LeadFits, IsLead, IsTail, Two, Three, Four;
    var s, u := Utf8(c) + tail, Utf8(c);
    RestsFit(c);
    TailsAreTails(c);
    TailsAreTails(Rest(c));
    TailsAreTails(Rest(Rest(c)));
    if c < 0x80 {
      assert s[0] == u[0];
      LeadsAreLeads(c);
    } else if c < 0x800 {
      assert s[0] == u[0] && s[1] == u[1];
      TwoParts(c);
    } else if c < 0x10000 {
      assert s[0] == u[0] && s[1] == u[1] && s[2] == u[2];
      LeadsAreLeads(Rest(Rest(c)));
      ThreeParts(c);
    } else {
      assert s[0] == u[0] && s[1] == u[1] && s[2] == u[2] && s[3] == u[3];
      LeadsAreLeads(Rest(Rest(Rest(c))));
      FourParts(c);
    }
  }

  // What the bit operations of the source compute.

  lemma LastSixBits(x: bv32)
    ensures (x | 0x80) & 0xBF == 0x80 + x % 64
  {
  }

  lemma DropSixBits(x: bv32)
    ensures x >> 6 == x / 64
  {
  }

  lemma LeadBits(x: bv32, mark: bv32)
    requires (mark == 0 && x < 0x80) || (mark == 0xC0 && x < 0x20) || (mark == 0xE0 && x < 0x10) || (mark == 0xF0 && x < 8)
    ensures x | mark == mark + x
  {
  }

  // A continuation octet, and the rest of the scalar.
  method StoreLastSix(out: array<char>, p: nat, uc: bv32) returns (rest: bv32)
    requires p < out.Length
    modifies out
    ensures out[p] == Continuation(uc) && rest == Rest(uc)
    ensures forall i :: 0 <= i < out.Length && i != p ==> out[i] == old(out[i])
  {
    LastSixBits(uc);
    DropSixBits(uc);
    out[p] := Octet((uc | 0x80) & 0xBF);
    rest := uc >> 6;
  }

  method StoreLead(out: array<char>, p: nat, uc: bv32, len: nat)
    requires p < out.Length && LeadFits(len, uc)
    modifies out
    ensures out[p] == Lead(len, uc)
    ensures forall i :: 0 <= i < out.Length && i != p ==> out[i] == old(out[i])
  {
    LeadBits(uc, FirstByteMark(len));
    out[p] := Octet(uc | FirstByteMark(len));
  }

  // Write the octets backwards from ptr + len, as the cases of the switch fall through.
  method StoreUtf8(out: array<char>, ptr: nat, scalar: bv32) returns (end: nat)
    requires IsScalar(scalar) && ptr + |Utf8(scalar)| <= out.Length
    modifies out
    ensures end == ptr + |Utf8(scalar)| && out[..end] == old(out[..ptr]) + Utf8(scalar)
  {
    hide Octet, Lead, Continuation, Rest, LeadFits;
    RestsFit(scalar);
    var uc, len := scalar, 4;
    if uc < 0x80 { len := 1; } else if uc < 0x800 { len := 2; } else if uc < 0x10000 { len := 3; }
    end := ptr + len;
    var p := end;
    if len >= 4 { p := p - 1; uc := StoreLastSix(out, p, uc); }
    if len >= 3 { p := p - 1; uc := StoreLastSix(out, p, uc); }
    if len >= 2 { p := p - 1; uc := StoreLastSix(out, p, uc); }
    p := p - 1;
    StoreLead(out, p, uc, len);
    assert forall i :: 0 <= i < len ==> out[ptr + i] == Utf8(scalar)[i];
    Stored(out, old(out[..ptr]), ptr, Utf8(scalar));
  }

  lemma Stored(out: array<char>, before: string, ptr: nat, s: string)
    requires ptr + |s| <= out.Length && |before| == ptr && out[..ptr] == before
    requires forall i :: 0 <= i < |s| ==> out[ptr + i] == s[i]
    ensures out[..ptr + |s|] == before + s
  {
    assert out[ptr..ptr + |s|] == s;
  }

  // ---- writing into a buffer ----

  method PutChar(out: array<char>, ptr: nat, c: char) returns (end: nat)
    requires ptr < out.Length
    modifies out
    ensures end == ptr + 1 && out[..end] == old(out[..ptr]) + [c]
  {
    out[ptr] := c;
    end := ptr + 1;
  }

  /** `strcpy`: the text and a NUL behind it. */
  method StrCpy(out: array<char>, ptr: nat, text: string) returns (end: nat)
    requires NulFree(text) && ptr + |text| < out.Length
    modifies out
    ensures end == ptr + |text| && out[..end] == old(out[..ptr]) + text
  {
    forall i | 0 <= i < |text| { out[ptr + i] := text[i]; }
    end := ptr + |text|;
    out[end] := NUL;
    assert out[..end] == out[..ptr] + out[ptr..end];
  }

  // ---- printing ----

  predicate HasShortEscape(c: char)
  {
    c == '"' || c == '\\' || c == BACKSPACE || c == FORM_FEED || c == '\n' || c == '\r' || c == '\t'
  }

  /** How a character is written in a literal. */
  function EscapeOf(c: char): (r: string)
    ensures c != NUL ==> NulFree(r)
    ensures |r| == if HasShortEscape(c) then 2 else if c as int < 32 then 6 else 1
  {
    if c == '"' || c == '\\' then ['\\', c]
    else if c == BACKSPACE then "\\b"
    else if c == FORM_FEED then "\\f"
    else if c == '\n' then "\\n"
    else if c == '\r' then "\\r"
    else if c == '\t' then "\\t"
    else if c as int < 32 then ['\\', 'u', '0', '0', HexDigit(c as int / 16), HexDigit(c as int % 16)]
    else [c]
  }

  function Escaped(s: string): (r: string)
    ensures NulFree(s) ==> NulFree(r)
  {
    if s == [] then [] else EscapeOf(s[0]) + Escaped(s[1..])
  }

  /** The literal for a string. */
  function Literal(s: string): (r: string)
    ensures NulFree(s) ==> NulFree(r)
  {
    "\"" + Escaped(s) + "\""
  }

  lemma EscapedCons(c: char, t: string)
    ensures Escaped([c] + t) == EscapeOf(c) + Escaped(t)
  {
    assert ([c] + t)[1..] == t;
  }

  lemma {:induction false} EscapedAppend(s: string, t: string)
    ensures Escaped(s + t) == Escaped(s) + Escaped(t)
  {
    hide EscapeOf, Escaped;
    if s == [] {
      EscapedNone(s);
      assert s[..0] == s && s + t == t && [] + Escaped(t) == Escaped(t);
    } else {
      var rest := s[1..];
      assert s == [s[0]] + rest;
      assert s + t == [s[0]] + (rest + t);
      EscapedAppend(rest, t);
      EscapedCons(s[0], rest);
      EscapedCons(s[0], rest + t);
      Associated(EscapeOf(s[0]), Escaped(rest), Escaped(t));
    }
  }

  lemma Associated(a: string, b: string, c: string)
    ensures a + (b + c) == a + b + c
  {
  }

  lemma EscapedNext(s: string, i: nat)
    requires i < |s|
    ensures Escaped(s[..i + 1]) == Escaped(s[..i]) + EscapeOf(s[i])
    ensures |Escaped(s)| == |Escaped(s[..i])| + |EscapeOf(s[i])| + |Escaped(s[i + 1..])|
  {
    hide EscapeOf;
    assert s[..i + 1] == s[..i] + [s[i]] && [s[i]][1..] == [];
    EscapedAppend(s[..i], [s[i]]);
    assert Escaped([s[i]]) == EscapeOf(s[i]) + Escaped([]);
    assert s == s[..i + 1] + s[i + 1..];
    EscapedAppend(s[..i + 1], s[i + 1..]);
  }

  // The first pass of `print_string_ptr`.
  method EscapedLength(str: string) returns (len: nat)
    requires NulFree(str)
    ensures len == |Escaped(str)|
  {
    hide EscapeOf, Escaped;
    var ptr := 0;
    len := 0;
    EscapedNone(str);
    while At(str, ptr) != NUL
      invariant ptr <= |str| && len == |Escaped(str[..ptr])|
      decreases |str| - ptr
    {
      EscapedNext(str, ptr);
      var token := str[ptr];
      len := len + 1;
      if HasShortEscape(token) { len := len + 1; } else if token as int < 32 { len := len + 5; }
      ptr := ptr + 1;
    }
    EndsAtNul(str, ptr);
  }

  lemma EscapedNone(s: string)
    ensures Escaped(s[..0]) == []
  {
  }

  lemma EndsAtNul(s: string, p: nat)
    requires NulFree(s) && p <= |s| && At(s, p) == NUL
    ensures p == |s| && s[..p] == s
  {
  }

  // The escape of one character, written as the switch does.
  method PutEscape(out: array<char>, ptr: nat, c: char) returns (end: nat)
    requires ptr + |EscapeOf(c)| < out.Length && (c == '"' || c == '\\' || c as int < 32)
    modifies out
    ensures end == ptr + |EscapeOf(c)| && out[..end] == old(out[..ptr]) + EscapeOf(c)
  {
    ghost var before := out[..ptr];
    end := PutChar(out, ptr, '\\');
    var letter := match c
      case '\\' => "\\"
      case '"' => "\""
      case '\n' => "n"
      case '\r' => "r"
      case '\t' => "t"
      case _ => if c == BACKSPACE then "b" else if c == FORM_FEED then "f"
                else ['u', '0', '0', HexDigit(c as int / 16), HexDigit(c as int % 16)];
    end := StrCpy(out, end, letter);
    assert before + ['\\'] + letter == before + (['\\'] + letter);
  }

  /** `print_string_ptr`: what is written fits the buffer the first pass measured. */
  method PrintStringPtr(str: string) returns (text: string)
    requires NulFree(str)
    ensures text == Literal(str)
  {
    hide EscapeOf, Escaped;
    var len := EscapedLength(str);
    var out := new char[len + 3];
    var ptr2 := PutChar(out, 0, '"');
    var ptr := 0;
    EscapedNone(str);
    assert str[0..] == str;
    while At(str, ptr) != NUL
      invariant ptr <= |str| && 0 <= ptr2 <= out.Length && out[..ptr2] == "\"" + Escaped(str[..ptr])
      invariant ptr2 + |Escaped(str[ptr..])| + 2 == out.Length
      decreases |str| - ptr
    {
      EscapedNext(str, ptr);
      TailOfEscaped(str, ptr);
      var c := str[ptr];
      if c as int > 31 && c != '"' && c != '\\' {
        EscapeOfPlain(c);
        ptr2 := PutChar(out, ptr2, c);
      } else {
        ptr2 := PutEscape(out, ptr2, c);
      }
      ptr := ptr + 1;
      assert "\"" + (Escaped(str[..ptr - 1]) + EscapeOf(c)) == "\"" + Escaped(str[..ptr - 1]) + EscapeOf(c);
    }
    EndsAtNul(str, ptr);
    ptr2 := PutChar(out, ptr2, '"');
    text := out[..ptr2];
    ptr2 := PutChar(out, ptr2, NUL);
  }

  lemma TailOfEscaped(s: string, i: nat)
    requires i < |s|
    ensures Escaped(s[i..]) == EscapeOf(s[i]) + Escaped(s[i + 1..])
  {
    assert s[i..][1..] == s[i + 1..];
  }

  lemma EscapeOfPlain(c: char)
    requires c as int > 31 && c != '"' && c != '\\'
    ensures EscapeOf(c) == [c]
  {
  }

  // ---- parsing ----

  /** What a parser finds at the front of a text. `Undefined` is text the model gives no meaning:
      see the README. */
  datatype Outcome<T> = Parsed(value: T, rest: string) | Failed | Undefined

  /** The same for a parser that moves a pointer through `s`. */
  datatype Scan<T> = Got(value: T, end: nat) | No | Unknown
  {
    function From(s: string): Outcome<T>
    {
      match this
      case Got(v, end) => if end <= |s| then Parsed(v, s[end..]) else Failed
      case No => Failed
      case Unknown => Undefined
    }

    predicate Within(s: string)
    {
      Got? ==> end <= |s|
    }
  }

  predicate IsHex4(t: string, p: nat)
  {
    p + 4 <= |t| && IsHexDigit(t[p]) && IsHexDigit(t[p + 1]) && IsHexDigit(t[p + 2]) && IsHexDigit(t[p + 3])
  }

  function HexBits(c: char): (d: bv32)
    ensures d < 16
  {
    Nibble(HexDigitToInt(c))
  }

  function Nibble(n: nat): (d: bv32)
    requires n < 16
    ensures d < 16 && d as nat == n
  {
    n as bv32
  }

  /** The value of four digits of either case. */
  function Hex4(t: string, p: nat): (h: bv32)
    requires IsHex4(t, p)
    ensures h < 0x10000
  {
    FromDigits(HexBits(t[p]), HexBits(t[p + 1]), HexBits(t[p + 2]), HexBits(t[p + 3]))
  }

  function FromDigits(a: bv32, b: bv32, c: bv32, d: bv32): (h: bv32)
    requires a < 16 && b < 16 && c < 16 && d < 16
    ensures h < 0x10000
  {
    a * 0x1000 + b * 0x100 + c * 0x10 + d
  }

  predicate IsHigh(uc: bv32)
  {
    0xD800 <= uc <= 0xDBFF
  }

  predicate IsLow(uc: bv32)
  {
    0xDC00 <= uc <= 0xDFFF
  }

  /** The scalar of a surrogate pair. */
  function Combined(high: bv32, low: bv32): (c: bv32)
    requires IsHigh(high) && IsLow(low)
    ensures 0x10000 <= c < 0x110000
  {
    0x10000 + (high - 0xD800) * 0x400 + (low - 0xDC00)
  }

  function PairBits(uc: bv32, uc2: bv32): bv32
  {
    0x10000 + (((uc & 0x3FF) << 10) | (uc2 & 0x3FF))
  }

  lemma PairBitsCombine(uc: bv32, uc2: bv32)
    requires IsHigh(uc) && IsLow(uc2)
    ensures PairBits(uc, uc2) == Combined(uc, uc2)
  {
  }

  /** One character or escape at the front of a literal: the bytes it stands for and its length. */
  datatype Unit = Unit(bytes: string, size: nat) | Malformed

  /** The `\u` escapes. NUL, a low surrogate on its own, and a high surrogate without a low one
      behind it are dropped. */
  function UnicodeUnit(t: string): (u: Unit)
    requires |t| >= 2
    ensures u.Unit? ==> 1 <= u.size <= |t|
  {
    if !IsHex4(t, 2) then Malformed
    else
      var uc := Hex4(t, 2);
      if IsLow(uc) || uc == 0 then Unit([], 6)
      else if !IsHigh(uc) then Unit(Utf8(uc), 6)
      else if |t| < 8 || t[6] != '\\' || t[7] != 'u' then Unit([], 6)
      else if !IsHex4(t, 8) then Malformed
      else
        var uc2 := Hex4(t, 8);
        if !IsLow(uc2) then Unit([], 12) else Unit(Utf8(Combined(uc, uc2)), 12)
  }

  function UnitAt(t: string): (u: Unit)
    requires t != []
    ensures u.Unit? ==> 1 <= u.size <= |t|
  {
    if t[0] != '\\' then Unit([t[0]], 1)
    else if |t| < 2 then Malformed
    else match t[1]
      case 'b' => Unit([BACKSPACE], 2)
      case 'f' => Unit([FORM_FEED], 2)
      case 'n' => Unit("\n", 2)
      case 'r' => Unit("\r", 2)
      case 't' => Unit("\t", 2)
      case 'u' => UnicodeUnit(t)
      case c => Unit([c], 2)
  }

  /** The bytes of a literal up to its closing quote, and what follows the quote. A literal that is
      not closed ends with the text. */
  function Unescape(t: string): (r: Option<(string, string)>)
    ensures r.Some? ==> |r.value.1| <= |t|
    decreases |t|
  {
    if t == [] then Some(([], []))
    else if t[0] == '"' then Some(([], t[1..]))
    else match UnitAt(t)
      case Malformed => None
      case Unit(bytes, size) => InFront(bytes, Unescape(t[size..]))
  }

  function InFront(bytes: string, r: Option<(string, string)>): Option<(string, string)>
  {
    match r
    case None => None
    case Some((out, rest)) => Some((bytes + out, rest))
  }

  function ParseLiteral(t: string): (r: Outcome<string>)
    ensures r.Parsed? ==> |r.rest| < |t|
  {
    if t == [] || t[0] != '"' then Failed
    else match Unescape(t[1..])
      case None => Undefined
      case Some((out, rest)) => Parsed(out, rest)
  }

  /** Four digits, of either case, that spell a scalar other than NUL are read as its octets. */
  lemma EscapedScalarIsUtf8(t: string)
    requires "\\u" <= t && IsHex4(t, 2) && IsScalar(Hex4(t, 2)) && Hex4(t, 2) != 0
    ensures UnitAt(t) == Unit(Utf8(Hex4(t, 2)), 6)
  {
    hide Utf8, Hex4, IsHex4, IsHigh, IsLow, IsScalar;
    ScalarIsNoSurrogate(Hex4(t, 2));
  }

  lemma ScalarIsNoSurrogate(uc: bv32)
    requires IsScalar(uc)
    ensures !IsHigh(uc) && !IsLow(uc)
  {
  }

  /** So are two escapes that spell the surrogates of a scalar, as in section 7 of RFC 8259. */
  lemma EscapedPairIsUtf8(t: string, c: bv32)
    requires 0x10000 <= c < 0x110000
    requires "\\u" <= t && IsHex4(t, 2) && Hex4(t, 2) == 0xD800 + (c - 0x10000) / 0x400
    requires |t| >= 8 && t[6..8] == "\\u" && IsHex4(t, 8) && Hex4(t, 8) == 0xDC00 + (c - 0x10000) % 0x400
    ensures UnitAt(t) == Unit(Utf8(c), 12)
  {
    hide Utf8, Hex4, IsHex4;
    assert t[6] == t[6..8][0] && t[7] == t[6..8][1];
    Surrogates(c);
  }

  lemma Surrogates(c: bv32)
    requires 0x10000 <= c < 0x110000
    ensures var high, low := 0xD800 + (c - 0x10000) / 0x400, 0xDC00 + (c - 0x10000) % 0x400;
            IsHigh(high) && IsLow(low) && Combined(high, low) == c
  {
  }

  /** What the first pass of `parse_string` counts and how far it goes; None when it runs past the
      end. An escape counts as one, whatever its kind. */
  datatype Pass = Pass(count: nat, close: nat)

  function FirstPass(t: string): (r: Option<Pass>)
    ensures r.Some? ==> r.value.close <= |t| && (r.value.close < |t| ==> t[r.value.close] == '"')
    decreases |t|
  {
    if t == [] || t[0] == '"' then Some(Pass(0, 0))
    else if t[0] != '\\' then Later(1, 1, FirstPass(t[1..]))
    else if |t| < 2 then None
    else Later(1, 2, FirstPass(t[2..]))
  }

  function Later(count: nat, size: nat, r: Option<Pass>): Option<Pass>
  {
    match r
    case None => None
    case Some(pass) => Some(Pass(count + pass.count, size + pass.close))
  }

  lemma LaterTwice(c1: nat, n1: nat, c2: nat, n2: nat, r: Option<Pass>)
    ensures Later(c1, n1, Later(c2, n2, r)) == Later(c1 + c2, n1 + n2, r) && Later(0, 0, r) == r
    ensures Later(c1, n1, None) == None
  {
  }

  lemma {:induction false} PlainRun(t: string, n: nat)
    requires n <= |t| && forall i :: 0 <= i < n ==> t[i] != '"' && t[i] != '\\'
    ensures FirstPass(t) == Later(n, n, FirstPass(t[n..]))
    decreases n
  {
    hide Later;
    if n == 0 {
      assert t[0..] == t;
      LaterTwice(0, 0, 0, 0, FirstPass(t));
    } else {
      PlainRun(t[1..], n - 1);
      assert t[1..][n - 1..] == t[n..];
      LaterTwice(1, 1, n - 1, n - 1, FirstPass(t[n..]));
    }
  }

  lemma EscapeCounts(t: string)
    requires |t| >= 2 && t[0] == '\\'
    ensures FirstPass(t) == Later(1, 2, FirstPass(t[2..]))
  {
  }

  lemma UnicodeCounts(t: string)
    requires |t| >= 2 && t[0] == '\\' && t[1] == 'u' && IsHex4(t, 2)
    ensures FirstPass(t) == Later(5, 6, FirstPass(t[6..]))
  {
    hide FirstPass;
    EscapeCounts(t);
    PlainRun(t[2..], 4);
    assert t[2..][4..] == t[6..];
  }

  /** What the first pass counts for a unit: never less than the bytes written for it. */
  function Weight(t: string): (c: nat)
    requires t != [] && UnitAt(t).Unit?
    ensures c >= |UnitAt(t).bytes|
  {
    if t[0] == '\\' && t[1] == 'u' then if UnitAt(t).size == 12 then 10 else 5 else 1
  }

  lemma UnitCounts(t: string)
    requires t != [] && t[0] != '"' && UnitAt(t).Unit?
    ensures FirstPass(t) == Later(Weight(t), UnitAt(t).size, FirstPass(t[UnitAt(t).size..]))
  {
    hide FirstPass, Utf8, Hex4, IsHigh, IsLow, Combined;
    if t[0] != '\\' {
      PlainRun(t, 1);
    } else if t[1] != 'u' {
      EscapeCounts(t);
    } else {
      UnicodeCounts(t);
      if UnitAt(t).size == 12 {
        UnicodeCounts(t[6..]);
        assert t[6..][6..] == t[12..];
      }
    }
  }

  /** The counting pass bounds what the second pass writes, and both stop at the same quote. */
  lemma {:induction false} CountBoundsWrites(t: string)
    requires Unescape(t).Some?
    ensures FirstPass(t).Some? && |Unescape(t).value.0| <= FirstPass(t).value.count
    ensures var close := FirstPass(t).value.close;
            Unescape(t).value.1 == if close < |t| then t[close + 1..] else []
    decreases |t|
  {
    hide UnitAt, Weight;
    if t != [] && t[0] != '"' {
      var n := UnitAt(t).size;
      UnitCounts(t);
      CountBoundsWrites(t[n..]);
    }
  }

  // ---- printing and parsing ----

  lemma Nibbles(n: nat)
    requires 0 < n < 32
    ensures var b := FromDigits(Nibble(0), Nibble(0), Nibble(n / 16), Nibble(n % 16));
            b as nat == n && 0 < b < 0x20
  {
    assert n < 16 ==> n / 16 == 0;
    assert n >= 16 ==> n / 16 == 1;
    assert Nibble(0) == 0 && Nibble(1) == 1;
  }

  lemma DigitBits(n: nat)
    requires n < 16
    ensures HexBits(HexDigit(n)) == Nibble(n) && HexDigit(0) == '0'
  {
  }

  // The four digits written for a control character spell it.
  lemma ControlDigits(c: char, t: string)
    requires 0 < c as int < 32 && ['\\', 'u', '0', '0', HexDigit(c as int / 16), HexDigit(c as int % 16)] <= t
    ensures IsHex4(t, 2) && 0 < Hex4(t, 2) < 0x20 && Octet(Hex4(t, 2)) == c
  {
    hide HexBits, IsHexDigit, HexDigit, Octet, FromDigits;
    ControlBits(c);
    assert t[2] == '0' && t[3] == '0' && t[4] == HexDigit(c as int / 16) && t[5] == HexDigit(c as int % 16);
    DigitBits(0);
  }

  lemma ControlBits(c: char)
    requires 0 < c as int < 32
    ensures var high, low := HexDigit(c as int / 16), HexDigit(c as int % 16);
            var h := FromDigits(HexBits('0'), HexBits('0'), HexBits(high), HexBits(low));
            0 < h < 0x20 && Octet(h) == c
  {
    hide HexBits, HexDigit, Octet, FromDigits, Nibble;
    Nibbles(c as int);
    DigitBits(0);
    DigitBits(c as int / 16);
    DigitBits(c as int % 16);
    OctetOf(FromDigits(Nibble(0), Nibble(0), Nibble(c as int / 16), Nibble(c as int % 16)), c);
  }

  lemma OctetOf(b: bv32, c: char)
    requires b < 0x20 && b as nat == c as nat
    ensures Octet(b) == c
  {
  }

  lemma UnitOfControl(c: char, t: string)
    requires 0 < c as int < 32 && ['\\', 'u', '0', '0', HexDigit(c as int / 16), HexDigit(c as int % 16)] <= t
    ensures UnitAt(t) == Unit([c], 6)
  {
    hide Hex4, HexDigit, Octet, LeadFits;
    ControlDigits(c, t);
    SmallIsOneOctet(Hex4(t, 2));
  }

  lemma SmallIsOneOctet(h: bv32)
    requires 0 < h < 0x20
    ensures !IsHigh(h) && !IsLow(h) && IsScalar(h) && Utf8(h) == [Octet(h)]
  {
    hide Octet;
  }

  /** An escape is read as the character it was written for. */
  lemma UnitOfEscape(c: char, tail: string)
    requires c != NUL
    ensures EscapeOf(c)[0] != '"' && UnitAt(EscapeOf(c) + tail) == Unit([c], |EscapeOf(c)|)
  {
    hide UnicodeUnit;
    var t := EscapeOf(c) + tail;
    assert forall i :: 0 <= i < |EscapeOf(c)| ==> t[i] == EscapeOf(c)[i];
    if c as int < 32 && !HasShortEscape(c) {
      assert EscapeOf(c) <= t;
      UnitOfControl(c, t);
    }
  }

  lemma {:induction false} UnescapeUndoesEscaped(s: string, tail: string)
    requires NulFree(s)
    ensures Unescape(Escaped(s) + ("\"" + tail)) == Some((s, tail))
  {
    hide EscapeOf, UnitAt;
    if s == [] {
      assert Escaped(s) + ("\"" + tail) == "\"" + tail;
    } else {
      var rest := Escaped(s[1..]) + ("\"" + tail);
      var t := EscapeOf(s[0]) + rest;
      UnitOfEscape(s[0], rest);
      UnescapeUndoesEscaped(s[1..], tail);
      assert Escaped(s) + ("\"" + tail) == t;
      assert t[|EscapeOf(s[0])|..] == rest && t[0] == EscapeOf(s[0])[0];
      assert [s[0]] + s[1..] == s;
    }
  }

  /** A printed literal is parsed as the string it was printed for. */
  lemma ParseUndoesLiteral(s: string, tail: string)
    requires NulFree(s)
    ensures ParseLiteral(Literal(s) + tail) == Parsed(s, tail)
  {
    hide Unescape, Escaped;
    UnescapeUndoesEscaped(s, tail);
    assert (Literal(s) + tail)[1..] == Escaped(s) + ("\"" + tail);
  }

  // ---- the parser ----

  method ParseHex4(s: string, p: nat) returns (h: bv32)
    requires p <= |s| && NulFree(s)
    ensures h == if IsHex4(s, p) then Hex4(s, p) else 0
  {
    hide HexBits;
    h := 0;
    if !IsHexDigit(At(s, p)) { return 0; }
    h := (h + HexBits(s[p])) << 4;
    if !IsHexDigit(At(s, p + 1)) { return 0; }
    h := (h + HexBits(s[p + 1])) << 4;
    if !IsHexDigit(At(s, p + 2)) { return 0; }
    h := (h + HexBits(s[p + 2])) << 4;
    if !IsHexDigit(At(s, p + 3)) { return 0; }
    h := h + HexBits(s[p + 3]);
    FourShifts(HexBits(s[p]), HexBits(s[p + 1]), HexBits(s[p + 2]), HexBits(s[p + 3]));
  }

  lemma FourShifts(a: bv32, b: bv32, c: bv32, d: bv32)
    requires a < 16 && b < 16 && c < 16 && d < 16
    ensures ((((((0 + a) << 4) + b) << 4) + c) << 4) + d == a * 0x1000 + b * 0x100 + c * 0x10 + d
  {
  }

  // The first pass: the length needed, or None.
  method CountUnits(s: string, p: nat) returns (len: Option<nat>)
    requires p <= |s| && NulFree(s)
    ensures FirstPass(s[p..]) == None <==> len == None
    ensures len.Some? ==> len.value == FirstPass(s[p..]).value.count
  {
    hide Later, FirstPass;
    var ptr, n: nat := p, 0;
    ghost var m: nat := 0;
    LaterTwice(0, 0, 0, 0, FirstPass(s[p..]));
    while At(s, ptr) != '"' && At(s, ptr) != NUL
      invariant p <= ptr <= |s| && FirstPass(s[p..]) == Later(n, m, FirstPass(s[ptr..]))
      decreases |s| - ptr
    {
      PassTurn(s, ptr, n, m);
      n := n + 1;
      ptr := ptr + 1;
      m := m + 1;
      if s[ptr - 1] == '\\' {
        if ptr == |s| { return None; }
        ptr := ptr + 1;
        m := m + 1;
      }
    }
    PassEnds(s, ptr, n, m);
    return Some(n);
  }

  // One turn of the first pass.
  lemma PassTurn(s: string, ptr: nat, n: nat, m: nat)
    requires ptr < |s| && s[ptr] != '"'
    ensures s[ptr] != '\\' ==> Later(n, m, FirstPass(s[ptr..])) == Later(n + 1, m + 1, FirstPass(s[ptr + 1..]))
    ensures s[ptr] == '\\' && ptr + 1 == |s| ==> Later(n, m, FirstPass(s[ptr..])) == None
    ensures s[ptr] == '\\' && ptr + 1 < |s| ==> Later(n, m, FirstPass(s[ptr..])) == Later(n + 1, m + 2, FirstPass(s[ptr + 2..]))
  {
    hide Later, FirstPass;
    var t := s[ptr..];
    assert t[1..] == s[ptr + 1..] && (|t| >= 2 ==> t[2..] == s[ptr + 2..]);
    PassStep(t);
    LaterTwice(n, m, 1, 1, None);
    if s[ptr] != '\\' {
      LaterTwice(n, m, 1, 1, FirstPass(t[1..]));
    } else if |t| >= 2 {
      LaterTwice(n, m, 1, 2, FirstPass(t[2..]));
    }
  }

  lemma PassStep(t: string)
    requires t != [] && t[0] != '"'
    ensures FirstPass(t) == if t[0] != '\\' then Later(1, 1, FirstPass(t[1..]))
                            else if |t| < 2 then None else Later(1, 2, FirstPass(t[2..]))
  {
  }

  lemma PassEnds(s: string, ptr: nat, n: nat, m: nat)
    requires NulFree(s) && ptr <= |s| && (At(s, ptr) == '"' || At(s, ptr) == NUL)
    ensures Later(n, m, FirstPass(s[ptr..])) == Some(Pass(n, m))
  {
  }

  lemma NotSurrogate(uc: bv32)
    requires !IsHigh(uc) && !IsLow(uc) && uc < 0x10000
    ensures IsScalar(uc)
  {
  }

  lemma Hex4Shift(s: string, q: nat, p: nat)
    requires q <= |s| && IsHex4(s, q + p)
    ensures IsHex4(s[q..], p) && Hex4(s[q..], p) == Hex4(s, q + p)
  {
    hide HexBits;
  }

  lemma NoHex4(s: string, q: nat, p: nat)
    requires q <= |s| && !IsHex4(s, q + p)
    ensures !IsHex4(s[q..], p)
  {
  }

  // The `\u` escape at q.
  method UnescapeUnicode(s: string, q: nat, out: array<char>, w: nat) returns (ok: bool, next: nat, end: nat)
    requires NulFree(s) && q + 2 <= |s| && s[q] == '\\' && s[q + 1] == 'u' && w <= out.Length
    requires UnitAt(s[q..]).Unit? ==> w + |UnitAt(s[q..]).bytes| <= out.Length
    modifies out
    ensures ok <==> UnitAt(s[q..]).Unit?
    ensures ok ==> next == q + UnitAt(s[q..]).size && end == w + |UnitAt(s[q..]).bytes|
    ensures ok ==> out[..end] == old(out[..w]) + UnitAt(s[q..]).bytes
  {
    hide Utf8, Hex4, IsHex4, IsHigh, IsLow, Combined, PairBits;
    ghost var t := s[q..];
    end := w;
    if !IsHex4(s, q + 2) { NoHex4(s, q, 2); return false, q, w; }
    var uc := ParseHex4(s, q + 2);
    Hex4Shift(s, q, 2);
    next := q + 6;
    if IsLow(uc) || uc == 0 { return true, next, w; }
    if IsHigh(uc) {
      if At(s, q + 6) != '\\' || At(s, q + 7) != 'u' { return true, next, w; }
      if !IsHex4(s, q + 8) { NoHex4(s, q, 8); return false, q, w; }
      var uc2 := ParseHex4(s, q + 8);
      Hex4Shift(s, q, 8);
      next := q + 12;
      if !IsLow(uc2) { return true, next, w; }
      PairBitsCombine(uc, uc2);
      uc := PairBits(uc, uc2);
    } else {
      NotSurrogate(uc);
    }
    end := StoreUtf8(out, w, uc);
    ok := true;
  }

  // The escape at q.
  method UnescapeUnit(s: string, q: nat, out: array<char>, w: nat) returns (ok: bool, next: nat, end: nat)
    requires NulFree(s) && q + 2 <= |s| && s[q] == '\\' && w <= out.Length
    requires UnitAt(s[q..]).Unit? ==> w + |UnitAt(s[q..]).bytes| <= out.Length
    modifies out
    ensures ok <==> UnitAt(s[q..]).Unit?
    ensures ok ==> next == q + UnitAt(s[q..]).size && end == w + |UnitAt(s[q..]).bytes|
    ensures ok ==> out[..end] == old(out[..w]) + UnitAt(s[q..]).bytes
  {
    hide UnicodeUnit;
    if s[q + 1] == 'u' {
      ok, next, end := UnescapeUnicode(s, q, out, w);
      return;
    }
    var c := match s[q + 1]
      case 'b' => BACKSPACE
      case 'f' => FORM_FEED
      case 'n' => '\n'
      case 'r' => '\r'
      case 't' => '\t'
      case other => other;
    end := PutChar(out, w, c);
    next := q + 2;
    ok := true;
  }

  method ParseString(s: string, p: nat) returns (r: Scan<string>)
    requires NulFree(s) && p <= |s|
    ensures r.Within(s) && r.From(s) == ParseLiteral(s[p..])
  {
    hide UnitAt, Unescape, FirstPass, Weight;
    if At(s, p) != '"' {
      return No;
    }
    assert s[p..][1..] == s[p + 1..];
    var len := CountUnits(s, p + 1);
    if len == None {
      PassNeeded(s[p + 1..]);
      return Unknown;
    }
    var out := new char[len.value + 1];
    var ptr, ptr2: nat := p + 1, 0;
    NothingInFront(out[..0], Unescape(s[ptr..]));
    while At(s, ptr) != '"' && At(s, ptr) != NUL
      invariant p < ptr <= |s| && ptr2 <= len.value && FirstPass(s[ptr..]).Some?
      invariant InFront(out[..ptr2], Unescape(s[ptr..])) == Unescape(s[p + 1..])
      invariant ptr2 + FirstPass(s[ptr..]).value.count <= len.value
      decreases |s| - ptr
    {
      UnescapeTurn(s, ptr, out[..ptr2]);
      if s[ptr] != '\\' {
        ptr2 := PutChar(out, ptr2, s[ptr]);
        ptr := ptr + 1;
      } else {
        var ok;
        ok, ptr, ptr2 := UnescapeUnit(s, ptr, out, ptr2);
        if !ok { return Unknown; }
      }
    }
    UnescapeEnds(s, ptr);
    var text := out[..ptr2];
    assert text + [] == text;
    out[ptr2] := NUL;
    if At(s, ptr) == '"' { ptr := ptr + 1; }
    return Got(text, ptr);
  }

  lemma PassNeeded(t: string)
    requires FirstPass(t) == None
    ensures Unescape(t) == None
  {
    if Unescape(t).Some? { CountBoundsWrites(t); }
  }

  lemma NothingInFront(none: string, r: Option<(string, string)>)
    requires none == []
    ensures InFront(none, r) == r
  {
    if r.Some? { assert [] + r.value.0 == r.value.0; }
  }

  // One unit of the second pass, and what the first pass counted for it.
  lemma UnescapeTurn(s: string, q: nat, before: string)
    requires NulFree(s) && q < |s| && s[q] != '"' && FirstPass(s[q..]).Some?
    ensures var u := UnitAt(s[q..]);
            match u
            case Malformed => InFront(before, Unescape(s[q..])) == None
            case Unit(bytes, size) =>
              && FirstPass(s[q + size..]).Some?
              && FirstPass(s[q..]).value.count >= |bytes| + FirstPass(s[q + size..]).value.count
              && InFront(before, Unescape(s[q..])) == InFront(before + bytes, Unescape(s[q + size..]))
    ensures s[q] != '\\' ==> UnitAt(s[q..]) == Unit([s[q]], 1)
    ensures s[q] == '\\' ==> q + 2 <= |s|
  {
    hide FirstPass, UnicodeUnit;
    var t := s[q..];
    PassStarts(t);
    if UnitAt(t).Unit? {
      UnitCounts(t);
      assert t[UnitAt(t).size..] == s[q + UnitAt(t).size..];
      if Unescape(t[UnitAt(t).size..]).Some? {
        var (out, rest) := Unescape(t[UnitAt(t).size..]).value;
        assert before + UnitAt(t).bytes + out == before + (UnitAt(t).bytes + out);
      }
    }
  }

  lemma PassStarts(t: string)
    requires FirstPass(t).Some?
    ensures t != [] && t[0] == '\\' ==> |t| >= 2
  {
  }

  lemma UnescapeEnds(s: string, q: nat)
    requires NulFree(s) && q <= |s| && (At(s, q) == '"' || At(s, q) == NUL)
    ensures Unescape(s[q..]) == Some(([], if q < |s| then s[q + 1..] else s[q..]))
  {
  }
}
