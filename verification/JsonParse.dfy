/** The parser of src/common/cJSON.c, on C strings whose numbers are integers in the range of `int`. */
module JsonParse {
  import opened CStrings
  import opened Decimal
  import opened JsonStrings
  import opened JsonPrint

  // ---- the grammar the code accepts ----

  predicate Starts(t: string, c: char)
  {
    t != [] && t[0] == c
  }

  predicate IsBlank(c: char)
  {
    c != NUL && c as int <= 32
  }

  function SkipBlanks(t: string): (r: string)
    ensures |r| <= |t|
  {
    if t != [] && IsBlank(t[0]) then SkipBlanks(t[1..]) else t
  }

  function LeadingDigits(t: string): (n: nat)
    ensures n <= |t| && AllDigits(t[..n])
  {
    if t != [] && IsDigit(t[0]) then
      assert t[1..][..LeadingDigits(t[1..])] == t[1..1 + LeadingDigits(t[1..])];
      1 + LeadingDigits(t[1..])
    else 0
  }

  function DropOne(t: string, c: char): string
  {
    if Starts(t, c) then t[1..] else t
  }

  /** A sign, at most one leading zero, and digits that do not begin with another zero. */
  function ParseNumber(t: string): (r: Outcome<Json>)
    ensures r.Parsed? && t != [] && (t[0] == '-' || IsDigit(t[0])) ==> |r.rest| < |t|
  {
    NumberOf(Starts(t, '-'), DropOne(DropOne(t, '-'), '0'))
  }

  function DigitCount(digits: string): (k: nat)
    ensures k <= |digits| && AllDigits(digits[..k])
    ensures digits != [] && '1' <= digits[0] <= '9' ==> k > 0
  {
    if Starts(digits, '0') then 0 else LeadingDigits(digits)
  }

  /** What may follow the digits is neither a fraction nor an exponent. */
  function NumberOf(negative: bool, digits: string): (r: Outcome<Json>)
    ensures r.Parsed? ==> |r.rest| <= |digits|
    ensures r.Parsed? && digits != [] && '1' <= digits[0] <= '9' ==> |r.rest| < |digits|
  {
    var k := DigitCount(digits);
    var n, rest := Signed(negative, Value(digits[..k])), digits[k..];
    if IsFraction(rest) || !(INT_MIN <= n <= INT_MAX) then Undefined else Parsed(Number(n), rest)
  }

  predicate IsFraction(rest: string)
  {
    Starts(rest, 'e') || Starts(rest, 'E') || (|rest| >= 2 && rest[0] == '.' && IsDigit(rest[1]))
  }

  function Before<T>(xs: seq<T>, r: Outcome<seq<T>>): Outcome<seq<T>>
  {
    match r
    case Parsed(ys, rest) => Parsed(xs + ys, rest)
    case Failed => Failed
    case Undefined => Undefined
  }

  function ParseValue(t: string): (r: Outcome<Json>)
    ensures r.Parsed? ==> |r.rest| < |t|
    decreases |t|, 0
  {
    if "null" <= t then Parsed(Null, t[4..])
    else if "false" <= t then Parsed(False, t[5..])
    else if "true" <= t then Parsed(True, t[4..])
    else if t == [] then Failed
    else if t[0] == '"' then
      match ParseLiteral(t)
      case Parsed(s, rest) => Parsed(String(s), rest)
      case Failed => Failed
      case Undefined => Undefined
    else if t[0] == '-' || IsDigit(t[0]) then ParseNumber(t)
    else if t[0] == '[' then
      var inner := SkipBlanks(t[1..]);
      if Starts(inner, ']') then Parsed(Array([]), inner[1..])
      else match ParseItems(inner)
        case Parsed(items, rest) => Parsed(Array(items), rest)
        case Failed => Failed
        case Undefined => Undefined
    else if t[0] == '{' then
      var inner := SkipBlanks(t[1..]);
      if Starts(inner, '}') then Parsed(Object([]), inner[1..])
      else match ParseMembers(inner)
        case Parsed(members, rest) => Parsed(Object(members), rest)
        case Failed => Failed
        case Undefined => Undefined
    else Failed
  }

  /** Items up to and with the closing bracket. */
  function ParseItems(t: string): (r: Outcome<seq<Json>>)
    ensures r.Parsed? ==> |r.rest| < |t|
    decreases |t|, 1
  {
    match ParseValue(t)
    case Parsed(j, rest) => Before([j], AfterItem(rest))
    case Failed => Failed
    case Undefined => Undefined
  }

  function AfterItem(t: string): (r: Outcome<seq<Json>>)
    ensures r.Parsed? ==> |r.rest| < |t|
    decreases |t|, 1
  {
    var u := SkipBlanks(t);
    if Starts(u, ',') then ParseItems(SkipBlanks(u[1..]))
    else if Starts(u, ']') then Parsed([], u[1..])
    else Failed
  }

  function ParseMember(t: string): (r: Outcome<Member>)
    ensures r.Parsed? ==> |r.rest| < |t|
    decreases |t|, 1
  {
    match ParseLiteral(t)
    case Failed => Failed
    case Undefined => Undefined
    case Parsed(name, rest) =>
      var u := SkipBlanks(rest);
      if !Starts(u, ':') then Failed
      else match ParseValue(SkipBlanks(u[1..]))
        case Failed => Failed
        case Undefined => Undefined
        case Parsed(value, after) => Parsed(Member(name, value), after)
  }

  function ParseMembers(t: string): (r: Outcome<seq<Member>>)
    ensures r.Parsed? ==> |r.rest| < |t|
    decreases |t|, 2
  {
    match ParseMember(t)
    case Parsed(m, rest) => Before([m], AfterMember(rest))
    case Failed => Failed
    case Undefined => Undefined
  }

  function AfterMember(t: string): (r: Outcome<seq<Member>>)
    ensures r.Parsed? ==> |r.rest| < |t|
    decreases |t|, 1
  {
    var u := SkipBlanks(t);
    if Starts(u, ',') then ParseMembers(SkipBlanks(u[1..]))
    else if Starts(u, '}') then Parsed([], u[1..])
    else Failed
  }

  // ---- facts for the pointer form ----

  lemma {:induction false} SkipTwice(t: string)
    ensures SkipBlanks(SkipBlanks(t)) == SkipBlanks(t)
  {
    if t != [] && IsBlank(t[0]) { SkipTwice(t[1..]); }
  }

  lemma BeforeTwice<T>(xs: seq<T>, x: T, r: Outcome<seq<T>>)
    ensures Before(xs, Before([x], r)) == Before(xs + [x], r)
  {
    if r.Parsed? { assert xs + ([x] + r.value) == xs + [x] + r.value; }
  }

  // ---- the parser ----

  method Skip(s: string, p: nat) returns (q: nat)
    requires NulFree(s) && p <= |s|
    ensures p <= q <= |s| && s[q..] == SkipBlanks(s[p..]) == SkipBlanks(s[q..])
  {
    q := p;
    while At(s, q) != NUL && At(s, q) as int <= 32
      invariant p <= q <= |s| && SkipBlanks(s[p..]) == SkipBlanks(s[q..])
      decreases |s| - q
    {
      assert s[q..][1..] == s[q + 1..];
      q := q + 1;
    }
  }

  lemma DigitsSnoc(t: string, c: char)
    requires AllDigits(t) && IsDigit(c)
    ensures AllDigits(t + [c]) && Value(t + [c]) == 10 * Value(t) + DigitValue(c)
  {
    assert (t + [c])[..|t|] == t;
  }

  // The digits from p on, as the accumulating loop reads them.
  method ReadDigits(s: string, p: nat) returns (n: nat, q: nat)
    requires NulFree(s) && p <= |s|
    ensures q == p + LeadingDigits(s[p..]) && n == Value(s[p..][..q - p])
  {
    n, q := 0, p;
    while IsDigit(At(s, q))
      invariant p <= q <= |s| && AllDigits(s[p..q]) && n == Value(s[p..q])
      invariant LeadingDigits(s[p..]) == q - p + LeadingDigits(s[q..])
      decreases |s| - q
    {
      DigitsSnoc(s[p..q], s[q]);
      assert s[p..q + 1] == s[p..q] + [s[q]];
      assert s[q..][1..] == s[q + 1..];
      n := n * 10 + DigitValue(s[q]);
      q := q + 1;
    }
    assert s[p..][..q - p] == s[p..q];
  }

  lemma DropAt(s: string, p: nat, c: char)
    requires p <= |s|
    ensures DropOne(s[p..], c) == s[if Starts(s[p..], c) then p + 1 else p..]
  {
  }

  lemma NumberAt(s: string, first: nat, num: nat, negative: bool)
    requires first <= |s| && num == first + DigitCount(s[first..])
    ensures num <= |s| && AllDigits(s[first..][..num - first])
    ensures var n := Signed(negative, Value(s[first..][..num - first]));
            NumberOf(negative, s[first..]) == if IsFraction(s[num..]) || !(INT_MIN <= n <= INT_MAX) then Undefined
                                              else Parsed(Number(n), s[num..])
  {
    hide DigitCount, Value, IsFraction;
    assert s[first..][num - first..] == s[num..];
  }

  method ReadNumber(s: string, p: nat) returns (r: Scan<Json>)
    requires NulFree(s) && p <= |s|
    ensures r.Within(s) && r.From(s) == ParseNumber(s[p..])
  {
    hide LeadingDigits, Value, NumberOf, DropOne;
    var num, negative, n: int := p, false, 0;
    DropAt(s, p, '-');
    if At(s, num) == '-' { negative, num := true, num + 1; }
    DropAt(s, num, '0');
    if At(s, num) == '0' { num := num + 1; }
    ghost var first := num;
    NoDigits(s[first..]);
    if '1' <= At(s, num) <= '9' { n, num := ReadDigits(s, num); }
    NumberAt(s, first, num, negative);
    if At(s, num) == '.' {
      if IsDigit(At(s, num + 1)) { return Unknown; }
    }
    if At(s, num) == 'e' || At(s, num) == 'E' { return Unknown; }
    n := if negative then -n else n;
    if !(INT_MIN <= n <= INT_MAX) { return Unknown; }
    return Got(Number(n), num);
  }

  lemma NoDigits(t: string)
    ensures t == [] || !IsDigit(t[0]) ==> LeadingDigits(t) == 0
    ensures AllDigits(t[..0]) && Value(t[..0]) == 0
  {
  }

  method ReadValue(s: string, p: nat) returns (r: Scan<Json>)
    requires NulFree(s) && p <= |s|
    ensures r.Within(s) && r.From(s) == ParseValue(s[p..])
    decreases |s| - p, 1
  {
    hide ParseNumber, ParseLiteral, ParseItems, ParseMembers, SkipBlanks;
    if "null" <= s[p..] { return Got(Null, p + 4); }
    if "false" <= s[p..] { return Got(False, p + 5); }
    if "true" <= s[p..] { return Got(True, p + 4); }
    if At(s, p) == '"' {
      var l := ParseString(s, p);
      match l {
        case Got(text, end) => return Got(String(text), end);
        case No => return No;
        case Unknown => return Unknown;
      }
    }
    if At(s, p) == '-' || IsDigit(At(s, p)) { r := ReadNumber(s, p); return; }
    if At(s, p) == '[' { r := ReadArray(s, p); return; }
    if At(s, p) == '{' { r := ReadObject(s, p); return; }
    return No;
  }

  // ---- arrays ----

  lemma ItemStep(s: string, v: nat)
    requires v <= |s|
    ensures ParseItems(s[v..]) == match ParseValue(s[v..])
                                  case Parsed(j, rest) => Before([j], AfterItem(rest))
                                  case Failed => Failed
                                  case Undefined => Undefined
    ensures AfterItem(s[v..]) == AfterItem(SkipBlanks(s[v..]))
  {
    hide ParseValue;
    SkipTwice(s[v..]);
  }

  lemma AfterItemStep(s: string, v: nat)
    requires v <= |s| && SkipBlanks(s[v..]) == s[v..]
    ensures Starts(s[v..], ',') ==> AfterItem(s[v..]) == ParseItems(SkipBlanks(s[v + 1..]))
    ensures Starts(s[v..], ']') ==> AfterItem(s[v..]) == Parsed([], s[v + 1..])
    ensures !Starts(s[v..], ',') && !Starts(s[v..], ']') ==> AfterItem(s[v..]) == Failed
  {
    hide ParseItems, SkipBlanks;
    if v < |s| { assert s[v..][1..] == s[v + 1..]; }
  }

  // One item and the blanks behind it.
  method ReadItem(s: string, p: nat, ghost before: seq<Json>) returns (r: Scan<Json>)
    requires NulFree(s) && p <= |s|
    ensures r.Within(s)
    ensures match r
            case Got(j, v) => Before(before, ParseItems(s[p..])) == Before(before + [j], AfterItem(s[v..]))
                              && SkipBlanks(s[v..]) == s[v..] && v > p
            case No => Before(before, ParseItems(s[p..])) == Failed
            case Unknown => Before(before, ParseItems(s[p..])) == Undefined
    decreases |s| - p, 2
  {
    hide ParseValue, SkipBlanks, ParseItems, AfterItem;
    ItemStep(s, p);
    r := ReadValue(s, p);
    match r {
      case Got(j, end) =>
        BeforeTwice(before, j, AfterItem(s[end..]));
        ItemStep(s, end);
        var v := Skip(s, end);
        return Got(j, v);
      case No =>
      case Unknown =>
    }
  }

  method ReadArray(s: string, p: nat) returns (r: Scan<Json>)
    requires NulFree(s) && p < |s| && s[p] == '['
    ensures r.Within(s) && r.From(s) == ParseValue(s[p..])
    decreases |s| - p, 0
  {
    hide SkipBlanks, ParseItems, AfterItem, ParseValue, Before;
    var v := Skip(s, p + 1);
    ArrayValue(s, p, v);
    if At(s, v) == ']' {
      return Got(Array([]), v + 1);
    }
    v := Skip(s, v);
    ghost var start := v;
    var items: seq<Json> := [];
    var item := ReadItem(s, v, items);
    while item.Got? && At(s, item.end) == ','
      invariant item.Within(s) && p < start <= |s|
      invariant item.Got? ==> item.end > start && SkipBlanks(s[item.end..]) == s[item.end..]
      invariant match item
                case Got(j, v) => Before([], ParseItems(s[start..])) == Before(items + [j], AfterItem(s[v..]))
                case No => Before([], ParseItems(s[start..])) == Failed
                case Unknown => Before([], ParseItems(s[start..])) == Undefined
      decreases if item.Got? then |s| - item.end else 0, item.Got?
    {
      AfterItemStep(s, item.end);
      items := items + [item.value];
      v := Skip(s, item.end + 1);
      item := ReadItem(s, v, items);
    }
    BeforeNothing(ParseItems(s[start..]));
    match item {
      case No => return No;
      case Unknown => return Unknown;
      case Got(j, end) =>
        AfterItemStep(s, end);
        if At(s, end) == ']' {
          return Got(Array(items + [j]), end + 1);
        }
        return No;
    }
  }

  // What a text that begins with '[' and goes on with s[v..] behind the blanks parses to.
  lemma ArrayValue(s: string, p: nat, v: nat)
    requires p < |s| && s[p] == '[' && v <= |s| && s[v..] == SkipBlanks(s[p + 1..])
    ensures Starts(s[v..], ']') ==> ParseValue(s[p..]) == Parsed(Array([]), s[v + 1..])
    ensures !Starts(s[v..], ']') ==>
        ParseValue(s[p..]) == match ParseItems(s[v..])
                              case Parsed(items, rest) => Parsed(Array(items), rest)
                              case Failed => Failed
                              case Undefined => Undefined
  {
    hide SkipBlanks, ParseItems;
    assert s[p..][1..] == s[p + 1..];
    if v < |s| { assert s[v..][1..] == s[v + 1..]; }
  }

  lemma BeforeNothing<T>(r: Outcome<seq<T>>)
    ensures Before([], r) == r
    ensures forall xs: seq<T> :: Before(xs, Failed) == Failed
    ensures forall xs: seq<T>, rest :: Before(xs, Parsed([], rest)) == Parsed(xs, rest)
  {
    if r.Parsed? { assert [] + r.value == r.value; }
    forall xs: seq<T>, rest ensures Before(xs, Parsed([], rest)) == Parsed(xs, rest) { assert xs + [] == xs; }
  }

  // ---- objects ----

  lemma MemberStep(s: string, v: nat)
    requires v <= |s|
    ensures ParseMembers(s[v..]) == match ParseMember(s[v..])
                                    case Parsed(m, rest) => Before([m], AfterMember(rest))
                                    case Failed => Failed
                                    case Undefined => Undefined
    ensures AfterMember(s[v..]) == AfterMember(SkipBlanks(s[v..]))
  {
    hide ParseMember;
    SkipTwice(s[v..]);
  }

  lemma AfterMemberStep(s: string, v: nat)
    requires v <= |s| && SkipBlanks(s[v..]) == s[v..]
    ensures Starts(s[v..], ',') ==> AfterMember(s[v..]) == ParseMembers(SkipBlanks(s[v + 1..]))
    ensures Starts(s[v..], '}') ==> AfterMember(s[v..]) == Parsed([], s[v + 1..])
    ensures !Starts(s[v..], ',') && !Starts(s[v..], '}') ==> AfterMember(s[v..]) == Failed
  {
    hide ParseMembers, SkipBlanks;
    if v < |s| { assert s[v..][1..] == s[v + 1..]; }
  }

  // A name, a colon and a value.
  method ReadPair(s: string, p: nat) returns (r: Scan<Member>)
    requires NulFree(s) && p <= |s|
    ensures r.Within(s) && r.From(s) == ParseMember(s[p..])
    decreases |s| - p, 2
  {
    hide ParseValue, SkipBlanks, ParseLiteral;
    var name := ParseString(s, p);
    match name {
      case No => return No;
      case Unknown => return Unknown;
      case Got(text, end) =>
        var v := Skip(s, end);
        if At(s, v) != ':' { return No; }
        assert s[v..][1..] == s[v + 1..];
        v := Skip(s, v + 1);
        var value := ReadValue(s, v);
        match value {
          case No => return No;
          case Unknown => return Unknown;
          case Got(j, after) => return Got(Member(text, j), after);
        }
    }
  }

  // One member and the blanks behind it.
  method ReadMember(s: string, p: nat, ghost before: seq<Member>) returns (r: Scan<Member>)
    requires NulFree(s) && p <= |s|
    ensures r.Within(s)
    ensures match r
            case Got(m, v) => Before(before, ParseMembers(s[p..])) == Before(before + [m], AfterMember(s[v..]))
                              && SkipBlanks(s[v..]) == s[v..] && v > p
            case No => Before(before, ParseMembers(s[p..])) == Failed
            case Unknown => Before(before, ParseMembers(s[p..])) == Undefined
    decreases |s| - p, 3
  {
    hide ParseMember, SkipBlanks, ParseMembers, AfterMember;
    MemberStep(s, p);
    r := ReadPair(s, p);
    match r {
      case Got(m, end) =>
        BeforeTwice(before, m, AfterMember(s[end..]));
        MemberStep(s, end);
        var v := Skip(s, end);
        return Got(m, v);
      case No =>
      case Unknown =>
    }
  }

  // What a text that begins with '{' and goes on with s[v..] behind the blanks parses to.
  lemma ObjectValue(s: string, p: nat, v: nat)
    requires p < |s| && s[p] == '{' && v <= |s| && s[v..] == SkipBlanks(s[p + 1..])
    ensures Starts(s[v..], '}') ==> ParseValue(s[p..]) == Parsed(Object([]), s[v + 1..])
    ensures !Starts(s[v..], '}') ==>
        ParseValue(s[p..]) == match ParseMembers(s[v..])
                              case Parsed(members, rest) => Parsed(Object(members), rest)
                              case Failed => Failed
                              case Undefined => Undefined
  {
    hide SkipBlanks, ParseMembers;
    assert s[p..][1..] == s[p + 1..];
    if v < |s| { assert s[v..][1..] == s[v + 1..]; }
  }

  method ReadObject(s: string, p: nat) returns (r: Scan<Json>)
    requires NulFree(s) && p < |s| && s[p] == '{'
    ensures r.Within(s) && r.From(s) == ParseValue(s[p..])
    decreases |s| - p, 0
  {
    hide SkipBlanks, ParseMembers, AfterMember, ParseValue, Before;
    var v := Skip(s, p + 1);
    ObjectValue(s, p, v);
    if At(s, v) == '}' {
      return Got(Object([]), v + 1);
    }
    v := Skip(s, v);
    ghost var start := v;
    var members: seq<Member> := [];
    var member := ReadMember(s, v, members);
    while member.Got? && At(s, member.end) == ','
      invariant member.Within(s) && p < start <= |s|
      invariant member.Got? ==> member.end > start && SkipBlanks(s[member.end..]) == s[member.end..]
      invariant match member
                case Got(m, v) => Before([], ParseMembers(s[start..])) == Before(members + [m], AfterMember(s[v..]))
                case No => Before([], ParseMembers(s[start..])) == Failed
                case Unknown => Before([], ParseMembers(s[start..])) == Undefined
      decreases if member.Got? then |s| - member.end else 0, member.Got?
    {
      AfterMemberStep(s, member.end);
      members := members + [member.value];
      v := Skip(s, member.end + 1);
      member := ReadMember(s, v, members);
    }
    BeforeNothing(ParseMembers(s[start..]));
    match member {
      case No => return No;
      case Unknown => return Unknown;
      case Got(m, end) =>
        AfterMemberStep(s, end);
        if At(s, end) == '}' {
          return Got(Object(members + [m]), end + 1);
        }
        return No;
    }
  }

  // ---- whole texts ----

  /** `cJSON_ParseWithOpts`: the tree, and where the parse ended; nothing but blanks may follow if
      that is asked for. */
  function ParseText(s: string, requireEnd: bool): Outcome<Json>
  {
    match ParseValue(SkipBlanks(s))
    case Failed => Failed
    case Undefined => Undefined
    case Parsed(j, rest) =>
      if !requireEnd then Parsed(j, rest) else if SkipBlanks(rest) == [] then Parsed(j, []) else Failed
  }

  method ParseWithOpts(s: string, requireEnd: bool) returns (r: Scan<Json>)
    requires NulFree(s)
    ensures r.Within(s) && r.From(s) == ParseText(s, requireEnd)
  {
    hide ParseValue, SkipBlanks;
    assert s[0..] == s;
    var v := Skip(s, 0);
    r := ReadValue(s, v);
    if r.Got? && requireEnd {
      var end := Skip(s, r.end);
      if At(s, end) != NUL { return No; }
      return Got(r.value, end);
    }
  }
}
