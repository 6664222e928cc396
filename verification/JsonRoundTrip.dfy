/** Parsing undoes printing. */
module JsonRoundTrip {
  import opened CStrings
  import opened Decimal
  import opened JsonStrings
  import opened JsonPrint
  import opened JsonParse

  // ---- blanks ----

  ghost predicate Blank(s: string)
  {
    forall i :: 0 <= i < |s| ==> IsBlank(s[i])
  }

  lemma {:induction false} SkipRun(b: string, t: string)
    requires Blank(b)
    ensures SkipBlanks(b + t) == SkipBlanks(t)
  {
    if b == [] {
      assert b + t == t;
    } else {
      SkipRun(b[1..], t);
      assert (b + t)[1..] == b[1..] + t;
    }
  }

  lemma SkipNothing(t: string)
    requires t != [] && !IsBlank(t[0])
    ensures SkipBlanks(t) == t
  {
  }

  lemma LineIsBlank(fmt: bool)
    ensures Blank(If(fmt, "\n"))
  {
  }

  lemma TabsAreBlank(n: int)
    ensures Blank(Tabs(n))
  {
  }

  // ---- numbers ----

  lemma {:induction false} DigitsThen(ds: string, tail: string)
    requires AllDigits(ds)
    ensures LeadingDigits(ds + tail) == |ds| + LeadingDigits(tail)
  {
    if ds == [] {
      assert ds + tail == tail;
    } else {
      DigitsThen(ds[1..], tail);
      assert (ds + tail)[1..] == ds[1..] + tail;
    }
  }

  /** What may follow a printed number: nothing that reads as more of it. After "0" another zero may
      follow, because only one leading zero is taken. */
  predicate NumberEnds(n: int, tail: string)
  {
    !IsFraction(tail) && (tail != [] && IsDigit(tail[0]) ==> n == 0 && tail[0] == '0')
  }

  /** Digits without a sign, from either of the two starts. */
  lemma UnsignedThen(m: nat, negative: bool, tail: string)
    requires INT_MIN <= Signed(negative, m) <= INT_MAX
    ensures NumberOf(negative, DropOne(Digits(m) + tail, '0')) == Parsed(Number(Signed(negative, m)), tail) <==> NumberEnds(m, tail)
  {
    var ds := Digits(m);
    ValueOfDigits(m);
    if m == 0 {
      assert DropOne(ds + tail, '0') == tail;
      CountThen(tail);
      assert tail[..0] == [] && tail[0..] == tail;
    } else {
      assert DropOne(ds + tail, '0') == ds + tail;
      DigitsThen(ds, tail);
      CountThen(tail);
      var k := LeadingDigits(tail);
      assert (ds + tail)[|ds| + k..] == tail[k..];
      if k == 0 { assert (ds + tail)[..|ds|] == ds && tail[0..] == tail; }
    }
  }

  lemma CountThen(tail: string)
    ensures LeadingDigits(tail) == 0 <==> tail == [] || !IsDigit(tail[0])
    ensures DigitCount(tail) == 0 <==> tail == [] || !IsDigit(tail[0]) || tail[0] == '0'
  {
  }

  lemma NumberThen(n: int, tail: string)
    requires INT_MIN <= n <= INT_MAX
    ensures ParseNumber(ToDecimal(n) + tail) == Parsed(Number(n), tail) <==> NumberEnds(n, tail)
  {
    hide NumberOf, IsFraction, Digits, Value;
    var m := if n < 0 then -n else n;
    UnsignedThen(m, n < 0, tail);
    ValueOfDigits(m);
    var t := ToDecimal(n) + tail;
    if n < 0 {
      assert t == "-" + (Digits(m) + tail);
      assert DropOne(t, '-') == Digits(m) + tail;
    } else {
      assert t[0] == Digits(m)[0];
      assert DropOne(t, '-') == t;
    }
  }

  // ---- dispatch ----

  lemma WordStart(t: string, word: string)
    requires word != [] && (t == [] || t[0] != word[0])
    ensures !(word <= t)
  {
  }

  lemma NoWord(t: string)
    requires t != [] && t[0] != 'n' && t[0] != 'f' && t[0] != 't'
    ensures !("null" <= t) && !("false" <= t) && !("true" <= t)
  {
    WordStart(t, "null");
    WordStart(t, "false");
    WordStart(t, "true");
  }

  lemma WordsThen(tail: string)
    ensures ParseValue("null" + tail) == Parsed(Null, tail)
    ensures ParseValue("false" + tail) == Parsed(False, tail)
    ensures ParseValue("true" + tail) == Parsed(True, tail)
  {
    assert ("null" + tail)[4..] == tail && ("false" + tail)[5..] == tail && ("true" + tail)[4..] == tail;
    WordStart("false" + tail, "null");
    WordStart("true" + tail, "null");
    WordStart("true" + tail, "false");
  }

  /** Printed text begins with a character that is neither a blank nor a bracket that closes. */
  lemma FirstChar(j: Json, depth: nat, fmt: bool)
    ensures Printed(j, depth, fmt) != []
    ensures !IsBlank(Printed(j, depth, fmt)[0]) && Printed(j, depth, fmt)[0] != ']' && Printed(j, depth, fmt)[0] != '}'
  {
    hide PrintedItems, PrintedMembers, Escaped;
    if j.Number? { ValueOfDigits(if j.n < 0 then -j.n else j.n); }
  }

  // ---- the round trip ----

  /** What may follow a printed tree. */
  predicate Follows(j: Json, tail: string)
  {
    j.Number? ==> NumberEnds(j.n, tail)
  }

  lemma ScalarThen(j: Json, depth: nat, fmt: bool, tail: string)
    requires IsTree(j) && !j.Array? && !j.Object?
    ensures ParseValue(Printed(j, depth, fmt) + tail) == Parsed(j, tail) <==> Follows(j, tail)
  {
    hide ParseNumber, ParseLiteral, Literal, NumberEnds, ToDecimal;
    var t := Printed(j, depth, fmt) + tail;
    match j
    case Null => WordsThen(tail);
    case False => WordsThen(tail);
    case True => WordsThen(tail);
    case Number(n) =>
      NumberThen(n, tail);
      NumberStart(n, tail);
      NoWord(t);
    case String(s) =>
      ParseUndoesLiteral(s, tail);
      LiteralStart(s, tail);
      NoWord(t);
  }

  lemma NumberStart(n: int, tail: string)
    ensures var t := ToDecimal(n) + tail; t != [] && (t[0] == '-' || IsDigit(t[0]))
  {
    ValueOfDigits(if n < 0 then -n else n);
  }

  lemma LiteralStart(s: string, tail: string)
    ensures var t := Literal(s) + tail; t != [] && t[0] == '"'
  {
  }

  predicate Closes(c: char)
  {
    c == ',' || c == ']' || c == '}' || IsBlank(c)
  }

  lemma ClosersFollow(j: Json, tail: string)
    requires tail != [] && Closes(tail[0])
    ensures Follows(j, tail)
  {
  }

  lemma SkipTo(b: string, j: Json, depth: nat, fmt: bool, tail: string)
    requires Blank(b)
    ensures SkipBlanks(b + (Printed(j, depth, fmt) + tail)) == Printed(j, depth, fmt) + tail
  {
    hide Printed;
    FirstChar(j, depth, fmt);
    SkipRun(b, Printed(j, depth, fmt) + tail);
    SkipNothing(Printed(j, depth, fmt) + tail);
  }

  lemma ItemsStart(items: seq<Json>, depth: nat, fmt: bool, tail: string)
    requires items != []
    ensures var t := PrintedItems(items, depth, fmt) + tail; t != [] && t[0] != ']' && SkipBlanks(t) == t
    ensures SkipBlanks(" " + (PrintedItems(items, depth, fmt) + tail)) == PrintedItems(items, depth, fmt) + tail
  {
    hide Printed;
    var t := PrintedItems(items, depth, fmt) + tail;
    FirstChar(items[0], depth, fmt);
    assert t[0] == Printed(items[0], depth, fmt)[0];
    SkipNothing(t);
    SkipRun(" ", t);
  }

  // What follows the first of some items.
  function AfterFirst(items: seq<Json>, depth: nat, fmt: bool, tail: string): string
    requires items != []
  {
    if |items| == 1 then "]" + tail else "," + (If(fmt, " ") + (PrintedItems(items[1..], depth, fmt) + ("]" + tail)))
  }

  lemma FirstItem(items: seq<Json>, depth: nat, fmt: bool, tail: string)
    requires items != []
    ensures PrintedItems(items, depth, fmt) + ("]" + tail)
         == Printed(items[0], depth, fmt) + AfterFirst(items, depth, fmt, tail)
  {
    hide Printed;
    var first, rest := Printed(items[0], depth, fmt), PrintedItems(items[1..], depth, fmt);
    if |items| == 1 {
      assert rest == [];
      assert first + [] + rest + ("]" + tail) == first + ("]" + tail);
    } else {
      RegroupItem(first, If(fmt, " "), rest, "]" + tail);
    }
  }

  lemma RegroupItem(first: string, space: string, rest: string, end: string)
    ensures first + ("," + space) + rest + end == first + ("," + (space + (rest + end)))
  {
  }

  lemma {:induction false} ItemsThen(items: seq<Json>, depth: nat, fmt: bool, tail: string)
    requires items != [] && forall i :: 0 <= i < |items| ==> IsTree(items[i])
    ensures ParseItems(PrintedItems(items, depth, fmt) + ("]" + tail)) == Parsed(items, tail)
    decreases items, 0
  {
    hide Printed, PrintedItems, ParseValue;
    var after := AfterFirst(items, depth, fmt, tail);
    FirstItem(items, depth, fmt, tail);
    ClosersFollow(items[0], after);
    PrintedThen(items[0], depth, fmt, after);
    SkipNothing(after);
    if |items| == 1 {
      assert after[1..] == tail && [items[0]] + [] == items;
    } else {
      var more := PrintedItems(items[1..], depth, fmt) + ("]" + tail);
      ItemsStart(items[1..], depth, fmt, "]" + tail);
      assert after[1..] == If(fmt, " ") + more && (!fmt ==> after[1..] == more);
      ItemsThen(items[1..], depth, fmt, tail);
      assert [items[0]] + items[1..] == items;
    }
  }

  // ---- members ----

  // What follows the name of the first of some members, and what follows its value.
  function AfterValue(members: seq<Member>, depth: nat, fmt: bool, end: string): string
    requires members != []
  {
    (if |members| > 1 then "," else []) + (If(fmt, "\n") + (PrintedMembers(members[1..], depth, fmt) + end))
  }

  function AfterName(members: seq<Member>, depth: nat, fmt: bool, end: string): string
    requires members != []
  {
    ":" + (If(fmt, "\t") + (Printed(members[0].value, depth, fmt) + AfterValue(members, depth, fmt, end)))
  }

  lemma FirstMember(members: seq<Member>, depth: nat, fmt: bool, end: string)
    requires members != []
    ensures PrintedMembers(members, depth, fmt) + end
         == If(fmt, Tabs(depth)) + (Literal(members[0].name) + AfterName(members, depth, fmt, end))
  {
    hide Printed, Tabs, Literal;
    var tabs, name, value := If(fmt, Tabs(depth)), Literal(members[0].name), Printed(members[0].value, depth, fmt);
    var tab, comma, line := If(fmt, "\t"), if |members| > 1 then "," else [], If(fmt, "\n");
    Regroup(tabs, name, tab, value, comma, line, PrintedMembers(members[1..], depth, fmt), end);
  }

  lemma Regroup(tabs: string, name: string, tab: string, value: string, comma: string, line: string, rest: string, end: string)
    ensures tabs + name + ":" + tab + value + comma + line + rest + end
         == tabs + (name + (":" + (tab + (value + (comma + (line + (rest + end)))))))
  {
  }

  lemma MemberThen(members: seq<Member>, depth: nat, fmt: bool, end: string)
    requires members != [] && IsTree(members[0].value) && NulFree(members[0].name)
    requires var after := AfterValue(members, depth, fmt, end); after != [] && Closes(after[0])
    ensures ParseMember(SkipBlanks(PrintedMembers(members, depth, fmt) + end))
         == Parsed(members[0], AfterValue(members, depth, fmt, end))
    decreases members, 0
  {
    hide Printed, PrintedMembers, ParseValue, ParseLiteral, Literal, AfterValue, Tabs;
    var name, value := members[0].name, members[0].value;
    var rest, after := AfterName(members, depth, fmt, end), AfterValue(members, depth, fmt, end);
    FirstMember(members, depth, fmt, end);
    TabsAreBlank(depth);
    SkipRun(If(fmt, Tabs(depth)), Literal(name) + rest);
    LiteralStart(name, rest);
    SkipNothing(Literal(name) + rest);
    ParseUndoesLiteral(name, rest);
    SkipNothing(rest);
    assert rest[1..] == If(fmt, "\t") + (Printed(value, depth, fmt) + after);
    SkipTo(If(fmt, "\t"), value, depth, fmt, after);
    ClosersFollow(value, after);
    PrintedThen(value, depth, fmt, after);
  }

  lemma {:induction false} MembersThen(members: seq<Member>, depth: nat, fmt: bool, blanks: string, tail: string)
    requires members != [] && Blank(blanks)
    requires forall i :: 0 <= i < |members| ==> NulFree(members[i].name) && IsTree(members[i].value)
    ensures ParseMembers(SkipBlanks(PrintedMembers(members, depth, fmt) + (blanks + ("}" + tail)))) == Parsed(members, tail)
    decreases members, 1
  {
    hide Printed, PrintedMembers, ParseMember;
    var end := blanks + ("}" + tail);
    var after := AfterValue(members, depth, fmt, end);
    if |members| == 1 {
      LastMember(members, depth, fmt, blanks, tail);
      MemberThen(members, depth, fmt, end);
      assert [members[0]] + [] == members;
    } else {
      MemberThen(members, depth, fmt, end);
      SkipNothing(after);
      assert after[1..] == If(fmt, "\n") + (PrintedMembers(members[1..], depth, fmt) + end);
      SkipRun(If(fmt, "\n"), PrintedMembers(members[1..], depth, fmt) + end);
      MembersThen(members[1..], depth, fmt, blanks, tail);
      assert [members[0]] + members[1..] == members;
    }
  }

  lemma LastMember(members: seq<Member>, depth: nat, fmt: bool, blanks: string, tail: string)
    requires |members| == 1 && Blank(blanks)
    ensures var after := AfterValue(members, depth, fmt, blanks + ("}" + tail));
            after != [] && Closes(after[0]) && AfterMember(after) == Parsed([], tail)
  {
    var after := AfterValue(members, depth, fmt, blanks + ("}" + tail));
    assert PrintedMembers(members[1..], depth, fmt) == [];
    assert after == (If(fmt, "\n") + blanks) + ("}" + tail);
    SkipRun(If(fmt, "\n") + blanks, "}" + tail);
    SkipNothing("}" + tail);
    assert ("}" + tail)[1..] == tail;
  }

  // ---- trees ----

  lemma ArrayThen(items: seq<Json>, depth: nat, fmt: bool, tail: string)
    requires forall i :: 0 <= i < |items| ==> IsTree(items[i])
    ensures ParseValue(Printed(Array(items), depth, fmt) + tail) == Parsed(Array(items), tail)
    decreases items, 1
  {
    hide PrintedItems, ParseItems;
    var t := Printed(Array(items), depth, fmt) + tail;
    NoWord(t);
    if items == [] {
      assert t[1..] == "]" + tail && ("]" + tail)[1..] == tail;
      SkipNothing("]" + tail);
    } else {
      assert t[1..] == PrintedItems(items, depth + 1, fmt) + ("]" + tail);
      ItemsStart(items, depth + 1, fmt, "]" + tail);
      ItemsThen(items, depth + 1, fmt, tail);
    }
  }

  lemma EmptyObjectThen(depth: nat, fmt: bool, tail: string)
    ensures ParseValue(Printed(Object([]), depth, fmt) + tail) == Parsed(Object([]), tail)
  {
    hide Tabs, SkipBlanks;
    var t, blanks := Printed(Object([]), depth, fmt) + tail, If(fmt, "\n" + Tabs(depth - 1));
    NoWord(t);
    TabsAreBlank(depth - 1);
    assert t[1..] == blanks + ("}" + tail) && ("}" + tail)[1..] == tail;
    SkipRun(blanks, "}" + tail);
    SkipNothing("}" + tail);
  }

  // The text behind the opening brace.
  lemma ObjectText(members: seq<Member>, depth: nat, fmt: bool, tail: string)
    requires members != []
    ensures var t := Printed(Object(members), depth, fmt) + tail;
            t != [] && t[0] == '{' && t[1..] == If(fmt, "\n")
                                     + (PrintedMembers(members, depth + 1, fmt) + (If(fmt, Tabs(depth)) + ("}" + tail)))
  {
    hide PrintedMembers, Tabs;
    RegroupBraces(If(fmt, "\n"), PrintedMembers(members, depth + 1, fmt), If(fmt, Tabs(depth)), tail);
  }

  lemma RegroupBraces(line: string, members: string, tabs: string, tail: string)
    ensures "{" + line + members + tabs + "}" + tail == "{" + (line + (members + (tabs + ("}" + tail))))
    ensures ("{" + (line + (members + (tabs + ("}" + tail)))))[1..] == line + (members + (tabs + ("}" + tail)))
  {
  }

  lemma ObjectThen(members: seq<Member>, depth: nat, fmt: bool, tail: string)
    requires members != []
    requires forall i :: 0 <= i < |members| ==> NulFree(members[i].name) && IsTree(members[i].value)
    ensures ParseValue(Printed(Object(members), depth, fmt) + tail) == Parsed(Object(members), tail)
    decreases members, 2
  {
    hide Printed, PrintedMembers, ParseMembers, Tabs, SkipBlanks;
    var t := Printed(Object(members), depth, fmt) + tail;
    var inner := PrintedMembers(members, depth + 1, fmt) + (If(fmt, Tabs(depth)) + ("}" + tail));
    ObjectText(members, depth, fmt, tail);
    NoWord(t);
    LineIsBlank(fmt);
    SkipRun(If(fmt, "\n"), inner);
    TabsAreBlank(depth);
    MembersStart(members, depth + 1, fmt, If(fmt, Tabs(depth)) + ("}" + tail));
    MembersThen(members, depth + 1, fmt, If(fmt, Tabs(depth)), tail);
  }

  lemma MembersStart(members: seq<Member>, depth: nat, fmt: bool, end: string)
    requires members != []
    ensures var t := SkipBlanks(PrintedMembers(members, depth, fmt) + end); t != [] && t[0] != '}'
  {
    hide PrintedMembers, Literal, Tabs, AfterName;
    var rest := Literal(members[0].name) + AfterName(members, depth, fmt, end);
    FirstMember(members, depth, fmt, end);
    TabsAreBlank(depth);
    SkipRun(If(fmt, Tabs(depth)), rest);
    LiteralStart(members[0].name, AfterName(members, depth, fmt, end));
    SkipNothing(rest);
  }

  /** The print of a tree, formatted or not and at any depth, is parsed as that tree, and the parse
      ends where the print ends: always, unless what follows reads as more of a number. */
  lemma {:induction false} PrintedThen(j: Json, depth: nat, fmt: bool, tail: string)
    requires IsTree(j)
    ensures ParseValue(Printed(j, depth, fmt) + tail) == Parsed(j, tail) <==> Follows(j, tail)
    decreases j
  {
    hide Printed, ParseValue;
    match j
    case Array(items) => ArrayThen(items, depth, fmt, tail);
    case Object(members) =>
      if members == [] { EmptyObjectThen(depth, fmt, tail); } else { ObjectThen(members, depth, fmt, tail); }
    case _ => ScalarThen(j, depth, fmt, tail);
  }

  /** A whole print is parsed as its tree, also when nothing may follow. */
  lemma ParseUndoesPrint(j: Json, fmt: bool, requireEnd: bool)
    requires IsTree(j)
    ensures ParseText(Printed(j, 0, fmt), requireEnd) == Parsed(j, [])
  {
    hide Printed, ParseValue;
    var t := Printed(j, 0, fmt);
    FirstChar(j, 0, fmt);
    SkipNothing(t);
    assert t + [] == t;
    PrintedThen(j, 0, fmt, []);
  }

  // ---- what is parsed is a tree ----

  lemma {:induction false} SkipNulFree(t: string)
    requires NulFree(t)
    ensures NulFree(SkipBlanks(t))
  {
    if t != [] && IsBlank(t[0]) { SkipNulFree(t[1..]); }
  }

  lemma UnitNulFree(t: string)
    requires NulFree(t) && t != []
    ensures UnitAt(t).Unit? ==> NulFree(UnitAt(t).bytes)
  {
    hide Utf8, Hex4, IsHex4;
  }

  lemma {:induction false} UnescapeNulFree(t: string)
    requires NulFree(t) && Unescape(t).Some?
    ensures NulFree(Unescape(t).value.0) && NulFree(Unescape(t).value.1)
    decreases |t|
  {
    hide UnitAt;
    if t != [] && t[0] != '"' {
      UnitNulFree(t);
      UnescapeNulFree(t[UnitAt(t).size..]);
    }
  }

  lemma LiteralNulFree(t: string)
    requires NulFree(t) && ParseLiteral(t).Parsed?
    ensures NulFree(ParseLiteral(t).value) && NulFree(ParseLiteral(t).rest)
  {
    UnescapeNulFree(t[1..]);
  }

  lemma DropNulFree(t: string, c: char)
    requires NulFree(t)
    ensures NulFree(DropOne(t, c))
  {
  }

  lemma NumberOfIsTree(negative: bool, digits: string)
    requires NulFree(digits) && NumberOf(negative, digits).Parsed?
    ensures IsTree(NumberOf(negative, digits).value) && NulFree(NumberOf(negative, digits).rest)
  {
    hide Value, DigitCount, IsFraction, AllDigits, Signed;
    var rest := digits[DigitCount(digits)..];
    assert NUL !in rest;
  }

  lemma NumberIsTree(t: string)
    requires NulFree(t) && ParseNumber(t).Parsed?
    ensures IsTree(ParseNumber(t).value) && NulFree(ParseNumber(t).rest)
  {
    hide NumberOf, DropOne, IsTree;
    DropNulFree(t, '-');
    DropNulFree(DropOne(t, '-'), '0');
    NumberOfIsTree(Starts(t, '-'), DropOne(DropOne(t, '-'), '0'));
  }

  lemma {:induction false} ValueIsTree(t: string)
    requires NulFree(t) && ParseValue(t).Parsed?
    ensures IsTree(ParseValue(t).value) && NulFree(ParseValue(t).rest)
    decreases |t|, 0
  {
    hide ParseNumber, ParseLiteral, ParseItems, ParseMembers, SkipBlanks;
    if "null" <= t || "false" <= t || "true" <= t {
    } else if t[0] == '"' {
      LiteralNulFree(t);
    } else if t[0] == '-' || IsDigit(t[0]) {
      NumberIsTree(t);
    } else {
      var inner := SkipBlanks(t[1..]);
      SkipNulFree(t[1..]);
      if t[0] == '[' && !Starts(inner, ']') {
        ItemsAreTrees(inner);
      } else if t[0] == '{' && !Starts(inner, '}') {
        MembersAreTrees(inner);
      }
    }
  }

  lemma {:induction false} ItemsAreTrees(t: string)
    requires NulFree(t) && ParseItems(t).Parsed?
    ensures NulFree(ParseItems(t).rest)
    ensures forall i :: 0 <= i < |ParseItems(t).value| ==> IsTree(ParseItems(t).value[i])
    decreases |t|, 1
  {
    hide ParseValue, SkipBlanks, IsTree;
    ValueIsTree(t);
    var rest := ParseValue(t).rest;
    var u := SkipBlanks(rest);
    SkipNulFree(rest);
    if Starts(u, ',') {
      SkipNulFree(u[1..]);
      ItemsAreTrees(SkipBlanks(u[1..]));
    }
  }

  lemma {:induction false} MembersAreTrees(t: string)
    requires NulFree(t) && ParseMembers(t).Parsed?
    ensures NulFree(ParseMembers(t).rest)
    ensures forall i :: 0 <= i < |ParseMembers(t).value| ==>
        NulFree(ParseMembers(t).value[i].name) && IsTree(ParseMembers(t).value[i].value)
    decreases |t|, 2
  {
    hide ParseMember, SkipBlanks, IsTree;
    MemberIsTree(t);
    var rest := ParseMember(t).rest;
    var u := SkipBlanks(rest);
    SkipNulFree(rest);
    if Starts(u, ',') {
      SkipNulFree(u[1..]);
      MembersAreTrees(SkipBlanks(u[1..]));
    }
  }

  lemma MemberIsTree(t: string)
    requires NulFree(t) && ParseMember(t).Parsed?
    ensures NulFree(ParseMember(t).rest)
    ensures NulFree(ParseMember(t).value.name) && IsTree(ParseMember(t).value.value)
    decreases |t|, 1
  {
    hide ParseLiteral, ParseValue, SkipBlanks, IsTree;
    LiteralNulFree(t);
    var rest := ParseLiteral(t).rest;
    var u := SkipBlanks(rest);
    SkipNulFree(rest);
    SkipNulFree(u[1..]);
    ValueIsTree(SkipBlanks(u[1..]));
  }

  /** Whatever the parser accepts is a tree that can be printed, and its print is read as the same
      tree: one parse brings any text to a form that further prints and parses leave alone. */
  lemma ParsedTextIsStable(s: string, requireEnd: bool, fmt: bool)
    requires NulFree(s) && ParseText(s, requireEnd).Parsed?
    ensures var j := ParseText(s, requireEnd).value;
            IsTree(j) && ParseText(Printed(j, 0, fmt), true) == Parsed(j, [])
  {
    hide ParseValue, Printed;
    SkipNulFree(s);
    ValueIsTree(SkipBlanks(s));
    ParseUndoesPrint(ParseValue(SkipBlanks(s)).value, fmt, true);
  }
}
