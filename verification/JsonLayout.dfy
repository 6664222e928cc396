/** The layout of printed JSON, said of the text alone: a scan that keeps count of the brackets and
    knows nothing of trees.
 */
module JsonLayout {
  import opened CStrings
  import Decimal
  import opened JsonStrings
  import opened JsonPrint
  import JsonMinify

  /** What the scan has just passed: an opening brace, a comma, a colon, a line feed and its tabs, the
      one blank behind a comma or colon, or anything else. */
  datatype Mark = Brace | Comma | Colon | Line | Gap | Other

  function LeadingTabs(t: string): (n: nat)
    ensures n <= |t|
  {
    if t != [] && t[0] == '\t' then 1 + LeadingTabs(t[1..]) else 0
  }

  ghost predicate Inside(open: seq<char>, bracket: char)
  {
    open != [] && open[|open| - 1] == bracket
  }

  /** The tabs a line starts with: one for every bracket not closed, one fewer in front of a closing
      brace; in an empty object one fewer still, if there are any. */
  function Indent(open: seq<char>, mark: Mark, next: char): int
  {
    if next != '}' then |open|
    else if mark != Brace then |open| - 1
    else if |open| >= 2 then |open| - 2 else 0
  }

  /** Where a formatted text may go on in a new line: behind an opening brace, behind a comma in an
      object, and in front of a closing brace. */
  ghost predicate MayBreak(open: seq<char>, mark: Mark, next: char)
  {
    match mark
    case Brace => true
    case Comma => Inside(open, '{')
    case Other => next == '}'
    case _ => false
  }

  /** A formatted text has its blanks where they belong: no opening brace, comma or colon is without. */
  predicate Settled(fmt: bool, mark: Mark)
  {
    fmt ==> mark == Line || mark == Gap || mark == Other
  }

  /** The text t is laid out, from where the brackets in `open` are not closed yet. Outside literals a
      formatted text has no blanks but line feeds with their tabs, a tab behind a colon and a space
      behind a comma in an array; an unformatted text has none at all. */
  ghost predicate LaidOut(fmt: bool, t: string, open: seq<char>, mark: Mark)
    decreases |t|
  {
    if t == [] then open == [] && Settled(fmt, mark)
    else if t[0] == '\n' then
      var n := LeadingTabs(t[1..]);
      var u := t[1 + n..];
      && fmt && u != [] && u[0] as int > 32 && MayBreak(open, mark, u[0]) && n == Indent(open, mark, u[0])
      && LaidOut(fmt, u, open, Line)
    else if t[0] == '\t' then fmt && mark == Colon && LaidOut(fmt, t[1..], open, Gap)
    else if t[0] == ' ' then fmt && mark == Comma && Inside(open, '[') && LaidOut(fmt, t[1..], open, Gap)
    else if t[0] as int <= 32 || !Settled(fmt, mark) then false
    else match t[0]
      case '"' =>
        var end := JsonMinify.LiteralEnd(t[1..]);
        end.Some? && LaidOut(fmt, t[1..][end.value..], open, Other)
      case '{' => LaidOut(fmt, t[1..], open + ['{'], Brace)
      case '[' => LaidOut(fmt, t[1..], open + ['['], Other)
      case '}' => Inside(open, '{') && (fmt ==> mark == Line) && LaidOut(fmt, t[1..], open[..|open| - 1], Other)
      case ']' => Inside(open, '[') && LaidOut(fmt, t[1..], open[..|open| - 1], Other)
      case ',' => LaidOut(fmt, t[1..], open, Comma)
      case ':' => LaidOut(fmt, t[1..], open, Colon)
      case _ => LaidOut(fmt, t[1..], open, Other)
  }

  // ---- the parts of a text ----

  predicate IsPlain(c: char)
  {
    c as int > 32 && c != '"' && c != '{' && c != '[' && c != '}' && c != ']' && c != ',' && c != ':'
  }

  lemma {:induction false} PlainIsLaidOut(fmt: bool, w: string, t: string, open: seq<char>, mark: Mark)
    requires w != [] && Settled(fmt, mark) && forall i :: 0 <= i < |w| ==> IsPlain(w[i])
    ensures LaidOut(fmt, w + t, open, mark) == LaidOut(fmt, t, open, Other)
    decreases |w|
  {
    assert (w + t)[1..] == w[1..] + t;
    if |w| > 1 {
      PlainIsLaidOut(fmt, w[1..], t, open, Other);
    } else {
      assert w[1..] + t == t;
    }
  }

  lemma NumberIsLaidOut(fmt: bool, n: int, t: string, open: seq<char>, mark: Mark)
    requires Settled(fmt, mark)
    ensures LaidOut(fmt, Decimal.ToDecimal(n) + t, open, mark) == LaidOut(fmt, t, open, Other)
  {
    Decimal.ValueOfDigits(if n < 0 then -n else n);
    PlainIsLaidOut(fmt, Decimal.ToDecimal(n), t, open, mark);
  }

  lemma LiteralIsLaidOut(fmt: bool, s: string, t: string, open: seq<char>, mark: Mark)
    requires Settled(fmt, mark)
    ensures LaidOut(fmt, Literal(s) + t, open, mark) == LaidOut(fmt, t, open, Other)
  {
    hide Escaped, JsonMinify.LiteralEnd;
    var u := Literal(s) + t;
    JsonMinify.LiteralEndOfEscaped(s, t);
    assert u[1..] == Escaped(s) + ("\"" + t) && u[0] == '"';
    assert u[1..][|Escaped(s)| + 1..] == t;
  }

  // One mark, or a blank behind one.
  lemma MarkIsLaidOut(fmt: bool, c: char, t: string, open: seq<char>, mark: Mark)
    ensures Settled(fmt, mark) && c == '{' ==> LaidOut(fmt, [c] + t, open, mark) == LaidOut(fmt, t, open + ['{'], Brace)
    ensures Settled(fmt, mark) && c == '[' ==> LaidOut(fmt, [c] + t, open, mark) == LaidOut(fmt, t, open + ['['], Other)
    ensures Settled(fmt, mark) && c == ',' ==> LaidOut(fmt, [c] + t, open, mark) == LaidOut(fmt, t, open, Comma)
    ensures Settled(fmt, mark) && c == ':' ==> LaidOut(fmt, [c] + t, open, mark) == LaidOut(fmt, t, open, Colon)
    ensures fmt && mark == Colon && c == '\t' ==> LaidOut(fmt, [c] + t, open, mark) == LaidOut(fmt, t, open, Gap)
    ensures fmt && mark == Comma && Inside(open, '[') && c == ' ' ==> LaidOut(fmt, [c] + t, open, mark) == LaidOut(fmt, t, open, Gap)
  {
    assert ([c] + t)[1..] == t;
  }

  lemma CloseIsLaidOut(fmt: bool, c: char, t: string, open: seq<char>, mark: Mark)
    requires Settled(fmt, mark)
    ensures c == '}' ==> LaidOut(fmt, [c] + t, open + ['{'], mark) == ((fmt ==> mark == Line) && LaidOut(fmt, t, open, Other))
    ensures c == ']' ==> LaidOut(fmt, [c] + t, open + ['['], mark) == LaidOut(fmt, t, open, Other)
  {
    assert ([c] + t)[1..] == t;
    assert (open + ['{'])[..|open|] == open && (open + ['['])[..|open|] == open;
  }

  lemma {:induction false} TabsLead(n: nat, u: string)
    requires u != [] && u[0] != '\t'
    ensures LeadingTabs(Tabs(n) + u) == n && (Tabs(n) + u)[n..] == u
  {
    if n == 0 {
      assert Tabs(n) + u == u;
    } else {
      TabsLead(n - 1, u);
      TabsCons(n);
      assert (Tabs(n) + u)[1..] == Tabs(n - 1) + u && (Tabs(n) + u)[0] == '\t';
    }
  }

  lemma TabsCons(n: nat)
    requires n > 0
    ensures |Tabs(n)| == n && Tabs(n) == ['\t'] + Tabs(n - 1)
  {
  }

  lemma LineIsLaidOut(n: nat, u: string, open: seq<char>, mark: Mark)
    requires u != [] && u[0] as int > 32
    ensures LaidOut(true, "\n" + Tabs(n) + u, open, mark)
         == (MayBreak(open, mark, u[0]) && n == Indent(open, mark, u[0]) && LaidOut(true, u, open, Line))
  {
    hide Tabs;
    var t := "\n" + Tabs(n) + u;
    TabsLead(n, u);
    assert t[1..] == Tabs(n) + u;
    assert t[1 + n..] == t[1..][n..] == u;
  }

  // ---- whole trees ----

  /** The print of a tree is laid out wherever a value may stand: what follows decides. */
  lemma {:induction false} ValueIsLaidOut(j: Json, depth: nat, fmt: bool, tail: string, open: seq<char>, mark: Mark)
    requires Settled(fmt, mark) && |open| == depth
    ensures LaidOut(fmt, Printed(j, depth, fmt) + tail, open, mark) == LaidOut(fmt, tail, open, Other)
    decreases j
  {
    hide LaidOut, Printed, PrintedItems, AfterBrace;
    match j
    case Array(items) =>
      ArrayText(items, depth, fmt, tail);
      MarkIsLaidOut(fmt, '[', PrintedItems(items, depth + 1, fmt) + ([']'] + tail), open, mark);
      if items != [] { ItemsAreLaidOut(items, depth + 1, fmt, [']'] + tail, open + ['['], Other); }
      CloseIsLaidOut(fmt, ']', tail, open, Other);
    case Object(members) =>
      if members == [] {
        EmptyObjectIsLaidOut(depth, fmt, tail, open, mark);
      } else {
        ObjectText(members, depth, fmt, tail);
        MarkIsLaidOut(fmt, '{', AfterBrace(members, depth + 1, fmt, tail), open, mark);
        MembersAreLaidOut(members, depth + 1, fmt, tail, open, Brace);
      }
    case _ => ScalarIsLaidOut(j, depth, fmt, tail, open, mark);
  }

  lemma ScalarIsLaidOut(j: Json, depth: nat, fmt: bool, tail: string, open: seq<char>, mark: Mark)
    requires Settled(fmt, mark) && !j.Array? && !j.Object?
    ensures LaidOut(fmt, Printed(j, depth, fmt) + tail, open, mark) == LaidOut(fmt, tail, open, Other)
  {
    hide LaidOut, Literal, Decimal.ToDecimal;
    match j
    case Null => PlainIsLaidOut(fmt, "null", tail, open, mark);
    case False => PlainIsLaidOut(fmt, "false", tail, open, mark);
    case True => PlainIsLaidOut(fmt, "true", tail, open, mark);
    case Number(n) => NumberIsLaidOut(fmt, n, tail, open, mark);
    case String(s) => LiteralIsLaidOut(fmt, s, tail, open, mark);
  }

  lemma ArrayText(items: seq<Json>, depth: nat, fmt: bool, tail: string)
    ensures Printed(Array(items), depth, fmt) + tail == ['['] + (PrintedItems(items, depth + 1, fmt) + ([']'] + tail))
    ensures items == [] ==> PrintedItems(items, depth + 1, fmt) + ([']'] + tail) == [']'] + tail
  {
  }

  lemma EmptyObjectIsLaidOut(depth: nat, fmt: bool, tail: string, open: seq<char>, mark: Mark)
    requires Settled(fmt, mark) && |open| == depth
    ensures LaidOut(fmt, Printed(Object([]), depth, fmt) + tail, open, mark) == LaidOut(fmt, tail, open, Other)
  {
    hide LaidOut, Tabs;
    var end := ['}'] + tail;
    if fmt {
      var line := "\n" + Tabs(depth - 1) + end;
      NoFewerTabs(depth);
      assert Printed(Object([]), depth, fmt) + tail == ['{'] + line;
      MarkIsLaidOut(fmt, '{', line, open, mark);
      LineIsLaidOut(if depth == 0 then 0 else depth - 1, end, open + ['{'], Brace);
      CloseIsLaidOut(fmt, '}', tail, open, Line);
    } else {
      assert Printed(Object([]), depth, fmt) + tail == ['{'] + end;
      MarkIsLaidOut(fmt, '{', end, open, mark);
      CloseIsLaidOut(fmt, '}', tail, open, Brace);
    }
  }

  lemma NoFewerTabs(depth: nat)
    ensures Tabs(depth - 1) == Tabs(if depth == 0 then 0 else depth - 1)
  {
  }

  /** What stands behind the opening brace, or behind the comma of an earlier member. */
  function AfterBrace(members: seq<Member>, depth: nat, fmt: bool, tail: string): string
  {
    If(fmt, "\n") + (PrintedMembers(members, depth, fmt) + (If(fmt, Tabs(depth - 1)) + (['}'] + tail)))
  }

  lemma ObjectText(members: seq<Member>, depth: nat, fmt: bool, tail: string)
    requires members != []
    ensures Printed(Object(members), depth, fmt) + tail == ['{'] + AfterBrace(members, depth + 1, fmt, tail)
  {
    hide Tabs;
  }

  lemma {:induction false} ItemsAreLaidOut(items: seq<Json>, depth: nat, fmt: bool, tail: string, open: seq<char>, mark: Mark)
    requires items != [] && Settled(fmt, mark) && |open| == depth && Inside(open, '[')
    ensures LaidOut(fmt, PrintedItems(items, depth, fmt) + tail, open, mark) == LaidOut(fmt, tail, open, Other)
    decreases items
  {
    hide LaidOut, Printed;
    var first, rest := Printed(items[0], depth, fmt), PrintedItems(items[1..], depth, fmt);
    if |items| > 1 {
      var more := If(fmt, " ") + (rest + tail);
      assert PrintedItems(items, depth, fmt) + tail == first + ([','] + more);
      ValueIsLaidOut(items[0], depth, fmt, [','] + more, open, mark);
      MarkIsLaidOut(fmt, ',', more, open, Other);
      if fmt {
        MarkIsLaidOut(fmt, ' ', rest + tail, open, Comma);
      } else {
        assert more == rest + tail;
      }
      ItemsAreLaidOut(items[1..], depth, fmt, tail, open, if fmt then Gap else Comma);
    } else {
      assert PrintedItems(items, depth, fmt) + tail == first + tail;
      ValueIsLaidOut(items[0], depth, fmt, tail, open, mark);
    }
  }

  /** A member from its name on, with what follows it. */
  function FromName(members: seq<Member>, depth: nat, fmt: bool, tail: string): string
    requires members != []
  {
    Literal(members[0].name) + ([':'] + (If(fmt, "\t") + (Printed(members[0].value, depth, fmt) + AfterMember(members, depth, fmt, tail))))
  }

  function AfterMember(members: seq<Member>, depth: nat, fmt: bool, tail: string): string
    requires members != []
  {
    (if |members| > 1 then "," else []) + AfterBrace(members[1..], depth, fmt, tail)
  }

  lemma FirstMember(members: seq<Member>, depth: nat, fmt: bool, tail: string)
    requires members != []
    ensures AfterBrace(members, depth, fmt, tail) == if fmt then "\n" + Tabs(depth) + FromName(members, depth, fmt, tail)
                                                     else FromName(members, depth, fmt, tail)
  {
    hide Tabs, Printed, Literal;
    var name, value := Literal(members[0].name), Printed(members[0].value, depth, fmt);
    var comma := if |members| > 1 then "," else [];
    var more := PrintedMembers(members[1..], depth, fmt) + (If(fmt, Tabs(depth - 1)) + (['}'] + tail));
    assert PrintedMembers(members, depth, fmt) + (If(fmt, Tabs(depth - 1)) + (['}'] + tail))
        == MemberText(name, value, depth, fmt, |members| > 1) + more;
    Regroup(If(fmt, Tabs(depth)), name, If(fmt, "\t"), value, comma, If(fmt, "\n"), more);
    if fmt { assert "\n" + Tabs(depth) + FromName(members, depth, fmt, tail) == "\n" + (Tabs(depth) + FromName(members, depth, fmt, tail)); }
  }

  lemma Regroup(tabs: string, name: string, tab: string, value: string, comma: string, line: string, more: string)
    ensures tabs + name + ":" + tab + value + comma + line + more
         == tabs + (name + ([':'] + (tab + (value + (comma + (line + more))))))
  {
  }

  lemma {:induction false} MembersAreLaidOut(members: seq<Member>, depth: nat, fmt: bool, tail: string, open: seq<char>, mark: Mark)
    requires members != [] && depth == |open| + 1 && (mark == Brace || mark == Comma)
    ensures LaidOut(fmt, AfterBrace(members, depth, fmt, tail), open + ['{'], mark) == LaidOut(fmt, tail, open, Other)
    decreases members
  {
    hide LaidOut, Printed, Literal, AfterBrace, Tabs;
    var all := open + ['{'];
    var name, value := Literal(members[0].name), Printed(members[0].value, depth, fmt);
    var after := AfterMember(members, depth, fmt, tail);
    FirstMember(members, depth, fmt, tail);
    LiteralStarts(members[0].name);
    if fmt { LineIsLaidOut(depth, FromName(members, depth, fmt, tail), all, mark); }
    LiteralIsLaidOut(fmt, members[0].name, [':'] + (If(fmt, "\t") + (value + after)), all, if fmt then Line else mark);
    MarkIsLaidOut(fmt, ':', If(fmt, "\t") + (value + after), all, Other);
    if fmt { MarkIsLaidOut(fmt, '\t', value + after, all, Colon); } else { assert [] + (value + after) == value + after; }
    ValueIsLaidOut(members[0].value, depth, fmt, after, all, if fmt then Gap else Colon);
    if |members| > 1 {
      assert after == [','] + AfterBrace(members[1..], depth, fmt, tail);
      MarkIsLaidOut(fmt, ',', AfterBrace(members[1..], depth, fmt, tail), all, Other);
      MembersAreLaidOut(members[1..], depth, fmt, tail, open, Comma);
    } else {
      assert members[1..] == [];
      ObjectCloses(depth, fmt, tail, open);
    }
  }

  lemma LiteralStarts(s: string)
    ensures |Literal(s)| > 0 && Literal(s)[0] == '"'
  {
  }

  lemma ObjectCloses(depth: nat, fmt: bool, tail: string, open: seq<char>)
    requires depth == |open| + 1
    ensures LaidOut(fmt, [] + AfterBrace([], depth, fmt, tail), open + ['{'], Other) == LaidOut(fmt, tail, open, Other)
  {
    hide LaidOut, Tabs;
    var end := ['}'] + tail;
    if fmt {
      assert [] + AfterBrace([], depth, fmt, tail) == "\n" + Tabs(depth - 1) + end;
      LineIsLaidOut(depth - 1, end, open + ['{'], Other);
      CloseIsLaidOut(fmt, '}', tail, open, Line);
    } else {
      assert [] + AfterBrace([], depth, fmt, tail) == end;
      CloseIsLaidOut(fmt, '}', tail, open, Other);
    }
  }

  /** Every printed tree is laid out, formatted or not. */
  lemma PrintIsLaidOut(j: Json, fmt: bool)
    ensures LaidOut(fmt, Printed(j, 0, fmt), [], Other)
  {
    hide Printed;
    ValueIsLaidOut(j, 0, fmt, [], [], Other);
    assert Printed(j, 0, fmt) + [] == Printed(j, 0, fmt);
  }
}
