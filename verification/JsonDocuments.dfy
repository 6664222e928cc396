/** Whole JSON texts as a grammar: blanks wherever they may stand, numbers and literals as they may be
    written, and the quirks of the parser, which accepts these texts and no others.
 */
module JsonDocuments {
  import opened CStrings
  import opened Decimal
  import opened JsonStrings
  import opened JsonPrint
  import opened JsonParse
  import opened JsonGrammar
  import JsonRoundTrip
  import JsonMeaning

  // ---- the grammar ----

  /** A text as it is written. A number may have one zero in front of its digits, and may be a minus
      sign alone. A literal may lack its closing quote where the text ends. */
  datatype Doc =
    | Constant(word: string)
    | Numeral(negative: bool, zero: bool, digits: string)
    | Quoted(ps: seq<Piece>, closed: bool)
    | List(gap: string, items: seq<Slot>)
    | Record(gap: string, fields: seq<Field>)

  /** A value, the blanks behind it, and the blanks behind the comma that follows, if one does. */
  datatype Slot = Slot(value: Doc, gap: string, next: string)

  /** A name, the blanks in front of and behind its colon, and the value. */
  datatype Field = Field(name: seq<Piece>, gap: string, lead: string, slot: Slot)

  function QuotedText(ps: seq<Piece>, closed: bool): string
  {
    "\"" + (Text(ps) + If(closed, "\""))
  }

  function DocText(d: Doc): string
    decreases d
  {
    match d
    case Constant(word) => word
    case Numeral(negative, zero, digits) => If(negative, "-") + (If(zero, "0") + digits)
    case Quoted(ps, closed) => QuotedText(ps, closed)
    case List(gap, items) => "[" + (gap + ItemsText(items))
    case Record(gap, fields) => "{" + (gap + FieldsText(fields))
  }

  function ItemsText(items: seq<Slot>): string
    decreases items
  {
    if items == [] then "]"
    else DocText(items[0].value)
         + (items[0].gap + if |items| > 1 then "," + (items[0].next + ItemsText(items[1..])) else "]")
  }

  function FieldText(f: Field): string
    decreases f
  {
    QuotedText(f.name, true) + (f.gap + (":" + (f.lead + DocText(f.slot.value))))
  }

  function FieldsText(fields: seq<Field>): string
    decreases fields
  {
    if fields == [] then "}"
    else FieldText(fields[0])
         + (fields[0].slot.gap + if |fields| > 1 then "," + (fields[0].slot.next + FieldsText(fields[1..])) else "}")
  }

  ghost function DocValue(d: Doc): Json
    decreases d
  {
    match d
    case Constant(word) => if word == "null" then Null else if word == "false" then False else True
    case Numeral(negative, _, digits) => Number(Signed(negative, if AllDigits(digits) then Value(digits) else 0))
    case Quoted(ps, _) => String(Bytes(ps))
    case List(_, items) => Array(ItemsValue(items))
    case Record(_, fields) => Object(FieldsValue(fields))
  }

  ghost function ItemsValue(items: seq<Slot>): seq<Json>
    decreases items
  {
    if items == [] then [] else [DocValue(items[0].value)] + ItemsValue(items[1..])
  }

  ghost function FieldsValue(fields: seq<Field>): seq<Member>
    decreases fields
  {
    if fields == [] then []
    else [Member(Bytes(fields[0].name), DocValue(fields[0].slot.value))] + FieldsValue(fields[1..])
  }

  /** A blank is any character up to the space, but NUL. */
  ghost predicate Blanks(s: string)
  {
    forall i :: 0 <= i < |s| ==> 1 <= s[i] as int <= 32
  }

  ghost predicate IsNumeral(negative: bool, zero: bool, digits: string)
  {
    && (negative || zero || digits != []) && AllDigits(digits) && (digits != [] ==> digits[0] != '0')
    && -0x8000_0000 <= Signed(negative, Value(digits)) <= 0x7FFF_FFFF
  }

  ghost predicate IsDoc(d: Doc)
    decreases d
  {
    match d
    case Constant(word) => word == "null" || word == "false" || word == "true"
    case Numeral(negative, zero, digits) => IsNumeral(negative, zero, digits)
    case Quoted(ps, _) => InLiteral(ps)
    case List(gap, items) => Blanks(gap) && AreItems(items)
    case Record(gap, fields) => Blanks(gap) && AreFields(fields)
  }

  ghost predicate IsSlot(s: Slot)
    decreases s
  {
    IsDoc(s.value) && (s.value.Quoted? ==> s.value.closed) && Blanks(s.gap) && Blanks(s.next)
  }

  ghost predicate AreItems(items: seq<Slot>)
    decreases items
  {
    items == [] || (IsSlot(items[0]) && AreItems(items[1..]))
  }

  ghost predicate AreFields(fields: seq<Field>)
    decreases fields
  {
    fields == [] || (
      && InLiteral(fields[0].name) && Blanks(fields[0].gap) && Blanks(fields[0].lead) && IsSlot(fields[0].slot)
      && AreFields(fields[1..]))
  }

  /** What may follow a text: nothing that reads as more of a number, nor as its fraction or exponent;
      and nothing at all behind a literal that is not closed. */
  ghost predicate CanEnd(d: Doc, tail: string)
  {
    match d
    case Numeral(_, zero, digits) =>
      && (tail != [] ==> if zero && digits == [] then !('1' <= tail[0] <= '9') else !IsDigit(tail[0]))
      && (tail != [] ==> tail[0] != 'e' && tail[0] != 'E')
      && !(|tail| >= 2 && tail[0] == '.' && IsDigit(tail[1]))
    case Quoted(_, closed) => closed || tail == []
    case _ => true
  }

  // ---- every text of the grammar is parsed ----

  lemma BlanksAre(s: string)
    ensures Blanks(s) <==> JsonRoundTrip.Blank(s)
  {
  }

  lemma SkipGap(gap: string, t: string)
    requires Blanks(gap)
    ensures SkipBlanks(gap + t) == SkipBlanks(t)
  {
    BlanksAre(gap);
    JsonRoundTrip.SkipRun(gap, t);
  }

  lemma SkipToMark(gap: string, t: string)
    requires Blanks(gap) && t != [] && t[0] as int > 32
    ensures SkipBlanks(gap + t) == t
  {
    SkipGap(gap, t);
    JsonRoundTrip.SkipNothing(t);
  }

  lemma NumeralIsParsed(negative: bool, zero: bool, digits: string, tail: string)
    requires IsNumeral(negative, zero, digits) && CanEnd(Numeral(negative, zero, digits), tail)
    ensures var t := If(negative, "-") + (If(zero, "0") + digits) + tail;
            && t != [] && (t[0] == '-' || IsDigit(t[0])) && AllDigits(digits)
            && ParseNumber(t) == Parsed(Number(Signed(negative, Value(digits))), tail)
  {
    hide DigitCount, NumberOf, Value, IsFraction, Starts, DropOne;
    var t := If(negative, "-") + (If(zero, "0") + digits) + tail;
    var unsigned := If(zero, "0") + (digits + tail);
    assert t == If(negative, "-") + unsigned;
    NumeralStarts(negative, zero, digits, tail);
    JsonMeaning.DropFront(negative, '-', unsigned);
    JsonMeaning.DropFront(zero, '0', digits + tail);
    DigitsEnd(negative, zero, digits, tail);
  }

  lemma NumeralStarts(negative: bool, zero: bool, digits: string, tail: string)
    requires IsNumeral(negative, zero, digits) && CanEnd(Numeral(negative, zero, digits), tail)
    ensures var unsigned := If(zero, "0") + (digits + tail);
            && (!negative ==> !Starts(unsigned, '-') && unsigned != [] && IsDigit(unsigned[0]))
            && (!zero ==> !Starts(digits + tail, '0'))
    ensures var t := If(negative, "-") + (If(zero, "0") + digits) + tail; t != [] && (t[0] == '-' || IsDigit(t[0]))
  {
    hide Value, IsFraction;
  }

  lemma DigitsEnd(negative: bool, zero: bool, digits: string, tail: string)
    requires IsNumeral(negative, zero, digits) && CanEnd(Numeral(negative, zero, digits), tail)
    ensures NumberOf(negative, digits + tail) == Parsed(Number(Signed(negative, Value(digits))), tail)
  {
    hide Value;
    JsonRoundTrip.DigitsThen(digits, tail);
    JsonRoundTrip.CountThen(tail);
    assert (digits + tail)[..|digits|] == digits && (digits + tail)[|digits|..] == tail;
    if digits == [] { assert digits + tail == tail; }
  }

  lemma QuotedIsParsed(ps: seq<Piece>, closed: bool, tail: string)
    requires InLiteral(ps) && (closed || tail == [])
    ensures ParseLiteral(QuotedText(ps, closed) + tail) == Parsed(Bytes(ps), tail)
    ensures (QuotedText(ps, closed) + tail)[0] == '"'
  {
    hide InLiteral, Text, Bytes, ParseLiteral;
    var close := If(closed, "\"") + tail;
    assert QuotedText(ps, closed) + tail == "\"" + (Text(ps) + close);
    assert Behind(close) == tail;
    LiteralIsTheGrammar(QuotedText(ps, closed) + tail, Bytes(ps), tail);
  }

  // The first character of a text: no blank and no closing bracket.
  lemma DocStarts(d: Doc)
    requires IsDoc(d)
    ensures DocText(d) != [] && DocText(d)[0] as int > 32 && DocText(d)[0] != ']' && DocText(d)[0] != '}'
    ensures d.List? || d.Record? ==> DocText(d)[0] == if d.List? then '[' else '{'
  {
    hide AreItems, AreFields, ItemsText, FieldsText, Text, InLiteral;
  }

  /** What follows a value inside brackets can end it. */
  lemma SlotEnds(d: Doc, tail: string)
    requires (d.Quoted? ==> d.closed) && tail != []
    requires 1 <= tail[0] as int <= 32 || tail[0] == ',' || tail[0] == ']' || tail[0] == '}'
    ensures CanEnd(d, tail)
  {
  }

  lemma ScalarIsParsed(d: Doc, tail: string)
    requires IsDoc(d) && CanEnd(d, tail) && !d.List? && !d.Record?
    ensures ParseValue(DocText(d) + tail) == Parsed(DocValue(d), tail)
  {
    hide ParseNumber, ParseLiteral, Bytes, InLiteral, IsNumeral, CanEnd, Text, QuotedText;
    match d
    case Constant(_) => JsonRoundTrip.WordsThen(tail);
    case Numeral(negative, zero, digits) =>
      NumeralIsParsed(negative, zero, digits, tail);
      JsonRoundTrip.NoWord(DocText(d) + tail);
    case Quoted(ps, closed) =>
      QuotedEnd(d, tail);
      QuotedIsParsed(ps, closed, tail);
      JsonRoundTrip.NoWord(DocText(d) + tail);
  }

  lemma QuotedEnd(d: Doc, tail: string)
    requires d.Quoted? && CanEnd(d, tail)
    ensures d.closed || tail == []
    ensures DocText(d) + tail != []
  {
  }

  /** Every text of the grammar is parsed as its value, in front of whatever can follow it. */
  lemma {:induction false} DocIsParsed(d: Doc, tail: string)
    requires IsDoc(d) && CanEnd(d, tail)
    ensures ParseValue(DocText(d) + tail) == Parsed(DocValue(d), tail)
    decreases d
  {
    hide ParseValue, ItemsText, FieldsText, AreItems, AreFields, CanEnd;
    match d
    case List(gap, items) =>
      var t := ItemsText(items) + tail;
      assert DocText(d) + tail == "[" + (gap + t);
      ItemsStart(items, gap, tail);
      ListValue(gap, t);
      if items != [] { ItemsAreParsed(items, tail); }
    case Record(gap, fields) =>
      var t := FieldsText(fields) + tail;
      assert DocText(d) + tail == "{" + (gap + t);
      FieldsStart(fields, gap, tail);
      RecordValue(gap, t);
      if fields != [] { FieldsAreParsed(fields, tail); }
    case _ => ScalarIsParsed(d, tail);
  }

  // What a bracket, blanks and t are parsed as.
  lemma ListValue(gap: string, t: string)
    requires t != [] && SkipBlanks(gap + t) == t
    ensures t[0] == ']' ==> ParseValue("[" + (gap + t)) == Parsed(Array([]), t[1..])
    ensures t[0] != ']' ==> ParseValue("[" + (gap + t)) == match ParseItems(t)
                                                          case Parsed(items, rest) => Parsed(Array(items), rest)
                                                          case Failed => Failed
                                                          case Undefined => Undefined
  {
    hide SkipBlanks, ParseItems;
    assert ("[" + (gap + t))[1..] == gap + t;
    JsonRoundTrip.NoWord("[" + (gap + t));
  }

  lemma RecordValue(gap: string, t: string)
    requires t != [] && SkipBlanks(gap + t) == t
    ensures t[0] == '}' ==> ParseValue("{" + (gap + t)) == Parsed(Object([]), t[1..])
    ensures t[0] != '}' ==> ParseValue("{" + (gap + t)) == match ParseMembers(t)
                                                          case Parsed(members, rest) => Parsed(Object(members), rest)
                                                          case Failed => Failed
                                                          case Undefined => Undefined
  {
    hide SkipBlanks, ParseMembers;
    assert ("{" + (gap + t))[1..] == gap + t;
    JsonRoundTrip.NoWord("{" + (gap + t));
  }

  lemma ItemsStart(items: seq<Slot>, gap: string, tail: string)
    requires AreItems(items) && Blanks(gap)
    ensures var t := ItemsText(items) + tail;
            && t != [] && SkipBlanks(gap + t) == t
            && (items == [] ==> t[0] == ']' && t[1..] == tail) && (items != [] ==> t[0] != ']')
  {
    hide DocText, IsDoc, SkipBlanks, Blanks;
    var t := ItemsText(items) + tail;
    if items != [] { DocStarts(items[0].value); }
    SkipToMark(gap, t);
  }

  lemma FieldsStart(fields: seq<Field>, gap: string, tail: string)
    requires AreFields(fields) && Blanks(gap)
    ensures var t := FieldsText(fields) + tail;
            && t != [] && SkipBlanks(gap + t) == t
            && (fields == [] ==> t[0] == '}' && t[1..] == tail) && (fields != [] ==> t[0] == '"')
  {
    hide DocText, IsDoc, SkipBlanks, Blanks, Text;
    if fields != [] { assert FieldText(fields[0])[0] == '"'; }
    SkipToMark(gap, FieldsText(fields) + tail);
  }

  // What stands behind a value in brackets.
  lemma SlotFollows(gap: string, mark: char, t: string)
    requires Blanks(gap) && (mark == ',' || mark == ']' || mark == '}')
    ensures var rest := gap + ([mark] + t);
            && rest != [] && (1 <= rest[0] as int <= 32 || rest[0] == ',' || rest[0] == ']' || rest[0] == '}')
            && SkipBlanks(rest) == [mark] + t && ([mark] + t)[1..] == t
  {
    SkipToMark(gap, [mark] + t);
  }

  lemma {:induction false} ItemsAreParsed(items: seq<Slot>, tail: string)
    requires AreItems(items) && items != []
    ensures ParseItems(ItemsText(items) + tail) == Parsed(ItemsValue(items), tail)
    decreases items
  {
    hide ParseValue, DocText, DocValue, IsDoc, SkipBlanks, AfterItem, CanEnd, Blanks;
    var x := items[0];
    var value := DocText(x.value);
    if |items| > 1 {
      var more := ItemsText(items[1..]) + tail;
      var after := x.gap + ([','] + (x.next + more));
      assert ItemsText(items) + tail == value + after;
      SlotFollows(x.gap, ',', x.next + more);
      SlotEnds(x.value, after);
      DocIsParsed(x.value, after);
      ItemsStart(items[1..], x.next, tail);
      ItemsAreParsed(items[1..], tail);
      CommaItems(after, x.next + more);
    } else {
      var after := x.gap + ([']'] + tail);
      assert ItemsText(items) + tail == value + after;
      SlotFollows(x.gap, ']', tail);
      SlotEnds(x.value, after);
      DocIsParsed(x.value, after);
      CloseItems(after, tail);
      assert items[1..] == [];
    }
  }

  lemma CommaItems(after: string, more: string)
    requires SkipBlanks(after) == [','] + more
    ensures AfterItem(after) == ParseItems(SkipBlanks(more))
    ensures AfterMember(after) == ParseMembers(SkipBlanks(more))
  {
    hide SkipBlanks, ParseItems, ParseMembers;
    assert ([','] + more)[1..] == more;
  }

  lemma CloseItems(after: string, tail: string)
    ensures SkipBlanks(after) == [']'] + tail ==> AfterItem(after) == Parsed([], tail)
    ensures SkipBlanks(after) == ['}'] + tail ==> AfterMember(after) == Parsed([], tail)
  {
    hide SkipBlanks, ParseItems, ParseMembers;
    assert ([']'] + tail)[1..] == tail && (['}'] + tail)[1..] == tail;
  }

  // A name, its colon and its value.
  lemma FieldIsParsed(f: Field, after: string)
    requires InLiteral(f.name) && Blanks(f.gap) && Blanks(f.lead) && IsSlot(f.slot)
    requires ParseValue(DocText(f.slot.value) + after) == Parsed(DocValue(f.slot.value), after)
    ensures ParseMember(FieldText(f) + after) == Parsed(Member(Bytes(f.name), DocValue(f.slot.value)), after)
  {
    hide ParseValue, ParseLiteral, DocText, DocValue, IsDoc, SkipBlanks, InLiteral, Bytes, QuotedText;
    var value := DocText(f.slot.value) + after;
    var behind := f.gap + ([':'] + (f.lead + value));
    assert FieldText(f) + after == QuotedText(f.name, true) + behind;
    QuotedIsParsed(f.name, true, behind);
    SkipToMark(f.gap, [':'] + (f.lead + value));
    assert ([':'] + (f.lead + value))[1..] == f.lead + value;
    DocStarts(f.slot.value);
    SkipToMark(f.lead, value);
  }

  lemma {:induction false} FieldsAreParsed(fields: seq<Field>, tail: string)
    requires AreFields(fields) && fields != []
    ensures ParseMembers(FieldsText(fields) + tail) == Parsed(FieldsValue(fields), tail)
    decreases fields
  {
    hide ParseValue, ParseMember, DocText, FieldText, DocValue, IsDoc, SkipBlanks, AfterMember, CanEnd, Blanks, InLiteral, Bytes;
    var x := fields[0];
    if |fields| > 1 {
      var more := FieldsText(fields[1..]) + tail;
      var after := x.slot.gap + ([','] + (x.slot.next + more));
      assert FieldsText(fields) + tail == FieldText(x) + after;
      SlotFollows(x.slot.gap, ',', x.slot.next + more);
      SlotEnds(x.slot.value, after);
      DocIsParsed(x.slot.value, after);
      FieldIsParsed(x, after);
      FieldsStart(fields[1..], x.slot.next, tail);
      FieldsAreParsed(fields[1..], tail);
      CommaItems(after, x.slot.next + more);
    } else {
      var after := x.slot.gap + (['}'] + tail);
      assert FieldsText(fields) + tail == FieldText(x) + after;
      SlotFollows(x.slot.gap, '}', tail);
      SlotEnds(x.slot.value, after);
      DocIsParsed(x.slot.value, after);
      FieldIsParsed(x, after);
      CloseItems(after, tail);
      assert fields[1..] == [];
    }
  }

  // ---- every text that is parsed is one of the grammar ----

  lemma {:induction false} BlanksOf(t: string) returns (gap: string)
    ensures Blanks(gap) && t == gap + SkipBlanks(t)
    decreases |t|
  {
    if t != [] && IsBlank(t[0]) {
      var more := BlanksOf(t[1..]);
      gap := [t[0]] + more;
    } else {
      gap := [];
    }
  }

  lemma NumeralOf(t: string) returns (d: Doc)
    requires t != [] && (t[0] == '-' || IsDigit(t[0])) && ParseNumber(t).Parsed?
    ensures d.Numeral? && IsDoc(d) && CanEnd(d, ParseNumber(t).rest) && t == DocText(d) + ParseNumber(t).rest
    ensures ParseNumber(t) == Parsed(DocValue(d), ParseNumber(t).rest)
  {
    hide NumberOf, Value, IsFraction, DigitCount, ParseNumber, Starts, CanEnd;
    var negative, zero, digits := JsonMeaning.NumberParts(t);
    var k := DigitCount(digits);
    JsonMeaning.RestOfNumber(negative, digits);
    NumberIs(negative, digits);
    d := Numeral(negative, zero, digits[..k]);
    NumeralText(negative, zero, digits, k);
    NumeralCanEnd(negative, zero, digits);
    CountStops(digits);
  }

  lemma NumeralText(negative: bool, zero: bool, digits: string, k: nat)
    requires k <= |digits|
    ensures If(negative, "-") + (If(zero, "0") + digits) == DocText(Numeral(negative, zero, digits[..k])) + digits[k..]
  {
    assert digits == digits[..k] + digits[k..];
    RegroupNumeral(If(negative, "-"), If(zero, "0"), digits[..k], digits[k..]);
  }

  lemma RegroupNumeral(sign: string, zero: string, ds: string, rest: string)
    ensures sign + (zero + (ds + rest)) == sign + (zero + ds) + rest
  {
  }

  // What stands behind the digits that were read can follow them.
  lemma NumeralCanEnd(negative: bool, zero: bool, digits: string)
    requires NumberOf(negative, digits).Parsed? && (!zero ==> !Starts(digits, '0'))
    ensures var k := DigitCount(digits); CanEnd(Numeral(negative, zero, digits[..k]), digits[k..])
  {
    hide DigitCount, Value;
    NumberIs(negative, digits);
    CountStops(digits);
  }

  lemma NumberIs(negative: bool, digits: string)
    requires NumberOf(negative, digits).Parsed?
    ensures var k := DigitCount(digits);
            && AllDigits(digits[..k]) && !IsFraction(digits[k..])
            && -0x8000_0000 <= Signed(negative, Value(digits[..k])) <= 0x7FFF_FFFF
            && NumberOf(negative, digits) == Parsed(Number(Signed(negative, Value(digits[..k]))), digits[k..])
  {
    hide DigitCount, Value, IsFraction;
  }

  // Where the digits of a number stop.
  lemma CountStops(digits: string)
    ensures var k := DigitCount(digits);
            && (k > 0 ==> digits[0] != '0')
            && (k < |digits| ==> if k == 0 then !('1' <= digits[0] <= '9') else !IsDigit(digits[k]))
            && (k == 0 && digits != [] && digits[0] != '0' ==> !IsDigit(digits[0]))
  {
    LeadingStops(digits);
  }

  lemma {:induction false} LeadingStops(t: string)
    ensures LeadingDigits(t) < |t| ==> !IsDigit(t[LeadingDigits(t)])
  {
    if t != [] && IsDigit(t[0]) { LeadingStops(t[1..]); }
  }

  lemma QuotedOf(t: string) returns (d: Doc)
    requires ParseLiteral(t).Parsed?
    ensures d.Quoted? && IsDoc(d) && CanEnd(d, ParseLiteral(t).rest) && t == DocText(d) + ParseLiteral(t).rest
    ensures ParseLiteral(t) == Parsed(Bytes(d.ps), ParseLiteral(t).rest)
  {
    hide InLiteral, Text, Bytes, Unescape;
    var ps, close := ReadIsPieces(t[1..]);
    d := Quoted(ps, close != []);
    assert t == "\"" + t[1..];
    if close != [] { assert close == "\"" + close[1..]; }
    assert t == DocText(d) + Behind(close);
  }

  lemma WordOf(t: string, word: string)
    requires word <= t
    ensures t == word + t[|word|..]
  {
  }

  /** Every text that is parsed is one of the grammar, followed by something that can follow it. */
  lemma {:induction false} DocOf(t: string) returns (d: Doc)
    requires ParseValue(t).Parsed?
    ensures IsDoc(d) && CanEnd(d, ParseValue(t).rest) && t == DocText(d) + ParseValue(t).rest
    ensures ParseValue(t) == Parsed(DocValue(d), ParseValue(t).rest)
    decreases |t|, 0
  {
    hide ParseNumber, ParseLiteral, ParseItems, ParseMembers, SkipBlanks, InLiteral, Text, Bytes, IsNumeral, ItemsText, FieldsText, AreItems, AreFields;
    if "null" <= t || "false" <= t || "true" <= t {
      var word := if "null" <= t then "null" else if "false" <= t then "false" else "true";
      WordOf(t, word);
      d := Constant(word);
    } else if t[0] == '"' {
      d := QuotedOf(t);
    } else if t[0] == '-' || IsDigit(t[0]) {
      d := NumeralOf(t);
    } else {
      var gap := BlanksOf(t[1..]);
      var inner := SkipBlanks(t[1..]);
      if t[0] == '[' {
        var items := [];
        if !Starts(inner, ']') { items := ItemsOf(inner); } else { NoItems(inner); }
        d := List(gap, items);
        BracketJoins("[", gap, inner, ItemsText(items), ParseValue(t).rest, t);
      } else {
        var fields := [];
        if !Starts(inner, '}') { fields := FieldsOf(inner); } else { NoItems(inner); }
        d := Record(gap, fields);
        BracketJoins("{", gap, inner, FieldsText(fields), ParseValue(t).rest, t);
      }
    }
  }

  lemma NoItems(t: string)
    ensures Starts(t, ']') ==> t == ItemsText([]) + t[1..] && AreItems([]) && ItemsValue([]) == []
    ensures Starts(t, '}') ==> t == FieldsText([]) + t[1..] && AreFields([]) && FieldsValue([]) == []
  {
  }

  lemma BracketJoins(bracket: string, gap: string, inner: string, text: string, rest: string, t: string)
    requires |bracket| == 1 && t != [] && t[0] == bracket[0] && t[1..] == gap + inner && inner == text + rest
    ensures t == bracket + (gap + text) + rest
  {
    assert t == bracket + t[1..];
  }

  // The value at the front of some items or behind a name, with the blanks behind it.
  lemma {:induction false} SlotOf(t: string) returns (s: Slot, u: string)
    requires ParseValue(t).Parsed? && SkipBlanks(ParseValue(t).rest) != []
    ensures IsSlot(s) && s.next == [] && u == SkipBlanks(ParseValue(t).rest) && t == DocText(s.value) + (s.gap + u)
    ensures ParseValue(t) == Parsed(DocValue(s.value), s.gap + u)
    decreases |t|, 1
  {
    hide ParseValue, SkipBlanks, DocText, DocValue, IsDoc;
    var d := DocOf(t);
    var rest := ParseValue(t).rest;
    var gap := BlanksOf(rest);
    u := SkipBlanks(rest);
    s := Slot(d, gap, []);
  }

  lemma ItemsStep(t: string)
    requires ParseItems(t).Parsed?
    ensures ParseValue(t).Parsed? && AfterItem(ParseValue(t).rest).Parsed?
    ensures var u := SkipBlanks(ParseValue(t).rest);
            && u != [] && (u[0] == ',' || u[0] == ']')
            && (if u[0] == ',' then ParseItems(SkipBlanks(u[1..])).Parsed? && |SkipBlanks(u[1..])| < |t|
                                   && ParseItems(t) == Before([ParseValue(t).value], ParseItems(SkipBlanks(u[1..])))
                else ParseItems(t) == Parsed([ParseValue(t).value], u[1..]))
  {
    hide ParseValue, SkipBlanks;
    assert forall j: Json :: [j] + [] == [j];
  }

  lemma {:induction false} ItemsOf(t: string) returns (items: seq<Slot>)
    requires ParseItems(t).Parsed?
    ensures items != [] && AreItems(items) && t == ItemsText(items) + ParseItems(t).rest
    ensures ParseItems(t) == Parsed(ItemsValue(items), ParseItems(t).rest)
    decreases |t|, 2
  {
    hide ParseValue, ParseItems, AfterItem, SkipBlanks, DocText, DocValue, IsSlot;
    ItemsStep(t);
    var x, u := SlotOf(t);
    assert u == [u[0]] + u[1..];
    if u[0] == ',' {
      var next := BlanksOf(u[1..]);
      var more := ItemsOf(SkipBlanks(u[1..]));
      BeforeParsed([DocValue(x.value)], ItemsValue(more), ParseItems(t).rest);
      items := [Slot(x.value, x.gap, next)] + more;
      SameSlot(x, next);
      assert items[1..] == more;
      ItemsJoin(DocText(x.value), x.gap, next, ItemsText(more), ParseItems(t).rest);
    } else {
      items := [x];
      assert items[1..] == [] && ItemsValue([]) == [];
      assert [DocValue(x.value)] + [] == [DocValue(x.value)];
      ItemsEnd(DocText(x.value), x.gap, [u[0]], u[1..]);
    }
  }

  lemma BeforeParsed<T>(xs: seq<T>, ys: seq<T>, rest: string)
    ensures Before(xs, Parsed(ys, rest)) == Parsed(xs + ys, rest)
  {
  }

  lemma SameSlot(x: Slot, next: string)
    requires IsSlot(x) && Blanks(next)
    ensures IsSlot(Slot(x.value, x.gap, next))
  {
  }

  lemma ItemsJoin(value: string, gap: string, next: string, more: string, rest: string)
    ensures value + (gap + ("," + (next + (more + rest)))) == value + (gap + ("," + (next + more))) + rest
  {
  }

  lemma ItemsEnd(value: string, gap: string, mark: string, rest: string)
    ensures value + (gap + (mark + rest)) == value + (gap + mark) + rest
  {
  }

  lemma FieldStep(t: string)
    requires ParseMember(t).Parsed?
    ensures ParseLiteral(t).Parsed? && Starts(SkipBlanks(ParseLiteral(t).rest), ':')
    ensures var v := SkipBlanks(SkipBlanks(ParseLiteral(t).rest)[1..]);
            && |v| < |t| && ParseValue(v).Parsed?
            && ParseMember(t) == Parsed(Member(ParseLiteral(t).value, ParseValue(v).value), ParseValue(v).rest)
  {
    hide ParseValue, ParseLiteral, SkipBlanks;
  }

  // A name, its colon and its value, with the blanks behind it.
  lemma {:induction false} FieldOf(t: string) returns (f: Field, u: string)
    requires ParseMember(t).Parsed? && SkipBlanks(ParseMember(t).rest) != []
    ensures InLiteral(f.name) && Blanks(f.gap) && Blanks(f.lead) && IsSlot(f.slot) && f.slot.next == []
    ensures u == SkipBlanks(ParseMember(t).rest) && t == FieldText(f) + (f.slot.gap + u)
    ensures ParseMember(t) == Parsed(Member(Bytes(f.name), DocValue(f.slot.value)), f.slot.gap + u)
    decreases |t|, 1
  {
    hide ParseValue, ParseMember, ParseLiteral, SkipBlanks, DocText, DocValue, IsSlot, InLiteral, Text, Bytes;
    FieldStep(t);
    var name := NameOf(t);
    var behind := ParseLiteral(t).rest;
    var gap := BlanksOf(behind);
    var colon := SkipBlanks(behind);
    var lead := BlanksOf(colon[1..]);
    var v := SkipBlanks(colon[1..]);
    var slot;
    slot, u := SlotOf(v);
    f := Field(name, gap, lead, slot);
    assert colon == ":" + colon[1..];
    FieldJoins(QuotedText(name, true), gap, lead, DocText(slot.value), slot.gap + u);
  }

  // A name in front of a colon is closed.
  lemma NameOf(t: string) returns (name: seq<Piece>)
    requires ParseLiteral(t).Parsed? && SkipBlanks(ParseLiteral(t).rest) != []
    ensures InLiteral(name) && t == QuotedText(name, true) + ParseLiteral(t).rest
    ensures ParseLiteral(t) == Parsed(Bytes(name), ParseLiteral(t).rest)
  {
    hide ParseLiteral, InLiteral, Text, Bytes;
    var d := QuotedOf(t);
    name := d.ps;
  }

  lemma FieldJoins(name: string, gap: string, lead: string, value: string, rest: string)
    ensures name + (gap + (":" + (lead + (value + rest)))) == name + (gap + (":" + (lead + value))) + rest
  {
  }

  lemma FieldsStep(t: string)
    requires ParseMembers(t).Parsed?
    ensures ParseMember(t).Parsed? && AfterMember(ParseMember(t).rest).Parsed?
    ensures var u := SkipBlanks(ParseMember(t).rest);
            && u != [] && (u[0] == ',' || u[0] == '}')
            && (if u[0] == ',' then ParseMembers(SkipBlanks(u[1..])).Parsed? && |SkipBlanks(u[1..])| < |t|
                                   && ParseMembers(t) == Before([ParseMember(t).value], ParseMembers(SkipBlanks(u[1..])))
                else ParseMembers(t) == Parsed([ParseMember(t).value], u[1..]))
  {
    hide ParseMember, SkipBlanks;
    assert forall m: Member :: [m] + [] == [m];
  }

  lemma {:induction false} FieldsOf(t: string) returns (fields: seq<Field>)
    requires ParseMembers(t).Parsed?
    ensures fields != [] && AreFields(fields) && t == FieldsText(fields) + ParseMembers(t).rest
    ensures ParseMembers(t) == Parsed(FieldsValue(fields), ParseMembers(t).rest)
    decreases |t|, 2
  {
    hide ParseMember, ParseMembers, AfterMember, SkipBlanks, FieldText, DocValue, IsSlot, InLiteral, Bytes;
    FieldsStep(t);
    var x, u := FieldOf(t);
    assert u == [u[0]] + u[1..];
    if u[0] == ',' {
      var next := BlanksOf(u[1..]);
      var more := FieldsOf(SkipBlanks(u[1..]));
      BeforeParsed([Member(Bytes(x.name), DocValue(x.slot.value))], FieldsValue(more), ParseMembers(t).rest);
      var y := x.(slot := Slot(x.slot.value, x.slot.gap, next));
      fields := [y] + more;
      SameSlot(x.slot, next);
      SameField(x, next);
      assert fields[1..] == more;
      ItemsJoin(FieldText(x), x.slot.gap, next, FieldsText(more), ParseMembers(t).rest);
    } else {
      fields := [x];
      assert fields[1..] == [] && FieldsValue([]) == [];
      var m := Member(Bytes(x.name), DocValue(x.slot.value));
      assert [m] + [] == [m];
      ItemsEnd(FieldText(x), x.slot.gap, [u[0]], u[1..]);
    }
  }

  lemma SameField(x: Field, next: string)
    ensures FieldText(x.(slot := Slot(x.slot.value, x.slot.gap, next))) == FieldText(x)
  {
  }

  // ---- parsing is the grammar ----

  /** A value is parsed, in front of the rest, exactly if the text is one of the grammar that stands for
      it, and the rest can follow it. */
  lemma ParseIsTheGrammar(t: string, j: Json, rest: string)
    ensures ParseValue(t) == Parsed(j, rest)
       <==> exists d :: IsDoc(d) && CanEnd(d, rest) && t == DocText(d) + rest && j == DocValue(d)
  {
    hide ParseValue, IsDoc, CanEnd, DocText, DocValue;
    if ParseValue(t).Parsed? {
      var d := DocOf(t);
    }
    forall d | IsDoc(d) && CanEnd(d, rest) && t == DocText(d) + rest ensures ParseValue(t) == Parsed(DocValue(d), rest) {
      DocIsParsed(d, rest);
    }
  }

  /** A whole text is parsed exactly if it is one of the grammar with blanks around it. */
  lemma WholeTextIsTheGrammar(s: string, j: Json)
    ensures ParseText(s, true) == Parsed(j, [])
       <==> exists lead, d, end :: Blanks(lead) && Blanks(end) && IsDoc(d) && CanEnd(d, end)
                                   && s == lead + (DocText(d) + end) && j == DocValue(d)
  {
    hide ParseValue, IsDoc, CanEnd, DocText, DocValue, SkipBlanks, Blanks;
    var lead := BlanksOf(s);
    if ParseText(s, true) == Parsed(j, []) {
      var d := DocOf(SkipBlanks(s));
      var end := ParseValue(SkipBlanks(s)).rest;
      var gap := BlanksOf(end);
      assert gap + [] == gap;
      assert s == lead + (DocText(d) + end);
    }
    forall b, d, end | Blanks(b) && Blanks(end) && IsDoc(d) && CanEnd(d, end) && s == b + (DocText(d) + end)
      ensures ParseText(s, true) == Parsed(DocValue(d), [])
    {
      DocIsParsed(d, end);
      DocStarts(d);
      SkipToMark(b, DocText(d) + end);
      SkipAll(end);
    }
  }

  /** Where the end does not matter, anything may follow that can follow a value. */
  lemma TextIsTheGrammar(s: string, j: Json, rest: string)
    ensures ParseText(s, false) == Parsed(j, rest)
       <==> exists lead, d :: Blanks(lead) && IsDoc(d) && CanEnd(d, rest) && s == lead + (DocText(d) + rest) && j == DocValue(d)
  {
    hide ParseValue, IsDoc, CanEnd, DocText, DocValue, SkipBlanks, Blanks;
    var lead := BlanksOf(s);
    if ParseText(s, false) == Parsed(j, rest) {
      var d := DocOf(SkipBlanks(s));
      assert s == lead + (DocText(d) + rest);
    }
    forall b, d | Blanks(b) && IsDoc(d) && CanEnd(d, rest) && s == b + (DocText(d) + rest)
      ensures ParseText(s, false) == Parsed(DocValue(d), rest)
    {
      DocIsParsed(d, rest);
      DocStarts(d);
      SkipToMark(b, DocText(d) + rest);
    }
  }

  lemma SkipAll(gap: string)
    requires Blanks(gap)
    ensures SkipBlanks(gap) == []
  {
    SkipGap(gap, []);
    assert gap + [] == gap;
  }
}
