/** The argument lines `sdssplitargs` of src/common/sds.c accepts, as a grammar: what a line may be
    made of, the arguments each part stands for, and the proof that splitting gives exactly those.
 */
module SdsGrammar {
  import opened CStrings
  import opened SdsArgs

  // ---- the parts of a line ----

  predicate Blank(c: char)
  {
    c == ' ' || 9 <= c as int <= 13
  }

  ghost predicate Blanks(s: string)
  {
    forall i :: 0 <= i < |s| ==> Blank(s[i])
  }

  /** The blanks that end a word; the others, vertical tab and form feed, may stand inside it. */
  predicate EndsWord(c: char)
  {
    c == ' ' || c == '\t' || c == '\n' || c == '\r'
  }

  predicate InWord(c: char)
  {
    c != NUL && c != '"' && c != '\'' && !EndsWord(c)
  }

  /** One piece of a quoted text: a character for itself, an escaped one, or a byte in hexadecimal. */
  datatype Piece = Plain(c: char) | Escaped(c: char) | Hex(byte: char, high: char, low: char)

  function PieceText(p: Piece): (t: string)
    ensures t != []
  {
    match p
    case Plain(c) => [c]
    case Escaped(c) => ['\\', c]
    case Hex(_, high, low) => ['\\', 'x', high, low]
  }

  /** The control characters behind a backslash, by their codes in ASCII. */
  function EscapeValue(c: char): char
  {
    match c
    case 'a' => 7 as char
    case 'b' => 8 as char
    case 't' => 9 as char
    case 'n' => 10 as char
    case 'r' => 13 as char
    case _ => c
  }

  function PieceValue(p: Piece): char
  {
    match p
    case Plain(c) => c
    case Escaped(c) => EscapeValue(c)
    case Hex(byte, _, _) => byte
  }

  function Text(ps: seq<Piece>): string
  {
    if ps == [] then [] else PieceText(ps[0]) + Text(ps[1..])
  }

  function Value(ps: seq<Piece>): (v: string)
    ensures |v| == |ps|
  {
    if ps == [] then [] else [PieceValue(ps[0])] + Value(ps[1..])
  }

  ghost predicate Digit(c: char)
  {
    exists d :: Spells(c, d)
  }

  ghost predicate TwoDigits(t: string)
  {
    |t| >= 2 && Digit(t[0]) && Digit(t[1])
  }

  /** Pieces between double quotes. An escaped x is not one if two digits follow. */
  ghost predicate InDouble(ps: seq<Piece>)
  {
    ps == [] || (
      && InDouble(ps[1..])
      && match ps[0]
         case Plain(c) => c != NUL && c != '"' && c != '\\'
         case Escaped(c) => c != NUL && (c == 'x' ==> !TwoDigits(Text(ps[1..])))
         case Hex(byte, high, low) => Spells(high, byte as int / 16) && Spells(low, byte as int % 16))
  }

  /** Pieces between single quotes. Only the quote can be escaped, so a backslash cannot be last. */
  ghost predicate InSingle(ps: seq<Piece>)
  {
    ps == [] || (
      && InSingle(ps[1..])
      && match ps[0]
         case Plain(c) => c != NUL && c != '\'' && (c == '\\' ==> ps[1..] != [])
         case Escaped(c) => c == '\''
         case Hex(_, _, _) => false)
  }

  /** An argument is a word, a quoted text, or a word with a quoted text right behind it. */
  datatype Quotation = NoQuotation | Double(ps: seq<Piece>) | Single(ps: seq<Piece>)

  datatype Argument = Argument(word: string, quotation: Quotation)

  function QuotationText(q: Quotation): string
  {
    match q
    case NoQuotation => []
    case Double(ps) => "\"" + Text(ps) + "\""
    case Single(ps) => "'" + Text(ps) + "'"
  }

  function ArgumentText(a: Argument): string
  {
    a.word + QuotationText(a.quotation)
  }

  function ArgumentValue(a: Argument): string
  {
    match a.quotation
    case NoQuotation => a.word
    case _ => a.word + Value(a.quotation.ps)
  }

  ghost predicate IsQuotation(q: Quotation)
  {
    match q
    case NoQuotation => true
    case Double(ps) => InDouble(ps)
    case Single(ps) => InSingle(ps)
  }

  ghost predicate IsWord(w: string)
  {
    forall i :: 0 <= i < |w| ==> InWord(w[i])
  }

  ghost predicate IsArgument(a: Argument)
  {
    && IsWord(a.word) && IsQuotation(a.quotation)
    && ArgumentText(a) != [] && !Blank(ArgumentText(a)[0])
  }

  /** An argument and the blanks behind it. */
  datatype Spaced = Spaced(argument: Argument, gap: string)

  /** There are blanks between two arguments; the first one behind a word has to end it. */
  ghost predicate IsSpaced(parts: seq<Spaced>)
  {
    parts == [] || (
      && IsArgument(parts[0].argument) && Blanks(parts[0].gap)
      && (parts[1..] != [] ==> parts[0].gap != [])
      && (parts[0].argument.quotation == NoQuotation && parts[0].gap != [] ==> EndsWord(parts[0].gap[0]))
      && IsSpaced(parts[1..]))
  }

  function SpacedText(parts: seq<Spaced>): string
  {
    if parts == [] then [] else ArgumentText(parts[0].argument) + (parts[0].gap + SpacedText(parts[1..]))
  }

  function SpacedValues(parts: seq<Spaced>): seq<string>
  {
    if parts == [] then [] else [ArgumentValue(parts[0].argument)] + SpacedValues(parts[1..])
  }

  /** A line: blanks, then arguments with blanks between and behind them. */
  ghost predicate IsLine(line: string, lead: string, parts: seq<Spaced>)
  {
    Blanks(lead) && IsSpaced(parts) && line == lead + SpacedText(parts)
  }

  // ---- every line of the grammar is split into its arguments ----

  lemma BlankIsSpace(c: char)
    ensures Blank(c) <==> IsSpace(c)
  {
  }

  lemma EscapesAgree(c: char)
    ensures Unescape(c) == EscapeValue(c)
  {
  }

  // A piece between double quotes is read as its value.
  lemma DoublePiece(line: string, p: nat, ps: seq<Piece>, current: string)
    requires ps != [] && InDouble(ps) && StandsAt(line, p, PieceText(ps[0])) && StandsAt(line, p + |PieceText(ps[0])|, Text(ps[1..]) + "\"")
    ensures var next := p + |PieceText(ps[0])|;
            Token(line, p, Quoted, current) == Token(line, next, Quoted, current + [PieceValue(ps[0])])
  {
    hide InDouble, Text, Digit, Spells, EscapeValue, Unescape, HexEscape;
    var t, rest := PieceText(ps[0]), Text(ps[1..]) + "\"";
    forall i | 0 <= i < |t| ensures line[p + i] == t[i] { StandsAtChar(line, p, t, i); }
    assert line[p] == line[p + 0] == t[0];
    DoubleStep(ps);
    match ps[0]
    case Plain(c) =>
    case Escaped(c) =>
      EscapesAgree(c);
      if c == 'x' && IsHexEscape(line, p) { DigitsAhead(line, p, Text(ps[1..])); }
    case Hex(byte, high, low) =>
      assert line[p + 2] == t[2] && line[p + 3] == t[3];
      SpelledByte(line, p, byte);
  }

  lemma SpelledByte(line: string, p: nat, byte: char)
    requires p + 3 < |line| && line[p] == '\\' && line[p + 1] == 'x'
    requires Spells(line[p + 2], byte as int / 16) && Spells(line[p + 3], byte as int % 16)
    ensures IsHexEscape(line, p) && HexEscape(line, p) == byte
  {
    hide Spells;
    DigitsAreSpelled(line[p + 2]);
    DigitsAreSpelled(line[p + 3]);
  }

  lemma DoubleStep(ps: seq<Piece>)
    requires ps != [] && InDouble(ps)
    ensures match ps[0]
            case Plain(c) => c != NUL && c != '"' && c != '\\'
            case Escaped(c) => c != NUL && (c == 'x' ==> !TwoDigits(Text(ps[1..])))
            case Hex(byte, high, low) => Spells(high, byte as int / 16) && Spells(low, byte as int % 16)
    ensures InDouble(ps[1..])
  {
  }

  lemma DigitsAhead(line: string, p: nat, rest: string)
    requires p <= |line| && IsHexEscape(line, p) && StandsAt(line, p + 2, rest + "\"")
    ensures TwoDigits(rest)
  {
    var t := rest + "\"";
    forall i | 0 <= i < |t| ensures line[p + 2 + i] == t[i] { StandsAtChar(line, p + 2, t, i); }
    assert line[p + 2 + 0] == t[0] && rest != [];
    assert line[p + 2 + 1] == t[1];
    DigitsAreSpelled(t[0]);
    DigitsAreSpelled(t[1]);
    assert Spells(t[0], HexDigitToInt(t[0])) && Spells(t[1], HexDigitToInt(t[1]));
  }

  lemma NoPieces(current: string, quote: string)
    ensures Text([]) == [] && Value([]) == [] && Text([]) + quote == quote && current + Value([]) == current
  {
  }

  lemma FirstPiece(ps: seq<Piece>, current: string, quote: string)
    requires ps != []
    ensures Text(ps) + quote == PieceText(ps[0]) + (Text(ps[1..]) + quote) && |Text(ps)| == |PieceText(ps[0])| + |Text(ps[1..])|
    ensures current + [PieceValue(ps[0])] + Value(ps[1..]) == current + Value(ps)
  {
    hide PieceText, PieceValue;
    assert PieceText(ps[0]) + Text(ps[1..]) + quote == PieceText(ps[0]) + (Text(ps[1..]) + quote);
    assert current + [PieceValue(ps[0])] + Value(ps[1..]) == current + ([PieceValue(ps[0])] + Value(ps[1..]));
  }

  // A text between double quotes, from behind the opening one.
  lemma {:induction false} ReadDouble(line: string, p: nat, ps: seq<Piece>, current: string)
    requires InDouble(ps) && StandsAt(line, p, Text(ps) + "\"")
    ensures var e := p + |Text(ps)| + 1;
            Token(line, p, Quoted, current) == if EndsToken(line, e) then Some((current + Value(ps), e)) else None
    decreases |ps|
  {
    hide InDouble, Token, EndsToken, StandsAt, Text, Value, PieceText, PieceValue;
    if ps == [] {
      NoPieces(current, "\"");
      CloseDouble(line, p, current);
    } else {
      var t, rest := PieceText(ps[0]), Text(ps[1..]);
      FirstPiece(ps, current, "\"");
      StandsAtSplit(line, p, t, rest + "\"");
      DoubleStep(ps);
      DoublePiece(line, p, ps, current);
      ReadDouble(line, p + |t|, ps[1..], current + [PieceValue(ps[0])]);
    }
  }

  lemma CloseDouble(line: string, p: nat, current: string)
    requires StandsAt(line, p, "\"")
    ensures Token(line, p, Quoted, current) == if EndsToken(line, p + 1) then Some((current, p + 1)) else None
  {
    StandsAtChar(line, p, "\"", 0);
  }

  lemma SingleStep(ps: seq<Piece>)
    requires ps != [] && InSingle(ps)
    ensures match ps[0]
            case Plain(c) => c != NUL && c != '\'' && (c == '\\' ==> ps[1..] != [])
            case Escaped(c) => c == '\''
            case Hex(_, _, _) => false
    ensures InSingle(ps[1..])
  {
  }

  // No text between single quotes starts with the quote.
  lemma SingleStart(ps: seq<Piece>)
    requires ps != [] && InSingle(ps)
    ensures Text(ps) != [] && Text(ps)[0] != '\''
  {
  }

  lemma SinglePiece(line: string, p: nat, ps: seq<Piece>, current: string)
    requires ps != [] && InSingle(ps) && StandsAt(line, p, PieceText(ps[0])) && StandsAt(line, p + |PieceText(ps[0])|, Text(ps[1..]) + "'")
    ensures var next := p + |PieceText(ps[0])|;
            Token(line, p, SingleQuoted, current) == Token(line, next, SingleQuoted, current + [PieceValue(ps[0])])
  {
    hide InSingle, Text;
    var t, rest := PieceText(ps[0]), Text(ps[1..]) + "'";
    forall i | 0 <= i < |t| ensures line[p + i] == t[i] { StandsAtChar(line, p, t, i); }
    assert line[p] == line[p + 0] == t[0];
    StandsAtChar(line, p + |t|, rest, 0);
    SingleStep(ps);
    if ps[1..] != [] { SingleStart(ps[1..]); }
  }

  lemma CloseSingle(line: string, p: nat, current: string)
    requires StandsAt(line, p, "'")
    ensures Token(line, p, SingleQuoted, current) == if EndsToken(line, p + 1) then Some((current, p + 1)) else None
  {
    StandsAtChar(line, p, "'", 0);
  }

  // A text between single quotes, from behind the opening one.
  lemma {:induction false} ReadSingle(line: string, p: nat, ps: seq<Piece>, current: string)
    requires InSingle(ps) && StandsAt(line, p, Text(ps) + "'")
    ensures var e := p + |Text(ps)| + 1;
            Token(line, p, SingleQuoted, current) == if EndsToken(line, e) then Some((current + Value(ps), e)) else None
    decreases |ps|
  {
    hide InSingle, Token, EndsToken, StandsAt, Text, Value, PieceText, PieceValue;
    if ps == [] {
      NoPieces(current, "'");
      CloseSingle(line, p, current);
    } else {
      var t, rest := PieceText(ps[0]), Text(ps[1..]);
      FirstPiece(ps, current, "'");
      StandsAtSplit(line, p, t, rest + "'");
      SingleStep(ps);
      SinglePiece(line, p, ps, current);
      ReadSingle(line, p + |t|, ps[1..], current + [PieceValue(ps[0])]);
    }
  }

  lemma {:induction false} ReadWord(line: string, p: nat, w: string, current: string)
    requires IsWord(w) && StandsAt(line, p, w)
    ensures Token(line, p, Bare, current) == Token(line, p + |w|, Bare, current + w)
    decreases |w|
  {
    if w == [] {
      assert current + w == current;
    } else {
      assert w == [w[0]] + w[1..];
      StandsAtSplit(line, p, [w[0]], w[1..]);
      StandsAtChar(line, p, [w[0]], 0);
      ReadWord(line, p + 1, w[1..], current + [w[0]]);
      assert current + [w[0]] + w[1..] == current + w;
    }
  }

  /** Where an argument may end: at the end of the line, or in front of a blank that ends it. */
  ghost predicate EndsArgument(line: string, e: nat, q: Quotation)
    requires e <= |line|
  {
    At(line, e) == NUL || (if q == NoQuotation then EndsWord(At(line, e)) else Blank(At(line, e)))
  }

  // An argument is read as its value; behind a word the blank that ends it is consumed.
  lemma ReadArgument(line: string, p: nat, a: Argument) returns (end: nat)
    requires IsArgument(a) && StandsAt(line, p, ArgumentText(a)) && EndsArgument(line, p + |ArgumentText(a)|, a.quotation)
    ensures Token(line, p, Bare, []) == Some((ArgumentValue(a), end))
    ensures var e := p + |ArgumentText(a)|;
            end == e || (end == e + 1 && e < |line| && Blank(line[e]))
  {
    hide Token, InDouble, InSingle, IsWord, Value, Text, EndsToken, StandsAt;
    var q := p + |a.word|;
    StandsAtSplit(line, p, a.word, QuotationText(a.quotation));
    ReadWord(line, p, a.word, []);
    assert [] + a.word == a.word;
    if a.quotation == NoQuotation {
      end := EndWord(line, q, a.word);
    } else {
      end := p + |ArgumentText(a)|;
      ReadQuotation(line, q, a.quotation, a.word);
    }
  }

  lemma ReadQuotation(line: string, p: nat, q: Quotation, w: string)
    requires q != NoQuotation && IsQuotation(q) && StandsAt(line, p, QuotationText(q))
    requires p + |QuotationText(q)| <= |line| && EndsArgument(line, p + |QuotationText(q)|, q)
    ensures Token(line, p, Bare, w) == Some((w + Value(q.ps), p + |QuotationText(q)|))
  {
    hide Token, EndsToken, EndsArgument, InDouble, InSingle, Value, Text, StandsAt;
    QuotationEnds(line, p + |QuotationText(q)|, q);
    match q
    case Double(ps) =>
      Associated("\"", Text(ps), "\"");
      StandsAtSplit(line, p, "\"", Text(ps) + "\"");
      OpenQuotation(line, p, w);
      ReadDouble(line, p + 1, ps, w);
    case Single(ps) =>
      Associated("'", Text(ps), "'");
      StandsAtSplit(line, p, "'", Text(ps) + "'");
      OpenQuotation(line, p, w);
      ReadSingle(line, p + 1, ps, w);
  }

  lemma QuotationEnds(line: string, e: nat, q: Quotation)
    requires e <= |line| && q != NoQuotation && EndsArgument(line, e, q)
    ensures EndsToken(line, e)
  {
    BlankIsSpace(At(line, e));
  }

  lemma Associated(a: string, b: string, c: string)
    ensures a + b + c == a + (b + c)
  {
  }

  lemma EndWord(line: string, e: nat, w: string) returns (end: nat)
    requires e <= |line| && EndsArgument(line, e, NoQuotation)
    ensures Token(line, e, Bare, w) == Some((w, end))
    ensures end == e || (end == e + 1 && e < |line| && Blank(line[e]))
  {
    end := if At(line, e) == NUL then e else e + 1;
  }

  lemma OpenQuotation(line: string, p: nat, w: string)
    requires p <= |line|
    ensures StandsAt(line, p, "\"") ==> Token(line, p, Bare, w) == Token(line, p + 1, Quoted, w)
    ensures StandsAt(line, p, "'") ==> Token(line, p, Bare, w) == Token(line, p + 1, SingleQuoted, w)
  {
    if StandsAt(line, p, "\"") { StandsAtChar(line, p, "\"", 0); }
    if StandsAt(line, p, "'") { StandsAtChar(line, p, "'", 0); }
  }

  lemma {:induction false} SkipGap(line: string, p: nat, gap: string)
    requires Blanks(gap) && StandsAt(line, p, gap)
    ensures Args(line, p) == Args(line, p + |gap|)
    decreases |gap|
  {
    hide Args;
    if gap != [] {
      assert gap == [gap[0]] + gap[1..];
      StandsAtSplit(line, p, [gap[0]], gap[1..]);
      StandsAtChar(line, p, [gap[0]], 0);
      BlankIsSpace(line[p]);
      SkipOneBlank(line, p);
      SkipGap(line, p + 1, gap[1..]);
    }
  }

  lemma ArgsStep(line: string, p: nat, token: string, end: nat)
    requires p <= |line| && At(line, p) != NUL && !IsSpace(At(line, p)) && Token(line, p, Bare, []) == Some((token, end))
    ensures end <= |line| && Args(line, p) == Collected([token], Args(line, end))
  {
    hide Token;
  }

  lemma FirstOfArgument(a: Argument)
    requires IsArgument(a)
    ensures ArgumentText(a)[0] != NUL && !IsSpace(ArgumentText(a)[0])
  {
    BlankIsSpace(ArgumentText(a)[0]);
    if a.word != [] { assert ArgumentText(a)[0] == a.word[0]; }
  }

  lemma {:induction false} ReadSpaced(line: string, p: nat, parts: seq<Spaced>)
    requires IsSpaced(parts) && StandsAt(line, p, SpacedText(parts)) && At(line, p + |SpacedText(parts)|) == NUL
    ensures Args(line, p) == Some(SpacedValues(parts))
    decreases |parts|
  {
    hide Args, IsArgument, ArgumentText, ArgumentValue, Token, IsSpaced, EndsArgument;
    if parts == [] {
      NoMoreArgs(line, p);
    } else {
      SpacedStep(parts);
      var a, gap, rest := parts[0].argument, parts[0].gap, SpacedText(parts[1..]);
      var t := ArgumentText(a);
      StandsAtSplit(line, p, t, gap + rest);
      StandsAtSplit(line, p + |t|, gap, rest);
      GapEnds(line, p + |t|, parts);
      ReadFirst(line, p, a);
      SkipGap(line, p + |t|, gap);
      ReadSpaced(line, p + |t| + |gap|, parts[1..]);
    }
  }

  lemma SpacedStep(parts: seq<Spaced>)
    requires parts != [] && IsSpaced(parts)
    ensures IsArgument(parts[0].argument) && Blanks(parts[0].gap) && IsSpaced(parts[1..])
  {
  }

  lemma GapEnds(line: string, e: nat, parts: seq<Spaced>)
    requires parts != [] && IsSpaced(parts) && StandsAt(line, e, parts[0].gap) && StandsAt(line, e + |parts[0].gap|, SpacedText(parts[1..]))
    requires At(line, e + |parts[0].gap| + |SpacedText(parts[1..])|) == NUL
    ensures EndsArgument(line, e, parts[0].argument.quotation)
  {
    hide IsArgument;
    if parts[0].gap != [] { StandsAtChar(line, e, parts[0].gap, 0); }
  }

  lemma ReadFirst(line: string, p: nat, a: Argument)
    requires IsArgument(a) && StandsAt(line, p, ArgumentText(a)) && EndsArgument(line, p + |ArgumentText(a)|, a.quotation)
    ensures Args(line, p) == Collected([ArgumentValue(a)], Args(line, p + |ArgumentText(a)|))
  {
    hide Args, IsArgument, ArgumentText, ArgumentValue, Token;
    var t := ArgumentText(a);
    ArgumentNotEmpty(a);
    FirstOfArgument(a);
    StandsAtChar(line, p, t, 0);
    var end := ReadArgument(line, p, a);
    ArgsStep(line, p, ArgumentValue(a), end);
    if end == p + |t| + 1 {
      BlankIsSpace(line[p + |t|]);
      SkipOneBlank(line, p + |t|);
    }
  }

  lemma ArgumentNotEmpty(a: Argument)
    requires IsArgument(a)
    ensures ArgumentText(a) != []
  {
  }

  lemma NoMoreArgs(line: string, p: nat)
    requires p <= |line| && At(line, p) == NUL
    ensures Args(line, p) == Some([])
  {
  }

  // ---- every line that is split is one of the grammar ----

  lemma StandsAtJoin(line: string, p: nat, a: string, b: string)
    requires StandsAt(line, p, a) && StandsAt(line, p + |a|, b)
    ensures StandsAt(line, p, a + b)
  {
    assert line[p..p + |a + b|] == line[p..p + |a|] + line[p + |a|..p + |a| + |b|];
  }

  // A piece in front of pieces already found.
  lemma DoubleCons(line: string, p: nat, x: Piece, rest: seq<Piece>)
    requires StandsAt(line, p, PieceText(x)) && StandsAt(line, p + |PieceText(x)|, Text(rest) + "\"") && InDouble(rest)
    requires match x
             case Plain(c) => c != NUL && c != '"' && c != '\\'
             case Escaped(c) => c != NUL && (c == 'x' ==> !IsHexEscape(line, p))
             case Hex(byte, high, low) => Spells(high, byte as int / 16) && Spells(low, byte as int % 16)
    ensures InDouble([x] + rest) && StandsAt(line, p, Text([x] + rest) + "\"")
    ensures Text([x] + rest) == PieceText(x) + Text(rest) && Value([x] + rest) == [PieceValue(x)] + Value(rest)
  {
    hide StandsAt;
    assert ([x] + rest)[1..] == rest;
    assert Text([x] + rest) + "\"" == PieceText(x) + (Text(rest) + "\"");
    StandsAtJoin(line, p, PieceText(x), Text(rest) + "\"");
    if x == Escaped('x') && TwoDigits(Text(rest)) { SeenDigits(line, p, Text(rest)); }
  }

  lemma SeenDigits(line: string, p: nat, rest: string)
    requires StandsAt(line, p, "\\x") && StandsAt(line, p + 2, rest + "\"") && TwoDigits(rest)
    ensures IsHexEscape(line, p)
  {
    StandsAtChar(line, p, "\\x", 0);
    StandsAtChar(line, p, "\\x", 1);
    StandsAtChar(line, p + 2, rest + "\"", 0);
    StandsAtChar(line, p + 2, rest + "\"", 1);
    DigitsAreSpelled(rest[0]);
    DigitsAreSpelled(rest[1]);
  }

  // The piece read next, between double quotes.
  lemma NextDouble(line: string, p: nat, current: string) returns (x: Piece)
    requires p < |line| && line[p] != '"' && Token(line, p, Quoted, current).Some?
    ensures StandsAt(line, p, PieceText(x))
    ensures Token(line, p, Quoted, current) == Token(line, p + |PieceText(x)|, Quoted, current + [PieceValue(x)])
    ensures match x
            case Plain(c) => c != NUL && c != '"' && c != '\\'
            case Escaped(c) => c != NUL && (c == 'x' ==> !IsHexEscape(line, p))
            case Hex(byte, high, low) => Spells(high, byte as int / 16) && Spells(low, byte as int % 16)
  {
    if IsHexEscape(line, p) {
      x := Hex(HexEscape(line, p), line[p + 2], line[p + 3]);
      DigitsAreSpelled(line[p + 2]);
      DigitsAreSpelled(line[p + 3]);
    } else if line[p] == '\\' && At(line, p + 1) != NUL {
      x := Escaped(line[p + 1]);
      EscapesAgree(line[p + 1]);
    } else {
      x := Plain(line[p]);
    }
  }

  lemma {:induction false} DoubleOf(line: string, p: nat, current: string) returns (ps: seq<Piece>)
    requires p <= |line| && Token(line, p, Quoted, current).Some?
    ensures InDouble(ps) && StandsAt(line, p, Text(ps) + "\"") && EndsToken(line, p + |Text(ps)| + 1)
    ensures Token(line, p, Quoted, current) == Some((current + Value(ps), p + |Text(ps)| + 1))
    decreases |line| - p
  {
    hide InDouble, IsHexEscape, Token, EndsToken, StandsAt, Text, PieceText;
    if At(line, p) == '"' {
      ps := [];
      ClosesHere(line, p, current);
      NothingQuoted(line, p, current, "\"");
    } else {
      QuotationIsOpen(line, p, current);
      var x := NextDouble(line, p, current);
      var rest := DoubleOf(line, p + |PieceText(x)|, current + [PieceValue(x)]);
      ps := [x] + rest;
      DoubleCons(line, p, x, rest);
      assert current + [PieceValue(x)] + Value(rest) == current + Value(ps);
    }
  }

  lemma ClosesHere(line: string, p: nat, current: string)
    requires p <= |line|
    ensures At(line, p) == '"' && Token(line, p, Quoted, current).Some? ==>
        p < |line| && EndsToken(line, p + 1) && Token(line, p, Quoted, current) == Some((current, p + 1))
    ensures At(line, p) == '\'' && Token(line, p, SingleQuoted, current).Some? ==>
        p < |line| && EndsToken(line, p + 1) && Token(line, p, SingleQuoted, current) == Some((current, p + 1))
  {
  }

  lemma QuotationIsOpen(line: string, p: nat, current: string)
    requires p <= |line| && (Token(line, p, Quoted, current).Some? || Token(line, p, SingleQuoted, current).Some?)
    ensures p < |line|
  {
  }

  lemma NothingQuoted(line: string, p: nat, current: string, quote: string)
    requires p < |line| && quote == [line[p]]
    ensures InDouble([]) && InSingle([]) && Text([]) == [] && Value([]) == []
    ensures StandsAt(line, p, Text([]) + quote) && current + Value([]) == current
  {
  }

  lemma NextSingle(line: string, p: nat, current: string) returns (x: Piece)
    requires p < |line| && line[p] != '\'' && Token(line, p, SingleQuoted, current).Some?
    ensures StandsAt(line, p, PieceText(x))
    ensures Token(line, p, SingleQuoted, current) == Token(line, p + |PieceText(x)|, SingleQuoted, current + [PieceValue(x)])
    ensures match x
            case Plain(c) => c != NUL && c != '\'' && (c == '\\' ==> At(line, p + 1) != '\'')
            case Escaped(c) => c == '\''
            case Hex(_, _, _) => false
  {
    x := if line[p] == '\\' && At(line, p + 1) == '\'' then Escaped('\'') else Plain(line[p]);
  }

  lemma SingleCons(line: string, p: nat, x: Piece, rest: seq<Piece>)
    requires StandsAt(line, p, PieceText(x)) && StandsAt(line, p + |PieceText(x)|, Text(rest) + "'") && InSingle(rest)
    requires match x
             case Plain(c) => c != NUL && c != '\'' && (c == '\\' ==> At(line, p + 1) != '\'')
             case Escaped(c) => c == '\''
             case Hex(_, _, _) => false
    ensures InSingle([x] + rest) && StandsAt(line, p, Text([x] + rest) + "'")
    ensures Text([x] + rest) == PieceText(x) + Text(rest) && Value([x] + rest) == [PieceValue(x)] + Value(rest)
  {
    assert ([x] + rest)[1..] == rest;
    assert Text([x] + rest) + "'" == PieceText(x) + (Text(rest) + "'");
    StandsAtJoin(line, p, PieceText(x), Text(rest) + "'");
    StandsAtChar(line, p + |PieceText(x)|, Text(rest) + "'", 0);
  }

  lemma {:induction false} SingleOf(line: string, p: nat, current: string) returns (ps: seq<Piece>)
    requires p <= |line| && Token(line, p, SingleQuoted, current).Some?
    ensures InSingle(ps) && StandsAt(line, p, Text(ps) + "'") && EndsToken(line, p + |Text(ps)| + 1)
    ensures Token(line, p, SingleQuoted, current) == Some((current + Value(ps), p + |Text(ps)| + 1))
    decreases |line| - p
  {
    hide InSingle, Token, EndsToken, StandsAt, Text, PieceText;
    if At(line, p) == '\'' {
      ps := [];
      ClosesHere(line, p, current);
      NothingQuoted(line, p, current, "'");
    } else {
      QuotationIsOpen(line, p, current);
      var x := NextSingle(line, p, current);
      var rest := SingleOf(line, p + |PieceText(x)|, current + [PieceValue(x)]);
      ps := [x] + rest;
      SingleCons(line, p, x, rest);
      assert current + [PieceValue(x)] + Value(rest) == current + Value(ps);
    }
  }

  /** The argument a is read at p, behind the part `current` of its word, and reading goes on at end. */
  ghost predicate ReadsAs(line: string, p: nat, current: string, a: Argument, end: nat)
    requires p <= |line|
  {
    var e := p + |ArgumentText(a)|;
    && IsWord(a.word) && IsQuotation(a.quotation) && StandsAt(line, p, ArgumentText(a))
    && Token(line, p, Bare, current) == Some((current + ArgumentValue(a), end))
    && EndsArgument(line, e, a.quotation)
    && (if a.quotation == NoQuotation && At(line, e) != NUL then end == e + 1 else end == e)
  }

  // An argument that is read, from where its word begins or goes on.
  lemma {:induction false} ArgumentOf(line: string, p: nat, current: string) returns (a: Argument, end: nat)
    requires p <= |line| && Token(line, p, Bare, current).Some?
    ensures ReadsAs(line, p, current, a, end)
    decreases |line| - p
  {
    hide Token, ReadsAs;
    var c := At(line, p);
    BareStep(line, p, current);
    if c == NUL || EndsWord(c) {
      a, end := Argument([], NoQuotation), if c == NUL then p else p + 1;
      EmptyWordOf(line, p, current);
    } else if c == '"' {
      a, end := QuotedOf(line, p, current);
    } else if c == '\'' {
      a, end := QuotedOf(line, p, current);
    } else {
      var b;
      b, end := ArgumentOf(line, p + 1, current + [c]);
      a := Argument([c] + b.word, b.quotation);
      LongerWord(line, p, b, current, end);
    }
  }

  lemma EmptyWordOf(line: string, p: nat, current: string)
    requires p <= |line| && (At(line, p) == NUL || EndsWord(At(line, p)))
    ensures ReadsAs(line, p, current, Argument([], NoQuotation), if At(line, p) == NUL then p else p + 1)
  {
    NoWord(line, p, current);
    BareStep(line, p, current);
    hide Token;
  }

  lemma QuotedOf(line: string, p: nat, current: string) returns (a: Argument, end: nat)
    requires p < |line| && Token(line, p, Bare, current).Some? && (line[p] == '"' || line[p] == '\'')
    ensures ReadsAs(line, p, current, a, end)
  {
    hide Token, InDouble, InSingle, Text, Value, StandsAt;
    BareStep(line, p, current);
    var ps;
    if line[p] == '"' {
      ps := DoubleOf(line, p + 1, current);
      a := Argument([], Double(ps));
      assert "\"" + Text(ps) + "\"" == "\"" + (Text(ps) + "\"");
      QuotedAt(line, p, "\"", Text(ps) + "\"", current, Value(ps));
    } else {
      ps := SingleOf(line, p + 1, current);
      a := Argument([], Single(ps));
      assert "'" + Text(ps) + "'" == "'" + (Text(ps) + "'");
      QuotedAt(line, p, "'", Text(ps) + "'", current, Value(ps));
    }
    end := p + |Text(ps)| + 2;
    BlankIsSpace(At(line, end));
  }

  lemma BareStep(line: string, p: nat, current: string)
    requires p <= |line|
    ensures var c := At(line, p);
            && (c != NUL ==> p < |line|)
            && Token(line, p, Bare, current) == if c == NUL then Some((current, p))
                                                else if EndsWord(c) then Some((current, p + 1))
                                                else if c == '"' then Token(line, p + 1, Quoted, current)
                                                else if c == '\'' then Token(line, p + 1, SingleQuoted, current)
                                                else Token(line, p + 1, Bare, current + [c])
  {
  }

  lemma NoWord(line: string, p: nat, current: string)
    requires p <= |line|
    ensures var a := Argument([], NoQuotation);
            ArgumentText(a) == [] && StandsAt(line, p, []) && current + ArgumentValue(a) == current
  {
  }

  lemma QuotedAt(line: string, p: nat, quote: string, t: string, current: string, v: string)
    requires p < |line| && quote == [line[p]] && StandsAt(line, p + 1, t)
    ensures StandsAt(line, p, [] + (quote + t)) && quote + t[..] == quote + t
    ensures current + v == current + ([] + v)
  {
    assert [] + (quote + t) == quote + t && [] + v == v;
    StandsAtJoin(line, p, quote, t);
  }

  lemma LongerWord(line: string, p: nat, b: Argument, current: string, end: nat)
    requires p < |line| && InWord(line[p]) && ReadsAs(line, p + 1, current + [line[p]], b, end)
    requires Token(line, p, Bare, current) == Token(line, p + 1, Bare, current + [line[p]])
    ensures ReadsAs(line, p, current, Argument([line[p]] + b.word, b.quotation), end)
  {
    hide Token, QuotationText, IsQuotation;
    var a := Argument([line[p]] + b.word, b.quotation);
    assert ArgumentText(a) == [line[p]] + ArgumentText(b);
    StandsAtJoin(line, p, [line[p]], ArgumentText(b));
    assert ArgumentValue(a) == [line[p]] + ArgumentValue(b);
    assert current + [line[p]] + ArgumentValue(b) == current + ArgumentValue(a);
  }

  lemma ArgsOnlyIf(line: string, p: nat)
    requires p <= |line| && Args(line, p).Some?
    ensures var q := SkipBlanks(line, p);
            if At(line, q) == NUL then Args(line, p) == Some([])
            else Token(line, q, Bare, []).Some? && var (token, end) := Token(line, q, Bare, []).value;
                 Args(line, end).Some? && Args(line, p) == Some([token] + Args(line, end).value)
  {
    hide Token, SkipBlanks;
  }

  lemma {:induction false} BlanksSkipped(line: string, p: nat)
    requires p <= |line|
    ensures Blanks(line[p..SkipBlanks(line, p)])
    ensures Blank(At(line, p)) ==> SkipBlanks(line, p) > p
    ensures At(line, p) == NUL ==> SkipBlanks(line, p) == p
    decreases |line| - p
  {
    BlankIsSpace(At(line, p));
    if IsSpace(At(line, p)) {
      BlanksSkipped(line, p + 1);
      assert line[p..SkipBlanks(line, p)] == [line[p]] + line[p + 1..SkipBlanks(line, p)];
    }
  }

  // A line that is split, from p on.
  lemma {:induction false} LineOf(line: string, p: nat) returns (lead: string, parts: seq<Spaced>)
    requires p <= |line| && Args(line, p).Some?
    ensures Blanks(lead) && IsSpaced(parts) && StandsAt(line, p, lead + SpacedText(parts))
    ensures At(line, p + |lead + SpacedText(parts)|) == NUL && Args(line, p) == Some(SpacedValues(parts))
    ensures Blank(At(line, p)) ==> lead != []
    ensures At(line, p) == NUL ==> lead == [] && parts == []
    decreases |line| - p
  {
    hide Args, Token, SkipBlanks, StandsAt, IsArgument, ArgumentText, ArgumentValue, SpacedText, ReadsAs;
    var q := SkipBlanks(line, p);
    lead, parts := line[p..q], [];
    BlanksSkipped(line, p);
    ArgsOnlyIf(line, p);
    if At(line, q) == NUL {
      OnlyBlanks(line, p, q);
    } else {
      var a, end := ArgumentOf(line, q, []);
      FirstIsArgument(line, q, a, end);
      ArgumentNotEmpty(a);
      TokenRead(line, q, a, end);
      var more, rest := LineOf(line, end);
      var gap := line[q + |ArgumentText(a)|..end] + more;
      parts := [Spaced(a, gap)] + rest;
      LineGrows(line, p, q, a, end, more, rest);
    }
  }

  lemma OnlyBlanks(line: string, p: nat, q: nat)
    requires p <= q <= |line| && At(line, q) == NUL
    ensures StandsAt(line, p, line[p..q] + SpacedText([])) && |line[p..q] + SpacedText([])| == q - p
  {
    assert line[p..q] + [] == line[p..q];
  }

  // What was read as an argument is one.
  lemma FirstIsArgument(line: string, q: nat, a: Argument, end: nat)
    requires q < |line| && line[q] != NUL && !IsSpace(line[q])
    requires ReadsAs(line, q, [], a, end)
    ensures IsArgument(a)
  {
    hide Token;
    BlankIsSpace(line[q]);
    if ArgumentText(a) != [] { StandsAtChar(line, q, ArgumentText(a), 0); }
  }

  lemma TokenRead(line: string, q: nat, a: Argument, end: nat)
    requires q <= |line| && ReadsAs(line, q, [], a, end)
    ensures Token(line, q, Bare, []) == Some((ArgumentValue(a), end)) && q + |ArgumentText(a)| <= end <= |line|
  {
    hide Token, ArgumentText, ArgumentValue, IsWord, IsQuotation;
    assert [] + ArgumentValue(a) == ArgumentValue(a);
  }

  lemma LineGrows(line: string, p: nat, q: nat, a: Argument, end: nat, more: string, rest: seq<Spaced>)
    requires p <= q <= |line| && ReadsAs(line, q, [], a, end) && IsArgument(a) && q + |ArgumentText(a)| <= end <= |line|
    requires Blanks(more) && IsSpaced(rest) && StandsAt(line, end, more + SpacedText(rest))
    requires Blank(At(line, end)) ==> more != []
    requires At(line, end) == NUL ==> more == [] && rest == []
    ensures var gap := line[q + |ArgumentText(a)|..end] + more;
            var parts := [Spaced(a, gap)] + rest;
            && IsSpaced(parts) && StandsAt(line, p, line[p..q] + SpacedText(parts))
            && p + |line[p..q] + SpacedText(parts)| == end + |more + SpacedText(rest)|
            && SpacedValues(parts) == [ArgumentValue(a)] + SpacedValues(rest)
  {
    hide IsArgument, ArgumentText, ArgumentValue, ReadsAs;
    var e := q + |ArgumentText(a)|;
    var gap := line[e..end] + more;
    var parts := [Spaced(a, gap)] + rest;
    assert parts[1..] == rest;
    assert SpacedText(parts) == ArgumentText(a) + (gap + SpacedText(rest));
    GapRead(line, q, a, end, more, rest);
    PartsJoin(line, p, q, ArgumentText(a), end, more, SpacedText(rest));
  }

  lemma GapRead(line: string, q: nat, a: Argument, end: nat, more: string, rest: seq<Spaced>)
    requires q <= |line| && ReadsAs(line, q, [], a, end) && q + |ArgumentText(a)| <= end <= |line| && Blanks(more)
    requires Blank(At(line, end)) ==> more != []
    requires At(line, end) == NUL ==> more == [] && rest == []
    ensures var gap := line[q + |ArgumentText(a)|..end] + more;
            && Blanks(gap) && (rest != [] ==> gap != [])
            && (a.quotation == NoQuotation && gap != [] ==> EndsWord(gap[0]))
    ensures StandsAt(line, q, ArgumentText(a))
  {
    hide Token, ArgumentText, ArgumentValue, IsWord, IsQuotation;
    var e := q + |ArgumentText(a)|;
    if end == e { assert line[e..end] == []; } else { assert line[e..end] == [line[e]]; }
  }

  lemma PartsJoin(line: string, p: nat, q: nat, t: string, end: nat, more: string, rest: string)
    requires p <= q && q + |t| <= end <= |line| && StandsAt(line, q, t) && StandsAt(line, end, more + rest)
    ensures var whole := line[p..q] + (t + (line[q + |t|..end] + more + rest));
            StandsAt(line, p, whole) && p + |whole| == end + |more + rest|
  {
    var first := line[q + |t|..end];
    assert first + more + rest == first + (more + rest);
    StandsAtJoin(line, q + |t|, first, more + rest);
    StandsAtJoin(line, q, t, first + (more + rest));
    StandsAtJoin(line, p, line[p..q], t + (first + (more + rest)));
  }

  // ---- splitting is the grammar ----

  lemma LineIsNulFree(line: string, n: nat, text: string)
    requires StandsAt(line, 0, text) && n == |text| && At(line, n) == NUL && NulFree(text)
    ensures CStr(line) == text
  {
    assert text == line[..n];
    CStrStops(line, n);
  }

  lemma {:induction false} DoubleNulFree(ps: seq<Piece>)
    requires InDouble(ps)
    ensures NulFree(Text(ps))
  {
    if ps != [] {
      DoubleStep(ps);
      DoubleNulFree(ps[1..]);
      if ps[0].Hex? {
        DigitsAreSpelled(ps[0].high);
        DigitsAreSpelled(ps[0].low);
      }
    }
  }

  lemma {:induction false} SingleNulFree(ps: seq<Piece>)
    requires InSingle(ps)
    ensures NulFree(Text(ps))
  {
    if ps != [] {
      SingleStep(ps);
      SingleNulFree(ps[1..]);
    }
  }

  lemma ArgumentNulFree(a: Argument)
    requires IsArgument(a)
    ensures NulFree(ArgumentText(a))
  {
    hide InDouble, InSingle, Text;
    match a.quotation
    case NoQuotation =>
    case Double(ps) => DoubleNulFree(ps);
    case Single(ps) => SingleNulFree(ps);
  }

  lemma {:induction false} SpacedNulFree(parts: seq<Spaced>)
    requires IsSpaced(parts)
    ensures NulFree(SpacedText(parts))
  {
    hide IsArgument, ArgumentText;
    if parts != [] {
      ArgumentNulFree(parts[0].argument);
      SpacedNulFree(parts[1..]);
    }
  }

  lemma LineIsSplit(line: string, lead: string, parts: seq<Spaced>)
    requires IsLine(CStr(line), lead, parts)
    ensures SplitArgsOf(line) == Some(SpacedValues(parts))
  {
    hide Args, SpacedText, SpacedValues, IsSpaced, CStr;
    var n := |CStr(line)|;
    CStrEnds(line);
    StandsAtSplit(line, 0, lead, SpacedText(parts));
    SkipGap(line, 0, lead);
    ReadSpaced(line, |lead|, parts);
  }

  lemma CStrEnds(line: string)
    ensures StandsAt(line, 0, CStr(line)) && At(line, |CStr(line)|) == NUL
  {
  }

  /** A line is split into `args` exactly when, up to its first NUL, it is a line of the grammar that
      stands for them. */
  lemma SplitIsTheGrammar(line: string, args: seq<string>)
    ensures SplitArgsOf(line) == Some(args)
       <==> exists lead, parts :: IsLine(CStr(line), lead, parts) && SpacedValues(parts) == args
  {
    hide IsLine, SpacedValues, Args;
    if SplitArgsOf(line).Some? {
      var lead, parts := SplitIsALine(line);
    }
    forall lead, parts | IsLine(CStr(line), lead, parts) ensures SplitArgsOf(line) == Some(SpacedValues(parts)) {
      LineIsSplit(line, lead, parts);
    }
  }

  lemma SplitIsALine(line: string) returns (lead: string, parts: seq<Spaced>)
    requires SplitArgsOf(line).Some?
    ensures IsLine(CStr(line), lead, parts) && SplitArgsOf(line) == Some(SpacedValues(parts))
  {
    hide Args, SpacedText, SpacedValues, IsSpaced, CStr;
    lead, parts := LineOf(line, 0);
    SpacedNulFree(parts);
    LineIsNulFree(line, |lead + SpacedText(parts)|, lead + SpacedText(parts));
  }

  /** What is not split: the lines with a quotation that is not closed, or closed in front of something
      other than a blank, which are those no parts make up. */
  lemma UnbalancedLines(line: string)
    ensures SplitArgsOf(line) == None <==> forall lead, parts :: !IsLine(CStr(line), lead, parts)
  {
    hide IsLine, SpacedValues, Args;
    if SplitArgsOf(line).Some? {
      var lead, parts := SplitIsALine(line);
      assert IsLine(CStr(line), lead, parts);
    }
    forall lead, parts | IsLine(CStr(line), lead, parts) ensures SplitArgsOf(line).Some? {
      LineIsSplit(line, lead, parts);
    }
  }

  // ---- words and single quotes ----

  /** Words, each with what stands behind it. */
  function Woven(words: seq<string>, gaps: seq<string>): string
    requires |words| == |gaps|
  {
    if words == [] then [] else words[0] + (gaps[0] + Woven(words[1..], gaps[1..]))
  }

  ghost predicate PlainWord(w: string)
  {
    w != [] && forall i :: 0 <= i < |w| ==> w[i] != NUL && !Blank(w[i]) && w[i] != '"' && w[i] != '\''
  }

  ghost predicate WordGap(g: string)
  {
    forall i :: 0 <= i < |g| ==> EndsWord(g[i])
  }

  function WordParts(words: seq<string>, gaps: seq<string>): seq<Spaced>
    requires |words| == |gaps|
  {
    if words == [] then [] else [Spaced(Argument(words[0], NoQuotation), gaps[0])] + WordParts(words[1..], gaps[1..])
  }

  lemma {:induction false} WordsAreParts(words: seq<string>, gaps: seq<string>)
    requires |words| == |gaps|
    requires forall i :: 0 <= i < |words| ==> PlainWord(words[i]) && WordGap(gaps[i]) && (i + 1 < |words| ==> gaps[i] != [])
    ensures var parts := WordParts(words, gaps);
            && IsSpaced(parts) && SpacedText(parts) == Woven(words, gaps) && SpacedValues(parts) == words
            && |parts| == |words| && NulFree(Woven(words, gaps))
    decreases |words|
  {
    if words != [] {
      var parts := WordParts(words, gaps);
      WordsAreParts(words[1..], gaps[1..]);
      assert parts[1..] == WordParts(words[1..], gaps[1..]);
      assert ArgumentText(parts[0].argument) == words[0];
    }
  }

  /** Words with runs of blanks between and around them are the arguments. */
  lemma WordsAreSplit(lead: string, words: seq<string>, gaps: seq<string>)
    requires |words| == |gaps| && WordGap(lead)
    requires forall i :: 0 <= i < |words| ==> PlainWord(words[i]) && WordGap(gaps[i]) && (i + 1 < |words| ==> gaps[i] != [])
    ensures SplitArgsOf(lead + Woven(words, gaps)) == Some(words)
  {
    hide SplitArgsOf, PlainWord, Woven, WordParts, IsSpaced, SpacedText, SpacedValues;
    var line := lead + Woven(words, gaps);
    WordsAreParts(words, gaps);
    CStrOfNulFree(line);
    LineIsSplit(line, lead, WordParts(words, gaps));
  }

  ghost predicate SingleText(t: string)
  {
    forall i :: 0 <= i < |t| ==> t[i] != NUL && t[i] != '\''
  }

  function PlainPieces(t: string): (ps: seq<Piece>)
    ensures |ps| == |t|
  {
    if t == [] then [] else [Plain(t[0])] + PlainPieces(t[1..])
  }

  lemma {:induction false} PlainPiecesAre(t: string)
    requires SingleText(t) && (t == [] || t[|t| - 1] != '\\')
    ensures InSingle(PlainPieces(t)) && Text(PlainPieces(t)) == t && Value(PlainPieces(t)) == t
    decreases |t|
  {
    if t != [] {
      PlainPiecesAre(t[1..]);
      assert PlainPieces(t)[1..] == PlainPieces(t[1..]);
    }
  }

  // A backslash in front of the only quote left escapes it.
  lemma {:induction false} NotClosed(line: string, p: nat, current: string)
    requires p + 2 <= |line| && line[|line| - 2] == '\\' && line[|line| - 1] == '\''
    requires forall i :: p <= i < |line| - 1 ==> line[i] != NUL && line[i] != '\''
    ensures Token(line, p, SingleQuoted, current) == None
    decreases |line| - p
  {
    if p + 2 < |line| { NotClosed(line, p + 1, current + [line[p]]); }
  }

  /** A text without a single quote, put between two of them, is one argument, unless it ends with a
      backslash: then the line is not split. */
  lemma SingleQuotesTakeAnything(t: string)
    requires SingleText(t)
    ensures SplitArgsOf("'" + t + "'") == if t != [] && t[|t| - 1] == '\\' then None else Some([t])
  {
    hide SplitArgsOf, SingleText;
    if t != [] && t[|t| - 1] == '\\' {
      OpenSingle(t);
    } else {
      ClosedSingle(t);
    }
  }

  lemma OpenSingle(t: string)
    requires SingleText(t) && t != [] && t[|t| - 1] == '\\'
    ensures SplitArgsOf("'" + t + "'") == None
  {
    hide Args, Token;
    var line := "'" + t + "'";
    BareStep(line, 0, []);
    NotClosed(line, 1, []);
    NoArgs(line);
  }

  lemma ClosedSingle(t: string)
    requires SingleText(t) && (t == [] || t[|t| - 1] != '\\')
    ensures SplitArgsOf("'" + t + "'") == Some([t])
  {
    hide SplitArgsOf, InSingle, Text, Value;
    var a := Argument([], Single(PlainPieces(t)));
    PlainPiecesAre(t);
    assert ArgumentText(a) == "'" + t + "'" && ArgumentText(a)[0] == '\'';
    assert ArgumentValue(a) == t;
    CStrOfNulFree(ArgumentText(a));
    OneArgument(ArgumentText(a), a);
  }

  lemma NoArgs(line: string)
    requires line != [] && line[0] == '\'' && Token(line, 0, Bare, []) == None
    ensures Args(line, 0) == None
  {
    hide Token;
  }

  lemma OneArgument(line: string, a: Argument)
    requires IsArgument(a) && line == ArgumentText(a) && CStr(line) == line
    ensures SplitArgsOf(line) == Some([ArgumentValue(a)])
  {
    hide IsArgument, ArgumentText, ArgumentValue, SplitArgsOf;
    var parts := [Spaced(a, [])];
    assert parts[1..] == [] && IsSpaced([]) && SpacedText([]) == [] && SpacedValues([]) == [];
    assert SpacedText(parts) == line + ([] + SpacedText(parts[1..])) == line;
    assert [] + line == line;
    assert [ArgumentValue(a)] + [] == [ArgumentValue(a)];
    LineIsSplit(line, [], parts);
  }

  // ---- the quoted form ----

  ghost predicate Printable(t: string)
  {
    forall i :: 0 <= i < |t| ==> 32 <= t[i] as int <= 126
  }

  /** A printable piece that stands for c between double quotes. */
  ghost predicate StandsFor(x: Piece, c: char)
  {
    InDouble([x]) && PieceValue(x) == c && Printable(PieceText(x))
  }

  lemma OnePiece(x: Piece)
    ensures InDouble([x]) <==> match x
                               case Plain(c) => c != NUL && c != '"' && c != '\\'
                               case Escaped(c) => c != NUL
                               case Hex(byte, high, low) => Spells(high, byte as int / 16) && Spells(low, byte as int % 16)
  {
    assert [x][1..] == [];
  }

  /** A byte is quoted as a shortest printable piece that stands for it, in lower case. */
  lemma QuotedFormIsShortest(c: char)
    requires IsByte(c)
    ensures exists x :: StandsFor(x, c) && PieceText(x) == ReprChar(c)
    ensures forall x :: StandsFor(x, c) ==> |ReprChar(c)| <= |PieceText(x)|
    ensures |ReprChar(c)| == 4 ==> ReprChar(c)[2] == LOWER_DIGITS[c as int / 16] && ReprChar(c)[3] == LOWER_DIGITS[c as int % 16]
  {
    hide InDouble, Spells;
    var x := QuotedPiece(c);
    assert StandsFor(x, c) && PieceText(x) == ReprChar(c);
    forall y | StandsFor(y, c) ensures |ReprChar(c)| <= |PieceText(y)| { OnePiece(y); ShorterPieces(c, y); }
    DigitCodes(c as int / 16);
    DigitCodes(c as int % 16);
  }

  lemma QuotedPiece(c: char) returns (x: Piece)
    requires IsByte(c)
    ensures StandsFor(x, c) && PieceText(x) == ReprChar(c)
  {
    hide InDouble, Spells;
    var t := ReprChar(c);
    x := if |t| == 1 then Plain(c) else if |t| == 2 then Escaped(t[1]) else Hex(c, t[2], t[3]);
    OnePiece(x);
    if |t| == 4 {
      DigitsAreSpelled(t[2]);
      DigitsAreSpelled(t[3]);
    }
  }

  lemma ShorterPieces(c: char, y: Piece)
    requires IsByte(c) && PieceValue(y) == c && Printable(PieceText(y))
    requires match y
             case Plain(d) => d != NUL && d != '"' && d != '\\'
             case Escaped(d) => d != NUL
             case Hex(_, _, _) => true
    ensures |ReprChar(c)| <= |PieceText(y)|
  {
    hide HexDigit;
    if y.Escaped? { assert PieceText(y)[1] == y.c; } else if y.Plain? { assert PieceText(y)[0] == y.c; }
  }
}
