/** Quoting and splitting of argument lines: `sdscatrepr` and `sdssplitargs` of src/common/sds.c.

    The character classes are those of the C locale.
 */
module SdsArgs {
  import opened CStrings

  const BELL: char := '\U{07}'
  const BACKSPACE: char := '\U{08}'
  const VERTICAL_TAB: char := '\U{0B}'
  const FORM_FEED: char := '\U{0C}'

  predicate IsSpace(c: char)
  {
    c == ' ' || c == '\t' || c == '\n' || c == VERTICAL_TAB || c == FORM_FEED || c == '\r'
  }

  predicate IsPrint(c: char)
  {
    ' ' <= c <= '~'
  }

  predicate IsHexDigit(c: char)
  {
    '0' <= c <= '9' || 'a' <= c <= 'f' || 'A' <= c <= 'F'
  }

  function HexDigitToInt(c: char): (d: nat)
    ensures d < 16
  {
    if '0' <= c <= '9' then c as int - '0' as int
    else if 'a' <= c <= 'f' then c as int - 'a' as int + 10
    else if 'A' <= c <= 'F' then c as int - 'A' as int + 10
    else 0
  }

  const LOWER_DIGITS: string := "0123456789abcdef"
  const UPPER_DIGITS: string := "0123456789ABCDEF"

  /** A character that spells a digit, in either case. */
  predicate Spells(c: char, d: nat)
  {
    d < 16 && (c == LOWER_DIGITS[d] || c == UPPER_DIGITS[d])
  }

  lemma DigitCodes(d: nat)
    requires d < 16
    ensures LOWER_DIGITS[d] as int == (if d < 10 then 48 + d else 87 + d)
    ensures UPPER_DIGITS[d] as int == (if d < 10 then 48 + d else 55 + d)
  {
  }

  /** A character is a digit exactly when it spells one, and that is how it is read. */
  lemma DigitsAreSpelled(c: char)
    ensures forall d :: Spells(c, d) <==> IsHexDigit(c) && HexDigitToInt(c) == d
  {
    forall d: nat ensures Spells(c, d) <==> IsHexDigit(c) && HexDigitToInt(c) == d {
      DigitIsSpelled(c, d);
    }
  }

  lemma DigitIsSpelled(c: char, d: nat)
    ensures Spells(c, d) <==> IsHexDigit(c) && HexDigitToInt(c) == d
  {
    if d < 16 { DigitCodes(d); }
  }

  /** The digit "%x" prints. */
  function HexDigit(d: nat): (c: char)
    requires d < 16
    ensures IsHexDigit(c) && HexDigitToInt(c) == d && c != '"' && IsPrint(c)
  {
    if d < 10 then ('0' as int + d) as char else ('a' as int + d - 10) as char
  }

  // ---- quoting ----

  predicate IsByte(c: char)
  {
    c as int < 256
  }

  ghost predicate Bytes(s: string)
  {
    forall i :: 0 <= i < |s| ==> IsByte(s[i])
  }

  function ReprChar(c: char): string
    requires IsByte(c)
  {
    if c == '\\' || c == '"' then ['\\', c]
    else if c == '\n' then "\\n"
    else if c == '\r' then "\\r"
    else if c == '\t' then "\\t"
    else if c == BELL then "\\a"
    else if c == BACKSPACE then "\\b"
    else if IsPrint(c) then [c]
    else ['\\', 'x', HexDigit(c as int / 16), HexDigit(c as int % 16)]
  }

  function ReprBody(s: string): string
    requires Bytes(s)
  {
    if s == [] then [] else ReprChar(s[0]) + ReprBody(s[1..])
  }

  /** The quoted form of a byte string. */
  function Repr(s: string): string
    requires Bytes(s)
  {
    "\"" + ReprBody(s) + "\""
  }

  lemma {:induction false} ReprBodySnoc(s: string, c: char)
    requires Bytes(s) && IsByte(c)
    ensures ReprBody(s + [c]) == ReprBody(s) + ReprChar(c)
  {
    if s == [] {
      assert [c][1..] == [] && s + [c] == [c];
    } else {
      ReprBodySnoc(s[1..], c);
      assert (s + [c])[1..] == s[1..] + [c];
    }
  }

  // The switch of sdscatrepr.
  method CatReprChar(s: string, c: char) returns (r: string)
    requires IsByte(c)
    ensures r == s + ReprChar(c)
  {
    match c {
      case '\\' => r := s + ['\\', c];
      case '"' => r := s + ['\\', c];
      case '\n' => r := s + "\\n";
      case '\r' => r := s + "\\r";
      case '\t' => r := s + "\\t";
      case _ =>
        if c == BELL {
          r := s + "\\a";
        } else if c == BACKSPACE {
          r := s + "\\b";
        } else if IsPrint(c) {
          r := s + [c];
        } else {
          r := s + ['\\', 'x', HexDigit(c as int / 16), HexDigit(c as int % 16)];
        }
    }
  }

  lemma ReprEnds(s: string, p: string)
    requires Bytes(p)
    ensures s + "\"" == s + "\"" + ReprBody(p[..0])
    ensures s + "\"" + ReprBody(p[..|p|]) + "\"" == s + Repr(p)
  {
    assert p[..|p|] == p && s + "\"" + [] == s + "\"";
    assert s + "\"" + ReprBody(p) + "\"" == s + ("\"" + ReprBody(p) + "\"");
  }

  lemma ReprGrows(s: string, p: string, i: nat)
    requires Bytes(p) && i < |p|
    ensures s + "\"" + ReprBody(p[..i]) + ReprChar(p[i]) == s + "\"" + ReprBody(p[..i + 1])
  {
    hide ReprBody, ReprChar;
    assert p[..i + 1] == p[..i] + [p[i]];
    ReprBodySnoc(p[..i], p[i]);
    assert s + "\"" + ReprBody(p[..i]) + ReprChar(p[i]) == s + "\"" + (ReprBody(p[..i]) + ReprChar(p[i]));
  }

  method CatRepr(s: string, p: string) returns (r: string)
    requires Bytes(p)
    ensures r == s + Repr(p)
  {
    hide ReprBody, ReprChar, Repr;
    ReprEnds(s, p);
    r := s + "\"";
    var i := 0;
    while i < |p|
      invariant i <= |p| && r == s + "\"" + ReprBody(p[..i])
    {
      ReprGrows(s, p, i);
      r := CatReprChar(r, p[i]);
      i := i + 1;
    }
    r := r + "\"";
  }

  // ---- splitting ----

  datatype Mode = Bare | Quoted | SingleQuoted

  function Unescape(c: char): char
  {
    match c
    case 'n' => '\n'
    case 'r' => '\r'
    case 't' => '\t'
    case 'b' => BACKSPACE
    case 'a' => BELL
    case _ => c
  }

  // Where a quoted token may end: in front of a blank, or where the line ends.
  predicate EndsToken(line: string, p: nat)
    requires p <= |line|
  {
    At(line, p) == NUL || IsSpace(At(line, p))
  }

  predicate IsHexEscape(line: string, p: nat)
    requires p <= |line|
  {
    At(line, p) == '\\' && At(line, p + 1) == 'x' && IsHexDigit(At(line, p + 2)) && IsHexDigit(At(line, p + 3))
  }

  function HexEscape(line: string, p: nat): (c: char)
    requires p + 3 < |line|
    ensures IsByte(c)
  {
    (HexDigitToInt(line[p + 2]) * 16 + HexDigitToInt(line[p + 3])) as char
  }

  /** The token read from p on, and where reading stops; None on unbalanced quotes. */
  function Token(line: string, p: nat, mode: Mode, current: string): (r: Option<(string, nat)>)
    requires p <= |line|
    ensures r.Some? ==> p <= r.value.1 <= |line| && (At(line, p) != NUL ==> p < r.value.1)
    decreases |line| - p
  {
    var c := At(line, p);
    match mode
    case Quoted =>
      if IsHexEscape(line, p) then Token(line, p + 4, Quoted, current + [HexEscape(line, p)])
      else if c == '\\' && At(line, p + 1) != NUL then Token(line, p + 2, Quoted, current + [Unescape(line[p + 1])])
      else if c == '"' then (if EndsToken(line, p + 1) then Some((current, p + 1)) else None)
      else if c == NUL then None
      else Token(line, p + 1, Quoted, current + [c])
    case SingleQuoted =>
      if c == '\\' && At(line, p + 1) == '\'' then Token(line, p + 2, SingleQuoted, current + "'")
      else if c == '\'' then (if EndsToken(line, p + 1) then Some((current, p + 1)) else None)
      else if c == NUL then None
      else Token(line, p + 1, SingleQuoted, current + [c])
    case Bare =>
      if c == NUL then Some((current, p))
      else if c == ' ' || c == '\n' || c == '\r' || c == '\t' then Some((current, p + 1))
      else if c == '"' then Token(line, p + 1, Quoted, current)
      else if c == '\'' then Token(line, p + 1, SingleQuoted, current)
      else Token(line, p + 1, Bare, current + [c])
  }

  function SkipBlanks(line: string, p: nat): (q: nat)
    requires p <= |line|
    ensures p <= q <= |line| && !IsSpace(At(line, q))
    decreases |line| - p
  {
    if IsSpace(At(line, p)) then SkipBlanks(line, p + 1) else p
  }

  /** The arguments of a line from p on. */
  function Args(line: string, p: nat): Option<seq<string>>
    requires p <= |line|
    decreases |line| - p
  {
    var q := SkipBlanks(line, p);
    if At(line, q) == NUL then Some([]) else
    match Token(line, q, Bare, [])
    case None => None
    case Some((token, end)) =>
      Collected([token], Args(line, end))
  }

  function SplitArgsOf(line: string): Option<seq<string>>
  {
    Args(line, 0)
  }

  // The arguments collected so far, followed by those of the rest of the line.
  function Collected(vector: seq<string>, rest: Option<seq<string>>): Option<seq<string>>
  {
    match rest
    case None => None
    case Some(r) => Some(vector + r)
  }

  lemma CollectedStep(vector: seq<string>, token: string, rest: Option<seq<string>>)
    ensures Collected([], rest) == rest && Collected(vector, Some([])) == Some(vector)
    ensures Collected(vector, Collected([token], rest)) == Collected(vector + [token], rest)
  {
    assert vector + [] == vector;
    if rest.Some? {
      assert [] + rest.value == rest.value;
      assert vector + ([token] + rest.value) == vector + [token] + rest.value;
    }
  }

  method SplitArgs(line: string) returns (vector: Option<seq<string>>)
    ensures vector == SplitArgsOf(line)
  {
    var p, argv := 0, [];
    CollectedStep([], [], Args(line, 0));
    while true
      invariant p <= |line| && SplitArgsOf(line) == Collected(argv, Args(line, p))
      decreases |line| - p
    {
      ghost var before := p;
      while At(line, p) != NUL && IsSpace(At(line, p))
        invariant before <= p <= |line| && SkipBlanks(line, p) == SkipBlanks(line, before)
        decreases |line| - p
      {
        p := p + 1;
      }
      CollectedStep(argv, [], None);
      if At(line, p) == NUL {
        return Some(argv);
      }
      var current;
      var ok;
      ok, p, current := ReadToken(line, p);
      if !ok {
        return None;
      }
      CollectedStep(argv, current, Args(line, p));
      argv := argv + [current];
    }
  }

  function ModeOf(inq: bool, insq: bool): Mode
  {
    if inq then Quoted else if insq then SingleQuoted else Bare
  }

  // The inner loop: get a token.
  method ReadToken(line: string, start: nat) returns (ok: bool, p: nat, current: string)
    requires start <= |line|
    ensures p <= |line| && Token(line, start, Bare, []) == if ok then Some((current, p)) else None
  {
    var inq, insq, done := false, false, false;
    p, current := start, [];
    while !done
      invariant p <= |line| && !(inq && insq)
      invariant Token(line, start, Bare, []) == if done then Some((current, p)) else Token(line, p, ModeOf(inq, insq), current)
      decreases !done, |line| - p
    {
      if inq {
        if IsHexEscape(line, p) {
          current := current + [HexEscape(line, p)];
          p := p + 3;
        } else if At(line, p) == '\\' && At(line, p + 1) != NUL {
          p := p + 1;
          current := current + [Unescape(line[p])];
        } else if At(line, p) == '"' {
          if At(line, p + 1) != NUL && !IsSpace(At(line, p + 1)) {
            return false, p, current;
          }
          done := true;
        } else if At(line, p) == NUL {
          return false, p, current;
        } else {
          current := current + [line[p]];
        }
      } else if insq {
        if At(line, p) == '\\' && At(line, p + 1) == '\'' {
          p := p + 1;
          current := current + "'";
        } else if At(line, p) == '\'' {
          if At(line, p + 1) != NUL && !IsSpace(At(line, p + 1)) {
            return false, p, current;
          }
          done := true;
        } else if At(line, p) == NUL {
          return false, p, current;
        } else {
          current := current + [line[p]];
        }
      } else {
        match At(line, p)
        case ' ' => done := true;
        case '\n' => done := true;
        case '\r' => done := true;
        case '\t' => done := true;
        case '"' => inq := true;
        case '\'' => insq := true;
        case _ =>
          if At(line, p) == NUL {
            done := true;
          } else {
            current := current + [line[p]];
          }
      }
      if At(line, p) != NUL {
        p := p + 1;
      }
    }
    ok := true;
  }

  // ---- splitting undoes quoting ----

  // One quoted character is read back as the byte it stands for.
  lemma TokenOfReprChar(line: string, p: nat, c: char, current: string)
    requires IsByte(c) && StandsAt(line, p, ReprChar(c))
    ensures Token(line, p, Quoted, current) == Token(line, p + |ReprChar(c)|, Quoted, current + [c])
  {
    var e := ReprChar(c);
    forall i | 0 <= i < |e| ensures line[p + i] == e[i] { StandsAtChar(line, p, e, i); }
    assert line[p] == line[p + 0] == e[0];
    if |e| == 4 {
      assert HexEscape(line, p) == c;
    }
  }

  lemma ClosingQuote(line: string, p: nat, current: string)
    requires StandsAt(line, p, [] + "\"") && EndsToken(line, p + 1)
    ensures Token(line, p, Quoted, current) == Some((current, p + 1))
  {
    assert [] + "\"" == "\"";
    StandsAtChar(line, p, "\"", 0);
  }

  lemma {:induction false} TokenOfReprBody(line: string, p: nat, s: string, current: string)
    requires Bytes(s) && StandsAt(line, p, ReprBody(s) + "\"") && EndsToken(line, p + |ReprBody(s)| + 1)
    ensures Token(line, p, Quoted, current) == Some((current + s, p + |ReprBody(s)| + 1))
    decreases |s|
  {
    hide Token, ReprChar, EndsToken;
    if s == [] {
      ClosingQuote(line, p, current);
      assert current + s == current;
    } else {
      var e, rest := ReprChar(s[0]), ReprBody(s[1..]);
      assert ReprBody(s) + "\"" == e + (rest + "\"");
      StandsAtSplit(line, p, e, rest + "\"");
      TokenOfReprChar(line, p, s[0], current);
      TokenOfReprBody(line, p + |e|, s[1..], current + [s[0]]);
      assert current + [s[0]] + s[1..] == current + s;
    }
  }

  function JoinReprs(args: seq<string>): string
    requires forall i :: 0 <= i < |args| ==> Bytes(args[i])
  {
    if args == [] then [] else if |args| == 1 then Repr(args[0]) else Repr(args[0]) + (" " + JoinReprs(args[1..]))
  }

  lemma TokenOfRepr(line: string, p: nat, s: string)
    requires Bytes(s) && StandsAt(line, p, Repr(s)) && EndsToken(line, p + |Repr(s)|)
    ensures Token(line, p, Bare, []) == Some((s, p + |Repr(s)|)) && At(line, p) == '"'
  {
    assert Repr(s) == "\"" + (ReprBody(s) + "\"");
    StandsAtSplit(line, p, "\"", ReprBody(s) + "\"");
    StandsAtChar(line, p, "\"", 0);
    TokenOfReprBody(line, p + 1, s, []);
    assert [] + s == s;
  }

  lemma {:induction false} ArgsOfReprs(line: string, p: nat, args: seq<string>)
    requires forall i :: 0 <= i < |args| ==> Bytes(args[i])
    requires StandsAt(line, p, JoinReprs(args)) && p + |JoinReprs(args)| == |line|
    ensures Args(line, p) == Some(args)
    decreases |args|
  {
    hide Repr, Token, Args, JoinReprs;
    if args == [] {
      ArgsAtEnd(line, args);
    } else if |args| == 1 {
      JoinOne(args);
      ArgsOfRepr(line, p, args[0]);
      ArgsAtEnd(line, []);
      assert args == [args[0]] + [];
    } else {
      var r := Repr(args[0]);
      JoinMore(args);
      StandsAtSplit(line, p, r, " " + JoinReprs(args[1..]));
      StandsAtSplit(line, p + |r|, " ", JoinReprs(args[1..]));
      StandsAtChar(line, p + |r|, " ", 0);
      ArgsOfRepr(line, p, args[0]);
      ArgsOfReprs(line, p + |r| + 1, args[1..]);
      SkipOneBlank(line, p + |r|);
      assert [args[0]] + args[1..] == args;
    }
  }

  lemma ArgsAtEnd(line: string, args: seq<string>)
    requires args == []
    ensures Args(line, |line|) == Some(args) && JoinReprs(args) == []
  {
  }

  lemma JoinOne(args: seq<string>)
    requires |args| == 1 && Bytes(args[0])
    ensures JoinReprs(args) == Repr(args[0])
  {
  }

  lemma JoinMore(args: seq<string>)
    requires |args| > 1 && forall i :: 0 <= i < |args| ==> Bytes(args[i])
    ensures JoinReprs(args) == Repr(args[0]) + (" " + JoinReprs(args[1..]))
  {
  }

  lemma ArgsOfRepr(line: string, p: nat, s: string)
    requires Bytes(s) && StandsAt(line, p, Repr(s)) && EndsToken(line, p + |Repr(s)|)
    ensures Args(line, p) == Collected([s], Args(line, p + |Repr(s)|))
  {
    TokenOfRepr(line, p, s);
  }

  lemma SkipOneBlank(line: string, p: nat)
    requires p < |line| && IsSpace(line[p])
    ensures Args(line, p) == Args(line, p + 1)
  {
    assert SkipBlanks(line, p) == SkipBlanks(line, p + 1);
  }

  /** Splitting the space-joined quoted forms of any byte strings returns those strings. */
  lemma SplitUndoesRepr(args: seq<string>)
    requires forall i :: 0 <= i < |args| ==> Bytes(args[i])
    ensures SplitArgsOf(JoinReprs(args)) == Some(args)
  {
    assert JoinReprs(args)[0..|JoinReprs(args)|] == JoinReprs(args);
    ArgsOfReprs(JoinReprs(args), 0, args);
  }

  // Quoted text is printable: it holds no NUL and no line end.
  lemma {:induction false} ReprIsPrintable(s: string)
    requires Bytes(s)
    ensures forall i :: 0 <= i < |ReprBody(s)| ==> IsPrint(ReprBody(s)[i])
  {
    if s != [] {
      ReprIsPrintable(s[1..]);
    }
  }

  lemma {:induction false} ReprsArePrintable(args: seq<string>)
    requires forall i :: 0 <= i < |args| ==> Bytes(args[i])
    ensures forall i :: 0 <= i < |JoinReprs(args)| ==> IsPrint(JoinReprs(args)[i])
  {
    if args != [] {
      ReprIsPrintable(args[0]);
      ReprsArePrintable(args[1..]);
    }
  }
}
