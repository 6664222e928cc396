/** The texts the JSON parser of src/common/cJSON.c accepts, as a grammar: how a text may be written,
    what it stands for, and the proof that the parser reads exactly those texts, as exactly that.
 */
module JsonGrammar {
  import opened CStrings
  import opened Decimal
  import SdsArgs
  import opened JsonStrings
  import opened JsonPrint
  import opened JsonParse

  // ---- hexadecimal code units ----

  /** Four digits, each of either case, that spell a code unit. */
  predicate SpellsUnit(digits: string, u: bv32)
  {
    && |digits| == 4 && u < 0x10000
    && SdsArgs.Spells(digits[0], (u >> 12) as nat) && SdsArgs.Spells(digits[1], ((u >> 8) & 15) as nat)
    && SdsArgs.Spells(digits[2], ((u >> 4) & 15) as nat) && SdsArgs.Spells(digits[3], (u & 15) as nat)
  }

  lemma NibbleIs(x: bv32)
    requires x < 16
    ensures x as nat < 16 && Nibble(x as nat) == x
  {
  }

  lemma UnitOfDigits(u: bv32)
    requires u < 0x10000
    ensures u >> 12 < 16 && (u >> 8) & 15 < 16 && (u >> 4) & 15 < 16 && u & 15 < 16
    ensures FromDigits(u >> 12, (u >> 8) & 15, (u >> 4) & 15, u & 15) == u
  {
  }

  lemma DigitsOfUnit(a: bv32, b: bv32, c: bv32, d: bv32)
    requires a < 16 && b < 16 && c < 16 && d < 16
    ensures var u := FromDigits(a, b, c, d);
            u >> 12 == a && (u >> 8) & 15 == b && (u >> 4) & 15 == c && u & 15 == d
  {
  }

  lemma DigitBitsAre(c: char, x: bv32)
    requires x < 16
    ensures SdsArgs.Spells(c, x as nat) <==> SdsArgs.IsHexDigit(c) && HexBits(c) == x
  {
    hide SdsArgs.Spells, Nibble;
    SdsArgs.DigitsAreSpelled(c);
    NibbleIs(x);
    if SdsArgs.IsHexDigit(c) { NibbleTells(SdsArgs.HexDigitToInt(c), x); }
  }

  lemma NibbleTells(n: nat, x: bv32)
    requires n < 16 && x < 16
    ensures Nibble(n) == x <==> n == x as nat
  {
    NibbleIs(x);
  }

  /** The digits at p are read as the unit they spell, and nothing else is. */
  lemma UnitIsRead(t: string, p: nat, u: bv32)
    requires p + 4 <= |t|
    ensures SpellsUnit(t[p..p + 4], u) <==> IsHex4(t, p) && Hex4(t, p) == u
  {
    hide SdsArgs.Spells, HexBits, FromDigits, SdsArgs.IsHexDigit;
    var w := t[p..p + 4];
    assert w[0] == t[p] && w[1] == t[p + 1] && w[2] == t[p + 2] && w[3] == t[p + 3];
    if u < 0x10000 {
      UnitOfDigits(u);
      DigitBitsAre(w[0], u >> 12);
      DigitBitsAre(w[1], (u >> 8) & 15);
      DigitBitsAre(w[2], (u >> 4) & 15);
      DigitBitsAre(w[3], u & 15);
    }
    if IsHex4(t, p) {
      DigitsOfUnit(HexBits(t[p]), HexBits(t[p + 1]), HexBits(t[p + 2]), HexBits(t[p + 3]));
    }
  }

  // ---- literals ----

  /** One piece of a literal: a character for itself, one behind a backslash, a code unit, or a code
      unit from the high surrogates with another one behind it. */
  datatype Piece =
    | Plain(c: char)
    | Escape(c: char)
    | Code(u: bv32, digits: string)
    | Pair(high: bv32, digits: string, low: bv32, others: string)

  function PieceText(p: Piece): string
  {
    match p
    case Plain(c) => [c]
    case Escape(c) => ['\\', c]
    case Code(_, digits) => "\\u" + digits
    case Pair(_, digits, _, others) => "\\u" + digits + "\\u" + others
  }

  predicate IsHighUnit(u: bv32)
  {
    0xD800 <= u <= 0xDBFF
  }

  predicate IsLowUnit(u: bv32)
  {
    0xDC00 <= u <= 0xDFFF
  }

  /** The control characters behind a backslash, by their codes in ASCII. */
  function EscapeValue(c: char): char
  {
    match c
    case 'b' => 8 as char
    case 't' => 9 as char
    case 'n' => 10 as char
    case 'f' => 12 as char
    case 'r' => 13 as char
    case _ => c
  }

  /** The bytes a piece stands for. NUL and surrogates that are not a pair stand for none. */
  function PieceValue(p: Piece): string
  {
    match p
    case Plain(c) => [c]
    case Escape(c) => [EscapeValue(c)]
    case Code(u, _) => if u == 0 || !IsScalar(u) then [] else Utf8(u)
    case Pair(high, _, low, _) =>
      if IsHighUnit(high) && IsLowUnit(low) then Utf8(0x10000 + (high - 0xD800) * 0x400 + (low - 0xDC00)) else []
  }

  function Text(ps: seq<Piece>): string
  {
    if ps == [] then [] else PieceText(ps[0]) + Text(ps[1..])
  }

  function Bytes(ps: seq<Piece>): string
  {
    if ps == [] then [] else PieceValue(ps[0]) + Bytes(ps[1..])
  }

  /** A piece in front of some text. A high surrogate is alone only if no code unit follows. */
  ghost predicate IsPiece(p: Piece, next: string)
  {
    match p
    case Plain(c) => c != '"' && c != '\\'
    case Escape(c) => c != 'u'
    case Code(u, digits) => SpellsUnit(digits, u) && (IsHighUnit(u) ==> !("\\u" <= next))
    case Pair(high, digits, low, others) => SpellsUnit(digits, high) && IsHighUnit(high) && SpellsUnit(others, low)
  }

  ghost predicate InLiteral(ps: seq<Piece>)
  {
    ps == [] || (IsPiece(ps[0], Text(ps[1..])) && InLiteral(ps[1..]))
  }

  lemma SurrogatesAre(u: bv32)
    ensures IsHigh(u) <==> IsHighUnit(u)
    ensures IsLow(u) <==> IsLowUnit(u)
    ensures u < 0x10000 ==> (IsScalar(u) <==> !IsHighUnit(u) && !IsLowUnit(u))
  {
  }

  lemma PairIs(high: bv32, low: bv32)
    requires IsHighUnit(high) && IsLowUnit(low)
    ensures IsHigh(high) && IsLow(low) && Combined(high, low) == 0x10000 + (high - 0xD800) * 0x400 + (low - 0xDC00)
    ensures IsScalar(0x10000 + (high - 0xD800) * 0x400 + (low - 0xDC00))
  {
  }

  lemma EscapeIs(c: char, t: string)
    requires c != 'u'
    ensures UnitAt(['\\', c] + t) == Unit([EscapeValue(c)], 2)
  {
    assert (['\\', c] + t)[1] == c;
  }

  lemma CodeIs(u: bv32, digits: string, next: string)
    requires SpellsUnit(digits, u) && (IsHighUnit(u) ==> !("\\u" <= next))
    ensures UnitAt("\\u" + digits + next) == Unit(PieceValue(Code(u, digits)), 6)
  {
    hide SpellsUnit, Hex4, IsHex4, Utf8, IsHigh, IsLow, IsHighUnit, IsLowUnit, IsScalar;
    var t := "\\u" + digits + next;
    UnitLength(digits, u);
    assert t[2..6] == digits && t[0] == '\\' && t[1] == 'u';
    UnitIsRead(t, 2, u);
    SurrogatesAre(u);
    UnitSmall(digits, u);
    if |t| >= 8 && t[6] == '\\' && t[7] == 'u' { assert next[0] == t[6] && next[1] == t[7]; }
  }

  lemma UnitLength(digits: string, u: bv32)
    requires SpellsUnit(digits, u)
    ensures |digits| == 4
  {
  }

  lemma UnitSmall(digits: string, u: bv32)
    requires SpellsUnit(digits, u)
    ensures u < 0x10000
  {
  }

  lemma PairUnitIs(high: bv32, digits: string, low: bv32, others: string, next: string)
    requires SpellsUnit(digits, high) && IsHighUnit(high) && SpellsUnit(others, low)
    ensures UnitAt("\\u" + digits + "\\u" + others + next) == Unit(PieceValue(Pair(high, digits, low, others)), 12)
  {
    hide SpellsUnit, Hex4, IsHex4, Utf8, IsHigh, IsLow, IsHighUnit, IsLowUnit, IsScalar, Combined;
    var t := "\\u" + digits + "\\u" + others + next;
    UnitLength(digits, high);
    UnitLength(others, low);
    assert t[2..6] == digits && t[8..12] == others && t[0] == '\\' && t[1] == 'u' && t[6] == '\\' && t[7] == 'u';
    UnitIsRead(t, 2, high);
    UnitIsRead(t, 8, low);
    SurrogatesAre(high);
    SurrogatesAre(low);
    HighIsNotZero(high);
    if IsLowUnit(low) { PairIs(high, low); }
  }

  lemma HighIsNotZero(high: bv32)
    requires IsHighUnit(high)
    ensures high != 0 && !IsLowUnit(high)
  {
  }

  /** A piece is read as its bytes. */
  lemma PieceIsRead(p: Piece, next: string)
    requires IsPiece(p, next)
    ensures PieceText(p) != [] && PieceText(p)[0] != '"'
    ensures UnitAt(PieceText(p) + next) == Unit(PieceValue(p), |PieceText(p)|)
  {
    hide UnitAt, PieceValue, SpellsUnit, IsHighUnit;
    match p
    case Plain(c) => PlainIs(c, next);
    case Escape(c) => EscapeIs(c, next);
      EscapeValueIs(c);
    case Code(u, digits) => CodeIs(u, digits, next);
      UnitLength(digits, u);
    case Pair(high, digits, low, others) =>
      PairUnitIs(high, digits, low, others, next);
      UnitLength(digits, high);
      UnitLength(others, low);
  }

  lemma PlainIs(c: char, t: string)
    requires c != '"' && c != '\\'
    ensures UnitAt([c] + t) == Unit(PieceValue(Plain(c)), 1)
  {
  }

  lemma EscapeValueIs(c: char)
    ensures PieceValue(Escape(c)) == [EscapeValue(c)]
  {
  }

  /** A unit that is read is a piece, and stands for its bytes. */
  lemma ReadIsPiece(t: string) returns (p: Piece)
    requires t != [] && t[0] != '"' && UnitAt(t).Unit?
    ensures IsPiece(p, t[UnitAt(t).size..]) && PieceText(p) == t[..UnitAt(t).size] && PieceValue(p) == UnitAt(t).bytes
  {
    hide UnitAt, UnicodeUnit, PieceValue;
    UnitKinds(t);
    if t[0] != '\\' {
      p := Plain(t[0]);
      assert t == [t[0]] + t[1..];
      PlainIs(t[0], t[1..]);
    } else if t[1] != 'u' {
      p := Escape(t[1]);
      assert t == ['\\', t[1]] + t[2..];
      EscapeIs(t[1], t[2..]);
      EscapeValueIs(t[1]);
    } else {
      p := ReadIsCode(t);
    }
  }

  lemma UnitKinds(t: string)
    requires t != [] && UnitAt(t).Unit?
    ensures t[0] == '\\' ==> |t| >= 2
    ensures t[0] == '\\' && t[1] == 'u' ==> UnitAt(t) == UnicodeUnit(t)
  {
  }

  lemma ReadIsCode(t: string) returns (p: Piece)
    requires |t| >= 2 && t[0] == '\\' && t[1] == 'u' && UnicodeUnit(t).Unit? && UnitAt(t) == UnicodeUnit(t)
    ensures IsPiece(p, t[UnitAt(t).size..]) && PieceText(p) == t[..UnitAt(t).size] && PieceValue(p) == UnitAt(t).bytes
  {
    hide SpellsUnit, Hex4, IsHex4, Utf8, IsHigh, IsLow, IsHighUnit, IsLowUnit, IsScalar, Combined, PieceValue, UnitAt;
    var u, digits := Hex4(t, 2), t[2..6];
    UnitIsRead(t, 2, u);
    SurrogatesAre(u);
    if IsHighUnit(u) && "\\u" <= t[6..] {
      assert t[6] == t[6..][0] && t[7] == t[6..][1] && |t| >= 8;
      HighIsNotZero(u);
      var low, others := Hex4(t, 8), t[8..12];
      UnitIsRead(t, 8, low);
      p := Pair(u, digits, low, others);
      assert t == "\\u" + digits + "\\u" + others + t[12..];
      PairUnitIs(u, digits, low, others, t[12..]);
    } else {
      p := Code(u, digits);
      assert t == "\\u" + digits + t[6..];
      CodeIs(u, digits, t[6..]);
    }
  }

  /** What may stand behind the pieces of a literal: its closing quote, or the end of the text. */
  predicate Closes(close: string)
  {
    close == [] || close[0] == '"'
  }

  function Behind(close: string): string
  {
    if close == [] then [] else close[1..]
  }

  lemma PieceKept(p: Piece, next: string, close: string)
    requires IsPiece(p, next) && Closes(close)
    ensures IsPiece(p, next + close)
  {
    UnitStarts(next);
    UnitStarts(next + close);
  }

  lemma UnitStarts(t: string)
    ensures "\\u" <= t <==> |t| >= 2 && t[0] == '\\' && t[1] == 'u'
  {
  }

  lemma PieceHeld(p: Piece, next: string, close: string)
    requires IsPiece(p, next + close)
    ensures IsPiece(p, next)
  {
    UnitStarts(next);
    UnitStarts(next + close);
  }

  /** Pieces are read as their bytes, whether the literal is closed or the text ends. */
  lemma {:induction false} PiecesAreRead(ps: seq<Piece>, close: string)
    requires InLiteral(ps) && Closes(close)
    ensures Unescape(Text(ps) + close) == Some((Bytes(ps), Behind(close)))
    decreases |ps|
  {
    hide UnitAt, IsPiece, PieceText, PieceValue;
    if ps == [] {
      assert Text(ps) + close == close;
    } else {
      var next := Text(ps[1..]);
      PieceKept(ps[0], next, close);
      PieceIsRead(ps[0], next + close);
      PiecesAreRead(ps[1..], close);
      UnescapeStep(PieceText(ps[0]), PieceValue(ps[0]), next + close);
      assert Text(ps) + close == PieceText(ps[0]) + (next + close);
    }
  }

  lemma UnescapeStep(piece: string, bytes: string, t: string)
    requires piece != [] && piece[0] != '"' && UnitAt(piece + t) == Unit(bytes, |piece|)
    ensures Unescape(piece + t) == InFront(bytes, Unescape(t))
  {
    hide UnitAt;
    assert (piece + t)[|piece|..] == t;
  }

  /** What is read between quotes is a sequence of pieces, and its value is theirs. */
  lemma {:induction false} ReadIsPieces(t: string) returns (ps: seq<Piece>, close: string)
    requires Unescape(t).Some?
    ensures InLiteral(ps) && Closes(close) && t == Text(ps) + close && Unescape(t) == Some((Bytes(ps), Behind(close)))
    decreases |t|
  {
    hide UnitAt, IsPiece, PieceText, PieceValue;
    if t == [] || t[0] == '"' {
      ps, close := [], t;
      assert Text(ps) + t == t;
    } else {
      UnescapeUnit(t);
      var n := UnitAt(t).size;
      var p := ReadIsPiece(t);
      var rest;
      rest, close := ReadIsPieces(t[n..]);
      ps := [p] + rest;
      assert ps[1..] == rest;
      PieceHeld(p, Text(rest), close);
      assert t == PieceText(p) + t[n..];
      assert Text(ps) + close == PieceText(p) + (Text(rest) + close);
    }
  }

  lemma UnescapeUnit(t: string)
    requires t != [] && t[0] != '"' && Unescape(t).Some?
    ensures UnitAt(t).Unit? && Unescape(t[UnitAt(t).size..]).Some?
    ensures Unescape(t) == InFront(UnitAt(t).bytes, Unescape(t[UnitAt(t).size..]))
  {
    hide UnitAt;
  }

  /** A literal is read as v, in front of the rest, exactly if it is a quote, pieces that stand for v,
      and a closing quote or the end of the text. */
  lemma LiteralIsTheGrammar(t: string, v: string, rest: string)
    ensures ParseLiteral(t) == Parsed(v, rest)
       <==> exists ps, close :: InLiteral(ps) && Closes(close) && t == "\"" + (Text(ps) + close) && v == Bytes(ps) && rest == Behind(close)
  {
    hide InLiteral, Text, Bytes, Unescape;
    if ParseLiteral(t).Parsed? {
      var ps, close := ReadIsPieces(t[1..]);
      assert t == "\"" + t[1..];
    }
    forall ps, close | InLiteral(ps) && Closes(close) && t == "\"" + (Text(ps) + close)
      ensures ParseLiteral(t) == Parsed(Bytes(ps), Behind(close))
    {
      PiecesAreRead(ps, close);
      assert t[1..] == Text(ps) + close;
    }
  }

  // ---- printed literals ----

  /** A way to write c in a literal that section 7 of RFC 8259 allows. */
  ghost predicate Writes(p: Piece, c: char)
  {
    && IsPiece(p, []) && PieceValue(p) == [c]
    && match p
       case Plain(d) => d as int >= 32
       case Escape(d) => d in "\"\\/bfnrt"
       case _ => true
  }

  /** A character is printed in a shortest way, and in lower case. */
  lemma PrintedShortest(c: char)
    requires c != NUL
    ensures exists p :: Writes(p, c) && PieceText(p) == EscapeOf(c)
    ensures forall p :: Writes(p, c) ==> |EscapeOf(c)| <= |PieceText(p)|
    ensures |EscapeOf(c)| == 6 ==>
        c as int < 32 && EscapeOf(c) == "\\u00" + [SdsArgs.LOWER_DIGITS[c as int / 16], SdsArgs.LOWER_DIGITS[c as int % 16]]
  {
    hide Writes;
    var p := PrintedPiece(c);
    assert Writes(p, c) && PieceText(p) == EscapeOf(c);
    forall q | Writes(q, c) ensures |EscapeOf(c)| <= |PieceText(q)| { NoneShorter(q, c); }
    if |EscapeOf(c)| == 6 {
      SdsArgs.DigitCodes(c as int / 16);
      SdsArgs.DigitCodes(c as int % 16);
    }
  }

  lemma PrintedPiece(c: char) returns (p: Piece)
    requires c != NUL
    ensures Writes(p, c) && PieceText(p) == EscapeOf(c)
  {
    hide SpellsUnit, Utf8, IsScalar, IsHighUnit;
    var t := EscapeOf(c);
    if |t| == 1 {
      p := Plain(c);
    } else if |t| == 2 {
      p := Escape(t[1]);
    } else {
      var u := ControlUnit(c);
      p := Code(u, t[2..]);
      assert t == "\\u" + t[2..];
    }
  }

  lemma ControlUnit(c: char) returns (u: bv32)
    requires 0 < c as int < 32 && !HasShortEscape(c)
    ensures SpellsUnit(EscapeOf(c)[2..], u) && u != 0 && IsScalar(u) && Utf8(u) == [c] && !IsHighUnit(u)
  {
    hide SpellsUnit, Utf8, IsScalar, Octet, IsHex4, Hex4;
    var t := EscapeOf(c);
    ControlDigits(c, t);
    u := Hex4(t, 2);
    assert t[2..6] == t[2..];
    UnitIsRead(t, 2, u);
    SmallIsOneOctet(u);
    SurrogatesAre(u);
  }

  lemma NoneShorter(p: Piece, c: char)
    requires c != NUL && Writes(p, c)
    ensures |EscapeOf(c)| <= |PieceText(p)|
  {
    hide Utf8, SpellsUnit, IsScalar;
    match p
    case Plain(d) =>
    case Escape(d) =>
    case Code(u, digits) => UnitLength(digits, u);
    case Pair(high, digits, low, others) =>
      UnitLength(digits, high);
      UnitLength(others, low);
  }
}
