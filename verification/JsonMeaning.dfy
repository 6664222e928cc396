/** Minifying keeps the meaning of every text the parser accepts, not only of printed ones. */
module JsonMeaning {
  import opened CStrings
  import Decimal
  import opened JsonStrings
  import opened JsonPrint
  import opened JsonParse
  import opened JsonRoundTrip
  import opened JsonMinify

  // ---- what minifying drops ----

  /** The text without its tabs, line feeds, carriage returns and spaces, by their codes in ASCII. */
  function Undropped(t: string): string
  {
    if t == [] then [] else (if t[0] as int in {9, 10, 13, 32} then [] else [t[0]]) + Undropped(t[1..])
  }

  /** Outside literals and comments, minifying takes out exactly the four kinds of blank. */
  lemma {:induction false} MinifyFilters(t: string)
    requires '"' !in t && '/' !in t
    ensures Minified(t) == Some(Undropped(t))
  {
    if t != [] {
      MinifyFilters(t[1..]);
      assert [] + Undropped(t[1..]) == Undropped(t[1..]);
    }
  }

  /** A line comment goes, up to its line end. */
  lemma {:induction false} LineCommentGoes(c: string, t: string)
    requires '\n' !in c
    ensures Minified("//" + c + "\n" + t) == Minified(t)
  {
    var s := "//" + c + "\n" + t;
    assert s[1..] == ("/" + c) + ("\n" + t);
    LineEndOf("/" + c, t);
    assert ("\n" + t)[1..] == t;
  }

  lemma {:induction false} LineEndOf(c: string, t: string)
    requires '\n' !in c
    ensures LineEnd(c + ("\n" + t)) == "\n" + t
  {
    if c == [] {
      assert c + ("\n" + t) == "\n" + t;
    } else {
      LineEndOf(c[1..], t);
      assert (c + ("\n" + t))[1..] == c[1..] + ("\n" + t);
    }
  }

  /** The star that opens a block comment may already be the one that closes it. */
  predicate NotClosedIn(c: string)
  {
    forall i {:trigger c[i]} :: 0 <= i < |c| ==> !(c[i] == '/' && (i == 0 || c[i - 1] == '*'))
  }

  lemma {:induction false} BlockEndOf(c: string, t: string)
    requires forall i :: 0 < i < |c| ==> !(c[i] == '/' && c[i - 1] == '*')
    ensures BlockEnd(c + ("*/" + t)) == Some(t)
  {
    var s := c + ("*/" + t);
    if c == [] {
      assert s == "*/" + t && s[2..] == t;
    } else {
      BlockEndOf(c[1..], t);
      assert s[1..] == c[1..] + ("*/" + t);
      assert s[0] == c[0] && s[1] == if |c| > 1 then c[1] else '*';
    }
  }

  /** A block comment goes. */
  lemma BlockCommentGoes(c: string, t: string)
    requires NotClosedIn(c)
    ensures Minified("/*" + c + "*/" + t) == Minified(t)
  {
    var s := "/*" + c + "*/" + t;
    assert s == ("/*" + c) + ("*/" + t);
    forall i | 0 < i < |"/*" + c| ensures !(("/*" + c)[i] == '/' && ("/*" + c)[i - 1] == '*') {
      var j := i - 2;
      if j >= 0 {
        assert ("/*" + c)[i] == c[j] && (j > 0 ==> ("/*" + c)[i - 1] == c[j - 1]);
      }
    }
    BlockEndOf("/*" + c, t);
  }

  /** A comment that is not closed is one without a closing mark, and then the text is not minified. */
  lemma {:induction false} OpenBlockHasNoEnd(t: string)
    ensures BlockEnd(t) == None <==> forall i {:trigger t[i]} :: 0 <= i < |t| - 1 ==> !(t[i] == '*' && t[i + 1] == '/')
  {
    if t != [] {
      OpenBlockHasNoEnd(t[1..]);
      if forall i {:trigger t[i]} :: 0 <= i < |t| - 1 ==> !(t[i] == '*' && t[i + 1] == '/') {
        forall i | 0 <= i < |t[1..]| - 1 ensures !(t[1..][i] == '*' && t[1..][i + 1] == '/') {
          assert t[1..][i] == t[i + 1];
        }
      } else if |t| >= 2 && !(t[0] == '*' && t[1] == '/') {
        var i :| 0 <= i < |t| - 1 && t[i] == '*' && t[i + 1] == '/';
        assert t[1..][i - 1] == '*' && t[1..][i] == '/';
      }
    }
  }

  lemma OpenCommentIsRefused(w: string, c: string)
    requires (forall i :: 0 <= i < |w| ==> IsKept(w[i])) && BlockEnd("/*" + c) == None
    ensures Minified(w + ("/*" + c)) == None
  {
    hide IsKept;
    KeepsPlain(w, "/*" + c);
    assert ("/*" + c)[1] == '*';
  }

  // ---- blanks ----

  /** Minifying keeps some of the blanks the parser skips, and only blanks. */
  lemma {:induction false} GapCore(t: string) returns (b: string)
    ensures Blank(b) && Minified(t) == Kept(b, Minified(SkipBlanks(t)))
  {
    if t != [] && IsBlank(t[0]) {
      var rest := GapCore(t[1..]);
      var u := Minified(SkipBlanks(t[1..]));
      if IsDropped(t[0]) {
        b := rest;
      } else {
        b := [t[0]] + rest;
        KeptTwice([t[0]], rest, u);
      }
    } else {
      b := [];
      KeptTwice([], [], Minified(t));
    }
  }

  ghost predicate Ends(tail: string)
  {
    tail == [] || Closes(tail[0])
  }

  // ---- literals ----

  lemma {:induction false} CloseIsLiteralEnd(t: string)
    requires FirstPass(t).Some?
    ensures LiteralEnd(t) == if FirstPass(t).value.close < |t| then Some(FirstPass(t).value.close + 1) else None
    decreases |t|
  {
    hide FirstPass, LiteralEnd;
    LiteralStarts(t);
    if t != [] && t[0] != '"' {
      PassStep(t);
      CloseIsLiteralEnd(if t[0] == '\\' then t[2..] else t[1..]);
    }
  }

  lemma LiteralStarts(t: string)
    ensures t == [] ==> FirstPass(t) == Some(Pass(0, 0)) && LiteralEnd(t) == None
    ensures t != [] && t[0] == '"' ==> FirstPass(t) == Some(Pass(0, 0)) && LiteralEnd(t) == Some(1)
    ensures t != [] && t[0] != '"' && t[0] != '\\' ==> LiteralEnd(t) == Plus(1, LiteralEnd(t[1..]))
    ensures |t| >= 2 && t[0] == '\\' ==> LiteralEnd(t) == Plus(2, LiteralEnd(t[2..]))
  {
  }

  /** Not a literal, or one with a closing quote. */
  predicate Closed(t: string)
  {
    Starts(t, '"') ==> LiteralEnd(t[1..]).Some?
  }

  /** The parser takes a literal without a closing quote only at the very end. */
  lemma ClosedIfMore(t: string)
    requires ParseLiteral(t).Parsed?
    ensures FirstPass(t[1..]).Some?
    ensures Closed(t) <==> FirstPass(t[1..]).value.close < |t[1..]|
    ensures ParseLiteral(t).rest != [] ==> Closed(t)
  {
    CountBoundsWrites(t[1..]);
    CloseIsLiteralEnd(t[1..]);
  }

  /** The two texts agree up to and with position n. */
  ghost predicate Agree(t: string, v: string, n: nat)
  {
    n < |t| && n < |v| && forall i :: 0 <= i <= n ==> v[i] == t[i]
  }

  lemma AgreeTail(t: string, v: string, n: nat, k: nat)
    requires Agree(t, v, n) && k <= n
    ensures Agree(t[k..], v[k..], n - k)
  {
  }

  lemma UnicodeLocal(t: string, v: string, n: nat)
    requires |t| >= 2 && t[0] == '\\' && t[1] == 'u' && FirstPass(t) != None && FirstPass(t).value.close == n
    requires Agree(t, v, n) && UnitAt(t).Unit?
    ensures UnitAt(v) == UnitAt(t)
  {
    hide Utf8, FirstPass, Hex4;
    UnicodeCounts(t);
    SameHex4(t, v, n, 2);
    var uc := Hex4(t, 2);
    if IsHigh(uc) && |t| >= 8 && t[6] == '\\' && t[7] == 'u' {
      UnicodeCounts(t[6..]);
      SameHex4(t, v, n, 8);
    }
  }

  lemma SameHex4(t: string, v: string, n: nat, p: nat)
    requires Agree(t, v, n) && p + 4 <= n && IsHex4(t, p)
    ensures IsHex4(v, p) && Hex4(v, p) == Hex4(t, p)
  {
  }

  /** A closed literal is read the same whatever follows its closing quote. */
  lemma {:induction false} UnescapeLocal(t: string, v: string)
    requires Unescape(t).Some? && FirstPass(t).Some? && FirstPass(t).value.close < |t|
    requires Agree(t, v, FirstPass(t).value.close)
    ensures Unescape(v) == Some((Unescape(t).value.0, v[FirstPass(t).value.close + 1..]))
    decreases |t|
  {
    hide UnitAt, Weight, Agree, Unescape, FirstPass;
    var n := FirstPass(t).value.close;
    AgreeFirst(t, v, n);
    UnescapeTurns(t);
    UnescapeTurns(v);
    if t[0] == '"' {
      ClosesAtOnce(t);
    } else {
      UnitLocal(t, v, n);
      UnitCounts(t);
      var size := UnitAt(t).size;
      AgreeTail(t, v, n, size);
      UnescapeLocal(t[size..], v[size..]);
      assert v[size..][n - size + 1..] == v[n + 1..];
    }
  }

  lemma ClosesAtOnce(t: string)
    requires t != [] && t[0] == '"'
    ensures FirstPass(t) == Some(Pass(0, 0))
  {
  }

  lemma UnescapeTurns(t: string)
    requires t != []
    ensures t[0] == '"' ==> Unescape(t) == Some(([], t[1..]))
    ensures t[0] != '"' && UnitAt(t).Unit? ==> Unescape(t) == InFront(UnitAt(t).bytes, Unescape(t[UnitAt(t).size..]))
    ensures t[0] != '"' && Unescape(t).Some? ==> UnitAt(t).Unit?
  {
    hide UnitAt;
  }

  lemma AgreeFirst(t: string, v: string, n: nat)
    requires Agree(t, v, n)
    ensures t != [] && v != [] && v[0] == t[0] && n < |v|
  {
  }

  lemma UnitLocal(t: string, v: string, n: nat)
    requires t != [] && t[0] != '"' && FirstPass(t).Some? && FirstPass(t).value.close == n
    requires Agree(t, v, n) && UnitAt(t).Unit?
    ensures v != [] && UnitAt(v) == UnitAt(t)
  {
    if t[0] == '\\' {
      assert |t| >= 2 && n >= 2;
      if t[1] == 'u' { UnicodeLocal(t, v, n); }
    }
  }

  /** A literal that minifying keeps is parsed the same in front of any other text. */
  lemma LiteralCore(t: string, tail: string) returns (core: string)
    requires ParseLiteral(t).Parsed? && Closed(t)
    ensures core != [] && core[0] == '"'
    ensures Minified(t) == Kept(core, Minified(ParseLiteral(t).rest))
    ensures ParseLiteral(core + tail) == Parsed(ParseLiteral(t).value, tail)
  {
    hide Unescape, FirstPass, LiteralEnd, Agree;
    var n := LiteralEnd(t[1..]).value;
    core := t[..n + 1];
    ClosedIfMore(t);
    CloseIsLiteralEnd(t[1..]);
    CountBoundsWrites(t[1..]);
    assert t[1..][n..] == t[n + 1..];
    AgreeFront(t, n, tail);
    UnescapeLocal(t[1..], (core + tail)[1..]);
    assert (core + tail)[1..][n..] == tail;
  }

  lemma AgreeFront(t: string, n: nat, tail: string)
    requires 1 <= n < |t|
    ensures Agree(t[1..], (t[..n + 1] + tail)[1..], n - 1)
  {
  }

  // ---- numbers ----

  lemma DropBack(t: string, c: char)
    ensures t == If(Starts(t, c), [c]) + DropOne(t, c)
  {
  }

  lemma DigitsAreKept(ds: string)
    requires Decimal.AllDigits(ds)
    ensures forall i :: 0 <= i < |ds| ==> IsKept(ds[i])
  {
  }

  lemma KeepsThree(a: string, b: string, c: string, rest: string)
    requires forall i :: 0 <= i < |a| ==> IsKept(a[i])
    requires forall i :: 0 <= i < |b| ==> IsKept(b[i])
    requires forall i :: 0 <= i < |c| ==> IsKept(c[i])
    ensures Minified(a + (b + (c + rest))) == Kept(a + (b + c), Minified(rest))
  {
    hide Minified, Kept, IsKept;
    KeepsPlain(a, b + (c + rest));
    KeepsPlain(b, c + rest);
    KeepsPlain(c, rest);
    KeptTwice(b, c, Minified(rest));
    KeptTwice(a, b + c, Minified(rest));
  }

  /** A number is parsed the same in front of anything that ends it. */
  lemma NumberCore(t: string, tail: string) returns (core: string)
    requires ParseNumber(t).Parsed? && t != [] && (t[0] == '-' || Decimal.IsDigit(t[0])) && Ends(tail)
    ensures core != [] && core[0] == t[0]
    ensures Minified(t) == Kept(core, Minified(ParseNumber(t).rest))
    ensures ParseNumber(core + tail) == Parsed(ParseNumber(t).value, tail)
  {
    hide Minified, Kept, ParseNumber, NumberOf, DigitCount, Decimal.AllDigits;
    var negative, zero, digits := NumberParts(t);
    var c, rest := digits[..DigitCount(digits)], digits[DigitCount(digits)..];
    assert digits == c + rest;
    RestOfNumber(negative, digits);
    DigitsAreKept(c);
    KeepsThree(If(negative, "-"), If(zero, "0"), c, rest);
    core := If(negative, "-") + (If(zero, "0") + c);
    NumberLocal(negative, zero, digits, tail);
  }

  // The sign, the leading zero and the digits of a number.
  lemma NumberParts(t: string) returns (negative: bool, zero: bool, digits: string)
    requires ParseNumber(t).Parsed? && t != [] && (t[0] == '-' || Decimal.IsDigit(t[0]))
    ensures t == If(negative, "-") + (If(zero, "0") + digits) && NumberOf(negative, digits) == ParseNumber(t)
    ensures !negative && !zero ==> digits == t && '1' <= t[0] <= '9' && DigitCount(digits) > 0
    ensures !zero ==> !Starts(digits, '0')
    ensures negative ==> t[0] == '-'
    ensures !negative && zero ==> t[0] == '0'
  {
    hide NumberOf, DigitCount;
    var unsigned := DropOne(t, '-');
    negative, zero, digits := Starts(t, '-'), Starts(unsigned, '0'), DropOne(unsigned, '0');
    DropBack(t, '-');
    DropBack(unsigned, '0');
    StartOfNumber(t);
  }

  lemma RestOfNumber(negative: bool, digits: string)
    requires NumberOf(negative, digits).Parsed?
    ensures NumberOf(negative, digits).rest == digits[DigitCount(digits)..]
  {
  }

  lemma StartOfNumber(t: string)
    requires t != [] && (t[0] == '-' || Decimal.IsDigit(t[0]))
    ensures var unsigned := DropOne(t, '-');
            var digits := DropOne(unsigned, '0');
            !Starts(t, '-') && !Starts(unsigned, '0') ==> digits == t && '1' <= t[0] <= '9' && DigitCount(t) > 0
  {
  }

  lemma CountOfCore(digits: string, tail: string)
    requires Ends(tail)
    ensures var c := digits[..DigitCount(digits)];
            DigitCount(c + tail) == |c| && (c + tail)[..|c|] == c && (c + tail)[|c|..] == tail && !IsFraction(tail)
  {
    var c := digits[..DigitCount(digits)];
    DigitsThen(c, tail);
    CountThen(tail);
    if c == [] { assert c + tail == tail; } else { assert (c + tail)[0] == digits[0]; }
  }

  lemma NumberLocal(negative: bool, zero: bool, digits: string, tail: string)
    requires Ends(tail) && NumberOf(negative, digits).Parsed?
    requires !negative && !zero ==> digits != [] && '1' <= digits[0] <= '9' && DigitCount(digits) > 0
    requires !zero ==> !Starts(digits, '0')
    ensures var c := digits[..DigitCount(digits)];
            ParseNumber(If(negative, "-") + (If(zero, "0") + c) + tail) == Parsed(NumberOf(negative, digits).value, tail)
  {
    hide DigitCount, Starts, DropOne, NumberOf;
    var c := digits[..DigitCount(digits)];
    NotNumberStart(c, digits, tail);
    DropFront(zero, '0', c + tail);
    assert If(zero, "0") + c + tail == If(zero, "0") + (c + tail);
    NotSigned(zero, c + tail);
    DropFront(negative, '-', If(zero, "0") + (c + tail));
    assert If(negative, "-") + (If(zero, "0") + c) + tail == If(negative, "-") + (If(zero, "0") + (c + tail));
    SameNumber(negative, digits, tail);
  }

  lemma NotSigned(zero: bool, s: string)
    requires !Starts(s, '-')
    ensures !Starts(If(zero, "0") + s, '-')
  {
    assert zero ==> (If(zero, "0") + s)[0] == '0';
    assert !zero ==> If(zero, "0") + s == s;
  }

  lemma DropFront(front: bool, c: char, s: string)
    requires !front ==> !Starts(s, c)
    ensures Starts(If(front, [c]) + s, c) == front && DropOne(If(front, [c]) + s, c) == s
  {
    assert !front ==> If(front, [c]) + s == s;
  }

  lemma SameNumber(negative: bool, digits: string, tail: string)
    requires Ends(tail) && NumberOf(negative, digits).Parsed?
    ensures NumberOf(negative, digits[..DigitCount(digits)] + tail) == Parsed(NumberOf(negative, digits).value, tail)
  {
    hide DigitCount, Decimal.Value, IsFraction;
    CountOfCore(digits, tail);
  }

  lemma NotNumberStart(c: string, digits: string, tail: string)
    requires c == digits[..DigitCount(digits)] && Ends(tail)
    ensures !Starts(tail, '-') && !Starts(tail, '0') && !Starts(c, '-')
    ensures !Starts(digits, '0') ==> !Starts(c + tail, '0')
    ensures !Starts(c + tail, '-')
  {
  }

  // ---- values ----

  /** One character that is kept, between texts. */
  lemma KeepsMark(c: char, t: string)
    requires IsKept(c) && Starts(t, c)
    ensures Minified(t) == Kept([c], Minified(t[1..]))
  {
    KeepsPlain([c], t[1..]);
    assert [c] + t[1..] == t;
  }

  lemma WordCore(t: string, word: string, tail: string) returns (core: string)
    requires word <= t && (word == "null" || word == "false" || word == "true")
    ensures core == word && Minified(t) == Kept(core, Minified(t[|word|..]))
    ensures ParseValue(core + tail).Parsed? && ParseValue(core + tail).rest == tail
    ensures ParseValue(core + tail).value == if word == "null" then Null else if word == "false" then False else True
  {
    core := word;
    assert t == word + t[|word|..];
    KeepsPlain(word, t[|word|..]);
    WordsThen(tail);
  }

  lemma SkipFront(b: string, t: string)
    requires Blank(b) && t != [] && !IsBlank(t[0])
    ensures SkipBlanks(b + t) == t
  {
    SkipRun(b, t);
    SkipNothing(t);
  }

  // Either an item list or a closing bracket behind the opening one.
  lemma {:induction false} ArrayCore(t: string, tail: string) returns (core: string)
    requires Starts(t, '[') && ParseValue(t).Parsed?
    ensures Starts(core, '[') && Minified(t) == Kept(core, Minified(ParseValue(t).rest))
    ensures ParseValue(core + tail) == Parsed(ParseValue(t).value, tail)
    decreases |t|, 0
  {
    hide Minified, Kept, SkipBlanks, ParseItems, ParseMembers, ParseNumber, ParseLiteral;
    var inner := SkipBlanks(t[1..]);
    NoWord(t);
    KeepsMark('[', t);
    var b := GapCore(t[1..]);
    var c;
    if Starts(inner, ']') {
      c := "]";
      KeepsMark(']', inner);
      SkipFront(b, "]" + tail);
    } else {
      c := ItemsCore(inner, tail);
      SkipFront(b, c + tail);
    }
    var rest := Minified(ParseValue(t).rest);
    KeptTwice(b, c, rest);
    KeptTwice("[", b + c, rest);
    core := "[" + (b + c);
    assert core + tail == "[" + (b + (c + tail)) && (core + tail)[1..] == b + (c + tail);
    NoWord(core + tail);
    assert ("]" + tail)[1..] == tail;
  }

  lemma KeptFive(a: string, b: string, c: string, d: string, e: string, r: Option<string>)
    ensures Kept(a, Kept(b, Kept(c, Kept(d, Kept(e, r))))) == Kept(a + (b + (c + (d + e))), r)
    ensures Kept(a, Kept(b, Kept(c, r))) == Kept(a + (b + c), r)
  {
    hide Kept;
    KeptTwice(d, e, r);
    KeptTwice(c, d + e, r);
    KeptTwice(b, c + (d + e), r);
    KeptTwice(a, b + (c + (d + e)), r);
    KeptTwice(b, c, r);
    KeptTwice(a, b + c, r);
  }

  lemma ValueClosed(t: string)
    requires ParseValue(t).Parsed? && ParseValue(t).rest != []
    ensures Closed(t)
  {
    hide ParseLiteral, ParseNumber, ParseItems, ParseMembers, LiteralEnd;
    if Starts(t, '"') {
      NoWord(t);
      ClosedIfMore(t);
    }
  }

  // A mark behind blanks ends what stands in front of it.
  lemma MarkEnds(b: string, mark: string, t: string)
    requires Blank(b) && (mark == "," || mark == "]" || mark == "}")
    ensures Ends(b + (mark + t)) && SkipBlanks(b + (mark + t)) == mark + t && (mark + t)[1..] == t
    ensures Starts(mark + t, mark[0])
  {
    SkipFront(b, mark + t);
    if b != [] { assert (b + (mark + t))[0] == b[0]; } else { assert b + (mark + t) == mark + t; }
  }

  lemma {:induction false} ItemsCore(t: string, tail: string) returns (core: string)
    requires ParseItems(t).Parsed?
    ensures core != [] && !IsBlank(core[0]) && core[0] != ']' && core[0] != '}'
    ensures Minified(t) == Kept(core, Minified(ParseItems(t).rest))
    ensures ParseItems(core + tail) == Parsed(ParseItems(t).value, tail)
    decreases |t|, 2
  {
    hide Minified, Kept, SkipBlanks, ParseValue, Ends;
    var rest := ParseValue(t).rest;
    var u := SkipBlanks(rest);
    var c;
    ValueClosed(t);
    var b := GapCore(rest);
    if Starts(u, ',') {
      KeepsMark(',', u);
      var b2 := GapCore(u[1..]);
      var more := ItemsCore(SkipBlanks(u[1..]), tail);
      var behind := b + ("," + (b2 + (more + tail)));
      MarkEnds(b, ",", b2 + (more + tail));
      SkipFront(b2, more + tail);
      c := ValueCore(t, behind);
      core := c + (b + ("," + (b2 + more)));
      KeptFive(c, b, ",", b2, more, Minified(ParseItems(t).rest));
      assert core + tail == c + behind;
    } else {
      KeepsMark(']', u);
      MarkEnds(b, "]", tail);
      c := ValueCore(t, b + ("]" + tail));
      core := c + (b + "]");
      KeptFive(c, b, "]", [], [], Minified(ParseItems(t).rest));
      assert core + tail == c + (b + ("]" + tail));
    }
  }

  // ---- objects ----

  lemma {:induction false} MemberCore(t: string, tail: string) returns (core: string)
    requires ParseMember(t).Parsed? && ParseMember(t).rest != [] && Ends(tail)
    ensures core != [] && core[0] == '"'
    ensures Minified(t) == Kept(core, Minified(ParseMember(t).rest))
    ensures ParseMember(core + tail) == Parsed(ParseMember(t).value, tail)
    decreases |t|, 2
  {
    hide Minified, Kept, SkipBlanks, ParseValue, ParseLiteral, Ends;
    var rest := ParseLiteral(t).rest;
    var u := SkipBlanks(rest);
    ClosedIfMore(t);
    var b := GapCore(rest);
    KeepsMark(':', u);
    var b2 := GapCore(u[1..]);
    ValueClosed(SkipBlanks(u[1..]));
    var value := ValueCore(SkipBlanks(u[1..]), tail);
    var behind := b + (":" + (b2 + (value + tail)));
    var name := LiteralCore(t, behind);
    SkipFront(b, ":" + (b2 + (value + tail)));
    assert (":" + (b2 + (value + tail)))[1..] == b2 + (value + tail);
    SkipFront(b2, value + tail);
    core := name + (b + (":" + (b2 + value)));
    KeptFive(name, b, ":", b2, value, Minified(ParseMember(t).rest));
    assert core + tail == name + behind;
  }

  lemma {:induction false} MembersCore(t: string, tail: string) returns (core: string)
    requires ParseMembers(t).Parsed?
    ensures core != [] && core[0] == '"'
    ensures Minified(t) == Kept(core, Minified(ParseMembers(t).rest))
    ensures ParseMembers(core + tail) == Parsed(ParseMembers(t).value, tail)
    decreases |t|, 3
  {
    hide Minified, Kept, SkipBlanks, ParseMember, Ends;
    var rest := ParseMember(t).rest;
    var u := SkipBlanks(rest);
    var c;
    var b := GapCore(rest);
    if Starts(u, ',') {
      KeepsMark(',', u);
      var b2 := GapCore(u[1..]);
      var more := MembersCore(SkipBlanks(u[1..]), tail);
      var behind := b + ("," + (b2 + (more + tail)));
      MarkEnds(b, ",", b2 + (more + tail));
      SkipFront(b2, more + tail);
      c := MemberCore(t, behind);
      core := c + (b + ("," + (b2 + more)));
      KeptFive(c, b, ",", b2, more, Minified(ParseMembers(t).rest));
      assert core + tail == c + behind;
    } else {
      KeepsMark('}', u);
      MarkEnds(b, "}", tail);
      c := MemberCore(t, b + ("}" + tail));
      core := c + (b + "}");
      KeptFive(c, b, "}", [], [], Minified(ParseMembers(t).rest));
      assert core + tail == c + (b + ("}" + tail));
    }
  }

  lemma {:induction false} ObjectCore(t: string, tail: string) returns (core: string)
    requires Starts(t, '{') && ParseValue(t).Parsed?
    ensures Starts(core, '{') && Minified(t) == Kept(core, Minified(ParseValue(t).rest))
    ensures ParseValue(core + tail) == Parsed(ParseValue(t).value, tail)
    decreases |t|, 0
  {
    hide Minified, Kept, SkipBlanks, ParseItems, ParseMembers, ParseNumber, ParseLiteral;
    var inner := SkipBlanks(t[1..]);
    NoWord(t);
    KeepsMark('{', t);
    var b := GapCore(t[1..]);
    var c;
    if Starts(inner, '}') {
      c := "}";
      KeepsMark('}', inner);
      SkipFront(b, "}" + tail);
    } else {
      c := MembersCore(inner, tail);
      SkipFront(b, c + tail);
    }
    var rest := Minified(ParseValue(t).rest);
    KeptTwice(b, c, rest);
    KeptTwice("{", b + c, rest);
    core := "{" + (b + c);
    assert core + tail == "{" + (b + (c + tail)) && (core + tail)[1..] == b + (c + tail);
    NoWord(core + tail);
    assert ("}" + tail)[1..] == tail;
  }

  /** A value that is parsed is parsed the same from its minified text, in front of anything that
      ends it. */
  lemma {:induction false} ValueCore(t: string, tail: string) returns (core: string)
    requires ParseValue(t).Parsed? && Closed(t) && Ends(tail)
    ensures core != [] && core[0] == t[0] && !IsBlank(core[0]) && core[0] != ']' && core[0] != '}'
    ensures Minified(t) == Kept(core, Minified(ParseValue(t).rest))
    ensures ParseValue(core + tail) == Parsed(ParseValue(t).value, tail)
    decreases |t|, 1
  {
    hide Minified, Kept, SkipBlanks, ParseItems, ParseMembers, ParseNumber, ParseLiteral, Ends;
    if "null" <= t {
      core := WordCore(t, "null", tail);
    } else if "false" <= t {
      core := WordCore(t, "false", tail);
    } else if "true" <= t {
      core := WordCore(t, "true", tail);
    } else if t[0] == '"' {
      core := LiteralCore(t, tail);
      NoWord(core + tail);
    } else if t[0] == '[' {
      core := ArrayCore(t, tail);
    } else if t[0] == '{' {
      core := ObjectCore(t, tail);
    } else {
      core := NumberCore(t, tail);
      NoWord(core + tail);
    }
  }

  /** Minifying keeps the meaning of any text the parser accepts to its end: the minified text is
      parsed as the same tree. The one exception is a literal without a closing quote, which the
      parser accepts as a whole text and the minifier runs past. */
  lemma MinifyKeepsMeaning(t: string)
    requires ParseText(t, true).Parsed?
    ensures Minified(t).Some? <==> Closed(SkipBlanks(t))
    ensures Minified(t).Some? ==> ParseText(Minified(t).value, true) == ParseText(t, true)
  {
    hide Minified, Kept, SkipBlanks, ParseValue, Blank, Closed;
    var u := SkipBlanks(t);
    var rest := ParseValue(u).rest;
    var b := GapCore(t);
    if Closed(u) {
      var b2 := GapCore(rest);
      BlanksEnd(b2);
      var c := ValueCore(u, b2);
      KeptFive(b, c, b2, [], [], Some([]));
      SkipFront(b, c + b2);
      AllKept(b + (c + b2));
      NothingLeft();
      assert Minified(t) == Kept(b, Kept(c, Kept(b2, Some([]))));
    } else {
      NotClosed(b, u);
    }
  }

  lemma NotClosed(b: string, u: string)
    requires !Closed(u)
    ensures Kept(b, Minified(u)) == None
  {
  }

  lemma AllKept(s: string)
    ensures Kept(s, Some([])) == Some(s)
  {
    assert s + [] == s;
  }

  lemma NothingLeft()
    ensures Minified([]) == Some([])
  {
  }

  lemma BlanksEnd(b: string)
    requires Blank(b)
    ensures Ends(b) && SkipBlanks(b) == []
  {
    SkipRun(b, []);
    assert b + [] == b;
  }
}
