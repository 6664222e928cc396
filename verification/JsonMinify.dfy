/** The minifier of src/common/cJSON.c, which rewrites its text in place. */
module JsonMinify {
  import opened CStrings
  import Decimal
  import opened JsonStrings
  import opened JsonPrint
  import JsonRoundTrip

  // ---- what is kept ----

  predicate IsDropped(c: char)
  {
    c == ' ' || c == '\t' || c == '\r' || c == '\n'
  }

  /** The text from the end of a line comment on. */
  function LineEnd(t: string): (r: string)
    ensures |r| <= |t|
  {
    if t == [] || t[0] == '\n' then t else LineEnd(t[1..])
  }

  /** The text behind a block comment; None when the code would run past the end looking for it. */
  function BlockEnd(t: string): (r: Option<string>)
    ensures r.Some? ==> |r.value| < |t|
  {
    if t == [] then None
    else if |t| >= 2 && t[0] == '*' && t[1] == '/' then Some(t[2..])
    else BlockEnd(t[1..])
  }

  /** How much belongs to a string literal, its closing quote included. */
  function LiteralEnd(t: string): (r: Option<nat>)
    ensures r.Some? ==> 1 <= r.value <= |t|
    decreases |t|
  {
    if t == [] then None
    else if t[0] == '"' then Some(1)
    else if t[0] != '\\' then Plus(1, LiteralEnd(t[1..]))
    else if |t| < 2 then None
    else Plus(2, LiteralEnd(t[2..]))
  }

  function Plus(n: nat, r: Option<nat>): Option<nat>
  {
    match r
    case None => None
    case Some(m) => Some(n + m)
  }

  function Kept(s: string, r: Option<string>): Option<string>
  {
    match r
    case None => None
    case Some(rest) => Some(s + rest)
  }

  /** The minified text; None where a comment or a literal is not closed. */
  function Minified(t: string): (r: Option<string>)
    decreases |t|
  {
    if t == [] then Some([])
    else if IsDropped(t[0]) then Minified(t[1..])
    else if t[0] == '/' && |t| >= 2 && t[1] == '/' then Minified(LineEnd(t[1..]))
    else if t[0] == '/' && |t| >= 2 && t[1] == '*' then
      match BlockEnd(t)
      case None => None
      case Some(rest) => Minified(rest)
    else if t[0] == '"' then
      match LiteralEnd(t[1..])
      case None => None
      case Some(n) => Kept(t[..n + 1], Minified(t[n + 1..]))
    else Kept([t[0]], Minified(t[1..]))
  }

  // ---- minifying in place ----

  /** The buffer still holds the text from position p on. */
  ghost predicate Holds(json: array<char>, text: string, p: nat)
    reads json
  {
    |text| < json.Length && p <= |text| && json[p..|text|] == text[p..] && json[|text|] == NUL
  }

  lemma HeldChars(json: array<char>, text: string, p: nat)
    requires Holds(json, text, p)
    ensures p <= |text| < json.Length && json[p] == At(text, p) && (p < |text| ==> json[p + 1] == At(text, p + 1) && Holds(json, text, p + 1))
    ensures p + 1 < |text| ==> Holds(json, text, p + 2)
  {
    assert forall i :: 0 <= i < |text| - p ==> json[p..|text|][i] == text[p..][i];
    assert forall i :: p <= i < |text| ==> json[i] == text[i];
    assert p < |text| ==> json[p + 1..|text|] == text[p + 1..];
    assert p + 1 < |text| ==> json[p + 2..|text|] == text[p + 2..];
  }

  // Copy one character down: the writer never passes the reader.
  method CopyDown(json: array<char>, into: nat, p: nat, ghost text: string) returns (into': nat, p': nat)
    requires into <= p < |text| && Holds(json, text, p)
    modifies json
    ensures into' == into + 1 && p' == p + 1 && Holds(json, text, p')
    ensures json[..into'] == old(json[..into]) + [text[p]]
  {
    assert json[p..|text|][0] == text[p..][0];
    json[into] := json[p];
    into', p' := into + 1, p + 1;
    assert forall i :: p + 1 <= i < |text| ==> json[i] == json[p..|text|][i - p];
    assert json[p + 1..|text|] == text[p + 1..];
  }

  method SkipLine(json: array<char>, p: nat, ghost text: string) returns (q: nat)
    requires NulFree(text) && Holds(json, text, p)
    ensures p <= q && Holds(json, text, q) && text[q..] == LineEnd(text[p..])
    ensures p < |text| && text[p] != '\n' ==> p < q
  {
    q := p;
    HeldChars(json, text, q);
    while json[q] != NUL && json[q] != '\n'
      invariant p <= q && Holds(json, text, q) && json[q] == At(text, q) && LineEnd(text[p..]) == LineEnd(text[q..])
      invariant p < |text| && text[p] != '\n' && q == p ==> json[q] != NUL && json[q] != '\n'
      decreases |text| - q
    {
      HeldChars(json, text, q);
      assert text[q..][1..] == text[q + 1..];
      q := q + 1;
      HeldChars(json, text, q);
    }
  }

  method SkipBlock(json: array<char>, p: nat, ghost text: string) returns (ok: bool, q: nat)
    requires NulFree(text) && Holds(json, text, p)
    ensures ok <==> BlockEnd(text[p..]).Some?
    ensures ok ==> p < q && Holds(json, text, q) && text[q..] == BlockEnd(text[p..]).value
  {
    q := p;
    HeldChars(json, text, q);
    while json[q] != NUL && !(json[q] == '*' && json[q + 1] == '/')
      invariant p <= q && Holds(json, text, q) && BlockEnd(text[p..]) == BlockEnd(text[q..])
      invariant json[q] == At(text, q) && (q < |text| ==> json[q + 1] == At(text, q + 1))
      decreases |text| - q
    {
      HeldChars(json, text, q);
      assert text[q..][1..] == text[q + 1..];
      q := q + 1;
      HeldChars(json, text, q);
    }
    if json[q] == NUL { return false, q; }
    HeldChars(json, text, q);
    assert text[q..][2..] == text[q + 2..];
    return true, q + 2;
  }

  // Copy a character of a literal, or a backslash and the character behind it.
  method CopyUnit(json: array<char>, into: nat, p: nat, ghost text: string, ghost n: nat)
    returns (ok: bool, into': nat, p': nat)
    requires NulFree(text) && into <= p < |text| && text[p] != '"' && Holds(json, text, p)
    modifies json
    ensures !ok ==> Plus(n, LiteralEnd(text[p..])) == None
    ensures ok ==> p < p' && into' - into == p' - p && Holds(json, text, p')
    ensures ok ==> json[..into'] == old(json[..into]) + text[p..p']
    ensures ok ==> Plus(n, LiteralEnd(text[p..])) == Plus(n + (p' - p), LiteralEnd(text[p'..]))
  {
    hide LiteralEnd, Plus;
    LiteralStep(text, p, n);
    HeldChars(json, text, p);
    into', p' := into, p;
    if json[p'] == '\\' {
      into', p' := CopyDown(json, into', p', text);
      HeldChars(json, text, p');
      if json[p'] == NUL { return false, into', p'; }
    }
    into', p' := CopyDown(json, into', p', text);
    assert p' == p + 1 ==> text[p..p'] == [text[p]];
    assert p' == p + 2 ==> text[p..p'] == [text[p]] + [text[p + 1]];
    ok := true;
  }

  // The loop over a literal: copy up to the closing quote, or to the end of the text.
  method CopyInside(json: array<char>, into: nat, p: nat, ghost text: string) returns (ok: bool, into': nat, p': nat)
    requires NulFree(text) && into <= p <= |text| && Holds(json, text, p)
    modifies json
    ensures !ok ==> LiteralEnd(text[p..]) == None
    ensures ok ==> p <= p' <= |text| && into' - into == p' - p && Holds(json, text, p')
    ensures ok ==> LiteralEnd(text[p..]) == Plus(p' - p, LiteralEnd(text[p'..]))
    ensures ok ==> json[p'] == At(text, p') && (json[p'] == NUL || json[p'] == '"')
    ensures ok ==> json[..into'] == old(json[..into]) + text[p..p']
  {
    hide LiteralEnd, Plus;
    ghost var before := json[..into];
    into', p' := into, p;
    HeldChars(json, text, p');
    NothingMore(LiteralEnd(text[p'..]));
    CopiedNone(before, text, p);
    while json[p'] != NUL && json[p'] != '"'
      invariant p <= p' <= |text| && into' - into == p' - p && Holds(json, text, p') && json[p'] == At(text, p')
      invariant LiteralEnd(text[p..]) == Plus(p' - p, LiteralEnd(text[p'..]))
      invariant json[..into'] == before + text[p..p']
      decreases |text| - p'
    {
      ghost var q := p';
      ok, into', p' := CopyUnit(json, into', p', text, p' - p);
      if !ok { return; }
      Extend(before, text, p, q, p');
      HeldChars(json, text, p');
    }
    ok := true;
  }

  // Copy a literal, from its opening quote on.
  method CopyLiteral(json: array<char>, into: nat, p: nat, ghost text: string) returns (ok: bool, into': nat, p': nat)
    requires NulFree(text) && into <= p < |text| && text[p] == '"' && Holds(json, text, p)
    modifies json
    ensures ok <==> LiteralEnd(text[p + 1..]).Some?
    ensures ok ==> p' == p + 1 + LiteralEnd(text[p + 1..]).value && into' - into == p' - p && Holds(json, text, p')
    ensures ok ==> json[..into'] == old(json[..into]) + text[p..p']
  {
    hide LiteralEnd, Plus;
    ghost var before := json[..into];
    into', p' := CopyDown(json, into, p, text);
    CopiedOne(before, text, p);
    ok, into', p' := CopyInside(json, into', p', text);
    if !ok { return; }
    LiteralStops(text, p', p' - (p + 1));
    if json[p'] == NUL { return false, into', p'; }
    Extend(before, text, p, p + 1, p');
    Extend(before, text, p, p', p' + 1);
    into', p' := CopyDown(json, into', p', text);
  }

  lemma CopiedNone(before: string, text: string, p: nat)
    requires p <= |text|
    ensures before == before + text[p..p]
  {
  }

  lemma CopiedOne(before: string, text: string, p: nat)
    requires p < |text|
    ensures before + [text[p]] == before + text[p..p + 1]
  {
    assert text[p..p + 1] == [text[p]];
  }

  lemma Extend(before: string, text: string, p: nat, q: nat, r: nat)
    requires p <= q <= r <= |text|
    ensures before + text[p..q] + text[q..r] == before + text[p..r]
    ensures q + 1 == r ==> text[q..r] == [text[q]]
  {
    assert text[p..q] + text[q..r] == text[p..r];
  }

  lemma NothingMore(r: Option<nat>)
    ensures Plus(0, r) == r
  {
  }

  lemma LiteralStep(text: string, p: nat, n: nat)
    requires p < |text| && text[p] != '"'
    ensures text[p] != '\\' ==> Plus(n, LiteralEnd(text[p..])) == Plus(n + 1, LiteralEnd(text[p + 1..]))
    ensures text[p] == '\\' && p + 1 == |text| ==> Plus(n, LiteralEnd(text[p..])) == None
    ensures text[p] == '\\' && p + 1 < |text| ==> Plus(n, LiteralEnd(text[p..])) == Plus(n + 2, LiteralEnd(text[p + 2..]))
  {
    assert text[p..][1..] == text[p + 1..];
    assert p + 1 < |text| ==> text[p..][2..] == text[p + 2..];
  }

  lemma LiteralStops(text: string, p: nat, n: nat)
    requires p <= |text|
    ensures p == |text| ==> Plus(n, LiteralEnd(text[p..])) == None
    ensures p < |text| && text[p] == '"' ==> Plus(n, LiteralEnd(text[p..])) == Some(n + 1)
  {
  }

  lemma KeptTwice(a: string, b: string, r: Option<string>)
    ensures Kept(a, Kept(b, r)) == Kept(a + b, r) && Kept([], r) == r && Kept(a, None) == None
  {
    if r.Some? { assert a + (b + r.value) == a + b + r.value && [] + r.value == r.value; }
  }

  // One turn of the loop.
  lemma MinifyTurn(text: string, p: nat)
    requires p < |text|
    ensures var c, next := text[p], At(text, p + 1);
            && (IsDropped(c) ==> Minified(text[p..]) == Minified(text[p + 1..]))
            && (c == '/' && next == '/' ==> Minified(text[p..]) == Minified(LineEnd(text[p..])))
            && (c == '/' && next == '*' ==> Minified(text[p..]) == match BlockEnd(text[p..])
                                                                   case None => None
                                                                   case Some(rest) => Minified(rest))
            && (c == '"' ==> Minified(text[p..]) == match LiteralEnd(text[p + 1..])
                                                    case None => None
                                                    case Some(n) => Kept(text[p..p + 1 + n], Minified(text[p + 1 + n..])))
            && (!IsDropped(c) && c != '"' && !(c == '/' && (next == '/' || next == '*')) ==>
                  Minified(text[p..]) == Kept([c], Minified(text[p + 1..])))
  {
    var t := text[p..];
    assert t[1..] == text[p + 1..];
    if text[p] == '"' && LiteralEnd(text[p + 1..]).Some? {
      var n := LiteralEnd(text[p + 1..]).value;
      assert t[..n + 1] == text[p..p + 1 + n] && t[n + 1..] == text[p + 1 + n..];
    }
  }

  /** Minify in place; `ok` is false where the code would run past the end. */
  method Minify(json: array<char>, ghost text: string) returns (ok: bool, ghost length: nat)
    requires NulFree(text) && Holds(json, text, 0)
    modifies json
    ensures ok <==> Minified(text).Some?
    ensures ok ==> length <= |text| && Minified(text) == Some(json[..length]) && json[length] == NUL
  {
    hide Minified, LineEnd, BlockEnd, LiteralEnd, Kept;
    var p, into: nat := 0, 0;
    length := 0;
    assert text[0..] == text;
    KeptTwice([], [], Minified(text));
    HeldChars(json, text, 0);
    while json[p] != NUL
      invariant into <= p && Holds(json, text, p) && json[p] == At(text, p)
      invariant p < |text| ==> json[p + 1] == At(text, p + 1)
      invariant Kept(json[..into], Minified(text[p..])) == Minified(text)
      decreases |text| - p
    {
      HeldChars(json, text, p);
      MinifyTurn(text, p);
      ghost var before := json[..into];
      KeptTwice(before, [], None);
      if json[p] == ' ' {
        p := p + 1;
      } else if json[p] == '\t' {
        p := p + 1;
      } else if json[p] == '\r' {
        p := p + 1;
      } else if json[p] == '\n' {
        p := p + 1;
      } else if json[p] == '/' && json[p + 1] == '/' {
        p := SkipLine(json, p, text);
      } else if json[p] == '/' && json[p + 1] == '*' {
        ok, p := SkipBlock(json, p, text);
        if !ok { return; }
      } else if json[p] == '"' {
        ghost var start := p;
        ok, into, p := CopyLiteral(json, into, p, text);
        if !ok { return; }
        KeptTwice(before, text[start..p], Minified(text[p..]));
      } else {
        KeptTwice(before, [text[p]], Minified(text[p + 1..]));
        into, p := CopyDown(json, into, p, text);
      }
      HeldChars(json, text, p);
    }
    MinifiedEnd(json[..into]);
    json[into] := NUL;
    length := into;
    ok := true;
  }

  lemma MinifiedEnd(s: string)
    ensures Kept(s, Minified([])) == Some(s)
  {
    assert s + [] == s;
  }

  // ---- minifying a print ----

  predicate IsKept(c: char)
  {
    !IsDropped(c) && c != '/' && c != '"'
  }

  lemma {:induction false} KeepsPlain(w: string, t: string)
    requires forall i :: 0 <= i < |w| ==> IsKept(w[i])
    ensures Minified(w + t) == Kept(w, Minified(t))
  {
    if w == [] {
      assert w + t == t;
      KeptTwice([], [], Minified(t));
    } else {
      KeepsPlain(w[1..], t);
      assert (w + t)[1..] == w[1..] + t && [w[0]] + w[1..] == w;
      KeptTwice([w[0]], w[1..], Minified(t));
    }
  }

  lemma {:induction false} DropsBlanks(b: string, t: string)
    requires forall i :: 0 <= i < |b| ==> IsDropped(b[i])
    ensures Minified(b + t) == Minified(t)
  {
    if b == [] {
      assert b + t == t;
    } else {
      DropsBlanks(b[1..], t);
      assert (b + t)[1..] == b[1..] + t;
    }
  }

  lemma PlusTwice(m: nat, n: nat, r: Option<nat>)
    ensures Plus(m, Plus(n, r)) == Plus(m + n, r)
  {
  }

  lemma {:induction false} LiteralRun(w: string, t: string)
    requires forall i :: 0 <= i < |w| ==> w[i] != '"' && w[i] != '\\'
    ensures LiteralEnd(w + t) == Plus(|w|, LiteralEnd(t))
  {
    if w == [] {
      assert w + t == t;
    } else {
      LiteralRun(w[1..], t);
      assert (w + t)[1..] == w[1..] + t;
      PlusTwice(1, |w| - 1, LiteralEnd(t));
    }
  }

  lemma LiteralEndOfEscape(c: char, t: string)
    ensures LiteralEnd(EscapeOf(c) + t) == Plus(|EscapeOf(c)|, LiteralEnd(t))
  {
    hide Plus;
    var e := EscapeOf(c);
    if e[0] != '\\' {
      LiteralRun(e, t);
    } else {
      assert (e + t)[2..] == e[2..] + t;
      LiteralRun(e[2..], t);
      PlusTwice(2, |e| - 2, LiteralEnd(t));
    }
  }

  lemma {:induction false} LiteralEndOfEscaped(s: string, t: string)
    ensures LiteralEnd(Escaped(s) + ("\"" + t)) == Some(|Escaped(s)| + 1)
  {
    hide EscapeOf;
    if s == [] {
      assert Escaped(s) + ("\"" + t) == "\"" + t;
    } else {
      LiteralEndOfEscaped(s[1..], t);
      LiteralEndOfEscape(s[0], Escaped(s[1..]) + ("\"" + t));
      assert Escaped(s) + ("\"" + t) == EscapeOf(s[0]) + (Escaped(s[1..]) + ("\"" + t));
    }
  }

  /** A printed literal is kept as it is. */
  lemma KeepsLiteral(s: string, t: string)
    ensures Minified(Literal(s) + t) == Kept(Literal(s), Minified(t))
  {
    var u := Literal(s) + t;
    LiteralEndOfEscaped(s, t);
    assert u[1..] == Escaped(s) + ("\"" + t);
    assert u[..|Literal(s)|] == Literal(s) && u[|Literal(s)|..] == t;
  }

  lemma DecimalIsPlain(n: int)
    ensures forall i :: 0 <= i < |Decimal.ToDecimal(n)| ==> IsKept(Decimal.ToDecimal(n)[i])
  {
    Decimal.ValueOfDigits(if n < 0 then -n else n);
  }

  lemma ScalarMinified(j: Json, d: nat, e: nat, t: string)
    requires !j.Array? && !j.Object?
    ensures Minified(Printed(j, d, true) + t) == Kept(Printed(j, e, false), Minified(t))
  {
    hide Minified, Kept, Literal, Decimal.ToDecimal;
    match j
    case Number(n) =>
      DecimalIsPlain(n);
      KeepsPlain(Decimal.ToDecimal(n), t);
    case String(s) => KeepsLiteral(s, t);
    case _ => KeepsPlain(Printed(j, d, true), t);
  }

  lemma {:induction false} ItemsMinified(items: seq<Json>, d: nat, e: nat, t: string)
    ensures Minified(PrintedItems(items, d, true) + t) == Kept(PrintedItems(items, e, false), Minified(t))
    decreases items, 0
  {
    hide Minified, Kept, Printed;
    if items == [] {
      assert [] + t == t;
      KeptTwice([], [], Minified(t));
    } else {
      var rest, rest' := PrintedItems(items[1..], d, true), PrintedItems(items[1..], e, false);
      var comma := if |items| > 1 then "," else [];
      var space := if |items| > 1 then " " else [];
      var first := Printed(items[0], d, true);
      assert PrintedItems(items, d, true) == first + (comma + space) + rest;
      assert first + (comma + space) + rest + t == first + (comma + (space + (rest + t)));
      PrintedMinified(items[0], d, e, comma + (space + (rest + t)));
      KeepsPlain(comma, space + (rest + t));
      DropsBlanks(space, rest + t);
      ItemsMinified(items[1..], d, e, t);
      KeptTwice(comma, rest', Minified(t));
      KeptTwice(Printed(items[0], e, false), comma + rest', Minified(t));
      assert comma + [] == comma;
      assert PrintedItems(items, e, false) == Printed(items[0], e, false) + comma + rest';
      assert Printed(items[0], e, false) + (comma + rest') == Printed(items[0], e, false) + comma + rest';
    }
  }

  lemma TabsAreDropped(n: int)
    ensures forall i :: 0 <= i < |Tabs(n)| ==> IsDropped(Tabs(n)[i])
  {
  }

  lemma {:induction false} MembersMinified(members: seq<Member>, d: nat, e: nat, t: string)
    ensures Minified(PrintedMembers(members, d, true) + t) == Kept(PrintedMembers(members, e, false), Minified(t))
    decreases members, 0
  {
    hide Minified, Kept, Printed, Literal, Tabs, MemberText;
    if members == [] {
      assert [] + t == t;
      KeptTwice([], [], Minified(t));
    } else {
      var rest := PrintedMembers(members[1..], d, true);
      MembersMinified(members[1..], d, e, t);
      MemberMinified(members[0], d, e, |members| > 1, rest + t);
      var text := MemberText(Literal(members[0].name), Printed(members[0].value, d, true), d, true, |members| > 1);
      assert text + rest + t == text + (rest + t);
      KeptTwice(MemberText(Literal(members[0].name), Printed(members[0].value, e, false), e, false, |members| > 1),
                PrintedMembers(members[1..], e, false), Minified(t));
    }
  }

  lemma MemberMinified(m: Member, d: nat, e: nat, more: bool, t: string)
    ensures Minified(MemberText(Literal(m.name), Printed(m.value, d, true), d, true, more) + t)
         == Kept(MemberText(Literal(m.name), Printed(m.value, e, false), e, false, more), Minified(t))
    decreases m, 1
  {
    hide Minified, Kept, Printed, Literal, Tabs;
    var name, value, value' := Literal(m.name), Printed(m.value, d, true), Printed(m.value, e, false);
    var comma := if more then "," else [];
    var text := MemberText(name, value, d, true, more);
    assert text == Tabs(d) + name + ":" + "\t" + value + comma + "\n" == text + [];
    JsonRoundTrip.Regroup(Tabs(d), name, "\t", value, comma, "\n", [], t);
    assert [] + t == t;
    TabsAreDropped(d);
    DropsBlanks(Tabs(d), name + (":" + ("\t" + (value + (comma + ("\n" + t))))));
    KeepsLiteral(m.name, ":" + ("\t" + (value + (comma + ("\n" + t)))));
    KeepsPlain(":", "\t" + (value + (comma + ("\n" + t))));
    DropsBlanks("\t", value + (comma + ("\n" + t)));
    PrintedMinified(m.value, d, e, comma + ("\n" + t));
    KeepsPlain(comma, "\n" + t);
    DropsBlanks("\n", t);
    KeptTwice(value', comma, Minified(t));
    KeptTwice(":", value' + comma, Minified(t));
    KeptTwice(name, ":" + (value' + comma), Minified(t));
    assert MemberText(name, value', e, false, more) == [] + name + ":" + [] + value' + comma + [];
    assert name + (":" + (value' + comma)) == [] + name + ":" + [] + value' + comma + [];
  }

  lemma ArrayMinified(items: seq<Json>, d: nat, e: nat, t: string)
    ensures Minified(Printed(Array(items), d, true) + t) == Kept(Printed(Array(items), e, false), Minified(t))
    decreases items, 1
  {
    hide Minified, Kept;
    if items == [] {
      KeepsPlain("[]", t);
    } else {
      var text, text' := PrintedItems(items, d + 1, true), PrintedItems(items, e + 1, false);
      assert "[" + text + "]" + t == "[" + (text + ("]" + t));
      KeepsPlain("[", text + ("]" + t));
      ItemsMinified(items, d + 1, e + 1, "]" + t);
      KeepsPlain("]", t);
      KeptTwice(text', "]", Minified(t));
      KeptTwice("[", text' + "]", Minified(t));
      assert "[" + (text' + "]") == "[" + text' + "]";
    }
  }

  lemma ObjectMinified(members: seq<Member>, d: nat, e: nat, t: string)
    ensures Minified(Printed(Object(members), d, true) + t) == Kept(Printed(Object(members), e, false), Minified(t))
    decreases members, 1
  {
    hide Minified, Kept, Tabs;
    if members == [] {
      var blanks := "\n" + Tabs(d - 1);
      TabsAreDropped(d - 1);
      assert "{" + blanks + "}" + t == "{" + (blanks + ("}" + t));
      KeepsPlain("{", blanks + ("}" + t));
      DropsBlanks(blanks, "}" + t);
      KeepsPlain("}", t);
      KeptTwice("{", "}", Minified(t));
      assert Printed(Object(members), e, false) == "{" + [] + "}" == "{" + "}";
    } else {
      var text, text' := PrintedMembers(members, d + 1, true), PrintedMembers(members, e + 1, false);
      JsonRoundTrip.RegroupBraces("\n", text, Tabs(d), t);
      KeepsPlain("{", "\n" + (text + (Tabs(d) + ("}" + t))));
      DropsBlanks("\n", text + (Tabs(d) + ("}" + t)));
      MembersMinified(members, d + 1, e + 1, Tabs(d) + ("}" + t));
      TabsAreDropped(d);
      DropsBlanks(Tabs(d), "}" + t);
      KeepsPlain("}", t);
      KeptTwice(text', "}", Minified(t));
      KeptTwice("{", text' + "}", Minified(t));
      assert "{" + (text' + "}") == "{" + [] + text' + [] + "}";
    }
  }

  lemma {:induction false} PrintedMinified(j: Json, d: nat, e: nat, t: string)
    ensures Minified(Printed(j, d, true) + t) == Kept(Printed(j, e, false), Minified(t))
    decreases j
  {
    match j
    case Array(items) => ArrayMinified(items, d, e, t);
    case Object(members) => ObjectMinified(members, d, e, t);
    case _ => ScalarMinified(j, d, e, t);
  }

  /** The formatted print of any tree, minified, is its unformatted print. */
  lemma MinifyUnformats(j: Json)
    ensures Minified(Printed(j, 0, true)) == Some(Printed(j, 0, false))
  {
    hide Printed;
    PrintedMinified(j, 0, 0, []);
    assert Printed(j, 0, true) + [] == Printed(j, 0, true);
    MinifiedEnd(Printed(j, 0, false));
  }
}
