/** Splitting a string at a separator and joining it again (src/common/sds.c). */
module SdsSplit {
  import opened CStrings
  import Sds

  // ---- splitting ----

  predicate OccursAt(s: string, sep: string, j: nat)
  {
    j + |sep| <= |s| && s[j..j + |sep|] == sep
  }

  /** The pieces from `start` on when no separator was found between `start` and j. */
  function SplitFrom(s: string, sep: string, start: nat, j: nat): (pieces: seq<string>)
    requires sep != [] && start <= j && start <= |s|
    ensures pieces != []
    decreases |s| - j
  {
    if j + |sep| > |s| then [s[start..]]
    else if OccursAt(s, sep, j) then [s[start..j]] + SplitFrom(s, sep, j + |sep|, j + |sep|)
    else SplitFrom(s, sep, start, j + 1)
  }

  /** The pieces; the empty string has none. */
  function SplitOf(s: string, sep: string): seq<string>
    requires sep != []
  {
    if s == [] then [] else SplitFrom(s, sep, 0, 0)
  }

  lemma SplitTurn(s: string, sep: string, start: nat, j: nat, before: seq<string>)
    requires sep != [] && start <= j && start <= |s|
    ensures j + |sep| > |s| ==> before + SplitFrom(s, sep, start, j) == before + [s[start..]]
    ensures j + |sep| <= |s| && s[j..j + |sep|] == sep ==>
        before + SplitFrom(s, sep, start, j) == before + [s[start..j]] + SplitFrom(s, sep, j + |sep|, j + |sep|)
    ensures j + |sep| <= |s| && s[j..j + |sep|] != sep ==> SplitFrom(s, sep, start, j) == SplitFrom(s, sep, start, j + 1)
  {
  }

  // Room for twice as many tokens.
  method Grow(tokens: array<string>, elements: nat) returns (grown: array<string>)
    requires elements <= tokens.Length
    ensures fresh(grown) && grown.Length == tokens.Length * 2 && grown[..elements] == tokens[..elements]
  {
    grown := new string[tokens.Length * 2];
    forall i | 0 <= i < elements { grown[i] := tokens[i]; }
  }

  method Put(tokens: array<string>, elements: nat, piece: string)
    requires elements < tokens.Length
    modifies tokens
    ensures tokens[..elements + 1] == old(tokens[..elements]) + [piece]
  {
    tokens[elements] := piece;
  }

  /** `sdssplitlen`: the token array is doubled when it has no room for two more. */
  method SplitLen(s: string, sep: string) returns (tokens: array?<string>, count: nat)
    ensures sep == [] ==> tokens == null
    ensures sep != [] ==> tokens != null && count <= tokens.Length && tokens[..count] == SplitOf(s, sep)
  {
    hide SplitFrom;
    if |sep| < 1 {
      return null, 0;
    }
    var elements: nat, slots: nat, start: nat, j: nat := 0, 5, 0, 0;
    tokens := new string[slots];
    if |s| == 0 {
      return tokens, 0;
    }
    assert tokens[..0] == [];
    while j < |s| - (|sep| - 1)
      invariant start <= j && start <= |s| && tokens != null && fresh(tokens)
      invariant tokens.Length == slots && slots >= 5 && elements + 1 <= slots
      invariant tokens[..elements] + SplitFrom(s, sep, start, j) == SplitOf(s, sep)
      decreases |s| - j
    {
      if slots < elements + 2 {
        slots := slots * 2;
        tokens := Grow(tokens, elements);
      }
      SplitTurn(s, sep, start, j, tokens[..elements]);
      if s[j..j + |sep|] == sep {
        Put(tokens, elements, s[start..j]);
        elements := elements + 1;
        start := j + |sep|;
        j := j + |sep| - 1;
      }
      j := j + 1;
    }
    SplitTurn(s, sep, start, j, tokens[..elements]);
    Put(tokens, elements, s[start..]);
    count := elements + 1;
  }

  // ---- what the pieces are ----

  /** The pieces with the separator between them. */
  function JoinBy(pieces: seq<string>, sep: string): string
  {
    if pieces == [] then [] else if |pieces| == 1 then pieces[0] else pieces[0] + sep + JoinBy(pieces[1..], sep)
  }

  /** The separator does not begin in s before position n. */
  ghost predicate NoneBefore(s: string, sep: string, n: nat)
  {
    forall j :: 0 <= j < n ==> !OccursAt(s, sep, j)
  }

  /** Every separator that was split at is the leftmost one, and the last piece has none. */
  ghost predicate Leftmost(pieces: seq<string>, sep: string)
  {
    pieces != [] && if |pieces| == 1 then NoneBefore(pieces[0], sep, |pieces[0]| + 1)
                    else NoneBefore(pieces[0] + sep, sep, |pieces[0]|) && Leftmost(pieces[1..], sep)
  }

  lemma OccursShift(s: string, sep: string, start: nat, j: nat)
    requires start <= |s|
    ensures OccursAt(s[start..], sep, j) <==> OccursAt(s, sep, start + j)
  {
    if start + j + |sep| <= |s| {
      assert s[start..][j..j + |sep|] == s[start + j..start + j + |sep|];
    }
  }

  lemma OccursPrefix(s: string, t: string, sep: string, j: nat)
    requires j + |sep| <= |s|
    ensures OccursAt(s + t, sep, j) <==> OccursAt(s, sep, j)
  {
    assert (s + t)[j..j + |sep|] == s[j..j + |sep|];
  }

  /** Splitting finds the leftmost separators, and the pieces with them put back are the string. */
  lemma {:induction false} SplitFromIsLeftmost(s: string, sep: string, start: nat, j: nat)
    requires sep != [] && start <= j && start <= |s|
    requires forall i :: start <= i < j ==> !OccursAt(s, sep, i)
    ensures Leftmost(SplitFrom(s, sep, start, j), sep)
    ensures JoinBy(SplitFrom(s, sep, start, j), sep) == s[start..]
    decreases |s| - j
  {
    hide OccursAt;
    if j + |sep| > |s| {
      LastPiece(s, sep, start, j);
    } else if OccursAt(s, sep, j) {
      var next := j + |sep|;
      SplitFromIsLeftmost(s, sep, next, next);
      var rest := SplitFrom(s, sep, next, next);
      assert ([s[start..j]] + rest)[1..] == rest;
      PieceBefore(s, sep, start, j);
    } else {
      SplitFromIsLeftmost(s, sep, start, j + 1);
    }
  }

  lemma LastPiece(s: string, sep: string, start: nat, j: nat)
    requires start <= j && start <= |s| && j + |sep| > |s|
    requires forall i :: start <= i < j ==> !OccursAt(s, sep, i)
    ensures NoneBefore(s[start..], sep, |s[start..]| + 1)
  {
    forall i | 0 <= i < |s[start..]| + 1 ensures !OccursAt(s[start..], sep, i) { OccursShift(s, sep, start, i); }
  }

  lemma PieceBefore(s: string, sep: string, start: nat, j: nat)
    requires start <= j && OccursAt(s, sep, j)
    requires forall i :: start <= i < j ==> !OccursAt(s, sep, i)
    ensures NoneBefore(s[start..j] + sep, sep, j - start)
    ensures s[start..] == s[start..j] + sep + s[j + |sep|..]
  {
    assert s[start..] == s[start..j] + s[j..j + |sep|] + s[j + |sep|..];
    forall i | 0 <= i < j - start ensures !OccursAt(s[start..j] + sep, sep, i) {
      OccursShift(s, sep, start, i);
      if i + |sep| <= |s[start..j] + sep| { OccursPrefix(s[start..j] + sep, s[j + |sep|..], sep, i); }
    }
  }

  /** An empty string has no pieces; the split of another is the one list that joins to it and is split at
      leftmost separators. */
  lemma SplitIsTheLeftmost(s: string, sep: string, pieces: seq<string>)
    requires sep != []
    ensures if s == [] then SplitOf(s, sep) == []
            else pieces == SplitOf(s, sep) <==> JoinBy(pieces, sep) == s && Leftmost(pieces, sep)
  {
    hide SplitFrom, JoinBy, Leftmost;
    SplitFromIsLeftmost(s, sep, 0, 0);
    assert s[0..] == s;
    if JoinBy(pieces, sep) == s && Leftmost(pieces, sep) {
      LeftmostIsSplit([], pieces, sep);
      assert [] + s == s;
    }
  }

  lemma {:induction false} LeftmostIsSplit(before: string, pieces: seq<string>, sep: string)
    requires sep != [] && Leftmost(pieces, sep)
    ensures SplitFrom(before + JoinBy(pieces, sep), sep, |before|, |before|) == pieces
    decreases |pieces|
  {
    hide OccursAt;
    var s, n := before + JoinBy(pieces, sep), |before|;
    if |pieces| == 1 {
      OnlyPiece(before, pieces[0], sep);
      NoneFound(s, sep, n, n);
    } else {
      var next := n + |pieces[0]| + |sep|;
      FirstPiece(before, pieces[0], sep, JoinBy(pieces[1..], sep));
      FoundFirst(s, sep, n, n, n + |pieces[0]|);
      assert s == before + pieces[0] + sep + JoinBy(pieces[1..], sep);
      LeftmostIsSplit(before + pieces[0] + sep, pieces[1..], sep);
      assert s[n..n + |pieces[0]|] == pieces[0];
    }
  }

  lemma OnlyPiece(before: string, p: string, sep: string)
    requires NoneBefore(p, sep, |p| + 1)
    ensures forall i :: |before| <= i <= |before + p| ==> !OccursAt(before + p, sep, i)
    ensures (before + p)[|before|..] == p
  {
    assert (before + p)[|before|..] == p;
    forall i | |before| <= i <= |before + p| ensures !OccursAt(before + p, sep, i) {
      OccursShift(before + p, sep, |before|, i - |before|);
    }
  }

  lemma FirstPiece(before: string, p: string, sep: string, rest: string)
    requires NoneBefore(p + sep, sep, |p|)
    ensures var s := before + (p + sep + rest);
            (forall i :: |before| <= i < |before| + |p| ==> !OccursAt(s, sep, i)) && OccursAt(s, sep, |before| + |p|)
  {
    var s := before + (p + sep + rest);
    assert s[|before|..] == p + sep + rest;
    assert s[|before| + |p|..|before| + |p| + |sep|] == sep;
    forall i | |before| <= i < |before| + |p| ensures !OccursAt(s, sep, i) {
      OccursShift(s, sep, |before|, i - |before|);
      OccursPrefix(p + sep, rest, sep, i - |before|);
    }
  }

  lemma {:induction false} NoneFound(s: string, sep: string, start: nat, j: nat)
    requires sep != [] && start <= j && start <= |s|
    requires forall i :: j <= i <= |s| ==> !OccursAt(s, sep, i)
    ensures SplitFrom(s, sep, start, j) == [s[start..]]
    decreases |s| - j
  {
    hide OccursAt;
    if j + |sep| <= |s| { NoneFound(s, sep, start, j + 1); }
  }

  lemma {:induction false} FoundFirst(s: string, sep: string, start: nat, j: nat, k: nat)
    requires sep != [] && start <= j <= k && OccursAt(s, sep, k)
    requires forall i :: j <= i < k ==> !OccursAt(s, sep, i)
    ensures k + |sep| <= |s| && SplitFrom(s, sep, start, j) == [s[start..k]] + SplitFrom(s, sep, k + |sep|, k + |sep|)
    decreases k - j
  {
    if j < k { FoundFirst(s, sep, start, j + 1, k); }
  }

  /** No piece holds the separator. */
  lemma {:induction false} LeftmostHoldsNone(pieces: seq<string>, sep: string, i: nat, j: nat)
    requires Leftmost(pieces, sep) && i < |pieces| && sep != []
    ensures !OccursAt(pieces[i], sep, j)
  {
    if i > 0 {
      LeftmostHoldsNone(pieces[1..], sep, i - 1, j);
    } else if j + |sep| <= |pieces[0]| {
      OccursPrefix(pieces[0], sep, sep, j);
    }
  }

  lemma NoPieceHoldsTheSeparator(s: string, sep: string, i: nat, j: nat)
    requires sep != [] && i < |SplitOf(s, sep)|
    ensures !OccursAt(SplitOf(s, sep)[i], sep, j)
  {
    SplitFromIsLeftmost(s, sep, 0, 0);
    LeftmostHoldsNone(SplitOf(s, sep), sep, i, j);
  }

  // ---- joining ----

  /** `sdsjoin` takes its arguments, and the separator, as C strings. */
  function JoinOf(argv: seq<string>, sep: string): string
  {
    JoinBy(CStrs(argv), CStr(sep))
  }

  function CStrs(argv: seq<string>): (r: seq<string>)
    ensures |r| == |argv| && forall i :: 0 <= i < |r| ==> r[i] == CStr(argv[i])
  {
    seq(|argv|, i requires 0 <= i < |argv| => CStr(argv[i]))
  }

  lemma {:induction false} JoinBySnoc(pieces: seq<string>, p: string, sep: string)
    ensures JoinBy(pieces + [p], sep) == JoinBy(pieces, sep) + (if pieces == [] then [] else sep) + p
  {
    if pieces == [] {
      assert pieces + [p] == [p];
    } else {
      JoinBySnoc(pieces[1..], p, sep);
      assert (pieces + [p])[1..] == pieces[1..] + [p];
      if |pieces| > 1 {
        var rest := JoinBy(pieces[1..], sep);
        assert pieces[0] + sep + (rest + sep + p) == pieces[0] + sep + rest + sep + p;
      }
    }
  }

  method Join(argv: seq<string>, sep: string) returns (join: Sds.Sds)
    ensures join.Valid() && join.Contents() == JoinOf(argv, sep)
  {
    join := new Sds.Sds.NewLen("");
    ghost var all, between := CStrs(argv), CStr(sep);
    var j := 0;
    while j < |argv|
      invariant j <= |argv| && join.Valid() && fresh(join) && fresh(join.buf)
      invariant join.Contents() == JoinBy(all[..j], between) + if 0 < j < |argv| then between else []
    {
      assert all[..j + 1] == all[..j] + [all[j]];
      JoinBySnoc(all[..j], all[j], between);
      join.CatLen(CStr(argv[j]));
      if j != |argv| - 1 {
        join.CatLen(CStr(sep));
      }
      j := j + 1;
    }
    assert all[..j] == all;
  }

  lemma {:induction false} JoinOfIsNulFree(pieces: seq<string>, sep: string)
    requires NulFree(sep) && forall i :: 0 <= i < |pieces| ==> NulFree(pieces[i])
    ensures NulFree(JoinBy(pieces, sep))
  {
    if |pieces| > 1 { JoinOfIsNulFree(pieces[1..], sep); }
  }

  lemma {:induction false} PartsAreNulFree(pieces: seq<string>, sep: string)
    requires NulFree(JoinBy(pieces, sep))
    ensures forall i :: 0 <= i < |pieces| ==> NulFree(pieces[i])
    ensures |pieces| > 1 ==> NulFree(sep)
  {
    if |pieces| > 1 {
      PartsAreNulFree(pieces[1..], sep);
      forall i | 0 <= i < |pieces| ensures NulFree(pieces[i]) {
        if i > 0 { assert pieces[i] == pieces[1..][i - 1]; }
      }
    }
  }

  /** Joining what was split restores the string exactly when it has no NUL. */
  lemma JoinUndoesSplit(s: string, sep: string)
    requires sep != []
    ensures JoinOf(SplitOf(s, sep), sep) == s <==> NulFree(s)
  {
    var pieces := SplitOf(s, sep);
    JoinOfIsNulFree(CStrs(pieces), CStr(sep));
    if s != [] && NulFree(s) {
      SplitFromIsLeftmost(s, sep, 0, 0);
      assert s[0..] == s;
      PartsAreNulFree(pieces, sep);
      forall i | 0 <= i < |pieces| ensures CStrs(pieces)[i] == pieces[i] { CStrOfNulFree(pieces[i]); }
      assert CStrs(pieces) == pieces;
      CStrOfNulFree(sep);
    }
  }
}
