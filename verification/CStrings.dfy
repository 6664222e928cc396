/** C strings and pointers into them.

    A byte is a `char`, a buffer of bytes is a `string`, and a pointer into a NUL-terminated
    buffer is an index that never passes the terminator.
 */
module CStrings {

  datatype Option<+T> = None | Some(value: T)

  const NUL: char := '\0'

  /** The byte a pointer reads; the one after the last is the terminator. */
  function At(s: string, p: nat): char
    requires p <= |s|
  {
    if p < |s| then s[p] else NUL
  }

  ghost predicate NulFree(s: string)
  {
    NUL !in s
  }

  /** What `strlen`-based code sees of a buffer: the bytes before its first NUL. */
  function CStr(s: string): (r: string)
    ensures NulFree(r) && r <= s
    ensures |r| < |s| ==> s[|r|] == NUL
  {
    if s == [] || s[0] == NUL then [] else [s[0]] + CStr(s[1..])
  }

  lemma CStrOfNulFree(s: string)
    ensures CStr(s) == s <==> NulFree(s)
  {
  }

  lemma {:induction false} CStrStops(s: string, n: nat)
    requires n <= |s| && NulFree(s[..n]) && At(s, n) == NUL
    ensures CStr(s) == s[..n]
    decreases n
  {
    if n > 0 {
      assert s[..n][0] == s[0] && s[..n][1..] == s[1..][..n - 1];
      CStrStops(s[1..], n - 1);
    }
  }

  /** `strchr` from position p: the first `c` before the terminator. */
  function StrChr(s: string, p: nat, c: char): (r: Option<nat>)
    requires p <= |s| && c != NUL
    ensures r.Some? ==> p <= r.value < |s| && s[r.value] == c
    decreases |s| - p
  {
    if p == |s| then None
    else if s[p] == c then Some(p)
    else if s[p] == NUL then None
    else StrChr(s, p + 1, c)
  }

  /** Text appended later does not change what was found, nor where the search gave up at a NUL. */
  lemma {:induction false} StrChrAppend(s: string, p: nat, c: char, b: string)
    requires p <= |s| && c != NUL
    ensures StrChr(s, p, c).Some? ==> StrChr(s + b, p, c) == StrChr(s, p, c)
    decreases |s| - p
  {
    if p < |s| && s[p] != c && s[p] != NUL {
      StrChrAppend(s, p + 1, c, b);
    }
  }

  lemma {:induction false} StrChrSkips(s: string, p: nat, q: nat, c: char)
    requires p <= q < |s| && c != NUL && s[q] == c
    requires forall i :: p <= i < q ==> s[i] != c && s[i] != NUL
    ensures StrChr(s, p, c) == Some(q)
    decreases q - p
  {
    if p < q {
      StrChrSkips(s, p + 1, q, c);
    }
  }

  /** Nothing in front of what was found is it, or a NUL. */
  lemma {:induction false} StrChrPasses(s: string, p: nat, c: char)
    requires p <= |s| && c != NUL && StrChr(s, p, c).Some?
    ensures forall i :: p <= i < StrChr(s, p, c).value ==> s[i] != c && s[i] != NUL
    decreases |s| - p
  {
    if s[p] != c {
      StrChrPasses(s, p + 1, c);
    }
  }

  /** A search from p in `s` is a search from the start of the rest of `s`. */
  lemma {:induction false} StrChrShift(s: string, p: nat, q: nat, c: char)
    requires p <= q <= |s| && c != NUL
    ensures StrChr(s[p..], q - p, c) == match StrChr(s, q, c) case None => None case Some(i) => Some(i - p)
    decreases |s| - q
  {
    if q < |s| {
      StrChrShift(s, p, q + 1, c);
    }
  }

  /** The text `t` stands in `s` at position p. */
  ghost predicate StandsAt(s: string, p: nat, t: string)
  {
    p + |t| <= |s| && s[p..p + |t|] == t
  }

  lemma StandsAtSplit(s: string, p: nat, a: string, b: string)
    requires StandsAt(s, p, a + b)
    ensures StandsAt(s, p, a) && StandsAt(s, p + |a|, b)
  {
    assert s[p..p + |a|] == s[p..p + |a + b|][..|a|] == (a + b)[..|a|];
    assert s[p + |a|..p + |a + b|] == s[p..p + |a + b|][|a|..] == (a + b)[|a|..];
  }

  lemma StandsAtChar(s: string, p: nat, t: string, i: nat)
    requires StandsAt(s, p, t) && i < |t|
    ensures s[p + i] == t[i]
  {
    assert s[p..p + |t|][i] == t[i];
  }

  function Repeat(c: char, n: nat): (r: string)
    ensures |r| == n && forall i :: 0 <= i < n ==> r[i] == c
  {
    if n == 0 then [] else Repeat(c, n - 1) + [c]
  }
}
