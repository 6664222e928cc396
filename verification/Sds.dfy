/** The string buffer of src/common/sds.c: a length, the free space behind it, and a byte array
    that always holds a NUL after the string.
 */
module Sds {
  import CStrings

  const SDS_MAX_PREALLOC: nat := 1048576

  function Clamp(i: int, len: nat): nat
  {
    if i >= 0 then i else if len + i >= 0 then len + i else 0
  }

  /** The part from index `start` to index `end`, both included; negative indexes count from the
      end of the string. */
  function RangeOf(s: string, start: int, end: int): string
  {
    var i := Clamp(start, |s|);
    var j := Clamp(end, |s|);
    if i > j || i >= |s| then [] else if j >= |s| then s[i..] else s[i..j + 1]
  }

  lemma RangeToEnd(s: string, pos: nat)
    ensures RangeOf(s, pos, -1) == if pos <= |s| then s[pos..] else []
  {
  }

  /** Position k of a string is neither in front of the start nor behind the end, counted from the end
      of the string if they are negative; an end in front of the string is its first position. */
  predicate InRange(k: nat, len: nat, start: int, end: int)
  {
    && (if start < 0 then k - len >= start else k >= start)
    && (if end < 0 then k - len <= end || (k == 0 && end + len < 0) else k <= end)
  }

  /** Exactly the positions in the range are kept. */
  lemma RangeKeepsPositions(s: string, start: int, end: int) returns (first: nat, n: nat)
    ensures first + n <= |s| && RangeOf(s, start, end) == s[first..first + n]
    ensures forall k :: 0 <= k < |s| ==> (InRange(k, |s|, start, end) <==> first <= k < first + n)
  {
    first, n := 0, |RangeOf(s, start, end)|;
    if n > 0 { first := Clamp(start, |s|); }
  }

  lemma RangeOfEmpty(start: int, end: int)
    ensures RangeOf([], start, end) == []
  {
  }

  class Sds {
    var len: nat
    var free: nat
    var buf: array<char>

    ghost predicate Valid()
      reads this, buf
    {
      buf.Length == len + free + 1 && buf[len] == CStrings.NUL
    }

    function Contents(): string
      requires Valid()
      reads this, buf
    {
      buf[..len]
    }

    constructor NewLen(init: string)
      ensures Valid() && fresh(buf) && Contents() == init && free == 0
    {
      var b := new char[|init| + 1](i => if 0 <= i < |init| then init[i] else CStrings.NUL);
      len, free, buf := |init|, 0, b;
      new;
      assert buf[..len] == init;
    }

    /** Room for `addlen` more bytes, allocated with as much again to spare. */
    method MakeRoomFor(addlen: nat)
      requires Valid()
      modifies this`free, this`buf
      ensures Valid() && Contents() == old(Contents()) && free >= addlen
      ensures old(free) >= addlen ==> buf == old(buf) && free == old(free)
      ensures old(free) < addlen ==> fresh(buf)
      ensures old(free) < addlen ==> free - addlen == if len + addlen < 1048576 then len + addlen else 1048576
    {
      if free >= addlen {
        return;
      }
      var newlen := len + addlen;
      if newlen < SDS_MAX_PREALLOC {
        newlen := newlen * 2;
      } else {
        newlen := newlen + SDS_MAX_PREALLOC;
      }
      var old_buf, n := buf, len;
      var b := new char[newlen + 1](i reads old_buf => if 0 <= i <= n && n < old_buf.Length then old_buf[i] else CStrings.NUL);
      buf := b;
      free := newlen - len;
    }

    /** Append bytes. */
    method CatLen(t: string)
      requires Valid()
      modifies this, buf
      ensures Valid() && Contents() == old(Contents()) + t
      ensures buf == old(buf) || fresh(buf)
    {
      var curlen := len;
      MakeRoomFor(|t|);
      ghost var before := Contents();
      forall i | 0 <= i < |t| {
        buf[curlen + i] := t[i];
      }
      len := curlen + |t|;
      free := free - |t|;
      buf[len] := CStrings.NUL;
      assert buf[..len] == before + t;
    }

    // The index computation of sdsrange, on a string of this length.
    static method RangeBounds(ghost s: string, len: nat, from: int, to: int) returns (start: nat, newlen: nat)
      requires len == |s| > 0
      ensures start + newlen <= len && RangeOf(s, from, to) == s[start..start + newlen]
    {
      var first, end := from, to;
      if first < 0 {
        first := len + first;
        if first < 0 { first := 0; }
      }
      if end < 0 {
        end := len + end;
        if end < 0 { end := 0; }
      }
      newlen := if first > end then 0 else end - first + 1;
      if newlen != 0 {
        if first >= len {
          newlen := 0;
        } else if end >= len {
          end := len - 1;
          newlen := end - first + 1;  // the source tests again for first > end, which first < len rules out
        }
      } else {
        first := 0;
      }
      start := if newlen == 0 then 0 else first;
    }

    /** Keep only the part from `start` to `end`, moved to the front of the same array. */
    method Range(start: int, end: int)
      requires Valid()
      modifies this`len, this`free, buf
      ensures Valid() && Contents() == RangeOf(old(Contents()), start, end)
    {
      hide RangeOf;
      if len == 0 {
        RangeOfEmpty(start, end);
        return;
      }
      ghost var before := Contents();
      var from, newlen := RangeBounds(before, len, start, end);
      if from != 0 && newlen != 0 {
        forall i | 0 <= i < newlen {
          buf[i] := buf[from + i];
        }
      }
      assert forall i :: 0 <= i < newlen ==> buf[i] == before[from + i];
      buf[newlen] := CStrings.NUL;
      free := free + (len - newlen);
      len := newlen;
      assert buf[..newlen] == before[from..from + newlen];
    }

    /** Empty the string and keep its space. */
    method Clear()
      requires Valid()
      modifies this`len, this`free, buf
      ensures Valid() && Contents() == []
    {
      free := free + len;
      len := 0;
      buf[0] := CStrings.NUL;
    }
  }
}
