/** JSON trees and their text: the printers of src/common/cJSON.c, which compute the size of their
    buffer before they fill it.
 */
module JsonPrint {
  import opened CStrings
  import Decimal
  import opened JsonStrings

  const INT_MIN: int := -0x8000_0000
  const INT_MAX: int := 0x7FFF_FFFF

  datatype Json =
    | Null
    | False
    | True
    | Number(n: int)
    | String(s: string)
    | Array(items: seq<Json>)
    | Object(members: seq<Member>)

  datatype Member = Member(name: string, value: Json)

  /** Trees the library can hold: `int` numbers and C strings. */
  ghost predicate IsTree(j: Json)
  {
    match j
    case Number(n) => INT_MIN <= n <= INT_MAX
    case String(s) => NulFree(s)
    case Array(items) => forall i :: 0 <= i < |items| ==> IsTree(items[i])
    case Object(members) => forall i :: 0 <= i < |members| ==> NulFree(members[i].name) && IsTree(members[i].value)
    case _ => true
  }

  // ---- the text of a tree ----

  function If(fmt: bool, s: string): string
  {
    if fmt then s else []
  }

  function Tabs(n: int): string
  {
    if n <= 0 then [] else Repeat('\t', n)
  }

  /** One line of a formatted object, or one member of an unformatted one. */
  function MemberText(name: string, entry: string, depth: nat, fmt: bool, more: bool): string
  {
    If(fmt, Tabs(depth)) + name + ":" + If(fmt, "\t") + entry + (if more then "," else []) + If(fmt, "\n")
  }

  function Printed(j: Json, depth: nat, fmt: bool): string
    decreases j
  {
    match j
    case Null => "null"
    case False => "false"
    case True => "true"
    case Number(n) => Decimal.ToDecimal(n)
    case String(s) => Literal(s)
    case Array(items) => if items == [] then "[]" else "[" + PrintedItems(items, depth + 1, fmt) + "]"
    case Object(members) =>
      if members == [] then "{" + If(fmt, "\n" + Tabs(depth - 1)) + "}"
      else "{" + If(fmt, "\n") + PrintedMembers(members, depth + 1, fmt) + If(fmt, Tabs(depth)) + "}"
  }

  function PrintedItems(items: seq<Json>, depth: nat, fmt: bool): string
    decreases items
  {
    if items == [] then []
    else Printed(items[0], depth, fmt) + (if |items| > 1 then "," + If(fmt, " ") else [])
         + PrintedItems(items[1..], depth, fmt)
  }

  function PrintedMembers(members: seq<Member>, depth: nat, fmt: bool): string
    decreases members
  {
    if members == [] then []
    else MemberText(Literal(members[0].name), Printed(members[0].value, depth, fmt), depth, fmt, |members| > 1)
         + PrintedMembers(members[1..], depth, fmt)
  }

  lemma TextIsNulFree(n: int)
    ensures NulFree(Decimal.ToDecimal(n)) && NulFree(Tabs(n))
  {
    Decimal.ValueOfDigits(if n < 0 then -n else n);
  }

  /** A printed text has no NUL inside, so it is as long as `strlen` says. */
  lemma {:induction false} PrintedIsNulFree(j: Json, depth: nat, fmt: bool)
    requires IsTree(j)
    ensures NulFree(Printed(j, depth, fmt))
    decreases j
  {
    hide Literal, Decimal.ToDecimal, Tabs;
    match j
    case Number(n) => TextIsNulFree(n);
    case Array(items) => ItemsAreNulFree(items, depth + 1, fmt);
    case Object(members) =>
      TextIsNulFree(depth);
      TextIsNulFree(depth - 1);
      MembersAreNulFree(members, depth + 1, fmt);
    case _ =>
  }

  lemma {:induction false} ItemsAreNulFree(items: seq<Json>, depth: nat, fmt: bool)
    requires forall i :: 0 <= i < |items| ==> IsTree(items[i])
    ensures NulFree(PrintedItems(items, depth, fmt))
    decreases items
  {
    hide Printed;
    if items != [] {
      PrintedIsNulFree(items[0], depth, fmt);
      ItemsAreNulFree(items[1..], depth, fmt);
    }
  }

  lemma {:induction false} MembersAreNulFree(members: seq<Member>, depth: nat, fmt: bool)
    requires forall i :: 0 <= i < |members| ==> NulFree(members[i].name) && IsTree(members[i].value)
    ensures NulFree(PrintedMembers(members, depth, fmt))
    decreases members
  {
    hide Printed, Literal, Tabs;
    if members != [] {
      TextIsNulFree(depth);
      PrintedIsNulFree(members[0].value, depth, fmt);
      MembersAreNulFree(members[1..], depth, fmt);
    }
  }

  // ---- sizes ----

  function Total(sizes: seq<nat>): nat
  {
    if sizes == [] then 0 else sizes[0] + Total(sizes[1..])
  }

  lemma {:induction false} TotalSnoc(sizes: seq<nat>, n: nat)
    ensures Total(sizes + [n]) == Total(sizes) + n
  {
    if sizes == [] {
      assert sizes + [n] == [n];
    } else {
      TotalSnoc(sizes[1..], n);
      assert (sizes + [n])[1..] == sizes[1..] + [n];
    }
  }

  lemma TotalTail(sizes: seq<nat>, i: nat)
    requires i < |sizes|
    ensures Total(sizes[i..]) == sizes[i] + Total(sizes[i + 1..])
  {
    assert sizes[i..][1..] == sizes[i + 1..];
  }

  // ---- the printers ----

  method PrintNumber(n: int) returns (text: string)
    requires INT_MIN <= n <= INT_MAX
    ensures text == Decimal.ToDecimal(n)
  {
    var str := new char[Decimal.SDS_LLSTR_SIZE];
    var l := Decimal.LLToStr(str, n);
    text := str[..l];
  }

  method PutTabs(out: array<char>, ptr: nat, n: int) returns (end: nat)
    requires ptr + |Tabs(n)| <= out.Length
    modifies out
    ensures end == ptr + |Tabs(n)| && out[..end] == old(out[..ptr]) + Tabs(n)
  {
    end := ptr;
    var j := 0;
    while j < n
      invariant 0 <= j && (n >= 0 ==> j <= n) && end == ptr + j && (n < 0 ==> j == 0)
      invariant end <= out.Length && out[..end] == old(out[..ptr]) + Tabs(j)
    {
      assert Tabs(j + 1) == Tabs(j) + "\t";
      end := PutChar(out, end, '\t');
      j := j + 1;
    }
  }

  method PutIf(fmt: bool, out: array<char>, ptr: nat, c: char) returns (end: nat)
    requires ptr < out.Length
    modifies out
    ensures end == ptr + |If(fmt, [c])| && out[..end] == old(out[..ptr]) + If(fmt, [c])
  {
    end := ptr;
    if fmt { end := PutChar(out, ptr, c); }
  }

  method PrintValue(j: Json, depth: nat, fmt: bool) returns (text: string)
    requires IsTree(j)
    ensures text == Printed(j, depth, fmt) && NulFree(text)
    decreases j, 1
  {
    PrintedIsNulFree(j, depth, fmt);
    match j {
      case Null => text := "null";
      case False => text := "false";
      case True => text := "true";
      case Number(n) => text := PrintNumber(n);
      case String(s) => text := PrintStringPtr(s);
      case Array(items) => text := PrintArray(j, depth, fmt);
      case Object(members) => text := PrintObject(j, depth, fmt);
    }
  }

  // The texts of the entries, and the buffer size they ask for.
  method PrintEntries(j: Json, depth: nat, fmt: bool) returns (entries: array<string>, len: nat, ghost sizes: seq<nat>)
    requires j.Array? && IsTree(j)
    ensures fresh(entries) && entries.Length == |sizes| == |j.items| && len == 5 + Total(sizes)
    ensures forall i :: 0 <= i < |sizes| ==> entries[i] == Printed(j.items[i], depth, fmt) && NulFree(entries[i])
    ensures forall i :: 0 <= i < |sizes| ==> sizes[i] == |entries[i]| + 2 + if fmt then 1 else 0
    decreases j, 0, 0
  {
    hide Printed;
    entries := new string[|j.items|];
    len, sizes := 5, [];
    var i := 0;
    while i < |j.items|
      invariant i <= |j.items| && fresh(entries) && entries.Length == |j.items| && |sizes| == i && len == 5 + Total(sizes)
      invariant forall k :: 0 <= k < i ==> entries[k] == Printed(j.items[k], depth, fmt) && NulFree(entries[k])
      invariant forall k :: 0 <= k < i ==> sizes[k] == |entries[k]| + 2 + if fmt then 1 else 0
    {
      var ret := PrintValue(j.items[i], depth, fmt);
      entries[i] := ret;
      TotalSnoc(sizes, |ret| + 2 + if fmt then 1 else 0);
      sizes := sizes + [|ret| + 2 + if fmt then 1 else 0];
      len := len + |ret| + 2 + if fmt then 1 else 0;
      i := i + 1;
    }
  }

  method PrintArray(j: Json, depth: nat, fmt: bool) returns (text: string)
    requires j.Array? && IsTree(j)
    ensures text == Printed(j, depth, fmt)
    decreases j, 0
  {
    var items := j.items;
    if |items| == 0 {
      var out := new char[3];
      var l := StrCpy(out, 0, "[]");
      return out[..l];
    }
    ghost var sizes;
    var entries, len;
    entries, len, sizes := PrintEntries(j, depth + 1, fmt);
    text := ComposeArray(items, depth + 1, fmt, entries, len, sizes);
  }

  lemma ItemsNext(w: string, items: seq<Json>, i: nat, depth: nat, fmt: bool)
    requires i < |items|
    ensures w + PrintedItems(items[i..], depth, fmt)
         == w + Printed(items[i], depth, fmt) + (if i != |items| - 1 then "," + If(fmt, " ") else [])
            + PrintedItems(items[i + 1..], depth, fmt)
  {
    hide Printed;
    assert items[i..][1..] == items[i + 1..];
  }

  // One entry and what stands behind it.
  method PutEntry(out: array<char>, start: nat, entry: string, fmt: bool, more: bool) returns (ptr: nat)
    requires NulFree(entry) && start + |entry| + 2 < out.Length
    modifies out
    ensures ptr == start + |entry| + if more then 1 + |If(fmt, " ")| else 0
    ensures out[..ptr] == old(out[..start]) + entry + if more then "," + If(fmt, " ") else []
  {
    ptr := StrCpy(out, start, entry);
    if more {
      ptr := PutChar(out, ptr, ',');
      ptr := PutIf(fmt, out, ptr, ' ');
    }
  }

  // Compose the text in a buffer of the size computed before.
  method ComposeArray(items: seq<Json>, depth: nat, fmt: bool, entries: array<string>, len: nat, ghost sizes: seq<nat>)
    returns (text: string)
    requires entries.Length == |sizes| == |items| && len == 5 + Total(sizes)
    requires forall i :: 0 <= i < |sizes| ==> entries[i] == Printed(items[i], depth, fmt) && NulFree(entries[i])
    requires forall i :: 0 <= i < |sizes| ==> sizes[i] == |entries[i]| + 2 + if fmt then 1 else 0
    ensures text == "[" + PrintedItems(items, depth, fmt) + "]"
  {
    hide Printed;
    var out := new char[len];
    var ptr := PutChar(out, 0, '[');
    var i := 0;
    assert items[0..] == items && sizes[0..] == sizes;
    while i < |items|
      invariant i <= |items| && 0 <= ptr && ptr + Total(sizes[i..]) + 4 <= len
      invariant out[..ptr] + PrintedItems(items[i..], depth, fmt) == "[" + PrintedItems(items, depth, fmt)
    {
      TotalTail(sizes, i);
      ItemsNext(out[..ptr], items, i, depth, fmt);
      ptr := PutEntry(out, ptr, entries[i], fmt, i != |items| - 1);
      i := i + 1;
    }
    assert items[i..] == [];
    ptr := PutChar(out, ptr, ']');
    text := out[..ptr];
    ptr := PutChar(out, ptr, NUL);
  }

  method PrintEmptyObject(depth: nat, fmt: bool) returns (text: string)
    ensures text == Printed(Object([]), depth, fmt)
  {
    var out := new char[if fmt then depth + 4 else 3];
    var ptr := PutChar(out, 0, '{');
    if fmt {
      ptr := PutChar(out, ptr, '\n');
      ptr := PutTabs(out, ptr, depth - 1);
    }
    ptr := PutChar(out, ptr, '}');
    text := out[..ptr];
    ptr := PutChar(out, ptr, NUL);
  }

  /** What one member is counted with. */
  function MemberSize(name: string, entry: string, depth: nat, fmt: bool): nat
  {
    |entry| + |name| + 2 + if fmt then 2 + depth else 0
  }

  method PrintMembers(j: Json, depth: nat, fmt: bool)
    returns (names: array<string>, entries: array<string>, len: nat, ghost sizes: seq<nat>)
    requires j.Object? && IsTree(j)
    ensures fresh(names) && fresh(entries) && names.Length == entries.Length == |sizes| == |j.members|
    ensures len == 7 + (if fmt then depth else 0) + Total(sizes)
    ensures forall i :: 0 <= i < |sizes| ==>
        names[i] == Literal(j.members[i].name) && entries[i] == Printed(j.members[i].value, depth, fmt)
    ensures forall i :: 0 <= i < |sizes| ==> NulFree(names[i]) && NulFree(entries[i])
    ensures forall i :: 0 <= i < |sizes| ==> sizes[i] == MemberSize(names[i], entries[i], depth, fmt)
    decreases j, 0, 0
  {
    hide Printed, Literal;
    names := new string[|j.members|];
    entries := new string[|j.members|];
    len, sizes := 7, [];
    if fmt { len := len + depth; }
    var i := 0;
    while i < |j.members|
      invariant i <= |j.members| && fresh(names) && fresh(entries) && names != entries
      invariant names.Length == entries.Length == |j.members| && |sizes| == i
      invariant len == 7 + (if fmt then depth else 0) + Total(sizes)
      invariant forall k :: 0 <= k < i ==>
          names[k] == Literal(j.members[k].name) && entries[k] == Printed(j.members[k].value, depth, fmt)
      invariant forall k :: 0 <= k < i ==> NulFree(names[k]) && NulFree(entries[k])
      invariant forall k :: 0 <= k < i ==> sizes[k] == MemberSize(names[k], entries[k], depth, fmt)
    {
      var str := PrintStringPtr(j.members[i].name);
      names[i] := str;
      var ret := PrintValue(j.members[i].value, depth, fmt);
      entries[i] := ret;
      TotalSnoc(sizes, MemberSize(str, ret, depth, fmt));
      sizes := sizes + [MemberSize(str, ret, depth, fmt)];
      len := len + |ret| + |str| + 2 + if fmt then 2 + depth else 0;
      i := i + 1;
    }
  }

  method PrintObject(j: Json, depth: nat, fmt: bool) returns (text: string)
    requires j.Object? && IsTree(j)
    ensures text == Printed(j, depth, fmt)
    decreases j, 0
  {
    if |j.members| == 0 {
      text := PrintEmptyObject(depth, fmt);
      return;
    }
    ghost var sizes;
    var names, entries, len;
    names, entries, len, sizes := PrintMembers(j, depth + 1, fmt);
    text := ComposeObject(j.members, depth + 1, fmt, names, entries, len, sizes);
  }

  lemma MembersNext(w: string, members: seq<Member>, i: nat, depth: nat, fmt: bool)
    requires i < |members|
    ensures w + PrintedMembers(members[i..], depth, fmt)
         == w + MemberText(Literal(members[i].name), Printed(members[i].value, depth, fmt), depth, fmt, i != |members| - 1)
            + PrintedMembers(members[i + 1..], depth, fmt)
  {
    hide MemberText, Printed, Literal;
    assert members[i..][1..] == members[i + 1..];
  }

  lemma MembersDone(w: string, members: seq<Member>, depth: nat, fmt: bool)
    ensures w + PrintedMembers(members[|members|..], depth, fmt) == w
  {
  }

  lemma TabsLength(n: int)
    ensures |Tabs(n)| == if n <= 0 then 0 else n
  {
  }

  method ComposeObject(members: seq<Member>, depth: nat, fmt: bool, names: array<string>, entries: array<string>,
                       len: nat, ghost sizes: seq<nat>)
    returns (text: string)
    requires depth > 0 && names.Length == entries.Length == |sizes| == |members|
    requires len == 7 + (if fmt then depth else 0) + Total(sizes)
    requires forall i :: 0 <= i < |sizes| ==>
        names[i] == Literal(members[i].name) && entries[i] == Printed(members[i].value, depth, fmt)
    requires forall i :: 0 <= i < |sizes| ==> NulFree(names[i]) && NulFree(entries[i])
    requires forall i :: 0 <= i < |sizes| ==> sizes[i] == MemberSize(names[i], entries[i], depth, fmt)
    ensures text == "{" + If(fmt, "\n") + PrintedMembers(members, depth, fmt) + If(fmt, Tabs(depth - 1)) + "}"
  {
    hide Printed, PrintedMembers, Literal, MemberText, Tabs;
    var out := new char[len];
    var ptr := PutChar(out, 0, '{');
    ptr := PutIf(fmt, out, ptr, '\n');
    var i := 0;
    ghost var opening := out[..ptr];
    assert opening == "{" + If(fmt, "\n");
    assert members[0..] == members && sizes[0..] == sizes;
    while i < |members|
      invariant i <= |members| && 0 <= ptr && ptr + Total(sizes[i..]) + (if fmt then depth + 5 else 5) <= len
      invariant out[..ptr] + PrintedMembers(members[i..], depth, fmt) == opening + PrintedMembers(members, depth, fmt)
    {
      TotalTail(sizes, i);
      MembersNext(out[..ptr], members, i, depth, fmt);
      ptr := PutMember(out, ptr, names[i], entries[i], depth, fmt, i != |members| - 1);
      i := i + 1;
    }
    MembersDone(out[..ptr], members, depth, fmt);
    ghost var body := out[..ptr];
    if fmt {
      TabsLength(depth - 1);
      ptr := PutTabs(out, ptr, depth - 1);
    }
    assert out[..ptr] == body + If(fmt, Tabs(depth - 1));
    ptr := PutChar(out, ptr, '}');
    text := out[..ptr];
    ptr := PutChar(out, ptr, NUL);
  }

  lemma Grown(w: string, x: string, piece: string) returns (y: string)
    ensures y == x + piece && w + x + piece == w + y
  {
    y := x + piece;
  }

  method PutMember(out: array<char>, start: nat, name: string, entry: string, depth: nat, fmt: bool, more: bool)
    returns (ptr: nat)
    requires NulFree(name) && NulFree(entry) && start + MemberSize(name, entry, depth, fmt) < out.Length
    modifies out
    ensures ptr <= start + MemberSize(name, entry, depth, fmt)
    ensures out[..ptr] == old(out[..start]) + MemberText(name, entry, depth, fmt, more)
  {
    ptr := start;
    if fmt { ptr := PutTabs(out, ptr, depth); }
    ghost var w, x := old(out[..start]), If(fmt, Tabs(depth));
    assert out[..ptr] == w + x;
    ptr := StrCpy(out, ptr, name);
    x := Grown(w, x, name);
    ptr := PutChar(out, ptr, ':');
    x := Grown(w, x, ":");
    ptr := PutIf(fmt, out, ptr, '\t');
    x := Grown(w, x, If(fmt, "\t"));
    ptr := StrCpy(out, ptr, entry);
    x := Grown(w, x, entry);
    ptr := PutIf(more, out, ptr, ',');
    x := Grown(w, x, if more then "," else []);
    ptr := PutIf(fmt, out, ptr, '\n');
    x := Grown(w, x, If(fmt, "\n"));
  }
}
