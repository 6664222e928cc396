/** The linked structure of src/common/ght_hash_table.c: every entry sits on two doubly linked
    lists at once, its bucket chain and the age list of the whole table.

    Each method is proved against the operation of the same name in `GhtModel`.
 */
module GhtTable {
  import opened CStrings
  import opened GhtModel

  class Entry<D> {
    const key: Key
    var data: Option<D>
    var next: Entry?<D>
    var prev: Entry?<D>
    var older: Entry?<D>
    var newer: Entry?<D>

    constructor (key: Key, data: Option<D>)
      ensures this.key == key && this.data == data
      ensures next == null && prev == null && older == null && newer == null
    {
      this.key, this.data := key, data;
      next, prev, older, newer := null, null, null, null;
    }
  }

  ghost function Nodes<D>(s: seq<Entry<D>>): set<Entry<D>>
  {
    set e | e in s
  }

  ghost function Keys<D>(s: seq<Entry<D>>): (r: seq<Key>)
    ensures |r| == |s| && forall i :: 0 <= i < |s| ==> r[i] == s[i].key
  {
    seq(|s|, i requires 0 <= i < |s| => s[i].key)
  }

  /** The node at a position, NULL off either end. */
  ghost function Nth<D>(s: seq<Entry<D>>, i: int): Entry?<D>
  {
    if 0 <= i < |s| then s[i] else null
  }

  /** `next` and `prev` thread exactly the nodes of `s`, in order, from `head`. */
  ghost predicate Chained<D>(head: Entry?<D>, s: seq<Entry<D>>)
    reads Nodes(s)`next, Nodes(s)`prev
  {
    && head == Nth(s, 0)
    && (forall i {:trigger s[i].next} :: 0 <= i < |s| ==> s[i].next == Nth(s, i + 1))
    && (forall i {:trigger s[i].prev} :: 0 <= i < |s| ==> s[i].prev == Nth(s, i - 1))
  }

  /** `newer` and `older` thread exactly the nodes of `s`, from the oldest to the newest. */
  ghost predicate Aged<D>(oldest: Entry?<D>, newest: Entry?<D>, s: seq<Entry<D>>)
    reads Nodes(s)`newer, Nodes(s)`older
  {
    && oldest == Nth(s, 0) && newest == Nth(s, |s| - 1)
    && (forall i {:trigger s[i].newer} :: 0 <= i < |s| ==> s[i].newer == Nth(s, i + 1))
    && (forall i {:trigger s[i].older} :: 0 <= i < |s| ==> s[i].older == Nth(s, i - 1))
  }

  /** A chain, its head, its length count and the keys it stands for. */
  ghost predicate Bucket<D>(head: Entry?<D>, count: int, s: seq<Entry<D>>, keys: seq<Key>)
    reads Nodes(s)`next, Nodes(s)`prev
  {
    Keys(s) == keys && count == |s| && Chained(head, s)
  }

  /** The age list and the data its nodes hold. */
  ghost predicate AgeListOk<D>(oldest: Entry?<D>, newest: Entry?<D>, s: seq<Entry<D>>, age: seq<Key>,
                               data: map<Key, Option<D>>)
    reads Nodes(s)`newer, Nodes(s)`older, Nodes(s)`data
  {
    && Keys(s) == age && Aged(oldest, newest, s)
    && forall e :: e in s ==> e.key in data && e.data == data[e.key]
  }

  /** All the chains, made of the nodes of the age list. */
  ghost predicate BucketsOk<D>(entries: array<Entry?<D>>, nr: array<int>, chains: seq<seq<Entry<D>>>,
                               buckets: seq<seq<Key>>, nodes: set<Entry<D>>)
    reads entries, nr, nodes`next, nodes`prev
  {
    && entries.Length == nr.Length == |chains| == |buckets|
    && (forall b :: 0 <= b < |chains| ==> Nodes(chains[b]) <= nodes)
    && (forall b :: 0 <= b < |chains| ==> Bucket(entries[b], nr[b], chains[b], buckets[b]))
  }

  lemma OpenBucket<D>(head: Entry?<D>, count: int, s: seq<Entry<D>>, keys: seq<Key>)
    requires Bucket(head, count, s, keys)
    ensures Keys(s) == keys && count == |s| && Chained(head, s)
  {
  }

  lemma CloseBucket<D>(head: Entry?<D>, count: int, s: seq<Entry<D>>, keys: seq<Key>)
    requires Keys(s) == keys && count == |s| && Chained(head, s)
    ensures Bucket(head, count, s, keys)
  {
  }

  ghost function Cut<T>(s: seq<T>, i: nat): (r: seq<T>)
    requires i < |s|
    ensures |r| == |s| - 1 && forall j :: 0 <= j < |r| ==> r[j] == s[if j < i then j else j + 1]
  {
    s[..i] + s[i + 1..]
  }

  ghost predicate OnlyAt<T>(s: seq<T>, i: int)
  {
    0 <= i < |s| ==> forall j :: 0 <= j < |s| && s[j] == s[i] ==> j == i
  }

  // The nodes next to position i occur nowhere else.
  lemma Neighbours<T>(s: seq<T>, i: int)
    requires Distinct(s)
    ensures OnlyAt(s, 0) && OnlyAt(s, i - 2) && OnlyAt(s, i - 1) && OnlyAt(s, i) && OnlyAt(s, i + 1)
  {
  }

  lemma NthOfCut<D>(s: seq<Entry<D>>, i: nat, j: int)
    requires i < |s|
    ensures Nth(Cut(s, i), j) == if j < i then Nth(s, j) else Nth(s, j + 1)
  {
  }

  // Unlinking the node at i leaves a list if its two neighbours now point past it.
  lemma ChainedCut<D>(head: Entry?<D>, s: seq<Entry<D>>, i: nat)
    requires i < |s| && head == (if i == 0 then Nth(s, 1) else s[0])
    requires forall k {:trigger s[k].next} :: 0 <= k < |s| && k != i ==> s[k].next == Nth(s, if k == i - 1 then i + 1 else k + 1)
    requires forall k {:trigger s[k].prev} :: 0 <= k < |s| && k != i ==> s[k].prev == Nth(s, if k == i + 1 then i - 1 else k - 1)
    ensures Chained(head, Cut(s, i))
  {
    var r := Cut(s, i);
    NthOfCut(s, i, 0);
    forall j | 0 <= j < |r| ensures r[j].next == Nth(r, j + 1) && r[j].prev == Nth(r, j - 1) {
      NthOfCut(s, i, j - 1);
      NthOfCut(s, i, j);
      NthOfCut(s, i, j + 1);
    }
  }

  // Moving the node at i > 0 to the front leaves a list if it and its neighbours are relinked.
  lemma ChainedFront<D>(s: seq<Entry<D>>, i: nat)
    requires 0 < i < |s| && s[i].next == s[0] && s[i].prev == null && s[0].prev == s[i]
    requires forall k {:trigger s[k].next} :: 0 <= k < |s| && k != i ==> s[k].next == Nth(s, if k == i - 1 then i + 1 else k + 1)
    requires forall k {:trigger s[k].prev} :: 0 < k < |s| && k != i ==> s[k].prev == Nth(s, if k == i + 1 then i - 1 else k - 1)
    ensures Chained(s[i], [s[i]] + Cut(s, i))
  {
    var r := [s[i]] + Cut(s, i);
    forall j | 0 <= j < |r| ensures r[j].next == Nth(r, j + 1) && r[j].prev == Nth(r, j - 1) {
      NthOfCut(s, i, j - 2);
      NthOfCut(s, i, j - 1);
      NthOfCut(s, i, j);
    }
  }

  lemma FrontCut<T>(s: seq<T>)
    requires s != []
    ensures [s[0]] + Cut(s, 0) == s
  {
  }

  // The ends of the age list after unlinking the node at i.
  lemma AgedCutEnds<D>(s: seq<Entry<D>>, i: nat)
    requires i < |s|
    ensures Nth(Cut(s, i), 0) == if i == 0 then Nth(s, 1) else s[0]
    ensures Nth(Cut(s, i), |s| - 2) == if i == |s| - 1 then Nth(s, i - 1) else s[|s| - 1]
  {
    NthOfCut(s, i, 0);
    NthOfCut(s, i, |s| - 2);
  }

  // One node of the age list after unlinking the node at i.
  lemma AgedCutAt<D>(s: seq<Entry<D>>, i: nat, j: nat)
    requires i < |s| && j < |s| - 1
    requires forall k {:trigger s[k].newer} :: 0 <= k < |s| && k != i ==> s[k].newer == Nth(s, if k == i - 1 then i + 1 else k + 1)
    requires forall k {:trigger s[k].older} :: 0 <= k < |s| && k != i ==> s[k].older == Nth(s, if k == i + 1 then i - 1 else k - 1)
    ensures Cut(s, i)[j].newer == Nth(Cut(s, i), j + 1)
    ensures Cut(s, i)[j].older == Nth(Cut(s, i), j - 1)
  {
    hide Cut, Nth;
    NthOfCut(s, i, j - 1);
    NthOfCut(s, i, j + 1);
    assert Cut(s, i)[j] == s[if j < i then j else j + 1];
  }

  lemma AgedCut<D>(oldest: Entry?<D>, newest: Entry?<D>, s: seq<Entry<D>>, i: nat)
    requires i < |s| && oldest == (if i == 0 then Nth(s, 1) else s[0])
    requires newest == (if i == |s| - 1 then Nth(s, i - 1) else s[|s| - 1])
    requires forall k {:trigger s[k].newer} :: 0 <= k < |s| && k != i ==> s[k].newer == Nth(s, if k == i - 1 then i + 1 else k + 1)
    requires forall k {:trigger s[k].older} :: 0 <= k < |s| && k != i ==> s[k].older == Nth(s, if k == i + 1 then i - 1 else k - 1)
    ensures Aged(oldest, newest, Cut(s, i))
  {
    hide Cut, Nth;
    AgedCutEnds(s, i);
    forall j | 0 <= j < |s| - 1
      ensures Cut(s, i)[j].newer == Nth(Cut(s, i), j + 1) && Cut(s, i)[j].older == Nth(Cut(s, i), j - 1)
    {
      AgedCutAt(s, i, j);
    }
  }

  lemma KeysOfCut<D>(s: seq<Entry<D>>, i: nat)
    requires i < |s| && Distinct(Keys(s))
    ensures Keys(Cut(s, i)) == Without(Keys(s), s[i].key)
    ensures IndexOf(Keys(s), s[i].key) == i
  {
    assert Keys(s)[i] == s[i].key;
    assert Keys(s)[IndexOf(Keys(s), s[i].key)] == s[i].key;
    assert Keys(Cut(s, i)) == Cut(Keys(s), i);
  }

  lemma NodesOfCut<D>(s: seq<Entry<D>>, i: nat)
    requires i < |s| && Distinct(Keys(s))
    ensures Nodes(Cut(s, i)) == Nodes(s) - {s[i]}
  {
    DistinctNodes(s);
    forall e | e in s && e != s[i] ensures e in Cut(s, i) {
      var k := IndexOf(s, e);
      assert Cut(s, i)[if k < i then k else k - 1] == e;
    }
  }

  lemma NodeIndex<D>(s: seq<Entry<D>>, i: nat)
    requires i < |s| && Distinct(s)
    ensures IndexOf(s, s[i]) == i
  {
  }

  // What the heuristics do to the chain of nodes they also do to its keys.
  lemma TouchAt<D>(h: Heuristics, s: seq<Entry<D>>, i: nat)
    requires i < |s| && Distinct(s) && Distinct(Keys(s))
    ensures var r := Touch(h, s, s[i]);
            && |r| == |s| && Nodes(r) == Nodes(s) && Keys(r) == Touch(h, Keys(s), s[i].key)
            && r == match h
                    case MoveToFront => [s[i]] + Cut(s, i)
                    case Transpose => if i == 0 then s else s[i := s[i - 1]][i - 1 := s[i]]
                    case NoHeuristics => s
  {
    var r := Touch(h, s, s[i]);
    KeysOfCut(s, i);
    NodeIndex(s, i);
    assert Keys(s)[i] == s[i].key;
    TouchDistinct(h, s, s[i]);
    assert Keys(r) == Touch(h, Keys(s), s[i].key);
  }

  lemma SameKeySameNode<D>(s: seq<Entry<D>>, x: Entry<D>, y: Entry<D>)
    requires Distinct(Keys(s)) && x in s && y in s && x.key == y.key
    ensures x == y
  {
    var i, j := IndexOf(s, x), IndexOf(s, y);
    assert Keys(s)[i] == Keys(s)[j];
  }

  lemma DistinctNodes<D>(s: seq<Entry<D>>)
    requires Distinct(Keys(s))
    ensures Distinct(s)
  {
    forall i, j | 0 <= i < j < |s| ensures s[i] != s[j] {
      assert Keys(s)[i] != Keys(s)[j];
    }
  }

  ghost predicate SameSettingsAndSize<D>(u: Table<D>, t: Table<D>)
  {
    && u.hash == t.hash && u.size == t.size && u.heuristics == t.heuristics
    && u.autoRehash == t.autoRehash && u.bucketLimit == t.bucketLimit
  }

  lemma UnlinkParts<D>(t: Table<D>, k: Key, b: nat) returns (u: Table<D>)
    requires WF(t) && b == BucketOf(t, k)
    ensures u == Unlink(t, k) && WF(u)
    ensures b < |t.buckets| && u.buckets == t.buckets[b := Without(t.buckets[b], k)] && u.age == Without(t.age, k)
    ensures u.data == t.data - {k} && SameSettingsAndSize(u, t)
  {
    u := Unlink(t, k);
    UnlinkWF(t, k);
  }

  lemma PlaceParts<D>(t: Table<D>, k: Key, d: Option<D>, b: nat) returns (u: Inserted<D>)
    requires WF(t) && b == BucketOf(t, k) && k !in t.data
    ensures Shape(t) && b < t.size && u == Place(t, k, d) && WF(u.table) && u.status == 0
    ensures k !in t.age
    ensures SameSettingsAndSize(u.table, t)
    ensures t.bucketLimit == 0 || |t.buckets[b]| < t.bucketLimit ==>
        && u.evicted == None && u.table.buckets == t.buckets[b := [k] + t.buckets[b]]
        && u.table.age == t.age + [k] && u.table.data == t.data[k := d]
    ensures t.bucketLimit != 0 && |t.buckets[b]| >= t.bucketLimit ==>
        var last := t.buckets[b][|t.buckets[b]| - 1];
        && last in t.age && last in t.data && u.evicted == Some((last, t.data[last])) && k !in Without(t.age, last)
        && Distinct(Without(t.age, last))
        && u.table.buckets == t.buckets[b := [k] + Without(t.buckets[b], last)]
        && u.table.age == Without(t.age, last) + [k] && u.table.data == (t.data - {last})[k := d]
  {
    hide Repeats, IsPowerOfTwo, Without;
    u := Place(t, k, d);
    PlaceWF(t, k, d);
    assert BucketOk(t, b);
    if t.bucketLimit != 0 && |t.buckets[b]| >= t.bucketLimit {
      var last := t.buckets[b][|t.buckets[b]| - 1];
      assert last in t.buckets[b];
      WithoutDistinct(t.age, last);
    }
  }

  lemma TouchNothing<D>(t: Table<D>, k: Key)
    requires WF(t)
    ensures TouchBucket(t, NoHeuristics, k) == t
  {
    assert t.buckets[BucketOf(t, k) := t.buckets[BucketOf(t, k)]] == t.buckets;
  }

  lemma InsertParts<D>(t: Table<D>, k: Key, d: Option<D>)
    requires WF(t)
    ensures k in t.data ==> GhtModel.Insert(t, k, d) == Inserted(-1, None, t)
    ensures k !in t.data ==>
        WF(MakeRoom(t)) && k !in MakeRoom(t).data && GhtModel.Insert(t, k, d) == Place(MakeRoom(t), k, d)
  {
    RehashWF(t, 2 * t.size);
  }

  // Without a bucket limit nothing is given up.
  lemma PlaceKeys<D>(t: Table<D>, k: Key, d: Option<D>)
    requires Shape(t) && t.bucketLimit == 0
    ensures var u := Place(t, k, d).table;
            Shape(u) && u.data == t.data[k := d] && u.autoRehash == t.autoRehash && u.bucketLimit == 0
  {
  }

  lemma RefillOne<D>(tmp: Table<D>, age: seq<Key>, data: map<Key, Option<D>>, i: nat)
    requires Shape(tmp) && Covered(age, data) && i < |age| && data[age[i]].Some?
    ensures Shape(Place(tmp, age[i], data[age[i]]).table)
    ensures Refill(tmp, age[i..], data) == Refill(Place(tmp, age[i], data[age[i]]).table, age[i + 1..], data)
  {
    assert age[i..][1..] == age[i + 1..];
  }

  lemma RefillEnds<D>(tmp: Table<D>, age: seq<Key>, data: map<Key, Option<D>>)
    requires Shape(tmp) && Covered(age, data) && (age == [] || data[age[0]] == None)
    ensures Refill(tmp, age, data) == tmp
  {
  }

  lemma NthInside<D>(s: seq<Entry<D>>)
    requires s != []
    ensures Nth(s, 0) == s[0] && Nth(s, 1) == Nth(s[1..], 0) && Keys(s) == [s[0].key] + Keys(s[1..])
  {
  }

  lemma DistinctParts<T>(s: seq<T>, t: seq<T>, x: T)
    requires Distinct(s + t) && x in s
    ensures x !in t
  {
    if x in t {
      assert (s + t)[IndexOf(s, x)] == (s + t)[|s| + IndexOf(t, x)];
    }
  }

  ghost predicate IsSuffix<T>(t: seq<T>, s: seq<T>)
  {
    |t| <= |s| && s[|s| - |t|..] == t
  }

  lemma SuffixSelf<T>(s: seq<T>)
    ensures IsSuffix(s, s)
  {
  }

  lemma SuffixTail<T>(t: seq<T>, s: seq<T>)
    requires IsSuffix(t, s) && t != []
    ensures |t| <= |s| && IsSuffix(t[1..], s)
  {
    assert s[|s| - |t|..][1..] == s[|s| - |t| + 1..];
  }

  lemma SuffixNth<D>(t: seq<Entry<D>>, s: seq<Entry<D>>, k: nat)
    requires IsSuffix(t, s)
    ensures |t| <= |s| && Nth(s, |s| - |t| + k) == Nth(t, k)
  {
    if k < |t| { assert s[|s| - |t|..][k] == t[k]; }
  }

  // Unlinking a node that is not in a suffix leaves the suffix in place.
  lemma CutKeepsSuffix<D>(todo: seq<Entry<D>>, s: seq<Entry<D>>, j: nat)
    requires IsSuffix(todo, s) && j < |s| && s[j].key !in Keys(todo)
    ensures IsSuffix(todo, Cut(s, j))
  {
    var d := |s| - |todo|;
    assert forall k :: 0 <= k < |todo| ==> todo[k] == s[d + k];
    assert s[..j] + s[j + 1..] == s[..j] + s[j + 1..d] + todo;
  }

  lemma DistinctCons<D>(e: Entry<D>, s: seq<Entry<D>>)
    requires Distinct(s) && e !in s
    ensures Distinct([e] + s)
  {
  }

  lemma CutConsLast<D>(e: Entry<D>, s: seq<Entry<D>>)
    requires s != []
    ensures Cut([e] + s, |s|) == [e] + Cut(s, |s| - 1)
  {
  }

  /** The order with the keys of `gone` taken out. */
  ghost function Stay(order: seq<Key>, gone: set<Key>): (r: seq<Key>)
    ensures forall k :: k in r <==> k in order && k !in gone
  {
    if order == [] then []
    else if order[0] in gone then Stay(order[1..], gone)
    else [order[0]] + Stay(order[1..], gone)
  }

  /** A table without the entries of `gone`, everything else as it was. */
  ghost function Cleared<D>(t: Table<D>, gone: set<Key>): Table<D>
  {
    t.(buckets := seq(|t.buckets|, b requires 0 <= b < |t.buckets| => Stay(t.buckets[b], gone)),
       age := Stay(t.age, gone), data := t.data - gone)
  }

  /** What is left keeps its order. */
  lemma {:induction false} StayKeepsOrder(order: seq<Key>, gone: set<Key>, x: Key, y: Key)
    requires x in order && y in order && x !in gone && y !in gone
    ensures IndexOf(Stay(order, gone), x) < IndexOf(Stay(order, gone), y) <==> IndexOf(order, x) < IndexOf(order, y)
  {
    if order[0] != x && order[0] != y {
      StayKeepsOrder(order[1..], gone, x, y);
      IndexOfCons(order[0], Stay(order[1..], gone), x);
      IndexOfCons(order[0], Stay(order[1..], gone), y);
    }
  }

  lemma IndexOfCons<T>(h: T, s: seq<T>, x: T)
    requires x in s && x != h
    ensures IndexOf([h] + s, x) == 1 + IndexOf(s, x)
  {
    assert ([h] + s)[1..] == s;
  }

  lemma {:induction false} StayAll(order: seq<Key>, gone: set<Key>)
    requires forall k :: k in order ==> k !in gone
    ensures Stay(order, gone) == order
  {
    if order != [] { StayAll(order[1..], gone); }
  }

  lemma StayCons(k: Key, order: seq<Key>, gone: set<Key>)
    ensures Stay([k] + order, gone) == if k in gone then Stay(order, gone) else [k] + Stay(order, gone)
  {
    assert ([k] + order)[1..] == order;
  }

  lemma {:induction false} StayTwice(order: seq<Key>, a: set<Key>, b: set<Key>)
    ensures Stay(Stay(order, a), b) == Stay(order, a + b)
  {
    if order != [] {
      StayTwice(order[1..], a, b);
      StayCons(order[0], Stay(order[1..], a), b);
    }
  }

  lemma IndexOfTail<T>(s: seq<T>, x: T)
    requires x in s && s[0] != x
    ensures x in s[1..] && IndexOf(s, x) == IndexOf(s[1..], x) + 1
  {
  }

  lemma WithoutCons<T>(s: seq<T>, x: T)
    requires x in s && s[0] != x
    ensures Without(s, x) == [s[0]] + Without(s[1..], x)
  {
    hide IndexOf;
    IndexOfTail(s, x);
    CutCons(s, IndexOf(s[1..], x));
  }

  lemma CutCons<T>(s: seq<T>, i: nat)
    requires i + 1 < |s|
    ensures s[..i + 1] + s[i + 2..] == [s[0]] + (s[1..][..i] + s[1..][i + 1..])
  {
    assert s[..i + 1] == [s[0]] + s[1..][..i];
    assert s[i + 2..] == s[1..][i + 1..];
  }

  lemma {:induction false} WithoutIsStay(order: seq<Key>, k: Key)
    requires Distinct(order)
    ensures Without(order, k) == Stay(order, {k})
  {
    if k !in order {
      StayAll(order, {k});
    } else if order[0] == k {
      StayAll(order[1..], {k});
    } else {
      hide Without, Repeats;
      DistinctTail(order);
      WithoutIsStay(order[1..], k);
      WithoutCons(order, k);
    }
  }

  lemma DistinctTail<T>(s: seq<T>)
    requires Distinct(s) && s != []
    ensures Distinct(s[1..]) && s[0] !in s[1..]
  {
    forall i, j | 0 <= i < j < |s| - 1 ensures s[1..][i] != s[1..][j] { assert s[i + 1] != s[j + 1]; }
  }

  lemma RemoveClears<D>(t: Table<D>, k: Key)
    requires WF(t)
    ensures GhtModel.Remove(t, k) == Cleared(t, {k})
  {
    hide Without, Stay, Repeats;
    WithoutIsStay(t.age, k);
    forall b | 0 <= b < t.size
      ensures Stay(t.buckets[b], {k}) == if b == BucketOf(t, k) then Without(t.buckets[b], k) else t.buckets[b]
    {
      assert BucketOk(t, b);
      WithoutIsStay(t.buckets[b], k);
    }
    assert Cleared(t, {k}).buckets == t.buckets[BucketOf(t, k) := Without(t.buckets[BucketOf(t, k)], k)];
    if k !in t.data {
      assert BucketOk(t, BucketOf(t, k));
      assert t.data - {k} == t.data;
    }
  }

  lemma ClearedTwice<D>(t: Table<D>, a: set<Key>, b: set<Key>)
    ensures Cleared(Cleared(t, a), b) == Cleared(t, a + b)
  {
    hide Stay;
    StayTwice(t.age, a, b);
    forall c | 0 <= c < |t.buckets| ensures Stay(Stay(t.buckets[c], a), b) == Stay(t.buckets[c], a + b) {
      StayTwice(t.buckets[c], a, b);
    }
    assert t.data - a - b == t.data - (a + b);
  }

  lemma ClearedNothing<D>(t: Table<D>)
    ensures Cleared(t, {}) == t
  {
    StayAll(t.age, {});
    forall b | 0 <= b < |t.buckets| ensures Stay(t.buckets[b], {}) == t.buckets[b] { StayAll(t.buckets[b], {}); }
    assert t.data - {} == t.data;
  }

  /** The keys of ks that were visited. */
  ghost function Among(ks: seq<Key>, visited: seq<Key>): set<Key>
  {
    set k | k in ks && k in visited
  }

  lemma AmongOneMore(ks: seq<Key>, i: nat, visited: seq<Key>)
    requires i < |ks|
    ensures Among(ks[..i + 1], visited) == if ks[i] in visited then Among(ks[..i], visited) + {ks[i]} else Among(ks[..i], visited)
  {
  }

  lemma AmongEnds(ks: seq<Key>, visited: seq<Key>)
    ensures Among(ks[..0], visited) == {} && Among(ks[..|ks|], visited) == Among(ks, visited)
  {
    assert ks[..|ks|] == ks;
  }

  /** Some turn of an iteration names k after its visit: `doomed` is what the body names, given the
      keys visited so far. */
  ghost predicate Named(k: Key, visited: seq<Key>, doomed: seq<Key> -> seq<Key>)
  {
    exists m :: 0 <= m <= |visited| && k in visited[..m] && k in doomed(visited[..m])
  }

  ghost function AllNamed(visited: seq<Key>, doomed: seq<Key> -> seq<Key>): set<Key>
  {
    set k | k in visited && Named(k, visited, doomed)
  }

  lemma ClearedKeys<D>(t: Table<D>, visited: seq<Key>, doomed: seq<Key> -> seq<Key>)
    ensures forall k :: k in Cleared(t, AllNamed(visited, doomed)).data <==> k in t.data && !Named(k, visited, doomed)
  {
  }

  lemma NothingNamed(doomed: seq<Key> -> seq<Key>)
    ensures AllNamed([], doomed) == {}
  {
  }

  lemma NamedOneMore(visited: seq<Key>, key: Key, doomed: seq<Key> -> seq<Key>)
    ensures AllNamed(visited + [key], doomed)
         == AllNamed(visited, doomed) + Among(doomed(visited + [key]), visited + [key])
  {
    var all := visited + [key];
    assert all[..|all|] == all;
    assert forall m :: 0 <= m <= |visited| ==> all[..m] == visited[..m];
  }

  lemma RunStarts<D>(t: Table<D>, ops: seq<Op<D>>)
    requires WF(t)
    ensures Run(t, ops) == (Run(t, ops[0..]).0, [] + Run(t, ops[0..]).1)
  {
    assert ops[0..] == ops && [] + Run(t, ops).1 == Run(t, ops).1;
  }

  lemma RunOne<D>(t: Table<D>, ops: seq<Op<D>>, i: nat, answers: seq<Answer<D>>)
    requires WF(t) && i < |ops|
    ensures WF(Step(t, ops[i]))
    ensures Run(t, ops[i..]).0 == Run(Step(t, ops[i]), ops[i + 1..]).0
    ensures answers + Run(t, ops[i..]).1 == answers + [AnswerOf(t, ops[i])] + Run(Step(t, ops[i]), ops[i + 1..]).1
  {
    hide WF, Step, AnswerOf;
    StepWF(t, ops[i]);
    assert ops[i..][1..] == ops[i + 1..];
  }

  lemma RunEnds<D>(t: Table<D>, ops: seq<Op<D>>, answers: seq<Answer<D>>)
    requires WF(t)
    ensures Run(t, ops[|ops|..]) == (t, []) && answers + [] == answers
  {
  }

  class Iterator<D> {
    var entry: Entry?<D>
    var next: Entry?<D>

    constructor ()
      ensures entry == null && next == null
    {
      entry, next := null, null;
    }
  }

  class HashTable<D> {
    var hash: Key -> nat
    var items: nat
    var size: nat
    var sizeMask: int
    var heuristics: Heuristics
    var autoRehash: bool
    var bucketLimit: nat
    var entries: array<Entry?<D>>
    var nr: array<int>
    var oldest: Entry?<D>
    var newest: Entry?<D>

    ghost var table: Table<D>
    ghost var chains: seq<seq<Entry<D>>>
    ghost var ages: seq<Entry<D>>
    ghost var Repr: set<object>

    /** The structure stands for the value `table`. Callers see it only as `Valid`: two negations
        further out, the verifier keeps it closed instead of proving its parts one by one at every
        call. */
    ghost predicate Represents()
      reads this, Repr
    {
      && this in Repr && entries in Repr && nr in Repr && Nodes(ages) <= Repr
      && hash == table.hash && size == table.size && sizeMask == size - 1
      && heuristics == table.heuristics && autoRehash == table.autoRehash && bucketLimit == table.bucketLimit
      && WF(table) && items == |ages| && entries.Length == nr.Length == |chains| == size
      && AgeListOk(oldest, newest, ages, table.age, table.data)
      && BucketsOk(entries, nr, chains, table.buckets, Nodes(ages))
    }

    ghost predicate Corrupt()
      reads this, Repr
    {
      !Represents()
    }

    ghost predicate Valid()
      reads this, Repr
    {
      !Corrupt()
    }

    constructor (hash: Key -> nat, n: nat)
      ensures Valid() && fresh(Repr)
      ensures table == Create(hash, n) && bucketLimit == 0 && !autoRehash && this.hash == hash
    {
      var i, s := 1, 1;
      while s < n
        invariant i >= 1 && s == ShiftLeft(i - 1) && RoundUpFrom(1, n) == RoundUpFrom(s, n)
        decreases n - s
      {
        s := ShiftLeft(i);
        i := i + 1;
      }
      this.hash, items, size, sizeMask := hash, 0, s, ShiftLeft(i - 1) - 1;
      heuristics, autoRehash, bucketLimit := NoHeuristics, false, 0;
      entries := new Entry?<D>[s](_ => null);
      nr := new int[s](_ => 0);
      oldest, newest := null, null;
      table, chains, ages := Create(hash, n), seq(s, _ => []), [];
      CreateWF<D>(hash, n);
      Repr := {this, entries, nr};
      new;
      assert Keys<D>([]) == [];
    }

    // ---- one chain ----

    // Swap p with the entry in front of it.
    method TransposeEntry(b: nat, p: Entry<D>, ghost s: seq<Entry<D>>, ghost i: nat)
      requires b < entries.Length && Chained(entries[b], s) && Distinct(s) && i < |s| && s[i] == p
      modifies entries, Nodes(s)`next, Nodes(s)`prev
      ensures Chained(entries[b], if i == 0 then s else s[i := s[i - 1]][i - 1 := p])
      ensures forall c :: 0 <= c < entries.Length && c != b ==> entries[c] == old(entries[c])
    {
      hide Distinct, Repeats;
      if p.prev != null {
        Neighbours(s, i);
        ghost var r := s[i := s[i - 1]][i - 1 := p];
        var x := p.prev;
        var a, z := x.prev, p.next;
        assert x == s[i - 1] && a == Nth(s, i - 2) && z == Nth(s, i + 1);
        if a != null {
          a.next := p;
        } else {
          entries[b] := p;
        }
        if z != null {
          z.prev := x;
        }
        x.next := p.next;
        x.prev := p;
        p.next := x;
        p.prev := a;
        forall j | 0 <= j < |r| ensures r[j].next == Nth(r, j + 1) && r[j].prev == Nth(r, j - 1) {
          assert j != i && j != i - 1 ==> r[j] == s[j];
        }
      }
    }

    // Let the neighbours of p point past it.
    method Bypass(p: Entry<D>, ghost s: seq<Entry<D>>, ghost i: nat)
      requires Chained(Nth(s, 0), s) && Distinct(s) && 0 < i < |s| && s[i] == p
      modifies Nodes(s)`next, Nodes(s)`prev
      ensures forall k {:trigger s[k].next} :: 0 <= k < |s| ==> s[k].next == Nth(s, if k == i - 1 then i + 1 else k + 1)
      ensures forall k {:trigger s[k].prev} :: 0 <= k < |s| ==> s[k].prev == Nth(s, if k == i + 1 then i - 1 else k - 1)
    {
      hide Repeats;
      Neighbours(s, i);
      assert p.prev == s[i - 1];
      p.prev.next := p.next;
      if p.next != null {
        p.next.prev := p.prev;
      }
    }

    // p, found further down its chain, becomes its head.
    method MoveEntryToFront(b: nat, p: Entry<D>, ghost s: seq<Entry<D>>, ghost i: nat)
      requires b < entries.Length && Chained(entries[b], s) && Distinct(s) && i < |s| && s[i] == p
      modifies entries, Nodes(s)`next, Nodes(s)`prev
      ensures Chained(entries[b], [p] + Cut(s, i))
      ensures forall c :: 0 <= c < entries.Length && c != b ==> entries[c] == old(entries[c])
    {
      hide Cut, Repeats;
      Neighbours(s, i);
      FrontCut(s);
      if p == entries[b] {
        return;
      }
      Bypass(p, s, i);
      PutFirst(b, p, s, i);
    }

    // p, bypassed by its neighbours, is linked in front of the head.
    method PutFirst(b: nat, p: Entry<D>, ghost s: seq<Entry<D>>, ghost i: nat)
      requires b < entries.Length && 0 < i < |s| && s[i] == p && entries[b] == s[0]
      requires OnlyAt(s, 0) && OnlyAt(s, i)
      requires forall k {:trigger s[k].next} :: 0 <= k < |s| ==> s[k].next == Nth(s, if k == i - 1 then i + 1 else k + 1)
      requires forall k {:trigger s[k].prev} :: 0 <= k < |s| ==> s[k].prev == Nth(s, if k == i + 1 then i - 1 else k - 1)
      modifies entries, Nodes(s)`next, Nodes(s)`prev
      ensures Chained(entries[b], [p] + Cut(s, i))
      ensures forall c :: 0 <= c < entries.Length && c != b ==> entries[c] == old(entries[c])
    {
      hide Cut, Nth;
      p.next := entries[b];
      p.prev := null;
      entries[b].prev := p;
      entries[b] := p;
      ChainedFront(s, i);
    }

    // The bucket half of remove_from_chain.
    method UnlinkFromBucket(b: nat, p: Entry<D>, ghost s: seq<Entry<D>>, ghost i: nat)
      requires b < entries.Length && Chained(entries[b], s) && Distinct(s) && i < |s| && s[i] == p
      modifies entries, Nodes(s)`next, Nodes(s)`prev
      ensures Chained(entries[b], Cut(s, i))
      ensures forall c :: 0 <= c < entries.Length && c != b ==> entries[c] == old(entries[c])
    {
      hide Cut, Repeats;
      Neighbours(s, i);
      assert p.prev == Nth(s, i - 1) && p.next == Nth(s, i + 1);
      if p.prev != null {
        p.prev.next := p.next;
      } else {
        entries[b] := p.next;
      }
      if p.next != null {
        p.next.prev := p.prev;
      }
      ChainedCut(entries[b], s, i);
    }

    // The age-list half of remove_from_chain.
    method UnlinkFromAges(p: Entry<D>, ghost i: nat)
      requires Aged(oldest, newest, ages) && Distinct(ages) && i < |ages| && ages[i] == p
      modifies this`oldest, this`newest, this`ages, Nodes(ages)`newer, Nodes(ages)`older
      ensures ages == Cut(old(ages), i) && Aged(oldest, newest, ages)
    {
      hide Cut, Repeats;
      ghost var s := ages;
      Neighbours(s, i);
      assert p.older == Nth(s, i - 1) && p.newer == Nth(s, i + 1);
      if p.older != null {
        p.older.newer := p.newer;
      } else {
        oldest := p.newer;
      }
      if p.newer != null {
        p.newer.older := p.older;
      } else {
        newest := p.older;
      }
      ages := Cut(s, i);
      AgedCut(oldest, newest, s, i);
    }

    // Place a new entry first in its chain.
    method LinkFirst(b: nat, p: Entry<D>, ghost s: seq<Entry<D>>)
      requires b < entries.Length && Chained(entries[b], s) && Distinct(s) && p !in s
      modifies entries, Nodes(s)`next, Nodes(s)`prev, p`next, p`prev
      ensures Chained(entries[b], [p] + s)
      ensures forall c :: 0 <= c < entries.Length && c != b ==> entries[c] == old(entries[c])
    {
      p.next := entries[b];
      p.prev := null;
      if entries[b] != null {
        entries[b].prev := p;
      }
      entries[b] := p;
    }

    // Append a new entry to the age list.
    method LinkNewest(p: Entry<D>)
      requires Aged(oldest, newest, ages) && Distinct(ages) && p !in ages && p.newer == null
      modifies this`oldest, this`newest, this`ages, Nodes(ages)`newer, Nodes(ages)`older, p`older
      ensures ages == old(ages) + [p] && Aged(oldest, newest, ages)
    {
      if oldest == null {
        oldest := p;
      }
      p.older := newest;
      if newest != null {
        newest.newer := p;
      }
      newest := p;
      ages := ages + [p];
    }

    // ---- facts about a valid table ----

    // What a valid table consists of, for proofs that keep `Valid` closed.
    lemma Open()
      requires Valid()
      ensures this in Repr && entries in Repr && nr in Repr && Nodes(ages) <= Repr
      ensures hash == table.hash && size == table.size && sizeMask == size - 1
      ensures heuristics == table.heuristics && autoRehash == table.autoRehash && bucketLimit == table.bucketLimit
      ensures WF(table) && items == |ages| && entries.Length == nr.Length == |chains| == size
      ensures AgeListOk(oldest, newest, ages, table.age, table.data)
      ensures BucketsOk(entries, nr, chains, table.buckets, Nodes(ages))
    {
    }

    // The structure has come to stand for u.
    ghost method StandFor(u: Table<D>)
      requires this in Repr && entries in Repr && nr in Repr && Nodes(ages) <= Repr
      requires hash == u.hash && size == u.size && sizeMask == size - 1
      requires heuristics == u.heuristics && autoRehash == u.autoRehash && bucketLimit == u.bucketLimit
      requires WF(u) && items == |ages| && entries.Length == nr.Length == |chains| == size
      requires AgeListOk(oldest, newest, ages, u.age, u.data)
      requires BucketsOk(entries, nr, chains, u.buckets, Nodes(ages))
      modifies this`table
      ensures Valid() && table == u
    {
      table := u;
    }

    lemma NodeBucket(b: nat, e: Entry<D>)
      requires Valid() && b < size && e in chains[b]
      ensures e.key in table.buckets[b] && BucketOf(table, e.key) == b && e in ages
    {
      assert e in Nodes(chains[b]) && Nodes(chains[b]) <= Nodes(ages);
      assert BucketOk(table, b) && Bucket(entries[b], nr[b], chains[b], table.buckets[b]);
      assert table.buckets[b][IndexOf(chains[b], e)] == e.key;
    }

    lemma NodeData(b: nat, p: Entry<D>)
      requires Valid() && b < size && p in chains[b]
      ensures p in ages && p.key in table.data && p.data == table.data[p.key]
    {
      assert p in Nodes(chains[b]) && Nodes(chains[b]) <= Nodes(ages);
    }

    lemma AgeFacts()
      requires Valid()
      ensures Shape(table) && Distinct(table.age) && Distinct(ages) && |ages| == |table.age|
      ensures Covered(table.age, table.data)
    {
      DistinctNodes(ages);
    }

    lemma InRepr()
      requires Valid()
      ensures this in Repr && entries in Repr && nr in Repr && Nodes(ages) <= Repr
    {
    }

    lemma TableFields()
      requires Valid()
      ensures WF(table) && table.hash == hash && table.size == size && table.heuristics == heuristics
      ensures table.autoRehash == autoRehash && table.bucketLimit == bucketLimit
    {
    }

    lemma AgeKeys()
      requires Valid()
      ensures Keys(ages) == table.age && Distinct(table.age) && forall k :: k in table.data ==> k in table.age
    {
    }

    lemma ChainNodes(b: nat)
      requires Valid() && b < size
      ensures Distinct(chains[b]) && Distinct(Keys(chains[b])) && Distinct(ages)
    {
      assert BucketOk(table, b);
      assert Bucket(entries[b], nr[b], chains[b], table.buckets[b]);
      DistinctNodes(chains[b]);
      DistinctNodes(ages);
    }

    // The nodes of chain b are on it once and on no other chain.
    ghost predicate Apart(b: nat)
      reads this`chains
    {
      && b < |chains| && Distinct(chains[b]) && Distinct(Keys(chains[b]))
      && forall c :: 0 <= c < |chains| && c != b ==> Nodes(chains[b]) !! Nodes(chains[c])
    }

    lemma ChainApart(b: nat, p: Entry<D>)
      requires Valid() && b < size && p in chains[b]
      ensures Shape(table) && Nodes(chains[b]) <= Nodes(ages) && p in ages && Apart(b) && BucketOf(table, p.key) == b
    {
      ChainNodes(b);
      NodeBucket(b, p);
      forall c, e | 0 <= c < size && e in chains[c] ensures BucketOf(table, e.key) == c { NodeBucket(c, e); }
    }

    // The chain a key hashes to holds its node, if any chain does.
    lemma ChainHolds(b: nat, key: Key)
      requires Valid() && b < size && BucketOf(table, key) == b
      ensures key in table.data <==> key in table.buckets[b]
    {
      assert BucketOk(table, b);
    }

    // Where a new entry is to go: its bucket, which nothing of it touches yet.
    lemma BucketApart(b: nat, e: Entry<D>)
      requires Valid() && b == BucketOf(table, e.key) && e.key !in table.data
      ensures Shape(table) && Apart(b) && Nodes(chains[b]) <= Nodes(ages) && e !in Nodes(ages)
      ensures nr[b] == |chains[b]| == |table.buckets[b]| && Distinct(table.age)
      ensures forall p :: p in ages ==> p.key in table.data && p.data == table.data[p.key] && p.key in table.age
    {
      ChainNodes(b);
      OpenBucket(entries[b], nr[b], chains[b], table.buckets[b]);
      forall c, x | 0 <= c < size && x in chains[c] ensures BucketOf(table, x.key) == c { NodeBucket(c, x); }
      forall p | p in ages ensures p.key in table.age { assert Keys(ages)[IndexOf(ages, p)] == p.key; }
    }

    // ---- lookup ----

    // The switch on the heuristics.
    method Rearrange(b: nat, p: Entry<D>, h: Heuristics, ghost s: seq<Entry<D>>, ghost i: nat)
      returns (ghost r: seq<Entry<D>>)
      requires b < entries.Length && Chained(entries[b], s) && Distinct(s) && Distinct(Keys(s))
      requires i < |s| && s[i] == p
      modifies entries, Nodes(s)`next, Nodes(s)`prev
      ensures Chained(entries[b], r) && Nodes(r) == Nodes(s) && |r| == |s|
      ensures Keys(r) == Touch(h, Keys(s), p.key)
      ensures forall c :: 0 <= c < entries.Length && c != b ==> entries[c] == old(entries[c])
    {
      hide Touch, Nodes, Repeats;
      TouchAt(h, s, i);
      r := Touch(h, s, p);
      match h {
        case MoveToFront => MoveEntryToFront(b, p, s, i);
        case Transpose => TransposeEntry(b, p, s, i);
        case NoHeuristics =>
      }
    }

    method RearrangeBucket(b: nat, p: Entry<D>, h: Heuristics, ghost i: nat, ghost buckets: seq<seq<Key>>,
                           ghost nodes: set<Entry<D>>)
      requires BucketsOk(entries, nr, chains, buckets, nodes)
      requires Apart(b) && i < |chains[b]| && chains[b][i] == p
      modifies this`chains, entries, Nodes(chains[b])`next, Nodes(chains[b])`prev
      ensures BucketsOk(entries, nr, chains, buckets[b := Touch(h, buckets[b], p.key)], nodes)
      ensures |chains| == old(|chains|)
    {
      hide Touch, Bucket, Chained, Repeats;
      OpenBucket(entries[b], nr[b], chains[b], buckets[b]);
      ghost var r := Rearrange(b, p, h, chains[b], i);
      chains := chains[b := r];
      CloseBucket(entries[b], nr[b], r, Touch(h, buckets[b], p.key));
    }

    // Apply the heuristics to the node at position i of bucket b.
    method ApplyHeuristics(b: nat, p: Entry<D>, h: Heuristics, ghost i: nat)
      requires Valid() && b < size && i < |chains[b]| && chains[b][i] == p
      modifies this`table, this`chains, entries, Nodes(ages)`next, Nodes(ages)`prev
      ensures Valid() && table == TouchBucket(old(table), h, p.key)
    {
      hide WF, Touch, AgeListOk, BucketsOk, Apart, Repeats;
      ChainApart(b, p);
      RearrangeBucket(b, p, h, i, table.buckets, Nodes(ages));
      TouchBucketWF(table, h, p.key);
      table := TouchBucket(table, h, p.key);
    }

    method FindInBucket(b: nat, key: Key) returns (p: Entry?<D>, ghost i: nat)
      requires Valid() && b < size
      ensures p == Nth(chains[b], i) && (p == null ==> i == |chains[b]|)
      ensures p != null <==> key in table.buckets[b]
      ensures p != null ==> p.key == key && i == IndexOf(table.buckets[b], key)
    {
      OpenBucket(entries[b], nr[b], chains[b], table.buckets[b]);
      p, i := entries[b], 0;
      while p != null && p.key != key
        invariant i <= |chains[b]| && p == Nth(chains[b], i) && key !in table.buckets[b][..i]
        decreases |chains[b]| - i
      {
        p, i := p.next, i + 1;
      }
    }

    // Look a key up in its chain and apply the heuristics; `visited` counts the entries looked at.
    method SearchInBucket(b: nat, key: Key, h: Heuristics) returns (p: Entry?<D>, ghost visited: nat)
      requires Valid() && b == BucketOf(table, key)
      modifies this`table, this`chains, entries, Nodes(ages)`next, Nodes(ages)`prev
      ensures Valid() && table == TouchBucket(old(table), h, key)
      ensures p != null <==> key in old(table.data)
      ensures p != null ==> p.data == table.data[key]
      ensures p != null ==> p in ages && p.key == key
      ensures p != null ==> key in old(table.buckets[b]) && visited == IndexOf(old(table.buckets[b]), key) + 1
    {
      ghost var i;
      p, i := FindInBucket(b, key);
      visited := i + 1;
      assert BucketOk(table, b);
      if p != null {
        NodeBucket(b, p);
        ApplyHeuristics(b, p, h, i);
      } else {
        assert table.buckets[b := Touch(h, table.buckets[b], key)] == table.buckets;
      }
    }

    // get_hash_value & i_size_mask.
    function IndexFor(key: Key): (b: nat)
      requires Valid()
      reads this, Repr
      ensures b == BucketOf(table, key)
    {
      MaskIsRemainder(hash(key), size);
      And(hash(key), sizeMask)
    }

    method Get(key: Key) returns (data: Option<D>)
      requires Valid()
      modifies this`table, this`chains, entries, Nodes(ages)`next, Nodes(ages)`prev
      ensures Valid() && table == GhtModel.Get(old(table), key)
      ensures data == Stored(old(table), key)
    {
      var p, _ := SearchInBucket(IndexFor(key), key, heuristics);
      data := if p != null then p.data else None;
    }

    method Replace(key: Key, data: Option<D>) returns (previous: Option<D>)
      requires Valid()
      modifies this`table, this`chains, entries, Nodes(ages)`next, Nodes(ages)`prev, Nodes(ages)`data
      ensures Valid() && table == GhtModel.Replace(old(table), key, data)
      ensures previous == Stored(old(table), key)
    {
      hide WF, BucketsOk, AgeListOk, Touch, Repeats;
      AgeFacts();
      var p, _ := SearchInBucket(IndexFor(key), key, heuristics);
      if p == null {
        return None;
      }
      previous := p.data;
      ReplaceWF(old(table), key, data);
      StoreData(p, data, table.age, table.data);
      table := GhtModel.Replace(old(table), key, data);
    }

    method StoreData(p: Entry<D>, d: Option<D>, ghost age: seq<Key>, ghost data: map<Key, Option<D>>)
      requires AgeListOk(oldest, newest, ages, age, data) && Distinct(age) && p in ages
      modifies p`data
      ensures AgeListOk(oldest, newest, ages, age, data[p.key := d]) && p.data == d
    {
      forall e | e in ages && e.key == p.key ensures e == p { SameKeySameNode(ages, e, p); }
      p.data := d;
    }

    // ---- removal ----

    // Take the node at position i off bucket b and count it out.
    method CutFromBucket(b: nat, p: Entry<D>, ghost i: nat, ghost buckets: seq<seq<Key>>, ghost nodes: set<Entry<D>>)
      requires BucketsOk(entries, nr, chains, buckets, nodes)
      requires Apart(b) && i < |chains[b]| && chains[b][i] == p
      modifies this`chains, entries, nr, Nodes(chains[b])`next, Nodes(chains[b])`prev
      ensures BucketsOk(entries, nr, chains, buckets[b := Without(buckets[b], p.key)], nodes - {p})
      ensures |chains| == old(|chains|)
    {
      hide Cut, Without, Bucket, Chained, Repeats;
      OpenBucket(entries[b], nr[b], chains[b], buckets[b]);
      KeysOfCut(chains[b], i);
      NodesOfCut(chains[b], i);
      ghost var r := Cut(chains[b], i);
      UnlinkFromBucket(b, p, chains[b], i);
      nr[b] := nr[b] - 1;
      chains := chains[b := r];
      CloseBucket(entries[b], nr[b], r, Without(buckets[b], p.key));
    }

    // The age-list half of a removal, with the data the list stands for.
    method CutFromAges(p: Entry<D>, ghost j: nat, ghost age: seq<Key>, ghost data: map<Key, Option<D>>)
      requires AgeListOk(oldest, newest, ages, age, data) && Distinct(age) && j < |ages| && ages[j] == p
      modifies this`oldest, this`newest, this`ages, Nodes(ages)`newer, Nodes(ages)`older
      ensures AgeListOk(oldest, newest, ages, Without(age, p.key), data - {p.key})
      ensures |ages| == |old(ages)| - 1 && ages == Cut(old(ages), j) && Nodes(ages) == Nodes(old(ages)) - {p}
    {
      hide Aged, Cut, Without, Repeats;
      DistinctNodes(ages);
      KeysOfCut(ages, j);
      NodesOfCut(ages, j);
      UnlinkFromAges(p, j);
      forall e | e in ages ensures e.key != p.key {
        if e.key == p.key { SameKeySameNode(old(ages), e, p); }
      }
    }

    // Both halves of a removal.
    method CutFromBoth(b: nat, p: Entry<D>, ghost i: nat, ghost j: nat, ghost buckets: seq<seq<Key>>,
                       ghost age: seq<Key>, ghost data: map<Key, Option<D>>)
      requires BucketsOk(entries, nr, chains, buckets, Nodes(ages)) && b < |chains| && Nodes(chains[b]) <= Nodes(ages)
      requires AgeListOk(oldest, newest, ages, age, data) && Distinct(age)
      requires Apart(b) && i < |chains[b]| && chains[b][i] == p && j < |ages| && ages[j] == p
      modifies this`chains, this`ages, this`oldest, this`newest
      modifies entries, nr, Nodes(ages)`next, Nodes(ages)`prev, Nodes(ages)`newer, Nodes(ages)`older
      ensures BucketsOk(entries, nr, chains, buckets[b := Without(buckets[b], p.key)], Nodes(ages))
      ensures AgeListOk(oldest, newest, ages, Without(age, p.key), data - {p.key})
      ensures |chains| == old(|chains|) && |ages| == |old(ages)| - 1
      ensures ages == Cut(old(ages), j) && Nodes(ages) == Nodes(old(ages)) - {p}
    {
      hide BucketsOk, AgeListOk, Apart, Without, Cut, Repeats;
      CutFromBucket(b, p, i, buckets, Nodes(ages));
      CutFromAges(p, j, age, data);
    }

    // remove_from_chain and the counters, for the node at position i of bucket b.
    method UnlinkEntry(b: nat, p: Entry<D>, ghost i: nat)
      requires Valid() && b < size && i < |chains[b]| && chains[b][i] == p
      modifies this`table, this`chains, this`ages, this`items, this`oldest, this`newest
      modifies entries, nr, Nodes(ages)`next, Nodes(ages)`prev, Nodes(ages)`newer, Nodes(ages)`older
      ensures Valid() && table == Unlink(old(table), p.key)
      ensures p in old(ages) && ages == Cut(old(ages), IndexOf(old(ages), p))
    {
      hide Valid, WF, BucketsOk, AgeListOk, Apart, Without, Cut, Unlink, BucketOf, Repeats;
      Open();
      ChainApart(b, p);
      AgeFacts();
      ghost var u := UnlinkParts(table, p.key, b);
      ghost var j := IndexOf(ages, p);
      items := items - 1;
      CutFromBoth(b, p, i, j, table.buckets, table.age, table.data);
      StandFor(u);
    }

    method Remove(key: Key) returns (data: Option<D>)
      requires Valid()
      modifies this`table, this`chains, this`ages, this`items, this`oldest, this`newest
      modifies entries, nr, Nodes(ages)`next, Nodes(ages)`prev, Nodes(ages)`newer, Nodes(ages)`older
      ensures Valid() && table == GhtModel.Remove(old(table), key)
      ensures data == Stored(old(table), key)
      ensures ages == old(ages) || exists j :: 0 <= j < |old(ages)| && old(ages)[j].key == key && ages == Cut(old(ages), j)
    {
      hide WF, BucketsOk, AgeListOk, Repeats;
      var b := IndexFor(key);
      ghost var i;
      var p;
      p, i := FindInBucket(b, key);
      ChainHolds(b, key);
      if p == null {
        return None;
      }
      NodeData(b, p);
      UnlinkEntry(b, p, i);
      data := p.data;
    }

    // ---- insertion ----

    // A new entry becomes the first of its chain, which grows by one.
    method GrowBucket(b: nat, e: Entry<D>, ghost buckets: seq<seq<Key>>, ghost nodes: set<Entry<D>>)
      requires BucketsOk(entries, nr, chains, buckets, nodes) && Apart(b) && e !in nodes
      modifies this`chains, entries, nr, Nodes(chains[b])`next, Nodes(chains[b])`prev, e`next, e`prev
      ensures BucketsOk(entries, nr, chains, buckets[b := [e.key] + buckets[b]], nodes + {e})
      ensures |chains| == old(|chains|)
    {
      hide Bucket, Chained, Repeats;
      OpenBucket(entries[b], nr[b], chains[b], buckets[b]);
      ghost var r := [e] + chains[b];
      assert Keys(r) == [e.key] + buckets[b];
      LinkFirst(b, e, chains[b]);
      nr[b] := nr[b] + 1;
      chains := chains[b := r];
      CloseBucket(entries[b], nr[b], r, [e.key] + buckets[b]);
    }

    method LastInBucket(b: nat, ghost s: seq<Entry<D>>) returns (p: Entry<D>)
      requires b < entries.Length && Chained(entries[b], s) && s != []
      ensures p == s[|s| - 1]
    {
      p := entries[b];
      ghost var i := 0;
      while p.next != null
        invariant i < |s| && p == s[i]
        decreases |s| - i
      {
        p, i := p.next, i + 1;
      }
    }

    // A new entry becomes the first of a chain that gives up its last.
    method OverflowChain(b: nat, e: Entry<D>, ghost s: seq<Entry<D>>) returns (p: Entry<D>)
      requires b < entries.Length && Chained(entries[b], s) && Distinct(s) && e !in s && s != []
      modifies entries, Nodes(s)`next, Nodes(s)`prev, e`next, e`prev
      ensures p == s[|s| - 1] && Chained(entries[b], [e] + Cut(s, |s| - 1))
      ensures forall c :: 0 <= c < entries.Length && c != b ==> entries[c] == old(entries[c])
    {
      hide Chained, Cut, Repeats;
      CutConsLast(e, s);
      LinkFirst(b, e, s);
      p := LastInBucket(b, [e] + s);
      DistinctCons(e, s);
      UnlinkFromBucket(b, p, [e] + s, |s|);
    }

    // A new entry becomes the first of a full bucket, which gives up its last.
    method OverflowBucket(b: nat, e: Entry<D>, ghost buckets: seq<seq<Key>>, ghost nodes: set<Entry<D>>)
      returns (p: Entry<D>)
      requires BucketsOk(entries, nr, chains, buckets, nodes) && Apart(b) && e !in nodes && chains[b] != []
      modifies this`chains, entries, Nodes(chains[b])`next, Nodes(chains[b])`prev, e`next, e`prev
      ensures p in nodes && p.key == buckets[b][|buckets[b]| - 1] && p in old(chains[b])
      ensures BucketsOk(entries, nr, chains, buckets[b := [e.key] + Without(buckets[b], p.key)], nodes - {p} + {e})
      ensures |chains| == old(|chains|)
    {
      hide Bucket, Chained, Cut, Without, Repeats;
      OpenBucket(entries[b], nr[b], chains[b], buckets[b]);
      ghost var s, n := chains[b], |chains[b]|;
      KeysOfCut(s, n - 1);
      NodesOfCut(s, n - 1);
      p := OverflowChain(b, e, s);
      ghost var r := [e] + Cut(s, n - 1);
      assert Keys(r) == [e.key] + Without(buckets[b], p.key);
      chains := chains[b := r];
      CloseBucket(entries[b], nr[b], r, [e.key] + Without(buckets[b], p.key));
    }

    // A new entry is the newest.
    method AddToAges(e: Entry<D>, ghost age: seq<Key>, ghost data: map<Key, Option<D>>)
      requires AgeListOk(oldest, newest, ages, age, data) && Distinct(age) && e.key !in age && e.newer == null
      modifies this`oldest, this`newest, this`ages, Nodes(ages)`newer, Nodes(ages)`older, e`older
      ensures AgeListOk(oldest, newest, ages, age + [e.key], data[e.key := e.data])
      ensures |ages| == old(|ages|) + 1 && Nodes(ages) == Nodes(old(ages)) + {e}
    {
      DistinctNodes(ages);
      forall x | x in ages ensures x.key in age { assert Keys(ages)[IndexOf(ages, x)] == x.key; }
      LinkNewest(e);
      assert Keys(ages) == age + [e.key];
    }

    // Both halves of an insertion.
    method AddToBoth(b: nat, e: Entry<D>, ghost buckets: seq<seq<Key>>, ghost age: seq<Key>, ghost data: map<Key, Option<D>>)
      requires BucketsOk(entries, nr, chains, buckets, Nodes(ages)) && Apart(b) && Nodes(chains[b]) <= Nodes(ages)
      requires AgeListOk(oldest, newest, ages, age, data) && Distinct(age)
      requires e !in Nodes(ages) && e.key !in age && e.newer == null
      modifies this`chains, this`ages, this`oldest, this`newest
      modifies entries, nr, Nodes(ages)`next, Nodes(ages)`prev, Nodes(ages)`newer, Nodes(ages)`older
      modifies e`next, e`prev, e`older
      ensures BucketsOk(entries, nr, chains, buckets[b := [e.key] + buckets[b]], Nodes(ages))
      ensures AgeListOk(oldest, newest, ages, age + [e.key], data[e.key := e.data])
      ensures |chains| == old(|chains|) && |ages| == old(|ages|) + 1 && Nodes(ages) == Nodes(old(ages)) + {e}
    {
      hide BucketsOk, AgeListOk, Apart, Repeats;
      GrowBucket(b, e, buckets, Nodes(ages));
      AddToAges(e, age, data);
    }

    method PlaceWithRoom(b: nat, e: Entry<D>, ghost u: Table<D>)
      requires Valid() && e in Repr && b < size && Apart(b) && Nodes(chains[b]) <= Nodes(ages) && e !in Nodes(ages)
      requires Distinct(table.age) && e.key !in table.age && e.newer == null && b < |table.buckets|
      requires WF(u) && SameSettingsAndSize(u, table) && u.buckets == table.buckets[b := [e.key] + table.buckets[b]]
      requires u.age == table.age + [e.key] && u.data == table.data[e.key := e.data]
      modifies this`table, this`chains, this`ages, this`items, this`oldest, this`newest
      modifies entries, nr, Nodes(ages)`next, Nodes(ages)`prev, Nodes(ages)`newer, Nodes(ages)`older
      modifies e`next, e`prev, e`older
      ensures Valid() && table == u && Nodes(ages) == Nodes(old(ages)) + {e}
    {
      hide Valid, WF, BucketsOk, AgeListOk, Apart, Repeats;
      Open();
      items := items + 1;
      AddToBoth(b, e, table.buckets, table.age, table.data);
      StandFor(u);
    }

    // Both halves of an insertion into a full bucket.
    method ReplaceInBoth(b: nat, e: Entry<D>, ghost last: Key, ghost buckets: seq<seq<Key>>, ghost age: seq<Key>,
                         ghost data: map<Key, Option<D>>) returns (p: Entry<D>)
      requires BucketsOk(entries, nr, chains, buckets, Nodes(ages)) && Apart(b) && Nodes(chains[b]) <= Nodes(ages)
      requires chains[b] != [] && b < |buckets| && buckets[b] != [] && last == buckets[b][|buckets[b]| - 1]
      requires AgeListOk(oldest, newest, ages, age, data) && Distinct(age) && Distinct(Without(age, last))
      requires e !in Nodes(ages) && e.key !in Without(age, last) && e.newer == null
      modifies this`chains, this`ages, this`oldest, this`newest
      modifies entries, Nodes(ages)`next, Nodes(ages)`prev, Nodes(ages)`newer, Nodes(ages)`older
      modifies e`next, e`prev, e`older
      ensures BucketsOk(entries, nr, chains, buckets[b := [e.key] + Without(buckets[b], last)], Nodes(ages))
      ensures AgeListOk(oldest, newest, ages, Without(age, last) + [e.key], (data - {last})[e.key := e.data])
      ensures |chains| == old(|chains|) && |ages| == old(|ages|) && Nodes(ages) == Nodes(old(ages)) - {p} + {e}
      ensures p in old(ages) && p.key == last
    {
      hide BucketsOk, AgeListOk, Apart, Without, Repeats;
      p := OverflowBucket(b, e, buckets, Nodes(ages));
      CutFromAges(p, IndexOf(ages, p), age, data);
      AddToAges(e, Without(age, last), data - {last});
    }

    method PlaceEvicting(b: nat, e: Entry<D>, ghost last: Key, ghost u: Table<D>) returns (p: Entry<D>)
      requires Valid() && e in Repr && b < size && Apart(b) && Nodes(chains[b]) <= Nodes(ages) && e !in Nodes(ages)
      requires chains[b] != [] && b < |table.buckets| && table.buckets[b] != []
      requires last == table.buckets[b][|table.buckets[b]| - 1]
      requires Distinct(table.age) && Distinct(Without(table.age, last))
      requires e.key !in Without(table.age, last) && e.newer == null
      requires WF(u) && SameSettingsAndSize(u, table) && u.buckets == table.buckets[b := [e.key] + Without(table.buckets[b], last)]
      requires u.age == Without(table.age, last) + [e.key] && u.data == (table.data - {last})[e.key := e.data]
      modifies this`table, this`chains, this`ages, this`oldest, this`newest
      modifies entries, Nodes(ages)`next, Nodes(ages)`prev, Nodes(ages)`newer, Nodes(ages)`older
      modifies e`next, e`prev, e`older
      ensures Valid() && table == u && Nodes(ages) == Nodes(old(ages)) - {p} + {e}
      ensures p in old(ages) && p.key == last
    {
      hide Valid, WF, BucketsOk, AgeListOk, Apart, Without, Repeats;
      Open();
      p := ReplaceInBoth(b, e, last, table.buckets, table.age, table.data);
      StandFor(u);
    }

    // The end of ght_insert: link a new entry, evicting the last of its bucket if that is full.
    method PlaceEntry(b: nat, e: Entry<D>) returns (evicted: Option<(Key, Option<D>)>)
      requires Valid() && e in Repr && b == BucketOf(table, e.key) && e.key !in table.data && e.newer == null
      modifies this`table, this`chains, this`ages, this`items, this`oldest, this`newest
      modifies entries, nr, Nodes(ages)`next, Nodes(ages)`prev, Nodes(ages)`newer, Nodes(ages)`older
      modifies e`next, e`prev, e`older
      ensures Valid() && Place(old(table), e.key, e.data) == Inserted(0, evicted, table)
      ensures Nodes(ages) <= Nodes(old(ages)) + {e}
    {
      hide WF, BucketsOk, AgeListOk, Apart, Without, Place, BucketOf, Repeats;
      BucketApart(b, e);
      ghost var u := PlaceParts(table, e.key, e.data, b);
      if bucketLimit != 0 && nr[b] >= bucketLimit {
        var p := PlaceEvicting(b, e, table.buckets[b][|table.buckets[b]| - 1], u.table);
        evicted := Some((p.key, p.data));
      } else {
        PlaceWithRoom(b, e, u.table);
        evicted := None;
      }
    }

    // ---- iteration ----

    /** The iterator stands at position i of the age list. */
    ghost predicate StandsAt(it: Iterator<D>, i: int)
      reads this, it
    {
      it.entry == Nth(ages, i) && it.next == Nth(ages, i + 1)
    }

    method First(it: Iterator<D>) returns (data: Option<D>)
      requires Valid()
      modifies it
      ensures StandsAt(it, 0)
      ensures data == if ages == [] then None else table.data[table.age[0]]
      ensures NoNullData(table) ==> (data.Some? <==> ages != [])
    {
      it.entry := oldest;
      if it.entry != null {
        assert ages[0].key == table.age[0];
        it.next := it.entry.newer;
        return it.entry.data;
      }
      it.next := null;
      return None;
    }

    method Next(it: Iterator<D>, ghost i: nat) returns (data: Option<D>)
      requires Valid() && i <= |ages| && it.next == Nth(ages, i)
      modifies it
      ensures StandsAt(it, i)
      ensures data == if i < |ages| then table.data[table.age[i]] else None
      ensures NoNullData(table) ==> (data.Some? <==> i < |ages|)
    {
      if it.next != null {
        assert ages[i].key == table.age[i];
        it.entry := it.next;
        it.next := it.next.newer;
        return it.entry.data;
      }
      it.entry, it.next := null, null;
      return None;
    }

    // ---- insertion and rehashing ----

    method Insert(key: Key, data: Option<D>) returns (status: int, evicted: Option<(Key, Option<D>)>)
      requires Valid()
      modifies Repr
      ensures Valid() && fresh(Repr - old(Repr))
      ensures GhtModel.Insert(old(table), key, data) == Inserted(status, evicted, table)
      decreases autoRehash, 0, 2
    {
      hide Valid, WF, Place, MakeRoom, Repeats;
      InsertFacts(key, data);
      var p, _ := SearchInBucket(IndexFor(key), key, NoHeuristics);
      if p != null {
        return -1, None;
      }
      evicted := AddEntry(key, data);
      status := 0;
    }

    lemma InsertFacts(key: Key, data: Option<D>)
      requires Valid()
      ensures WF(table) && TouchBucket(table, NoHeuristics, key) == table
      ensures this in Repr && entries in Repr && Nodes(ages) <= Repr
    {
      TouchNothing(table, key);
    }

    // Link a new entry, rehashing first if that is due.
    method AddEntry(key: Key, data: Option<D>) returns (evicted: Option<(Key, Option<D>)>)
      requires Valid() && key !in table.data
      modifies Repr
      ensures Valid() && fresh(Repr - old(Repr))
      ensures WF(old(table)) && GhtModel.Insert(old(table), key, data) == Inserted(0, evicted, table)
      decreases autoRehash, 0, 1
    {
      hide Valid, WF, Place, MakeRoom, Repeats;
      Open();
      InsertParts(table, key, data);
      var e := new Entry(key, data);
      RehashIfCrowded();
      Own(e);
      InRepr();
      evicted := PlaceEntry(IndexFor(key), e);
    }

    ghost method Own(e: Entry<D>)
      requires Valid()
      modifies this`Repr
      ensures Valid() && Repr == old(Repr) + {e}
    {
      hide WF, BucketsOk, AgeListOk, Repeats;
      Repr := Repr + {e};
    }

    method RehashIfCrowded()
      requires Valid()
      modifies this
      ensures Valid() && fresh(Repr - old(Repr)) && table == MakeRoom(old(table))
      decreases autoRehash, 0, 0
    {
      hide WF, BucketsOk, AgeListOk, Repeats;
      AgeFacts();
      if autoRehash && items > 2 * size {
        Rehash(2 * size);
      }
    }

    /** Insertion of a new key into a table that neither rehashes nor evicts. */
    method InsertNew(key: Key, data: Option<D>)
      requires Valid() && !autoRehash && bucketLimit == 0 && key !in table.data
      modifies Repr
      ensures Valid() && fresh(Repr - old(Repr)) && !autoRehash && bucketLimit == 0
      ensures Shape(old(table)) && Shape(table) && table == Place(old(table), key, data).table
      ensures table.data == old(table).data[key := data]
      decreases false, 0, 3
    {
      hide Valid, WF, Place, Covered, Shape, Repeats;
      TableFields();
      InsertParts(table, key, data);
      ghost var before := table;
      PlaceKeys(before, key, data);
      var status, evicted := Insert(key, data);
      TableFields();
    }

    lemma NodeAt(i: nat)
      requires Valid() && i < |ages|
      ensures |ages| == |table.age| && ages[i].key == table.age[i] && table.age[i] in table.data
      ensures ages[i].data == table.data[table.age[i]] && table.age[i] !in table.age[..i]
    {
      assert ages[i] in ages && Keys(ages)[i] == ages[i].key;
    }

    // Insert the entry the iterator stands at into the new table and move on.
    method CopyNext(tmp: HashTable<D>, it: Iterator<D>, ghost i: nat) returns (data: Option<D>)
      requires Valid() && StandsAt(it, i) && i < |ages| && it !in Repr
      requires tmp.Valid() && !tmp.autoRehash && tmp.bucketLimit == 0 && tmp.Repr !! Repr && it !in tmp.Repr
      requires ages[i].key !in tmp.table.data
      modifies tmp.Repr, it
      ensures Valid() && StandsAt(it, i + 1)
      ensures |ages| == |table.age| && table.age[i] in table.data
      ensures data == if i + 1 < |ages| then table.data[table.age[i + 1]] else None
      ensures tmp.Valid() && !tmp.autoRehash && tmp.bucketLimit == 0 && fresh(tmp.Repr - old(tmp.Repr))
      ensures Shape(old(tmp.table)) && Shape(tmp.table)
      ensures tmp.table == Place(old(tmp.table), table.age[i], table.data[table.age[i]]).table
      ensures tmp.table.data == old(tmp.table).data[table.age[i] := table.data[table.age[i]]]
      decreases false, 0, 4
    {
      hide Valid, Place, WF, Covered, Shape, Repeats;
      NodeAt(i);
      InRepr();
      tmp.InRepr();
      tmp.InsertNew(it.entry.key, it.entry.data);
      data := Next(it, i + 1);
    }

    // Give the new table every entry of this one, oldest first, up to the first NULL datum.
    method CopyInto(tmp: HashTable<D>)
      requires Valid() && tmp.Valid() && tmp.Repr !! Repr
      requires tmp.bucketLimit == 0 && !tmp.autoRehash && tmp.table.data == map[]
      modifies tmp.Repr
      ensures tmp.Valid() && fresh(tmp.Repr - old(tmp.Repr))
      ensures tmp.table == Refill(old(tmp.table), table.age, table.data)
      decreases false, 0, 5
    {
      hide Valid, Place, Refill, WF, Shape, Repeats;
      AgeFacts();
      tmp.AgeFacts();
      InRepr();
      var it := new Iterator<D>();
      ghost var age, stored, nodes, mine := table.age, table.data, ages, Repr;
      ghost var target := Refill(tmp.table, age, stored);
      ghost var i := 0;
      assert age[0..] == age;
      var data := First(it);
      while data.Some?
        invariant Valid() && table.age == age && table.data == stored && ages == nodes && Repr == mine
        invariant tmp.Valid() && tmp.Repr !! mine && fresh(tmp.Repr - old(tmp.Repr))
        invariant !tmp.autoRehash && tmp.bucketLimit == 0 && Shape(tmp.table)
        invariant i <= |age| && data == if i < |age| then stored[age[i]] else None
        invariant forall k :: k in tmp.table.data ==> k in age[..i]
        invariant StandsAt(it, i) && it !in tmp.Repr && it !in mine
        invariant Refill(tmp.table, age[i..], stored) == target
        decreases |age| - i
      {
        NodeAt(i);
        RefillOne(tmp.table, age, stored, i);
        data := CopyNext(tmp, it, i);
        i := i + 1;
      }
      RefillEnds(tmp.table, age[i..], stored);
    }

    // Rebuild the table at another size.
    method Rehash(n: nat)
      requires Valid()
      modifies this
      ensures Valid() && fresh(Repr - {this})
      ensures table == GhtModel.Rehash(old(table), n)
      decreases false, 1, 0
    {
      hide WF, BucketsOk, AgeListOk, Repeats;
      AgeFacts();
      var tmp := new HashTable<D>(hash, n);
      CopyInto(tmp);
      RehashWF(table, n);
      Adopt(tmp, GhtModel.Rehash(table, n));
    }

    // Take over the chains and the age list of the new table.
    method Adopt(tmp: HashTable<D>, ghost u: Table<D>)
      requires Valid() && tmp.Valid() && WF(u) && tmp != this
      requires u == table.(size := tmp.table.size, buckets := tmp.table.buckets, age := tmp.table.age,
                           data := tmp.table.data)
      modifies this
      ensures Valid() && table == u && Repr == {this} + tmp.Repr
    {
      hide Valid, WF, BucketsOk, AgeListOk, Nodes, Repeats;
      Open();
      tmp.Open();
      AdoptFields(tmp);
      chains, ages, Repr := tmp.chains, tmp.ages, {this} + tmp.Repr;
      StandFor(u);
    }

    method AdoptFields(tmp: HashTable<D>)
      modifies this`size, this`sizeMask, this`items, this`entries, this`nr, this`oldest, this`newest
      ensures size == tmp.size && sizeMask == tmp.sizeMask && items == tmp.items
      ensures entries == tmp.entries && nr == tmp.nr && oldest == tmp.oldest && newest == tmp.newest
    {
      size, sizeMask, items := tmp.size, tmp.sizeMask, tmp.items;
      entries, nr := tmp.entries, tmp.nr;
      oldest, newest := tmp.oldest, tmp.newest;
    }

    // ---- settings ----

    method SetHeuristics(h: Heuristics)
      requires Valid()
      modifies this`heuristics, this`table
      ensures Valid() && table == Step(old(table), OpSetHeuristics(h))
    {
      hide BucketsOk, AgeListOk, Repeats;
      StepWF(table, OpSetHeuristics(h));
      heuristics := h;
      table := table.(heuristics := h);
    }

    method SetRehash(on: bool)
      requires Valid()
      modifies this`autoRehash, this`table
      ensures Valid() && table == Step(old(table), OpSetRehash(on))
    {
      hide BucketsOk, AgeListOk, Repeats;
      StepWF(table, OpSetRehash(on));
      autoRehash := on;
      table := table.(autoRehash := on);
    }

    method SetBoundedBuckets(limit: nat)
      requires Valid()
      modifies this`bucketLimit, this`table
      ensures Valid() && table == Step(old(table), OpSetBoundedBuckets(limit))
    {
      hide BucketsOk, AgeListOk, Repeats;
      StepWF(table, OpSetBoundedBuckets(limit));
      bucketLimit := limit;
      table := table.(bucketLimit := limit);
    }

    // ---- iterating while removing ----

    // Remove an entry that an iteration with `todo` still to come has visited.
    method RemoveVisited(k: Key, visited: seq<Key>, ghost todo: seq<Entry<D>>)
      requires Valid() && NoNullData(table) && IsSuffix(todo, ages) && Distinct(visited + Keys(todo)) && k in visited
      modifies this`table, this`chains, this`ages, this`items, this`oldest, this`newest
      modifies entries, nr, Nodes(ages)`next, Nodes(ages)`prev, Nodes(ages)`newer, Nodes(ages)`older
      ensures Valid() && table == Cleared(old(table), {k}) && NoNullData(table)
      ensures IsSuffix(todo, ages) && |todo| <= |ages| && Nodes(ages) <= Nodes(old(ages))
    {
      hide Aged, Valid, Repeats, WF, Cleared;
      TableFields();
      RemoveClears(table, k);
      DistinctParts(visited, Keys(todo), k);
      var _ := Remove(k);
      if ages != old(ages) {
        ghost var j :| 0 <= j < |old(ages)| && old(ages)[j].key == k && ages == Cut(old(ages), j);
        CutKeepsSuffix(todo, old(ages), j);
      }
    }

    /** Remove those of ks that an iteration with `todo` still to come has visited. */
    method RemoveAllVisited(ks: seq<Key>, visited: seq<Key>, ghost todo: seq<Entry<D>>)
      requires Valid() && NoNullData(table) && IsSuffix(todo, ages) && Distinct(visited + Keys(todo))
      modifies this`table, this`chains, this`ages, this`items, this`oldest, this`newest
      modifies entries, nr, Nodes(ages)`next, Nodes(ages)`prev, Nodes(ages)`newer, Nodes(ages)`older
      ensures Valid() && table == Cleared(old(table), Among(ks, visited)) && NoNullData(table)
      ensures IsSuffix(todo, ages) && |todo| <= |ages| && Nodes(ages) <= Nodes(old(ages))
    {
      hide Valid, NoNullData, Cleared, Among, Repeats, Nodes;
      AmongEnds(ks, visited);
      ClearedNothing(table);
      for i := 0 to |ks|
        invariant Valid() && NoNullData(table) && IsSuffix(todo, ages) && Nodes(ages) <= Nodes(old(ages))
        invariant table == Cleared(old(table), Among(ks[..i], visited))
      {
        AmongOneMore(ks, i, visited);
        if ks[i] in visited {
          ClearedTwice(old(table), Among(ks[..i], visited), {ks[i]});
          RemoveVisited(ks[i], visited, todo);
        }
      }
    }

    method RemoveAndNext(it: Iterator<D>, ks: seq<Key>, visited: seq<Key>, ghost todo: seq<Entry<D>>)
      returns (data: Option<D>)
      requires Valid() && NoNullData(table) && IsSuffix(todo, ages) && Distinct(visited + Keys(todo))
      requires it !in Repr && it.next == Nth(todo, 0)
      modifies it, this`table, this`chains, this`ages, this`items, this`oldest, this`newest
      modifies entries, nr, Nodes(ages)`next, Nodes(ages)`prev, Nodes(ages)`newer, Nodes(ages)`older
      ensures Valid() && table == Cleared(old(table), Among(ks, visited)) && NoNullData(table)
      ensures IsSuffix(todo, ages) && Nodes(ages) <= Nodes(old(ages))
      ensures it.entry == Nth(todo, 0) && it.next == Nth(todo, 1) && (data.Some? <==> todo != [])
    {
      hide Valid, NoNullData, IsSuffix, Nth, Repeats, Cleared, Among, StandsAt;
      RemoveAllVisited(ks, visited, todo);
      SuffixNth(todo, ages, 0);
      data := Next(it, |ages| - |todo|);
      Upcoming(it, todo);
    }

    // One turn of the loop: visit the entry the iterator stands at, let the body remove, move on.
    method VisitOne(it: Iterator<D>, before: seq<Key>, doomed: seq<Key> -> seq<Key>, ghost todo: seq<Entry<D>>,
                    ghost whole: Table<D>) returns (visited: seq<Key>, data: Option<D>)
      requires Valid() && NoNullData(table) && IsSuffix(todo, ages) && Distinct(before + Keys(todo)) && todo != []
      requires it !in Repr && it.entry == Nth(todo, 0) && it.next == Nth(todo, 1)
      requires table == Cleared(whole, AllNamed(before, doomed))
      modifies it, this`table, this`chains, this`ages, this`items, this`oldest, this`newest
      modifies entries, nr, Nodes(ages)`next, Nodes(ages)`prev, Nodes(ages)`newer, Nodes(ages)`older
      ensures Valid() && table == Cleared(whole, AllNamed(visited, doomed)) && NoNullData(table)
      ensures IsSuffix(todo[1..], ages) && Nodes(ages) <= Nodes(old(ages))
      ensures it.entry == Nth(todo[1..], 0) && it.next == Nth(todo[1..], 1) && (data.Some? <==> todo[1..] != [])
      ensures visited + Keys(todo[1..]) == before + Keys(todo)
    {
      hide Valid, NoNullData, IsSuffix, Nth, Repeats, Cleared, Among, AllNamed;
      NthInside(todo);
      SuffixTail(todo, ages);
      NamedOneMore(before, it.entry.key, doomed);
      visited := before + [it.entry.key];
      assert visited + Keys(todo[1..]) == before + Keys(todo);
      ClearedTwice(whole, AllNamed(before, doomed), Among(doomed(visited), visited));
      data := RemoveAndNext(it, doomed(visited), visited, todo[1..]);
    }

    /** The iteration loop of the documentation, with a body that may remove any entries already
        visited, the current one among them: every entry is visited once, in insertion order, and
        exactly those the body named after their visit are gone. */
    method VisitRemoving(doomed: seq<Key> -> seq<Key>) returns (visited: seq<Key>)
      requires Valid() && NoNullData(table)
      modifies Repr
      ensures Valid() && Repr == old(Repr) && visited == old(table.age)
      ensures table == Cleared(old(table), AllNamed(visited, doomed))
      ensures forall k :: k in table.data <==> k in old(table.data) && !Named(k, visited, doomed)
    {
      hide Valid, NoNullData, IsSuffix, Nth, Repeats, Cleared, Among, AllNamed, StandsAt;
      AgeKeys();
      InRepr();
      ClearedNothing(table);
      NothingNamed(doomed);
      var it := new Iterator<D>();
      ghost var all, age, todo := ages, table.age, ages;
      visited := [];
      assert visited + Keys(todo) == age;
      SuffixSelf(ages);
      var data := First(it);
      AllUpcoming(it);
      while data.Some?
        invariant Valid() && NoNullData(table) && it !in Repr
        invariant entries == old(entries) && nr == old(nr) && Nodes(ages) <= Nodes(all) && Repr == old(Repr)
        invariant table == Cleared(old(table), AllNamed(visited, doomed))
        invariant IsSuffix(todo, ages) && it.entry == Nth(todo, 0) && it.next == Nth(todo, 1)
        invariant visited + Keys(todo) == age && (data.Some? <==> todo != [])
        decreases |todo|
      {
        visited, data := VisitOne(it, visited, doomed, todo, old(table));
        todo := todo[1..];
      }
      ClearedKeys(old(table), visited, doomed);
    }

    // ---- runs ----

    method Perform(op: Op<D>) returns (answer: Answer<D>)
      requires Valid()
      modifies Repr
      ensures Valid() && fresh(Repr - old(Repr)) && WF(old(table))
      ensures table == Step(old(table), op) && answer == AnswerOf(old(table), op)
    {
      hide Valid, WF, GhtModel.Insert, GhtModel.Get, GhtModel.Replace, GhtModel.Remove, GhtModel.Rehash;
      TableFields();
      InRepr();
      match op {
        case OpInsert(k, d) => var status, _ := Insert(k, d); answer := Status(status);
        case OpGet(k) => var d := Get(k); answer := Pointer(d);
        case OpReplace(k, d) => var previous := Replace(k, d); answer := Pointer(previous);
        case OpRemove(k) => var d := Remove(k); answer := Pointer(d);
        case OpRehash(n) => Rehash(n); answer := Void;
        case OpSetHeuristics(h) => SetHeuristics(h); answer := Void;
        case OpSetRehash(on) => SetRehash(on); answer := Void;
        case OpSetBoundedBuckets(limit) => SetBoundedBuckets(limit); answer := Void;
      }
    }

    /** Any operations, one after the other, on the linked structure: they do and answer what they
        do on the table as a value. */
    method Execute(ops: seq<Op<D>>) returns (answers: seq<Answer<D>>)
      requires Valid()
      modifies Repr
      ensures Valid() && fresh(Repr - old(Repr)) && WF(old(table))
      ensures (table, answers) == Run(old(table), ops)
    {
      hide Valid, WF, Step, AnswerOf, Run;
      TableFields();
      answers := [];
      RunStarts(table, ops);
      for i := 0 to |ops|
        invariant Valid() && fresh(Repr - old(Repr)) && WF(table)
        invariant Run(old(table), ops) == (Run(table, ops[i..]).0, answers + Run(table, ops[i..]).1)
      {
        RunOne(table, ops, i, answers);
        var answer := Perform(ops[i]);
        answers := answers + [answer];
      }
      RunEnds(table, ops, answers);
    }

    lemma AllUpcoming(it: Iterator<D>)
      requires StandsAt(it, 0)
      ensures it.entry == Nth(ages, 0) && it.next == Nth(ages, 1)
    {
    }

    lemma Upcoming(it: Iterator<D>, todo: seq<Entry<D>>)
      requires IsSuffix(todo, ages) && StandsAt(it, |ages| - |todo|)
      ensures it.entry == Nth(todo, 0) && it.next == Nth(todo, 1)
    {
      SuffixNth(todo, ages, 0);
      SuffixNth(todo, ages, 1);
    }
  }

  function ShiftLeft(i: nat): (r: nat)
    ensures r > 0
  {
    if i == 0 then 1 else 2 * ShiftLeft(i - 1)
  }
}
