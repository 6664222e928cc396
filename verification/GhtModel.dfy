/** The hash table of src/common/ght_hash_table.c as a value: what each operation does to the
    bucket chains, the age list and the stored data.

    `GhtTable` proves that the linked structure does exactly this; the theorems about whole runs
    are proved here and in `GhtLru` and `GhtMoveToFront`.
 */
module GhtModel {
  import opened CStrings

  type Key = string

  datatype Heuristics = NoHeuristics | Transpose | MoveToFront

  /** A stored pointer is `Some`, NULL is `None`. `buckets` holds the keys of each chain from the
      front, `age` the keys from the oldest to the newest. */
  datatype Table<D> = Table(
    hash: Key -> nat,
    size: nat,
    buckets: seq<seq<Key>>,
    age: seq<Key>,
    data: map<Key, Option<D>>,
    heuristics: Heuristics,
    autoRehash: bool,
    bucketLimit: nat
  )

  /** What an insertion returns: the C status, the entry handed to the bucket callback, if any,
      and the table afterwards. */
  datatype Inserted<D> = Inserted(status: int, evicted: Option<(Key, Option<D>)>, table: Table<D>)

  // ---- sequences without repetition ----

  ghost predicate Repeats<T>(s: seq<T>)
  {
    exists i, j :: 0 <= i < j < |s| && s[i] == s[j]
  }

  /** No element occurs twice. Said as a negation so that proofs can hide the quantifiers behind
      `Repeats` and still use the name. */
  ghost predicate Distinct<T>(s: seq<T>)
  {
    !Repeats(s)
  }

  function IndexOf<T(==)>(s: seq<T>, x: T): (i: nat)
    requires x in s
    ensures i < |s| && s[i] == x && x !in s[..i]
  {
    if s[0] == x then 0 else 1 + IndexOf(s[1..], x)
  }

  function Without<T(==)>(s: seq<T>, x: T): (r: seq<T>)
    ensures x !in s ==> r == s
  {
    if x in s then var i := IndexOf(s, x); s[..i] + s[i + 1..] else s
  }

  lemma WithoutDistinct<T>(s: seq<T>, x: T)
    requires Distinct(s)
    ensures Distinct(Without(s, x))
    ensures forall y :: y in Without(s, x) <==> y in s && y != x
    ensures |Without(s, x)| == |s| - if x in s then 1 else 0
  {
    if x in s {
      var i := IndexOf(s, x);
      forall y ensures y in Without(s, x) <==> y in s && y != x {
        if y in s && y != x {
          var j := IndexOf(s, y);
          if j < i { assert s[..i][j] == y; } else { assert s[i + 1..][j - i - 1] == y; }
        }
      }
    }
  }

  lemma DistinctSnoc<T>(s: seq<T>, x: T)
    requires Distinct(s) && x !in s
    ensures Distinct(s + [x]) && Distinct([x] + s)
  {
  }

  lemma {:induction false} DistinctSize<T>(s: seq<T>)
    requires Distinct(s)
    ensures |s| == |set x | x in s|
  {
    if s != [] {
      DistinctSize(s[1..]);
      assert (set x | x in s) == (set x | x in s[1..]) + {s[0]};
    }
  }

  lemma SameElementsSameLength<T>(s: seq<T>, t: seq<T>)
    requires Distinct(s) && Distinct(t) && forall x :: x in s <==> x in t
    ensures |s| == |t|
  {
    DistinctSize(s);
    DistinctSize(t);
    assert (set x | x in s) == (set x | x in t);
  }

  // ---- one chain ----

  /** A found entry is moved as the heuristics say: to the front, one step up, or not at all. */
  function Touch<T(==)>(h: Heuristics, chain: seq<T>, x: T): (r: seq<T>)
  {
    if x !in chain then chain else
    match h
    case NoHeuristics => chain
    case MoveToFront => [x] + Without(chain, x)
    case Transpose =>
      var i := IndexOf(chain, x);
      if i == 0 then chain else chain[i := chain[i - 1]][i - 1 := x]
  }

  lemma TouchDistinct<T>(h: Heuristics, chain: seq<T>, x: T)
    requires Distinct(chain)
    ensures Distinct(Touch(h, chain, x)) && |Touch(h, chain, x)| == |chain|
    ensures forall y :: y in Touch(h, chain, x) <==> y in chain
  {
    hide IndexOf, Without;
    if x in chain {
      WithoutDistinct(chain, x);
      WithoutPresent(chain, x);
      DistinctSnoc(Without(chain, x), x);
      var i := IndexOf(chain, x);
      if h == Transpose && i > 0 {
        SwapKeeps(chain, i);
      }
    }
  }

  lemma WithoutPresent<T>(s: seq<T>, x: T)
    requires x in s
    ensures |Without(s, x)| == |s| - 1
  {
  }

  lemma SwapKeeps<T>(s: seq<T>, i: nat)
    requires Distinct(s) && 0 < i < |s|
    ensures var r := s[i := s[i - 1]][i - 1 := s[i]];
            Distinct(r) && forall y :: y in r <==> y in s
  {
    var r := s[i := s[i - 1]][i - 1 := s[i]];
    forall y | y in s ensures y in r {
      var j :| 0 <= j < |s| && s[j] == y;
      assert r[if j == i then i - 1 else if j == i - 1 then i else j] == y;
    }
  }

  // ---- well-formed tables ----

  ghost predicate IsPowerOfTwo(n: nat)
  {
    n == 1 || (n > 1 && n % 2 == 0 && IsPowerOfTwo(n / 2))
  }

  /** Bitwise and. */
  function And(x: nat, y: nat): nat
  {
    if x == 0 || y == 0 then 0
    else 2 * And(x / 2, y / 2) + if x % 2 == 1 && y % 2 == 1 then 1 else 0
  }

  lemma {:induction false} ProductGrows(a: nat, b: nat, d: nat)
    ensures a < b ==> a * d + d <= b * d
    decreases b
  {
    if a + 1 < b { ProductGrows(a, b - 1, d); }
  }

  lemma RemainderIs(x: nat, d: nat, q: nat, r: nat)
    requires x == q * d + r && r < d
    ensures x % d == r
  {
    var k, m := x / d, x % d;
    assert x == k * d + m;
    ProductGrows(k, q, d);
    ProductGrows(q, k, d);
  }

  lemma HalfRemainder(x: nat, m: nat)
    requires m > 0
    ensures x % (2 * m) == 2 * (x / 2 % m) + x % 2
  {
    var q, r := x / 2 / m, x / 2 % m;
    assert x / 2 == q * m + r;
    assert q * (2 * m) == 2 * (q * m);
    RemainderIs(x, 2 * m, q, 2 * r + x % 2);
  }

  lemma AndStep(x: nat, m: nat)
    requires m > 0
    ensures And(x, 2 * m - 1) == 2 * And(x / 2, m - 1) + x % 2
  {
    assert (2 * m - 1) / 2 == m - 1 && (2 * m - 1) % 2 == 1;
  }

  lemma Half(n: nat)
    requires IsPowerOfTwo(n) && n > 1
    ensures n == 2 * (n / 2) && IsPowerOfTwo(n / 2)
  {
  }

  /** Masking with one less than a power of two is the remainder by that power. */
  lemma {:induction false} MaskIsRemainder(x: nat, n: nat)
    requires IsPowerOfTwo(n)
    ensures And(x, n - 1) == x % n
    decreases n
  {
    hide And;
    if n > 1 {
      Half(n);
      var m := n / 2;
      MaskIsRemainder(x / 2, m);
      HalfRemainder(x, m);
      AndStep(x, m);
    } else {
      AndZero(x);
    }
  }

  lemma AndZero(x: nat)
    ensures And(x, 0) == 0
  {
  }

  function BucketOf<D>(t: Table<D>, k: Key): (b: nat)
    requires t.size > 0
    ensures b < t.size
  {
    t.hash(k) % t.size
  }

  ghost predicate Shape<D>(t: Table<D>)
  {
    t.size > 0 && |t.buckets| == t.size
  }

  ghost predicate BucketOk<D>(t: Table<D>, b: nat)
    requires Shape(t) && b < t.size
  {
    Distinct(t.buckets[b]) && forall k :: k in t.buckets[b] <==> k in t.age && BucketOf(t, k) == b
  }

  /** Both lists hold exactly the stored keys, once each, every key in the bucket it hashes to. */
  ghost predicate WF<D>(t: Table<D>)
  {
    && Shape(t) && IsPowerOfTwo(t.size)
    && Distinct(t.age)
    && (forall k :: k in t.age <==> k in t.data)
    && (forall b :: 0 <= b < t.size ==> BucketOk(t, b))
  }

  function SumOfLengths<T>(ss: seq<seq<T>>): nat
  {
    if ss == [] then 0 else |ss[0]| + SumOfLengths(ss[1..])
  }

  function Flatten<T>(ss: seq<seq<T>>): (r: seq<T>)
    ensures |r| == SumOfLengths(ss)
  {
    if ss == [] then [] else ss[0] + Flatten(ss[1..])
  }

  lemma {:induction false} FlattenBuckets<D>(t: Table<D>, b: nat)
    requires WF(t) && b <= t.size
    ensures Distinct(Flatten(t.buckets[b..]))
    ensures forall k :: k in Flatten(t.buckets[b..]) <==> k in t.age && BucketOf(t, k) >= b
    decreases t.size - b
  {
    if b < t.size {
      FlattenBuckets(t, b + 1);
      assert t.buckets[b..][1..] == t.buckets[b + 1..];
      var first, rest := t.buckets[b], Flatten(t.buckets[b + 1..]);
      assert BucketOk(t, b);
      forall i, j | 0 <= i < j < |first + rest| ensures (first + rest)[i] != (first + rest)[j] {
        if i < |first| <= j { assert first[i] in first && rest[j - |first|] in rest; }
      }
    }
  }

  /** The chain lengths add up to the number of items. */
  lemma ChainLengthsSumToItems<D>(t: Table<D>)
    requires WF(t)
    ensures SumOfLengths(t.buckets) == |t.age|
  {
    FlattenBuckets(t, 0);
    assert t.buckets[0..] == t.buckets;
    SameElementsSameLength(Flatten(t.buckets), t.age);
  }

  // ---- the operations ----

  function RoundUpFrom(size: nat, n: nat): (r: nat)
    requires size > 0
    ensures r >= n && r >= size
    decreases n - size
  {
    if size >= n then size else RoundUpFrom(2 * size, n)
  }

  lemma {:induction false} RoundUpIsPowerOfTwo(size: nat, n: nat)
    requires IsPowerOfTwo(size)
    ensures IsPowerOfTwo(RoundUpFrom(size, n))
    ensures RoundUpFrom(size, n) == size || RoundUpFrom(size, n) < 2 * n
    decreases n - size
  {
    if size < n {
      assert 2 * size % 2 == 0 && 2 * size / 2 == size;
      RoundUpIsPowerOfTwo(2 * size, n);
    }
  }

  lemma {:induction false} PowerOfTwoFactor(p: nat, q: nat)
    requires IsPowerOfTwo(p) && IsPowerOfTwo(q) && p <= q
    ensures q == p || q >= 2 * p
  {
    if p > 1 {
      PowerOfTwoFactor(p / 2, q / 2);
    }
  }

  /** The table size is the least power of two that is at least the request. */
  lemma SizeIsLeastPowerOfTwo(n: nat, p: nat)
    requires IsPowerOfTwo(p) && p >= n
    ensures IsPowerOfTwo(RoundUpFrom(1, n)) && n <= RoundUpFrom(1, n) <= p
  {
    RoundUpIsPowerOfTwo(1, n);
    if p < RoundUpFrom(1, n) {
      PowerOfTwoFactor(p, RoundUpFrom(1, n));
    }
  }

  lemma RoundUpOfPowerOfTwo(n: nat)
    requires IsPowerOfTwo(n)
    ensures RoundUpFrom(1, n) == n
  {
    SizeIsLeastPowerOfTwo(n, n);
  }

  function Create<D>(hash: Key -> nat, n: nat): Table<D>
  {
    var size := RoundUpFrom(1, n);
    Table(hash, size, seq(size, _ => []), [], map[], NoHeuristics, false, 0)
  }

  function Stored<D>(t: Table<D>, k: Key): Option<D>
  {
    if k in t.data then t.data[k] else None
  }

  function TouchBucket<D>(t: Table<D>, h: Heuristics, k: Key): Table<D>
    requires Shape(t)
  {
    var b := BucketOf(t, k);
    t.(buckets := t.buckets[b := Touch(h, t.buckets[b], k)])
  }

  function Get<D>(t: Table<D>, k: Key): Table<D>
    requires Shape(t)
  {
    TouchBucket(t, t.heuristics, k)
  }

  function Replace<D>(t: Table<D>, k: Key, d: Option<D>): Table<D>
    requires Shape(t)
  {
    var touched := TouchBucket(t, t.heuristics, k);
    if k in t.data then touched.(data := t.data[k := d]) else touched
  }

  function Unlink<D>(t: Table<D>, k: Key): Table<D>
    requires Shape(t)
  {
    var b := BucketOf(t, k);
    t.(buckets := t.buckets[b := Without(t.buckets[b], k)], age := Without(t.age, k), data := t.data - {k})
  }

  function Remove<D>(t: Table<D>, k: Key): Table<D>
    requires Shape(t)
  {
    if k in t.data then Unlink(t, k) else t
  }

  /** A new entry goes to the front of its chain; a full bucket gives up its last entry. */
  function Place<D>(t: Table<D>, k: Key, d: Option<D>): Inserted<D>
    requires Shape(t)
  {
    var b := BucketOf(t, k);
    var full := t.bucketLimit != 0 && |t.buckets[b]| >= t.bucketLimit;
    var last := if full then t.buckets[b][|t.buckets[b]| - 1] else k;
    var base := if full then Unlink(t, last) else t;
    Inserted(
      0,
      if full then Some((last, Stored(t, last))) else None,
      base.(buckets := base.buckets[b := [k] + base.buckets[b]], age := base.age + [k], data := base.data[k := d]))
  }

  ghost predicate Covered<D>(age: seq<Key>, data: map<Key, Option<D>>)
  {
    forall k :: k in age ==> k in data
  }

  /** Reinsertion in age order, up to the first NULL datum. */
  function Refill<D>(tmp: Table<D>, age: seq<Key>, data: map<Key, Option<D>>): Table<D>
    requires Shape(tmp) && Covered(age, data)
    decreases |age|
  {
    if age == [] || data[age[0]] == None then tmp
    else Refill(Place(tmp, age[0], data[age[0]]).table, age[1..], data)
  }

  function Rehash<D>(t: Table<D>, n: nat): Table<D>
    requires Covered(t.age, t.data)
  {
    var tmp := Refill(Create(t.hash, n), t.age, t.data);
    t.(size := tmp.size, buckets := tmp.buckets, age := tmp.age, data := tmp.data)
  }

  function MakeRoom<D>(t: Table<D>): Table<D>
    requires Covered(t.age, t.data)
  {
    if t.autoRehash && |t.age| > 2 * t.size then Rehash(t, 2 * t.size) else t
  }

  function Insert<D>(t: Table<D>, k: Key, d: Option<D>): Inserted<D>
    requires WF(t)
  {
    if k in t.data then Inserted(-1, None, t) else
    RehashWF(t, 2 * t.size);
    Place(MakeRoom(t), k, d)
  }

  /** Insertion into a table that neither rehashes nor evicts. */
  lemma InsertUnbounded<D>(t: Table<D>, k: Key, d: Option<D>)
    requires WF(t) && !t.autoRehash && t.bucketLimit == 0
    ensures var r := Insert(t, k, d);
            && (r.status == -1 <==> k in t.data)
            && r.table.data == (if k in t.data then t.data else t.data[k := d])
            && r.table.heuristics == t.heuristics && !r.table.autoRehash && r.table.bucketLimit == 0
  {
  }

  // ---- every operation keeps the table well formed ----

  lemma CreateWF<D>(hash: Key -> nat, n: nat)
    ensures WF<D>(Create(hash, n))
  {
    RoundUpIsPowerOfTwo(1, n);
  }

  lemma TouchBucketWF<D>(t: Table<D>, h: Heuristics, k: Key)
    requires WF(t)
    ensures WF(TouchBucket(t, h, k))
  {
    var u, b := TouchBucket(t, h, k), BucketOf(t, k);
    forall c | 0 <= c < t.size ensures BucketOk(u, c) {
      assert BucketOk(t, c);
      TouchDistinct(h, t.buckets[c], k);
      assert u.buckets[c] == t.buckets[c] || c == b;
    }
  }

  lemma ReplaceWF<D>(t: Table<D>, k: Key, d: Option<D>)
    requires WF(t)
    ensures WF(Replace(t, k, d))
  {
    TouchBucketWF(t, t.heuristics, k);
    var touched, u := TouchBucket(t, t.heuristics, k), Replace(t, k, d);
    forall c | 0 <= c < t.size ensures BucketOk(u, c) {
      assert BucketOk(touched, c);
    }
  }

  lemma UnlinkWF<D>(t: Table<D>, k: Key)
    requires WF(t)
    ensures WF(Unlink(t, k)) && forall y :: y in Unlink(t, k).age <==> y in t.age && y != k
  {
    WithoutDistinct(t.age, k);
    var u, b := Unlink(t, k), BucketOf(t, k);
    forall c | 0 <= c < t.size ensures BucketOk(u, c) {
      assert BucketOk(t, c);
      WithoutDistinct(t.buckets[c], k);
      assert u.buckets[c] == Without(t.buckets[c], k);
    }
  }

  lemma PlaceWF<D>(t: Table<D>, k: Key, d: Option<D>)
    requires WF(t) && k !in t.data
    ensures WF(Place(t, k, d).table)
  {
    hide Repeats, IndexOf, Without, IsPowerOfTwo;
    var b := BucketOf(t, k);
    assert BucketOk(t, b);
    var full := t.bucketLimit != 0 && |t.buckets[b]| >= t.bucketLimit;
    var last := if full then t.buckets[b][|t.buckets[b]| - 1] else k;
    UnlinkWF(t, last);
    var base := if full then Unlink(t, last) else t;
    var u := Place(t, k, d).table;
    DistinctSnoc(base.age, k);
    forall c | 0 <= c < t.size ensures BucketOk(u, c) {
      assert BucketOk(base, c);
      assert k !in base.age;
      DistinctSnoc(base.buckets[c], k);
      assert u.buckets[c] == if c == b then [k] + base.buckets[c] else base.buckets[c];
    }
  }

  lemma {:induction false} RefillWF<D>(tmp: Table<D>, age: seq<Key>, data: map<Key, Option<D>>)
    requires WF(tmp) && tmp.bucketLimit == 0 && Distinct(age)
    requires Covered(age, data) && forall k :: k in age ==> k !in tmp.data
    ensures var r := Refill(tmp, age, data);
            WF(r) && r.size == tmp.size && r.hash == tmp.hash && |r.age| <= |tmp.age| + |age|
    decreases |age|
  {
    if age != [] && data[age[0]].Some? {
      PlaceWF(tmp, age[0], data[age[0]]);
      RefillWF(Place(tmp, age[0], data[age[0]]).table, age[1..], data);
    }
  }

  lemma RehashWF<D>(t: Table<D>, n: nat)
    requires WF(t)
    ensures WF(Rehash(t, n)) && Rehash(t, n).size == RoundUpFrom(1, n) && |Rehash(t, n).age| <= |t.age|
    ensures forall k :: k in Rehash(t, n).data ==> k in t.data
  {
    CreateWF<D>(t.hash, n);
    var empty := Create<D>(t.hash, n);
    RefillWF(empty, t.age, t.data);
    RefillKeys(empty, t.age, t.data);
    var tmp, u := Refill(empty, t.age, t.data), Rehash(t, n);
    forall c | 0 <= c < u.size ensures BucketOk(u, c) {
      assert BucketOk(tmp, c);
    }
  }

  lemma {:induction false} RefillKeys<D>(tmp: Table<D>, age: seq<Key>, data: map<Key, Option<D>>)
    requires Shape(tmp) && tmp.bucketLimit == 0 && Covered(age, data)
    ensures forall k :: k in Refill(tmp, age, data).data ==> k in tmp.data || k in age
    decreases |age|
  {
    if age != [] && data[age[0]].Some? {
      RefillKeys(Place(tmp, age[0], data[age[0]]).table, age[1..], data);
    }
  }

  lemma InsertWF<D>(t: Table<D>, k: Key, d: Option<D>)
    requires WF(t)
    ensures WF(Insert(t, k, d).table)
  {
    if k !in t.data {
      RehashWF(t, 2 * t.size);
      PlaceWF(MakeRoom(t), k, d);
    }
  }

  // ---- rehashing ----

  ghost predicate NoNullData<D>(t: Table<D>)
  {
    forall k :: k in t.data ==> t.data[k].Some?
  }

  ghost function Restrict<D>(data: map<Key, Option<D>>, age: seq<Key>): map<Key, Option<D>>
    requires Covered(age, data)
  {
    map k | k in age :: data[k]
  }

  lemma RestrictStep<D>(m: map<Key, Option<D>>, data: map<Key, Option<D>>, age: seq<Key>)
    requires age != [] && Covered(age, data)
    ensures m[age[0] := data[age[0]]] + Restrict(data, age[1..]) == m + Restrict(data, age)
  {
    assert forall k :: k in age <==> k == age[0] || k in age[1..];
  }

  lemma {:induction false} RefillKeepsAll<D>(tmp: Table<D>, age: seq<Key>, data: map<Key, Option<D>>)
    requires Shape(tmp) && tmp.bucketLimit == 0
    requires Covered(age, data) && forall k :: k in age ==> data[k].Some?
    ensures var r := Refill(tmp, age, data);
            r.age == tmp.age + age && r.data == tmp.data + Restrict(data, age)
    decreases |age|
  {
    if age != [] {
      var next := Place(tmp, age[0], data[age[0]]).table;
      RefillKeepsAll(next, age[1..], data);
      assert tmp.age + age == next.age + age[1..];
      RestrictStep(tmp.data, data, age);
    }
  }

  lemma {:induction false} RefillStopsAtNull<D>(tmp: Table<D>, age: seq<Key>, data: map<Key, Option<D>>, k: Key)
    requires Shape(tmp) && tmp.bucketLimit == 0 && Covered(age, data)
    requires k in age && data[k] == None && k !in tmp.data
    ensures k !in Refill(tmp, age, data).data
    decreases |age|
  {
    if data[age[0]].Some? {
      RefillStopsAtNull(Place(tmp, age[0], data[age[0]]).table, age[1..], data, k);
    }
  }

  /** Rehashing keeps the map from keys to data exactly when no stored pointer is NULL; it then
      keeps the insertion order too. */
  lemma RehashKeepsContents<D>(t: Table<D>, n: nat)
    requires WF(t)
    ensures Rehash(t, n).data == t.data <==> NoNullData(t)
    ensures NoNullData(t) ==> Rehash(t, n).age == t.age
  {
    hide Refill, BucketOk, IsPowerOfTwo, Distinct;
    CreateWF<D>(t.hash, n);
    var empty := Create<D>(t.hash, n);
    if NoNullData(t) {
      RefillKeepsAll(empty, t.age, t.data);
      assert empty.age + t.age == t.age;
      assert Restrict(t.data, t.age) == t.data;
    } else {
      var k :| k in t.data && t.data[k] == None;
      RefillStopsAtNull(empty, t.age, t.data, k);
    }
  }

  // ---- runs ----

  datatype Op<D> =
    | OpInsert(k: Key, d: Option<D>)
    | OpGet(k: Key)
    | OpReplace(k: Key, d: Option<D>)
    | OpRemove(k: Key)
    | OpRehash(n: nat)
    | OpSetHeuristics(h: Heuristics)
    | OpSetRehash(on: bool)
    | OpSetBoundedBuckets(limit: nat)

  datatype Answer<D> = Status(status: int) | Pointer(p: Option<D>) | Void

  function Step<D>(t: Table<D>, op: Op<D>): Table<D>
    requires WF(t)
  {
    match op
    case OpInsert(k, d) => Insert(t, k, d).table
    case OpGet(k) => Get(t, k)
    case OpReplace(k, d) => Replace(t, k, d)
    case OpRemove(k) => Remove(t, k)
    case OpRehash(n) => Rehash(t, n)
    case OpSetHeuristics(h) => t.(heuristics := h)
    case OpSetRehash(on) => t.(autoRehash := on)
    case OpSetBoundedBuckets(limit) => t.(bucketLimit := limit)
  }

  function AnswerOf<D>(t: Table<D>, op: Op<D>): Answer<D>
    requires WF(t)
  {
    match op
    case OpInsert(k, d) => Status(Insert(t, k, d).status)
    case OpGet(k) => Pointer(Stored(t, k))
    case OpReplace(k, d) => Pointer(Stored(t, k))
    case OpRemove(k) => Pointer(Stored(t, k))
    case _ => Void
  }

  lemma StepWF<D>(t: Table<D>, op: Op<D>)
    requires WF(t)
    ensures WF(Step(t, op)) && Step(t, op).hash == t.hash
  {
    match op
    case OpInsert(k, d) => InsertWF(t, k, d);
    case OpGet(k) => TouchBucketWF(t, t.heuristics, k);
    case OpReplace(k, d) => ReplaceWF(t, k, d);
    case OpRemove(k) => UnlinkWF(t, k);
    case OpRehash(n) => RehashWF(t, n);
    case _ =>
      var u := Step(t, op);
      forall c | 0 <= c < t.size ensures BucketOk(u, c) { assert BucketOk(t, c); }
  }

  ghost function Run<D>(t: Table<D>, ops: seq<Op<D>>): (r: (Table<D>, seq<Answer<D>>))
    requires WF(t)
    decreases |ops|
  {
    if ops == [] then (t, []) else
    StepWF(t, ops[0]);
    var (u, answers) := Run(Step(t, ops[0]), ops[1..]);
    (u, [AnswerOf(t, ops[0])] + answers)
  }

  /** Any run of any operations, under any hash function, leaves the table well formed. */
  lemma {:induction false} RunKeepsTableWellFormed<D>(t: Table<D>, ops: seq<Op<D>>)
    requires WF(t)
    ensures WF(Run(t, ops).0) && Run(t, ops).0.hash == t.hash
    ensures SumOfLengths(Run(t, ops).0.buckets) == |Run(t, ops).0.age|
    decreases |ops|
  {
    hide WF, Step, AnswerOf;
    if ops != [] {
      StepWF(t, ops[0]);
      RunKeepsTableWellFormed(Step(t, ops[0]), ops[1..]);
    }
    ChainLengthsSumToItems(Run(t, ops).0);
  }

  // ---- the insertion-ordered map ----

  datatype OrderedMap<D> = OrderedMap(order: seq<Key>, data: map<Key, Option<D>>)

  function Contents<D>(t: Table<D>): OrderedMap<D>
  {
    OrderedMap(t.age, t.data)
  }

  function MapStep<D>(m: OrderedMap<D>, op: Op<D>): OrderedMap<D>
  {
    match op
    case OpInsert(k, d) => if k in m.data then m else OrderedMap(m.order + [k], m.data[k := d])
    case OpReplace(k, d) => if k in m.data then m.(data := m.data[k := d]) else m
    case OpRemove(k) => OrderedMap(Without(m.order, k), m.data - {k})
    case _ => m
  }

  function MapAnswer<D>(m: OrderedMap<D>, op: Op<D>): Answer<D>
  {
    match op
    case OpInsert(k, d) => Status(if k in m.data then -1 else 0)
    case OpGet(k) => Pointer(if k in m.data then m.data[k] else None)
    case OpReplace(k, d) => Pointer(if k in m.data then m.data[k] else None)
    case OpRemove(k) => Pointer(if k in m.data then m.data[k] else None)
    case _ => Void
  }

  function MapRun<D>(m: OrderedMap<D>, ops: seq<Op<D>>): (OrderedMap<D>, seq<Answer<D>>)
    decreases |ops|
  {
    if ops == [] then (m, []) else
    var (u, answers) := MapRun(MapStep(m, ops[0]), ops[1..]);
    (u, [MapAnswer(m, ops[0])] + answers)
  }

  ghost predicate StoresNoNull<D>(op: Op<D>)
  {
    (op.OpInsert? || op.OpReplace?) ==> op.d.Some?
  }

  ghost predicate KeepsBucketsUnbounded<D>(op: Op<D>)
  {
    op.OpSetBoundedBuckets? ==> op.limit == 0
  }

  lemma StepRefines<D>(t: Table<D>, op: Op<D>)
    requires WF(t) && t.bucketLimit == 0 && NoNullData(t)
    requires StoresNoNull(op) && KeepsBucketsUnbounded(op)
    ensures WF(Step(t, op)) && Step(t, op).bucketLimit == 0 && NoNullData(Step(t, op))
    ensures Contents(Step(t, op)) == MapStep(Contents(t), op)
    ensures AnswerOf(t, op) == MapAnswer(Contents(t), op)
  {
    hide BucketOk, IsPowerOfTwo, Repeats, Touch, IndexOf;
    StepWF(t, op);
    match op
    case OpInsert(k, d) =>
      RehashWF(t, 2 * t.size);
      RehashKeepsContents(t, 2 * t.size);
    case OpRemove(k) =>
      assert k !in t.data ==> t.data - {k} == t.data;
    case OpRehash(n) =>
      RehashKeepsContents(t, n);
    case _ =>
  }

  /** With bounded buckets off, a run under any hash function, any heuristics and any rehashing
      gives the answers and the contents of a map that remembers insertion order. */
  lemma {:induction false} RunRefinesOrderedMap<D>(t: Table<D>, ops: seq<Op<D>>)
    requires WF(t) && t.bucketLimit == 0 && NoNullData(t)
    requires forall i :: 0 <= i < |ops| ==> StoresNoNull(ops[i]) && KeepsBucketsUnbounded(ops[i])
    ensures Contents(Run(t, ops).0) == MapRun(Contents(t), ops).0
    ensures Run(t, ops).1 == MapRun(Contents(t), ops).1
    decreases |ops|
  {
    hide WF, Step, AnswerOf;
    if ops != [] {
      StepRefines(t, ops[0]);
      RunRefinesOrderedMap(Step(t, ops[0]), ops[1..]);
    }
  }

  // ---- automatic rehashing ----

  ghost predicate LoadBounded<D>(t: Table<D>)
  {
    |t.age| <= 2 * t.size + 1
  }

  lemma PlaceAge<D>(t: Table<D>, k: Key, d: Option<D>)
    requires WF(t) && k !in t.data
    ensures |Place(t, k, d).table.age| <= |t.age| + 1 && Place(t, k, d).table.size == t.size
    ensures Place(t, k, d).table.autoRehash == t.autoRehash
  {
    assert BucketOk(t, BucketOf(t, k));
    forall y ensures |Without(t.age, y)| <= |t.age| { WithoutDistinct(t.age, y); }
  }

  lemma InsertKeepsLoad<D>(t: Table<D>, k: Key, d: Option<D>)
    requires WF(t) && t.autoRehash && LoadBounded(t)
    ensures LoadBounded(Insert(t, k, d).table) && Insert(t, k, d).table.autoRehash
  {
    hide Place, Refill, BucketOk, Repeats;
    if k !in t.data {
      RehashWF(t, 2 * t.size);
      RoundUpOfPowerOfTwo(2 * t.size);
      PlaceAge(MakeRoom(t), k, d);
    }
  }

  lemma StepKeepsLoad<D>(t: Table<D>, op: Op<D>)
    requires WF(t) && t.autoRehash && LoadBounded(t) && !op.OpRehash? && !op.OpSetRehash?
    ensures LoadBounded(Step(t, op)) && Step(t, op).autoRehash
  {
    hide Without, Touch, Insert, Rehash, BucketOk;
    match op
    case OpInsert(k, d) => InsertKeepsLoad(t, k, d);
    case OpRemove(k) => WithoutDistinct(t.age, k);
    case _ =>
  }

  /** A table that rehashes automatically from the start never holds more than two items a bucket
      and one over. */
  lemma {:induction false} AutomaticRehashBoundsLoad<D>(t: Table<D>, ops: seq<Op<D>>)
    requires WF(t) && t.autoRehash && LoadBounded(t)
    requires forall i :: 0 <= i < |ops| ==> !ops[i].OpRehash? && !ops[i].OpSetRehash?
    ensures LoadBounded(Run(t, ops).0)
    decreases |ops|
  {
    hide WF, Step, AnswerOf;
    if ops != [] {
      StepWF(t, ops[0]);
      StepKeepsLoad(t, ops[0]);
      AutomaticRehashBoundsLoad(Step(t, ops[0]), ops[1..]);
    }
  }

  // ---- when a table grows ----

  /** Everything but the two lists, the size and the data. */
  ghost predicate SameSettings<D>(u: Table<D>, t: Table<D>)
  {
    u.hash == t.hash && u.heuristics == t.heuristics && u.autoRehash == t.autoRehash && u.bucketLimit == t.bucketLimit
  }

  /** A new key in a table that is not crowded and has no bucket limit: the size stays, the key becomes
      the newest and the first of its chain, and every other entry stays as it is, NULL data included. */
  lemma InsertAddsOne<D>(t: Table<D>, k: Key, d: Option<D>)
    requires WF(t) && k !in t.data && t.bucketLimit == 0 && !(t.autoRehash && |t.age| > 2 * t.size)
    ensures var r := Insert(t, k, d);
            && r.status == 0 && r.evicted == None && SameSettings(r.table, t)
            && r.table.size == t.size && r.table.age == t.age + [k] && r.table.data == t.data[k := d]
            && r.table.buckets == t.buckets[BucketOf(t, k) := [k] + t.buckets[BucketOf(t, k)]]
  {
  }

  /** In a crowded table it doubles the size, and if no datum is NULL everything else stays. */
  lemma InsertDoublesWhenCrowded<D>(t: Table<D>, k: Key, d: Option<D>)
    requires WF(t) && k !in t.data && t.autoRehash && |t.age| > 2 * t.size
    ensures var u := Insert(t, k, d).table;
            && u.size == 2 * t.size && SameSettings(u, t) && k in u.data && u.data[k] == d
            && (NoNullData(t) && t.bucketLimit == 0 ==> u.age == t.age + [k] && u.data == t.data[k := d])
  {
    hide Refill, BucketOk, Repeats;
    RehashWF(t, 2 * t.size);
    RoundUpOfPowerOfTwo(2 * t.size);
    RehashKeepsContents(t, 2 * t.size);
  }

  /** An insertion changes the size only then, and no other operation but a rehash does; the settings
      change only when they are set. */
  lemma StepKeepsSize<D>(t: Table<D>, op: Op<D>)
    requires WF(t) && !op.OpRehash?
    ensures Step(t, op).size != t.size ==> op.OpInsert? && t.autoRehash && |t.age| > 2 * t.size && Step(t, op).size == 2 * t.size
    ensures Step(t, op).hash == t.hash
    ensures !op.OpSetHeuristics? ==> Step(t, op).heuristics == t.heuristics
    ensures !op.OpSetRehash? ==> Step(t, op).autoRehash == t.autoRehash
    ensures !op.OpSetBoundedBuckets? ==> Step(t, op).bucketLimit == t.bucketLimit
  {
    hide Refill, BucketOk, Repeats, Touch, Without;
    match op
    case OpInsert(k, d) =>
      RehashWF(t, 2 * t.size);
      RoundUpOfPowerOfTwo(2 * t.size);
    case _ =>
  }

  /** A rehash takes the least power of two that is at least the size asked for, and keeps every
      setting. */
  lemma RehashKeepsSettings<D>(t: Table<D>, n: nat)
    requires WF(t)
    ensures SameSettings(Rehash(t, n), t) && IsPowerOfTwo(Rehash(t, n).size) && n <= Rehash(t, n).size
    ensures forall p: nat :: IsPowerOfTwo(p) && p >= n ==> Rehash(t, n).size <= p
  {
    hide Refill, BucketOk, Repeats;
    RehashWF(t, n);
    RoundUpIsPowerOfTwo(1, n);
    forall p: nat | IsPowerOfTwo(p) && p >= n ensures Rehash(t, n).size <= p { SizeIsLeastPowerOfTwo(n, p); }
  }

  /** Without a rehash on demand, a table that has grown to some size held more items than that before. */
  lemma {:induction false} GrownTablesWereFull<D>(t: Table<D>, ops: seq<Op<D>>) returns (i: nat)
    requires WF(t) && (forall j :: 0 <= j < |ops| ==> !ops[j].OpRehash?) && Run(t, ops).0.size > t.size
    ensures i < |ops| && |Run(t, ops[..i]).0.age| > Run(t, ops).0.size
    decreases |ops|
  {
    hide WF, Step, AnswerOf;
    if ops != [] {
      var u := Step(t, ops[0]);
      StepWF(t, ops[0]);
      StepKeepsSize(t, ops[0]);
      if Run(u, ops[1..]).0.size > u.size {
        var j := GrownTablesWereFull(u, ops[1..]);
        i := j + 1;
        RunPrefix(t, ops, i);
      } else {
        RunKeepsSize(u, ops[1..]);
        i := 0;
        assert ops[..0] == [];
      }
    }
  }

  lemma RunPrefix<D>(t: Table<D>, ops: seq<Op<D>>, i: nat)
    requires WF(t) && 0 < i <= |ops| && WF(Step(t, ops[0]))
    ensures Run(t, ops[..i]).0 == Run(Step(t, ops[0]), ops[1..][..i - 1]).0
  {
    hide WF, Step, AnswerOf;
    assert ops[..i][1..] == ops[1..][..i - 1];
  }

  lemma {:induction false} RunKeepsSize<D>(t: Table<D>, ops: seq<Op<D>>)
    requires WF(t) && (forall j :: 0 <= j < |ops| ==> !ops[j].OpRehash?)
    ensures Run(t, ops).0.size >= t.size
    decreases |ops|
  {
    hide WF, Step, AnswerOf;
    if ops != [] {
      StepWF(t, ops[0]);
      StepKeepsSize(t, ops[0]);
      RunKeepsSize(Step(t, ops[0]), ops[1..]);
    }
  }
}
