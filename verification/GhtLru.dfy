/** With move-to-front, a bucket limit and no automatic rehashing, every bucket of the hash table
    is a least-recently-used cache.
 */
module GhtLru {
  import opened CStrings
  import opened GhtModel

  /** A successful insert, get or replace touches its key; nothing else does. */
  function Touches<D>(t: Table<D>, op: Op<D>): seq<Key>
  {
    match op
    case OpInsert(k, d) => if k in t.data then [] else [k]
    case OpGet(k) => if k in t.data then [k] else []
    case OpReplace(k, d) => if k in t.data then [k] else []
    case _ => []
  }

  /** The time of the last touch of a key, in a log of the keys touched so far. */
  function LastTouch(log: seq<Key>, k: Key): (i: int)
    ensures -1 <= i < |log| && (i >= 0 ==> log[i] == k) && (k in log ==> i >= 0)
  {
    if log == [] then -1
    else if log[|log| - 1] == k then |log| - 1
    else LastTouch(log[..|log| - 1], k)
  }

  lemma LastTouchSnoc(log: seq<Key>, x: Key, k: Key)
    ensures LastTouch(log + [x], k) == if k == x then |log| else LastTouch(log, k)
  {
    assert (log + [x])[..|log|] == log;
  }

  ghost predicate MostRecentFirst(log: seq<Key>, chain: seq<Key>)
  {
    && (forall k :: k in chain ==> LastTouch(log, k) >= 0)
    && forall i, j :: 0 <= i < j < |chain| ==> LastTouch(log, chain[i]) > LastTouch(log, chain[j])
  }

  ghost predicate LruTable<D>(t: Table<D>, log: seq<Key>)
  {
    && WF(t) && t.heuristics == MoveToFront && t.bucketLimit > 0 && !t.autoRehash
    && forall b :: 0 <= b < t.size ==> |t.buckets[b]| <= t.bucketLimit && MostRecentFirst(log, t.buckets[b])
  }

  ghost predicate CacheOp<D>(op: Op<D>)
  {
    op.OpInsert? || op.OpGet? || op.OpReplace? || op.OpRemove?
  }

  /** What a cache owes on an insertion: a key already there is refused; otherwise an entry is
      given up exactly when the bucket is full, it is the one of that bucket touched longest ago,
      it is handed out with its data, and nothing else goes. */
  ghost predicate EvictsLeastRecent<D>(t: Table<D>, log: seq<Key>, k: Key, d: Option<D>)
    requires WF(t)
  {
    var r := Insert(t, k, d);
    var bucket := t.buckets[BucketOf(t, k)];
    if k in t.data then r == Inserted(-1, None, t)
    else if |bucket| < t.bucketLimit then r.status == 0 && r.evicted == None && r.table.data == t.data[k := d]
    else
      && r.status == 0 && r.evicted.Some?
      && var victim := r.evicted.value.0;
         && victim in bucket && victim in t.data && r.evicted.value.1 == t.data[victim]
         && (forall y :: y in bucket && y != victim ==> LastTouch(log, victim) < LastTouch(log, y))
         && r.table.data == (t.data - {victim})[k := d]
  }

  ghost predicate EveryInsertEvictsLeastRecent<D>(t: Table<D>, log: seq<Key>, ops: seq<Op<D>>)
    requires WF(t)
    decreases |ops|
  {
    ops == [] || (
      StepWF(t, ops[0]);
      && (ops[0].OpInsert? ==> EvictsLeastRecent(t, log, ops[0].k, ops[0].d))
      && EveryInsertEvictsLeastRecent(Step(t, ops[0]), log + Touches(t, ops[0]), ops[1..]))
  }

  function RunLog<D>(t: Table<D>, log: seq<Key>, ops: seq<Op<D>>): seq<Key>
    requires WF(t)
    decreases |ops|
  {
    if ops == [] then log else
    StepWF(t, ops[0]);
    RunLog(Step(t, ops[0]), log + Touches(t, ops[0]), ops[1..])
  }

  lemma ToFront(log: seq<Key>, chain: seq<Key>, k: Key)
    requires MostRecentFirst(log, chain) && k !in chain
    ensures MostRecentFirst(log + [k], [k] + chain)
  {
    forall y ensures LastTouch(log + [k], y) == if y == k then |log| else LastTouch(log, y) {
      LastTouchSnoc(log, k, y);
    }
    forall y | y in [k] + chain ensures LastTouch(log + [k], y) >= 0 { assert y == k || y in chain; }
  }

  // Touching a key elsewhere does not reorder a chain.
  lemma Elsewhere(log: seq<Key>, chain: seq<Key>, k: Key)
    requires MostRecentFirst(log, chain) && k !in chain
    ensures MostRecentFirst(log + [k], chain)
  {
    forall y | y in chain ensures LastTouch(log + [k], y) == LastTouch(log, y) { LastTouchSnoc(log, k, y); }
  }

  lemma WithoutKeepsOrder(log: seq<Key>, chain: seq<Key>, k: Key)
    requires MostRecentFirst(log, chain) && Distinct(chain)
    ensures MostRecentFirst(log, Without(chain, k))
  {
    WithoutDistinct(chain, k);
  }

  lemma EvictionStep<D>(t: Table<D>, log: seq<Key>, k: Key, d: Option<D>)
    requires LruTable(t, log)
    ensures EvictsLeastRecent(t, log, k, d)
  {
    hide IndexOf, LastTouch, Repeats, IsPowerOfTwo;
    var b := BucketOf(t, k);
    assert BucketOk(t, b);
    var chain := t.buckets[b];
    if k !in t.data && |chain| >= t.bucketLimit {
      var victim := chain[|chain| - 1];
      assert victim in chain;
      forall y | y in chain && y != victim ensures LastTouch(log, victim) < LastTouch(log, y) {
        assert chain[IndexOf(chain, y)] == y;
      }
    }
  }

  // The chains after a successful insertion.
  function ChainAfter<D>(t: Table<D>, k: Key, c: nat): seq<Key>
    requires Shape(t) && c < t.size
  {
    var chain := t.buckets[c];
    if c != BucketOf(t, k) then chain
    else if t.bucketLimit > 0 && |chain| >= t.bucketLimit then [k] + Without(chain, chain[|chain| - 1])
    else [k] + chain
  }

  lemma PlacedChains<D>(t: Table<D>, k: Key, d: Option<D>, c: nat)
    requires WF(t) && c < t.size
    ensures Place(t, k, d).table.size == t.size && Place(t, k, d).table.buckets[c] == ChainAfter(t, k, c)
  {
    assert BucketOk(t, c);
    assert BucketOk(t, BucketOf(t, k));
  }

  lemma ChainAfterIsLru<D>(t: Table<D>, log: seq<Key>, k: Key, c: nat)
    requires LruTable(t, log) && k !in t.data && c < t.size
    ensures |ChainAfter(t, k, c)| <= t.bucketLimit && MostRecentFirst(log + [k], ChainAfter(t, k, c))
  {
    assert BucketOk(t, c);
    var chain := t.buckets[c];
    if c != BucketOf(t, k) {
      Elsewhere(log, chain, k);
    } else if |chain| >= t.bucketLimit {
      WithoutDistinct(chain, chain[|chain| - 1]);
      WithoutKeepsOrder(log, chain, chain[|chain| - 1]);
      ToFront(log, Without(chain, chain[|chain| - 1]), k);
    } else {
      ToFront(log, chain, k);
    }
  }

  lemma InsertKeepsLru<D>(t: Table<D>, log: seq<Key>, k: Key, d: Option<D>)
    requires LruTable(t, log)
    ensures LruTable(Insert(t, k, d).table, log + Touches(t, OpInsert(k, d)))
  {
    InsertWF(t, k, d);
    assert log + [] == log;
    if k !in t.data {
      forall c | 0 <= c < t.size
        ensures |Place(t, k, d).table.buckets[c]| <= t.bucketLimit
        ensures MostRecentFirst(log + [k], Place(t, k, d).table.buckets[c])
      {
        PlacedChains(t, k, d, c);
        ChainAfterIsLru(t, log, k, c);
      }
    }
  }

  lemma TouchKeepsLru<D>(t: Table<D>, log: seq<Key>, k: Key)
    requires LruTable(t, log)
    ensures LruTable(TouchBucket(t, t.heuristics, k), if k in t.data then log + [k] else log)
  {
    TouchBucketWF(t, t.heuristics, k);
    var b, u := BucketOf(t, k), TouchBucket(t, t.heuristics, k);
    var log' := if k in t.data then log + [k] else log;
    forall c | 0 <= c < t.size
      ensures |u.buckets[c]| <= u.bucketLimit && MostRecentFirst(log', u.buckets[c])
    {
      assert BucketOk(t, c);
      var chain := t.buckets[c];
      if k in t.data {
        if c == b {
          WithoutDistinct(chain, k);
          WithoutKeepsOrder(log, chain, k);
          ToFront(log, Without(chain, k), k);
        } else {
          Elsewhere(log, chain, k);
        }
      }
    }
  }

  lemma RemoveKeepsLru<D>(t: Table<D>, log: seq<Key>, k: Key)
    requires LruTable(t, log)
    ensures LruTable(Remove(t, k), log)
  {
    UnlinkWF(t, k);
    forall c | 0 <= c < t.size
      ensures |Remove(t, k).buckets[c]| <= t.bucketLimit && MostRecentFirst(log, Remove(t, k).buckets[c])
    {
      assert BucketOk(t, c);
      WithoutDistinct(t.buckets[c], k);
      WithoutKeepsOrder(log, t.buckets[c], k);
    }
  }

  lemma StepKeepsLru<D>(t: Table<D>, log: seq<Key>, op: Op<D>)
    requires LruTable(t, log) && CacheOp(op)
    ensures LruTable(Step(t, op), log + Touches(t, op))
  {
    assert log + [] == log;
    match op
    case OpInsert(k, d) => InsertKeepsLru(t, log, k, d);
    case OpGet(k) => TouchKeepsLru(t, log, k);
    case OpReplace(k, d) =>
      TouchKeepsLru(t, log, k);
      ReplaceWF(t, k, d);
      assert Replace(t, k, d).buckets == TouchBucket(t, t.heuristics, k).buckets;
    case OpRemove(k) => RemoveKeepsLru(t, log, k);
  }

  /** Over every run, every chain stays within the limit and ordered most recently touched first,
      and every overflow gives up exactly the least recently touched entry of its bucket. */
  lemma {:induction false} RunIsLruCache<D>(t: Table<D>, log: seq<Key>, ops: seq<Op<D>>)
    requires LruTable(t, log) && forall i :: 0 <= i < |ops| ==> CacheOp(ops[i])
    ensures EveryInsertEvictsLeastRecent(t, log, ops)
    ensures LruTable(Run(t, ops).0, RunLog(t, log, ops))
    decreases |ops|
  {
    if ops != [] {
      StepWF(t, ops[0]);
      StepKeepsLru(t, log, ops[0]);
      if ops[0].OpInsert? { EvictionStep(t, log, ops[0].k, ops[0].d); }
      hide WF, Step, LruTable, EvictsLeastRecent;
      RunIsLruCache(Step(t, ops[0]), log + Touches(t, ops[0]), ops[1..]);
    }
  }

  /** A new table set up as a cache starts with an empty log. */
  lemma CreatedCache<D>(hash: Key -> nat, n: nat, limit: nat)
    requires limit > 0
    ensures LruTable(Create<D>(hash, n).(heuristics := MoveToFront, bucketLimit := limit), [])
  {
    CreateWF<D>(hash, n);
    StepWF(Create<D>(hash, n), OpSetHeuristics(MoveToFront));
    StepWF(Create<D>(hash, n).(heuristics := MoveToFront), OpSetBoundedBuckets(limit));
  }
}
