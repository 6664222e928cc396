/** The amortised cost of the move-to-front heuristics: over any sequence of successful lookups in
    one bucket, the chain visits at most twice the nodes any fixed order would, minus one a lookup,
    plus the number of pairs of entries.
 */
module GhtMoveToFront {
  import opened GhtModel

  /** Nodes the search visits until it finds the key. */
  function Visited(chain: seq<Key>, k: Key): (n: nat)
    requires k in chain
    ensures 1 <= n <= |chain|
  {
    IndexOf(chain, k) + 1
  }

  /** Nodes visited by a sequence of lookups in the table, each moving what it found. */
  function CostOfGets<D>(t: Table<D>, ks: seq<Key>): nat
    requires WF(t) && forall i :: 0 <= i < |ks| ==> ks[i] in t.data
    decreases |ks|
  {
    if ks == [] then 0 else
    TouchBucketWF(t, t.heuristics, ks[0]);
    assert BucketOk(t, BucketOf(t, ks[0]));
    Visited(t.buckets[BucketOf(t, ks[0])], ks[0]) + CostOfGets(Get(t, ks[0]), ks[1..])
  }

  /** Nodes visited by the same lookups in a list that never changes. */
  function CostInFixedOrder(order: seq<Key>, ks: seq<Key>): nat
    requires forall i :: 0 <= i < |ks| ==> ks[i] in order
  {
    if ks == [] then 0 else Visited(order, ks[0]) + CostInFixedOrder(order, ks[1..])
  }

  // ---- the potential: pairs the chain holds in the opposite order ----

  function Before(order: seq<Key>, y: Key, x: Key): (n: nat)
    requires x in order && y in order
    ensures n <= 1
  {
    if IndexOf(order, y) < IndexOf(order, x) then 1 else 0
  }

  function Less(s: seq<Key>, order: seq<Key>, x: Key): (n: nat)
    requires x in order && forall y :: y in s ==> y in order
    ensures n <= |s|
  {
    if s == [] then 0
    else Before(order, s[0], x) + Less(s[1..], order, x)
  }

  function Inversions(s: seq<Key>, order: seq<Key>): nat
    requires forall y :: y in s ==> y in order
  {
    if s == [] then 0 else Less(s[1..], order, s[0]) + Inversions(s[1..], order)
  }

  lemma {:induction false} InversionsBound(s: seq<Key>, order: seq<Key>)
    requires forall y :: y in s ==> y in order
    ensures 2 * Inversions(s, order) <= |s| * (|s| - 1)
  {
    if s != [] {
      InversionsBound(s[1..], order);
      Pairs(|s|);
    }
  }

  lemma Pairs(n: nat)
    ensures n * (n - 1) == (n - 1) * (n - 2) + 2 * (n - 1)
  {
  }

  lemma {:induction false} LessConcat(a: seq<Key>, b: seq<Key>, order: seq<Key>, x: Key)
    requires x in order && (forall y :: y in a ==> y in order) && forall y :: y in b ==> y in order
    ensures Less(a + b, order, x) == Less(a, order, x) + Less(b, order, x)
  {
    if a == [] {
      assert a + b == b;
    } else {
      LessConcat(a[1..], b, order, x);
      assert (a + b)[1..] == a[1..] + b;
    }
  }

  lemma OneIsBefore(order: seq<Key>, x: Key, y: Key)
    requires x in order && y in order && x != y
    ensures Before(order, x, y) + Before(order, y, x) == 1
  {
    assert order[IndexOf(order, x)] != order[IndexOf(order, y)];
  }

  lemma InversionsCons(x: Key, s: seq<Key>, order: seq<Key>)
    requires x in order && forall y :: y in s ==> y in order
    ensures Inversions([x] + s, order) == Less(s, order, x) + Inversions(s, order)
  {
    assert ([x] + s)[1..] == s;
  }

  lemma LessCons(y: Key, s: seq<Key>, order: seq<Key>, x: Key)
    requires x in order && y in order && forall z :: z in s ==> z in order
    ensures Less([y] + s, order, x) == Before(order, y, x) + Less(s, order, x)
  {
    assert ([y] + s)[1..] == s;
  }

  // Moving x over `pre` undoes the inversions with larger entries and makes those with smaller.
  lemma {:induction false} MoveChangesInversions(pre: seq<Key>, x: Key, post: seq<Key>, order: seq<Key>)
    requires x in order && (forall y :: y in pre ==> y in order) && forall y :: y in post ==> y in order
    requires x !in pre
    ensures Inversions([x] + (pre + post), order) + |pre|
         == Inversions(pre + ([x] + post), order) + 2 * Less(pre, order, x)
  {
    if pre == [] {
      assert pre + ([x] + post) == [x] + (pre + post);
    } else {
      var p, rest := pre[0], pre[1..];
      assert pre == [p] + rest;
      MoveChangesInversions(rest, x, post, order);
      MoveOverOne(p, rest, x, post, order);
    }
  }

  lemma MoveOverOne(p: Key, rest: seq<Key>, x: Key, post: seq<Key>, order: seq<Key>)
    requires x in order && p in order && p != x
    requires (forall y :: y in rest ==> y in order) && forall y :: y in post ==> y in order
    ensures Inversions([x] + ([p] + rest + post), order) + Inversions(rest + ([x] + post), order) + 1
         == Inversions([x] + (rest + post), order) + Inversions([p] + rest + ([x] + post), order)
            + 2 * (Less([p] + rest, order, x) - Less(rest, order, x))
  {
    hide Less, Inversions, Before;
    InversionsCons(p, rest + ([x] + post), order);
    LessConcat(rest, [x] + post, order, p);
    LessCons(x, post, order, p);
    InversionsCons(x, [p] + (rest + post), order);
    LessCons(p, rest + post, order, x);
    InversionsCons(p, rest + post, order);
    LessConcat(rest, post, order, p);
    InversionsCons(x, rest + post, order);
    LessCons(p, rest, order, x);
    OneIsBefore(order, x, p);
    assert [p] + rest + ([x] + post) == [p] + (rest + ([x] + post));
    assert [p] + rest + post == [p] + (rest + post);
  }

  ghost function Smaller(s: seq<Key>, order: seq<Key>, x: Key): set<Key>
    requires x in order && forall y :: y in s ==> y in order
  {
    set y | y in s && IndexOf(order, y) < IndexOf(order, x)
  }

  lemma {:induction false} LessIsSetSize(s: seq<Key>, order: seq<Key>, x: Key)
    requires Distinct(s) && x in order && forall y :: y in s ==> y in order
    ensures Less(s, order, x) == |Smaller(s, order, x)|
  {
    if s != [] {
      hide IndexOf;
      LessIsSetSize(s[1..], order, x);
      var tail := Smaller(s[1..], order, x);
      assert s[0] !in tail;
      if IndexOf(order, s[0]) < IndexOf(order, x) {
        assert Smaller(s, order, x) == tail + {s[0]};
      } else {
        assert Smaller(s, order, x) == tail;
      }
    }
  }

  lemma {:induction false} PrefixSetSize(s: seq<Key>)
    ensures |set y | y in s| <= |s|
  {
    if s != [] {
      PrefixSetSize(s[1..]);
      assert (set y | y in s) == (set y | y in s[1..]) + {s[0]};
    }
  }

  lemma LessAtMostPosition(s: seq<Key>, order: seq<Key>, x: Key)
    requires Distinct(s) && x in order && forall y :: y in s ==> y in order
    ensures Less(s, order, x) <= IndexOf(order, x)
  {
    LessIsSetSize(s, order, x);
    var before := order[..IndexOf(order, x)];
    forall y | y in Smaller(s, order, x) ensures y in before {
      assert before[IndexOf(order, y)] == y;
    }
    PrefixSetSize(before);
    SubsetSize(Smaller(s, order, x), set y | y in before);
  }

  lemma {:induction false} SubsetSize<T>(a: set<T>, b: set<T>)
    requires a <= b
    ensures |a| <= |b|
  {
    if a != {} {
      var x :| x in a;
      SubsetSize(a - {x}, b - {x});
    }
  }

  lemma OneLookup(chain: seq<Key>, order: seq<Key>, k: Key)
    requires Distinct(chain) && k in chain && forall y :: y in chain ==> y in order
    ensures forall y :: y in Touch(MoveToFront, chain, k) ==> y in order
    ensures Visited(chain, k) + Inversions(Touch(MoveToFront, chain, k), order)
         <= Inversions(chain, order) + 2 * Visited(order, k) - 1
  {
    hide Less, Inversions;
    var i := IndexOf(chain, k);
    var pre, post := chain[..i], chain[i + 1..];
    MoveChangesInversions(pre, k, post, order);
    LessAtMostPosition(pre, order, k);
    assert chain == pre + ([k] + post);
    WithoutDistinct(chain, k);
    assert Touch(MoveToFront, chain, k) == [k] + (pre + post);
  }

  lemma {:induction false} GetsWithPotential<D>(t: Table<D>, b: nat, ks: seq<Key>, order: seq<Key>)
    requires WF(t) && t.heuristics == MoveToFront && b < t.size
    requires forall y :: y in t.buckets[b] ==> y in order
    requires forall i :: 0 <= i < |ks| ==> ks[i] in t.data && BucketOf(t, ks[i]) == b && ks[i] in order
    ensures CostOfGets(t, ks) + |ks| <= 2 * CostInFixedOrder(order, ks) + Inversions(t.buckets[b], order)
    decreases |ks|
  {
    if ks != [] {
      assert BucketOk(t, b);
      TouchBucketWF(t, t.heuristics, ks[0]);
      OneLookup(t.buckets[b], order, ks[0]);
      var u := Get(t, ks[0]);
      assert u.buckets[b] == Touch(MoveToFront, t.buckets[b], ks[0]);
      GetsWithPotential(u, b, ks[1..], order);
    }
  }

  /** The bound, for every table, bucket, sequence of lookups and fixed order of that bucket. */
  lemma MoveToFrontIsCompetitive<D>(t: Table<D>, b: nat, ks: seq<Key>, order: seq<Key>)
    requires WF(t) && t.heuristics == MoveToFront && b < t.size
    requires Distinct(order) && forall y :: y in order <==> y in t.buckets[b]
    requires forall i :: 0 <= i < |ks| ==> ks[i] in t.buckets[b]
    ensures forall i :: 0 <= i < |ks| ==> ks[i] in t.data
    ensures CostOfGets(t, ks) <= 2 * CostInFixedOrder(order, ks) - |ks| + |order| * (|order| - 1) / 2
  {
    assert BucketOk(t, b);
    SameElementsSameLength(order, t.buckets[b]);
    GetsWithPotential(t, b, ks, order);
    InversionsBound(t.buckets[b], order);
  }
}
