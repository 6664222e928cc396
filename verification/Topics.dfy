/** Subscriptions and matching as values: which topics are stored after a run of subscriptions
    (src/protocol/subcli.c), and which of them a message is published to (src/protocol/pubcli.c).
 */
module Topics {
  import opened CStrings

  /** The alphabet of the trie. */
  predicate IsLetter(c: char)
  {
    'a' <= c <= 'z' || 'A' <= c <= 'Z'
  }

  predicate Storable(key: string)
  {
    forall i :: 0 <= i < |key| ==> IsLetter(key[i])
  }

  datatype Subscription<C> = Subscription(client: C, channel: string)

  /** The keys of the trie, and the table from channels to the clients registered for them. */
  datatype State<C> = State(trie: set<string>, table: map<string, seq<C>>)

  function Empty<C>(): State<C>
  {
    State({}, map[])
  }

  /** `subscribe_channel`: the trie stores the channel up to its first NUL, the table all of it. */
  function Subscribe<C>(t: State<C>, s: Subscription<C>): (bool, State<C>)
  {
    var key := CStr(s.channel);
    if key in t.trie then (true, t)
    else if !Storable(key) then (false, t)
    else if s.channel in t.table then (false, t.(trie := t.trie + {key}))
    else (true, State(t.trie + {key}, t.table[s.channel := [s.client]]))
  }

  function Run<C>(subs: seq<Subscription<C>>): State<C>
  {
    if subs == [] then Empty() else Subscribe(Run(subs[..|subs| - 1]), subs[|subs| - 1]).1
  }

  /** No earlier subscription has the same trie key. */
  ghost predicate IsFirst<C>(subs: seq<Subscription<C>>, i: nat)
    requires i < |subs|
  {
    forall j :: 0 <= j < i ==> CStr(subs[j].channel) != CStr(subs[i].channel)
  }

  ghost predicate Stores<C>(subs: seq<Subscription<C>>, i: nat)
    requires i < |subs|
  {
    IsFirst(subs, i) && Storable(CStr(subs[i].channel))
  }

  /** The subscriptions that count are the first ones of each storable key: they, and no others,
      are in the trie and in the table, each with its own client alone. */
  ghost predicate Tracks<C>(t: State<C>, subs: seq<Subscription<C>>)
  {
    && (forall i :: 0 <= i < |subs| && Stores(subs, i) ==>
          CStr(subs[i].channel) in t.trie && subs[i].channel in t.table && t.table[subs[i].channel] == [subs[i].client])
    && (forall k :: k in t.trie ==> exists i :: 0 <= i < |subs| && Stores(subs, i) && CStr(subs[i].channel) == k)
    && (forall k :: k in t.table ==> exists i :: 0 <= i < |subs| && Stores(subs, i) && subs[i].channel == k)
  }

  // The first subscription with the trie key of the last one.
  lemma {:induction false} FirstOfKey<C>(subs: seq<Subscription<C>>, n: nat, key: string) returns (i: nat)
    requires n < |subs| && CStr(subs[n].channel) == key
    ensures i <= n && CStr(subs[i].channel) == key && IsFirst(subs, i)
    decreases n
  {
    if j :| 0 <= j < n && CStr(subs[j].channel) == key {
      i := FirstOfKey(subs, j, key);
    } else {
      i := n;
    }
  }

  lemma StoresPrefix<C>(subs: seq<Subscription<C>>, s: Subscription<C>, i: nat)
    requires i < |subs|
    ensures Stores(subs + [s], i) <==> Stores(subs, i)
  {
    assert forall j :: 0 <= j <= i ==> (subs + [s])[j] == subs[j];
  }

  lemma NewKeyIsFirst<C>(t: State<C>, subs: seq<Subscription<C>>, key: string)
    requires Tracks(t, subs) && key !in t.trie && Storable(key)
    ensures forall j :: 0 <= j < |subs| ==> CStr(subs[j].channel) != key
  {
    forall j | 0 <= j < |subs| ensures CStr(subs[j].channel) != key {
      if CStr(subs[j].channel) == key {
        var f := FirstOfKey(subs, j, key);
      }
    }
  }

  // The new subscription counts exactly when its key is new and storable.
  lemma NewOneStores<C>(t: State<C>, subs: seq<Subscription<C>>, s: Subscription<C>)
    requires Tracks(t, subs)
    ensures Stores(subs + [s], |subs|) <==> CStr(s.channel) !in t.trie && Storable(CStr(s.channel))
    ensures CStr(s.channel) !in t.trie && Storable(CStr(s.channel)) ==> s.channel !in t.table
  {
    var all, key := subs + [s], CStr(s.channel);
    if key in t.trie {
      var i :| 0 <= i < |subs| && Stores(subs, i) && CStr(subs[i].channel) == key;
      assert CStr(all[i].channel) == key;
    } else if Storable(key) {
      NewKeyIsFirst(t, subs, key);
    }
  }

  // One clause of `Tracks` after the other, for one more subscription.
  lemma StoredIsKept<C>(t: State<C>, subs: seq<Subscription<C>>, s: Subscription<C>, i: nat)
    requires Tracks(t, subs) && i <= |subs| && Stores(subs + [s], i)
    ensures var all, u := subs + [s], Subscribe(t, s).1;
            CStr(all[i].channel) in u.trie && all[i].channel in u.table && u.table[all[i].channel] == [all[i].client]
  {
    hide Stores, Storable;
    NewOneStores(t, subs, s);
    assert (subs + [s])[|subs|] == s;
    if i < |subs| {
      StoresPrefix(subs, s, i);
      assert (subs + [s])[i] == subs[i];
    }
  }

  lemma TrieKeyIsStored<C>(t: State<C>, subs: seq<Subscription<C>>, s: Subscription<C>, k: string)
    requires Tracks(t, subs) && k in Subscribe(t, s).1.trie
    ensures exists i :: 0 <= i <= |subs| && Stores(subs + [s], i) && CStr((subs + [s])[i].channel) == k
  {
    hide Stores, Storable;
    var all := subs + [s];
    NewOneStores(t, subs, s);
    if k in t.trie {
      var i :| 0 <= i < |subs| && Stores(subs, i) && CStr(subs[i].channel) == k;
      StoresPrefix(subs, s, i);
      assert all[i] == subs[i];
      assert Stores(all, i) && CStr(all[i].channel) == k;
    } else {
      assert all[|subs|] == s;
      assert Stores(all, |subs|) && CStr(all[|subs|].channel) == k;
    }
  }

  lemma TableKeyIsStored<C>(t: State<C>, subs: seq<Subscription<C>>, s: Subscription<C>, k: string)
    requires Tracks(t, subs) && k in Subscribe(t, s).1.table
    ensures exists i :: 0 <= i <= |subs| && Stores(subs + [s], i) && (subs + [s])[i].channel == k
  {
    hide Stores, Storable;
    var all := subs + [s];
    NewOneStores(t, subs, s);
    if k in t.table {
      var i :| 0 <= i < |subs| && Stores(subs, i) && subs[i].channel == k;
      StoresPrefix(subs, s, i);
      assert all[i] == subs[i];
      assert Stores(all, i) && all[i].channel == k;
    } else {
      assert all[|subs|] == s;
      assert Stores(all, |subs|) && all[|subs|].channel == k;
    }
  }

  lemma TracksStep<C>(t: State<C>, subs: seq<Subscription<C>>, s: Subscription<C>)
    requires Tracks(t, subs)
    ensures Tracks(Subscribe(t, s).1, subs + [s])
  {
    hide Stores, Subscribe;
    var all, u := subs + [s], Subscribe(t, s).1;
    forall i | 0 <= i < |all| && Stores(all, i)
      ensures CStr(all[i].channel) in u.trie && all[i].channel in u.table && u.table[all[i].channel] == [all[i].client]
    {
      StoredIsKept(t, subs, s, i);
    }
    forall k | k in u.trie ensures exists i :: 0 <= i < |all| && Stores(all, i) && CStr(all[i].channel) == k {
      TrieKeyIsStored(t, subs, s, k);
    }
    forall k | k in u.table ensures exists i :: 0 <= i < |all| && Stores(all, i) && all[i].channel == k {
      TableKeyIsStored(t, subs, s, k);
    }
  }

  lemma NothingTracked<C>()
    ensures Tracks<C>(Empty(), [])
  {
  }

  /** After every run of subscriptions, trie and table hold exactly the first subscription of each
      storable key: a later subscriber to the same topic is not registered. */
  lemma {:induction false} RunTracks<C>(subs: seq<Subscription<C>>)
    ensures Tracks(Run(subs), subs)
    decreases |subs|
  {
    hide Tracks, Subscribe;
    NothingTracked<C>();
    if subs != [] {
      var n := |subs| - 1;
      RunTracks(subs[..n]);
      TracksStep(Run(subs[..n]), subs[..n], subs[n]);
      assert subs[..n] + [subs[n]] == subs;
    }
  }

  lemma TrieKeysAreNulFree<C>(t: State<C>, subs: seq<Subscription<C>>)
    requires Tracks(t, subs)
    ensures forall k :: k in t.trie ==> NulFree(k)
  {
  }

  lemma KeysAgree<C>(t: State<C>, subs: seq<Subscription<C>>)
    requires Tracks(t, subs) && forall i :: 0 <= i < |subs| && Stores(subs, i) ==> CStr(subs[i].channel) == subs[i].channel
    ensures t.trie == t.table.Keys
  {
    hide Stores;
  }

  lemma KeysDiffer<C>(t: State<C>, subs: seq<Subscription<C>>, i: nat)
    requires Tracks(t, subs) && i < |subs| && Stores(subs, i) && !NulFree(subs[i].channel)
    ensures t.trie != t.table.Keys
  {
    hide Stores;
    TrieKeysAreNulFree(t, subs);
    assert subs[i].channel in t.table.Keys;
  }

  /** The trie and the table then have the same keys exactly when no stored channel holds a NUL. */
  lemma TrieAndTableAgree<C>(subs: seq<Subscription<C>>)
    ensures Run(subs).trie == Run(subs).table.Keys
       <==> forall i :: 0 <= i < |subs| && Stores(subs, i) ==> NulFree(subs[i].channel)
  {
    hide Stores, Tracks, Run, NulFree;
    RunTracks(subs);
    if i: nat :| i < |subs| && Stores(subs, i) && !NulFree(subs[i].channel) {
      KeysDiffer(Run(subs), subs, i);
    } else {
      forall i | 0 <= i < |subs| && Stores(subs, i) ensures CStr(subs[i].channel) == subs[i].channel {
        CStrOfNulFree(subs[i].channel);
      }
      KeysAgree(Run(subs), subs);
    }
  }

  /** The answer to one more subscription, after any run: it succeeds exactly if the channel, up to its
      first NUL, is made of letters, the second subscription to a topic like the first; and it changes
      something exactly if it is the first. */
  lemma SubscribeAnswers<C>(subs: seq<Subscription<C>>, s: Subscription<C>)
    ensures Subscribe(Run(subs), s).0
       <==> forall i :: 0 <= i < |CStr(s.channel)| ==>
              65 <= CStr(s.channel)[i] as int <= 90 || 97 <= CStr(s.channel)[i] as int <= 122
    ensures Subscribe(Run(subs), s).1 == Run(subs) <==> !Stores(subs + [s], |subs|)
  {
    hide Run, Stores, Tracks, Storable;
    RunTracks(subs);
    NewOneStores(Run(subs), subs, s);
    LettersAre(CStr(s.channel));
    if CStr(s.channel) in Run(subs).trie { StoredIsStorable(Run(subs), subs, CStr(s.channel)); }
  }

  lemma LettersAre(key: string)
    ensures Storable(key) <==> forall i :: 0 <= i < |key| ==> 65 <= key[i] as int <= 90 || 97 <= key[i] as int <= 122
  {
  }

  lemma StoredIsStorable<C>(t: State<C>, subs: seq<Subscription<C>>, key: string)
    requires Tracks(t, subs) && key in t.trie
    ensures Storable(key)
  {
    hide Storable;
  }

  // ---- publishing ----

  /** The naive scan: the stored keys that are non-empty prefixes of the first n bytes, by length. */
  function Matches(keys: set<string>, msg: string, n: nat): seq<string>
    requires n <= |msg|
  {
    if n == 0 then [] else Matches(keys, msg, n - 1) + if msg[..n] in keys then [msg[..n]] else []
  }

  /** The scan finds exactly the non-empty keys the message starts with, each once, in strictly
      increasing length. */
  lemma {:induction false} MatchesAreThePrefixes(keys: set<string>, msg: string, n: nat)
    requires n <= |msg|
    ensures forall k :: k in Matches(keys, msg, n) <==> k in keys && 0 < |k| <= n && k <= msg
    ensures forall i, j :: 0 <= i < j < |Matches(keys, msg, n)| ==> |Matches(keys, msg, n)[i]| < |Matches(keys, msg, n)[j]|
  {
    if n > 0 {
      MatchesAreThePrefixes(keys, msg, n - 1);
      var before := Matches(keys, msg, n - 1);
      forall i | 0 <= i < |before| ensures |before[i]| < n { assert before[i] in before; }
      forall k ensures k in Matches(keys, msg, n) <==> k in keys && 0 < |k| <= n && k <= msg {
        assert |k| == n && k <= msg ==> k == msg[..n];
      }
    }
  }

  /** How often a client is registered for a channel. */
  ghost function Registered<C>(table: map<string, seq<C>>, channel: string, c: C): nat
  {
    if channel in table then multiset(table[channel])[c] else 0
  }

  /** How often a client is to be served: once for each registration under a matching key. */
  ghost function Served<C>(table: map<string, seq<C>>, matches: seq<string>, c: C): nat
  {
    if matches == [] then 0
    else
      var last := matches[|matches| - 1];
      Served(table, matches[..|matches| - 1], c) + Registered(table, last, c)
  }

  lemma RegisteredClient<C>(subs: seq<Subscription<C>>, k: string, c: C)
    ensures Registered(Run(subs).table, k, c) > 0
       <==> exists i :: 0 <= i < |subs| && Stores(subs, i) && subs[i].channel == k && subs[i].client == c
  {
    RunTracks(subs);
    var t := Run(subs);
    if k in t.table {
      var i :| 0 <= i < |subs| && Stores(subs, i) && subs[i].channel == k;
      assert t.table[k] == [subs[i].client];
    }
  }

  /** Who is served: exactly the clients that were the first to subscribe to a matching topic. */
  lemma {:induction false} ServedAreFirstSubscribers<C>(subs: seq<Subscription<C>>, matches: seq<string>, c: C)
    ensures Served(Run(subs).table, matches, c) > 0
       <==> exists i :: 0 <= i < |subs| && Stores(subs, i) && subs[i].channel in matches && subs[i].client == c
    decreases |matches|
  {
    if matches != [] {
      hide Run, Stores;
      var n := |matches| - 1;
      ServedAreFirstSubscribers(subs, matches[..n], c);
      RegisteredClient(subs, matches[n], c);
      assert forall k :: k in matches <==> k in matches[..n] || k == matches[n];
    }
  }

  /** A message goes to a client exactly when it was the first to subscribe to some storable topic
      that the message starts with. */
  lemma MessageReaches<C>(subs: seq<Subscription<C>>, msg: string, c: C)
    requires NulFree(msg)
    ensures Served(Run(subs).table, Matches(Run(subs).trie, msg, |msg|), c) > 0
       <==> exists i :: 0 <= i < |subs| && Stores(subs, i) && subs[i].client == c
                        && subs[i].channel != [] && subs[i].channel <= msg
  {
    hide Run, Matches, Served, Stores, Tracks;
    RunTracks(subs);
    ServedAreFirstSubscribers(subs, Matches(Run(subs).trie, msg, |msg|), c);
    forall i | 0 <= i < |subs| && Stores(subs, i)
      ensures subs[i].channel in Matches(Run(subs).trie, msg, |msg|) <==> subs[i].channel != [] && subs[i].channel <= msg
    {
      ChannelMatches(Run(subs), subs, i, msg);
    }
  }

  lemma ChannelMatches<C>(t: State<C>, subs: seq<Subscription<C>>, i: nat, msg: string)
    requires Tracks(t, subs) && i < |subs| && Stores(subs, i) && NulFree(msg)
    ensures var k := subs[i].channel;
            k in Matches(t.trie, msg, |msg|) <==> k != [] && k <= msg
  {
    hide Stores;
    var k := subs[i].channel;
    MatchesAreThePrefixes(t.trie, msg, |msg|);
    if k <= msg {
      CStrOfNulFree(k);
    }
  }

  // ---- how often ----

  /** What a message is to be served to a client for its first n prefixes. */
  ghost function Total<C>(t: State<C>, msg: string, n: nat, c: C): nat
    requires n <= |msg|
  {
    if n == 0 then 0
    else Total(t, msg, n - 1, c) + if msg[..n] in t.trie then Registered(t.table, msg[..n], c) else 0
  }

  lemma {:induction false} ServedIsTotal<C>(t: State<C>, msg: string, n: nat, c: C)
    requires n <= |msg|
    ensures Served(t.table, Matches(t.trie, msg, n), c) == Total(t, msg, n, c)
  {
    if n > 0 {
      hide Registered;
      ServedIsTotal(t, msg, n - 1, c);
      var before := Matches(t.trie, msg, n - 1);
      assert before + [] == before;
      assert (before + [msg[..n]])[..|before|] == before;
    }
  }

  /** Whether a subscription of c to a channel counts for the first n bytes of a message. */
  ghost predicate Counts<C>(s: Subscription<C>, msg: string, n: nat, c: C)
  {
    s.client == c && 0 < |s.channel| <= n && s.channel <= msg
  }

  ghost predicate TrieCoversTable<C>(t: State<C>)
  {
    forall k :: k in t.table ==> CStr(k) in t.trie
  }

  lemma TracksCovers<C>(t: State<C>, subs: seq<Subscription<C>>)
    requires Tracks(t, subs)
    ensures TrieCoversTable(t)
  {
    hide Stores;
  }

  // One prefix, before and after a new topic.
  lemma TotalTerm<C>(t: State<C>, s: Subscription<C>, msg: string, n: nat, c: C)
    requires NulFree(msg) && 0 < n <= |msg| && TrieCoversTable(t) && CStr(s.channel) !in t.trie
    ensures var u := State(t.trie + {CStr(s.channel)}, t.table[s.channel := [s.client]]);
            var before := if msg[..n] in t.trie then Registered(t.table, msg[..n], c) else 0;
            var after := if msg[..n] in u.trie then Registered(u.table, msg[..n], c) else 0;
            after == before + if s.channel == msg[..n] && s.client == c then 1 else 0
  {
    CStrOfNulFree(msg[..n]);
    CStrOfNulFree(s.channel);
  }

  lemma {:induction false} TotalOfNewTopic<C>(t: State<C>, s: Subscription<C>, msg: string, n: nat, c: C)
    requires NulFree(msg) && n <= |msg| && TrieCoversTable(t) && CStr(s.channel) !in t.trie
    ensures Total(State(t.trie + {CStr(s.channel)}, t.table[s.channel := [s.client]]), msg, n, c)
         == Total(t, msg, n, c) + if Counts(s, msg, n, c) then 1 else 0
  {
    if n > 0 {
      hide Registered;
      TotalOfNewTopic(t, s, msg, n - 1, c);
      TotalTerm(t, s, msg, n, c);
    }
  }

  /** The first subscriptions of c to storable topics the message starts with. */
  ghost function FirstMatching<C>(subs: seq<Subscription<C>>, msg: string, c: C): set<nat>
  {
    set i | 0 <= i < |subs| && Stores(subs, i) && Counts(subs[i], msg, |msg|, c)
  }

  lemma MatchingBefore<C>(subs: seq<Subscription<C>>, s: Subscription<C>, msg: string, c: C, i: nat)
    requires i < |subs|
    ensures i in FirstMatching(subs + [s], msg, c) <==> i in FirstMatching(subs, msg, c)
  {
    hide Stores, Counts;
    StoresPrefix(subs, s, i);
    assert (subs + [s])[i] == subs[i];
  }

  lemma MatchingLast<C>(subs: seq<Subscription<C>>, s: Subscription<C>, msg: string, c: C)
    ensures |subs| in FirstMatching(subs + [s], msg, c) <==> Stores(subs + [s], |subs|) && Counts(s, msg, |msg|, c)
    ensures |subs| !in FirstMatching(subs, msg, c)
    ensures forall i :: i in FirstMatching(subs, msg, c) ==> i < |subs|
    ensures forall i :: i in FirstMatching(subs + [s], msg, c) ==> i <= |subs|
  {
    hide Stores, Counts;
    assert (subs + [s])[|subs|] == s;
  }

  lemma FirstMatchingSnoc<C>(subs: seq<Subscription<C>>, s: Subscription<C>, msg: string, c: C)
    ensures var last := Stores(subs + [s], |subs|) && Counts(s, msg, |msg|, c);
            |FirstMatching(subs + [s], msg, c)| == |FirstMatching(subs, msg, c)| + if last then 1 else 0
  {
    hide Stores, Counts, FirstMatching;
    var before, after := FirstMatching(subs, msg, c), FirstMatching(subs + [s], msg, c);
    MatchingLast(subs, s, msg, c);
    forall i | 0 <= i < |subs| ensures i in after <==> i in before { MatchingBefore(subs, s, msg, c, i); }
    if |subs| in after {
      assert after == before + {|subs|};
    } else {
      assert after == before;
    }
  }

  /** How often a message goes to a client, after any run: once for each of its first subscriptions
      to a storable non-empty topic the message starts with. */
  lemma {:induction false} ServedOncePerTopic<C>(subs: seq<Subscription<C>>, msg: string, c: C)
    requires NulFree(msg)
    ensures Served(Run(subs).table, Matches(Run(subs).trie, msg, |msg|), c) == |FirstMatching(subs, msg, c)|
    decreases |subs|
  {
    hide Tracks, Stores, Served, Matches, Counts, Storable, TrieCoversTable, Total, FirstMatching;
    ServedIsTotal(Run(subs), msg, |msg|, c);
    if subs == [] {
      NothingServed(subs, msg, |msg|, c);
    } else {
      var n := |subs| - 1;
      var before, s := subs[..n], subs[n];
      var t := Run(before);
      assert before + [s] == subs;
      ServedOncePerTopic(before, msg, c);
      ServedIsTotal(t, msg, |msg|, c);
      RunTracks(before);
      TracksCovers(t, before);
      NewOneStores(t, before, s);
      FirstMatchingSnoc(before, s, msg, c);
      if CStr(s.channel) !in t.trie && Storable(CStr(s.channel)) {
        TotalOfNewTopic(t, s, msg, |msg|, c);
      }
    }
  }

  lemma {:induction false} NothingServed<C>(subs: seq<Subscription<C>>, msg: string, n: nat, c: C)
    requires subs == [] && n <= |msg|
    ensures Total(Run(subs), msg, n, c) == 0 && FirstMatching(subs, msg, c) == {}
  {
    if n > 0 { NothingServed(subs, msg, n - 1, c); }
  }
}
