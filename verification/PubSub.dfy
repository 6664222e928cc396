/** The server side of a publication: the trie walk of src/common/trie_util.c, subscription of
    src/protocol/subcli.c, and fan-out of src/protocol/pubcli.c.
 */
module PubSub {
  import opened CStrings
  import Decimal
  import GhtModel
  import opened GhtTable
  import opened Resp
  import Sds
  import opened SubClient
  import Topics

  // ---- the trie walk ----

  /** A walk in a trie of letter strings: the letters walked so far. */
  class TrieState {
    const keys: set<string>
    var walked: string

    constructor (keys: set<string>)
      ensures this.keys == keys && walked == []
    {
      this.keys, walked := keys, [];
    }

    predicate IsWalkable(c: char)
      reads this
    {
      exists k :: k in keys && walked + [c] <= k
    }

    predicate IsTerminal()
      reads this
    {
      walked in keys
    }

    method Walk(c: char)
      requires IsWalkable(c)
      modifies this
      ensures walked == old(walked) + [c]
    {
      walked := walked + [c];
    }
  }

  function Walked(start: string, alpha: string, from: nat, to: nat): string
    requires from <= to <= |alpha|
  {
    start + alpha[from..to]
  }

  /** Walk on from position `cur` to the next stored key; -1 when there is none. */
  method TrieWalker(s: TrieState, alpha: string, cur: nat) returns (r: int)
    requires cur <= |alpha|
    modifies s
    ensures r == -1 || cur <= r < |alpha|
    ensures r >= 0 ==> s.walked == Walked(old(s.walked), alpha, cur, r + 1) && s.walked in s.keys
    ensures forall j :: cur < j <= (if r >= 0 then r else |alpha|) ==> Walked(old(s.walked), alpha, cur, j) !in s.keys
  {
    var i := cur;
    ghost var start := s.walked;
    assert Walked(start, alpha, cur, cur) == start;
    while i < |alpha|
      invariant cur <= i <= |alpha| && s.walked == Walked(start, alpha, cur, i)
      invariant forall j :: cur < j <= i ==> Walked(start, alpha, cur, j) !in s.keys
    {
      assert Walked(start, alpha, cur, i + 1) == s.walked + [alpha[i]];
      if s.IsWalkable(alpha[i]) {
        s.Walk(alpha[i]);
        if s.IsTerminal() {
          return i;
        }
      } else {
        forall j | i < j <= |alpha| ensures Walked(start, alpha, cur, j) !in s.keys {
          assert s.walked + [alpha[i]] <= Walked(start, alpha, cur, j);
        }
        return -1;
      }
      i := i + 1;
    }
    return -1;
  }

  // ---- what a client receives ----

  /** The reply buffer after n deliveries of a message. */
  function Delivered(w: string, msg: string, n: nat): string
  {
    if n == 0 then w else WithBulk(Delivered(w, msg, n - 1), msg)
  }

  function Copies(msg: string, n: nat): seq<string>
  {
    if n == 0 then [] else Copies(msg, n - 1) + [msg]
  }

  lemma NoFrames()
    ensures Frames([]) == []
  {
  }

  lemma BulkStaysInside(w: string, msg: string)
    requires |w| <= SUB_WRITE_BUF_LEN
    ensures |WithBulk(w, msg)| <= SUB_WRITE_BUF_LEN
  {
  }

  /** n deliveries are n whole frames exactly when all of them fit. */
  lemma {:induction false} DeliveredAreFrames(w: string, msg: string, n: nat)
    requires |w| <= SUB_WRITE_BUF_LEN
    ensures |Delivered(w, msg, n)| <= SUB_WRITE_BUF_LEN
    ensures Delivered(w, msg, n) == w + Frames(Copies(msg, n)) <==> |w| + |Frames(Copies(msg, n))| <= SUB_WRITE_BUF_LEN
  {
    hide Frame, Frames, WithBulk;
    NoFrames();
    if n > 0 {
      var before := Copies(msg, n - 1);
      FramesSnoc(before, msg);
      DeliveredAreFrames(w, msg, n - 1);
      BulkStaysInside(Delivered(w, msg, n - 1), msg);
      if |w| + |Frames(Copies(msg, n))| <= SUB_WRITE_BUF_LEN {
        BulkIsFrameIffItFits(w + Frames(before), msg);
        assert w + Frames(before) + Frame(msg) == w + (Frames(before) + Frame(msg));
      }
    } else {
      assert w + [] == w;
    }
  }

  lemma DeliveredMore(w: string, msg: string, m: nat, n: nat)
    ensures Delivered(Delivered(w, msg, m), msg, n) == Delivered(w, msg, m + n)
  {
  }

  /** No prefix longer than m, and no longer than n, is a key. */
  ghost predicate Gap(keys: set<string>, msg: string, m: nat, n: nat)
    requires n <= |msg|
  {
    forall j :: m < j <= n ==> msg[..j] !in keys
  }

  /** From the key of length m, the trie walk goes to the next longer prefix that is a key. */
  method NextKey(s: TrieState, msg: string, m: nat) returns (cur: int)
    requires m <= |msg| && s.walked == msg[..m]
    modifies s
    ensures cur == -1 || m <= cur < |msg|
    ensures cur >= 0 ==> s.walked == msg[..cur + 1] && msg[..cur + 1] in s.keys && Gap(s.keys, msg, m, cur)
    ensures cur == -1 ==> Gap(s.keys, msg, m, |msg|)
  {
    cur := TrieWalker(s, msg, m);
    assert forall j :: m <= j <= |msg| ==> Walked(msg[..m], msg, m, j) == msg[..j];
  }

  /** Lengths at which the walk stops nowhere add nothing to the naive scan. */
  lemma {:induction false} MatchesSkip(keys: set<string>, msg: string, m: nat, n: nat)
    requires m <= n <= |msg| && Gap(keys, msg, m, n)
    ensures Topics.Matches(keys, msg, n) == Topics.Matches(keys, msg, m)
  {
    if m < n {
      MatchesSkip(keys, msg, m, n - 1);
    }
  }

  lemma MatchesNext(keys: set<string>, msg: string, m: nat, cur: nat)
    requires m <= cur < |msg| && Gap(keys, msg, m, cur) && msg[..cur + 1] in keys
    ensures Topics.Matches(keys, msg, cur + 1) == Topics.Matches(keys, msg, m) + [msg[..cur + 1]]
  {
    MatchesSkip(keys, msg, m, cur);
  }

  /** Clients whose reply buffers are in order and not shared. */
  ghost predicate Separate(clients: set<SubscribeClient>)
    reads clients`wbufpos
  {
    && (forall c :: c in clients ==> c.Writable())
    && (forall c, d :: c in clients && d in clients && c != d ==> c.wbuf != d.wbuf)
  }

  /** What each client has in its reply buffer. */
  ghost function Buffers(clients: set<SubscribeClient>): (w: map<SubscribeClient, string>)
    requires Separate(clients)
    reads clients`wbufpos, set c | c in clients :: c.wbuf
    ensures w.Keys == clients && forall c :: c in clients ==> w[c] == c.Written()
  {
    map c | c in clients :: c.Written()
  }

  function Subscribers(table: map<string, Clients>, channel: string): Clients
  {
    if channel in table then table[channel] else []
  }

  /** The reply buffers after one delivery to each of `subs` in turn. */
  ghost function After(w: map<SubscribeClient, string>, msg: string, subs: seq<SubscribeClient>): (r: map<SubscribeClient, string>)
    requires forall c :: c in subs ==> c in w
    ensures r.Keys == w.Keys
  {
    if subs == [] then w
    else
      var n := |subs| - 1;
      var before := After(w, msg, subs[..n]);
      before[subs[n] := WithBulk(before[subs[n]], msg)]
  }

  lemma {:induction false} AfterCounts(w: map<SubscribeClient, string>, msg: string, subs: seq<SubscribeClient>, c: SubscribeClient)
    requires c in w && forall d :: d in subs ==> d in w
    ensures After(w, msg, subs)[c] == Delivered(w[c], msg, multiset(subs)[c])
  {
    hide WithBulk;
    if subs != [] {
      var n := |subs| - 1;
      AfterCounts(w, msg, subs[..n], c);
      assert subs == subs[..n] + [subs[n]];
    }
  }

  lemma AfterOneMore(w: map<SubscribeClient, string>, msg: string, subs: seq<SubscribeClient>, i: nat)
    requires i < |subs| && forall c :: c in subs ==> c in w
    ensures forall c :: c in subs[..i] || c in subs[..i + 1] ==> c in w
    ensures var before := After(w, msg, subs[..i]);
            After(w, msg, subs[..i + 1]) == before[subs[i] := WithBulk(before[subs[i]], msg)]
  {
    hide WithBulk;
    assert subs[..i + 1][..i] == subs[..i];
  }

  lemma AfterEnds(w: map<SubscribeClient, string>, msg: string, subs: seq<SubscribeClient>)
    ensures After(w, msg, []) == w && subs[..0] == [] && subs[..|subs|] == subs
  {
  }

  /** The reply buffers after a message went out under each of `matches` in turn. */
  ghost function Published(w: map<SubscribeClient, string>, msg: string, table: map<string, Clients>, matches: seq<string>)
    : (r: map<SubscribeClient, string>)
    requires forall k, c :: k in table && c in table[k] ==> c in w
    ensures r.Keys == w.Keys
  {
    if matches == [] then w
    else
      var n := |matches| - 1;
      After(Published(w, msg, table, matches[..n]), msg, Subscribers(table, matches[n]))
  }

  lemma PublishedOneMore(w: map<SubscribeClient, string>, msg: string, table: map<string, Clients>, matches: seq<string>, k: string)
    requires forall k, c :: k in table && c in table[k] ==> c in w
    ensures Published(w, msg, table, matches + [k])
         == After(Published(w, msg, table, matches), msg, Subscribers(table, k))
  {
    assert (matches + [k])[..|matches|] == matches;
  }

  /** Each client gets one copy of the message for each of its registrations under a match. */
  lemma {:induction false} PublishedCounts(w: map<SubscribeClient, string>, msg: string, table: map<string, Clients>,
                                           matches: seq<string>, c: SubscribeClient)
    requires c in w && forall k, d :: k in table && d in table[k] ==> d in w
    ensures Published(w, msg, table, matches)[c] == Delivered(w[c], msg, Topics.Served(table, matches, c))
  {
    hide Delivered, After;
    if matches != [] {
      var n := |matches| - 1;
      var before := Published(w, msg, table, matches[..n]);
      var subs: seq<SubscribeClient> := Subscribers(table, matches[n]);
      PublishedCounts(w, msg, table, matches[..n], c);
      AfterCounts(before, msg, subs, c);
      DeliveredMore(w[c], msg, Topics.Served(table, matches[..n], c), multiset(subs)[c]);
    } else {
      NothingDelivered(w[c], msg);
    }
  }

  lemma NothingDelivered(w: string, msg: string)
    ensures Delivered(w, msg, 0) == w
  {
  }

  // One message to one client: the others keep what they have.
  method DeliverOne(c: SubscribeClient, msg: string, ghost clients: set<SubscribeClient>)
    requires Separate(clients) && |msg| <= Decimal.ULLONG_MAX && c in clients
    modifies c`wbufpos, c.wbuf
    ensures Separate(clients)
    ensures Buffers(clients) == old(Buffers(clients)[c := WithBulk(c.Written(), msg)])
  {
    hide WithBulk, Buffers;
    c.AddReplyBulk(msg);
  }

  /** The loop of `single_chan_publish` over the clients registered for one channel. */
  method Deliver(subs: seq<SubscribeClient>, msg: string, ghost clients: set<SubscribeClient>)
    requires Separate(clients) && |msg| <= Decimal.ULLONG_MAX && forall c :: c in subs ==> c in clients
    modifies clients`wbufpos, set c | c in clients :: c.wbuf
    ensures Separate(clients)
    ensures Buffers(clients) == After(old(Buffers(clients)), msg, subs)
  {
    hide WithBulk, Buffers, After;
    var i := 0;
    AfterEnds(Buffers(clients), msg, subs);
    while i < |subs|
      invariant i <= |subs| && Separate(clients)
      invariant Buffers(clients) == After(old(Buffers(clients)), msg, subs[..i])
    {
      AfterOneMore(old(Buffers(clients)), msg, subs, i);
      DeliverOne(subs[i], msg, clients);
      i := i + 1;
    }
  }

  lemma NothingPublished(w: map<SubscribeClient, string>, msg: string, table: map<string, Clients>, keys: set<string>)
    requires forall k, c :: k in table && c in table[k] ==> c in w
    ensures Published(w, msg, table, []) == w && Topics.Matches(keys, msg, 0) == []
  {
  }

  // ---- the buffer that names the channel ----

  predicate IsAscii(s: string)
  {
    forall i :: 0 <= i < |s| ==> s[i] < 128 as char
  }

  /** `prefix` is the message and its terminator, but for a NUL behind the last key found. */
  ghost predicate Patched(prefix: string, msg: string, last: int)
    requires -1 <= last < |msg| || last == -1
  {
    && |prefix| == |msg| + 1
    && (last >= 0 ==> prefix[last + 1] == NUL)
    && forall i :: 0 <= i < |prefix| && (last == -1 || i != last + 1) ==> prefix[i] == At(msg, i)
  }

  // Take the last NUL back and put one behind the key that ends at cur: the buffer then reads as
  // that key.
  method Patch(prefix: array<char>, msg: string, last: int, cur: nat)
    requires (last == -1 || 0 <= last < |msg|) && last < cur < |msg| && Patched(prefix[..], msg, last) && NulFree(msg)
    modifies prefix
    ensures Patched(prefix[..], msg, cur)
    ensures prefix[..cur + 1] == msg[..cur + 1] && CStr(prefix[..]) == msg[..cur + 1]
  {
    prefix[last + 1] := At(msg, last + 1);
    prefix[cur + 1] := NUL;
    CStrStops(prefix[..], cur + 1);
  }

  method CopyOf(msg: string) returns (prefix: array<char>)
    ensures fresh(prefix) && Patched(prefix[..], msg, -1)
  {
    prefix := new char[|msg| + 1](i => if 0 <= i < |msg| then msg[i] else NUL);
  }

  // ---- the server ----

  type Clients = seq<SubscribeClient>

  /** The data behind the pointers of a table that holds no NULL. */
  ghost function Values(data: map<string, Option<Clients>>): map<string, Clients>
    requires forall k :: k in data ==> data[k].Some?
  {
    map k | k in data :: data[k].value
  }

  lemma ValuesUpdate(data: map<string, Option<Clients>>, k: string, v: Clients)
    requires forall y :: y in data ==> data[y].Some?
    ensures Values(data[k := Some(v)]) == Values(data)[k := v]
  {
  }

  class Server {
    var trie: set<string>
    var table: HashTable<Clients>

    ghost predicate Valid()
      reads this, table, table.Repr
    {
      && table.Valid() && table.heuristics == GhtModel.NoHeuristics && !table.autoRehash && table.bucketLimit == 0
      && this !in table.Repr && GhtModel.NoNullData(table.table)
    }

    /** The topics as a value. */
    ghost function State(): Topics.State<SubscribeClient>
      requires Valid()
      reads this, table, table.Repr
    {
      Topics.State(trie, Values(table.table.data))
    }

    constructor (hash: string -> nat)
      ensures Valid() && State() == Topics.Empty() && table.table == GhtModel.Create(hash, 512)
      ensures fresh(table) && fresh(table.Repr)
    {
      trie := {};
      table := new HashTable<Clients>(hash, 512);
      new;
    }

    /** Register a client for a channel nobody has subscribed to yet. */
    method SubscribeChannel(c: SubscribeClient, channel: string) returns (ok: bool)
      requires Valid()
      modifies this`trie, table.Repr
      ensures Valid() && table == old(table)
      ensures fresh(table.Repr - old(table.Repr))
      ensures (ok, State()) == Topics.Subscribe(old(State()), Topics.Subscription(c, channel))
    {
      hide HashTable.Valid, GhtModel.WF, GhtModel.Insert, Topics.Storable;
      table.TableFields();
      GhtModel.InsertUnbounded(table.table, channel, Some([c]));
      var alpha := CStr(channel);
      if alpha !in trie {
        if !Topics.Storable(alpha) {
          return false;
        }
        trie := trie + {alpha};
        ghost var data := table.table.data;
        var status, evicted := table.Insert(channel, Some([c]));
        table.TableFields();
        ValuesUpdate(data, channel, [c]);
        if status == -1 {
          return false;
        }
      }
      return true;
    }

    /** Every registered client is one of `clients`, and none of their buffers is part of the table. */
    ghost predicate Serves(clients: set<SubscribeClient>)
      requires Valid()
      reads this, table, table.Repr
    {
      && (forall k, c :: k in State().table && c in State().table[k] ==> c in clients)
      && (forall c :: c in clients ==> c !in table.Repr && c.wbuf !in table.Repr)
    }

    lemma TableParts()
      requires Valid()
      ensures table in table.Repr && table.entries in table.Repr && Nodes(table.ages) <= table.Repr
    {
      hide HashTable.Valid;
      table.InRepr();
    }

    // After a run of subscriptions the registered clients are among those that subscribed.
    lemma ServesSubscribers(subs: seq<Topics.Subscription<SubscribeClient>>, clients: set<SubscribeClient>)
      requires Valid() && State() == Topics.Run(subs)
      requires forall i :: 0 <= i < |subs| ==> subs[i].client in clients
      requires forall c :: c in clients ==> c !in table.Repr && c.wbuf !in table.Repr
      ensures Serves(clients)
    {
      hide Valid, State, Topics.Run, Topics.Stores;
      Topics.RunTracks(subs);
      assert forall k, c :: k in State().table && c in State().table[k] ==> c in clients;
    }

    /** A run of subscriptions on a server without topics. */
    method SubscribeAll(subs: seq<Topics.Subscription<SubscribeClient>>, ghost clients: set<SubscribeClient>)
      requires Valid() && State() == Topics.Empty()
      requires forall i :: 0 <= i < |subs| ==> subs[i].client in clients
      requires forall c :: c in clients ==> c !in table.Repr && c.wbuf !in table.Repr
      modifies this`trie, table.Repr
      ensures Valid() && table == old(table) && fresh(table.Repr - old(table.Repr))
      ensures State() == Topics.Run(subs) && Serves(clients)
    {
      hide Valid, State, Serves, Topics.Subscribe;
      for i := 0 to |subs|
        invariant Valid() && table == old(table) && fresh(table.Repr - old(table.Repr))
        invariant State() == Topics.Run(subs[..i])
      {
        var ok := SubscribeChannel(subs[i].client, subs[i].channel);
        assert subs[..i + 1][..i] == subs[..i] && subs[i] == Topics.Subscription(subs[i].client, subs[i].channel);
      }
      assert subs[..|subs|] == subs;
      ServesSubscribers(subs, clients);
    }

    lemma Reached(clients: set<SubscribeClient>)
      requires Valid() && Separate(clients) && Serves(clients)
      ensures forall k, c :: k in State().table && c in State().table[k] ==> c in Buffers(clients)
      ensures State().trie == trie
    {
    }

    // Find the clients of a channel; the lookup leaves the table as it is.
    method Find(chan: string, ghost clients: set<SubscribeClient>) returns (subs: Option<Clients>)
      requires Valid() && Separate(clients) && Serves(clients)
      modifies table`table, table`chains, table.entries, Nodes(table.ages)`next, Nodes(table.ages)`prev
      ensures Valid() && State() == old(State()) && Serves(clients) && Separate(clients)
      ensures Buffers(clients) == old(Buffers(clients))
      ensures match subs
              case None => Subscribers(State().table, chan) == []
              case Some(registered) => Subscribers(State().table, chan) == registered
      ensures forall c :: c in Subscribers(State().table, chan) ==> c in clients
    {
      hide HashTable.Valid, GhtModel.WF, Buffers;
      table.TableFields();
      TouchNothing(table.table, chan);
      subs := table.Get(chan);
      table.TableFields();
    }

    method SingleChanPublish(msg: string, chan: string, ghost clients: set<SubscribeClient>)
      requires Valid() && Separate(clients) && Serves(clients) && |msg| <= Decimal.ULLONG_MAX
      modifies table`table, table`chains, table.entries, Nodes(table.ages)`next, Nodes(table.ages)`prev
      modifies clients`wbufpos, set c | c in clients :: c.wbuf
      ensures Valid() && State() == old(State()) && Separate(clients) && Serves(clients)
      ensures Buffers(clients) == After(old(Buffers(clients)), msg, Subscribers(State().table, chan))
    {
      hide HashTable.Valid, GhtModel.WF, Buffers, After, Subscribers;
      AfterEnds(Buffers(clients), msg, []);
      var subs := Find(chan, clients);
      if subs == None {
        return;
      }
      Deliver(subs.value, msg, clients);
    }

    /** Publish the message in a publisher's read buffer. `visited` are the keys found, as they are
        logged: what `prefix` holds up to the NUL put behind the key. */
    method ProcessPubReadBuf(readBuf: Sds.Sds, ghost clients: set<SubscribeClient>) returns (visited: seq<string>)
      requires Valid() && Separate(clients) && Serves(clients) && readBuf.Valid() && |readBuf.Contents()| <= Decimal.ULLONG_MAX
      requires NulFree(readBuf.Contents()) && IsAscii(readBuf.Contents())
      requires readBuf !in table.Repr && readBuf.buf !in table.Repr
      requires forall c :: c in clients ==> c.wbuf != readBuf.buf
      modifies table`table, table`chains, table.entries, Nodes(table.ages)`next, Nodes(table.ages)`prev
      modifies clients`wbufpos, set c | c in clients :: c.wbuf
      modifies readBuf`len, readBuf`free, readBuf.buf
      ensures Valid() && State() == old(State()) && Separate(clients) && Serves(clients)
      ensures visited == Topics.Matches(trie, old(readBuf.Contents()), old(readBuf.len))
      ensures forall c :: c in clients ==>
          c.Written() == Delivered(old(c.Written()), old(readBuf.Contents()), Topics.Served(State().table, visited, c))
      ensures readBuf.Valid() && readBuf.Contents() == []
    {
      visited := Publish(readBuf.Contents(), clients);
      forall c | c in clients
        ensures c.Written() == Delivered(old(c.Written()), old(readBuf.Contents()), Topics.Served(State().table, visited, c))
      {
        PublishedCounts(old(Buffers(clients)), old(readBuf.Contents()), State().table, visited, c);
      }
      readBuf.Clear();
    }

    /** Where the walk stands: at the end of the message, or at the next key. */
    ghost predicate Walks(s: TrieState, msg: string, last: int, cur: int)
      reads this`trie, s
    {
      && -1 <= last && (last == -1 || last < |msg|) && s.keys == trie
      && (cur == -1 ==> Gap(trie, msg, last + 1, |msg|))
      && (cur != -1 ==> last < cur < |msg| && s.walked == msg[..cur + 1] && msg[..cur + 1] in trie && Gap(trie, msg, last + 1, cur))
    }

    // Name the key that ends at cur; the server and the clients stay as they are.
    method NameKey(prefix: array<char>, msg: string, last: int, cur: nat, ghost clients: set<SubscribeClient>)
      requires Valid() && Separate(clients) && Serves(clients) && NulFree(msg)
      requires (last == -1 || 0 <= last < |msg|) && last < cur < |msg| && Patched(prefix[..], msg, last)
      requires prefix !in table.Repr && forall c :: c in clients ==> c.wbuf != prefix
      modifies prefix
      ensures Valid() && State() == old(State()) && Separate(clients) && Serves(clients)
      ensures Buffers(clients) == old(Buffers(clients)) && Patched(prefix[..], msg, cur)
      ensures prefix[..cur + 1] == msg[..cur + 1] && CStr(prefix[..]) == msg[..cur + 1]
    {
      hide Valid, State, Serves, Separate, Buffers, Patched;
      Patch(prefix, msg, last, cur);
    }

    // One turn of the loop: publish under the key that ends at cur.
    method PublishKey(prefix: array<char>, msg: string, last: int, cur: nat, ghost clients: set<SubscribeClient>)
      returns (key: string)
      requires Valid() && Separate(clients) && Serves(clients) && |msg| <= Decimal.ULLONG_MAX && NulFree(msg)
      requires (last == -1 || 0 <= last < |msg|) && last < cur < |msg| && Patched(prefix[..], msg, last)
      requires prefix !in table.Repr && forall c :: c in clients ==> c.wbuf != prefix
      modifies prefix
      modifies table`table, table`chains, table.entries, Nodes(table.ages)`next, Nodes(table.ages)`prev
      modifies clients`wbufpos, set c | c in clients :: c.wbuf
      ensures Valid() && State() == old(State()) && Separate(clients) && Serves(clients)
      ensures key == msg[..cur + 1] && Patched(prefix[..], msg, cur)
      ensures Buffers(clients) == After(old(Buffers(clients)), msg, Subscribers(State().table, key))
    {
      hide Valid, State, Serves, Separate, GhtModel.WF, Buffers, After, Patched;
      NameKey(prefix, msg, last, cur, clients);
      key := CStr(prefix[..]);
      SingleChanPublish(msg, prefix[..cur + 1], clients);
    }

    // Walk on from the key that ends at cur; the server and the clients stay as they are.
    method WalkOn(s: TrieState, msg: string, cur: nat, ghost clients: set<SubscribeClient>) returns (next: int)
      requires Valid() && Separate(clients) && Serves(clients) && s !in table.Repr
      requires cur < |msg| && s.keys == trie && s.walked == msg[..cur + 1]
      modifies s
      ensures Valid() && State() == old(State()) && Separate(clients) && Serves(clients)
      ensures Buffers(clients) == old(Buffers(clients)) && Walks(s, msg, cur, next)
    {
      hide Valid, State, Serves, Separate, Buffers, Gap;
      next := NextKey(s, msg, cur + 1);
    }

    // One turn of the loop: publish, then walk on to the next key.
    method PublishAndWalk(prefix: array<char>, s: TrieState, msg: string, last: int, cur: nat, ghost clients: set<SubscribeClient>)
      returns (key: string, next: int)
      requires Valid() && Separate(clients) && Serves(clients) && |msg| <= Decimal.ULLONG_MAX && NulFree(msg)
      requires Walks(s, msg, last, cur) && Patched(prefix[..], msg, last)
      requires s !in table.Repr && prefix !in table.Repr && forall c :: c in clients ==> c.wbuf != prefix
      modifies prefix, s
      modifies table`table, table`chains, table.entries, Nodes(table.ages)`next, Nodes(table.ages)`prev
      modifies clients`wbufpos, set c | c in clients :: c.wbuf
      ensures Valid() && State() == old(State()) && Separate(clients) && Serves(clients)
      ensures key == msg[..cur + 1] && Walks(s, msg, cur, next) && Patched(prefix[..], msg, cur)
      ensures Buffers(clients) == After(old(Buffers(clients)), msg, Subscribers(State().table, key))
    {
      hide Valid, State, Serves, Separate, GhtModel.WF, Buffers, After, Gap, Patched;
      key := PublishKey(prefix, msg, last, cur, clients);
      next := WalkOn(s, msg, cur, clients);
    }

    // Copy the message and walk to the first key.
    method StartWalk(msg: string) returns (prefix: array<char>, s: TrieState, cur: int)
      ensures fresh(prefix) && Patched(prefix[..], msg, -1)
      ensures fresh(s) && Walks(s, msg, -1, cur)
    {
      hide Gap, Patched;
      prefix := CopyOf(msg);
      s := new TrieState(trie);
      cur := NextKey(s, msg, 0);
    }

    // The walk over the message, with one publication at every key it stops at.
    method Publish(msg: string, ghost clients: set<SubscribeClient>) returns (visited: seq<string>)
      requires Valid() && Separate(clients) && Serves(clients) && |msg| <= Decimal.ULLONG_MAX && NulFree(msg)
      modifies table`table, table`chains, table.entries, Nodes(table.ages)`next, Nodes(table.ages)`prev
      modifies clients`wbufpos, set c | c in clients :: c.wbuf
      ensures Valid() && State() == old(State()) && Separate(clients) && Serves(clients)
      ensures visited == Topics.Matches(trie, msg, |msg|)
      ensures Buffers(clients) == Published(old(Buffers(clients)), msg, State().table, visited)
    {
      hide Valid, State, Serves, Separate, GhtModel.WF, Buffers, After, Published, Topics.Matches, Gap, Patched;
      var prefix, s, cur := StartWalk(msg);
      var last := -1;
      visited := [];
      Reached(clients);
      NothingPublished(Buffers(clients), msg, State().table, trie);
      while cur != -1
        invariant Valid() && State() == old(State()) && Separate(clients) && Serves(clients)
        invariant Buffers(clients) == Published(old(Buffers(clients)), msg, State().table, visited)
        invariant Walks(s, msg, last, cur) && Patched(prefix[..], msg, last)
        invariant visited == Topics.Matches(trie, msg, last + 1)
        decreases |msg| - last
      {
        var key, next := PublishAndWalk(prefix, s, msg, last, cur, clients);
        MatchesNext(trie, msg, last + 1, cur);
        PublishedOneMore(old(Buffers(clients)), msg, State().table, visited, key);
        visited := visited + [key];
        last, cur := cur, next;
      }
      MatchesSkip(trie, msg, last + 1, |msg|);
    }
  }

  /** A whole run: any subscriptions on a new server, then one publication. Each client gets the
      message once for each of its first subscriptions to a storable non-empty topic the message
      starts with, and these are whole frames exactly when all of them fit. */
  method SubscribeThenPublish(hash: string -> nat, subs: seq<Topics.Subscription<SubscribeClient>>, readBuf: Sds.Sds,
                              ghost clients: set<SubscribeClient>) returns (server: Server, visited: seq<string>)
    requires Separate(clients) && forall i :: 0 <= i < |subs| ==> subs[i].client in clients
    requires readBuf.Valid() && |readBuf.Contents()| <= Decimal.ULLONG_MAX
    requires NulFree(readBuf.Contents()) && IsAscii(readBuf.Contents())
    requires forall c :: c in clients ==> c.wbuf != readBuf.buf
    modifies clients`wbufpos, set c | c in clients :: c.wbuf
    modifies readBuf`len, readBuf`free, readBuf.buf
    ensures fresh(server) && server.Valid() && server.State() == Topics.Run(subs)
    ensures visited == Topics.Matches(Topics.Run(subs).trie, old(readBuf.Contents()), |old(readBuf.Contents())|)
    ensures Separate(clients)
    ensures forall c :: c in clients ==>
        var w, msg := old(c.Written()), old(readBuf.Contents());
        var n := |Topics.FirstMatching(subs, msg, c)|;
        && c.Written() == Delivered(w, msg, n)
        && (c.Written() == w + Frames(Copies(msg, n)) <==> |w| + |Frames(Copies(msg, n))| <= SUB_WRITE_BUF_LEN)
  {
    hide Server.Valid, Topics.Run, Topics.Matches, Topics.Served, Topics.FirstMatching, Delivered, Frames;
    server := new Server(hash);
    server.SubscribeAll(subs, clients);
    server.TableParts();
    visited := server.ProcessPubReadBuf(readBuf, clients);
    forall c | c in clients
      ensures var w, msg := old(c.Written()), old(readBuf.Contents());
              var n := |Topics.FirstMatching(subs, msg, c)|;
              && c.Written() == Delivered(w, msg, n)
              && (c.Written() == w + Frames(Copies(msg, n)) <==> |w| + |Frames(Copies(msg, n))| <= SUB_WRITE_BUF_LEN)
    {
      Topics.ServedOncePerTopic(subs, old(readBuf.Contents()), c);
      DeliveredAreFrames(old(c.Written()), old(readBuf.Contents()), |Topics.FirstMatching(subs, old(readBuf.Contents()), c)|);
    }
  }
}
