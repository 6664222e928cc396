/** Which bytes are a request: what the parser of `Resp` accepts and what it refuses, said of the text
    alone.
 */
module RespGrammar {
  import opened CStrings
  import opened Decimal
  import opened Resp

  /** A header line is complete with its carriage return and one byte behind that. */
  ghost predicate HasLine(buf: string)
  {
    StrChr(buf, 0, '\r').Some? && StrChr(buf, 0, '\r').value + 2 <= |buf|
  }

  ghost function Line(buf: string): string
    requires HasLine(buf)
  {
    buf[..StrChr(buf, 0, '\r').value]
  }

  ghost function AfterLine(buf: string): string
    requires HasLine(buf)
  {
    buf[StrChr(buf, 0, '\r').value + 2..]
  }

  /** The length of an argument is announced by a dollar sign and a number from 0 to 16384. */
  ghost predicate Announces(line: string, n: nat)
  {
    n <= 16384 && line == "$" + ToDecimal(n)
  }

  ghost predicate IsHeader(line: string)
  {
    exists n :: Announces(line, n)
  }

  /** The text begins with the bytes of one argument: its header, a carriage return and one byte; the
      argument and two bytes. */
  ghost predicate FirstIs(t: string, a: string)
  {
    HasLine(t) && Announces(Line(t), |a|) && |a| + 2 <= |AfterLine(t)| && AfterLine(t)[..|a|] == a
  }

  ghost function BehindFirst(t: string, a: string): string
    requires FirstIs(t, a)
  {
    AfterLine(t)[|a| + 2..]
  }

  /** The text is the bytes of these arguments in turn, and the rest. */
  ghost predicate Spelled(t: string, args: seq<string>, rest: string)
    decreases |args|
  {
    if args == [] then t == rest
    else FirstIs(t, args[0]) && Spelled(BehindFirst(t, args[0]), args[1..], rest)
  }

  lemma SameNumber(m: nat, n: nat)
    requires "$" + ToDecimal(m) == "$" + ToDecimal(n) && m <= 16384 && n <= 16384
    ensures m == n
  {
    assert ToDecimal(m) == ("$" + ToDecimal(m))[1..] == ("$" + ToDecimal(n))[1..] == ToDecimal(n);
    ParsesExactlyItsPrint(ToDecimal(m), m);
    ParsesExactlyItsPrint(ToDecimal(n), n);
  }

  lemma NumberOfHeader(buf: string, nl: nat)
    requires 0 < nl < |buf| && buf[0] == '$'
    ensures forall n: nat :: Announces(buf[..nl], n) <==> n <= 16384 && ParseLL(buf[1..nl]) == Some(n)
  {
    hide ParseLL;
    forall n: nat ensures Announces(buf[..nl], n) <==> n <= 16384 && ParseLL(buf[1..nl]) == Some(n) {
      ParsesExactlyItsPrint(buf[1..nl], n);
      assert buf[..nl] == "$" + buf[1..nl];
      if Announces(buf[..nl], n) { assert buf[1..nl] == ("$" + ToDecimal(n))[1..] == ToDecimal(n); }
    }
  }

  /** A header line is read exactly if it announces a length, and refused if it announces none. */
  lemma HeaderIsRead(buf: string)
    ensures ReadHeader(buf).LineMissing? <==> StrChr(buf, 0, '\r') == None
    ensures ReadHeader(buf).Incomplete? <==> StrChr(buf, 0, '\r').Some? && !HasLine(buf)
    ensures ReadHeader(buf).Invalid? <==> HasLine(buf) && !IsHeader(Line(buf))
    ensures forall n: nat :: ReadHeader(buf).Length? && ReadHeader(buf).len == n <==> HasLine(buf) && Announces(Line(buf), n)
    ensures ReadHeader(buf).Length? ==> HasLine(buf) && buf[ReadHeader(buf).next..] == AfterLine(buf)
  {
    hide ParseLL, Announces;
    if HasLine(buf) {
      var nl := StrChr(buf, 0, '\r').value;
      if buf[0] == '$' {
        NumberOfHeader(buf, nl);
      } else {
        NoDollar(buf, nl);
      }
    }
  }

  lemma NoDollar(buf: string, nl: nat)
    requires nl < |buf| && buf[0] != '$'
    ensures !IsHeader(buf[..nl])
  {
  }

  // ---- the arguments ----

  /** What stands behind the arguments read when the loop stops, with n of them still to come. */
  ghost predicate StopsAt(rest: string, n: nat, stop: Stop)
  {
    match stop
    case Done => n == 0
    case NoNewline => n > 0 && StrChr(rest, 0, '\r') == None
    case Bad => n > 0 && HasLine(rest) && !IsHeader(Line(rest))
    case Wait => n > 0 && ((StrChr(rest, 0, '\r').Some? && !HasLine(rest)) || IsCutOff(rest))
  }

  /** A header with fewer bytes behind it than it announces, and two. */
  ghost predicate IsCutOff(rest: string)
  {
    HasLine(rest) && exists n: nat :: Announces(Line(rest), n) && |AfterLine(rest)| < n + 2
  }

  /** The state in which the loop stops: a header is read ahead of its argument. */
  ghost predicate LeavesBehind(d: Client, rest: string)
  {
    if d.bulkLen == -1 then d.buf == rest && !IsCutOff(rest)
    else HasLine(rest) && d.bulkLen >= 0 && Announces(Line(rest), d.bulkLen) && d.buf == AfterLine(rest) && |d.buf| < d.bulkLen + 2
  }

  lemma AnnouncesOnce(line: string, m: nat, n: nat)
    requires Announces(line, m) && Announces(line, n)
    ensures m == n
  {
    SameNumber(m, n);
  }

  // The loop over one argument.
  lemma LoopOverFirst(c: Client, a: string)
    requires c.bulkLen == -1 && c.multiBulkLen > 0 && FirstIs(c.buf, a)
    ensures Loop(c) == Loop(Client(BehindFirst(c.buf, a), c.multiBulkLen - 1, -1, c.argv + [a]))
  {
    hide Loop, ReadHeader, Announces, HasLine;
    HeaderIsRead(c.buf);
    assert ReadHeader(c.buf).Length? && ReadHeader(c.buf).len == |a|;
    LoopTurns(c);
    LoopTurns(Turn(c).value);
  }

  // A loop that stops where it begins.
  lemma LoopStays(c: Client)
    requires c.bulkLen == -1 && (c.multiBulkLen > 0 ==> forall a :: !FirstIs(c.buf, a))
    ensures Loop(c).client.argv == c.argv && Loop(c).client.multiBulkLen == c.multiBulkLen
    ensures StopsAt(c.buf, c.multiBulkLen, Loop(c).stop)
    ensures c.multiBulkLen > 0 ==> LeavesBehind(Loop(c).client, c.buf)
    ensures c.multiBulkLen == 0 ==> Loop(c).client == c
  {
    hide Loop, ReadHeader, Announces, HasLine;
    LoopTurns(c);
    HeaderIsRead(c.buf);
    CutOffIsRead(c.buf);
    if c.multiBulkLen > 0 && Turn(c).Some? {
      var d := Turn(c).value;
      LoopTurns(d);
      EnoughIsFirst(c.buf, d.bulkLen);
    }
  }

  lemma EnoughIsFirst(t: string, n: nat)
    requires HasLine(t) && Announces(Line(t), n)
    ensures |AfterLine(t)| >= n + 2 ==> FirstIs(t, AfterLine(t)[..n])
  {
  }

  lemma CutOffIsRead(buf: string)
    ensures IsCutOff(buf) ==> ReadHeader(buf).Length?
  {
    hide ReadHeader, Announces, HasLine;
    HeaderIsRead(buf);
    if IsCutOff(buf) {
      var n: nat :| Announces(Line(buf), n) && |AfterLine(buf)| < n + 2;
    }
  }

  /** What the loop reads: the arguments it adds are spelled in the bytes it takes, and it stops where
      no other can be read, for the reason it gives. */
  lemma {:induction false} LoopReads(c: Client) returns (args: seq<string>, rest: string)
    requires c.bulkLen == -1
    ensures Spelled(c.buf, args, rest)
    ensures var d := Loop(c).client;
            && d.argv == c.argv + args && |args| + d.multiBulkLen == c.multiBulkLen
            && StopsAt(rest, d.multiBulkLen, Loop(c).stop)
            && (if d.multiBulkLen > 0 then LeavesBehind(d, rest) else d.buf == rest && d.bulkLen == -1)
    decreases c.multiBulkLen
  {
    hide Loop, StopsAt, LeavesBehind, FirstIs;
    if c.multiBulkLen > 0 && exists a :: FirstIs(c.buf, a) {
      var a :| FirstIs(c.buf, a);
      var next := Client(BehindFirst(c.buf, a), c.multiBulkLen - 1, -1, c.argv + [a]);
      LoopOverFirst(c, a);
      var more;
      more, rest := LoopReads(next);
      args := [a] + more;
      assert args[1..] == more && c.argv + [a] + more == c.argv + args;
    } else {
      args, rest := [], c.buf;
      LoopStays(c);
      assert c.argv + [] == c.argv;
    }
  }

  lemma {:induction false} SpelledOnce(t: string, args: seq<string>, rest: string, more: seq<string>, other: string)
    requires Spelled(t, args, rest) && Spelled(t, more, other) && |args| <= |more|
    ensures args == more[..|args|] && Spelled(rest, more[|args|..], other)
    decreases |args|
  {
    hide Spelled, FirstIs;
    SpelledStarts(t, args, rest);
    if args == [] {
      assert more[0..] == more && more[..0] == [];
    } else {
      SpelledStarts(t, more, other);
      FirstIsOnce(t, args[0], more[0]);
      SpelledOnce(BehindFirst(t, args[0]), args[1..], rest, more[1..], other);
      SameFront(args, more);
    }
  }

  lemma FirstIsOnce(t: string, a: string, b: string)
    requires FirstIs(t, a) && FirstIs(t, b)
    ensures a == b
  {
    AnnouncesOnce(Line(t), |a|, |b|);
  }

  lemma SameFront(args: seq<string>, more: seq<string>)
    requires args != [] && |args| <= |more| && args[0] == more[0] && args[1..] == more[1..][..|args| - 1]
    ensures args == more[..|args|] && more[1..][|args| - 1..] == more[|args|..]
  {
    assert args == [args[0]] + args[1..];
  }

  lemma StopsHere(rest: string, n: nat, stop: Stop, a: string)
    requires n > 0 && StopsAt(rest, n, stop)
    ensures !FirstIs(rest, a)
  {
    if FirstIs(rest, a) {
      if stop == Wait {
        var m: nat :| Announces(Line(rest), m) && |AfterLine(rest)| < m + 2;
        AnnouncesOnce(Line(rest), m, |a|);
      }
    }
  }

  /** The loop stops for a reason, after some arguments, exactly when the text is those arguments
      followed by something to stop at for that reason. */
  lemma LoopIsTheGrammar(c: Client, args: seq<string>, stop: Stop)
    requires c.bulkLen == -1 && |args| <= c.multiBulkLen
    ensures Loop(c).stop == stop && Loop(c).client.argv == c.argv + args
       <==> exists rest :: Spelled(c.buf, args, rest) && StopsAt(rest, c.multiBulkLen - |args|, stop)
  {
    hide Loop, StopsAt, Spelled, FirstIs;
    var read, at := LoopReads(c);
    assert c.argv + read == c.argv + args ==> read == args by {
      assert (c.argv + read)[|c.argv|..] == read && (c.argv + args)[|c.argv|..] == args;
    }
    forall rest | Spelled(c.buf, args, rest) && StopsAt(rest, c.multiBulkLen - |args|, stop)
      ensures Loop(c).stop == stop && Loop(c).client.argv == c.argv + args
    {
      LoopStopsAt(c, args, rest, stop);
    }
  }

  lemma LoopStopsAt(c: Client, args: seq<string>, rest: string, stop: Stop)
    requires c.bulkLen == -1 && |args| <= c.multiBulkLen
    requires Spelled(c.buf, args, rest) && StopsAt(rest, c.multiBulkLen - |args|, stop)
    ensures Loop(c).stop == stop && Loop(c).client.argv == c.argv + args
  {
    hide Loop, StopsAt, Spelled, FirstIs;
    var read, at := LoopReads(c);
    OneStop(c.buf, args, rest, stop, read, at, Loop(c).stop, c.multiBulkLen);
  }

  lemma OneStop(t: string, args: seq<string>, rest: string, stop: Stop, read: seq<string>, at: string, other: Stop, n: nat)
    requires Spelled(t, args, rest) && Spelled(t, read, at) && |args| <= n && |read| <= n
    requires StopsAt(rest, n - |args|, stop) && StopsAt(at, n - |read|, other)
    ensures args == read && stop == other
  {
    hide StopsAt, Spelled;
    if |args| <= |read| {
      NoLaterStop(t, args, rest, stop, read, at, n);
      StopsOnce(rest, n - |args|, stop, other);
    } else {
      NoLaterStop(t, read, at, other, args, rest, n);
    }
  }

  lemma NoLaterStop(t: string, args: seq<string>, rest: string, stop: Stop, read: seq<string>, at: string, n: nat)
    requires Spelled(t, args, rest) && Spelled(t, read, at) && |args| <= |read| <= n && StopsAt(rest, n - |args|, stop)
    ensures args == read && rest == at
  {
    hide StopsAt, FirstIs, Spelled;
    SpelledOnce(t, args, rest, read, at);
    var more := read[|args|..];
    SpelledStarts(rest, more, at);
    if more != [] { StopsHere(rest, n - |args|, stop, more[0]); }
  }

  lemma SpelledStarts(t: string, args: seq<string>, rest: string)
    requires Spelled(t, args, rest)
    ensures if args == [] then t == rest else FirstIs(t, args[0]) && Spelled(BehindFirst(t, args[0]), args[1..], rest)
  {
  }

  lemma StopsOnce(rest: string, n: nat, stop: Stop, other: Stop)
    requires StopsAt(rest, n, stop) && StopsAt(rest, n, other)
    ensures stop == other
  {
  }

  // ---- whole requests ----

  /** The number of arguments is announced by a star and a number of at most 16384. */
  ghost predicate Counts(line: string, n: int)
  {
    LLONG_MIN <= n <= 16384 && line == "*" + ToDecimal(n)
  }

  /** A request for n arguments: those in `args` are there, and behind them is something to stop at. */
  ghost predicate Requests(t: string, n: nat, args: seq<string>, rest: string, stop: Stop)
  {
    && HasLine(t) && n > 0 && Counts(Line(t), n)
    && |args| <= n && Spelled(AfterLine(t), args, rest) && StopsAt(rest, n - |args|, stop)
  }

  lemma CountsOnce(line: string, m: int, n: int)
    requires Counts(line, m) && Counts(line, n)
    ensures m == n
  {
    assert ToDecimal(m) == ("*" + ToDecimal(m))[1..] == ("*" + ToDecimal(n))[1..] == ToDecimal(n);
    ParsesExactlyItsPrint(ToDecimal(m), m);
    ParsesExactlyItsPrint(ToDecimal(n), n);
  }

  lemma NumberOfCount(buf: string, nl: nat)
    requires 0 < nl < |buf| && buf[0] == '*'
    ensures forall n: int :: Counts(buf[..nl], n) <==> n <= 16384 && ParseLL(buf[1..nl]) == Some(n)
  {
    hide ParseLL;
    forall n: int ensures Counts(buf[..nl], n) <==> n <= 16384 && ParseLL(buf[1..nl]) == Some(n) {
      ParsesExactlyItsPrint(buf[1..nl], n);
      assert buf[..nl] == "*" + buf[1..nl];
      if Counts(buf[..nl], n) { assert buf[1..nl] == ("*" + ToDecimal(n))[1..] == ToDecimal(n); }
    }
  }

  /** The line with the number of arguments: at most none, and the request is over; more than 16384,
      or no number at all, and it is refused. */
  lemma CountIsRead(c: Client)
    requires Ready(c) && c.multiBulkLen == 0
    ensures Open(c).Pending? <==> !HasLine(c.buf)
    ensures Open(c).Refused? <==> HasLine(c.buf) && forall n :: !Counts(Line(c.buf), n)
    ensures Open(c).Finished? <==> HasLine(c.buf) && exists n :: n <= 0 && Counts(Line(c.buf), n)
    ensures Open(c).Finished? ==> Open(c).client == c.(buf := AfterLine(c.buf))
    ensures Open(c).Arguments? ==> HasLine(c.buf) && Counts(Line(c.buf), Open(c).client.multiBulkLen)
    ensures Open(c).Arguments? ==>
        Open(c).client.multiBulkLen > 0 && Open(c).client == Client(AfterLine(c.buf), Open(c).client.multiBulkLen, -1, [])
  {
    hide ParseLL, Counts;
    if HasLine(c.buf) {
      NumberOfCount(c.buf, StrChr(c.buf, 0, '\r').value);
      var n := ParseLL(c.buf[1..StrChr(c.buf, 0, '\r').value]);
      assert n.Some? && n.value <= 16384 ==> Counts(Line(c.buf), n.value);
    }
  }

  /** How a request ends, by its text: when a call succeeds, when it fails for good, and when because
      the buffer is too big. In every other case it waits. */
  lemma RequestIsTheGrammar(c: Client)
    requires Ready(c) && c.multiBulkLen == 0
    ensures Process(c).0 == Ok
       <==> (HasLine(c.buf) && exists n :: n <= 0 && Counts(Line(c.buf), n))
            || exists n, args, rest :: Requests(c.buf, n, args, rest, Done)
    ensures Process(c).0 == Failed
       <==> (HasLine(c.buf) && forall n :: !Counts(Line(c.buf), n))
            || exists n, args, rest :: Requests(c.buf, n, args, rest, Bad)
    ensures Process(c).0 == TooBig
       <==> |c.buf| > 16384 && exists n, args, rest :: Requests(c.buf, n, args, rest, NoNewline)
  {
    hide Loop, Open, Requests, Counts, HasLine;
    CountIsRead(c);
    if Open(c).Arguments? {
      var r := Loop(Open(c).client);
      var read, at := RequestStops(c);
      forall n, args, rest, stop | Requests(c.buf, n, args, rest, stop) ensures stop == r.stop {
        SameRequest(c, n, args, rest, stop);
      }
    } else {
      forall n, args, rest, stop ensures !Requests(c.buf, n, args, rest, stop) { NoRequest(c, n, args, rest, stop); }
    }
  }

  lemma RequestStops(c: Client) returns (args: seq<string>, rest: string)
    requires Ready(c) && c.multiBulkLen == 0 && Open(c).Arguments?
    ensures Requests(c.buf, Open(c).client.multiBulkLen, args, rest, Loop(Open(c).client).stop)
    ensures Loop(Open(c).client).client.argv == args
  {
    hide Loop, Open, Spelled, StopsAt, Counts, HasLine;
    CountIsRead(c);
    args, rest := LoopReads(Open(c).client);
    assert [] + args == args;
  }

  lemma SameRequest(c: Client, n: nat, args: seq<string>, rest: string, stop: Stop)
    requires Ready(c) && c.multiBulkLen == 0 && Open(c).Arguments? && Requests(c.buf, n, args, rest, stop)
    ensures Loop(Open(c).client).stop == stop && Loop(Open(c).client).client.argv == args
  {
    hide Loop, Open, Spelled, StopsAt, Counts, HasLine;
    CountIsRead(c);
    CountsOnce(Line(c.buf), n, Open(c).client.multiBulkLen);
    LoopStopsAt(Open(c).client, args, rest, stop);
    assert [] + args == args;
  }

  lemma NoRequest(c: Client, n: nat, args: seq<string>, rest: string, stop: Stop)
    requires Ready(c) && c.multiBulkLen == 0 && !Open(c).Arguments?
    ensures !Requests(c.buf, n, args, rest, stop)
  {
    hide Open, Spelled, StopsAt, Counts, HasLine;
    CountIsRead(c);
    if Requests(c.buf, n, args, rest, stop) && Open(c).Finished? {
      var m :| m <= 0 && Counts(Line(c.buf), m);
      CountsOnce(Line(c.buf), n, m);
    }
  }

  /** What a call that succeeds reads: no arguments after a number that asks for none, else exactly
      those spelled, and it leaves exactly the bytes behind them. */
  lemma AcceptedIsRequested(c: Client, args: seq<string>, rest: string)
    requires Ready(c) && c.multiBulkLen == 0
    ensures Call(c) == (true, Client(rest, 0, -1, args))
       <==> (HasLine(c.buf) && args == [] && rest == AfterLine(c.buf) && exists n :: n <= 0 && Counts(Line(c.buf), n))
            || exists n :: Requests(c.buf, n, args, rest, Done)
  {
    hide Loop, Open, Requests, Counts, HasLine;
    CountIsRead(c);
    if Open(c).Arguments? {
      var m := Open(c).client.multiBulkLen;
      var read, at := RequestDone(c);
      assert Loop(Open(c).client).stop == Done ==> Requests(c.buf, m, read, at, Done);
      forall n | Requests(c.buf, n, args, rest, Done) ensures Call(c) == (true, Client(rest, 0, -1, args)) {
        SameRequest(c, n, args, rest, Done);
        SameRest(c, n, args, rest, m, at);
      }
      NotFinished(c);
    } else {
      forall n ensures !Requests(c.buf, n, args, rest, Done) { NoRequest(c, n, args, rest, Done); }
    }
  }

  lemma NotFinished(c: Client)
    requires Ready(c) && c.multiBulkLen == 0 && Open(c).Arguments?
    ensures forall n :: n <= 0 ==> !Counts(Line(c.buf), n)
  {
    CountIsRead(c);
  }

  lemma RequestDone(c: Client) returns (args: seq<string>, rest: string)
    requires Ready(c) && c.multiBulkLen == 0 && Open(c).Arguments?
    ensures var r := Loop(Open(c).client);
            && Requests(c.buf, Open(c).client.multiBulkLen, args, rest, r.stop)
            && (r.stop == Done ==> r.client == Client(rest, 0, -1, args))
  {
    hide Loop, Open, Spelled, StopsAt, Counts, HasLine;
    CountIsRead(c);
    args, rest := LoopReads(Open(c).client);
    assert [] + args == args;
  }

  lemma SameRest(c: Client, n: nat, args: seq<string>, rest: string, m: nat, at: string)
    requires Requests(c.buf, n, args, rest, Done) && Requests(c.buf, m, args, at, Done)
    ensures rest == at
  {
    hide FirstIs, HasLine, Counts;
    SpelledOnce(AfterLine(c.buf), args, rest, args, at);
    assert args[|args|..] == [];
  }
}
