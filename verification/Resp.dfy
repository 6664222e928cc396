/** The request parser of src/protocol/subcli.c as a function of the client's state, and the
    encoder it undoes.
 */
module Resp {
  import opened CStrings
  import opened Decimal

  const SUB_READ_BUF_LEN: nat := 16384
  const MAX_INLINE_READ: nat := 16384
  const MAX_BULK_LEN: nat := 16384

  const CRLF: string := "\r\n"

  /** The state `process_multibulk_buffer` keeps between calls. A bulk length of -1 is unknown. */
  datatype Client = Client(buf: string, multiBulkLen: nat, bulkLen: int, argv: seq<string>)

  /** Between requests there are no arguments, and the next request starts with '*': the caller
      chooses this parser by it. */
  ghost predicate Ready(c: Client)
  {
    && -1 <= c.bulkLen <= MAX_BULK_LEN
    && (c.multiBulkLen == 0 ==> c.bulkLen == -1 && c.argv == [] && (c.buf == [] || c.buf[0] == '*'))
  }

  // ---- the loop over the arguments ----

  /** Why the loop stopped: all arguments read, more bytes needed, no line end in sight, or a
      protocol error. */
  datatype Stop = Done | Wait | NoNewline | Bad

  datatype Result = Result(stop: Stop, client: Client)

  /** What follows a '$' header: its length, and where the argument starts. */
  datatype Header = Length(len: nat, next: nat) | Incomplete | LineMissing | Invalid

  ghost function ReadHeader(buf: string): (h: Header)
    ensures h.Length? ==> h.len <= MAX_BULK_LEN && 2 <= h.next <= |buf|
  {
    match StrChr(buf, 0, '\r')
    case None => LineMissing
    case Some(nl) =>
      if nl + 2 > |buf| then Incomplete
      else if buf[0] != '$' then Invalid
      else
        match ParseLL(buf[1..nl])
        case None => Invalid
        case Some(ll) => if 0 <= ll <= MAX_BULK_LEN then Length(ll, nl + 2) else Invalid
  }

  /** The loop, on the bytes not yet consumed. */
  ghost function Loop(c: Client): (r: Result)
    requires -1 <= c.bulkLen <= MAX_BULK_LEN
    ensures r.stop == Done <==> r.client.multiBulkLen == 0
    ensures r.stop == Done && c.multiBulkLen > 0 ==> r.client.bulkLen == -1
    ensures |r.client.buf| <= |c.buf| && -1 <= r.client.bulkLen <= MAX_BULK_LEN
    ensures |r.client.buf| == |c.buf| ==> r.client == c
    decreases c.multiBulkLen, |c.buf|
  {
    if c.multiBulkLen == 0 then Result(Done, c)
    else if c.bulkLen == -1 then
      match ReadHeader(c.buf)
      case LineMissing => Result(NoNewline, c)
      case Incomplete => Result(Wait, c)
      case Invalid => Result(Bad, c)
      case Length(len, next) => Loop(c.(buf := c.buf[next..], bulkLen := len))
    else if |c.buf| < c.bulkLen + 2 then Result(Wait, c)
    else Loop(Client(c.buf[c.bulkLen + 2..], c.multiBulkLen - 1, -1, c.argv + [c.buf[..c.bulkLen]]))
  }

  // ---- one call ----

  /** How the call begins: with the arguments, or not at all. */
  datatype Opening = Arguments(client: Client) | Finished(client: Client) | Refused | Pending

  ghost function Open(c: Client): Opening
    requires Ready(c)
  {
    if c.multiBulkLen > 0 then Arguments(c) else
    match StrChr(c.buf, 0, '\r')
    case None => Pending
    case Some(nl) =>
      if nl + 2 > |c.buf| then Pending else
      match ParseLL(c.buf[1..nl])
      case None => Refused
      case Some(ll) =>
        if ll > SUB_READ_BUF_LEN then Refused
        else if ll <= 0 then Finished(c.(buf := c.buf[nl + 2..]))
        else Arguments(c.(buf := c.buf[nl + 2..], multiBulkLen := ll))
  }

  datatype Verdict = Ok | Failed | Waiting | TooBig

  /** The outcome of a call were the buffer never too big. */
  ghost function Ideal(c: Client): (Verdict, Client)
    requires Ready(c)
  {
    match Open(c)
    case Pending => (Waiting, c)
    case Refused => (Failed, c)
    case Finished(d) => (Ok, d)
    case Arguments(d) =>
      var r := Loop(d);
      match r.stop
      case Done => (Ok, r.client)
      case Wait => (Waiting, r.client)
      case NoNewline => (if |c.buf| > MAX_INLINE_READ then TooBig else Waiting, r.client)
      case Bad => (Failed, r.client)
  }

  /** The outcome of a call. On a bulk header without a line end in a buffer that is too big, the
      bytes already consumed are not trimmed. */
  ghost function Process(c: Client): (Verdict, Client)
    requires Ready(c)
  {
    var (v, d) := Ideal(c);
    if v == TooBig then (v, d.(buf := c.buf)) else (v, d)
  }

  /** What the caller sees: SUBCLI_OK or SUBCLI_ERR, and the state left behind. */
  ghost function Call(c: Client): (bool, Client)
    requires Ready(c)
  {
    (Process(c).0 == Ok, Process(c).1)
  }

  function Append(c: Client, b: string): Client
  {
    c.(buf := c.buf + b)
  }

  // ---- reading in pieces ----

  lemma HeaderAppend(buf: string, b: string)
    ensures ReadHeader(buf).Length? || ReadHeader(buf).Invalid? ==> ReadHeader(buf + b) == ReadHeader(buf)
  {
    StrChrAppend(buf, 0, '\r', b);
    if StrChr(buf, 0, '\r').Some? {
      var nl := StrChr(buf, 0, '\r').value;
      assert nl >= 1 ==> (buf + b)[1..nl] == buf[1..nl];
    }
  }

  // One turn of the loop: over a header, or over an argument.
  ghost function Turn(c: Client): Option<Client>
    requires c.multiBulkLen > 0 && -1 <= c.bulkLen <= MAX_BULK_LEN
  {
    if c.bulkLen == -1 then
      var h := ReadHeader(c.buf);
      if h.Length? then Some(c.(buf := c.buf[h.next..], bulkLen := h.len)) else None
    else if |c.buf| < c.bulkLen + 2 then None
    else Some(Client(c.buf[c.bulkLen + 2..], c.multiBulkLen - 1, -1, c.argv + [c.buf[..c.bulkLen]]))
  }

  lemma LoopTurns(c: Client)
    requires -1 <= c.bulkLen <= MAX_BULK_LEN
    ensures c.multiBulkLen == 0 ==> Loop(c) == Result(Done, c)
    ensures c.multiBulkLen > 0 && Turn(c).Some? ==> Loop(c) == Loop(Turn(c).value)
    ensures c.multiBulkLen > 0 && Turn(c) == None ==> Loop(c).client == c && Loop(c).stop != Done
    ensures c.multiBulkLen > 0 && Turn(c) == None ==>
              && (Loop(c).stop == Bad <==> c.bulkLen == -1 && ReadHeader(c.buf).Invalid?)
              && (Loop(c).stop == Wait <==> c.bulkLen >= 0 || ReadHeader(c.buf).Incomplete?)
              && (Loop(c).stop == NoNewline <==> c.bulkLen == -1 && ReadHeader(c.buf).LineMissing?)
  {
  }

  lemma TurnAppend(c: Client, b: string)
    requires c.multiBulkLen > 0 && -1 <= c.bulkLen <= MAX_BULK_LEN
    ensures Turn(c).Some? ==> Turn(Append(c, b)) == Some(Append(Turn(c).value, b))
    ensures c.bulkLen == -1 && ReadHeader(c.buf).Invalid? ==> ReadHeader(c.buf + b).Invalid?
  {
    if c.bulkLen == -1 {
      HeaderAppend(c.buf, b);
      var h := ReadHeader(c.buf);
      if h.Length? { assert (c.buf + b)[h.next..] == c.buf[h.next..] + b; }
    } else if |c.buf| >= c.bulkLen + 2 {
      assert (c.buf + b)[c.bulkLen + 2..] == c.buf[c.bulkLen + 2..] + b;
      assert (c.buf + b)[..c.bulkLen] == c.buf[..c.bulkLen];
    }
  }

  /** Where the loop stopped for lack of bytes it can be resumed when they arrive; where it stopped
      for good, they are left over. */
  lemma {:induction false} LoopAppend(c: Client, b: string)
    requires -1 <= c.bulkLen <= MAX_BULK_LEN
    ensures var r := Loop(c);
            if r.stop == Done || r.stop == Bad then Loop(Append(c, b)) == Result(r.stop, Append(r.client, b))
            else Loop(Append(c, b)) == Loop(Append(r.client, b))
    decreases c.multiBulkLen, |c.buf|
  {
    LoopTurns(c);
    LoopTurns(Append(c, b));
    if c.multiBulkLen > 0 {
      TurnAppend(c, b);
      if Turn(c).Some? {
        LoopAppend(Turn(c).value, b);
      }
    }
  }

  lemma OpenAppend(c: Client, b: string)
    requires Ready(c) && Ready(Append(c, b))
    ensures match Open(c)
            case Arguments(d) => Open(Append(c, b)) == Arguments(Append(d, b))
            case Finished(d) => Open(Append(c, b)) == Finished(Append(d, b))
            case Refused => Open(Append(c, b)) == Refused
            case Pending => true
  {
    StrChrAppend(c.buf, 0, '\r', b);
    if c.multiBulkLen == 0 && StrChr(c.buf, 0, '\r').Some? {
      var nl := StrChr(c.buf, 0, '\r').value;
      assert (c.buf + b)[1..nl] == c.buf[1..nl];
      if nl + 2 <= |c.buf| { assert (c.buf + b)[nl + 2..] == c.buf[nl + 2..] + b; }
    }
  }

  /** What the loop left of the buffer, before a failing branch puts it back. */
  ghost function Leftover(c: Client): string
    requires Ready(c)
  {
    Ideal(c).1.buf
  }

  /** What the arguments read so far, and a bulk length read ahead, took in the buffer. */
  function Weight(c: Client): nat
  {
    |Frames(c.argv)| + if c.bulkLen >= 0 then 3 + |ToDecimal(c.bulkLen)| else 0
  }

  lemma {:induction false} FramesSnoc(args: seq<string>, a: string)
    ensures Frames(args + [a]) == Frames(args) + Frame(a)
  {
    hide Frame;
    if args == [] {
      assert [a][1..] == [] && args + [a] == [a];
      assert Frames([a]) == Frame(a) + Frames([]);
    } else {
      FramesSnoc(args[1..], a);
      assert (args + [a])[1..] == args[1..] + [a];
      assert Frame(args[0]) + (Frames(args[1..]) + Frame(a)) == Frame(args[0]) + Frames(args[1..]) + Frame(a);
    }
  }

  lemma HeaderLength(buf: string)
    requires ReadHeader(buf).Length?
    ensures ReadHeader(buf).next == 3 + |ToDecimal(ReadHeader(buf).len)|
  {
    var nl := StrChr(buf, 0, '\r').value;
    assert |buf[1..nl]| == nl - 1;
  }

  lemma TurnKeepsWeight(c: Client)
    requires c.multiBulkLen > 0 && -1 <= c.bulkLen <= MAX_BULK_LEN && Turn(c).Some?
    ensures |Turn(c).value.buf| + Weight(Turn(c).value) == |c.buf| + Weight(c)
    ensures Turn(c).value.multiBulkLen + |Turn(c).value.argv| == c.multiBulkLen + |c.argv|
  {
    hide ReadHeader, Frames;
    if c.bulkLen == -1 {
      HeaderLength(c.buf);
    } else {
      FramesSnoc(c.argv, c.buf[..c.bulkLen]);
    }
  }

  /** Every byte is accounted for: what the loop took off the buffer is in the arguments it read, and
      their number is the number announced. */
  lemma {:induction false} LoopKeepsWeight(c: Client)
    requires -1 <= c.bulkLen <= MAX_BULK_LEN
    ensures var d := Loop(c).client;
            && |d.buf| + Weight(d) == |c.buf| + Weight(c)
            && d.multiBulkLen + |d.argv| == c.multiBulkLen + |c.argv|
    ensures Loop(c).stop == NoNewline ==> Loop(c).client.bulkLen == -1
    decreases c.multiBulkLen, |c.buf|
  {
    hide Weight, ReadHeader;
    LoopTurns(c);
    if c.multiBulkLen > 0 && Turn(c).Some? {
      TurnKeepsWeight(c);
      LoopKeepsWeight(Turn(c).value);
    }
  }

  lemma LoopFrom(c: Client)
    requires Ready(c) && c.multiBulkLen > 0
    ensures var r := Loop(c);
            Process(c) == match r.stop
                          case Done => (Ok, r.client)
                          case Wait => (Waiting, r.client)
                          case NoNewline => if |c.buf| > MAX_INLINE_READ then (TooBig, r.client.(buf := c.buf)) else (Waiting, r.client)
                          case Bad => (Failed, r.client)
  {
    hide Loop;
  }

  /** A call that waits can be resumed with b: it took nothing off the buffer, or the whole buffer
      stays within the limit, or the next call does not stop for want of a line end. */
  ghost predicate CanResume(c: Client, b: string)
    requires Ready(c)
  {
    var d := Process(c).1;
    |d.buf| == |c.buf| || |c.buf + b| <= MAX_INLINE_READ || Loop(Append(d, b)).stop != NoNewline
  }

  /** A call that fails as too big fails so with b behind it too: the header line it stopped at is
      still without an end, or nothing was taken off the buffer and that line is no header. */
  ghost predicate StaysTooBig(c: Client, b: string)
    requires Ready(c)
  {
    var h := ReadHeader(Leftover(c) + b);
    h.LineMissing? || (|Leftover(c)| == |c.buf| && !h.Length?)
  }

  /** After a call that failed as too big, which left the bytes it had read in front of the others,
      another call does no harm: nothing had been read; or the line is still without an end and the
      bytes read are not taken for a header; or both stop at such a line again, after the same
      arguments. */
  ghost predicate CanRetry(c: Client, b: string)
    requires Ready(c) && Process(c).0 == TooBig
  {
    var d := Process(c).1;
    var whole, again := Loop(Append(d.(buf := Leftover(c)), b)), Loop(Append(d, b));
    || |Leftover(c)| == |c.buf|
    || (ReadHeader(Leftover(c) + b).LineMissing? && !ReadHeader(c.buf + b).Length?)
    || (whole.stop == NoNewline == again.stop && whole.client.argv == again.client.argv)
  }

  lemma {:induction false} LoopRests(c: Client)
    requires -1 <= c.bulkLen <= MAX_BULK_LEN
    ensures Loop(Loop(c).client) == Loop(c)
    decreases c.multiBulkLen, |c.buf|
  {
    hide ReadHeader;
    LoopTurns(c);
    if c.multiBulkLen > 0 && Turn(c).Some? {
      LoopRests(Turn(c).value);
    }
  }

  // Where the loop of a call begins and stops.
  lemma CallLoop(c: Client) returns (r: Client)
    requires Ready(c) && Open(c).Arguments?
    ensures var e := Open(c).client;
            && r == Loop(e).client && -1 <= e.bulkLen && e.multiBulkLen > 0 && |e.buf| <= |c.buf|
            && (|e.buf| == |c.buf| ==> e == c) && |r.buf| <= |e.buf| && (|r.buf| == |e.buf| ==> r == e)
            && Leftover(c) == r.buf && Loop(r) == Loop(e)
            && Process(c) == match Loop(e).stop
                             case Done => (Ok, r)
                             case Wait => (Waiting, r)
                             case Bad => (Failed, r)
                             case NoNewline => if |c.buf| > MAX_INLINE_READ then (TooBig, r.(buf := c.buf)) else (Waiting, r)
  {
    hide Loop, StrChr, ParseLL;
    r := Loop(Open(c).client).client;
    LoopRests(Open(c).client);
  }

  // The call on the whole goes on from where the first one stopped.
  lemma WholeCall(c: Client, b: string) returns (r: Client)
    requires Ready(c) && Ready(Append(c, b)) && Open(c).Arguments?
    ensures r == Loop(Open(c).client).client && Loop(r).stop == Loop(Open(c).client).stop && r.bulkLen >= -1
    ensures var l := Loop(Append(r, b));
            Process(Append(c, b)) == match l.stop
                                     case Done => (Ok, l.client)
                                     case Wait => (Waiting, l.client)
                                     case Bad => (Failed, l.client)
                                     case NoNewline => if |c.buf + b| > MAX_INLINE_READ then (TooBig, l.client.(buf := c.buf + b))
                                                       else (Waiting, l.client)
  {
    hide Loop, StrChr, ParseLL;
    var e := Open(c).client;
    r := CallLoop(c);
    OpenAppend(c, b);
    LoopAppend(e, b);
    LoopAppend(r, b);
    var _ := CallLoop(Append(c, b));
  }

  lemma NextCall(d: Client, b: string)
    requires Ready(d) && d.multiBulkLen > 0
    ensures Ready(Append(d, b))
    ensures var l := Loop(Append(d, b));
            Process(Append(d, b)) == match l.stop
                                     case Done => (Ok, l.client)
                                     case Wait => (Waiting, l.client)
                                     case Bad => (Failed, l.client)
                                     case NoNewline => if |d.buf + b| > MAX_INLINE_READ then (TooBig, l.client.(buf := d.buf + b))
                                                       else (Waiting, l.client)
  {
    hide Loop, StrChr, ParseLL;
    LoopFrom(Append(d, b));
  }

  lemma FinishedStays(c: Client, b: string)
    requires Ready(c) && Ready(Append(c, b)) && (Process(c).0 == Ok || Process(c).0 == Failed)
    ensures Call(Append(c, b)) == (Process(c).0 == Ok, Append(Process(c).1, b))
    ensures Process(c).0 == Failed ==>
        Ready(Append(Process(c).1, b)) && Call(Append(Process(c).1, b)) == Call(Append(c, b))
  {
    hide Loop, StrChr, ParseLL;
    OpenAppend(c, b);
    if Open(c).Arguments? {
      var r := WholeCall(c, b);
      var _ := CallLoop(c);
      LoopAppend(r, b);
      LoopRests(Open(c).client);
      StopsShort(Open(c).client);
      if Process(c).0 == Failed { NextCall(r, b); }
    }
  }

  lemma StopsShort(c: Client)
    requires -1 <= c.bulkLen <= MAX_BULK_LEN
    ensures -1 <= Loop(c).client.bulkLen <= MAX_BULK_LEN
    ensures Loop(c).stop != Done ==> Loop(c).client.multiBulkLen > 0 && Ready(Loop(c).client)
  {
    hide Loop;
  }

  lemma WaitingResumes(c: Client, b: string)
    requires Ready(c) && Ready(Append(c, b)) && Process(c).0 == Waiting
    ensures Ready(Append(Process(c).1, b))
    ensures Call(Append(Process(c).1, b)) == Call(Append(c, b)) <==> CanResume(c, b)
  {
    hide Loop, StrChr, ParseLL;
    if Open(c).Arguments? {
      var r := WholeCall(c, b);
      var _ := CallLoop(c);
      StopsShort(Open(c).client);
      NextCall(r, b);
      LoopShrinks(Append(r, b));
    }
  }

  lemma LoopShrinks(c: Client)
    requires -1 <= c.bulkLen <= MAX_BULK_LEN
    ensures |Loop(c).client.buf| <= |c.buf| && (|Loop(c).client.buf| == |c.buf| ==> Loop(c).client == c)
  {
    hide Loop;
  }

  lemma LoopAdvances(c: Client)
    requires -1 <= c.bulkLen <= MAX_BULK_LEN && c.multiBulkLen > 0
    ensures Turn(c).Some? ==> |Loop(c).client.buf| < |c.buf|
    ensures Turn(c) == None ==> Loop(c).client == c
    ensures Loop(c).client == c ==> Turn(c) == None
  {
    hide Loop, ReadHeader;
    LoopTurns(c);
    if Turn(c).Some? {
      LoopShrinks(Turn(c).value);
    }
  }

  // A loop that stops for want of a line end and has read nothing new has not moved.
  lemma NothingRead(c: Client)
    requires c.bulkLen == -1 && c.multiBulkLen > 0 && Loop(c).stop == NoNewline && Loop(c).client.argv == c.argv
    ensures Loop(c).client == c && ReadHeader(c.buf).LineMissing?
  {
    hide Loop, ReadHeader, Frames;
    LoopKeepsWeight(c);
    LoopShrinks(c);
    LoopAdvances(c);
    LoopTurns(c);
  }

  lemma TooBigIsNoNewline(c: Client) returns (r: Client)
    requires Ready(c) && Process(c).0 == TooBig
    ensures Open(c).Arguments? && r == Loop(Open(c).client).client && Leftover(c) == r.buf
    ensures r.multiBulkLen > 0 && r.bulkLen == -1 && |r.buf| <= |c.buf| && |c.buf| > MAX_INLINE_READ
    ensures Process(c).1 == r.(buf := c.buf) && ReadHeader(r.buf).LineMissing? && (|r.buf| == |c.buf| ==> r == c)
  {
    hide Loop, StrChr, ParseLL;
    r := CallLoop(c);
    StopsShort(Open(c).client);
    LoopKeepsWeight(Open(c).client);
    LoopTurns(r);
    LoopAdvances(r);
  }

  lemma TooBigStays(c: Client, b: string)
    requires Ready(c) && Ready(Append(c, b)) && Process(c).0 == TooBig
    ensures Call(Append(c, b)) == (false, Append(Process(c).1, b)) <==> StaysTooBig(c, b)
  {
    hide Loop, ReadHeader, Frames, Open;
    var r := TooBigIsNoNewline(c);
    var _ := WholeCall(c, b);
    var whole := Append(r, b);
    LoopTurns(whole);
    LoopAdvances(whole);
    if Loop(whole).stop == NoNewline && Loop(whole).client.argv == whole.argv {
      NothingRead(whole);
    }
  }

  lemma TooBigRetries(c: Client, b: string)
    requires Ready(c) && Ready(Append(c, b)) && Process(c).0 == TooBig
    ensures Ready(Append(Process(c).1, b))
    ensures Call(Append(Process(c).1, b)) == Call(Append(c, b)) <==> CanRetry(c, b)
  {
    hide Loop, ReadHeader, Frames, Open, Weight;
    var r := TooBigIsNoNewline(c);
    var _ := WholeCall(c, b);
    var d := Process(c).1;
    NextCall(d, b);
    var whole, again := Append(r, b), Append(d, b);
    LoopKeepsWeight(whole);
    LoopKeepsWeight(again);
    SameWeight(whole, again);
    SameWeight(Loop(whole).client, Loop(again).client);
    LoopTurns(whole);
    LoopTurns(again);
    LoopAdvances(whole);
    LoopAdvances(again);
    if Loop(whole).stop == NoNewline && Loop(whole).client.argv == whole.argv {
      NothingRead(whole);
    }
  }

  lemma SameWeight(c: Client, d: Client)
    ensures c.argv == d.argv && c.bulkLen == d.bulkLen ==> Weight(c) == Weight(d)
  {
  }

  /** Reading in two pieces, for every buffer and every way of cutting it. A call that finished, or
      failed on bad bytes, does so too with b behind it. After any other call another one with b is
      as good as one call on the whole exactly under the condition named. */
  lemma ReadingInPieces(c: Client, b: string)
    requires Ready(c) && Ready(Append(c, b))
    ensures var (v, d) := Process(c);
            match v
            case Ok => Call(Append(c, b)) == (true, Append(d, b))
            case Failed =>
              && Call(Append(c, b)) == (false, Append(d, b))
              && Ready(Append(d, b)) && Call(Append(d, b)) == Call(Append(c, b))
            case Waiting =>
              Ready(Append(d, b)) && (Call(Append(d, b)) == Call(Append(c, b)) <==> CanResume(c, b))
            case TooBig =>
              && (Call(Append(c, b)) == (false, Append(d, b)) <==> StaysTooBig(c, b))
              && Ready(Append(d, b)) && (Call(Append(d, b)) == Call(Append(c, b)) <==> CanRetry(c, b))
  {
    hide Process, CanResume, StaysTooBig, CanRetry;
    match Process(c).0
    case Ok => FinishedStays(c, b);
    case Failed => FinishedStays(c, b);
    case Waiting => WaitingResumes(c, b);
    case TooBig =>
      TooBigStays(c, b);
      TooBigRetries(c, b);
  }

  /** Within the limit every way of reading in two pieces gives the same. */
  lemma ReadingInPiecesWithinLimit(c: Client, b: string)
    requires Ready(c) && Ready(Append(c, b)) && |c.buf + b| <= MAX_INLINE_READ
    ensures var (v, d) := Process(c);
            if v == Waiting then Ready(Append(d, b)) && Call(Append(d, b)) == Call(Append(c, b))
            else Call(Append(c, b)) == (v == Ok, Append(d, b))
  {
    ReadingInPieces(c, b);
  }

  function Concat(chunks: seq<string>): string
  {
    if chunks == [] then [] else chunks[0] + Concat(chunks[1..])
  }

  /** One call after each chunk, for as long as the parser waits. */
  ghost function Feed(c: Client, chunks: seq<string>): (bool, Client)
    requires Ready(c) && (c.multiBulkLen > 0 || c.buf != [])
    decreases |chunks|
  {
    if chunks == [] then Call(c)
    else if Process(c).0 == Waiting then Feed(Append(Process(c).1, chunks[0]), chunks[1..])
    else (Call(c).0, Append(Call(c).1, Concat(chunks)))
  }

  lemma StillWaiting(c: Client)
    requires Ready(c) && Process(c).0 == Waiting
    ensures var d := Process(c).1; Ready(d) && |d.buf| <= |c.buf| && (d == c || d.multiBulkLen > 0)
  {
    hide Loop, StrChr, ParseLL;
  }

  /** However a request is cut into chunks, the outcome is that of one call on all of it. */
  lemma {:induction false} ReadingInChunks(c: Client, chunks: seq<string>)
    requires Ready(c) && (c.multiBulkLen > 0 || c.buf != [])
    requires |c.buf| + |Concat(chunks)| <= MAX_INLINE_READ
    ensures Feed(c, chunks) == Call(Append(c, Concat(chunks)))
    decreases |chunks|
  {
    hide Process;
    if chunks == [] {
      assert c.buf + [] == c.buf;
    } else {
      var d, b, rest := Process(c).1, chunks[0], Concat(chunks[1..]);
      ReadingInPiecesWithinLimit(c, Concat(chunks));
      if Process(c).0 == Waiting {
        StillWaiting(c);
        ReadingInChunks(Append(d, b), chunks[1..]);
        assert d.buf + (b + rest) == d.buf + b + rest;
      }
    }
  }

  // ---- the encoder ----

  /** What `add_reply_bulk` writes for one argument. */
  function Frame(arg: string): string
  {
    "$" + ToDecimal(|arg|) + CRLF + arg + CRLF
  }

  function Frames(args: seq<string>): string
  {
    if args == [] then [] else Frame(args[0]) + Frames(args[1..])
  }

  /** A request: the number of arguments, and their frames. */
  function Encode(args: seq<string>): string
  {
    "*" + ToDecimal(|args|) + CRLF + Frames(args)
  }

  // A header line: a marker, a number, CR LF; and whatever follows.
  lemma NumberLine(marker: char, n: nat, rest: string)
    requires n <= LLONG_MAX && marker != '\r' && marker != NUL
    ensures var buf := [marker] + ToDecimal(n) + CRLF + rest; var nl := 1 + |ToDecimal(n)|;
            && StrChr(buf, 0, '\r') == Some(nl) && nl + 2 <= |buf| && buf[0] == marker
            && ParseLL(buf[1..nl]) == Some(n) && buf[nl + 2..] == rest
  {
    var digits := ToDecimal(n);
    var buf, nl := [marker] + digits + CRLF + rest, 1 + |digits|;
    ValueOfDigits(n);
    assert forall i :: 0 < i < nl ==> buf[i] == digits[i - 1];
    StrChrSkips(buf, 0, nl, '\r');
    assert buf[1..nl] == digits;
    ParseLLOfDecimal(n);
  }

  lemma LoopOverFrame(arg: string, tail: string, n: nat, argv: seq<string>)
    requires n > 0 && |arg| <= MAX_BULK_LEN
    ensures Loop(Client(Frame(arg) + tail, n, -1, argv)) == Loop(Client(tail, n - 1, -1, argv + [arg]))
  {
    hide Loop, ParseLL, StrChr;
    var rest := arg + CRLF + tail;
    NumberLine('$', |arg|, rest);
    assert Frame(arg) + tail == ['$'] + ToDecimal(|arg|) + CRLF + rest;
    assert rest[|arg| + 2..] == tail && rest[..|arg|] == arg;
    LoopTurns(Client(Frame(arg) + tail, n, -1, argv));
    LoopTurns(Client(rest, n, |arg|, argv));
  }

  lemma {:induction false} LoopOverFrames(args: seq<string>, tail: string, argv: seq<string>)
    requires forall i :: 0 <= i < |args| ==> |args[i]| <= MAX_BULK_LEN
    ensures Loop(Client(Frames(args) + tail, |args|, -1, argv)) == Result(Done, Client(tail, 0, -1, argv + args))
    decreases |args|
  {
    hide Loop, Frame;
    LoopTurns(Client(tail, 0, -1, argv));
    if args == [] {
      assert Frames(args) + tail == tail && argv + args == argv;
    } else {
      LoopOverFrame(args[0], Frames(args[1..]) + tail, |args|, argv);
      LoopOverFrames(args[1..], tail, argv + [args[0]]);
      assert Frames(args) + tail == Frame(args[0]) + (Frames(args[1..]) + tail);
      assert argv + [args[0]] + args[1..] == argv + args;
    }
  }

  /** Parsing an encoded request returns its arguments and leaves the bytes after it untouched. */
  lemma ParseUndoesEncode(args: seq<string>, tail: string)
    requires 1 <= |args| <= SUB_READ_BUF_LEN
    requires forall i :: 0 <= i < |args| ==> |args[i]| <= MAX_BULK_LEN
    ensures var c := Client(Encode(args) + tail, 0, -1, []);
            Ready(c) && Process(c) == (Ok, Client(tail, 0, -1, args))
  {
    hide Loop, ParseLL, StrChr, Frame, Frames;
    var c := Client(Encode(args) + tail, 0, -1, []);
    NumberLine('*', |args|, Frames(args) + tail);
    assert c.buf == ['*'] + ToDecimal(|args|) + CRLF + (Frames(args) + tail);
    LoopOverFrames(args, tail, []);
    assert [] + args == args;
  }

  lemma {:induction false} NoCarriageReturn(n: nat, p: nat)
    requires p <= n
    ensures StrChr(Repeat('y', n), p, '\r') == None
    decreases n - p
  {
    if p < n {
      NoCarriageReturn(n, p + 1);
    }
  }

  /** The limit on the buffer matters: with more behind it, a request that waits for its second
      argument is read differently in two pieces than in one. */
  lemma TooBigBulkCountBreaksResumption()
    ensures var c := Client("*2\r\n$1\r\nx\r\n", 0, -1, []);
            var b := Repeat('y', MAX_INLINE_READ);
            && Ready(c) && Process(c) == (Waiting, Client("", 1, -1, ["x"]))
            && Ready(Client(b, 1, -1, ["x"])) && Ready(Append(c, b))
            && Call(Client(b, 1, -1, ["x"])) != Call(Append(c, b))
  {
    hide Loop, ParseLL, Repeat, Process, StrChr, Open;
    var b := Repeat('y', MAX_INLINE_READ);
    var c := Client("*2\r\n$1\r\nx\r\n", 0, -1, []);
    OneOfTwo(c);
    NoCarriageReturn(MAX_INLINE_READ, 0);
    LoopTurns(Client(b, 1, -1, ["x"]));
    assert "" + b == b;
    ReadingInPieces(c, b);
  }

  // A request for two arguments of which one is there.
  lemma OneOfTwo(c: Client)
    requires c == Client("*2\r\n$1\r\nx\r\n", 0, -1, [])
    ensures Ready(c) && Process(c) == (Waiting, Client("", 1, -1, ["x"]))
  {
    hide Loop, ParseLL, StrChr;
    assert ToDecimal(2) == "2" && ToDecimal(1) == "1";
    NumberLine('*', 2, "$1\r\nx\r\n");
    assert c.buf == ['*'] + ToDecimal(2) + CRLF + "$1\r\nx\r\n";
    assert Frame("x") + "" == "$1\r\nx\r\n" && [] + ["x"] == ["x"];
    LoopOverFrame("x", "", 2, []);
    EmptyWaits(Client("", 1, -1, ["x"]));
  }

  lemma EmptyWaits(c: Client)
    requires c.buf == [] && c.multiBulkLen > 0 && c.bulkLen == -1
    ensures Loop(c) == Result(NoNewline, c)
  {
  }

  /** And a call that fails as too big, in front of half a header, does not fail once the other half
      is there. */
  lemma TooBigCallIsChanged()
    ensures var a := Repeat('x', MAX_BULK_LEN);
            var c, b := Client(Frame(a) + "$1", 2, -1, []), "\r\ny\r\n";
            && Ready(c) && Process(c) == (TooBig, Client(c.buf, 1, -1, [a]))
            && Ready(Append(c, b)) && Call(Append(c, b)) == (true, Client("", 0, -1, [a, "y"]))
  {
    hide Loop, ParseLL, Repeat, Frame, Frames;
    var a := Repeat('x', MAX_BULK_LEN);
    var c, b := Client(Frame(a) + "$1", 2, -1, []), "\r\ny\r\n";
    LoopOverFrame(a, "$1", 2, []);
    assert [] + [a] == [a] && [] + [a, "y"] == [a, "y"];
    assert StrChr("$1", 0, '\r') == None;
    LoopTurns(Client("$1", 1, -1, [a]));
    FrameIsLonger(a);
    TwoFrames(a, b);
    assert c.buf + b == Frame(a) + ("$1" + b);
    LoopOverFrames([a, "y"], "", []);
    assert Frames([a, "y"]) + "" == Frames([a, "y"]);
  }

  lemma FrameIsLonger(a: string)
    ensures |Frame(a)| > |a|
  {
  }

  lemma TwoFrames(a: string, b: string)
    requires b == "\r\ny\r\n"
    ensures Frames([a, "y"]) == Frame(a) + ("$1" + b)
  {
    assert ToDecimal(1) == "1" && Frame("y") == "$1" + b;
    FramesSnoc([a], "y");
    assert [a] + ["y"] == [a, "y"];
    assert [a][1..] == [] && Frames([a]) == Frame(a) + Frames([]);
  }
}
