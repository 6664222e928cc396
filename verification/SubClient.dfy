/** The subscriber client of src/protocol/subcli.c: its request parsers and its reply buffer,
    updated in place.
 */
module SubClient {
  import opened CStrings
  import Decimal
  import opened Resp
  import opened Sds
  import opened SdsArgs
  import SdsGrammar

  const SUB_WRITE_BUF_LEN: nat := 16384

  // ---- inline requests ----

  function NonEmpty(args: seq<string>): seq<string>
  {
    if args == [] then []
    else if args[0] == [] then NonEmpty(args[1..])
    else [CStr(args[0])] + NonEmpty(args[1..])
  }

  lemma {:induction false} NonEmptySnoc(args: seq<string>, a: string)
    ensures NonEmpty(args + [a]) == NonEmpty(args) + if a == [] then [] else [CStr(a)]
  {
    if args != [] {
      NonEmptySnoc(args[1..], a);
      assert (args + [a])[1..] == args[1..] + [a];
    } else {
      assert [a][1..] == [] && args + [a] == [a];
    }
  }

  /** The arguments kept are those not empty, in their order, each up to its first NUL. */
  lemma {:induction false} NonEmptyIsAFilter(a: seq<string>, b: seq<string>)
    ensures NonEmpty(a + b) == NonEmpty(a) + NonEmpty(b)
    ensures |a| == 1 ==> NonEmpty(a) == if a[0] == [] then [] else [CStr(a[0])]
    decreases |a|
  {
    if a == [] {
      assert a + b == b;
    } else {
      NonEmptyIsAFilter(a[1..], b);
      assert (a + b)[1..] == a[1..] + b;
      assert |a| == 1 ==> a[1..] == [];
    }
  }

  /** Where an inline request ends: before the line end, and before a CR in front of it. */
  function LineLength(buf: string, newline: nat): (n: nat)
    requires newline < |buf|
    ensures n <= newline
  {
    if newline > 0 && buf[newline - 1] == '\r' then newline - 1 else newline
  }

  /** The outcome of `process_inline_buffer`. Two bytes are dropped after the line, whatever ended it. */
  function InlineCall(c: Client): (bool, Client)
  {
    match StrChr(c.buf, 0, '\n')
    case None => (false, c)
    case Some(newline) =>
      var n := LineLength(c.buf, newline);
      match SplitArgsOf(c.buf[..n])
      case None => (false, c)
      case Some(args) => (true, c.(buf := RangeOf(c.buf, n + 2, -1), argv := NonEmpty(args)))
  }

  lemma {:induction false} NonEmptyKeepsAll(args: seq<string>)
    requires forall i :: 0 <= i < |args| ==> args[i] != [] && NulFree(args[i])
    ensures NonEmpty(args) == args
  {
    if args != [] {
      CStrOfNulFree(args[0]);
      NonEmptyKeepsAll(args[1..]);
    }
  }

  /** The arguments of a quoted inline request, ended by CR LF, are the arguments of its RESP form,
      and both leave what follows. */
  lemma InlineEqualsMultibulk(args: seq<string>, tail: string)
    requires 1 <= |args| <= SUB_READ_BUF_LEN
    requires forall i :: 0 <= i < |args| ==> 0 < |args[i]| <= MAX_BULK_LEN && NulFree(args[i]) && Bytes(args[i])
    ensures var line := Client(JoinReprs(args) + CRLF + tail, 0, -1, []);
            var resp := Client(Encode(args) + tail, 0, -1, []);
            && line.buf[0] != '*' && resp.buf[0] == '*' && Ready(resp)
            && InlineCall(line) == Call(resp) == (true, Client(tail, 0, -1, args))
  {
    hide JoinReprs, Process, Encode, SplitArgsOf, StrChr, RangeOf, Bytes, NonEmpty;
    ReprsArePrintable(args);
    SplitUndoesRepr(args);
    NonEmptyKeepsAll(args);
    ParseUndoesEncode(args, tail);
    InlineLine(JoinReprs(args), args, tail);
    EncodeStarts(args);
    JoinStarts(args);
  }

  /** An inline request that is read takes exactly its line, line end included, if and only if the
      line ends in CR LF or the line feed is the last byte there is: otherwise the byte behind a
      bare line feed is lost. */
  lemma InlineTakesItsLine(c: Client)
    requires StrChr(c.buf, 0, '\n').Some? && InlineCall(c).0
    ensures var nl := StrChr(c.buf, 0, '\n').value;
            InlineCall(c).1.buf == c.buf[nl + 1..] <==> (nl > 0 && c.buf[nl - 1] == '\r') || nl + 1 == |c.buf|
  {
    hide StrChr, SplitArgsOf, RangeOf;
    RangeToEnd(c.buf, LineLength(c.buf, StrChr(c.buf, 0, '\n').value) + 2);
  }

  /** A request ended by a bare line feed, with another behind it that loses its first byte. */
  lemma BareLineFeedLosesAByte()
    ensures var c := Client("ping\nping\n", 0, -1, []);
            InlineCall(c) == (true, Client("ing\n", 0, -1, ["ping"]))
  {
    hide SplitArgsOf, RangeOf;
    var buf := "ping\nping\n";
    StrChrSkips(buf, 0, 4, '\n');
    RangeToEnd(buf, 6);
    assert buf[..4] == "ping" && buf[6..] == "ing\n";
    PlainWord();
  }

  // A word without quotes and blanks, read to the end of the line.
  lemma {:induction false} BareToken(line: string, p: nat, current: string)
    requires p <= |line|
    requires forall i :: p <= i < |line| ==> line[i] != NUL && !IsSpace(line[i]) && line[i] != '"' && line[i] != '\''
    ensures Token(line, p, Bare, current) == Some((current + line[p..], |line|))
    decreases |line| - p
  {
    if p < |line| {
      BareToken(line, p + 1, current + [line[p]]);
      assert current + [line[p]] + line[p + 1..] == current + line[p..];
    } else {
      assert current + line[p..] == current;
    }
  }

  lemma PlainWord()
    ensures SplitArgsOf("ping") == Some(["ping"]) && NonEmpty(["ping"]) == ["ping"]
  {
    hide Token;
    var line := "ping";
    CStrOfNulFree(line);
    BareToken(line, 0, []);
    assert [] + line[0..] == line;
    assert Args(line, 4) == Some([]);
    assert ["ping"] + [] == ["ping"];
  }

  /** An inline request is read exactly when its line is one of the grammar of arguments, and gives
      the arguments that are not empty. */
  lemma InlineIsTheGrammar(c: Client)
    requires StrChr(c.buf, 0, '\n').Some?
    ensures var line := c.buf[..LineLength(c.buf, StrChr(c.buf, 0, '\n').value)];
            && (InlineCall(c).0 <==> exists lead, parts :: SdsGrammar.IsLine(line, lead, parts))
            && (forall lead, parts :: SdsGrammar.IsLine(line, lead, parts) ==>
                  InlineCall(c).1.argv == NonEmpty(SdsGrammar.SpacedValues(parts)))
  {
    hide StrChr, SplitArgsOf, RangeOf, NonEmpty, SdsGrammar.IsLine, SdsGrammar.SpacedValues;
    var line := c.buf[..LineLength(c.buf, StrChr(c.buf, 0, '\n').value)];
    StrChrPasses(c.buf, 0, '\n');
    CStrOfNulFree(line);
    SdsGrammar.UnbalancedLines(line);
    forall lead, parts | SdsGrammar.IsLine(line, lead, parts)
      ensures SplitArgsOf(line) == Some(SdsGrammar.SpacedValues(parts))
    {
      SdsGrammar.LineIsSplit(line, lead, parts);
    }
  }

  /** Words with runs of blanks between and around them, on a line ended by CR LF, are the arguments,
      and what follows the line is left. */
  lemma InlineReadsWords(lead: string, words: seq<string>, gaps: seq<string>, tail: string)
    requires |words| == |gaps| && SdsGrammar.WordGap(lead) && '\n' !in lead
    requires forall i :: 0 <= i < |words| ==> SdsGrammar.PlainWord(words[i]) && SdsGrammar.WordGap(gaps[i]) && '\n' !in gaps[i]
    requires forall i :: 0 <= i < |words| - 1 ==> gaps[i] != []
    ensures var line := lead + SdsGrammar.Woven(words, gaps);
            InlineCall(Client(line + CRLF + tail, 0, -1, [])) == (true, Client(tail, 0, -1, words))
  {
    hide SplitArgsOf, NonEmpty, StrChr, RangeOf, SdsGrammar.Woven, SdsGrammar.PlainWord;
    var text := lead + SdsGrammar.Woven(words, gaps);
    var buf := text + CRLF + tail;
    SdsGrammar.WordsAreSplit(lead, words, gaps);
    WovenOnOneLine(words, gaps);
    StrChrSkips(buf, 0, |text| + 1, '\n');
    assert buf[..|text|] == text && buf[|text| + 2..] == tail;
    RangeToEnd(buf, |text| + 2);
    forall i | 0 <= i < |words| ensures words[i] != [] && NulFree(words[i]) { WordNulFree(words[i]); }
    NonEmptyKeepsAll(words);
  }

  lemma WordNulFree(w: string)
    requires SdsGrammar.PlainWord(w)
    ensures w != [] && NulFree(w) && '\n' !in w
  {
  }

  lemma {:induction false} WovenOnOneLine(words: seq<string>, gaps: seq<string>)
    requires |words| == |gaps|
    requires forall i :: 0 <= i < |words| ==> SdsGrammar.PlainWord(words[i]) && SdsGrammar.WordGap(gaps[i]) && '\n' !in gaps[i]
    ensures var t := SdsGrammar.Woven(words, gaps); NulFree(t) && '\n' !in t
    decreases |words|
  {
    hide SdsGrammar.PlainWord;
    if words != [] {
      WordNulFree(words[0]);
      WovenOnOneLine(words[1..], gaps[1..]);
    }
  }

  lemma EncodeStarts(args: seq<string>)
    ensures Encode(args) != [] && Encode(args)[0] == '*'
  {
  }

  lemma JoinStarts(args: seq<string>)
    requires args != [] && forall i :: 0 <= i < |args| ==> Bytes(args[i])
    ensures JoinReprs(args) != [] && JoinReprs(args)[0] == '"'
  {
  }

  lemma InlineLine(text: string, args: seq<string>, tail: string)
    requires SplitArgsOf(text) == Some(args) && forall i :: 0 <= i < |text| ==> IsPrint(text[i])
    ensures InlineCall(Client(text + CRLF + tail, 0, -1, [])) == (true, Client(tail, 0, -1, NonEmpty(args)))
  {
    hide SplitArgsOf, NonEmpty;
    var buf := text + CRLF + tail;
    StrChrSkips(buf, 0, |text| + 1, '\n');
    assert buf[..|text|] == text && buf[|text| + 2..] == tail;
    RangeToEnd(buf, |text| + 2);
  }

  // ---- replies ----

  /** One append to the reply buffer: all or nothing. */
  function Fitted(w: string, s: string): (r: string)
    ensures |w| <= SUB_WRITE_BUF_LEN ==> |r| <= SUB_WRITE_BUF_LEN
  {
    if |w| + |s| <= SUB_WRITE_BUF_LEN then w + s else w
  }

  /** The three appends of `add_reply_bulk`. */
  function WithBulk(w: string, msg: string): string
  {
    Fitted(Fitted(Fitted(w, "$" + Decimal.ToDecimal(|msg|) + CRLF), msg), CRLF)
  }

  /** The reply is a whole frame exactly when the whole frame fits. */
  lemma BulkIsFrameIffItFits(w: string, msg: string)
    requires |w| <= SUB_WRITE_BUF_LEN
    ensures WithBulk(w, msg) == w + Frame(msg) <==> |w| + |Frame(msg)| <= SUB_WRITE_BUF_LEN
  {
    assert w + Frame(msg) == w + ("$" + Decimal.ToDecimal(|msg|) + CRLF) + msg + CRLF;
  }

  /** What a reply leaves when it does not fit: each of its three parts is there exactly if there was
      room for it behind those before it. */
  lemma BulkPartsFit(w: string, msg: string) returns (a: bool, b: bool, c: bool)
    ensures var header := "$" + Decimal.ToDecimal(|msg|) + "\r\n";
            && WithBulk(w, msg) == w + (if a then header else []) + (if b then msg else []) + (if c then "\r\n" else [])
            && (a <==> |w| + |header| <= 16384)
            && (b <==> |w| + (if a then |header| else 0) + |msg| <= 16384)
            && (c <==> |w| + (if a then |header| else 0) + (if b then |msg| else 0) + 2 <= 16384)
  {
    var header := "$" + Decimal.ToDecimal(|msg|) + "\r\n";
    var one := Fitted(w, header);
    var two := Fitted(one, msg);
    a := |w| + |header| <= 16384;
    b := |one| + |msg| <= 16384;
    c := |two| + 2 <= 16384;
  }

  // ---- the client ----

  class SubscribeClient {
    var readBuf: Sds
    var multiBulkLen: nat
    var bulkLen: int
    var argc: nat
    var argv: array<string>
    const wbuf: array<char>
    var wbufpos: nat

    ghost predicate Valid()
      reads this, readBuf, readBuf.buf
    {
      readBuf.Valid() && readBuf.buf != wbuf && argc <= argv.Length && Writable()
    }

    /** The reply buffer is in order. */
    ghost predicate Writable()
      reads this`wbufpos
    {
      wbuf.Length == SUB_WRITE_BUF_LEN && wbufpos <= wbuf.Length
    }

    /** The state the parsers work on. */
    ghost function State(): Client
      requires Valid()
      reads this, readBuf, readBuf.buf, argv
    {
      Client(readBuf.Contents(), multiBulkLen, bulkLen, argv[..argc])
    }

    /** Within a request, the argument vector has room for exactly the arguments still to come. */
    ghost predicate RoomForArguments()
      reads this
    {
      if multiBulkLen == 0 then argc == 0 else argc + multiBulkLen == argv.Length
    }

    /** The memory of a new client is not cleared: `argc` and `argv` are what it held before. Only
        with an `argc` of 0 can the first request be read into it. */
    constructor (argc: nat, argv: array<string>)
      requires argc <= argv.Length
      ensures Valid() && State() == Client("", 0, -1, argv[..argc]) && Written() == ""
      ensures Ready(State()) <==> argc == 0
      ensures fresh(readBuf) && fresh(readBuf.buf) && fresh(wbuf)
    {
      readBuf := new Sds.NewLen("");
      multiBulkLen, bulkLen, wbufpos := 0, -1, 0;
      this.argc, this.argv := argc, argv;
      wbuf := new char[SUB_WRITE_BUF_LEN](_ => NUL);
    }

    /** Between requests the arguments of the last one are dropped. */
    method Reset()
      requires Valid()
      modifies this`multiBulkLen, this`bulkLen, this`argc
      ensures Valid() && State() == old(State()).(multiBulkLen := 0, bulkLen := -1, argv := []) && RoomForArguments()
    {
      argc := 0;
      multiBulkLen := 0;
      bulkLen := -1;
    }

    // Drop the bytes before pos.
    method Trim(pos: nat)
      requires Valid() && pos <= readBuf.len
      modifies readBuf`len, readBuf`free, readBuf.buf
      ensures Valid() && State() == old(State()).(buf := old(readBuf.Contents())[pos..])
    {
      RangeToEnd(readBuf.Contents(), pos);
      hide RangeOf;
      readBuf.Range(pos, -1);
    }

    method ProcessMultibulkBuffer() returns (ok: bool)
      requires Valid() && Ready(State()) && RoomForArguments()
      modifies this`multiBulkLen, this`bulkLen, this`argc, this`argv
      modifies argv, readBuf`len, readBuf`free, readBuf.buf
      ensures Valid() && (ok, State()) == Call(old(State()))
      ensures multiBulkLen > 0 ==> RoomForArguments()
      ensures argv == old(argv) || fresh(argv)
    {
      ghost var c := State();
      var text := readBuf.Contents();
      var pos := 0;
      hide Loop, StrChr, Decimal.ParseLL;
      if multiBulkLen == 0 {
        var newline := StrChr(text, 0, '\r');
        if newline == None {
          if readBuf.len > MAX_INLINE_READ { Trim(0); assert text[0..] == text; }
          return false;
        }
        if newline.value + 2 > |text| {
          return false;
        }
        var good, ll := Decimal.StringToLL(text[1..newline.value]);
        if !good || ll > SUB_READ_BUF_LEN {
          Trim(pos);
          assert text[0..] == text;
          return false;
        }
        pos := newline.value + 2;
        if ll <= 0 {
          Trim(pos);
          return true;
        }
        multiBulkLen := ll;
        argv := new string[ll];
      }
      ok := ReadArguments(pos, c);
    }

    // The loop over the arguments and what follows it; `c` is the state the call began with.
    method ReadArguments(start: nat, ghost c: Client) returns (ok: bool)
      requires Valid() && start <= readBuf.len && multiBulkLen > 0 && RoomForArguments()
      requires Ready(c) && c.buf == readBuf.Contents() && -1 <= bulkLen <= MAX_BULK_LEN
      requires Open(c) == Arguments(State().(buf := readBuf.Contents()[start..]))
      modifies this`multiBulkLen, this`bulkLen, this`argc
      modifies argv, readBuf`len, readBuf`free, readBuf.buf
      ensures Valid() && (ok, State()) == Call(c)
      ensures multiBulkLen > 0 ==> RoomForArguments()
    {
      hide Loop, StrChr, Decimal.ParseLL, Open;
      var text := readBuf.Contents();
      var pos, stop := TakeArguments(text, start);
      if stop == NoNewline && readBuf.len > MAX_INLINE_READ {
        Trim(0);
        assert text[0..] == text;
        return false;
      }
      Trim(pos);
      ok := multiBulkLen == 0;
    }

    // The loop over the arguments, from the byte at `start` on.
    method TakeArguments(text: string, start: nat) returns (pos: nat, stop: Stop)
      requires start <= |text| && multiBulkLen > 0 && argc + multiBulkLen == argv.Length
      requires -1 <= bulkLen <= MAX_BULK_LEN
      modifies this`multiBulkLen, this`bulkLen, this`argc, argv
      ensures pos <= |text| && argc + multiBulkLen == argv.Length
      ensures Loop(Client(text[start..], old(multiBulkLen), old(bulkLen), old(argv[..argc])))
           == Result(stop, Client(text[pos..], multiBulkLen, bulkLen, argv[..argc]))
    {
      hide Loop, ReadHeader;
      pos := start;
      while multiBulkLen > 0
        invariant pos <= |text| && argc + multiBulkLen == argv.Length && -1 <= bulkLen <= MAX_BULK_LEN
        invariant Loop(Client(text[pos..], multiBulkLen, bulkLen, argv[..argc]))
               == Loop(Client(text[start..], old(multiBulkLen), old(bulkLen), old(argv[..argc])))
        decreases multiBulkLen
      {
        LoopTurns(Client(text[pos..], multiBulkLen, bulkLen, argv[..argc]));
        if bulkLen == -1 {
          var header := BulkHeader(text, pos);
          match header {
            case LineMissing => return pos, NoNewline;
            case Incomplete => return pos, Wait;
            case Invalid => return pos, Bad;
            case Length(len, next) =>
              assert text[pos..][next..] == text[pos + next..];
              pos := pos + next;
              bulkLen := len;
          }
          LoopTurns(Client(text[pos..], multiBulkLen, bulkLen, argv[..argc]));
        }
        if |text| - pos < bulkLen + 2 {
          return pos, Wait;
        }
        PartsOfBulk(text, pos, bulkLen);
        PushArgument(text[pos..pos + bulkLen]);
        pos := pos + bulkLen + 2;
        bulkLen := -1;
        multiBulkLen := multiBulkLen - 1;
      }
      LoopTurns(Client(text[pos..], multiBulkLen, bulkLen, argv[..argc]));
      stop := Done;
    }

    method PushArgument(arg: string)
      requires argc < argv.Length
      modifies this`argc, argv
      ensures argc == old(argc) + 1 && argv[..argc] == old(argv[..argc]) + [arg]
    {
      argv[argc] := arg;
      argc := argc + 1;
    }

    method ProcessInlineBuffer() returns (ok: bool)
      requires Valid()
      modifies this`argc, this`argv, readBuf`len, readBuf`free, readBuf.buf
      ensures Valid() && (ok, State()) == InlineCall(old(State()))
      ensures argv == old(argv) || fresh(argv)
    {
      hide StrChr, SplitArgsOf, RangeOf;
      var text := readBuf.Contents();
      var newline := StrChr(text, 0, '\n');
      if newline == None {
        if readBuf.len > SUB_READ_BUF_LEN { Trim(0); assert text[0..] == text; }
        return false;
      }
      var querylen := newline.value;
      if querylen > 0 && text[querylen - 1] == '\r' {
        querylen := querylen - 1;
      }
      var args := SplitArgs(text[..querylen]);
      if args == None {
        Trim(0);
        assert text[0..] == text;
        return false;
      }
      readBuf.Range(querylen + 2, -1);
      KeepNonEmpty(args.value);
      ok := true;
    }

    // The loop that keeps the arguments that are not empty.
    method KeepNonEmpty(args: seq<string>)
      modifies this`argc, this`argv
      ensures fresh(argv) && argc <= argv.Length && argv[..argc] == NonEmpty(args)
    {
      argv := new string[|args|];
      argc := 0;
      var i := 0;
      while i < |args|
        invariant i <= |args| && argc <= i && argv.Length == |args| && fresh(argv)
        invariant argv[..argc] == NonEmpty(args[..i])
      {
        assert args[..i + 1] == args[..i] + [args[i]];
        NonEmptySnoc(args[..i], args[i]);
        if args[i] != [] {
          PushArgument(CStr(args[i]));
        }
        i := i + 1;
      }
      assert args[..i] == args;
    }

    // ---- replies ----

    function Written(): string
      requires Writable()
      reads this`wbufpos, wbuf
    {
      wbuf[..wbufpos]
    }

    method AddReplyToBuf(s: string) returns (ok: bool)
      requires Writable()
      modifies this`wbufpos, wbuf
      ensures Writable() && Written() == Fitted(old(Written()), s)
      ensures ok <==> old(wbufpos) + |s| <= SUB_WRITE_BUF_LEN
    {
      var available := wbuf.Length - wbufpos;
      if |s| > available {
        return false;
      }
      ghost var before := wbuf[..wbufpos];
      forall i | 0 <= i < |s| {
        wbuf[wbufpos + i] := s[i];
      }
      wbufpos := wbufpos + |s|;
      assert wbuf[..wbufpos] == before + s;
      return true;
    }

    method AddReplyBulk(msg: string)
      requires Writable() && |msg| <= Decimal.ULLONG_MAX
      modifies this`wbufpos, wbuf
      ensures Writable() && Written() == WithBulk(old(Written()), msg)
    {
      var digits := new char[Decimal.SDS_LLSTR_SIZE];
      var l := Decimal.ULLToStr(digits, |msg| as Decimal.u64);
      var _ := AddReplyToBuf("$" + digits[..l] + CRLF);
      var _ := AddReplyToBuf(msg);
      var _ := AddReplyToBuf(CRLF);
    }
  }

  lemma PartsOfBulk(text: string, pos: nat, n: nat)
    requires pos + n + 2 <= |text|
    ensures text[pos..][..n] == text[pos..pos + n] && text[pos..][n + 2..] == text[pos + n + 2..]
  {
  }

  // Read the line of a bulk length at pos.
  method BulkHeader(text: string, pos: nat) returns (h: Header)
    requires pos <= |text|
    ensures h == ReadHeader(text[pos..])
  {
    hide Decimal.ParseLL, StrChr;
    var newline := StrChr(text, pos, '\r');
    StrChrShift(text, pos, pos, '\r');
    if newline == None {
      return LineMissing;
    }
    var nl := newline.value;
    if nl + 2 > |text| {
      return Incomplete;
    }
    if text[pos] != '$' {
      return Invalid;
    }
    assert text[pos..][1..nl - pos] == text[pos + 1..nl];
    var ok, ll := Decimal.StringToLL(text[pos + 1..nl]);
    if !ok || ll < 0 || ll > MAX_BULK_LEN {
      return Invalid;
    }
    return Length(ll, nl - pos + 2);
  }
}
