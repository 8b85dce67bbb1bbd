/**
 The input side of a connection in c_base_20140528/ais.c: bytes are read into a buffer that is
 compacted and doubled as needed, and newline-terminated commands are taken from its front.
*/
module InputModel {
  import opened Bytes

  const NL: byte := 10
  const CR: byte := 13
  const SPACE: byte := 32
  const GET: seq<byte> := [103, 101, 116, 32]         // "get "
  const GETS: seq<byte> := [103, 101, 116, 115, 32]   // "gets "
  const DATA_BUFFER_SIZE := 16384

  /** What a read answers; of the bytes it takes as many as fit, and nothing at all reads as "try again". */
  datatype ReadAnswer = Arrived(bytes: seq<byte>) | Again | EndOfStream | Broken

  datatype ReadResult = NoDataReceived | DataReceived | ReadError

  // ---------- lines of a byte stream ----------

  /** The position of the first newline, or the length when there is none. */
  function LineEnd(s: seq<byte>): (i: nat)
    ensures i <= |s|
  {
    if s == [] || s[0] == NL then 0 else 1 + LineEnd(s[1..])
  }

  lemma {:induction false} LineEndIs(s: seq<byte>, i: nat)
    requires i <= |s| && (i < |s| ==> s[i] == NL) && forall k :: 0 <= k < i ==> s[k] != NL
    ensures LineEnd(s) == i
    decreases i
  {
    if i > 0 {
      assert forall k :: 0 <= k < i - 1 ==> s[1..][k] == s[k + 1];
      LineEndIs(s[1..], i - 1);
    }
  }

  lemma {:induction false} LineEndFacts(s: seq<byte>)
    ensures LineEnd(s) < |s| ==> s[LineEnd(s)] == NL
    ensures forall k :: 0 <= k < LineEnd(s) ==> s[k] != NL
    decreases |s|
  {
    if s != [] && s[0] != NL {
      LineEndFacts(s[1..]);
      forall k | 0 <= k < LineEnd(s) ensures s[k] != NL {
        assert k > 0 ==> s[k] == s[1..][k - 1];
      }
    }
  }

  /** A raw line as it is passed on: a carriage return at its end goes, unless it is the whole line. */
  function Line(raw: seq<byte>): seq<byte> {
    if |raw| > 1 && raw[|raw| - 1] == CR then raw[..|raw| - 1] else raw
  }

  /** A line without the carriage return it ends with, if it does. */
  function DropCr(raw: seq<byte>): seq<byte> {
    if raw != [] && raw[|raw| - 1] == CR then raw[..|raw| - 1] else raw
  }

  /** The one line that keeps its carriage return is the one that has nothing else. */
  lemma LineDropsCr(raw: seq<byte>)
    ensures Line(raw) == DropCr(raw) <==> raw != [CR]
    ensures Line([CR]) == [CR] && DropCr([CR]) == []
  {
    if |raw| == 1 {
      assert raw == [raw[0]];
    }
  }

  /** The complete lines of a stream. */
  function Commands(s: seq<byte>): seq<seq<byte>>
    decreases |s|
  {
    var i := LineEnd(s);
    if i == |s| then [] else [Line(s[..i])] + Commands(s[i + 1..])
  }

  /** What follows the last complete line. */
  function Rest(s: seq<byte>): seq<byte>
    decreases |s|
  {
    var i := LineEnd(s);
    if i == |s| then s else Rest(s[i + 1..])
  }

  /** The lines of a longer stream are those of the shorter one, then those of its rest with what arrived. */
  lemma {:induction false} CommandsAppend(a: seq<byte>, b: seq<byte>)
    ensures Commands(a + b) == Commands(a) + Commands(Rest(a) + b)
    ensures Rest(a + b) == Rest(Rest(a) + b)
    decreases |a|
  {
    var i := LineEnd(a);
    if i == |a| {
      assert [] + Commands(a + b) == Commands(a + b);
    } else {
      LineEndFacts(a);
      LineEndIs(a + b, i);
      assert (a + b)[..i] == a[..i] && (a + b)[i + 1..] == a[i + 1..] + b;
      CommandsAppend(a[i + 1..], b);
    }
  }

  lemma CommandsUnfold(s: seq<byte>)
    ensures LineEnd(s) == |s| ==> Commands(s) == [] && Rest(s) == s
    ensures LineEnd(s) < |s| ==> Commands(s) == [Line(s[..LineEnd(s)])] + Commands(s[LineEnd(s) + 1..]) && Rest(s) == Rest(s[LineEnd(s) + 1..])
  {
  }

  /** Commands issued so far and those still in the window are the lines of all bytes received. */
  ghost predicate Reassembled(issued: seq<seq<byte>>, window: seq<byte>, received: seq<byte>) {
    issued + Commands(window) == Commands(received) && Rest(window) == Rest(received)
  }

  lemma ArrivalKeeps(issued: seq<seq<byte>>, window: seq<byte>, received: seq<byte>, got: seq<byte>)
    requires Reassembled(issued, window, received)
    ensures Reassembled(issued, window + got, received + got)
  {
    hide Commands, Rest;
    CommandsAppend(window, got);
    CommandsAppend(received, got);
    var more := Commands(Rest(window) + got);
    assert issued + (Commands(window) + more) == (issued + Commands(window)) + more;
  }

  lemma IssueKeeps(issued: seq<seq<byte>>, window: seq<byte>, received: seq<byte>)
    requires Reassembled(issued, window, received) && LineEnd(window) < |window|
    ensures var i := LineEnd(window); Reassembled(issued + [Line(window[..i])], window[i + 1..], received)
  {
    CommandsUnfold(window);
    hide *;
    var i := LineEnd(window);
    IssueSplit(issued, window, received, Line(window[..i]), window[i + 1..]);
  }

  lemma IssueSplit(issued: seq<seq<byte>>, window: seq<byte>, received: seq<byte>, line: seq<byte>, rest: seq<byte>)
    requires Reassembled(issued, window, received)
    requires Commands(window) == [line] + Commands(rest) && Rest(window) == Rest(rest)
    ensures Reassembled(issued + [line], rest, received)
  {
    hide Commands, Rest;
    assert (issued + [line]) + Commands(rest) == issued + ([line] + Commands(rest));
  }

  // ---------- the buffer ----------

  /** memmove to the front of the buffer. */
  method MoveDown(a: array<byte>, from: nat, n: nat)
    requires from + n <= a.Length
    modifies a
    ensures a[..n] == old(a[from..from + n])
  {
    for i := 0 to n
      invariant forall k :: 0 <= k < i ==> a[k] == old(a[from + k])
      invariant forall k :: i <= k < a.Length ==> a[k] == old(a[k])
    {
      a[i] := a[from + i];
    }
  }

  /** The bytes a read of at most avail bytes yields, and its return value. */
  function Given(answer: ReadAnswer, avail: nat): (got: seq<byte>)
    ensures |got| <= avail && (!answer.Arrived? ==> got == [])
    ensures answer.Arrived? ==> got <= answer.bytes && (|got| < avail ==> got == answer.bytes)
  {
    if !answer.Arrived? then [] else if |answer.bytes| < avail then answer.bytes else answer.bytes[..avail]
  }

  function Returned(answer: ReadAnswer, avail: nat): (res: int)
    ensures (res == 0 <==> answer.EndOfStream?) && (res > 0 <==> Given(answer, avail) != []) && (res > 0 ==> res == |Given(answer, avail)|)
  {
    if answer.EndOfStream? then 0 else if Given(answer, avail) == [] then -1 else |Given(answer, avail)|
  }

  /** The result of try_read_network, from its last read and all it got. */
  function Verdict(last: ReadAnswer, got: seq<byte>): ReadResult {
    if last.EndOfStream? || last.Broken? then ReadError else if got == [] then NoDataReceived else DataReceived
  }

  class Input {
    const answers: nat -> ReadAnswer   // the answers of the reads, one after the other
    var nreads: nat
    var rbuf: array<byte>
    var rcurr: nat                    // an index into rbuf
    var rbytes: nat
    ghost var received: seq<byte>           // all bytes read
    ghost var issued: seq<seq<byte>>        // all commands passed on

    ghost predicate Shape()
      reads this
    {
      rbuf.Length > 0 && rcurr + rbytes <= rbuf.Length
    }

    /** The bytes read and not yet consumed. */
    ghost function Window(): seq<byte>
      requires Shape()
      reads this, rbuf
    {
      rbuf[rcurr..rcurr + rbytes]
    }

    /** Commands passed on and commands still in the buffer are the lines of all bytes received. */
    ghost predicate Valid()
      reads this, rbuf
    {
      Shape() && Reassembled(issued, Window(), received)
    }

    constructor (answers: nat -> ReadAnswer)
      ensures Valid() && received == [] && issued == [] && rbytes == nreads == 0 && fresh(rbuf) && this.answers == answers
    {
      this.answers := answers;
      rbuf := new byte[DATA_BUFFER_SIZE](_ => 0);
      nreads, rcurr, rbytes := 0, 0, 0;
      received, issued := [], [];
    }

    /** One read of at most avail bytes to the end of the window; `received` logs what the kernel gave. */
    method Read(avail: nat) returns (res: int, again: bool)
      requires Shape() && rcurr + rbytes + avail <= rbuf.Length
      modifies this`nreads, this`received, rbuf
      ensures Shape() && nreads == old(nreads) + 1
      ensures received == old(received) + Given(answers(old(nreads)), avail)
      ensures res == Returned(answers(old(nreads)), avail) && -1 <= res <= avail
      ensures again <==> answers(old(nreads)).Arrived? || answers(old(nreads)).Again?
      ensures rbuf[..rcurr + rbytes] == old(rbuf[..rcurr + rbytes])
      ensures res > 0 ==> rbuf[rcurr + rbytes..rcurr + rbytes + res] == Given(answers(old(nreads)), avail)
    {
      var answer := answers(nreads);
      nreads := nreads + 1;
      match answer {
        case Arrived(bytes) =>
          var n := if |bytes| < avail then |bytes| else avail;
          CopyInto(rbuf, rcurr + rbytes, bytes[..n]);
          res, again := if n == 0 then -1 else n, true;
        case EndOfStream => res, again := 0, false;
        case Again => res, again := -1, true;
        case Broken => res, again := -1, false;
      }
      received := received + Given(answer, avail);
      assert received + [] == received;
    }

    /** The realloc of try_read_network. */
    method Double()
      requires Shape() && rcurr == 0
      modifies this`rbuf
      ensures Shape() && rbuf.Length == 2 * old(rbuf.Length) && Window() == old(Window()) && fresh(rbuf)
    {
      var was := rbuf;
      rbuf := new byte[2 * was.Length](k requires 0 <= k < 2 * was.Length reads was => if k < was.Length then was[k] else 0);
      assert rbuf[..rbytes] == was[..rbytes];
    }

    /** Move what is left to the front of the buffer. */
    method Compact()
      requires Shape()
      modifies this`rcurr, rbuf
      ensures Shape() && rcurr == 0 && Window() == old(Window())
    {
      if rcurr != 0 {
        if rbytes != 0 {
          MoveDown(rbuf, rcurr, rbytes);
        }
        rcurr := 0;
      }
    }

    /** Read once into the free part of a compacted buffer. */
    method Fill() returns (res: int, again: bool, ghost chunk: seq<byte>)
      requires Shape() && rcurr == 0 && rbytes < rbuf.Length
      modifies this`nreads, this`received, this`rbytes, rbuf
      ensures Shape() && nreads == old(nreads) + 1
      ensures chunk == Given(answers(old(nreads)), rbuf.Length - old(rbytes)) && received == old(received) + chunk
      ensures res == Returned(answers(old(nreads)), rbuf.Length - old(rbytes))
      ensures again <==> answers(old(nreads)).Arrived? || answers(old(nreads)).Again?
      ensures Window() == old(Window()) + chunk && rbytes == old(rbytes) + |chunk|
      ensures (res > 0 <==> chunk != []) && (res > 0 ==> res == |chunk| && answers(old(nreads)).Arrived?)
      ensures res <= 0 ==> (res == 0 || !again <==> answers(old(nreads)).EndOfStream? || answers(old(nreads)).Broken?)
    {
      ghost var held, n := Window(), rbytes;
      chunk := Given(answers(nreads), rbuf.Length - rbytes);
      res, again := Read(rbuf.Length - rbytes);
      if res > 0 {
        rbytes := rbytes + res;
        SliceJoin(rbuf[..], 0, n, n + res);
        assert rbuf[..][0..n] == held;
      } else {
        assert held + [] == held;
      }
    }

    /** The read loop of try_read_network: a full buffer is doubled, at most four times. */
    method ReadLoop() returns (gotdata: ReadResult, ghost got: seq<byte>)
      requires Shape() && rcurr == 0
      modifies this`nreads, this`received, this`rbuf, this`rbytes, rbuf
      ensures Shape() && Window() == old(Window()) + got && received == old(received) + got && (rbuf == old(rbuf) || fresh(rbuf))
      ensures old(nreads) < nreads <= old(nreads) + 5
      ensures gotdata == Verdict(answers(nreads - 1), got)
    {
      hide Given, Returned;
      got := [];
      gotdata := NoDataReceived;
      ghost var window := Window();
      assert window + got == window && received + got == received;
      var numAllocs := 0;
      while true
        invariant Shape() && rcurr == 0 && 0 <= numAllocs <= 4
        invariant Window() == window + got && received == old(received) + got && (rbuf == old(rbuf) || fresh(rbuf))
        invariant gotdata == if got == [] then NoDataReceived else DataReceived
        invariant nreads == old(nreads) ==> numAllocs == 0
        invariant nreads > old(nreads) ==> answers(nreads - 1).Arrived? && gotdata.DataReceived?
        invariant old(nreads) <= nreads <= old(nreads) + numAllocs + (if rbytes >= rbuf.Length then 1 else 0)
        decreases 4 - numAllocs, rbytes < rbuf.Length
      {
        if rbytes >= rbuf.Length {
          if numAllocs == 4 {
            return;
          }
          numAllocs := numAllocs + 1;
          Double();
        }
        var avail := rbuf.Length - rbytes;
        var res, again, chunk := Fill();
        assert (window + got) + chunk == window + (got + chunk);
        assert (old(received) + got) + chunk == old(received) + (got + chunk);
        got := got + chunk;
        if res > 0 {
          gotdata := DataReceived;
          if res != avail {
            return;
          }
        } else {
          assert got + [] == got;
          if res == 0 || !again {
            gotdata := ReadError;
          }
          return;
        }
      }
    }

    lemma WindowLength()
      requires Shape()
      ensures |Window()| == rbytes
    {
    }

    /** try_read_network: everything that arrives goes behind the window, and only that. */
    method TryReadNetwork() returns (gotdata: ReadResult, ghost got: seq<byte>)
      requires Valid()
      modifies this`nreads, this`rbuf, this`rcurr, this`rbytes, this`received, rbuf
      ensures Valid() && received == old(received) + got && Window() == old(Window()) + got
      ensures rbuf == old(rbuf) || fresh(rbuf)
      ensures old(nreads) < nreads <= old(nreads) + 5
      ensures gotdata == Verdict(answers(nreads - 1), got)
      ensures gotdata.ReadError? <==> answers(nreads - 1).EndOfStream? || answers(nreads - 1).Broken?
      ensures gotdata.DataReceived? <==> !gotdata.ReadError? && received != old(received)
      ensures received == old(received) ==> Window() == old(Window()) && rbytes == old(rbytes)
    {
      hide Reassembled, Shape, Window;
      ghost var window, before := Window(), received;
      WindowLength();
      Compact();
      gotdata, got := ReadLoop();
      WindowLength();
      ArrivalKeeps(issued, window, before, got);
    }

    /** conn_swallow, first part: bytes already read are thrown away; lines are counted afresh behind them. */
    method Skip(n: nat)
      requires Valid() && n <= rbytes
      modifies this`rcurr, this`rbytes, this`received, this`issued
      ensures Valid() && Window() == old(Window())[n..]
    {
      hide Commands, Rest;
      ghost var window := Window();
      rcurr := rcurr + n;
      rbytes := rbytes - n;
      assert Window() == window[n..];
      issued, received := [], Window();
      assert [] + Commands(Window()) == Commands(Window());
    }

    /** conn_swallow, second part: read up to max bytes over an empty window and forget them. */
    method Discard(max: nat) returns (res: int, again: bool)
      requires Valid() && rbytes == 0 && max > 0
      modifies this`nreads, rbuf
      ensures Valid() && Window() == old(Window()) && nreads == old(nreads) + 1 && -1 <= res <= max
      ensures res == Returned(answers(old(nreads)), if rbuf.Length > max then max else rbuf.Length)
      ensures (res > 0 ==> again) && (res == 0 ==> !again)
      ensures again <==> answers(old(nreads)).Arrived? || answers(old(nreads)).Again?
    {
      hide Reassembled;
      assert Window() == [];
      var answer := answers(nreads);
      nreads := nreads + 1;
      match answer {
        case Arrived(bytes) =>
          var limit := if rbuf.Length > max then max else rbuf.Length;
          var n := if |bytes| < limit then |bytes| else limit;
          CopyInto(rbuf, 0, bytes[..n]);
          res, again := if n == 0 then -1 else n, true;
        case EndOfStream => res, again := 0, false;
        case Again => res, again := -1, true;
        case Broken => res, again := -1, false;
      }
      assert Window() == [];
    }

    /** memchr over the window. */
    method FindNewline() returns (i: nat)
      requires Shape()
      ensures i == LineEnd(Window())
    {
      i := 0;
      ghost var window := Window();
      while i < rbytes && rbuf[rcurr + i] != NL
        invariant 0 <= i <= rbytes && forall k :: 0 <= k < i ==> window[k] != NL
      {
        assert window[i] == rbuf[rcurr + i];
        i := i + 1;
      }
      assert i < rbytes ==> window[i] == rbuf[rcurr + i];
      LineEndIs(window, i);
    }

    /** A first kilobyte without a newline must be a large "get"; anything else closes the connection. */
    method IsHopeless() returns (b: bool)
      requires Shape() && rbytes > 1024
      ensures b <==> Hopeless(Window())
    {
      ghost var window := Window();
      var ptr := 0;
      while ptr < rbytes && rbuf[rcurr + ptr] == SPACE
        invariant 0 <= ptr <= rbytes && forall k :: 0 <= k < ptr ==> window[k] == SPACE
      {
        assert window[ptr] == rbuf[rcurr + ptr];
        ptr := ptr + 1;
      }
      assert ptr < rbytes ==> window[ptr] == rbuf[rcurr + ptr];
      SpacesIs(window, ptr);
      if ptr > 100 {
        return true;
      }
      var rest := rbuf[rcurr + ptr..rcurr + rbytes];
      assert rest == window[ptr..];
      b := rest[..4] != GET && rest[..5] != GETS;
      assert rest[..4] == GET <==> GET <= rest;
      assert rest[..5] == GETS <==> GETS <= rest;
    }

    /**
     try_read_command: take the next complete line off the window, if there is one. The terminating
     NUL is written over the line's newline or carriage return, in what is then consumed.
    */
    method TryReadCommand() returns (r: CommandResult)
      requires Valid()
      modifies this`rcurr, this`rbytes, this`issued, rbuf
      ensures Valid() && received == old(received)
      ensures r.Command? ==> rbytes < old(rbytes)
      ensures !r.Command? ==> LineEnd(Window()) == rbytes && (r.Close? <==> Shape() && rbytes > 1024 && Hopeless(Window()))
      ensures r.Command? <==> LineEnd(old(Window())) < |old(Window())|
      ensures !r.Command? ==> Window() == old(Window()) && issued == old(issued) && Commands(Window()) == []
      ensures r.Command? ==> var i := LineEnd(old(Window()));
        i < |old(Window())| && r.line == Line(old(Window())[..i]) && Window() == old(Window())[i + 1..] && issued == old(issued) + [r.line]
      ensures r.Command? ==> Terminated(old(rcurr), r.line)
      ensures r.Close? <==> LineEnd(old(Window())) == |old(Window())| > 1024 && Hopeless(old(Window()))
    {
      if rbytes == 0 {
        return NeedMore;
      }
      hide Reassembled, Commands, Rest;
      var el := FindNewline();
      if el == rbytes {
        NoLineLeft();
        if rbytes > 1024 {
          var hopeless := IsHopeless();
          if hopeless {
            return Close;
          }
        }
        return NeedMore;
      }
      var line := TakeLine(el);
      r := Command(line);
    }

    /** In memory a command is a C string. */
    ghost predicate Terminated(at: nat, line: seq<byte>)
      reads this, rbuf
    {
      at + |line| < rbuf.Length && rbuf[at..at + |line|] == line && rbuf[at + |line|] == 0
    }

    lemma NoLineLeft()
      requires Shape()
      ensures LineEnd(Window()) == rbytes ==> Commands(Window()) == []
    {
      CommandsUnfold(Window());
    }

    /** The line ending at offset end, less a carriage return, is cut off by a NUL. */
    method CutLine(end: nat) returns (line: seq<byte>)
      requires Shape() && end < rbytes
      modifies rbuf
      ensures line == Line(old(Window())[..end]) && Window()[end + 1..] == old(Window())[end + 1..]
      ensures Terminated(rcurr, line)
    {
      ghost var raw, after := rbuf[rcurr..rcurr + end], rbuf[rcurr + end + 1..rcurr + rbytes];
      assert Window()[..end] == raw && Window()[end + 1..] == after;
      var el := end;
      if el > 1 && rbuf[rcurr + el - 1] == CR {
        el := el - 1;
      }
      line := rbuf[rcurr..rcurr + el];
      assert line == Line(raw);
      hide Line;
      rbuf[rcurr + el] := 0;
      assert rbuf[rcurr + end + 1..rcurr + rbytes] == after;
      assert rbuf[rcurr..rcurr + el] == line;
      assert Window()[end + 1..] == rbuf[rcurr + end + 1..rcurr + rbytes];
    }

    /** The part of try_read_command that consumes the line ending at offset end. */
    method TakeLine(end: nat) returns (line: seq<byte>)
      requires Valid() && end == LineEnd(Window()) < rbytes
      modifies this`rcurr, this`rbytes, this`issued, rbuf
      ensures Valid() && Window() == old(Window())[end + 1..]
      ensures line == Line(old(Window())[..end]) && issued == old(issued) + [line]
      ensures Terminated(old(rcurr), line)
    {
      hide Reassembled, LineEnd, Line;
      ghost var window := Window();
      IssueKeeps(issued, window, received);
      var cont := end + 1;
      line := CutLine(end);
      ghost var now := Window();
      rbytes := rbytes - cont;
      rcurr := rcurr + cont;
      assert Window() == now[cont..];
      issued := issued + [line];
    }
  }

  datatype CommandResult = NeedMore | Close | Command(line: seq<byte>)

  /** How many spaces a byte string starts with. */
  function Spaces(s: seq<byte>): (n: nat)
    ensures n <= |s|
  {
    if s != [] && s[0] == SPACE then 1 + Spaces(s[1..]) else 0
  }

  lemma {:induction false} SpacesIs(s: seq<byte>, n: nat)
    requires n <= |s| && (forall k :: 0 <= k < n ==> s[k] == SPACE) && (n < |s| ==> s[n] != SPACE)
    ensures Spaces(s) == n
    decreases n
  {
    if n > 0 {
      assert forall k :: 0 <= k < n - 1 ==> s[1..][k] == s[k + 1];
      SpacesIs(s[1..], n - 1);
    }
  }

  ghost predicate Hopeless(window: seq<byte>) {
    var p := Spaces(window);
    p > 100 || !(GET <= window[p..] || GETS <= window[p..])
  }

  /** It is not hopeless exactly when it starts with at most 100 spaces and then "get " or "gets ". */
  lemma HopelessExact(window: seq<byte>)
    ensures !Hopeless(window) <==> exists p: nat :: p <= 100 && LargeGet(window, p)
  {
    var n := Spaces(window);
    SpacesFacts(window);
    if !Hopeless(window) {
      assert LargeGet(window, n);
    }
    forall p: nat | p <= 100 && LargeGet(window, p) ensures p == n {
      assert window[p] == window[p..][0];
      SpacesIs(window, p);
    }
  }

  ghost predicate LargeGet(window: seq<byte>, p: nat) {
    && p <= |window| && (forall k :: 0 <= k < p ==> window[k] == SPACE)
    && (GET <= window[p..] || GETS <= window[p..])
  }

  lemma {:induction false} SpacesFacts(s: seq<byte>)
    ensures forall k :: 0 <= k < Spaces(s) ==> s[k] == SPACE
    ensures Spaces(s) < |s| ==> s[Spaces(s)] != SPACE
    decreases |s|
  {
    if s != [] && s[0] == SPACE {
      SpacesFacts(s[1..]);
      forall k | 0 <= k < Spaces(s) ensures s[k] == SPACE {
        assert k > 0 ==> s[k] == s[1..][k - 1];
      }
    }
  }

  /** Lines as a peer sends them, each with a newline, or a carriage return and a newline, behind it. */
  function Sent(lines: seq<seq<byte>>, cr: bool): seq<byte> {
    if lines == [] then [] else lines[0] + (if cr then [CR, NL] else [NL]) + Sent(lines[1..], cr)
  }

  /** What a line must not hold so as not to be mistaken for another. */
  predicate Plain(line: seq<byte>, cr: bool) {
    NL !in line && if cr then line != [] else |line| > 1 ==> line[|line| - 1] != CR
  }

  lemma FirstLine(line: seq<byte>, cr: bool, rest: seq<byte>)
    requires Plain(line, cr)
    ensures var s := line + (if cr then [CR, NL] else [NL]) + rest; var i := LineEnd(s);
      i < |s| && Line(s[..i]) == line && s[i + 1..] == rest
  {
    var raw := if cr then line + [CR] else line;
    var s := line + (if cr then [CR, NL] else [NL]) + rest;
    assert s == raw + [NL] + rest;
    LineEndIs(s, |raw|);
    assert s[..|raw|] == raw && s[|raw| + 1..] == rest;
    assert Line(raw) == line;
  }

  /** Such lines come back as they were. */
  lemma {:induction false} SentLinesComeBack(lines: seq<seq<byte>>, cr: bool)
    requires forall l :: l in lines ==> Plain(l, cr)
    ensures Commands(Sent(lines, cr)) == lines && Rest(Sent(lines, cr)) == []
    decreases |lines|
  {
    if lines != [] {
      FirstLine(lines[0], cr, Sent(lines[1..], cr));
      hide LineEnd, Line, Plain;
      CommandsUnfold(Sent(lines, cr));
      SentLinesComeBack(lines[1..], cr);
      assert lines == [lines[0]] + lines[1..];
    }
  }

  /** Two connections that received the same bytes, in whatever pieces, have passed on the same commands. */
  lemma ChunkingDoesNotMatter(issued: seq<seq<byte>>, window: seq<byte>, issued': seq<seq<byte>>, window': seq<byte>, received: seq<byte>)
    requires Reassembled(issued, window, received) && Reassembled(issued', window', received)
    requires LineEnd(window) == |window| && LineEnd(window') == |window'|
    ensures issued == issued' == Commands(received) && window == window' == Rest(received)
  {
    assert issued + [] == issued && issued' + [] == issued';
  }

}
