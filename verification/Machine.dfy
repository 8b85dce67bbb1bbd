/**
 The event loop of c_base_20140528/ais.c: drive_machine steps a TCP connection through its
 states until it has to wait for the kernel or has used up its share of commands.
*/
module MachineModel {
  import opened Bytes
  import opened InputModel
  import opened OutputModel

  /** The peer is gone. */
  predicate Ended(answer: ReadAnswer) { answer.EndOfStream? || answer.Broken? }

  datatype ConnState = NewCmd | Waiting | Read | ParseCmd | Write | Swallow | Closing | MWrite

  /** What a command handler does: out_string with a reply wanted or not, write_and_free, close, or leave the state alone. */
  datatype Action = Reply(text: seq<byte>) | Buffer(bytes: seq<byte>) | NoReply | CloseConn | Unchanged

  function Encode(s: string): seq<byte> { seq(|s|, i requires 0 <= i < |s| => s[i] as int % 256) }

  const TOO_LONG := Encode("SERVER_ERROR output line too long")

  /** The bytes out_string puts in the write buffer: the text and its closing NUL. */
  function ReplyBytes(text: seq<byte>): seq<byte> {
    (if |text| + 1 > DATA_BUFFER_SIZE then TOO_LONG else text) + [0]
  }

  /** A reply fits the write buffer, and a text without a NUL that fits is what a reader of C strings finds there. */
  lemma ReplyFits(text: seq<byte>)
    ensures |ReplyBytes(text)| <= DATA_BUFFER_SIZE
    ensures |text| < DATA_BUFFER_SIZE && 0 !in text ==> CString(ReplyBytes(text)) == text
    ensures |text| >= DATA_BUFFER_SIZE ==> CString(ReplyBytes(text)) == TOO_LONG
  {
    var said := if |text| < DATA_BUFFER_SIZE then text else TOO_LONG;
    assert |TOO_LONG| == 33;
    TooLongHasNoNul();
    if 0 !in said {
      LengthIs(ReplyBytes(text), |said|);
      assert ReplyBytes(text)[..|said|] == said;
    }
  }

  lemma TooLongHasNoNul()
    ensures 0 !in TOO_LONG
  {
  }

  /** The bytes an action sends: a text with its NUL, a buffer as it is. */
  function Sends(action: Action): seq<byte> {
    match action
    case Reply(text) => ReplyBytes(text)
    case Buffer(bytes) => bytes
    case _ => []
  }

  /** The state that follows a command. */
  function AfterCommand(action: Action): ConnState {
    match action
    case Reply(_) => Write
    case Buffer(_) => Write
    case NoReply => NewCmd
    case CloseConn => Closing
    case Unchanged => ParseCmd
  }

  /** All replies to the given command lines, one after the other. */
  ghost function Replies(handler: (nat, seq<byte>) -> Action, lines: seq<seq<byte>>): seq<byte> {
    if lines == [] then [] else
    var n := |lines| - 1;
    Replies(handler, lines[..n]) + Sends(handler(n, lines[n]))
  }

  lemma {:induction false} RepliesPrefix(handler: (nat, seq<byte>) -> Action, a: seq<seq<byte>>, b: seq<seq<byte>>)
    ensures Replies(handler, a) <= Replies(handler, a + b)
    decreases |b|
  {
    if b == [] {
      assert a + b == a;
    } else {
      var n := |b| - 1;
      RepliesPrefix(handler, a, b[..n]);
      assert (a + b)[..|a + b| - 1] == a + b[..n];
    }
  }

  /** Order of the states between two commands; a later state never leads back to an earlier one. */
  function Rank(state: ConnState, assembled: bool): nat {
    match state
    case Read => 7
    case ParseCmd => 6
    case Write => if assembled then 4 else 5
    case MWrite => 4
    case Swallow => 4
    case NewCmd => 3
    case Waiting => 2
    case Closing => 1
  }

  /** Requests left, state rank, bytes left to do in the state. */
  datatype Metric = Metric(requests: nat, rank: nat, bytes: nat)

  predicate Less(a: Metric, b: Metric) {
    || a.requests < b.requests
    || (a.requests == b.requests && a.rank < b.rank)
    || (a.requests == b.requests && a.rank == b.rank && a.bytes < b.bytes)
  }

  /** What the bounds are about: the measure, commands started, commands read, and one command paid for in advance. */
  datatype Account = Account(metric: Metric, starts: nat, commands: nat, credit: nat)

  /** One step: the loop stops or the measure goes down, and commands are paid for by starts. */
  ghost predicate Progress(a: Account, b: Account, stop: bool, definite: bool) {
    && (stop || Less(b.metric, a.metric))
    && a.starts <= b.starts && b.starts + b.metric.requests <= a.starts + a.metric.requests
    && a.commands <= b.commands
    && (definite ==> b.commands + (if stop then 0 else b.credit) + a.starts <= a.commands + a.credit + b.starts)
  }

  /** What closing a connection can be about: counters, what the last sendmsg took, commands read, a hopeless line. */
  datatype Tally = Tally(closing: bool, nupdates: nat, nreads: nat, nsends: nat, took: nat, commands: seq<seq<byte>>, hopeless: bool)

  class Conn {
    const inp: Input
    const out: Output
    const updates: nat -> bool          // the results of update_event
    const answers: nat -> SendResult    // the results of sendmsg
    const handler: (nat, seq<byte>) -> Action   // what the n-th command does, given its line
    const binary: bool
    var nupdates: nat
    var nanswers: nat
    var ncommands: nat
    var state: ConnState
    var writeAndGo: ConnState
    var wdata: seq<byte>                // wcurr and wbytes
    var sbytes: nat
    var nreqs: int
    var stop: bool
    ghost var starts: nat               // commands begun through conn_new_cmd
    ghost var commands: seq<seq<byte>>  // every command line handed to a handler
    ghost var skipped: bool             // whether conn_swallow ever threw bytes away
    ghost var wire: seq<byte>           // every byte the kernel has taken
    ghost var took: nat                 // how many of them the last sendmsg took

    ghost function Owed(): seq<byte>
      reads this`commands
    {
      Replies(handler, commands)
    }

    /** Replies are on the wire or still described by the output; nothing is lost, repeated or reordered. */
    ghost predicate Delivered()
      requires out.Shape() && (state.MWrite? || (state.Write? && out.iovused > 0) ==> out.Sending())
      reads this, out, out.iov, out.msglist
    {
      match state
      case Write => Owed() == wire + (if out.iovused > 0 then out.Left() else wdata)
      case MWrite => Owed() == wire + out.Left()
      case Closing => wire <= Owed()
      case _ => Owed() == wire
    }

    ghost predicate Valid()
      reads this, inp, inp.rbuf, out, out.iov, out.msglist
    {
      Served() && (!skipped ==> inp.issued == commands)
    }

    /** Valid, but for the commands read and those handed on. */
    ghost predicate Served()
      reads this, inp, inp.rbuf, out, out.iov, out.msglist
    {
      && inp.Valid() && out.Shape() && !out.udp
      && writeAndGo.NewCmd?
      && (state.Write? && out.iovused == 0 ==> out.Valid())
      && (state.Write? && out.iovused > 0 ==> out.Sending())
      && (state.MWrite? ==> out.Sending())
      && Delivered()
      && ncommands == |commands|
      && (state.Waiting? || state.Read? ==> LineEnd(inp.Window()) == inp.rbytes)
    }

    ghost function Measure(): Metric
      requires Valid()
      reads this, inp, inp.rbuf, out, out.iov, out.msglist
    {
      Metric(if nreqs > 0 then nreqs else 0, Rank(state, out.iovused > 0),
             match state
             case ParseCmd => inp.rbytes
             case Swallow => sbytes
             case Write => if out.iovused > 0 then |out.Left()| else 0
             case MWrite => |out.Left()|
             case _ => 0)
    }

    /** Whether a command may be read before conn_new_cmd is passed again. */
    predicate Credit()
      reads this
    {
      state.Read? || state.ParseCmd?
    }

    /** Every handler picks a next state. */
    ghost predicate Definite() { forall n, line :: !handler(n, line).Unchanged? }

    ghost function Books(): Account
      requires Valid()
      reads this, inp, inp.rbuf, out, out.iov, out.msglist
    {
      Account(Measure(), starts, ncommands, if Credit() then 1 else 0)
    }

    /** conn_new, for a TCP connection. */
    constructor (arrivals: nat -> ReadAnswer, answers: nat -> SendResult, updates: nat -> bool, handler: (nat, seq<byte>) -> Action, binary: bool)
      ensures Valid() && state.NewCmd? && starts == ncommands == 0 && inp.received == [] && !skipped && wire == []
      ensures Warranted(Counts()) && this.updates == updates && this.answers == answers && this.handler == handler && this.binary == binary
      ensures inp.answers == arrivals && nupdates == inp.nreads == nanswers == 0
    {
      inp := new Input(arrivals);
      out := new Output(false);
      this.updates, this.answers, this.handler, this.binary := updates, answers, handler, binary;
      nupdates, nanswers, ncommands, starts := 0, 0, 0, 0;
      state, writeAndGo, wdata, sbytes, nreqs, stop := NewCmd, NewCmd, [], 0, 0, false;
      commands, skipped, wire, took := [], false, [], 0;
    }

    method UpdateEvent() returns (ok: bool)
      modifies this`nupdates
      ensures ok == updates(old(nupdates)) && nupdates == old(nupdates) + 1
    {
      ok := updates(nupdates);
      nupdates := nupdates + 1;
    }

    method StepWaiting()
      requires Valid() && state.Waiting? && !stop
      modifies this`nupdates, this`state, this`stop
      ensures Valid() && Progress(old(Books()), Books(), stop, Definite())
      ensures nupdates == old(nupdates) + 1 && stop == updates(old(nupdates)) && state == if stop then Read else Closing
    {
      hide Reassembled, Output.Valid, Output.Sending, Output.Shape, Output.Left;
      var ok := UpdateEvent();
      if !ok {
        state := Closing;
      } else {
        state := Read;
        stop := true;
      }
    }

    method StepNewCmd()
      requires Valid() && state.NewCmd? && !stop
      modifies this`nreqs, this`nupdates, this`starts, this`state, this`stop
      ensures Valid() && Progress(old(Books()), Books(), stop, Definite())
      ensures nreqs == old(nreqs) - 1 && stop == (nreqs < 0) && starts == old(starts) + (if stop then 0 else 1)
      ensures !stop ==> state == if inp.rbytes > 0 then ParseCmd else Waiting
      ensures stop ==> state == if inp.rbytes > 0 && !updates(old(nupdates)) then Closing else NewCmd
      ensures nupdates == old(nupdates) + if stop && inp.rbytes > 0 then 1 else 0
    {
      hide Reassembled, Input.Valid, Output.Valid, Output.Sending, Output.Shape, Output.Left;
      nreqs := nreqs - 1;
      if nreqs >= 0 {
        BeginCommand();
      } else {
        EndShare();
      }
    }

    /** conn_new_cmd within the share. */
    method BeginCommand()
      requires Served() && state.NewCmd? && !stop
      modifies this`starts, this`state
      ensures Served() && starts == old(starts) + 1 && state == if inp.rbytes > 0 then ParseCmd else Waiting
    {
      assert |inp.Window()| == inp.rbytes;
      hide Reassembled, Replies, Input.Valid, Output.Valid, Output.Sending, Output.Shape, Output.Left;
      starts := starts + 1;
      state := if inp.rbytes > 0 then ParseCmd else Waiting;
    }

    /** conn_new_cmd with the share used up: the loop stops, and an event is asked for when bytes wait in the buffer. */
    method EndShare()
      requires Served() && state.NewCmd? && !stop
      modifies this`nupdates, this`state, this`stop
      ensures Served() && stop && state == if inp.rbytes > 0 && !updates(old(nupdates)) then Closing else NewCmd
      ensures nupdates == old(nupdates) + if inp.rbytes > 0 then 1 else 0
    {
      hide Reassembled, Replies, Input.Valid, Output.Valid, Output.Sending, Output.Shape, Output.Left;
      if inp.rbytes > 0 {
        var ok := UpdateEvent();
        if !ok {
          state := Closing;
        }
      }
      stop := true;
    }

    method StepRead()
      requires Valid() && state.Read? && !stop
      modifies this`state, inp, inp.rbuf
      ensures Valid() && Progress(old(Books()), Books(), stop, Definite())
      ensures inp.nreads > old(inp.nreads) && old(inp.received) <= inp.received && stop == old(stop)
      ensures state.Closing? <==> inp.answers(inp.nreads - 1).EndOfStream? || inp.answers(inp.nreads - 1).Broken?
      ensures state.ParseCmd? <==> !state.Closing? && inp.received != old(inp.received)
      ensures state.Waiting? <==> !state.Closing? && inp.received == old(inp.received)
      ensures inp.rbuf == old(inp.rbuf) || fresh(inp.rbuf)
    {
      hide Input.Valid, Verdict, Output.Valid, Output.Sending, Output.Shape, Output.Left, Owed, LineEnd;
      var r, got := inp.TryReadNetwork();
      match r {
        case NoDataReceived => state := Waiting;
        case DataReceived => state := ParseCmd;
        case ReadError => state := Closing;
      }
    }

    method StepParse()
      requires Valid() && state.ParseCmd? && !stop
      modifies this`ncommands, this`commands, this`state, this`writeAndGo, this`wdata
      modifies inp`rcurr, inp`rbytes, inp`issued, inp.rbuf, out, out.iov, out.msglist
      ensures Valid() && Progress(old(Books()), Books(), stop, Definite()) && inp.rbuf == old(inp.rbuf)
      ensures Parsed(old(inp.Window()), old(commands), old(ncommands)) && !stop && !state.Swallow?
      ensures Led(ParseCmd, old(Counts()), Counts())
      ensures (out.iov == old(out.iov) || fresh(out.iov)) && (out.msglist == old(out.msglist) || fresh(out.msglist))
    {
      hide Input.Valid, Output.Valid, Output.Sending, Output.Shape, Output.Left, Owed, Commands, Line, LineEnd, Hopeless, AfterCommand, Sends;
      var r := inp.TryReadCommand();
      match r {
        case NeedMore => state := Waiting;
        case Close => state := Closing;
        case Command(line) => ProcessCommand(line);
      }
    }

    /** What conn_parse_cmd does with the bytes it finds: hand the first line to its handler, or wait, or give up. */
    ghost predicate Parsed(window: seq<byte>, before: seq<seq<byte>>, n: nat)
      reads this`commands, this`state
    {
      var i := LineEnd(window);
      if i < |window| then
        var line := Line(window[..i]);
        commands == before + [line] && state == AfterCommand(handler(n, line))
      else
        commands == before && state == if |window| > 1024 && Hopeless(window) then Closing else Waiting
    }

    /** process_command: output starts over, then the handler acts. */
    method ProcessCommand(line: seq<byte>)
      requires Served() && state.ParseCmd?
      requires !skipped ==> inp.issued == commands + [line]
      modifies this`ncommands, this`commands, this`state, this`writeAndGo, this`wdata, out, out.iov, out.msglist
      ensures Valid() && ncommands == old(ncommands) + 1 && commands == old(commands) + [line]
      ensures state == AfterCommand(handler(old(ncommands), line))
      ensures match handler(old(ncommands), line)
        case Reply(_) => state.Write?
        case Buffer(_) => state.Write?
        case NoReply => state.NewCmd?
        case CloseConn => state.Closing?
        case Unchanged => state.ParseCmd?
      ensures (out.iov == old(out.iov) || fresh(out.iov)) && (out.msglist == old(out.msglist) || fresh(out.msglist))
    {
      hide Input.Valid, Output.Valid, Output.Sending, Output.Left, Sends, Definite;
      var action := handler(ncommands, line);
      assert (commands + [line])[..ncommands] == commands && wire + [] == wire;
      ncommands := ncommands + 1;
      commands := commands + [line];
      out.Restart();
      Perform(action);
    }

    /** What the handler does, after output has started over. */
    method Perform(action: Action)
      requires state.ParseCmd? && out.Valid() && out.Shape() && !out.udp && out.iovused == 0
      modifies this`state, this`writeAndGo, this`wdata, out, out.iov, out.msglist
      ensures out.Shape() && state == AfterCommand(action)
      ensures state.Write? ==> out.Valid() && out.iovused == 0 && writeAndGo.NewCmd? && wdata == Sends(action)
      ensures !state.Write? ==> writeAndGo == old(writeAndGo) && Sends(action) == []
      ensures (out.iov == old(out.iov) || fresh(out.iov)) && (out.msglist == old(out.msglist) || fresh(out.msglist))
    {
      hide Output.Valid, ReplyBytes;
      match action {
        case Reply(text) => OutString(text);
        case Buffer(bytes) => WriteAndFree(bytes);
        case NoReply => state := NewCmd;
        case CloseConn => state := Closing;
        case Unchanged =>
      }
    }

    /** write_and_free: a buffer of any length, after what process_command has restarted. */
    method WriteAndFree(bytes: seq<byte>)
      requires out.Valid() && out.Shape() && out.iovused == 0
      modifies this`state, this`writeAndGo, this`wdata
      ensures state.Write? && writeAndGo.NewCmd? && wdata == bytes
    {
      wdata := bytes;
      state := Write;
      writeAndGo := NewCmd;
    }

    /** out_string, when a reply is wanted. */
    method OutString(text: seq<byte>)
      requires out.Shape() && !out.udp
      modifies this`state, this`writeAndGo, this`wdata, out, out.iov, out.msglist
      ensures out.Valid() && out.Shape() && state.Write? && writeAndGo.NewCmd? && out.iovused == 0 && wdata == ReplyBytes(text)
      ensures (out.iov == old(out.iov) || fresh(out.iov)) && (out.msglist == old(out.msglist) || fresh(out.msglist))
    {
      hide Output.Valid;
      out.Restart();
      wdata := (if |text| + 1 > DATA_BUFFER_SIZE then TOO_LONG else text) + [0];
      state := Write;
      writeAndGo := NewCmd;
    }

    method StepSwallow()
      requires Valid() && state.Swallow? && !stop
      modifies this`nupdates, this`sbytes, this`state, this`stop, this`skipped, inp, inp.rbuf
      ensures Valid() && Progress(old(Books()), Books(), stop, Definite()) && inp.rbuf == old(inp.rbuf)
      ensures skipped && (old(sbytes) == 0 ==> state.NewCmd? && !stop)
      ensures stop ==> inp.nreads > 0 && (inp.answers(inp.nreads - 1).Arrived? || inp.answers(inp.nreads - 1).Again?)
      ensures stop ==> state.Swallow? && Registered()
      ensures old(sbytes) > 0 && old(inp.rbytes) > 0 ==>
        var n := if old(inp.rbytes) > old(sbytes) then old(sbytes) else old(inp.rbytes);
        state.Swallow? && !stop && sbytes == old(sbytes) - n && inp.Window() == old(inp.Window())[n..]
      ensures old(sbytes) > 0 && old(inp.rbytes) == 0 ==> Swallowed(old(sbytes), old(inp.nreads), old(nupdates))
      ensures Led(Swallow, old(Counts()), Counts())
    {
      hide Input.Valid, Output.Valid, Output.Sending, Output.Left, Owed, Swallowed, Progress, Hopeless, LineEnd;
      skipped := true;
      if sbytes == 0 {
        SwallowDone();
      } else if inp.rbytes > 0 {
        SwallowHeld();
      } else {
        SwallowMore();
      }
    }

    method SwallowDone()
      requires Valid() && state.Swallow? && !stop && skipped
      modifies this`state
      ensures Valid() && Progress(old(Books()), Books(), stop, Definite()) && state.NewCmd?
    {
      hide Input.Valid, Output.Valid, Output.Sending, Output.Left, Owed;
      state := NewCmd;
    }

    /** conn_swallow while the read buffer holds bytes. */
    method SwallowHeld()
      requires Valid() && state.Swallow? && !stop && sbytes > 0 && inp.rbytes > 0 && skipped
      modifies this`sbytes, inp`rcurr, inp`rbytes, inp`received, inp`issued
      ensures Valid() && Progress(old(Books()), Books(), stop, Definite())
      ensures var n := if old(inp.rbytes) > old(sbytes) then old(sbytes) else old(inp.rbytes);
        sbytes == old(sbytes) - n && inp.Window() == old(inp.Window())[n..]
    {
      hide Reassembled, Output.Valid, Output.Sending, Output.Shape, Output.Left, Owed;
      var tocopy := if inp.rbytes > sbytes then sbytes else inp.rbytes;
      sbytes := sbytes - tocopy;
      inp.Skip(tocopy);
    }

    /** The outcome of a read of conn_swallow with n bytes still to throw away. */
    ghost predicate Swallowed(n: nat, k: nat, u: nat)
      reads this, inp, inp.rbuf
    {
      var res := Returned(inp.answers(k), if inp.rbuf.Length > n then n else inp.rbuf.Length);
      if res > 0 then sbytes == n - res && state.Swallow? && !stop
      else
        var wait := (inp.answers(k).Arrived? || inp.answers(k).Again?) && updates(u);
        sbytes == n && stop == wait && state == if wait then Swallow else Closing
    }

    /** conn_swallow once the read buffer is used up. */
    method SwallowMore()
      requires Valid() && state.Swallow? && !stop && sbytes > 0 && inp.rbytes == 0 && skipped
      modifies this`nupdates, this`sbytes, this`state, this`stop, inp`nreads, inp.rbuf
      ensures Valid() && Progress(old(Books()), Books(), stop, Definite())
      ensures Swallowed(old(sbytes), old(inp.nreads), old(nupdates)) && inp.nreads == old(inp.nreads) + 1
      ensures stop ==> inp.nreads > 0 && (inp.answers(inp.nreads - 1).Arrived? || inp.answers(inp.nreads - 1).Again?)
      ensures stop ==> state.Swallow? && Registered()
      ensures Threw(old(Counts()), Counts())
    {
      hide Reassembled, Output.Valid, Output.Sending, Output.Shape, Output.Left, Owed, Progress, Given;
      var res, again := inp.Discard(sbytes);
      AfterDiscard(res, again);
    }

    /** What conn_swallow makes of the result of its read. */
    method AfterDiscard(res: int, again: bool)
      requires Valid() && state.Swallow? && !stop && skipped && res <= sbytes
      modifies this`nupdates, this`sbytes, this`state, this`stop
      ensures Valid() && Progress(old(Books()), Books(), stop, Definite())
      ensures res > 0 ==> sbytes == old(sbytes) - res && state.Swallow? && !stop
      ensures res <= 0 ==> sbytes == old(sbytes) && stop == (res != 0 && again && updates(old(nupdates)))
      ensures res <= 0 ==> state == if stop then Swallow else Closing
      ensures nupdates == old(nupdates) + (if res < 0 && again then 1 else 0) && (stop ==> Registered())
    {
      hide Input.Valid, Output.Valid, Output.Sending, Output.Shape, Output.Left, Owed;
      if res > 0 {
        sbytes := sbytes - res;
      } else if res == 0 || !again {
        state := Closing;
      } else {
        var ok := UpdateEvent();
        if !ok {
          state := Closing;
        } else {
          stop := true;
        }
      }
    }

    /** conn_write, first part: the response is planned once. */
    method Assemble()
      requires Valid() && state.Write? && out.iovused == 0
      modifies out, out.iov, out.msglist
      ensures Valid() && out.iovused > 0 && out.Left() == wdata
      ensures (out.iov == old(out.iov) || fresh(out.iov)) && (out.msglist == old(out.msglist) || fresh(out.msglist))
    {
      hide Reassembled, PlanOk, SendOk, Unsent;
      assert out.Planned() == [] by {
        assert out.Vecs() == [];
      }
      hide Flat;
      out.AddIov(Data(wdata));
      out.ReadyToSend();
      assert [] + wdata == wdata;
    }

    /** The call of transmit: what the kernel takes moves from the output to the wire. */
    method Send() returns (r: TransmitResult, ghost sent: seq<byte>)
      requires out.Sending()
      modifies this`nanswers, this`nupdates, this`wire, this`took, out`msgcurr, out.iov, out.msglist
      ensures out.Sending() && out.Shape() && old(out.Left()) == sent + out.Left() && wire == old(wire) + sent
      ensures (r.Complete? <==> old(out.Finished())) && (r.Complete? <==> out.msgcurr == out.msgused)
      ensures r.Complete? ==> sent == out.Left() == [] && nanswers == old(nanswers) && nupdates == old(nupdates) && took == old(took)
      ensures !r.Complete? ==>
        && SendOk(old(out.Vecs()), old(out.Msgs()), out.msgcurr)
        && |sent| == Accepts(answers(old(nanswers)), Offered(old(out.Vecs()), old(out.Msgs()), out.msgcurr))
        && (r.Incomplete? <==> sent != [])
        && (r.SoftError? <==> answers(old(nanswers)).WouldBlock? && updates(old(nupdates)))
        && nanswers == old(nanswers) + 1 && nupdates == old(nupdates) + (if answers(old(nanswers)).WouldBlock? then 1 else 0)
        && took == |sent| && (answers(old(nanswers)).WouldBlock? ==> took == 0)
    {
      hide SendOk, Unsent, Offered, Accepts;
      var answer, ok := answers(nanswers), true;
      if !out.Finished() {
        nanswers := nanswers + 1;
        if answer.WouldBlock? {
          ok := UpdateEvent();
        }
      }
      r, sent := out.Transmit(answer, ok);
      wire := wire + sent;
      if !r.Complete? {
        took := |sent|;
      }
    }

    /** The same for a connection: only the bytes left to send have become fewer. */
    method Deliver() returns (r: TransmitResult)
      requires Valid() && ((state.Write? && out.iovused > 0) || state.MWrite?) && !stop
      modifies this`nanswers, this`nupdates, this`wire, this`took, out`msgcurr, out.iov, out.msglist
      ensures Valid() && out.Sending() && old(wire) <= wire && old(wire) + old(out.Left()) == wire + out.Left()
      ensures Books().(metric := Metric(Measure().requests, 4, |old(out.Left())|)) == old(Books())
      ensures r.Complete? <==> out.msgcurr == out.msgused
      ensures r.Complete? ==> out.Left() == [] && nanswers == old(nanswers) && nupdates == old(nupdates) && took == old(took)
      ensures !r.Complete? ==>
        && (r.Incomplete? <==> took > 0)
        && (r.SoftError? <==> answers(old(nanswers)).WouldBlock? && updates(old(nupdates)))
        && nanswers == old(nanswers) + 1 && nupdates == old(nupdates) + (if answers(old(nanswers)).WouldBlock? then 1 else 0)
        && took == |wire| - |old(wire)| && (answers(old(nanswers)).WouldBlock? ==> took == 0)
      ensures r.Incomplete? ==> |out.Left()| < |old(out.Left())|
    {
      hide Input.Valid, Output.Valid, Output.Sending, Output.Shape, Output.Left;
      ghost var sent;
      r, sent := Send();
      assert (old(wire) + sent) + out.Left() == old(wire) + (sent + out.Left());
    }

    /** What follows transmit: `left` is how many bytes were unsent before it. */
    method Settle(r: TransmitResult, ghost left: nat)
      requires Valid() && ((state.Write? && out.iovused > 0) || state.MWrite?) && !stop
      requires r.Complete? ==> out.Left() == []
      requires r.Incomplete? ==> |out.Left()| < left
      modifies this`state, this`stop
      ensures Valid() && Progress(old(Books()).(metric := Metric(old(Measure()).requests, 4, left)), Books(), stop, Definite())
      ensures stop == r.SoftError? && (r.Complete? ==> state.NewCmd?) && (r.HardError? ==> state.Closing?)
      ensures r.Incomplete? || r.SoftError? ==> state == old(state)
    {
      hide Input.Valid, Output.Valid, Output.Sending, Output.Shape, Output.Left;
      assert wire + [] == wire;
      match r {
        case Complete => state := if state.MWrite? && !binary then NewCmd else writeAndGo;
        case Incomplete =>
        case HardError => state := Closing;
        case SoftError => stop := true;
      }
    }

    /**
     Where a transmit leads: on to the next command, to more of the same, to a wait for the kernel, or to
     the end. n, u and t are `nanswers`, `nupdates` and `took` before it.
    */
    ghost predicate Sent(r: TransmitResult, was: ConnState, n: nat, u: nat, t: nat)
      reads this
    {
      if r.Complete? then state.NewCmd? && !stop && nanswers == n && nupdates == u && took == t
      else
        var blocked := answers(n).WouldBlock?;
        && nanswers == n + 1 && nupdates == u + (if blocked then 1 else 0) && (blocked ==> took == 0)
        && if took > 0 then r.Incomplete? && state == was && !stop
           else if blocked && updates(u) then r.SoftError? && state == was && stop
           else r.HardError? && state.Closing? && !stop
    }

    lemma SendingNow() returns (left: seq<byte>)
      requires Valid() && ((state.Write? && out.iovused > 0) || state.MWrite?)
      ensures out.Sending() && left == out.Left()
    {
      left := out.Left();
    }

    /** conn_write and conn_mwrite once the response is planned: transmit some of it. */
    method StepSend() returns (ghost r: TransmitResult)
      requires Valid() && ((state.Write? && out.iovused > 0) || state.MWrite?) && !stop
      modifies this`nanswers, this`nupdates, this`wire, this`took, this`state, this`stop, out`msgcurr, out.iov, out.msglist
      ensures Valid() && Progress(old(Books()), Books(), stop, Definite())
      ensures out.Sending() && old(wire) <= wire && old(wire) + old(out.Left()) == wire + out.Left()
      ensures (r.Complete? <==> out.msgcurr == out.msgused) && (!r.Complete? ==> took == |wire| - |old(wire)|)
      ensures Sent(r, old(state), old(nanswers), old(nupdates), old(took))
      ensures out.iov == old(out.iov) && out.msglist == old(out.msglist)
    {
      hide Progress, Valid, Served, Books, Measure, Output.Sending, Output.Shape, Output.Left;
      ghost var left := SendingNow();
      var result := Deliver();
      r := result;
      Settle(result, |left|);
    }

    /** conn_closing. */
    method StepClosing()
      requires Valid() && state.Closing? && !stop
      modifies this`stop
      ensures Valid() && Progress(old(Books()), Books(), stop, Definite()) && stop
    {
      hide Input.Valid, Output.Valid, Output.Sending, Output.Left;
      stop := true;
    }

    /** The last sendmsg would have blocked, and the event loop will say when it would not. */
    ghost predicate Blocked()
      reads this
    {
      nanswers > 0 && answers(nanswers - 1).WouldBlock? && Registered()
    }

    /** The last event update was accepted: libevent will call again. */
    ghost predicate Registered()
      reads this
    {
      nupdates > 0 && updates(nupdates - 1)
    }

    ghost function Counts(): Tally
      reads this, inp, inp.rbuf
    {
      var hopeless := inp.Shape() && LineEnd(inp.Window()) == inp.rbytes > 1024 && Hopeless(inp.Window());
      Tally(state.Closing?, nupdates, inp.nreads, nanswers, took, commands, hopeless)
    }

    /** A cause that ends the connection: a refused event update, the end of the stream, a failed read or send, a handler that closes. */
    ghost predicate Final(a: Tally)
    {
      || (a.nupdates > 0 && !updates(a.nupdates - 1))
      || (a.nreads > 0 && Ended(inp.answers(a.nreads - 1)))
      || (a.nsends > 0 && a.took == 0 && !answers(a.nsends - 1).WouldBlock?)
      || exists k :: 0 <= k < |a.commands| && handler(k, a.commands[k]).CloseConn?
    }

    /** The connection is being closed if there is such a cause, and only then or because of a hopeless line. */
    ghost predicate Warranted(a: Tally)
    {
      (Final(a) ==> a.closing) && (a.closing ==> Final(a) || a.hopeless)
    }

    /** How a round in a given state changes what the causes are about. */
    ghost predicate Led(was: ConnState, a: Tally, b: Tally)
    {
      match was
      case Waiting => b == a.(nupdates := a.nupdates + 1, closing := !updates(a.nupdates), hopeless := b.hopeless)
      case Read => b.nreads > a.nreads && b == a.(nreads := b.nreads, closing := Ended(inp.answers(b.nreads - 1)), hopeless := b.hopeless)
      case ParseCmd =>
        if b.commands == a.commands then b == a.(closing := b.hopeless, hopeless := b.hopeless)
        else
          && |b.commands| == |a.commands| + 1 && a.commands == b.commands[..|a.commands|]
          && b == a.(commands := b.commands, closing := handler(|a.commands|, b.commands[|a.commands|]).CloseConn?, hopeless := b.hopeless)
      case NewCmd =>
        b == a.(nupdates := b.nupdates, closing := b.closing, hopeless := b.hopeless)
        && if b.nupdates == a.nupdates then !b.closing else b.nupdates == a.nupdates + 1 && b.closing == !updates(a.nupdates)
      case Swallow => Threw(a, b)
      case Closing => b == a
      case _ =>
        if b.nsends == a.nsends then b == a.(hopeless := b.hopeless)
        else
          && b.nsends == a.nsends + 1
          && b == a.(nsends := b.nsends, took := b.took, nupdates := b.nupdates, closing := b.closing, hopeless := b.hopeless)
          && if answers(a.nsends).WouldBlock? then b.took == 0 && b.nupdates == a.nupdates + 1 && b.closing == !updates(a.nupdates)
             else b.nupdates == a.nupdates && b.closing == (b.took == 0)
    }

    ghost predicate Threw(a: Tally, b: Tally)
    {
      && b == a.(nreads := b.nreads, nupdates := b.nupdates, closing := b.closing, hopeless := b.hopeless)
      && if b.nreads == a.nreads then b.nupdates == a.nupdates && !b.closing
         else
           && b.nreads == a.nreads + 1
           && if b.nupdates == a.nupdates then b.closing == Ended(inp.answers(a.nreads))
              else b.nupdates == a.nupdates + 1 && !Ended(inp.answers(a.nreads)) && b.closing == !updates(a.nupdates)
    }

    /** Every round keeps closing warranted. */
    lemma LedKeepsWarranted(was: ConnState, a: Tally, b: Tally)
      requires Warranted(a) && Led(was, a, b) && (a.closing <==> was.Closing?)
      ensures Warranted(b)
    {
    }

    /** Why the loop may stop: closed, waiting for bytes, its share used up, or the kernel said to wait. */
    ghost predicate Reason()
      reads this, inp
    {
      match state
      case Closing => true
      case Read => Registered()
      case NewCmd => nreqs < 0 && (inp.rbytes > 0 ==> Registered())
      case Write => Blocked()
      case MWrite => Blocked()
      case Swallow => Registered() && inp.nreads > 0 && !Ended(inp.answers(inp.nreads - 1))
      case _ => false
    }

    /** conn_write: assemble the response if that is still to be done, and send. */
    method StepWrite() returns (ghost r: TransmitResult)
      requires Valid() && state.Write? && !stop
      modifies this`nanswers, this`nupdates, this`wire, this`took, this`state, this`stop, out, out.iov, out.msglist
      ensures Valid() && Progress(old(Books()), Books(), stop, Definite())
      ensures Sent(r, old(state), old(nanswers), old(nupdates), old(took))
      ensures (out.iov == old(out.iov) || fresh(out.iov)) && (out.msglist == old(out.msglist) || fresh(out.msglist))
    {
      hide Input.Valid, Output.Valid, Output.Sending, Output.Left;
      if out.iovused == 0 {
        Assemble();
      }
      r := StepSend();
    }

    /** One round of the loop. */
    method Step()
      requires Valid() && !stop
      modifies this, inp, inp.rbuf, out, out.iov, out.msglist
      ensures Valid() && Progress(old(Books()), Books(), stop, Definite())
      ensures stop ==> Reason()
      ensures old(state).NewCmd? ==> nreqs == old(nreqs) - 1
      ensures old(state).ParseCmd? ==> Parsed(old(inp.Window()), old(commands), old(ncommands))
      ensures old(state).Swallow? ==> skipped
      ensures Led(old(state), old(Counts()), Counts())
      ensures skipped ==> old(skipped) || old(state).Swallow?
      ensures state.Swallow? ==> old(state).Swallow?
      ensures old(state).Closing? ==> stop && state.Closing?
      ensures inp.rbuf == old(inp.rbuf) || fresh(inp.rbuf)
      ensures (out.iov == old(out.iov) || fresh(out.iov)) && (out.msglist == old(out.msglist) || fresh(out.msglist))
    {
      hide Progress, Measure, Delivered, Reassembled, Swallowed, Threw, Hopeless, LineEnd, Input.Valid, Output.Valid, Output.Sending, Output.Left;
      match state {
        case Waiting => StepWaiting();
        case Read => StepRead();
        case ParseCmd => StepParse();
        case NewCmd => StepNewCmd();
        case Swallow => StepSwallow();
        case _ => StepOut();
      }
    }

    /** The rounds that send, and the last one. */
    method StepOut()
      requires Valid() && !stop && (state.Write? || state.MWrite? || state.Closing?)
      modifies this`nanswers, this`nupdates, this`wire, this`took, this`state, this`stop, out, out.iov, out.msglist
      ensures Valid() && Progress(old(Books()), Books(), stop, Definite())
      ensures stop ==> state == old(state) && (!state.Closing? ==> Blocked())
      ensures Led(old(state), old(Counts()), Counts())
      ensures !state.Swallow? && !state.Read? && (old(state).Closing? ==> stop)
      ensures (out.iov == old(out.iov) || fresh(out.iov)) && (out.msglist == old(out.msglist) || fresh(out.msglist))
    {
      hide Progress, Measure, Delivered, Reassembled, Hopeless, LineEnd, Input.Valid, Output.Valid, Output.Sending, Output.Left;
      match state {
        case Write =>
          var r := StepWrite();
        case MWrite =>
          var r := StepSend();
        case Closing => StepClosing();
      }
    }

    /** A round as the loop sees it. */
    method Turn()
      requires Valid() && !stop
      modifies this, inp, inp.rbuf, out, out.iov, out.msglist
      ensures Valid() && Progress(old(Books()), Books(), stop, Definite()) && (stop ==> Reason())
      ensures old(Warranted(Counts())) ==> Warranted(Counts())
      ensures (skipped ==> old(skipped) || old(state).Swallow?) && (state.Swallow? ==> old(state).Swallow?)
      ensures inp.rbuf == old(inp.rbuf) || fresh(inp.rbuf)
      ensures (out.iov == old(out.iov) || fresh(out.iov)) && (out.msglist == old(out.msglist) || fresh(out.msglist))
    {
      hide *;
      ghost var was, before := state, Counts();
      ClosingCounted();
      Step();
      if Warranted(before) {
        LedKeepsWarranted(was, before, Counts());
      }
    }

    lemma ClosingCounted()
      ensures Counts().closing <==> state.Closing?
    {
    }

    /** A new event: the connection is as it was, with a fresh share of commands. */
    method Begin(reqsPerEvent: int)
      requires Valid()
      modifies this`nreqs, this`stop
      ensures Valid() && !stop && Books() == old(Books()).(metric := Measure()) && Counts() == old(Counts())
      ensures Measure().requests == if reqsPerEvent > 0 then reqsPerEvent else 0
    {
      hide Input.Valid, Output.Valid, Output.Sending, Output.Left;
      nreqs, stop := reqsPerEvent, false;
    }

    /**
     drive_machine, for a TCP connection that is not the listening one. It always stops; it starts at
     most reqsPerEvent commands, and reads no more commands than it started, but for one that the
     previous event paid for, as long as every handler picks a next state.
    */
    method DriveMachine(reqsPerEvent: int)
      requires Valid()
      modifies this, inp, inp.rbuf, out, out.iov, out.msglist
      ensures Valid() && stop && Reason()
      ensures starts <= old(starts) + (if reqsPerEvent > 0 then reqsPerEvent else 0)
      ensures Definite() ==> ncommands - old(ncommands) <= starts - old(starts) + (if old(Credit()) then 1 else 0)
      ensures old(Warranted(Counts())) ==> Warranted(Counts())
      ensures skipped ==> old(skipped) || old(state).Swallow?
      ensures state.Read? && !skipped ==> commands == Commands(inp.received) && wire == Replies(handler, Commands(inp.received))
    {
      Begin(reqsPerEvent);
      ghost var start := Books();
      ghost var now := start;
      hide Valid, Measure, Reason, Definite, Warranted, Commands, Replies;
      while !stop
        invariant old(Warranted(Counts())) ==> Warranted(Counts())
        invariant (skipped ==> old(skipped) || old(state).Swallow?) && (state.Swallow? ==> old(state).Swallow?)
        invariant Valid() && now == Books() && (stop ==> Reason())
        invariant inp.rbuf == old(inp.rbuf) || fresh(inp.rbuf)
        invariant (out.iov == old(out.iov) || fresh(out.iov)) && (out.msglist == old(out.msglist) || fresh(out.msglist))
        invariant now.starts + now.metric.requests <= start.starts + start.metric.requests
        invariant Definite() ==> now.commands + (if stop then 0 else now.credit) + start.starts <= start.commands + start.credit + now.starts
        decreases !stop, now.metric.requests, now.metric.rank, now.metric.bytes
      {
        Turn();
        now := Books();
      }
      AllAnswered();
    }

    /** While it waits for bytes, every line received has been handed on and every reply is on the wire. */
    lemma AllAnswered()
      requires Valid()
      ensures state.Read? && !skipped ==> commands == Commands(inp.received) && wire == Replies(handler, Commands(inp.received))
    {
      if state.Read? && !skipped {
        CommandsUnfold(inp.Window());
        assert commands + [] == commands;
      }
    }

    /**
     From the stream to the wire: however the bytes arrived and left, what the kernel has taken is a
     beginning of the replies to the lines of all bytes received, and all of it once nothing is pending.
    */
    lemma RepliesInOrder()
      requires Valid() && !skipped
      ensures wire <= Replies(handler, Commands(inp.received))
      ensures !state.Write? && !state.MWrite? && !state.Closing? && LineEnd(inp.Window()) == inp.rbytes
        ==> wire == Replies(handler, Commands(inp.received))
    {
      CommandsUnfold(inp.Window());
      var later := Commands(inp.Window());
      assert commands + later == Commands(inp.received);
      RepliesPrefix(handler, commands, later);
      assert later == [] ==> commands + later == commands;
    }
  }
}
