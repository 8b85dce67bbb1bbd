/**
 Records over a byte stream: the sender of linux_demo/effective_tcp_ip/vsr_client.c and the reader of
 vsr_server.c. A record is its length, four bytes in network order, and its bytes.
*/
module FramingModel {
  import opened Bytes

  const MAX_INT := 0x7fff_ffff
  const LINE_SIZE := 128

  datatype Errno = NoError | EMSGSIZE | EIO

  /** What the next recv does: take at most n bytes (at least one, if there are any), be interrupted, or fail. */
  datatype Recv = Chunk(n: nat) | Interrupted | Failed

  // ---------- what the stream says ----------

  datatype Delivery = Record(bytes: seq<byte>) | TooLong | Closed

  /** What follows at pos, for a receive buffer of len bytes, and where the next record starts. */
  function Next(stream: seq<byte>, pos: nat, len: nat): (r: (Delivery, nat))
    requires pos <= |stream|
    ensures pos <= r.1 <= |stream| && (r.0.Closed? || r.1 >= pos + 4)
  {
    if |stream| - pos < 4 then (Closed, |stream|) else
    var n := GetBig(stream[pos..pos + 4]);
    if |stream| - pos - 4 < n then (Closed, |stream|)
    else if n > len then (TooLong, pos + 4 + n)
    else (Record(stream[pos + 4..pos + 4 + n]), pos + 4 + n)
  }

  /** The return value of readvrec. */
  function Code(d: Delivery): int {
    match d
    case Record(bytes) => |bytes|
    case TooLong => -1
    case Closed => 0
  }

  /** Everything readvrec delivers until it returns 0. */
  function Deliveries(stream: seq<byte>, pos: nat, len: nat): seq<Delivery>
    requires pos <= |stream|
    decreases |stream| - pos
  {
    var (d, next) := Next(stream, pos, len);
    if Code(d) == 0 then [] else [d] + Deliveries(stream, next, len)
  }

  function Frame(r: seq<byte>): seq<byte> { PutBig(|r|, 4) + r }

  function Stream(rs: seq<seq<byte>>): seq<byte> {
    if rs == [] then [] else Frame(rs[0]) + Stream(rs[1..])
  }

  ghost predicate Sendable(rs: seq<seq<byte>>) {
    forall k :: 0 <= k < |rs| ==> |rs[k]| < TWO_32
  }

  /** The records before the first empty one, which readvrec cannot tell from the end of the stream. */
  function UpToEmpty(rs: seq<seq<byte>>): seq<seq<byte>> {
    if rs == [] || rs[0] == [] then [] else [rs[0]] + UpToEmpty(rs[1..])
  }

  lemma {:induction false} UpToEmptyIsAll(rs: seq<seq<byte>>)
    ensures UpToEmpty(rs) == rs <==> forall k :: 0 <= k < |rs| ==> rs[k] != []
    ensures |UpToEmpty(rs)| <= |rs|
  {
    if rs != [] && rs[0] != [] {
      UpToEmptyIsAll(rs[1..]);
      assert rs == [rs[0]] + rs[1..];
      assert UpToEmpty(rs)[1..] == UpToEmpty(rs[1..]);
      assert (forall k :: 0 <= k < |rs| ==> rs[k] != []) <==> (forall k :: 0 <= k < |rs[1..]| ==> rs[1..][k] != []) by {
        assert forall k :: 1 <= k < |rs| ==> rs[k] == rs[1..][k - 1];
      }
    }
  }

  function Expected(r: seq<byte>, len: nat): Delivery { if |r| <= len then Record(r) else TooLong }

  function AllExpected(rs: seq<seq<byte>>, len: nat): seq<Delivery> {
    seq(|rs|, k requires 0 <= k < |rs| => Expected(rs[k], len))
  }

  lemma FrameAt(before: seq<byte>, r: seq<byte>, rest: seq<byte>, len: nat)
    requires |r| < TWO_32
    ensures Next(before + (Frame(r) + rest), |before|, len) == (Expected(r, len), |before| + 4 + |r|)
  {
    PowFour();
    BigRoundTrip(|r|, 4);
    var s := before + (Frame(r) + rest);
    var header := PutBig(|r|, 4);
    var p := |before|;
    hide PutBig, GetBig;
    assert s == before + header + (r + rest);
    assert s[p..p + 4] == header;
    assert s[p + 4..p + 4 + |r|] == r;
  }

  /** A frame that is cut off is the end of the stream, whatever is missing. */
  lemma CutFrameCloses(before: seq<byte>, r: seq<byte>, part: seq<byte>, len: nat)
    requires |r| < TWO_32 && part <= Frame(r) && part != Frame(r)
    ensures Next(before + part, |before|, len) == (Closed, |before + part|)
  {
    PowFour();
    BigRoundTrip(|r|, 4);
    var s, p := before + part, |before|;
    hide PutBig, GetBig;
    if |part| >= 4 {
      assert s[p..p + 4] == part[..4] == Frame(r)[..4] == PutBig(|r|, 4);
    }
  }

  /** A stream that breaks off inside a record delivers the records before it, and then ends. */
  lemma {:induction false} DeliveredUpToTheCut(before: seq<byte>, rs: seq<seq<byte>>, r: seq<byte>, part: seq<byte>, len: nat)
    requires Sendable(rs) && |r| < TWO_32 && part <= Frame(r) && part != Frame(r)
    ensures Deliveries(before + (Stream(rs) + part), |before|, len) == AllExpected(UpToEmpty(rs), len)
    decreases |rs|
  {
    hide Frame, Next;
    if rs == [] {
      assert Stream(rs) + part == part;
      CutFrameCloses(before, r, part, len);
    } else {
      var s, first, rest := before + (Stream(rs) + part), Frame(rs[0]), Stream(rs[1..]) + part;
      assert s == before + (first + rest) == (before + first) + rest;
      hide Stream;
      FrameAt(before, rs[0], rest, len);
      if rs[0] != [] {
        DeliveredUpToTheCut(before + first, rs[1..], r, part, len);
        FrameLength(rs[0]);
        var us := UpToEmpty(rs);
        assert us[1..] == UpToEmpty(rs[1..]);
        assert AllExpected(us, len) == [Expected(rs[0], len)] + AllExpected(us[1..], len);
      }
    }
  }

  lemma FrameLength(r: seq<byte>)
    ensures |Frame(r)| == 4 + |r|
  {
  }

  lemma NothingAtTheEnd(s: seq<byte>, len: nat)
    ensures s + Stream([]) == s && Deliveries(s, |s|, len) == []
  {
  }

  /**
     The records of a stream are delivered in order, each intact if it fits and reported if it does not,
     with the stream at the next record either way; only an empty record ends the delivery early.
  */
  lemma {:induction false} DeliveredInOrder(before: seq<byte>, rs: seq<seq<byte>>, len: nat)
    requires Sendable(rs)
    ensures Deliveries(before + Stream(rs), |before|, len) == AllExpected(UpToEmpty(rs), len)
    decreases |rs|
  {
    hide Frame, Next;
    if rs == [] {
      NothingAtTheEnd(before, len);
    } else {
      var s, first, rest := before + Stream(rs), Frame(rs[0]), Stream(rs[1..]);
      assert s == before + (first + rest) == (before + first) + rest;
      hide Stream;
      FrameAt(before, rs[0], rest, len);
      if rs[0] != [] {
        DeliveredInOrder(before + first, rs[1..], len);
        FrameLength(rs[0]);
        var us := UpToEmpty(rs);
        assert us[1..] == UpToEmpty(rs[1..]);
        assert AllExpected(us, len) == [Expected(rs[0], len)] + AllExpected(us[1..], len);
      }
    }
  }

  /** All records of a stream are delivered if and only if none is empty. */
  lemma DeliveredExactly(rs: seq<seq<byte>>, len: nat)
    requires Sendable(rs)
    ensures Deliveries(Stream(rs), 0, len) == AllExpected(rs, len) <==> forall k :: 0 <= k < |rs| ==> rs[k] != []
  {
    DeliveredInOrder([], rs, len);
    assert [] + Stream(rs) == Stream(rs);
    UpToEmptyIsAll(rs);
    var us := UpToEmpty(rs);
    if |us| == |rs| {
      EmptyCutsShort(rs);
    } else {
      assert |AllExpected(us, len)| != |AllExpected(rs, len)|;
    }
  }

  lemma {:induction false} EmptyCutsShort(rs: seq<seq<byte>>)
    ensures |UpToEmpty(rs)| == |rs| ==> UpToEmpty(rs) == rs
    decreases |rs|
  {
    UpToEmptyIsAll(rs);
    if rs != [] && rs[0] != [] {
      EmptyCutsShort(rs[1..]);
      UpToEmptyIsAll(rs[1..]);
      assert rs == [rs[0]] + rs[1..];
    }
  }

  // ---------- the reader ----------

  class Socket {
    const stream: seq<byte>        // all the peer sends before it closes
    var pos: nat                   // how much has been received
    var script: seq<Recv>          // how the next calls of recv go; after these they take what is there

    ghost predicate Valid()
      reads this
    {
      pos <= |stream|
    }

    constructor (stream: seq<byte>, script: seq<Recv>)
      ensures Valid() && this.stream == stream && this.script == script && pos == 0
    {
      this.stream, this.script, pos := stream, script, 0;
    }

    /** recv of at most cnt bytes. */
    method Receive(bp: array<byte>, at: nat, cnt: nat) returns (rc: int, errno: Errno, eintr: bool)
      requires Valid() && at + cnt <= bp.Length && cnt > 0
      modifies this`pos, this`script, bp
      ensures Valid() && -1 <= rc <= cnt && (rc == 0 ==> pos == |stream|)
      ensures pos == old(pos) + (if rc > 0 then rc else 0)
      ensures bp[..] == if rc > 0 then Splice(old(bp[..]), at, stream[old(pos)..pos]) else old(bp[..])
      ensures rc < 0 ==> old(script) != [] && !old(script)[0].Chunk? && (eintr <==> old(script)[0].Interrupted?) && errno == EIO
      ensures |script| == (if old(script) == [] then 0 else |old(script)| - 1) && (Failed in script ==> Failed in old(script))
      ensures rc < 0 && !eintr ==> Failed in old(script)
    {
      var answer := if script == [] then Chunk(cnt) else script[0];
      script := if script == [] then [] else script[1..];
      match answer {
        case Interrupted => rc, errno, eintr := -1, EIO, true;
        case Failed => rc, errno, eintr := -1, EIO, false;
        case Chunk(n) =>
          var m := if n == 0 then 1 else n;
          m := if m > cnt then cnt else m;
          m := if m > |stream| - pos then |stream| - pos else m;
          CopyInto(bp, at, stream[pos..pos + m]);
          pos := pos + m;
          rc, errno, eintr := m, NoError, false;
      }
    }

    /** readn: len bytes, or fewer at the end of the stream, or an error. */
    method ReadN(bp: array<byte>, len: nat) returns (rc: int, errno: Errno)
      requires Valid() && len <= bp.Length && len <= MAX_INT
      modifies this`pos, this`script, bp
      ensures Valid() && (Failed in script ==> Failed in old(script))
      ensures rc == -1 || rc == if len < |stream| - old(pos) then len else |stream| - old(pos)
      ensures rc >= 0 ==> errno == NoError && pos == old(pos) + rc && bp[..rc] == stream[old(pos)..pos]
      ensures rc == -1 ==> Failed in old(script) && errno == EIO && |script| < |old(script)|
      ensures pos >= old(pos) && |script| <= |old(script)|
    {
      hide Splice;
      var cnt := len;
      ghost var start := pos;
      while cnt > 0
        invariant Valid() && 0 <= cnt <= len && pos == start + len - cnt
        invariant bp[..len - cnt] == stream[start..pos]
        invariant |script| <= |old(script)| && (Failed in script ==> Failed in old(script))
        decreases cnt, |script|
      {
        ghost var before, from := bp[..], pos;
        var eintr;
        rc, errno, eintr := Receive(bp, len - cnt, cnt);
        if rc < 0 {
          if eintr {
            continue;
          }
          return -1, errno;
        }
        if rc == 0 {
          return len - cnt, NoError;
        }
        SpliceGrows(before, len - cnt, stream[from..pos]);
        SliceJoin(stream, start, from, pos);
        cnt := cnt - rc;
      }
      return len, NoError;
    }

    /** The answer of readvrec, when no recv fails. */
    ghost predicate Answers(before: nat, len: nat, rc: int, errno: Errno, bytes: seq<byte>)
      requires before <= |stream|
      reads this
    {
      var (d, next) := Next(stream, before, len);
      && rc == Code(d) && pos == next && errno == (if d.TooLong? then EMSGSIZE else NoError)
      && (d.Record? ==> bytes == d.bytes)
    }

    /** readvrec: the next record, into the first len bytes of bp. */
    method ReadVrec(bp: array<byte>, len: nat) returns (rc: int, errno: Errno)
      requires Valid() && 0 < len <= bp.Length && len <= MAX_INT
      modifies this`pos, this`script, bp
      ensures Valid() && pos >= old(pos) && |script| <= |old(script)| && (Failed in script ==> Failed in old(script))
      ensures rc <= len && rc <= bp.Length
      ensures errno == EIO ==> rc == -1 && Failed in old(script) && |script| < |old(script)|
      ensures (rc == -1 <==> errno != NoError) && rc >= -1
      ensures errno != EIO ==> Answers(old(pos), len, rc, errno, if rc >= 0 then bp[..rc] else [])
    {
      hide GetBig;
      ghost var start := pos;
      var head := new byte[4];
      rc, errno := ReadN(head, 4);
      if rc != 4 {
        rc := if rc < 0 then -1 else 0;
        return;
      }
      var reclen := GetBig(head[..]);
      assert head[..] == head[..4] == stream[start..start + 4];
      if reclen > len {
        rc, errno := SkipRecord(bp, reclen, len);
        return;
      }
      rc, errno := ReadN(bp, reclen);
      if rc != reclen {
        rc := if rc < 0 then -1 else 0;
      }
    }

    /** The loop that throws a record away that does not fit, one buffer at a time. */
    method SkipRecord(bp: array<byte>, reclen: nat, len: nat) returns (rc: int, errno: Errno)
      requires Valid() && 0 < len < reclen && len <= bp.Length && len <= MAX_INT
      modifies this`pos, this`script, bp
      ensures Valid() && pos >= old(pos) && |script| <= |old(script)| && (Failed in script ==> Failed in old(script))
      ensures (rc == -1 && errno == EIO && Failed in old(script) && |script| < |old(script)|)
        || (rc == -1 && errno == EMSGSIZE && pos == old(pos) + reclen)
        || (rc == 0 && errno == NoError && pos == |stream| < old(pos) + reclen)
    {
      var left, n := reclen, len;
      while left > 0
        invariant Valid() && 0 <= n <= left <= reclen && n <= len && (n == 0 ==> left == 0)
        invariant pos == old(pos) + reclen - left
        invariant |script| <= |old(script)| && (Failed in script ==> Failed in old(script))
      {
        rc, errno := ReadN(bp, n);
        if rc != n {
          rc := if rc < 0 then -1 else 0;
          return;
        }
        left := left - n;
        if left < n {
          n := left;
        }
      }
      return -1, EMSGSIZE;
    }

    /** The server's loop: records go to the output until the peer is gone; the others are reported. */
    method Serve(buf: array<byte>) returns (written: seq<byte>, reports: nat)
      requires Valid() && 0 < buf.Length <= MAX_INT
      modifies this`pos, this`script, buf
      ensures Failed !in old(script) ==>
        written == Written(Deliveries(stream, old(pos), buf.Length)) && reports == Reports(Deliveries(stream, old(pos), buf.Length))
    {
      hide Next, Answers;
      written, reports := [], 0;
      ghost var done: seq<Delivery> := [];
      assert done + Deliveries(stream, pos, buf.Length) == Deliveries(stream, pos, buf.Length);
      while true
        invariant Valid() && (Failed !in old(script) ==> Failed !in script)
        invariant Failed !in old(script) ==> done + Deliveries(stream, pos, buf.Length) == Deliveries(stream, old(pos), buf.Length)
        invariant Failed !in old(script) ==> written == Written(done) && reports == Reports(done)
        decreases |stream| - pos, |script|
      {
        ghost var before := pos;
        var n, errno := ReadVrec(buf, buf.Length);
        if errno != EIO {
          DeliveryStep(before, buf.Length, n, errno, if n >= 0 then buf[..n] else []);
        }
        ghost var d := if n < 0 then TooLong else Record(buf[..if n < 0 then 0 else n]);
        if n < 0 {
          reports := reports + 1;
        } else if n == 0 {
          assert done + [] == done;
          return;
        } else {
          written := written + buf[..n];
        }
        WrittenNext(done, d);
        assert done + ([d] + Deliveries(stream, pos, buf.Length)) == (done + [d]) + Deliveries(stream, pos, buf.Length);
        done := done + [d];
      }
    }

    lemma DeliveryStep(before: nat, len: nat, rc: int, errno: Errno, bytes: seq<byte>)
      requires Valid() && before <= |stream| && Answers(before, len, rc, errno, bytes)
      ensures rc == 0 ==> Deliveries(stream, before, len) == []
      ensures rc != 0 ==> pos > before
      ensures rc < 0 ==> Deliveries(stream, before, len) == [TooLong] + Deliveries(stream, pos, len)
      ensures rc > 0 ==> Deliveries(stream, before, len) == [Record(bytes)] + Deliveries(stream, pos, len)
    {
    }
  }

  function Written(ds: seq<Delivery>): seq<byte> {
    if ds == [] then [] else
    var d := ds[|ds| - 1];
    Written(ds[..|ds| - 1]) + if d.Record? then d.bytes else []
  }

  function Reports(ds: seq<Delivery>): (n: nat)
    ensures n <= |ds| && (n == 0 <==> forall d :: d in ds ==> d.Record?)
  {
    if ds == [] then 0 else Reports(ds[..|ds| - 1]) + if ds[|ds| - 1].Record? then 0 else 1
  }

  lemma WrittenNext(ds: seq<Delivery>, d: Delivery)
    ensures Written(ds + [d]) == Written(ds) + if d.Record? then d.bytes else []
    ensures Reports(ds + [d]) == Reports(ds) + if d.Record? then 0 else 1
  {
    assert (ds + [d])[..|ds|] == ds;
  }

  // ---------- the sender ----------

  lemma {:induction false} StreamNext(rs: seq<seq<byte>>, r: seq<byte>)
    ensures Stream(rs + [r]) == Stream(rs) + Frame(r)
    decreases |rs|
  {
    hide Frame;
    if rs == [] {
      assert [r][1..] == [];
    } else {
      StreamNext(rs[1..], r);
      assert (rs + [r])[1..] == rs[1..] + [r];
    }
  }

  /**
     The sending loop of vsr_client.c over the lines that fgets returns: a line ends at its first NUL,
     and each send takes its whole packet.
  */
  method SendLines(lines: seq<seq<byte>>) returns (wire: seq<byte>)
    requires forall k :: 0 <= k < |lines| ==> |lines[k]| < LINE_SIZE
    ensures wire == Stream(seq(|lines|, k requires 0 <= k < |lines| => CString(lines[k])))
  {
    hide Frame, CString;
    ghost var rs := seq(|lines|, k requires 0 <= k < |lines| => CString(lines[k]));
    var packet := new byte[4 + LINE_SIZE](_ => 0);
    wire := [];
    for i := 0 to |lines|
      invariant wire == Stream(rs[..i])
    {
      var sent := Packet(packet, lines[i]);
      wire := wire + sent;
      StreamNext(rs[..i], rs[i]);
      assert rs[..i + 1] == rs[..i] + [rs[i]];
    }
    assert rs[..|lines|] == rs;
  }

  /** One round: fgets fills the packet's buffer, its length goes in front. */
  method Packet(packet: array<byte>, line: seq<byte>) returns (sent: seq<byte>)
    requires packet.Length == 4 + LINE_SIZE && |line| < LINE_SIZE
    modifies packet
    ensures sent == Frame(CString(line))
  {
    CopyInto(packet, 4, line + [0]);
    var n := 0;
    while packet[4 + n] != 0
      invariant n <= |line| && forall k :: 0 <= k < n ==> line[k] != 0
      decreases |line| - n
    {
      n := n + 1;
    }
    LengthIs(line, n);
    CopyInto(packet, 0, PutBig(n, 4));
    sent := packet[..4 + n];
  }
}
