/**
 The byte buffer of c_base_20140528/buffer/Buffer.h and Buffer.cpp: readable bytes slide inside an
 array that has room before and behind them.
*/
module ByteBufferModel {
  import opened Bytes

  const CHEAP_PREPEND := 8
  const INITIAL_SIZE := 1024
  const EXTRA_SIZE := 65536
  const CR: byte := 13
  const LF: byte := 10

  /** What readv answers: these bytes are there, or an error. */
  datatype Arrival = Arrived(bytes: seq<byte>) | Refused(errno: int)

  // ---------- integers in network order ----------

  /** A signed integer of n bytes. */
  function PutInt(x: int, n: nat): (bs: seq<byte>)
    requires IsSigned(x, n)
    ensures |bs| == n
  {
    SignRoundTrip(x, n);
    PutBig(ToUnsigned(x, Pow256(n)), n)
  }

  function GetInt(bs: seq<byte>): int { ToSigned(GetBig(bs), Pow256(|bs|)) }

  lemma IntRoundTrip(x: int, n: nat)
    requires IsSigned(x, n)
    ensures GetInt(PutInt(x, n)) == x
  {
    SignRoundTrip(x, n);
    BigRoundTrip(ToUnsigned(x, Pow256(n)), n);
  }

  /** The bytes are those of the value modulo 256 to the width, in network order. */
  lemma PutIntIs(x: int, n: nat)
    requires IsSigned(x, n)
    ensures GetBig(PutInt(x, n)) == if x < 0 then x + Pow256(n) else x
  {
    SignRoundTrip(x, n);
    BigRoundTrip(ToUnsigned(x, Pow256(n)), n);
  }

  datatype Int = Int(width: nat, value: int)

  ghost predicate AllFit(xs: seq<Int>) {
    forall k :: 0 <= k < |xs| ==> IsSigned(xs[k].value, xs[k].width)
  }

  /** The bytes of integers of any widths, appended one after the other. */
  function PutAll(xs: seq<Int>): seq<byte>
    requires AllFit(xs)
  {
    if xs == [] then [] else PutInt(xs[0].value, xs[0].width) + PutAll(xs[1..])
  }

  /** Reading integers of the given widths from the front. */
  function GetAll(bs: seq<byte>, widths: seq<nat>): seq<Int>
    decreases |widths|
  {
    if widths == [] || |bs| < widths[0] then [] else
    [Int(widths[0], GetInt(bs[..widths[0]]))] + GetAll(bs[widths[0]..], widths[1..])
  }

  function Widths(xs: seq<Int>): seq<nat> { seq(|xs|, k requires 0 <= k < |xs| => xs[k].width) }

  /** Whatever follows them, integers come back in the order and with the values they went in. */
  lemma {:induction false} IntsRoundTrip(xs: seq<Int>, rest: seq<byte>)
    requires AllFit(xs)
    ensures GetAll(PutAll(xs) + rest, Widths(xs)) == xs
    decreases |xs|
  {
    if xs != [] {
      var first := PutInt(xs[0].value, xs[0].width);
      var bs := PutAll(xs) + rest;
      assert bs == first + (PutAll(xs[1..]) + rest);
      hide PutInt, GetInt;
      assert bs[..xs[0].width] == first && bs[xs[0].width..] == PutAll(xs[1..]) + rest;
      IntRoundTrip(xs[0].value, xs[0].width);
      IntsRoundTrip(xs[1..], rest);
      assert Widths(xs)[1..] == Widths(xs[1..]);
    }
  }

  // ---------- the plain byte string ----------

  predicate CrlfAt(s: seq<byte>, k: nat) { k + 2 <= |s| && s[k] == CR && s[k + 1] == LF }

  lemma CrlfExact(s: seq<byte>, k: nat)
    ensures CrlfAt(s, k) <==> k + 2 <= |s| && s[k..k + 2] == [13, 10]
  {
    if k + 2 <= |s| {
      assert s[k..k + 2] == [s[k], s[k + 1]];
    }
  }

  datatype Op =
    | Append(bytes: seq<byte>)
    | Prepend(bytes: seq<byte>)
    | Retrieve(n: nat)
    | Unwrite(n: nat)
    | ReadFd(arrival: Arrival)
    | Shrink(reserve: nat)

  /** What an operation does to a plain byte string; `room` is how much a read may bring. */
  function Plain(s: seq<byte>, op: Op, room: nat): seq<byte> {
    match op
    case Append(bytes) => s + bytes
    case Prepend(bytes) => bytes + s
    case Retrieve(n) => if n <= |s| then s[n..] else s
    case Unwrite(n) => if n <= |s| then s[..|s| - n] else s
    case ReadFd(Arrived(bytes)) => s + (if |bytes| <= room then bytes else bytes[..room])
    case ReadFd(Refused(_)) => s
    case Shrink(_) => s
  }

  class Buffer {
    var data: array<byte>
    var readerIndex: nat
    var writerIndex: nat

    ghost predicate Valid()
      reads this
    {
      readerIndex <= writerIndex <= data.Length && CHEAP_PREPEND <= data.Length
    }

    /** The readable bytes. */
    ghost function Readable(): (s: seq<byte>)
      requires Valid()
      reads this, data
      ensures |s| == writerIndex - readerIndex
    {
      data[readerIndex..writerIndex]
    }

    function WritableBytes(): (n: nat)
      requires Valid()
      reads this
      ensures n == data.Length - writerIndex
    {
      data.Length - writerIndex
    }

    constructor ()
      ensures Valid() && Readable() == [] && readerIndex == CHEAP_PREPEND && WritableBytes() == INITIAL_SIZE && fresh(data)
    {
      data := new byte[CHEAP_PREPEND + INITIAL_SIZE](_ => 0);
      readerIndex, writerIndex := CHEAP_PREPEND, CHEAP_PREPEND;
    }

    /** std::copy of the readable bytes to the left, in place. */
    method SlideLeft(to: nat)
      requires Valid() && to < readerIndex
      modifies data
      ensures data[to..to + writerIndex - readerIndex] == old(Readable())
    {
      ghost var s := Readable();
      var n := writerIndex - readerIndex;
      for i := 0 to n
        invariant forall k :: 0 <= k < i ==> data[to + k] == s[k]
        invariant forall k :: readerIndex + i <= k < writerIndex ==> data[k] == s[k - readerIndex]
      {
        data[to + i] := data[readerIndex + i];
      }
    }

    /**
     makeSpace: grow, or slide the readable bytes to the front. The source's assertion that there is
     something to gain by sliding always holds.
    */
    method MakeSpace(len: nat)
      requires Valid() && WritableBytes() < len
      modifies this, data
      ensures Valid() && Readable() == old(Readable()) && WritableBytes() >= len
      ensures data == old(data) || fresh(data)
      ensures old(WritableBytes() + readerIndex < len + CHEAP_PREPEND) ==> readerIndex == old(readerIndex) && data.Length == old(writerIndex) + len
      ensures old(WritableBytes() + readerIndex >= len + CHEAP_PREPEND) ==>
        old(readerIndex) > CHEAP_PREPEND == readerIndex && data == old(data)
    {
      if data.Length - writerIndex + readerIndex < len + CHEAP_PREPEND {
        var was := data;
        data := new byte[writerIndex + len](k requires 0 <= k < writerIndex + len reads this, was => if k < was.Length then was[k] else 0);
      } else {
        assert CHEAP_PREPEND < readerIndex;
        var readable := writerIndex - readerIndex;
        SlideLeft(CHEAP_PREPEND);
        readerIndex := CHEAP_PREPEND;
        writerIndex := readerIndex + readable;
      }
    }

    method EnsureWritableBytes(len: nat)
      requires Valid()
      modifies this, data
      ensures Valid() && Readable() == old(Readable()) && WritableBytes() >= len
      ensures old(readerIndex) <= CHEAP_PREPEND ==> readerIndex == old(readerIndex)
      ensures data == old(data) || fresh(data)
    {
      if WritableBytes() < len {
        MakeSpace(len);
      }
    }

    method AppendBytes(bytes: seq<byte>)
      requires Valid()
      modifies this, data
      ensures Valid() && Readable() == old(Readable()) + bytes
      ensures data == old(data) || fresh(data)
    {
      EnsureWritableBytes(|bytes|);
      Write(bytes);
    }

    /** The copy and hasWritten of append. */
    method Write(bytes: seq<byte>)
      requires Valid() && |bytes| <= WritableBytes()
      modifies this`writerIndex, data
      ensures Valid() && Readable() == old(Readable()) + bytes && writerIndex == old(writerIndex) + |bytes|
    {
      ghost var s, m := Readable(), data[..];
      CopyInto(data, writerIndex, bytes);
      SpliceGrows(m, writerIndex, bytes);
      writerIndex := writerIndex + |bytes|;
      assert data[..writerIndex][readerIndex..] == s + bytes;
    }

    /** prepend; the caller makes sure that there is room. */
    method PrependBytes(bytes: seq<byte>)
      requires Valid() && |bytes| <= readerIndex
      modifies this`readerIndex, data
      ensures Valid() && Readable() == bytes + old(Readable()) && readerIndex == old(readerIndex) - |bytes|
    {
      ghost var s, m, end := Readable(), data[..], readerIndex;
      readerIndex := readerIndex - |bytes|;
      CopyInto(data, readerIndex, bytes);
      SpliceGrows(m, readerIndex, bytes);
      assert data[..end][readerIndex..] == bytes;
      assert data[end..] == m[end..];
      SliceJoin(data[..], readerIndex, end, writerIndex);
      assert data[end..writerIndex] == m[end..writerIndex];
    }

    method RetrieveAll()
      requires Valid()
      modifies this`readerIndex, this`writerIndex
      ensures Valid() && Readable() == [] && readerIndex == CHEAP_PREPEND
    {
      readerIndex, writerIndex := CHEAP_PREPEND, CHEAP_PREPEND;
    }

    method RetrieveBytes(len: nat)
      requires Valid() && len <= writerIndex - readerIndex
      modifies this`readerIndex, this`writerIndex
      ensures Valid() && Readable() == old(Readable())[len..]
    {
      if len < writerIndex - readerIndex {
        readerIndex := readerIndex + len;
      } else {
        RetrieveAll();
      }
    }

    method RetrieveAsString(len: nat) returns (s: seq<byte>)
      requires Valid() && len <= writerIndex - readerIndex
      modifies this`readerIndex, this`writerIndex
      ensures Valid() && old(Readable()) == s + Readable() && |s| == len
    {
      s := data[readerIndex..readerIndex + len];
      RetrieveBytes(len);
    }

    method UnwriteBytes(len: nat)
      requires Valid() && len <= writerIndex - readerIndex
      modifies this`writerIndex
      ensures Valid() && writerIndex == old(writerIndex) - len
      ensures Readable() == old(Readable())[..old(|Readable()|) - len]
    {
      ghost var s := Readable();
      writerIndex := writerIndex - len;
      assert Readable() == s[..|s| - len];
    }

    /** appendInt32, appendInt16 and appendInt8, by width. */
    method AppendInt(x: int, n: nat)
      requires Valid() && IsSigned(x, n)
      modifies this, data
      ensures Valid() && Readable() == old(Readable()) + PutInt(x, n)
      ensures data == old(data) || fresh(data)
    {
      AppendBytes(PutInt(x, n));
    }

    /** prependInt32, prependInt16 and prependInt8. */
    method PrependInt(x: int, n: nat)
      requires Valid() && IsSigned(x, n) && n <= readerIndex
      modifies this`readerIndex, data
      ensures Valid() && Readable() == PutInt(x, n) + old(Readable())
    {
      PrependBytes(PutInt(x, n));
    }

    /** peekInt32, peekInt16 and peekInt8. */
    method PeekInt(n: nat) returns (x: int)
      requires Valid() && n <= writerIndex - readerIndex
      ensures x == GetInt(Readable()[..n])
    {
      x := GetInt(data[readerIndex..readerIndex + n]);
      assert data[readerIndex..readerIndex + n] == Readable()[..n];
    }

    /** readInt32, readInt16 and readInt8. */
    method ReadInt(n: nat) returns (x: int)
      requires Valid() && n <= writerIndex - readerIndex
      modifies this`readerIndex, this`writerIndex
      ensures Valid() && x == GetInt(old(Readable())[..n]) && Readable() == old(Readable())[n..]
    {
      x := PeekInt(n);
      RetrieveBytes(n);
    }

    /** How much one readv may bring. */
    function Room(): (n: nat)
      requires Valid()
      reads this
      ensures n >= EXTRA_SIZE && n >= WritableBytes()
    {
      WritableBytes() + if WritableBytes() < EXTRA_SIZE then EXTRA_SIZE else 0
    }

    /** readFd: what does not fit behind the readable bytes goes through a second buffer. */
    method ReadFrom(arrival: Arrival) returns (n: int, savedErrno: int)
      requires Valid()
      modifies this, data
      ensures Valid() && Readable() == Plain(old(Readable()), ReadFd(arrival), old(Room()))
      ensures arrival.Refused? ==> Readable() == old(Readable())
      ensures arrival.Arrived? ==>
        var most := old(WritableBytes()) + if old(WritableBytes()) < 65536 then 65536 else 0;
        0 <= n <= |arrival.bytes| && Readable() == old(Readable()) + arrival.bytes[..n] && (n < |arrival.bytes| ==> n == most)
      ensures n == if arrival.Refused? then -1 else |Readable()| - |old(Readable())|
      ensures arrival.Refused? ==> savedErrno == arrival.errno
      ensures data == old(data) || fresh(data)
    {
      n, savedErrno := -1, 0;
      match arrival {
        case Refused(errno) => savedErrno := errno;
        case Arrived(bytes) =>
          var room := Room();
          var got := if |bytes| <= room then bytes else bytes[..room];
          var writable := WritableBytes();
          n := |got|;
          if n <= writable {
            Write(got);
          } else {
            Write(got[..writable]);
            AppendBytes(got[writable..]);
            assert got == got[..writable] + got[writable..];
          }
      }
    }

    /** shrink: the readable bytes move to a buffer of their own size and a reserve. */
    method ShrinkTo(reserve: nat)
      requires Valid()
      modifies this
      ensures Valid() && Readable() == old(Readable()) && fresh(data)
      ensures readerIndex == CHEAP_PREPEND && WritableBytes() >= reserve
    {
      var other := new Buffer();
      other.EnsureWritableBytes(writerIndex - readerIndex + reserve);
      other.Write(data[readerIndex..writerIndex]);
      data, readerIndex, writerIndex := other.data, other.readerIndex, other.writerIndex;
    }

    /** The first "\r\n" from offset start of the readable bytes on, as findCRLF looks for it. */
    method FindCrlf(start: nat) returns (found: bool, k: nat)
      requires Valid() && start <= writerIndex - readerIndex
      ensures found ==> start <= k && CrlfAt(Readable(), k)
      ensures forall j :: start <= j && (found ==> j < k) ==> !CrlfAt(Readable(), j)
    {
      ghost var s := Readable();
      k := start;
      while k + 2 <= writerIndex - readerIndex
        invariant start <= k <= writerIndex - readerIndex
        invariant forall j :: start <= j < k ==> !CrlfAt(s, j)
      {
        assert s[k] == data[readerIndex + k] && s[k + 1] == data[readerIndex + k + 1];
        if data[readerIndex + k] == CR && data[readerIndex + k + 1] == LF {
          return true, k;
        }
        k := k + 1;
      }
      found := false;
    }

    /** Whether the source's assertions let the operation happen. */
    predicate Allowed(op: Op)
      requires Valid()
      reads this
    {
      match op
      case Prepend(bytes) => |bytes| <= readerIndex
      case Retrieve(n) => n <= writerIndex - readerIndex
      case Unwrite(n) => n <= writerIndex - readerIndex
      case _ => true
    }

    method Do(op: Op)
      requires Valid() && Allowed(op)
      modifies this, data
      ensures Valid() && Readable() == Plain(old(Readable()), op, old(Room()))
      ensures data == old(data) || fresh(data)
    {
      match op {
        case Append(bytes) => AppendBytes(bytes);
        case Prepend(bytes) => PrependBytes(bytes);
        case Retrieve(n) => RetrieveBytes(n);
        case Unwrite(n) => UnwriteBytes(n);
        case ReadFd(arrival) =>
          var n, errno := ReadFrom(arrival);
        case Shrink(reserve) => ShrinkTo(reserve);
      }
    }

    /**
     Any operations one after the other: the readable bytes are what a plain byte string would be, for
     every operation up to the first that an assertion of the source forbids.
    */
    method DoAll(ops: seq<Op>) returns (done: nat, ghost rooms: seq<nat>)
      requires Valid()
      modifies this, data
      ensures Valid() && done == |rooms| <= |ops| && Readable() == PlainAll(old(Readable()), ops[..done], rooms)
      ensures forall k :: 0 <= k < |rooms| ==> rooms[k] >= EXTRA_SIZE
      ensures done < |ops| ==> match ops[done]
        case Prepend(bytes) => |bytes| > readerIndex
        case Retrieve(n) => n > |Readable()|
        case Unwrite(n) => n > |Readable()|
        case _ => false
    {
      ghost var start := Readable();
      done, rooms := 0, [];
      assert PlainAll(start, ops[..done], rooms) == start;
      hide Plain, PlainAll;
      while done < |ops| && Allowed(ops[done])
        invariant Valid() && done == |rooms| <= |ops| && Readable() == PlainAll(start, ops[..done], rooms)
        invariant forall k :: 0 <= k < |rooms| ==> rooms[k] >= EXTRA_SIZE
        invariant data == old(data) || fresh(data)
      {
        ghost var s, room := Readable(), Room();
        Do(ops[done]);
        PlainNext(start, ops[..done], rooms, ops[done], room);
        rooms := rooms + [room];
        assert ops[..done + 1] == ops[..done] + [ops[done]];
        done := done + 1;
      }
    }
  }

  /** Operations on a plain byte string, each read with its own bound. */
  ghost function PlainAll(s: seq<byte>, ops: seq<Op>, rooms: seq<nat>): seq<byte>
    requires |rooms| == |ops|
    decreases |ops|
  {
    if ops == [] then s else
    var n := |ops| - 1;
    Plain(PlainAll(s, ops[..n], rooms[..n]), ops[n], rooms[n])
  }

  /** What the operations put in at the end, and what they take from the front. */
  ghost function PutIn(ops: seq<Op>, rooms: seq<nat>): seq<byte>
    requires |rooms| == |ops|
    decreases |ops|
  {
    if ops == [] then [] else
    var n := |ops| - 1;
    PutIn(ops[..n], rooms[..n]) + Arriving(ops[n], rooms[n])
  }

  ghost function TakenOut(ops: seq<Op>): nat
    decreases |ops|
  {
    if ops == [] then 0 else
    var n := |ops| - 1;
    TakenOut(ops[..n]) + if ops[n].Retrieve? then ops[n].n else 0
  }

  /** A buffer used as a queue: no operation takes more than there is, and none works at the wrong end. */
  ghost predicate QueueLike(s: seq<byte>, ops: seq<Op>, rooms: seq<nat>)
    requires |rooms| == |ops|
    decreases |ops|
  {
    ops == [] ||
    var n := |ops| - 1;
    && QueueLike(s, ops[..n], rooms[..n]) && !ops[n].Prepend? && !ops[n].Unwrite?
    && (ops[n].Retrieve? ==> ops[n].n <= |PlainAll(s, ops[..n], rooms[..n])|)
  }

  /** What one operation puts in at the end. */
  ghost function Arriving(op: Op, room: nat): seq<byte> {
    match op
    case Append(bytes) => bytes
    case ReadFd(Arrived(bytes)) => bytes[..if |bytes| < room then |bytes| else room]
    case _ => []
  }

  lemma PlainQueue(s: seq<byte>, gone: nat, op: Op, room: nat)
    requires gone <= |s| && !op.Prepend? && !op.Unwrite? && (op.Retrieve? ==> op.n <= |s| - gone)
    ensures var out := gone + if op.Retrieve? then op.n else 0;
      out <= |s + Arriving(op, room)| && Plain(s[gone..], op, room) == (s + Arriving(op, room))[out..]
  {
    var more := Arriving(op, room);
    assert s[gone..] + more == (s + more)[gone..];
    assert op.Retrieve? ==> s[gone..][op.n..] == s[gone + op.n..];
  }

  /** Then the bytes are what went in less what came out, in order. */
  lemma {:induction false} FirstInFirstOut(s: seq<byte>, ops: seq<Op>, rooms: seq<nat>)
    requires |rooms| == |ops| && QueueLike(s, ops, rooms)
    ensures TakenOut(ops) <= |s + PutIn(ops, rooms)| && PlainAll(s, ops, rooms) == (s + PutIn(ops, rooms))[TakenOut(ops)..]
    decreases |ops|
  {
    if ops == [] {
      assert (s + [])[0..] == s;
    } else {
      var n := |ops| - 1;
      FirstInFirstOut(s, ops[..n], rooms[..n]);
      var before, more := PutIn(ops[..n], rooms[..n]), Arriving(ops[n], rooms[n]);
      var here, gone := s + before, TakenOut(ops[..n]);
      assert |here[gone..]| == |here| - gone;
      hide Plain, Arriving;
      PlainQueue(here, gone, ops[n], rooms[n]);
      assert s + (before + more) == here + more;
    }
  }

  lemma PlainNext(s: seq<byte>, ops: seq<Op>, rooms: seq<nat>, op: Op, room: nat)
    requires |rooms| == |ops|
    ensures PlainAll(s, ops + [op], rooms + [room]) == Plain(PlainAll(s, ops, rooms), op, room)
  {
    assert (ops + [op])[..|ops|] == ops && (rooms + [room])[..|ops|] == rooms;
  }
}
