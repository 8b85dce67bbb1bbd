/**
 The shared-memory message queue of c_base_20140528/Shm_Queue.cpp: variable-length blocks
 with a 12-byte header in a byte area, a writer at `head` and a reader at `tail`, both
 wrapping to the first byte after the queue header. A block never straddles the end of the
 area: the writer leaves the rest unused, marked by a pad record when a header fits.
*/
module ShmQueueModel {
  import opened Bytes

  const START := 8             // sizeof (queue_header)
  const MB_HEAD := 12          // MB_HEAD_LENGTH
  const MAX_LENGTH := 40960 + MB_HEAD
  const PAD_REQUEST := 7

  datatype Option<T> = None | Some(value: T)

  /** The caller's shm_block: a claimed length, and the bytes its data pointer leads to. */
  datatype Request = Request(length: int, id: int, typ: int, data: seq<byte>)

  datatype Block = Block(id: int, typ: int, data: seq<byte>)

  /** The mapped area with its two offsets. */
  datatype Area = Area(m: seq<byte>, tail: int, head: int)

  // ---------- reading ----------

  function IntAt(m: seq<byte>, p: int): int
    requires 0 <= p && p + 4 <= |m|
  {
    ToSigned(GetLittle(m[p..p + 4]), TWO_32)
  }

  predicate LengthOk(length: int) { MB_HEAD <= length <= MAX_LENGTH }

  predicate CheckMb(r: Request) { LengthOk(r.length) && r.typ >= 0 }

  predicate HeaderOk(m: seq<byte>, p: int, limit: int)
    requires 0 <= p && limit <= |m|
  {
    && p + MB_HEAD <= limit
    && LengthOk(IntAt(m, p)) && p + IntAt(m, p) <= limit
    && IntAt(m, p + 8) >= 0
  }

  function BlockAt(m: seq<byte>, p: int, limit: int): Block
    requires 0 <= p && limit <= |m| && HeaderOk(m, p, limit)
  {
    Block(IntAt(m, p + 4), IntAt(m, p + 8), m[p + MB_HEAD..p + IntAt(m, p)])
  }

  /** The blocks that fill lo..hi exactly, if it is so filled by blocks other than pads. */
  function DecodeSpan(m: seq<byte>, lo: int, hi: int): Option<seq<Block>>
    requires 0 <= lo <= hi <= |m|
    decreases hi - lo
  {
    if lo == hi then Some([])
    else if HeaderOk(m, lo, hi) && IntAt(m, lo + 8) != PAD_REQUEST then
      match DecodeSpan(m, lo + IntAt(m, lo), hi)
      case Some(bs) => Some([BlockAt(m, lo, hi)] + bs)
      case None => None
    else None
  }

  predicate AtWrap(m: seq<byte>, p: int)
    requires 0 <= p <= |m|
  {
    |m| - p < MB_HEAD || IntAt(m, p + 8) == PAD_REQUEST
  }

  /** The blocks from lo up to a pad or to an end too short for a header. */
  function DecodeToWrap(m: seq<byte>, lo: int): Option<seq<Block>>
    requires 0 <= lo <= |m|
    decreases |m| - lo
  {
    if AtWrap(m, lo) then Some([])
    else if HeaderOk(m, lo, |m|) then
      match DecodeToWrap(m, lo + IntAt(m, lo))
      case Some(bs) => Some([BlockAt(m, lo, |m|)] + bs)
      case None => None
    else None
  }

  predicate InBounds(q: Area) { START <= q.tail <= |q.m| && START <= q.head <= |q.m| }

  /** What a reader finds from tail to head, across the wrap. */
  function Decode(q: Area): Option<seq<Block>>
    requires InBounds(q)
  {
    if q.tail <= q.head then DecodeSpan(q.m, q.tail, q.head)
    else
      match (DecodeToWrap(q.m, q.tail), DecodeSpan(q.m, START, q.head))
      case (Some(upper), Some(lower)) => Some(upper + lower)
      case _ => None
  }

  /** Offsets are START or lie behind at least one block. */
  predicate Placed(p: int) { p == START || START + MB_HEAD <= p }

  predicate Valid(q: Area) { InBounds(q) && Placed(q.tail) && Placed(q.head) && Decode(q).Some? }

  function Contents(q: Area): seq<Block>
    requires Valid(q)
  {
    Decode(q).value
  }

  // ---------- writing ----------

  /** An int as memcpy leaves it: four bytes, least significant first. */
  function Word(x: int): (bs: seq<byte>)
    requires IsInt32(x)
    ensures |bs| == 4
  {
    PutLittle(ToUnsigned(x, TWO_32), 4)
  }

  function Layout(length: int, id: int, typ: int, data: seq<byte>): (bs: seq<byte>)
    requires LengthOk(length) && IsInt32(id) && IsInt32(typ)
    ensures |bs| == MB_HEAD + |data|
  {
    Word(length) + Word(id) + Word(typ) + data
  }

  /** What a caller must supply: 32-bit fields and, for a block that passes check_mb, its data. */
  predicate Callable(r: Request) {
    IsInt32(r.id) && IsInt32(r.typ) && (CheckMb(r) ==> |r.data| == r.length - MB_HEAD)
  }

  function Surplus(q: Area): int { |q.m| - q.head }

  predicate CannotWrap(q: Area, length: int) { Surplus(q) < length && q.tail == START }

  /** align_queue_head, once CannotWrap is excluded. */
  function AlignHead(q: Area, length: int): Area
    requires InBounds(q) && LengthOk(length)
  {
    if Surplus(q) < MB_HEAD then q.(head := START)
    else if Surplus(q) < length then
      q.(m := Splice(q.m, q.head, Layout(Surplus(q), 0, PAD_REQUEST, [])), head := START)
    else q
  }

  predicate Full(q: Area, length: int) { 0 < q.tail - q.head < length + 1 }

  /** push_wait without blocking: the aligned area, and whether the block may be written at its head. */
  function PushWait(q: Area, length: int): (r: (Area, bool))
    requires InBounds(q) && LengthOk(length)
    ensures InBounds(r.0)
    ensures r.1 ==> Surplus(r.0) >= length && !Full(r.0, length)
  {
    if CannotWrap(q, length) then (q, false)
    else
      var q1 := AlignHead(q, length);
      if Full(q1, length) || CannotWrap(q1, length) then (q1, false)
      else
        var q2 := AlignHead(q1, length);
        (q2, !Full(q2, length))
  }

  /** A non-blocking push: the new area, and whether the block went in. */
  function PushArea(q: Area, r: Request): (Area, bool)
    requires InBounds(q) && Callable(r)
  {
    if !CheckMb(r) then (q, false)
    else
      var (q1, ready) := PushWait(q, r.length);
      if !ready then (q1, false)
      else (Area(Splice(q1.m, q1.head, Layout(r.length, r.id, r.typ, r.data)), q1.tail, q1.head + r.length), true)
  }

  /** align_queue_tail. */
  function AlignTail(q: Area): Area
    requires InBounds(q)
  {
    if AtWrap(q.m, q.tail) && q.head < q.tail then q.(tail := START) else q
  }

  /** `Corrupt` stands for the exits of pop: check_mb fails, or one of the two "bug::" tests does. */
  datatype Popped = Empty | Got(block: Block) | Corrupt

  predicate Bug(q: Area)
    requires InBounds(q) && q.tail + MB_HEAD <= |q.m|
  {
    || (q.tail < q.head && q.tail + IntAt(q.m, q.tail) > q.head)
    || (q.tail > q.head && q.tail + IntAt(q.m, q.tail) > |q.m|)
  }

  /** The part of pop after pop_wait. */
  function TakeBlock(q: Area): (Area, Popped)
    requires InBounds(q)
  {
    if q.tail == q.head then (q, Empty)
    else if |q.m| - q.tail < MB_HEAD || !HeaderOk(q.m, q.tail, |q.m|) || Bug(q) then (q, Corrupt)
    else (q.(tail := q.tail + IntAt(q.m, q.tail)), Got(BlockAt(q.m, q.tail, |q.m|)))
  }

  /** A non-blocking pop. */
  function PopArea(q: Area): (Area, Popped)
    requires InBounds(q)
  {
    TakeBlock(AlignTail(q))
  }

  // ---------- decoding lemmas ----------

  lemma WordRoundTrip(x: int)
    requires IsInt32(x)
    ensures ToSigned(GetLittle(Word(x)), TWO_32) == x
  {
    PowFour();
    LittleRoundTrip(ToUnsigned(x, TWO_32), 4);
  }

  lemma SubLayout(m: seq<byte>, p: int, l: seq<byte>, k: int, n: int)
    requires 0 <= p && p + |l| <= |m| && m[p..p + |l|] == l
    requires 0 <= k && 0 <= n && k + n <= |l|
    ensures m[p + k..p + k + n] == l[k..k + n]
  {
    var sub := m[p + k..p + k + n];
    forall i | 0 <= i < |sub| ensures sub[i] == l[k..k + n][i] {
      assert sub[i] == m[p + k + i] == m[p..p + |l|][k + i];
    }
  }

  lemma LayoutFields(m: seq<byte>, p: int, length: int, id: int, typ: int, data: seq<byte>)
    requires LengthOk(length) && IsInt32(id) && IsInt32(typ)
    requires 0 <= p && p + MB_HEAD + |data| <= |m|
    requires m[p..p + MB_HEAD + |data|] == Layout(length, id, typ, data)
    ensures IntAt(m, p) == length && IntAt(m, p + 4) == id && IntAt(m, p + 8) == typ
    ensures m[p + MB_HEAD..p + MB_HEAD + |data|] == data
  {
    var l := Layout(length, id, typ, data);
    SubLayout(m, p, l, 0, 4);
    SubLayout(m, p, l, 4, 4);
    SubLayout(m, p, l, 8, 4);
    SubLayout(m, p, l, 12, |data|);
    assert l[0..4] == Word(length);
    assert l[4..8] == Word(id);
    assert l[8..12] == Word(typ);
    assert l[12..12 + |data|] == data;
    hide Layout;
    WordRoundTrip(length);
    WordRoundTrip(id);
    WordRoundTrip(typ);
  }

  predicate SameOn(m: seq<byte>, m': seq<byte>, lo: int, hi: int)
    requires 0 <= lo <= hi <= |m| == |m'|
  {
    forall i :: lo <= i < hi ==> m[i] == m'[i]
  }

  lemma SameHeader(m: seq<byte>, m': seq<byte>, lo: int, hi: int)
    requires 0 <= lo && lo + MB_HEAD <= hi <= |m| == |m'| && SameOn(m, m', lo, hi)
    ensures IntAt(m, lo) == IntAt(m', lo) && IntAt(m, lo + 4) == IntAt(m', lo + 4) && IntAt(m, lo + 8) == IntAt(m', lo + 8)
    ensures HeaderOk(m, lo, hi) ==> HeaderOk(m', lo, hi) && BlockAt(m, lo, hi) == BlockAt(m', lo, hi)
    ensures HeaderOk(m, lo, hi) ==> SameOn(m, m', lo + IntAt(m, lo), hi)
  {
    assert m[lo..lo + 4] == m'[lo..lo + 4];
    assert m[lo + 4..lo + 8] == m'[lo + 4..lo + 8];
    assert m[lo + 8..lo + 12] == m'[lo + 8..lo + 12];
    if HeaderOk(m, lo, hi) {
      assert m[lo + MB_HEAD..lo + IntAt(m, lo)] == m'[lo + MB_HEAD..lo + IntAt(m, lo)];
    }
  }

  lemma SpanCons(m: seq<byte>, lo: int, next: int, hi: int)
    requires 0 <= lo < next <= hi <= |m| && HeaderOk(m, lo, next) && next == lo + IntAt(m, lo)
    requires IntAt(m, lo + 8) != PAD_REQUEST && DecodeSpan(m, next, hi).Some?
    ensures DecodeSpan(m, lo, hi) == Some([BlockAt(m, lo, next)] + DecodeSpan(m, next, hi).value)
  {
  }

  lemma SpanUncons(m: seq<byte>, lo: int, hi: int) returns (next: int)
    requires 0 <= lo < hi <= |m| && DecodeSpan(m, lo, hi).Some?
    ensures lo < next <= hi && HeaderOk(m, lo, next) && next == lo + IntAt(m, lo)
    ensures IntAt(m, lo + 8) != PAD_REQUEST && DecodeSpan(m, next, hi).Some?
    ensures DecodeSpan(m, lo, hi).value == [BlockAt(m, lo, next)] + DecodeSpan(m, next, hi).value
  {
    next := lo + IntAt(m, lo);
  }

  lemma SpanSingle(m: seq<byte>, p: int, b: Block)
    requires 0 <= p && p + MB_HEAD + |b.data| <= |m|
    requires LengthOk(MB_HEAD + |b.data|) && IsInt32(b.id) && IsInt32(b.typ) && 0 <= b.typ != PAD_REQUEST
    requires m[p..p + MB_HEAD + |b.data|] == Layout(MB_HEAD + |b.data|, b.id, b.typ, b.data)
    ensures DecodeSpan(m, p, p + MB_HEAD + |b.data|) == Some([b])
  {
    var end := p + MB_HEAD + |b.data|;
    LayoutFields(m, p, MB_HEAD + |b.data|, b.id, b.typ, b.data);
    assert DecodeSpan(m, end, end) == Some([]);
    SpanCons(m, p, end, end);
    assert BlockAt(m, p, end) == b;
    assert [b] + [] == [b];
  }

  /** A block written after a span extends what the span decodes to. */
  lemma {:induction false} SpanExtend(m: seq<byte>, m': seq<byte>, lo: int, mid: int, end: int, b: Block)
    requires 0 <= lo <= mid <= end <= |m| == |m'|
    requires DecodeSpan(m, lo, mid).Some? && SameOn(m, m', lo, mid)
    requires DecodeSpan(m', mid, end) == Some([b])
    ensures DecodeSpan(m', lo, end) == Some(DecodeSpan(m, lo, mid).value + [b])
    decreases mid - lo
  {
    if lo == mid {
      assert [] + [b] == [b];
    } else {
      var next := SpanUncons(m, lo, mid);
      SameHeader(m, m', lo, next);
      SpanExtend(m, m', next, mid, end, b);
      SpanCons(m', lo, next, end);
      var x, rest := BlockAt(m, lo, next), DecodeSpan(m, next, mid).value;
      assert ([x] + rest) + [b] == [x] + (rest + [b]);
    }
  }

  /** A span that ends at a wrap point reads the same from the other side of the wrap. */
  lemma {:induction false} SpanToWrap(m: seq<byte>, m': seq<byte>, lo: int, hi: int)
    requires 0 <= lo <= hi <= |m| == |m'|
    requires DecodeSpan(m, lo, hi).Some? && SameOn(m, m', lo, hi) && AtWrap(m', hi)
    ensures DecodeToWrap(m', lo) == DecodeSpan(m, lo, hi)
    decreases hi - lo
  {
    if lo < hi {
      SameHeader(m, m', lo, hi);
      SpanToWrap(m, m', lo + IntAt(m, lo), hi);
    }
  }

  lemma {:induction false} ToWrapFrame(m: seq<byte>, m': seq<byte>, lo: int)
    requires 0 <= lo <= |m| == |m'| && SameOn(m, m', lo, |m|)
    requires DecodeToWrap(m, lo).Some?
    ensures DecodeToWrap(m', lo) == DecodeToWrap(m, lo)
    decreases |m| - lo
  {
    if |m| - lo >= MB_HEAD {
      SameHeader(m, m', lo, |m|);
      if !AtWrap(m, lo) {
        ToWrapFrame(m, m', lo + IntAt(m, lo));
      }
    }
  }

  lemma {:induction false} SpanFrame(m: seq<byte>, m': seq<byte>, lo: int, hi: int)
    requires 0 <= lo <= hi <= |m| == |m'| && SameOn(m, m', lo, hi)
    requires DecodeSpan(m, lo, hi).Some?
    ensures DecodeSpan(m', lo, hi) == DecodeSpan(m, lo, hi)
    decreases hi - lo
  {
    if lo < hi {
      SameHeader(m, m', lo, hi);
      SpanFrame(m, m', lo + IntAt(m, lo), hi);
    }
  }

  // ---------- push ----------

  /** The writer may pad and wrap only when no unread block lies in front of it. */
  predicate Guard(q: Area, length: int) { q.head >= q.tail || Surplus(q) >= length }

  /** There is room: behind the head, or, when it can wrap, in front of the tail with a byte to spare. */
  predicate Fits(q: Area, length: int) {
    if q.tail <= q.head then Surplus(q) >= length || q.tail - START > length
    else q.tail - q.head > length
  }

  function NewBlock(r: Request): Block { Block(r.id, r.typ, r.data) }

  lemma PadIsRead(q: Area, length: int)
    requires InBounds(q) && q.tail <= q.head && LengthOk(length) && Surplus(q) < length
    ensures var q' := AlignHead(q, length);
      && |q'.m| == |q.m| && q'.tail == q.tail && q'.head == START
      && SameOn(q.m, q'.m, q.tail, q.head) && AtWrap(q'.m, q.head)
  {
    var q' := AlignHead(q, length);
    if Surplus(q) >= MB_HEAD {
      LayoutFields(q'.m, q.head, Surplus(q), 0, PAD_REQUEST, []);
    }
  }

  lemma PadKeepsContents(q: Area, length: int)
    requires Valid(q) && q.tail <= q.head && LengthOk(length)
    requires Surplus(q) < length && q.tail != START
    ensures Valid(AlignHead(q, length)) && Contents(AlignHead(q, length)) == Contents(q)
    ensures AlignHead(q, length).head == START < AlignHead(q, length).tail
  {
    var q' := AlignHead(q, length);
    PadIsRead(q, length);
    hide AlignHead, SameOn, AtWrap;
    SpanToWrap(q.m, q'.m, q.tail, q.head);
    assert DecodeSpan(q'.m, START, START) == Some([]);
    assert Contents(q) + [] == Contents(q);
  }

  lemma Written(m: seq<byte>, p: int, r: Request)
    requires Callable(r) && CheckMb(r) && r.typ != PAD_REQUEST && 0 <= p && p + r.length <= |m|
    ensures DecodeSpan(Splice(m, p, Layout(r.length, r.id, r.typ, r.data)), p, p + r.length) == Some([NewBlock(r)])
  {
    var l := Layout(r.length, r.id, r.typ, r.data);
    var m' := Splice(m, p, l);
    assert m'[p..p + |l|] == l;
    SpanSingle(m', p, NewBlock(r));
  }

  lemma WriteAppends(q: Area, r: Request, q': Area)
    requires Valid(q) && Callable(r) && CheckMb(r) && r.typ != PAD_REQUEST
    requires Surplus(q) >= r.length && !Full(q, r.length)
    requires q' == Area(Splice(q.m, q.head, Layout(r.length, r.id, r.typ, r.data)), q.tail, q.head + r.length)
    ensures Valid(q') && Contents(q') == Contents(q) + [NewBlock(r)]
  {
    Written(q.m, q.head, r);
    AppendAt(q, q', NewBlock(r));
  }

  lemma AppendAt(q: Area, q': Area, b: Block)
    requires Valid(q) && InBounds(q') && |q'.m| == |q.m| && q'.tail == q.tail
    requires q.head + MB_HEAD <= q'.head && (q.tail <= q.head || q'.head < q.tail)
    requires forall i :: 0 <= i < |q.m| && !(q.head <= i < q'.head) ==> q.m[i] == q'.m[i]
    requires DecodeSpan(q'.m, q.head, q'.head) == Some([b])
    ensures Valid(q') && Contents(q') == Contents(q) + [b]
  {
    if q.tail <= q.head {
      SpanExtend(q.m, q'.m, q.tail, q.head, q'.head, b);
    } else {
      SpanExtend(q.m, q'.m, START, q.head, q'.head, b);
      ToWrapFrame(q.m, q'.m, q.tail);
      var upper, lower := DecodeToWrap(q.m, q.tail).value, DecodeSpan(q.m, START, q.head).value;
      assert (upper + lower) + [b] == upper + (lower + [b]);
    }
  }

  /**
   A guarded push appends exactly its block when there is room and otherwise changes no content.
   The area never looks empty when it is full: it stays valid with the same blocks.
  */
  lemma PushRefines(q: Area, r: Request)
    requires Valid(q) && Callable(r) && r.typ != PAD_REQUEST && Guard(q, r.length)
    ensures Valid(PushArea(q, r).0)
    ensures PushArea(q, r).1 <==> CheckMb(r) && Fits(q, r.length)
    ensures Contents(PushArea(q, r).0) == if PushArea(q, r).1 then Contents(q) + [NewBlock(r)] else Contents(q)
    ensures PushArea(q, r).1 ==> PushArea(q, r).0.tail != PushArea(q, r).0.head
  {
    if CheckMb(r) && !CannotWrap(q, r.length) {
      if Surplus(q) < r.length {
        PadKeepsContents(q, r.length);
        var q1 := AlignHead(q, r.length);
        if !Full(q1, r.length) {
          WriteAppends(q1, r, PushArea(q, r).0);
        }
      } else if !Full(q, r.length) {
        WriteAppends(q, r, PushArea(q, r).0);
      }
    }
  }

  /** A wrapped queue whose lower part is still empty only refuses an oversized block. */
  lemma PushAtStartRefuses(q: Area, r: Request)
    requires Valid(q) && Callable(r) && CheckMb(r)
    requires q.head == START < q.tail && Surplus(q) < r.length
    ensures !PushArea(q, r).1 && Valid(PushArea(q, r).0) && Contents(PushArea(q, r).0) == Contents(q)
  {
    var q1 := AlignHead(q, r.length);
    assert PushArea(q, r) == (q1, false);
    ToWrapFrame(q.m, q1.m, q.tail);
    assert DecodeSpan(q1.m, START, START) == Some([]);
  }

  lemma SpanNonEmpty(m: seq<byte>, lo: int, hi: int)
    requires 0 <= lo < hi <= |m| && DecodeSpan(m, lo, hi).Some?
    ensures DecodeSpan(m, lo, hi).value != []
  {
  }

  /** What a push promises: the block is appended when it reports success, nothing changes otherwise. */
  ghost predicate Refines(q: Area, r: Request)
    requires Valid(q) && Callable(r)
  {
    var (q', done) := PushArea(q, r);
    Valid(q') && Contents(q') == if done then Contents(q) + [NewBlock(r)] else Contents(q)
  }

  lemma IntIs(m: seq<byte>, p: int, a: byte, b: byte, c: byte, d: byte)
    requires 0 <= p && p + 4 <= |m| && m[p..p + 4] == [a, b, c, d] && d < 128
    ensures IntAt(m, p) == a + 256 * b + 65536 * c + 16777216 * d
  {
    var u := m[p..p + 4];
    assert u[1..] == [b, c, d] && u[1..][1..] == [c, d] && u[1..][1..][1..] == [d];
    assert GetLittle([d]) == d;
    assert GetLittle([c, d]) == c + 256 * d;
    assert GetLittle([b, c, d]) == b + 256 * (c + 256 * d);
  }

  lemma {:induction false} SameLittle(u: seq<byte>, u': seq<byte>)
    requires |u| == |u'| && GetLittle(u) == GetLittle(u')
    ensures u == u'
  {
    if u != [] {
      SameLittle(u[1..], u'[1..]);
      assert u == [u[0]] + u[1..];
      assert u' == [u'[0]] + u'[1..];
    }
  }

  lemma {:induction false} LittleBound(u: seq<byte>)
    ensures GetLittle(u) < Pow256(|u|)
  {
    if u != [] {
      LittleBound(u[1..]);
    }
  }

  lemma WordBytes(x: int)
    requires 0 <= x < 65536
    ensures Word(x) == [x % 256, x / 256, 0, 0]
  {
    assert Word(x) == [x % 256] + ([x / 256 % 256] + ([0] + ([0] + [])));
  }

  lemma SameWord(m: seq<byte>, m': seq<byte>, p: int)
    requires 0 <= p && p + 4 <= |m| == |m'| && IntAt(m, p) == IntAt(m', p)
    ensures SameOn(m, m', p, p + 4)
  {
    var u, u' := m[p..p + 4], m'[p..p + 4];
    PowFour();
    LittleBound(u);
    LittleBound(u');
    SameLittle(u, u');
    forall i | p <= i < p + 4 ensures m[i] == m'[i] {
      assert m[i] == u[i - p] == u'[i - p] == m'[i];
    }
  }

  /** The area once the writer has padded and wrapped from in front of the tail. */
  predicate Padded(q: Area, m': seq<byte>)
    requires InBounds(q) && START < q.head < q.tail && Surplus(q) <= MAX_LENGTH
  {
    && |m'| == |q.m| && SameOn(q.m, m', START, q.head)
    && if Surplus(q) < MB_HEAD then m' == q.m
       else && m'[q.head..q.head + MB_HEAD] == Layout(Surplus(q), 0, PAD_REQUEST, [])
            && SameOn(q.m, m', q.head + MB_HEAD, |q.m|)
  }

  lemma PadWritten(q: Area, r: Request)
    requires InBounds(q) && CheckMb(r) && !Guard(q, r.length) && q.head != START
    ensures START < q.head < q.tail && Surplus(q) <= MAX_LENGTH
    ensures var q1 := AlignHead(q, r.length); q1.head == START && q1.tail == q.tail && Padded(q, q1.m)
  {
  }

  /** What an unguarded push does depends on what the reader then finds from the tail on. */
  lemma UnguardedPush(q: Area, r: Request)
    requires Valid(q) && Callable(r) && CheckMb(r) && r.typ != PAD_REQUEST
    requires !Guard(q, r.length) && q.head != START
    ensures Refines(q, r) <==> DecodeToWrap(AlignHead(q, r.length).m, q.tail) == Some(Contents(q))
  {
    var q1, q', done := AlignHead(q, r.length), PushArea(q, r).0, PushArea(q, r).1;
    PadWritten(q, r);
    assert q'.tail == q.tail && q'.head < q.tail && |q'.m| == |q.m|;
    assert !done ==> q' == q1;
    assert done ==> !Full(q1, r.length) && Surplus(q1) >= r.length;
    assert done ==> q' == Area(Splice(q1.m, q1.head, Layout(r.length, r.id, r.typ, r.data)), q1.tail, q1.head + r.length);
    assert SameOn(q'.m, q1.m, q.tail, |q.m|);
    hide AlignHead, PushArea, Full, Layout, Padded, DecodeToWrap, DecodeSpan;
    UnguardedFinds(q, r, q1, q', done);
  }

  lemma UnguardedFinds(q: Area, r: Request, q1: Area, q': Area, done: bool)
    requires Valid(q) && Callable(r) && CheckMb(r) && r.typ != PAD_REQUEST && START < q.tail
    requires InBounds(q1) && q1.head == START && q1.tail == q.tail && |q1.m| == |q.m|
    requires InBounds(q') && q'.tail == q.tail && q'.head < q.tail && |q'.m| == |q.m| && SameOn(q'.m, q1.m, q.tail, |q.m|)
    requires !done ==> q' == q1
    requires done ==> !Full(q1, r.length) && Surplus(q1) >= r.length
    requires done ==> q' == Area(Splice(q1.m, q1.head, Layout(r.length, r.id, r.typ, r.data)), q1.tail, q1.head + r.length)
    ensures Valid(q') && Contents(q') == (if done then Contents(q) + [NewBlock(r)] else Contents(q))
      <==> DecodeToWrap(q1.m, q.tail) == Some(Contents(q))
  {
    hide Full, Layout, DecodeToWrap;
    assert DecodeSpan(q1.m, START, START) == Some([]);
    hide DecodeSpan;
    if DecodeToWrap(q1.m, q.tail).Some? {
      var upper := DecodeToWrap(q1.m, q.tail).value;
      assert upper + [] == upper;
      assert Valid(q1) && Contents(q1) == upper;
      if done {
        WriteAppends(q1, r, q');
        SameSnoc(Contents(q1), Contents(q), NewBlock(r));
      }
    } else if Valid(q') {
      ToWrapFrame(q'.m, q1.m, q.tail);
    }
  }

  lemma SameSnoc<T>(s: seq<T>, t: seq<T>, a: T)
    ensures s + [a] == t + [a] <==> s == t
  {
    assert s == (s + [a])[..|s + [a]| - 1];
    assert t == (t + [a])[..|t + [a]| - 1];
  }

  /** If the header at the tail survives the pad, or the reader still wraps there, the lower blocks are gone. */
  lemma LowerBlocksUnread(q: Area, m': seq<byte>)
    requires Valid(q) && START < q.head < q.tail && Surplus(q) <= MAX_LENGTH && Padded(q, m')
    requires AtWrap(q.m, q.tail) && |q.m| - q.tail >= MB_HEAD ==> q.tail - q.head >= 4
    ensures DecodeToWrap(m', q.tail) != Some(Contents(q))
  {
    SpanNonEmpty(q.m, START, q.head);
    if AtWrap(q.m, q.tail) {
      PadStays(q, m');
      hide Padded;
    } else {
      assert |m'| == |q.m| && SameOn(q.m, m', q.tail + MB_HEAD, |q.m|);
      hide Padded;
      HeaderStays(q.m, m', q.tail, DecodeSpan(q.m, START, q.head).value);
    }
  }

  lemma PadStays(q: Area, m': seq<byte>)
    requires InBounds(q) && START < q.head < q.tail && Surplus(q) <= MAX_LENGTH && Padded(q, m') && AtWrap(q.m, q.tail)
    requires |q.m| - q.tail >= MB_HEAD ==> q.tail - q.head >= 4
    ensures AtWrap(m', q.tail)
  {
    if |q.m| - q.tail >= MB_HEAD {
      assert m'[q.tail + 8..q.tail + 12] == q.m[q.tail + 8..q.tail + 12];
    }
  }

  lemma HeaderStays(m: seq<byte>, m': seq<byte>, t: int, lower: seq<Block>)
    requires 0 <= t && t + MB_HEAD <= |m| == |m'| && SameOn(m, m', t + MB_HEAD, |m|)
    requires !AtWrap(m, t) && DecodeToWrap(m, t).Some? && lower != []
    ensures DecodeToWrap(m', t) != Some(DecodeToWrap(m, t).value + lower)
  {
    var upper := DecodeToWrap(m, t).value;
    if DecodeToWrap(m', t) == Some(upper + lower) {
      var b := BlockAt(m, t, |m|);
      assert upper[0] == b;
      assert (upper + lower)[0] == b == BlockAt(m', t, |m|);
      hide DecodeToWrap;
      assert |b.data| == IntAt(m, t) - MB_HEAD == IntAt(m', t) - MB_HEAD;
      SameWord(m, m', t);
      SameWord(m, m', t + 4);
      SameWord(m, m', t + 8);
      ToWrapFrame(m, m', t);
    }
  }

  /** From START to hi stands the block c, and behind it the blocks of rest. */
  predicate Begins(m: seq<byte>, hi: int, c: Block, rest: Option<seq<Block>>)
    requires hi <= |m|
  {
    var next := START + MB_HEAD + |c.data|;
    && next <= hi && IntAt(m, START) == MB_HEAD + |c.data|
    && IntAt(m, START + 4) == c.id && IntAt(m, START + 8) == c.typ && m[START + MB_HEAD..next] == c.data
    && rest == DecodeSpan(m, next, hi)
  }

  /**
   The one state in which an unguarded wrap is harmless though there are blocks to lose. A pad record
   stands at the tail and the head right in front of it. Written a byte lower, the new pad makes a block
   header of the old one, and the bytes behind it spell the very blocks that are lost.
  */
  predicate SpeltAgain(q: Area)
    requires InBounds(q)
  {
    var n := Surplus(q) / 256;
    && q.head == q.tail - 1 && LengthOk(n) && IntAt(q.m, q.tail + 8) == PAD_REQUEST
    && Begins(q.m, q.head, Block(0x700_0000, 0, q.m[q.tail + MB_HEAD..q.tail + n]), DecodeToWrap(q.m, q.tail + n))
  }

  /** What the reader makes of two pads that overlap. */
  lemma PadOverPad(q: Area, m': seq<byte>)
    requires InBounds(q) && START < q.head < q.tail && Surplus(q) <= MAX_LENGTH && Padded(q, m')
    requires q.tail - q.head < 4 && |q.m| - q.tail >= MB_HEAD && IntAt(q.m, q.tail + 8) == PAD_REQUEST
    ensures q.tail - q.head > 1 ==> IntAt(m', q.tail) == 0
    ensures q.tail - q.head == 1 ==>
      IntAt(m', q.tail) == Surplus(q) / 256 && IntAt(m', q.tail + 4) == 0x700_0000 && IntAt(m', q.tail + 8) == 0
  {
    hide Padded, IntAt, Layout, SameOn;
    PadSlices(q, m', q.head);
    var n, t := Surplus(q), q.tail;
    if t == q.head + 1 {
      TopByte(q.m, t + 8);
      assert m'[t + 8..t + 12] == m'[t + 8..t + 11] + [m'[t + 11]];
      IntIs(m', t, n / 256, 0, 0, 0);
      IntIs(m', t + 4, 0, 0, 0, 7);
      IntIs(m', t + 8, 0, 0, 0, 0);
    } else {
      IntIs(m', t, 0, 0, 0, 0);
    }
  }

  lemma PadSlices(q: Area, m': seq<byte>, h: int)
    requires InBounds(q) && START < q.head < q.tail && Surplus(q) <= MAX_LENGTH && Padded(q, m')
    requires h == q.head && q.tail - h < 4 && |q.m| - q.tail >= MB_HEAD
    ensures |m'| == |q.m| && m'[h + 1..h + 5] == [Surplus(q) / 256, 0, 0, 0]
    ensures m'[h + 2..h + 6] == m'[h + 3..h + 7] == [0, 0, 0, 0]
    ensures m'[h + 5..h + 9] == [0, 0, 0, 7] && m'[h + 9..h + 12] == [0, 0, 0] && m'[h + 12] == q.m[h + 12]
  {
    var n := Surplus(q);
    PadBytes(n);
    var l := [n % 256, n / 256, 0, 0, 0, 0, 0, 0, 7, 0, 0, 0];
    assert m'[h..h + |l|] == l && m'[h + 12] == q.m[h + 12];
    hide *;
    Parts(n % 256, n / 256, l);
    SubLayout(m', h, l, 1, 4);
    SubLayout(m', h, l, 2, 4);
    SubLayout(m', h, l, 3, 4);
    SubLayout(m', h, l, 5, 4);
    SubLayout(m', h, l, 9, 3);
  }

  lemma Parts(a: byte, b: byte, l: seq<byte>)
    requires l == [a, b, 0, 0, 0, 0, 0, 0, 7, 0, 0, 0]
    ensures l[1..5] == [b, 0, 0, 0] && l[2..6] == [0, 0, 0, 0] && l[3..7] == [0, 0, 0, 0]
    ensures l[5..9] == [0, 0, 0, 7] && l[9..12] == [0, 0, 0]
  {
  }

  lemma PadBytes(n: int)
    requires MB_HEAD <= n <= MAX_LENGTH
    ensures Layout(n, 0, PAD_REQUEST, []) == [n % 256, n / 256, 0, 0, 0, 0, 0, 0, 7, 0, 0, 0]
  {
    WordBytes(n);
    WordBytes(0);
    WordBytes(PAD_REQUEST);
  }

  lemma TopByte(m: seq<byte>, p: int)
    requires 0 <= p && p + 4 <= |m| && IntAt(m, p) == PAD_REQUEST
    ensures m[p + 3] == 0
  {
    var w := Word(PAD_REQUEST);
    WordRoundTrip(PAD_REQUEST);
    WordBytes(PAD_REQUEST);
    SameWord(m, m[..p] + w + m[p + 4..], p);
  }

  lemma SpeltAgainExact(q: Area, m': seq<byte>)
    requires Valid(q) && START < q.head < q.tail && Surplus(q) <= MAX_LENGTH && Padded(q, m')
    requires q.tail - q.head < 4 && |q.m| - q.tail >= MB_HEAD && AtWrap(q.m, q.tail)
    ensures DecodeToWrap(m', q.tail) == Some(Contents(q)) <==> SpeltAgain(q)
  {
    LowerOnly(q);
    PadOverPad(q, m');
    assert |m'| == |q.m|;
    if q.head == q.tail - 1 {
      assert SameOn(q.m, m', q.tail + MB_HEAD - 1, |q.m|);
      hide Padded, DecodeToWrap, DecodeSpan, Valid, Contents;
      OneByteBelow(q, m', Surplus(q) / 256);
    } else {
      hide Padded, DecodeSpan;
      NoHeader(m', q.tail);
    }
  }

  lemma OneByteBelow(q: Area, m': seq<byte>, n: int)
    requires InBounds(q) && START < q.head == q.tail - 1 && q.tail + MB_HEAD <= |q.m| == |m'|
    requires SameOn(q.m, m', q.tail + MB_HEAD - 1, |q.m|) && DecodeSpan(q.m, START, q.head).Some?
    requires IntAt(q.m, q.tail + 8) == PAD_REQUEST && DecodeSpan(q.m, START, q.head).value != []
    requires n == Surplus(q) / 256 == IntAt(m', q.tail) && IntAt(m', q.tail + 4) == 0x700_0000 && IntAt(m', q.tail + 8) == 0
    ensures DecodeToWrap(m', q.tail) == DecodeSpan(q.m, START, q.head) <==> SpeltAgain(q)
  {
    hide DecodeToWrap, DecodeSpan, Begins, IntAt, SameOn;
    if LengthOk(n) {
      Resurface(q.m, m', q.tail, q.head, Block(0x700_0000, 0, q.m[q.tail + MB_HEAD..q.tail + n]));
    } else {
      NoHeader(m', q.tail);
    }
  }

  lemma LowerOnly(q: Area)
    requires Valid(q) && START < q.head < q.tail && AtWrap(q.m, q.tail)
    ensures DecodeSpan(q.m, START, q.head) == Some(Contents(q)) && Contents(q) != []
  {
    assert [] + DecodeSpan(q.m, START, q.head).value == DecodeSpan(q.m, START, q.head).value;
    SpanNonEmpty(q.m, START, q.head);
  }

  lemma NoHeader(m: seq<byte>, p: int)
    requires 0 <= p && p + MB_HEAD <= |m| && !LengthOk(IntAt(m, p))
    ensures DecodeToWrap(m, p) in {None, Some([])}
  {
  }

  /** A header left at t makes c of the bytes there; this is what stands from START to hi, or not. */
  lemma Resurface(m: seq<byte>, m': seq<byte>, t: int, hi: int, c: Block)
    requires 0 <= t && t + MB_HEAD + |c.data| <= |m| == |m'| && SameOn(m, m', t + MB_HEAD - 1, |m|)
    requires IntAt(m', t) == MB_HEAD + |c.data| && IntAt(m', t + 4) == c.id && IntAt(m', t + 8) == c.typ
    requires LengthOk(IntAt(m', t)) && 0 <= c.typ != PAD_REQUEST && c.data == m[t + MB_HEAD..t + IntAt(m', t)]
    requires START < hi <= |m| && DecodeSpan(m, START, hi).Some?
    ensures DecodeToWrap(m', t) == DecodeSpan(m, START, hi) <==> Begins(m, hi, c, DecodeToWrap(m, t + IntAt(m', t)))
  {
    hide DecodeToWrap, DecodeSpan, Begins;
    var lo := t + MB_HEAD + |c.data|;
    assert m'[t + MB_HEAD..lo] == c.data;
    SameToWrap(m, m', lo);
    ToWrapCons(m', t, c);
    FirstIs(m, hi, c, DecodeToWrap(m, lo));
  }

  function Cons(b: Block, bs: Option<seq<Block>>): Option<seq<Block>> {
    if bs.Some? then Some([b] + bs.value) else None
  }

  lemma ToWrapCons(m: seq<byte>, lo: int, c: Block)
    requires 0 <= lo <= |m| && !AtWrap(m, lo) && HeaderOk(m, lo, |m|) && BlockAt(m, lo, |m|) == c
    ensures DecodeToWrap(m, lo) == Cons(c, DecodeToWrap(m, lo + IntAt(m, lo)))
  {
  }

  lemma FirstIs(m: seq<byte>, hi: int, c: Block, rest: Option<seq<Block>>)
    requires START < hi <= |m| && DecodeSpan(m, START, hi).Some?
    ensures Cons(c, rest) == DecodeSpan(m, START, hi) <==> Begins(m, hi, c, rest)
  {
    var next := SpanUncons(m, START, hi);
    var b, lower := BlockAt(m, START, next), DecodeSpan(m, next, hi);
    assert |b.data| == IntAt(m, START) - MB_HEAD;
    assert b == c <==>
      next == START + MB_HEAD + |c.data| && IntAt(m, START + 4) == c.id && IntAt(m, START + 8) == c.typ && m[START + MB_HEAD..next] == c.data;
    hide DecodeSpan, BlockAt;
    if rest.Some? {
      SameCons(b, lower.value, c, rest.value);
    }
  }

  lemma SameToWrap(m: seq<byte>, m': seq<byte>, lo: int)
    requires 0 <= lo <= |m| == |m'| && SameOn(m, m', lo, |m|)
    ensures DecodeToWrap(m', lo) == DecodeToWrap(m, lo)
  {
    if DecodeToWrap(m, lo).Some? {
      ToWrapFrame(m, m', lo);
    }
    if DecodeToWrap(m', lo).Some? {
      ToWrapFrame(m', m, lo);
    }
  }

  lemma SameCons<T>(a: T, s: seq<T>, b: T, t: seq<T>)
    ensures [a] + s == [b] + t <==> a == b && s == t
  {
    if [a] + s == [b] + t {
      assert a == ([a] + s)[0] == b;
      assert s == ([a] + s)[1..] == t;
    }
  }

  /**
   Without the guard align_queue_head wraps over the unread blocks at the start of the area.
   The guard is exact, up to the harmless case that there are none and the freak one that they are spelt again.
  */
  lemma GuardExact(q: Area, r: Request)
    requires Valid(q) && Callable(r) && CheckMb(r) && r.typ != PAD_REQUEST
    ensures Refines(q, r) <==> Guard(q, r.length) || q.head == START || SpeltAgain(q)
  {
    assert InBounds(q);
    hide Refines, SpeltAgain, DecodeToWrap, AlignHead, Padded, Valid, Contents;
    if Guard(q, r.length) {
      RefinesUnderGuard(q, r);
    } else if q.head == START {
      RefinesAtStart(q, r);
    } else {
      var m' := AlignHead(q, r.length).m;
      PadWritten(q, r);
      UnguardedPush(q, r);
      LostExactly(q, m');
    }
  }

  lemma RefinesUnderGuard(q: Area, r: Request)
    requires Valid(q) && Callable(r) && CheckMb(r) && r.typ != PAD_REQUEST && Guard(q, r.length)
    ensures Refines(q, r)
  {
    PushRefines(q, r);
  }

  lemma RefinesAtStart(q: Area, r: Request)
    requires Valid(q) && Callable(r) && CheckMb(r) && r.typ != PAD_REQUEST && !Guard(q, r.length) && q.head == START
    ensures Refines(q, r)
  {
    PushAtStartRefuses(q, r);
  }

  lemma SpeltBehindPad(q: Area)
    requires InBounds(q) && SpeltAgain(q)
    ensures AtWrap(q.m, q.tail) && |q.m| - q.tail >= MB_HEAD && q.tail - q.head < 4
  {
  }

  lemma LostExactly(q: Area, m': seq<byte>)
    requires Valid(q) && START < q.head < q.tail && Surplus(q) <= MAX_LENGTH && Padded(q, m')
    ensures DecodeToWrap(m', q.tail) == Some(Contents(q)) <==> SpeltAgain(q)
  {
    assert InBounds(q);
    hide *;
    if SpeltAgain(q) {
      SpeltBehindPad(q);
    }
    if AtWrap(q.m, q.tail) && |q.m| - q.tail >= MB_HEAD && q.tail - q.head < 4 {
      SpeltAgainExact(q, m');
    } else {
      LowerBlocksUnread(q, m');
    }
  }

  lemma LowerBlocksLost(q: Area, r: Request)
    requires Valid(q) && Callable(r) && CheckMb(r) && r.typ != PAD_REQUEST
    requires !Guard(q, r.length) && q.head != START
    requires q.tail - q.head >= MB_HEAD || Surplus(q) < MB_HEAD
    ensures Valid(PushArea(q, r).0)
    ensures |Contents(PushArea(q, r).0)| < |Contents(q)| + (if PushArea(q, r).1 then 1 else 0)
  {
    var q1 := AlignHead(q, r.length);
    ToWrapFrame(q.m, q1.m, q.tail);
    assert DecodeSpan(q1.m, START, START) == Some([]);
    assert Valid(q1) && Contents(q1) == DecodeToWrap(q.m, q.tail).value + [];
    SpanNonEmpty(q.m, START, q.head);
    if !Full(q1, r.length) {
      WriteAppends(q1, r, PushArea(q, r).0);
    }
  }

  // ---------- pop ----------

  lemma AlignTailKeeps(q: Area)
    requires Valid(q)
    ensures Valid(AlignTail(q)) && Contents(AlignTail(q)) == Contents(q)
    ensures AlignTail(q).tail == AlignTail(q).head <==> Contents(q) == []
    ensures AlignTail(q).tail > AlignTail(q).head ==> !AtWrap(q.m, q.tail)
  {
    if q.head < q.tail {
      if AtWrap(q.m, q.tail) {
        assert [] + Contents(AlignTail(q)) == Contents(AlignTail(q));
      }
    }
    if AlignTail(q).tail < AlignTail(q).head {
      SpanNonEmpty(q.m, AlignTail(q).tail, q.head);
    }
  }

  lemma TakeLinear(q: Area, next: int)
    requires Valid(q) && q.tail < q.head && q.tail < next <= q.head
    requires HeaderOk(q.m, q.tail, next) && next == q.tail + IntAt(q.m, q.tail) && DecodeSpan(q.m, next, q.head).Some?
    requires Contents(q) == [BlockAt(q.m, q.tail, next)] + DecodeSpan(q.m, next, q.head).value
    ensures Valid(q.(tail := next)) && Contents(q) == [BlockAt(q.m, q.tail, next)] + Contents(q.(tail := next))
    ensures HeaderOk(q.m, q.tail, |q.m|) && !Bug(q)
  {
  }

  lemma TakeWrapped(q: Area)
    requires Valid(q) && q.tail > q.head && !AtWrap(q.m, q.tail)
    ensures HeaderOk(q.m, q.tail, |q.m|) && !Bug(q)
    ensures var q' := q.(tail := q.tail + IntAt(q.m, q.tail));
      Valid(q') && Contents(q) == [BlockAt(q.m, q.tail, |q.m|)] + Contents(q')
  {
    var next := q.tail + IntAt(q.m, q.tail);
    var rest, lower := DecodeToWrap(q.m, next).value, DecodeSpan(q.m, START, q.head).value;
    var b := BlockAt(q.m, q.tail, |q.m|);
    assert DecodeToWrap(q.m, q.tail).value == [b] + rest;
    assert ([b] + rest) + lower == [b] + (rest + lower);
  }

  ghost predicate TakesFirst(q: Area, q': Area, b: Block) {
    Valid(q) && Valid(q') && Contents(q) == [b] + Contents(q')
  }

  lemma TakeAligned(q: Area)
    requires Valid(q) && q.tail != q.head && (q.tail > q.head ==> !AtWrap(q.m, q.tail))
    ensures HeaderOk(q.m, q.tail, |q.m|) && !Bug(q)
    ensures TakesFirst(q, q.(tail := q.tail + IntAt(q.m, q.tail)), BlockAt(q.m, q.tail, |q.m|))
  {
    if q.tail < q.head {
      TakeUnwrapped(q);
    } else {
      TakeWrapped(q);
    }
    hide Valid, Contents, HeaderOk;
  }

  lemma TakeUnwrapped(q: Area)
    requires Valid(q) && q.tail < q.head
    ensures HeaderOk(q.m, q.tail, |q.m|) && !Bug(q)
    ensures var q' := q.(tail := q.tail + IntAt(q.m, q.tail));
      Valid(q') && Contents(q) == [BlockAt(q.m, q.tail, |q.m|)] + Contents(q')
  {
    var next := SpanUncons(q.m, q.tail, q.head);
    hide DecodeSpan;
    TakeLinear(q, next);
  }

  /** A pop takes the oldest block, reports an empty queue exactly when there is none, and never exits. */
  lemma PopRefines(q: Area)
    requires Valid(q)
    ensures Valid(PopArea(q).0)
    ensures Contents(q) == [] ==> PopArea(q).1 == Empty && Contents(PopArea(q).0) == []
    ensures Contents(q) != [] ==> PopArea(q).1.Got? && Contents(q) == [PopArea(q).1.block] + Contents(PopArea(q).0)
    ensures Contents(q) != [] ==> PopArea(q).0.tail == AlignTail(q).tail + MB_HEAD + |PopArea(q).1.block.data|
  {
    AlignTailKeeps(q);
    var q1 := AlignTail(q);
    if Contents(q) != [] {
      TakeAligned(q1);
      assert TakesFirst(q1, PopArea(q).0, PopArea(q).1.block);
    }
  }

  /** On any area at all: pop gives a block exactly when one with a possible header lies wholly in the part it reads, and exits otherwise. */
  lemma GivesOnlyWhatIsThere(q: Area)
    requires InBounds(q)
    ensures var t, end := AlignTail(q).tail, if AlignTail(q).tail < q.head then q.head else |q.m|;
      && (PopArea(q).1.Empty? <==> t == q.head)
      && (PopArea(q).1.Got? <==>
            t != q.head && t + 12 <= |q.m| && 12 <= IntAt(q.m, t) <= 40972 && t + IntAt(q.m, t) <= end && IntAt(q.m, t + 8) >= 0)
      && (PopArea(q).1.Got? ==> PopArea(q).0.tail == t + IntAt(q.m, t) && |PopArea(q).1.block.data| == IntAt(q.m, t) - 12)
  {
  }

  /** check_mb lets in what pop's own check lets out: the test on the caller's block is the test on its bytes in memory. */
  lemma ChecksAgree(r: Request)
    requires LengthOk(r.length) && IsInt32(r.id) && IsInt32(r.typ) && |r.data| == r.length - MB_HEAD
    ensures CheckMb(r) <==> HeaderOk(Layout(r.length, r.id, r.typ, r.data), 0, r.length)
  {
    var l := Layout(r.length, r.id, r.typ, r.data);
    assert l[0..MB_HEAD + |r.data|] == l;
    LayoutFields(l, 0, r.length, r.id, r.typ, r.data);
  }

  /** A guarded push succeeds for every length from 12 to 40972 and type from 0 that there is room for, and for no other. */
  lemma AcceptsExactly(q: Area, r: Request)
    requires Valid(q) && Callable(r) && r.typ != PAD_REQUEST && (q.head >= q.tail || |q.m| - q.head >= r.length)
    ensures PushArea(q, r).1 <==>
      && 12 <= r.length <= 40972 && r.typ >= 0
      && if q.tail <= q.head then |q.m| - q.head >= r.length || q.tail - 8 > r.length else q.tail - q.head > r.length
  {
    PushRefines(q, r);
  }

  /** A queue that was never used takes any such block that the area can hold, and the next pop returns it. */
  lemma FirstComesBack(q: Area, r: Request)
    requires InBounds(q) && q.tail == q.head == START && Callable(r) && r.typ != PAD_REQUEST
    requires 12 <= r.length <= 40972 && r.typ >= 0 && 8 + r.length <= |q.m|
    ensures PushArea(q, r).1 && PopArea(PushArea(q, r).0).1 == Got(Block(r.id, r.typ, r.data))
    ensures Contents(PopArea(PushArea(q, r).0).0) == []
  {
    assert Decode(q) == Some([]);
    AcceptsExactly(q, r);
    PushRefines(q, r);
    var q' := PushArea(q, r).0;
    hide *;
    assert Contents(q') == [NewBlock(r)];
    PopRefines(q');
    OneLeft(NewBlock(r), PopArea(q').1.block, Contents(PopArea(q').0));
  }

  lemma OneLeft<T>(a: T, b: T, rest: seq<T>)
    requires [a] == [b] + rest
    ensures a == b && rest == []
  {
    assert |[b] + rest| == 1;
    assert a == ([b] + rest)[0];
  }

  // ---------- whole runs ----------

  datatype Op = DoPush(request: Request) | DoPop

  function Step(q: Area, op: Op): (q': Area)
    requires InBounds(q) && (op.DoPush? ==> Callable(op.request))
    ensures InBounds(q')
  {
    match op
    case DoPush(r) => PushArea(q, r).0
    case DoPop => PopArea(q).0
  }

  /** Every push of the run is callable, carries no pad block and meets the guard where it happens. */
  ghost predicate Guarded(q: Area, ops: seq<Op>)
    requires InBounds(q)
    decreases ops
  {
    ops == [] ||
    (&& (ops[0].DoPush? ==> Callable(ops[0].request) && ops[0].request.typ != PAD_REQUEST && Guard(q, ops[0].request.length))
     && Guarded(Step(q, ops[0]), ops[1..]))
  }

  ghost function RunOps(q: Area, ops: seq<Op>): (q': Area)
    requires InBounds(q) && Guarded(q, ops)
    ensures InBounds(q')
    decreases ops
  {
    if ops == [] then q else RunOps(Step(q, ops[0]), ops[1..])
  }

  /** The blocks whose pushes succeeded. */
  ghost function Accepted(q: Area, ops: seq<Op>): seq<Block>
    requires InBounds(q) && Guarded(q, ops)
    decreases ops
  {
    if ops == [] then []
    else
      (if ops[0].DoPush? && PushArea(q, ops[0].request).1 then [NewBlock(ops[0].request)] else [])
      + Accepted(Step(q, ops[0]), ops[1..])
  }

  /** The blocks the pops returned. */
  ghost function Delivered(q: Area, ops: seq<Op>): seq<Block>
    requires InBounds(q) && Guarded(q, ops)
    decreases ops
  {
    if ops == [] then []
    else
      (if ops[0].DoPop? && PopArea(q).1.Got? then [PopArea(q).1.block] else [])
      + Delivered(Step(q, ops[0]), ops[1..])
  }

  lemma Glue<T>(c: seq<T>, c1: seq<T>, c2: seq<T>, i: seq<T>, o: seq<T>, ins: seq<T>, outs: seq<T>)
    requires c + i == o + c1 && c1 + ins == outs + c2
    ensures c + (i + ins) == (o + outs) + c2
  {
    assert c + (i + ins) == (c + i) + ins;
    assert (o + c1) + ins == o + (c1 + ins);
    assert o + (outs + c2) == (o + outs) + c2;
  }

  /** First in, first out over every guarded run: what came in is what went out and what is still there, in order. */
  lemma {:induction false} FifoOverRuns(q: Area, ops: seq<Op>)
    requires Valid(q) && Guarded(q, ops)
    ensures Valid(RunOps(q, ops))
    ensures Contents(q) + Accepted(q, ops) == Delivered(q, ops) + Contents(RunOps(q, ops))
    decreases ops
  {
    if ops == [] {
      assert Contents(q) + [] == [] + Contents(q);
    } else {
      var q1 := Step(q, ops[0]);
      var i := if ops[0].DoPush? && PushArea(q, ops[0].request).1 then [NewBlock(ops[0].request)] else [];
      var o := if ops[0].DoPop? && PopArea(q).1.Got? then [PopArea(q).1.block] else [];
      assert Valid(q1) && Contents(q) + i == o + Contents(q1) by {
        StepFifo(q, ops[0], i, o);
      }
      FifoOverRuns(q1, ops[1..]);
      Glue(Contents(q), Contents(q1), Contents(RunOps(q1, ops[1..])), i, o, Accepted(q1, ops[1..]), Delivered(q1, ops[1..]));
    }
  }

  lemma StepFifo(q: Area, op: Op, i: seq<Block>, o: seq<Block>)
    requires Valid(q)
    requires op.DoPush? ==> Callable(op.request) && op.request.typ != PAD_REQUEST && Guard(q, op.request.length)
    requires i == if op.DoPush? && PushArea(q, op.request).1 then [NewBlock(op.request)] else []
    requires o == if op.DoPop? && PopArea(q).1.Got? then [PopArea(q).1.block] else []
    ensures Valid(Step(q, op)) && Contents(q) + i == o + Contents(Step(q, op))
  {
    match op
    case DoPush(r) =>
      PushRefines(q, r);
      assert Contents(q) + [] == Contents(q);
      assert [] + Contents(PushArea(q, r).0) == Contents(PushArea(q, r).0);
    case DoPop =>
      PopRefines(q);
      assert Contents(q) + [] == Contents(q);
      assert [] + Contents(PopArea(q).0) == Contents(PopArea(q).0);
  }

  function Fresh(length: nat): Area
    requires length >= START
  {
    Area(seq(length, _ => 0), START, START)
  }

  function Zeros(length: nat): Request
    requires LengthOk(length)
  {
    Request(length, 0, 0, seq(length - MB_HEAD, _ => 0))
  }

  function Zero(n: nat): Block
    requires LengthOk(n)
  {
    NewBlock(Zeros(n))
  }

  ghost predicate At(q: Area, tail: int, head: int, bs: seq<Block>) {
    |q.m| == 60 && q.tail == tail && q.head == head && Valid(q) && Contents(q) == bs
  }

  /** One guarded operation leads from q to q'. */
  ghost predicate Leads(q: Area, op: Op, q': Area) {
    && InBounds(q)
    && (op.DoPush? ==> Callable(op.request) && op.request.typ != PAD_REQUEST && Guard(q, op.request.length))
    && Step(q, op) == q'
  }

  lemma RunCons(q: Area, op: Op, q': Area, ops: seq<Op>, end: Area)
    requires Leads(q, op, q') && InBounds(q') && Guarded(q', ops) && RunOps(q', ops) == end
    ensures Guarded(q, [op] + ops) && RunOps(q, [op] + ops) == end
  {
    assert ([op] + ops)[1..] == ops;
  }

  lemma PushTo(q: Area, n: int, tail: int, head: int, bs: seq<Block>, head': int) returns (q': Area)
    requires At(q, tail, head, bs) && LengthOk(n) && START <= tail <= head && (60 - head >= n || tail - START > n)
    requires head' == if 60 - head >= n then head + n else START + n
    ensures Leads(q, DoPush(Zeros(n)), q') && At(q', tail, head', bs + [Zero(n)])
  {
    PushRefines(q, Zeros(n));
    q' := PushArea(q, Zeros(n)).0;
  }

  lemma PopTo(q: Area, tail: int, head: int, b: Block, bs: seq<Block>) returns (q': Area)
    requires At(q, tail, head, [b] + bs) && (head < tail ==> !AtWrap(q.m, q.tail))
    ensures Leads(q, DoPop, q') && At(q', tail + MB_HEAD + |b.data|, head, bs)
  {
    PopRefines(q);
    q' := PopArea(q).0;
    assert PopArea(q).1.block == ([b] + bs)[0];
    assert Contents(q') == ([b] + bs)[1..];
  }

  lemma TwoBlocks() returns (q1: Area, q2: Area)
    ensures Leads(Fresh(60), DoPush(Zeros(20)), q1) && Leads(q1, DoPush(Zeros(20)), q2)
    ensures At(q2, 8, 48, [Zero(20)] + [Zero(20)])
  {
    assert At(Fresh(60), 8, 8, []);
    hide *;
    q1 := PushTo(Fresh(60), 20, 8, 8, [], 28);
    assert [] + [Zero(20)] == [Zero(20)];
    q2 := PushTo(q1, 20, 8, 28, [Zero(20)], 48);
  }

  lemma RunToBadState() returns (ops: seq<Op>, q5: Area)
    ensures Guarded(Fresh(60), ops) && RunOps(Fresh(60), ops) == q5
    ensures At(q5, 48, 21, [Zero(13)])
  {
    var a, c := Zero(20), Zero(13);
    assert |a.data| == 8 && |c.data| == 1;
    hide *;
    var q1, q2 := TwoBlocks();
    var q3 := PopTo(q2, 8, 48, a, [a]);
    var q4 := PushTo(q3, 13, 28, 48, [a], 21);
    NotYetAtWrap(q4, a, c);
    q5 := PopTo(q4, 28, 21, a, [c]);
    ops := FiveSteps(Fresh(60), DoPush(Zeros(20)), q1, DoPush(Zeros(20)), q2, DoPop, q3, DoPush(Zeros(13)), q4, DoPop, q5);
  }

  lemma FiveSteps(q0: Area, a: Op, q1: Area, b: Op, q2: Area, c: Op, q3: Area, d: Op, q4: Area, e: Op, q5: Area)
    returns (ops: seq<Op>)
    requires Leads(q0, a, q1) && Leads(q1, b, q2) && Leads(q2, c, q3) && Leads(q3, d, q4) && Leads(q4, e, q5)
    ensures InBounds(q0) && Guarded(q0, ops) && RunOps(q0, ops) == q5
  {
    hide Step;
    assert InBounds(q5);
    ops := [];
    RunCons(q4, e, q5, ops, q5);
    ops := [e] + ops;
    RunCons(q3, d, q4, ops, q5);
    ops := [d] + ops;
    RunCons(q2, c, q3, ops, q5);
    ops := [c] + ops;
    RunCons(q1, b, q2, ops, q5);
    ops := [b] + ops;
    RunCons(q0, a, q1, ops, q5);
    ops := [a] + ops;
  }

  function FreakBytes(): seq<byte> {
    seq(3092, i => if i == 8 then 12 else if i in {15, 29, 41} then 7 else 0)
  }

  /** The exception of `GuardExact` is inhabited: 3092 bytes in which an unguarded wrap harms nothing. */
  lemma SpeltAgainOccurs() returns (q: Area)
    ensures Valid(q) && q.head != START && SpeltAgain(q)
    ensures !Guard(q, Zeros(3073).length) && Callable(Zeros(3073)) && Refines(q, Zeros(3073))
  {
    var m := FreakBytes();
    q := Area(m, 21, 20);
    FreakHeaders(m);
    FreakDecodes(m);
    LargeRequest(3073);
    hide *;
    GuardExact(q, Zeros(3073));
  }

  lemma LargeRequest(n: int)
    requires LengthOk(n)
    ensures CheckMb(Zeros(n)) && Callable(Zeros(n)) && Zeros(n).typ == 0
  {
  }

  lemma FreakDecodes(m: seq<byte>)
    requires |m| == 3092 && IntAt(m, 8) == 12 && IntAt(m, 12) == 0x700_0000 && IntAt(m, 16) == 0
    requires IntAt(m, 29) == 7 && IntAt(m, 41) == 7
    ensures Valid(Area(m, 21, 20)) && SpeltAgain(Area(m, 21, 20))
  {
    assert DecodeSpan(m, 20, 20) == Some([]) == DecodeToWrap(m, 33);
    SpanCons(m, START, 20, 20);
    assert m[20..20] == [] == m[33..33];
  }

  lemma FreakHeaders(m: seq<byte>)
    requires m == FreakBytes()
    ensures IntAt(m, 8) == 12 && IntAt(m, 12) == 0x700_0000 && IntAt(m, 16) == 0
    ensures IntAt(m, 29) == 7 && IntAt(m, 41) == 7
  {
    assert m[8..12] == [12, 0, 0, 0] && m[12..16] == [0, 0, 0, 7] && m[16..20] == [0, 0, 0, 0];
    assert m[29..33] == [7, 0, 0, 0] && m[41..45] == [7, 0, 0, 0];
    hide FreakBytes;
    IntIs(m, 8, 12, 0, 0, 0);
    IntIs(m, 12, 0, 0, 0, 7);
    IntIs(m, 16, 0, 0, 0, 0);
    IntIs(m, 29, 7, 0, 0, 0);
    IntIs(m, 41, 7, 0, 0, 0);
  }

  /**
   An ordinary run reaches the bad case: in a 60-byte area, after two blocks are pushed, one is
   popped, a third is pushed across the wrap and the second is popped, a 40-byte push destroys the third.
  */
  lemma UnguardedPushIsReachable() returns (ops: seq<Op>)
    ensures Guarded(Fresh(60), ops) && At(RunOps(Fresh(60), ops), 48, 21, [Zero(13)])
    ensures Callable(Zeros(40)) && !PushArea(RunOps(Fresh(60), ops), Zeros(40)).1
    ensures Valid(PushArea(RunOps(Fresh(60), ops), Zeros(40)).0)
    ensures Contents(PushArea(RunOps(Fresh(60), ops), Zeros(40)).0) == []
  {
    var q;
    ops, q := RunToBadState();
    LowerBlocksLost(q, Zeros(40));
  }

  lemma NotYetAtWrap(q: Area, a: Block, c: Block)
    requires At(q, 28, 21, [a] + [c]) && |c.data| == 1
    ensures !AtWrap(q.m, q.tail)
  {
    if AtWrap(q.m, q.tail) {
      var lower := DecodeSpan(q.m, START, 21).value;
      assert [] + lower == lower;
      var next := SpanUncons(q.m, START, 21);
      SpanNonEmpty(q.m, next, 21);
      var last := SpanUncons(q.m, next, 21);
      assert false;
    }
  }

  // ---------- the queue object ----------

  class ShmQueue {
    const area: array<byte>
    var tail: int
    var head: int

    function View(): Area
      reads this, area
    {
      Area(area[..], tail, head)
    }

    ghost predicate WellFormed()
      reads this, area
    {
      Valid(View())
    }

    ghost function Blocks(): seq<Block>
      requires WellFormed()
      reads this, area
    {
      Contents(View())
    }

    /** create, on fresh zeroed pages. */
    constructor (length: nat)
      requires length >= START
      ensures fresh(area) && area.Length == length && WellFormed() && Blocks() == []
    {
      area := new byte[length](_ => 0);
      head := START;
      tail := START;
    }

    method GetInt(p: int) returns (x: int)
      requires 0 <= p && p + 4 <= area.Length
      ensures x == IntAt(area[..], p)
    {
      assert area[..][p..p + 4] == area[p..p + 4];
      x := ToSigned(GetLittle(area[p..p + 4]), TWO_32);
    }

    method AlignQueueHead(length: int) returns (code: int)
      requires InBounds(View()) && LengthOk(length)
      modifies this, area
      ensures code == if CannotWrap(old(View()), length) then -1 else 0
      ensures View() == if code == -1 then old(View()) else AlignHead(old(View()), length)
    {
      hide Layout;
      var surplus := area.Length - head;
      if surplus < length && tail == START {
        return -1;
      }
      if surplus < MB_HEAD {
        head := START;
        return 0;
      }
      if surplus < length {
        CopyInto(area, head, Layout(surplus, 0, PAD_REQUEST, []));
        head := START;
      }
      code := 0;
    }

    method TryPushWait(length: int) returns (code: int)
      requires InBounds(View()) && LengthOk(length)
      modifies this, area
      ensures (View(), code == 0) == PushWait(old(View()), length)
    {
      code := AlignQueueHead(length);
      if code == -1 {
        return -1;
      }
      if 0 < tail - head < length + 1 {
        return -1;
      }
      code := AlignQueueHead(length);
      if code == -1 {
        return -1;
      }
      if 0 < tail - head < length + 1 {
        return -1;
      }
    }

    /** push (mb, locked, false): one atomic step under the semaphore. */
    method Push(r: Request) returns (code: int)
      requires InBounds(View()) && Callable(r)
      modifies this, area
      ensures (View(), code == 0) == PushArea(old(View()), r)
      ensures old(WellFormed()) && r.typ != PAD_REQUEST && Guard(old(View()), r.length) ==>
        && WellFormed()
        && (code == 0 <==> CheckMb(r) && Fits(old(View()), r.length))
        && Blocks() == if code == 0 then old(Blocks()) + [NewBlock(r)] else old(Blocks())
    {
      hide PushArea, Decode, InBounds, Placed, CheckMb, Guard, Fits, NewBlock, Callable;
      ghost var q := View();
      code := PutBlock(r);
      if Valid(q) && r.typ != PAD_REQUEST && Guard(q, r.length) {
        PushRefines(q, r);
      }
    }

    /** The checks and copies of push. */
    method PutBlock(r: Request) returns (code: int)
      requires InBounds(View()) && Callable(r)
      modifies this, area
      ensures (View(), code == 0) == PushArea(old(View()), r)
    {
      if !(MB_HEAD <= r.length <= MAX_LENGTH && r.typ >= 0) {
        code := -1;
      } else {
        code := TryPushWait(r.length);
        if code == 0 {
          CopyInto(area, head, Layout(r.length, r.id, r.typ, r.data));
          head := head + r.length;
        }
      }
    }

    method AlignQueueTail()
      requires InBounds(View())
      modifies this
      ensures View() == AlignTail(old(View()))
    {
      var atWrap := area.Length - tail < MB_HEAD;
      if !atWrap {
        var typ := GetInt(tail + 8);
        atWrap := typ == PAD_REQUEST;
      }
      if atWrap && head < tail {
        tail := START;
      }
    }

    method ReadBlock() returns (result: Popped)
      requires InBounds(View())
      modifies this
      ensures (View(), result) == TakeBlock(old(View()))
    {
      if tail == head {
        return Empty;
      }
      if area.Length - tail < MB_HEAD {
        return Corrupt;
      }
      var length := GetInt(tail);
      var typ := GetInt(tail + 8);
      if !(MB_HEAD <= length <= MAX_LENGTH && typ >= 0) {
        return Corrupt;
      }
      if tail < head && tail + length > head {
        return Corrupt;
      }
      if tail > head && tail + length > area.Length {
        return Corrupt;
      }
      var id := GetInt(tail + 4);
      assert area[..][tail + MB_HEAD..tail + length] == area[tail + MB_HEAD..tail + length];
      result := Got(Block(id, typ, area[tail + MB_HEAD..tail + length]));
      tail := tail + length;
    }

    /** pop (mb, locked, false): one atomic step under the semaphore. */
    method Pop() returns (result: Popped)
      requires WellFormed()
      modifies this
      ensures (View(), result) == PopArea(old(View()))
      ensures WellFormed() && !result.Corrupt?
      ensures old(Blocks()) == (if result.Got? then [result.block] else []) + Blocks()
      ensures result.Empty? <==> old(Blocks()) == []
    {
      PopRefines(View());
      AlignQueueTail();
      result := ReadBlock();
    }
  }
}
