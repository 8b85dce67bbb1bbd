/**
 The output side of a connection in c_base_20140528/ais.c: buffers are planned into the
 scatter/gather entries of a list of messages and then sent message by message, however few
 bytes the kernel takes each time.
*/
module OutputModel {
  import opened Bytes

  const UDP_MAX_PAYLOAD_SIZE := 1400
  const UDP_HEADER_SIZE := 8
  const IOV_MAX := 1024
  const IOV_LIST_INITIAL := 400
  const MSG_LIST_INITIAL := 10

  /** An iovec: the bytes it still describes, or the room for a UDP header that is filled in later. */
  datatype Iovec = Data(bytes: seq<byte>) | Header {
    function Len(): nat { if Data? then |bytes| else UDP_HEADER_SIZE }
  }

  /** A msghdr: where its entries start in the iovec array, and how many there are. */
  datatype Msg = Msg(start: nat, iovlen: nat)

  /** The payload of a list of entries. */
  function Flat(vs: seq<Iovec>): seq<byte> {
    if vs == [] then [] else (if vs[0].Data? then vs[0].bytes else []) + Flat(vs[1..])
  }

  function TotalLen(vs: seq<Iovec>): nat {
    if vs == [] then 0 else vs[0].Len() + TotalLen(vs[1..])
  }

  function SumLens(ms: seq<Msg>): nat {
    if ms == [] then 0 else SumLens(ms[..|ms| - 1]) + ms[|ms| - 1].iovlen
  }

  lemma {:induction false} FlatSnoc(vs: seq<Iovec>, v: Iovec)
    ensures Flat(vs + [v]) == Flat(vs) + (if v.Data? then v.bytes else [])
    ensures TotalLen(vs + [v]) == TotalLen(vs) + v.Len()
    decreases vs
  {
    if vs == [] {
      assert [] + [v] == [v];
      assert Flat([v][1..]) == [] && TotalLen([v][1..]) == 0;
    } else {
      assert (vs + [v])[1..] == vs[1..] + [v];
      FlatSnoc(vs[1..], v);
    }
  }

  lemma {:induction false} FlatSplit(vs: seq<Iovec>, ws: seq<Iovec>)
    ensures Flat(vs + ws) == Flat(vs) + Flat(ws)
    ensures TotalLen(vs + ws) == TotalLen(vs) + TotalLen(ws)
    decreases vs
  {
    if vs == [] {
      assert [] + ws == ws;
    } else {
      assert (vs + ws)[1..] == vs[1..] + ws;
      FlatSplit(vs[1..], ws);
    }
  }

  lemma {:induction false} FlatLen(vs: seq<Iovec>)
    requires forall i :: 0 <= i < |vs| ==> vs[i].Data?
    ensures |Flat(vs)| == TotalLen(vs)
    decreases vs
  {
    if vs != [] {
      FlatLen(vs[1..]);
    }
  }

  function Concat(bufs: seq<seq<byte>>): seq<byte> {
    if bufs == [] then [] else Concat(bufs[..|bufs| - 1]) + bufs[|bufs| - 1]
  }

  // ---------- the plan ----------

  /** The entries of message i. */
  function Entries(vs: seq<Iovec>, m: Msg): seq<Iovec>
    requires m.start + m.iovlen <= |vs|
  {
    vs[m.start..m.start + m.iovlen]
  }

  /** From message k on, every message starts where the one before it ends, and the last ends at `used`. */
  ghost predicate Tiled(ms: seq<Msg>, k: nat, used: nat) {
    && k <= |ms|
    && (forall i :: k <= i < |ms| - 1 ==> ms[i + 1].start == ms[i].start + ms[i].iovlen)
    && (k < |ms| ==> ms[|ms| - 1].start + ms[|ms| - 1].iovlen == used)
  }

  lemma {:induction false} TiledBound(ms: seq<Msg>, k: nat, used: nat, i: nat)
    requires Tiled(ms, k, used) && k <= i < |ms|
    ensures ms[i].start + ms[i].iovlen <= used
    decreases |ms| - i
  {
    if i < |ms| - 1 {
      TiledBound(ms, k, used, i + 1);
    }
  }

  lemma {:induction false} TiledStart(ms: seq<Msg>, used: nat, i: nat)
    requires Tiled(ms, 0, used) && i < |ms| && ms[0].start == 0
    ensures ms[i].start == SumLens(ms[..i])
    decreases i
  {
    if i > 0 {
      TiledStart(ms, used, i - 1);
      assert ms[..i][..i - 1] == ms[..i - 1];
    }
  }

  /** A UDP message opens with the room for its header; all other entries are data. */
  ghost predicate Framed(vs: seq<Iovec>, m: Msg, udp: bool)
    requires m.start + m.iovlen <= |vs|
  {
    forall j :: m.start <= j < m.start + m.iovlen ==> (vs[j].Header? <==> udp && j == m.start)
  }

  /** No message holds too many entries or, where a limit applies, too many bytes. */
  ghost predicate Bounded(vs: seq<Iovec>, ms: seq<Msg>, udp: bool) {
    forall i :: 0 <= i < |ms| ==>
      && ms[i].start + ms[i].iovlen <= |vs| && ms[i].iovlen <= IOV_MAX
      && (udp || i == 0 ==> TotalLen(Entries(vs, ms[i])) <= UDP_MAX_PAYLOAD_SIZE)
      && Framed(vs, ms[i], udp)
  }

  /**
   A plan under construction: messages tile the entries, within bounds; only the last can be empty;
   msgbytes measures the last message.
  */
  ghost predicate PlanOk(vs: seq<Iovec>, ms: seq<Msg>, msgbytes: nat, udp: bool) {
    && (forall i :: 0 <= i < |ms| - 1 ==> ms[i].iovlen > 0)
    && |ms| > 0 && ms[0].start == 0 && Tiled(ms, 0, |vs|) && Bounded(vs, ms, udp)
    && msgbytes == TotalLen(Entries(vs, ms[|ms| - 1]))
  }

  /** The next message starts behind all entries. */
  lemma PlanMessage(vs: seq<Iovec>, ms: seq<Msg>, msgbytes: nat, udp: bool)
    requires PlanOk(vs, ms, msgbytes, udp) && ms[|ms| - 1].iovlen > 0
    ensures PlanOk(vs, ms + [Msg(|vs|, 0)], 0, udp)
  {
    assert Entries(vs, Msg(|vs|, 0)) == [];
    var ms' := ms + [Msg(|vs|, 0)];
    forall i | 0 <= i < |ms'|
      ensures ms'[i].start + ms'[i].iovlen <= |vs| && ms'[i].iovlen <= IOV_MAX
      ensures udp || i == 0 ==> TotalLen(Entries(vs, ms'[i])) <= UDP_MAX_PAYLOAD_SIZE
      ensures Framed(vs, ms'[i], udp)
    {
      assert i < |ms| ==> ms'[i] == ms[i];
    }
  }

  lemma PlanFirst(udp: bool)
    ensures PlanOk([], [Msg(0, 0)], 0, udp)
  {
    assert Entries([], Msg(0, 0)) == [];
  }

  function Extend(m: Msg): Msg { Msg(m.start, m.iovlen + 1) }

  lemma MessageKeeps(vs: seq<Iovec>, m: Msg, udp: bool, v: Iovec)
    requires m.start + m.iovlen <= |vs| && Framed(vs, m, udp)
    ensures Entries(vs + [v], m) == Entries(vs, m) && Framed(vs + [v], m, udp)
  {
    assert Entries(vs + [v], m) == Entries(vs, m);
  }

  lemma MessageGrows(vs: seq<Iovec>, m: Msg, udp: bool, v: Iovec)
    requires m.start + m.iovlen == |vs| && Framed(vs, m, udp)
    requires v.Header? <==> udp && m.iovlen == 0
    ensures Framed(vs + [v], Extend(m), udp)
    ensures TotalLen(Entries(vs + [v], Extend(m))) == TotalLen(Entries(vs, m)) + v.Len()
  {
    assert Entries(vs + [v], Extend(m)) == Entries(vs, m) + [v];
    FlatSnoc(Entries(vs, m), v);
  }

  lemma TiledGrows(ms: seq<Msg>, used: nat)
    requires Tiled(ms, 0, used) && |ms| > 0
    ensures ms[|ms| - 1].start + ms[|ms| - 1].iovlen == used
    ensures Tiled(ms[|ms| - 1 := Extend(ms[|ms| - 1])], 0, used + 1)
  {
  }

  /** One more entry, for the last message, which must have room for it. */
  lemma PlanEntry(vs: seq<Iovec>, ms: seq<Msg>, msgbytes: nat, udp: bool, v: Iovec)
    requires PlanOk(vs, ms, msgbytes, udp) && ms[|ms| - 1].iovlen < IOV_MAX
    requires udp || |ms| == 1 ==> msgbytes + v.Len() <= UDP_MAX_PAYLOAD_SIZE
    requires v.Header? <==> udp && ms[|ms| - 1].iovlen == 0
    ensures PlanOk(vs + [v], ms[|ms| - 1 := Extend(ms[|ms| - 1])], msgbytes + v.Len(), udp)
    ensures Flat(vs + [v]) == Flat(vs) + (if v.Data? then v.bytes else [])
  {
    FlatSnoc(vs, v);
    var last, vs' := ms[|ms| - 1], vs + [v];
    TiledGrows(ms, |vs|);
    hide Tiled, TotalLen, Flat, Framed, Entries;
    MessageGrows(vs, last, udp, v);
    var ms' := ms[|ms| - 1 := Extend(last)];
    forall i | 0 <= i < |ms'|
      ensures ms'[i].start + ms'[i].iovlen <= |vs'| && ms'[i].iovlen <= IOV_MAX
      ensures udp || i == 0 ==> TotalLen(Entries(vs', ms'[i])) <= UDP_MAX_PAYLOAD_SIZE
      ensures Framed(vs', ms'[i], udp)
    {
      if i < |ms| - 1 {
        MessageKeeps(vs, ms[i], udp, v);
      }
    }
  }

  /** From entry k on no data entry is empty. */
  ghost predicate Dense(vs: seq<Iovec>, k: nat) {
    forall j :: k <= j < |vs| ==> vs[j] != Data([])
  }

  lemma DenseSnoc(vs: seq<Iovec>, v: Iovec)
    ensures Dense(vs, 0) && v != Data([]) ==> Dense(vs + [v], 0)
  {
  }

  /** The same messages, wherever they start. */
  ghost predicate SameLengths(a: seq<Msg>, ms: seq<Msg>) {
    |a| >= |ms| && forall i :: 0 <= i < |ms| ==> a[i].iovlen == ms[i].iovlen
  }

  /** realloc has moved the entries: what the messages point to is gone, and only their lengths are left. */
  method LoseStarts(msglist: array<Msg>, msgused: nat)
    requires msgused <= msglist.Length
    modifies msglist
    ensures SameLengths(msglist[..], old(msglist[..msgused]))
  {
    for i := 0 to msgused
      invariant forall k :: 0 <= k < msglist.Length ==> msglist[k].iovlen == old(msglist[k].iovlen)
    {
      msglist[i] := Msg(0, msglist[i].iovlen);
    }
  }

  /** Point all messages at the new array: where they start is computed from their lengths alone. */
  method Rebase(msglist: array<Msg>, msgused: nat, ghost ms: seq<Msg>, ghost used: nat)
    requires msgused == |ms| > 0 && SameLengths(msglist[..], ms) && Tiled(ms, 0, used) && ms[0].start == 0
    modifies msglist
    ensures msglist[..msgused] == ms
    ensures forall i :: 0 <= i < msgused ==> msglist[i].start == SumLens(ms[..i])
  {
    hide Tiled;
    forall i | 0 <= i < msgused ensures ms[i].start == SumLens(ms[..i]) {
      TiledStart(ms, used, i);
    }
    assert forall k :: 0 <= k < msgused ==> msglist[..][k].iovlen == ms[k].iovlen;
    hide SameLengths;
    var i, iovnum := 0, 0;
    while i < msgused
      invariant 0 <= i <= msgused && iovnum == SumLens(ms[..i])
      invariant forall k :: 0 <= k < i ==> msglist[k] == ms[k]
      invariant forall k :: i <= k < msgused ==> msglist[k].iovlen == ms[k].iovlen
    {
      msglist[i] := Msg(iovnum, msglist[i].iovlen);
      iovnum := iovnum + msglist[i].iovlen;
      assert ms[..i + 1][..i] == ms[..i];
      i := i + 1;
    }
  }

  // ---------- sending ----------

  /** What sendmsg answers: it accepts up to n bytes of the message, or fails. */
  datatype SendResult = Sent(n: nat) | WouldBlock | Failed

  datatype TransmitResult = Complete | Incomplete | SoftError | HardError

  /** From message k on the plan still stands; only whole or partial entries at its front are gone. */
  ghost predicate SendOk(vs: seq<Iovec>, ms: seq<Msg>, k: nat) {
    && Tiled(ms, k, |vs|)
    && (forall i :: k <= i < |ms| ==> ms[i].start <= |vs|)
    && (k < |ms| ==> forall j :: ms[k].start <= j < |vs| ==> vs[j].Data?)
  }

  /** The bytes not sent yet. */
  ghost function Unsent(vs: seq<Iovec>, ms: seq<Msg>, k: nat): seq<byte>
    requires SendOk(vs, ms, k)
  {
    if k < |ms| then Flat(vs[ms[k].start..]) else []
  }

  lemma FlatFrom(vs: seq<Iovec>, i: nat)
    requires i < |vs| && vs[i].Data?
    ensures Flat(vs[i..]) == vs[i].bytes + Flat(vs[i + 1..])
  {
    assert vs[i..][0] == vs[i] && vs[i..][1..] == vs[i + 1..];
  }

  lemma TotalFrom(vs: seq<Iovec>, m: Msg)
    requires m.start + m.iovlen <= |vs| && m.iovlen > 0
    ensures TotalLen(Entries(vs, m)) == vs[m.start].Len() + TotalLen(Entries(vs, Msg(m.start + 1, m.iovlen - 1)))
  {
    assert Entries(vs, m)[0] == vs[m.start];
    assert Entries(vs, m)[1..] == Entries(vs, Msg(m.start + 1, m.iovlen - 1));
  }

  lemma TotalNone(vs: seq<Iovec>, m: Msg)
    requires m.start + m.iovlen <= |vs|
    ensures m.iovlen == 0 ==> TotalLen(Entries(vs, m)) == 0
  {
  }

  /** A finished TCP plan is ready to be sent from its first message on. */
  lemma PlanIsSendable(vs: seq<Iovec>, ms: seq<Msg>, msgbytes: nat)
    requires PlanOk(vs, ms, msgbytes, false)
    ensures SendOk(vs, ms, 0) && Unsent(vs, ms, 0) == Flat(vs)
  {
    forall i | 0 <= i < |ms| ensures ms[i].start <= |vs| {
      TiledBound(ms, 0, |vs|, i);
    }
    forall j | 0 <= j < |vs| ensures vs[j].Data? {
      var i := MessageOf(ms, |vs|, j);
    }
    assert vs[0..] == vs;
  }

  /** The message an entry belongs to. */
  lemma {:induction false} MessageOf(ms: seq<Msg>, used: nat, j: nat) returns (i: nat)
    requires |ms| > 0 && ms[0].start == 0 && Tiled(ms, 0, used) && j < used
    ensures i < |ms| && ms[i].start <= j < ms[i].start + ms[i].iovlen
  {
    i := |ms| - 1;
    while j < ms[i].start
      invariant 0 <= i < |ms| && j < ms[i].start + ms[i].iovlen
      decreases i
    {
      i := i - 1;
      assert ms[i + 1].start == ms[i].start + ms[i].iovlen;
    }
  }

  lemma Advance(vs: seq<Iovec>, ms: seq<Msg>, k: nat, m: Msg)
    requires SendOk(vs, ms, k) && k < |ms| && ms[k].start <= m.start
    requires m.start + m.iovlen == ms[k].start + ms[k].iovlen <= |vs|
    ensures SendOk(vs, ms[k := m], k) && Unsent(vs, ms[k := m], k) == Flat(vs[m.start..])
  {
  }

  lemma Shorten(vs: seq<Iovec>, ms: seq<Msg>, k: nat, bytes: seq<byte>)
    requires SendOk(vs, ms, k) && k < |ms| && ms[k].start < |vs|
    ensures var vs' := vs[ms[k].start := Data(bytes)];
      SendOk(vs', ms, k) && Unsent(vs', ms, k) == bytes + Flat(vs[ms[k].start + 1..])
  {
    var i := ms[k].start;
    var vs' := vs[i := Data(bytes)];
    FlatFrom(vs', i);
    assert vs'[i + 1..] == vs[i + 1..];
  }

  lemma SendStep(vs: seq<Iovec>, ms: seq<Msg>, k: nat)
    requires SendOk(vs, ms, k) && k < |ms|
    ensures ms[k].start + ms[k].iovlen <= |vs|
    ensures forall j :: ms[k].start <= j < |vs| ==> vs[j].Data?
    ensures Unsent(vs, ms, k) == Flat(vs[ms[k].start..])
    ensures ms[k].iovlen == 0 ==> SendOk(vs, ms, k + 1) && Unsent(vs, ms, k + 1) == Unsent(vs, ms, k)
  {
    TiledBound(ms, k, |vs|, k);
    assert vs[|vs|..] == [];
  }

  /** How many bytes sendmsg is offered for message k, and how many of them an answer takes. */
  ghost function Offered(vs: seq<Iovec>, ms: seq<Msg>, k: nat): nat
    requires SendOk(vs, ms, k) && k < |ms|
  {
    SendStep(vs, ms, k);
    TotalLen(Entries(vs, ms[k]))
  }

  function Accepts(answer: SendResult, offered: nat): nat {
    if answer.Sent? then (if answer.n < offered then answer.n else offered) else 0
  }

  /** Sending from message k touches nothing behind it, and leaves its end where it was. */
  ghost predicate Later(vs: seq<Iovec>, ms: seq<Msg>, vs': seq<Iovec>, ms': seq<Msg>, k: nat) {
    && |vs'| == |vs| && k < |ms| == |ms'|
    && ms'[k].start + ms'[k].iovlen == ms[k].start + ms[k].iovlen
    && (forall i :: 0 <= i < |ms| && i != k ==> ms'[i] == ms[i])
    && (forall j :: ms[k].start + ms[k].iovlen <= j < |vs| ==> vs'[j] == vs[j])
  }

  /** Every call of sendmsg takes something. */
  predicate AllTake(answers: seq<(SendResult, bool)>) {
    forall i :: 0 <= i < |answers| ==> answers[i].0.Sent? && answers[i].0.n > 0
  }

  /** What is left of bytes that have been taken from the front. */
  ghost predicate Split(bytes: seq<byte>, left: seq<byte>) {
    |left| <= |bytes| && left == bytes[|bytes| - |left|..]
  }

  lemma SplitJoin(planned: seq<byte>, bytes: seq<byte>, k: nat)
    requires k <= |bytes|
    ensures (planned + bytes[..k]) + bytes[k..] == planned + bytes && Split(bytes, bytes[k..])
  {
  }

  // ---------- datagrams ----------

  /** The header of datagram k of n, as build_udp_headers lays it out. */
  function HeaderBytes(request: nat, k: nat, n: nat): (bs: seq<byte>)
    ensures |bs| == UDP_HEADER_SIZE
  {
    [request / 256 % 256, request % 256, k / 256 % 256, k % 256, n / 256 % 256, n % 256, 0, 0]
  }

  lemma TwoBytes(a: byte, b: byte)
    ensures GetBig([a, b]) == 256 * a + b
  {
    assert [a, b][..1] == [a] && [a][..0] == [];
    assert GetBig([a]) == a;
  }

  /** What a peer reads there, in network order: the request, the number of the datagram, and how many there are. */
  lemma HeaderSays(request: nat, k: nat, n: nat)
    requires request < 65536 && k < 65536 && n < 65536
    ensures var h := HeaderBytes(request, k, n);
      GetBig(h[0..2]) == request && GetBig(h[2..4]) == k && GetBig(h[4..6]) == n && GetBig(h[6..8]) == 0
  {
    var h := HeaderBytes(request, k, n);
    assert h[0..2] == [h[0], h[1]] && h[2..4] == [h[2], h[3]] && h[4..6] == [h[4], h[5]] && h[6..8] == [h[6], h[7]];
    TwoBytes(h[0], h[1]);
    TwoBytes(h[2], h[3]);
    TwoBytes(h[4], h[5]);
    TwoBytes(h[6], h[7]);
  }

  // ---------- the peer ----------

  function NumberOf(d: seq<byte>): nat { if |d| < UDP_HEADER_SIZE then 0 else GetBig(d[2..4]) }

  function CountOf(d: seq<byte>): nat { if |d| < UDP_HEADER_SIZE then 0 else GetBig(d[4..6]) }

  function PayloadOf(d: seq<byte>): seq<byte> { if |d| < UDP_HEADER_SIZE then [] else d[UDP_HEADER_SIZE..] }

  /** The payload of the first datagram with that number. */
  function Numbered(ds: seq<seq<byte>>, k: nat): seq<byte> {
    if ds == [] then [] else if NumberOf(ds[0]) == k then PayloadOf(ds[0]) else Numbered(ds[1..], k)
  }

  function InOrder(ds: seq<seq<byte>>, n: nat): seq<byte> {
    if n == 0 then [] else InOrder(ds, n - 1) + Numbered(ds, n - 1)
  }

  /** A peer that looks at the numbers only, whatever the order of arrival and however often a datagram comes. */
  function Reassemble(ds: seq<seq<byte>>): seq<byte> {
    if ds == [] then [] else InOrder(ds, CountOf(ds[0]))
  }

  lemma DatagramSays(request: nat, k: nat, n: nat, p: seq<byte>)
    requires request < 65536 && k < 65536 && n < 65536
    ensures var d := HeaderBytes(request, k, n) + p;
      |d| >= UDP_HEADER_SIZE && NumberOf(d) == k && CountOf(d) == n && PayloadOf(d) == p
  {
    var h := HeaderBytes(request, k, n);
    var d := h + p;
    HeaderSays(request, k, n);
    assert d[2..4] == h[2..4] && d[4..6] == h[4..6] && d[UDP_HEADER_SIZE..] == p;
  }

  /** What arrived are the datagrams of the payloads ps, in any order and any number, but each at least once. */
  ghost predicate Arrived(ds: seq<seq<byte>>, ps: seq<seq<byte>>, request: nat) {
    && (forall d :: d in ds ==> exists k :: 0 <= k < |ps| && d == HeaderBytes(request, k, |ps|) + ps[k])
    && (forall k :: 0 <= k < |ps| ==> HeaderBytes(request, k, |ps|) + ps[k] in ds)
  }

  /** Whatever the order in which these datagrams arrive, and however often, they give the text. */
  ghost predicate Reassembles(sent: seq<seq<byte>>, text: seq<byte>) {
    forall ds: seq<seq<byte>> :: (forall d :: d in ds <==> d in sent) ==> Reassemble(ds) == text
  }

  lemma AllSentReassembles(sent: seq<seq<byte>>, ps: seq<seq<byte>>, request: nat)
    requires request < 65536 && 0 < |ps| == |sent| < 65536
    requires forall k :: 0 <= k < |ps| ==> sent[k] == HeaderBytes(request, k, |ps|) + ps[k]
    ensures Reassembles(sent, Concat(ps))
  {
    hide HeaderBytes, Reassemble, Concat;
    forall ds: seq<seq<byte>> | forall d :: d in ds <==> d in sent ensures Reassemble(ds) == Concat(ps) {
      forall d | d in ds ensures exists k :: 0 <= k < |ps| && d == HeaderBytes(request, k, |ps|) + ps[k] {
        var k :| 0 <= k < |sent| && sent[k] == d;
      }
      forall k | 0 <= k < |ps| ensures HeaderBytes(request, k, |ps|) + ps[k] in ds {
        assert sent[k] in sent;
      }
      AnyOrderReassembles(ds, ps, request);
    }
  }

  lemma {:induction false} NumberedIs(ds: seq<seq<byte>>, d: seq<byte>)
    requires d in ds && forall e :: e in ds && NumberOf(e) == NumberOf(d) ==> e == d
    ensures Numbered(ds, NumberOf(d)) == PayloadOf(d)
    decreases ds
  {
    if NumberOf(ds[0]) == NumberOf(d) {
      assert ds[0] in ds;
    } else {
      assert forall e :: e in ds[1..] ==> e in ds;
      NumberedIs(ds[1..], d);
    }
  }

  /** The first n of them, one after the other. */
  function ConcatTo(ps: seq<seq<byte>>, n: nat): seq<byte>
    requires n <= |ps|
  {
    if n == 0 then [] else ConcatTo(ps, n - 1) + ps[n - 1]
  }

  lemma {:induction false} ConcatToIs(ps: seq<seq<byte>>, n: nat)
    requires n <= |ps|
    ensures ConcatTo(ps, n) == Concat(ps[..n])
  {
    if n > 0 {
      ConcatToIs(ps, n - 1);
      var before, last := ps[..n - 1], ps[n - 1];
      assert ps[..n] == before + [last];
      hide Concat;
      ConcatSnoc(before, last);
    }
  }

  lemma ConcatAll(ps: seq<seq<byte>>)
    ensures ConcatTo(ps, |ps|) == Concat(ps)
  {
    hide Concat, ConcatTo;
    ConcatToIs(ps, |ps|);
    assert ps[..|ps|] == ps;
  }

  lemma {:induction false} InOrderIs(ds: seq<seq<byte>>, ps: seq<seq<byte>>, n: nat)
    requires n <= |ps| && forall k :: 0 <= k < n ==> Numbered(ds, k) == ps[k]
    ensures InOrder(ds, n) == ConcatTo(ps, n)
    decreases n
  {
    if n > 0 {
      InOrderIs(ds, ps, n - 1);
    }
  }

  /** The numbers are enough to put a response of up to 65535 datagrams together again. */
  lemma AnyOrderReassembles(ds: seq<seq<byte>>, ps: seq<seq<byte>>, request: nat)
    requires request < 65536 && 0 < |ps| < 65536 && Arrived(ds, ps, request)
    ensures Reassemble(ds) == Concat(ps)
  {
    forall d | d in ds
      ensures NumberOf(d) < |ps| == CountOf(d) && d == HeaderBytes(request, NumberOf(d), |ps|) + ps[NumberOf(d)]
    {
      var k :| 0 <= k < |ps| && d == HeaderBytes(request, k, |ps|) + ps[k];
      DatagramSays(request, k, |ps|, ps[k]);
    }
    hide NumberOf, CountOf, PayloadOf, Numbered;
    forall k | 0 <= k < |ps| ensures Numbered(ds, k) == ps[k] {
      var d := HeaderBytes(request, k, |ps|) + ps[k];
      DatagramSays(request, k, |ps|, ps[k]);
      NumberedIs(ds, d);
    }
    InOrderIs(ds, ps, |ps|);
    ConcatAll(ps);
    assert HeaderBytes(request, 0, |ps|) + ps[0] in ds;
    assert ds[0] in ds;
  }

  /** Message m waits to be sent: the room for its header, then the entries of p. */
  ghost predicate Awaits(vs: seq<Iovec>, m: Msg, p: seq<byte>) {
    && m.iovlen > 0 && m.start + m.iovlen <= |vs|
    && (forall j :: m.start < j < m.start + m.iovlen ==> vs[j].Data?)
    && Flat(vs[m.start + 1..m.start + m.iovlen]) == p && UDP_HEADER_SIZE + |p| <= UDP_MAX_PAYLOAD_SIZE
  }

  /** From message d on, the payloads are ps. */
  ghost predicate Pending(vs: seq<Iovec>, ms: seq<Msg>, ps: seq<seq<byte>>, d: nat) {
    |ps| == |ms| && d <= |ms| && forall i :: d <= i < |ms| ==> Awaits(vs, ms[i], ps[i])
  }

  ghost predicate Headed(vs: seq<Iovec>, ms: seq<Msg>, request: nat, d: nat) {
    forall i :: d <= i < |ms| ==> ms[i].start < |vs| && vs[ms[i].start] == Data(HeaderBytes(request, i, |ms|))
  }

  lemma {:induction false} TiledOrder(ms: seq<Msg>, k: nat, used: nat, i: nat, j: nat)
    requires Tiled(ms, k, used) && k <= i < j < |ms|
    ensures ms[i].start + ms[i].iovlen <= ms[j].start
    decreases j - i
  {
    if i + 1 < j {
      TiledOrder(ms, k, used, i + 1, j);
    }
  }

  /** Payload of one planned UDP message. */
  lemma MessageAwaits(vs: seq<Iovec>, m: Msg)
    requires m.start + m.iovlen <= |vs| && m.iovlen > 0 && Framed(vs, m, true)
    requires TotalLen(Entries(vs, m)) <= UDP_MAX_PAYLOAD_SIZE
    ensures Awaits(vs, m, Flat(Entries(vs, m)))
  {
    var rest := vs[m.start + 1..m.start + m.iovlen];
    assert Entries(vs, m)[0] == vs[m.start] && Entries(vs, m)[1..] == rest;
    FlatLen(rest);
  }

  lemma PlannedAwaits(vs: seq<Iovec>, ms: seq<Msg>, msgbytes: nat, i: nat)
    requires PlanOk(vs, ms, msgbytes, true) && ms[|ms| - 1].iovlen > 0 && i < |ms|
    ensures ms[i].start + ms[i].iovlen <= |vs| && Awaits(vs, ms[i], Flat(Entries(vs, ms[i])))
  {
    MessageAwaits(vs, ms[i]);
  }

  lemma FlatUpTo(vs: seq<Iovec>, m: Msg)
    requires m.start + m.iovlen <= |vs|
    ensures FlatTo(vs, m.start + m.iovlen) == FlatTo(vs, m.start) + Flat(Entries(vs, m))
  {
    assert vs[..m.start + m.iovlen] == vs[..m.start] + Entries(vs, m);
    FlatSplit(vs[..m.start], Entries(vs, m));
  }

  function FlatTo(vs: seq<Iovec>, n: nat): seq<byte>
    requires n <= |vs|
  {
    Flat(vs[..n])
  }

  lemma ConcatSnoc(ps: seq<seq<byte>>, p: seq<byte>)
    ensures Concat(ps + [p]) == Concat(ps) + p
  {
    assert (ps + [p])[..|ps|] == ps;
  }

  /** What the messages hold besides their headers. */
  ghost predicate Payloads(vs: seq<Iovec>, ms: seq<Msg>, ps: seq<seq<byte>>) {
    |ps| == |ms| && forall i :: 0 <= i < |ms| ==> ms[i].start + ms[i].iovlen <= |vs| && ps[i] == Flat(Entries(vs, ms[i]))
  }

  function EndOf(ms: seq<Msg>, k: nat): nat
    requires k <= |ms|
  {
    if k == 0 then 0 else ms[k - 1].start + ms[k - 1].iovlen
  }

  /** What the first k messages hold besides their headers, one after the other. */
  ghost function HeldTo(vs: seq<Iovec>, ms: seq<Msg>, k: nat): seq<byte>
    requires k <= |ms| && forall i :: 0 <= i < k ==> ms[i].start + ms[i].iovlen <= |vs|
  {
    if k == 0 then [] else HeldTo(vs, ms, k - 1) + Flat(Entries(vs, ms[k - 1]))
  }

  lemma {:induction false} HeldToEnd(vs: seq<Iovec>, ms: seq<Msg>, k: nat)
    requires k <= |ms| && (forall i :: 0 <= i < k ==> ms[i].start + ms[i].iovlen <= |vs|)
    requires Tiled(ms, 0, |vs|) && (|ms| > 0 ==> ms[0].start == 0)
    ensures EndOf(ms, k) <= |vs| && HeldTo(vs, ms, k) == FlatTo(vs, EndOf(ms, k))
    decreases k
  {
    if k == 0 {
      assert vs[..0] == [];
    } else {
      var m := ms[k - 1];
      assert EndOf(ms, k - 1) == m.start && m.start + m.iovlen == EndOf(ms, k);
      hide Tiled, Flat, Entries, FlatTo, EndOf;
      HeldToEnd(vs, ms, k - 1);
      FlatUpTo(vs, m);
    }
  }

  lemma {:induction false} HeldIsPayloads(vs: seq<Iovec>, ms: seq<Msg>, ps: seq<seq<byte>>, k: nat)
    requires Payloads(vs, ms, ps) && k <= |ms|
    ensures HeldTo(vs, ms, k) == ConcatTo(ps, k)
    decreases k
  {
    hide Flat, Entries;
    if k > 0 {
      var p := ps[k - 1];
      assert p == Flat(Entries(vs, ms[k - 1]));
      HeldIsPayloads(vs, ms, ps, k - 1);
      hide Payloads;
      assert HeldTo(vs, ms, k) == HeldTo(vs, ms, k - 1) + p;
      assert ConcatTo(ps, k) == ConcatTo(ps, k - 1) + p;
    }
  }

  lemma PayloadsTogether(vs: seq<Iovec>, ms: seq<Msg>, ps: seq<seq<byte>>)
    requires |ms| > 0 && Payloads(vs, ms, ps) && Tiled(ms, 0, |vs|) && ms[0].start == 0
    ensures Concat(ps) == Flat(vs)
  {
    assert EndOf(ms, |ms|) == |vs|;
    HeldIsPayloads(vs, ms, ps, |ms|);
    HeldToEnd(vs, ms, |ms|);
    hide Concat, Flat, Payloads, Tiled, HeldTo;
    ConcatAll(ps);
    assert vs[..|vs|] == vs;
  }

  /** A finished UDP plan: every message has a payload, and together they are the planned bytes. */
  lemma PlanIsPending(vs: seq<Iovec>, ms: seq<Msg>, msgbytes: nat) returns (ps: seq<seq<byte>>)
    requires PlanOk(vs, ms, msgbytes, true) && ms[|ms| - 1].iovlen > 0
    ensures Pending(vs, ms, ps, 0) && Concat(ps) == Flat(vs)
  {
    forall i | 0 <= i < |ms| ensures ms[i].start + ms[i].iovlen <= |vs| && Awaits(vs, ms[i], Flat(Entries(vs, ms[i]))) {
      PlannedAwaits(vs, ms, msgbytes, i);
    }
    assert Tiled(ms, 0, |vs|) && ms[0].start == 0;
    hide PlanOk, Awaits, Flat, Entries, Concat, Tiled;
    ps := seq(|ms|, i requires 0 <= i < |ms| => Flat(Entries(vs, ms[i])));
    PayloadsTogether(vs, ms, ps);
  }

  /** Writing where a message starts touches nothing but the room for a header. */
  lemma HeaderWrite(vs: seq<Iovec>, ms: seq<Msg>, ps: seq<seq<byte>>, d: nat, i: nat, v: Iovec)
    requires Tiled(ms, 0, |vs|) && Pending(vs, ms, ps, d) && i < |ms| && ms[i].start < |vs|
    ensures Pending(vs[ms[i].start := v], ms, ps, d)
  {
    var at := ms[i].start;
    forall j | d <= j < |ms| ensures Awaits(vs[at := v], ms[j], ps[j]) {
      assert Awaits(vs, ms[j], ps[j]);
      if i < j {
        TiledOrder(ms, 0, |vs|, i, j);
      } else if j < i {
        TiledOrder(ms, 0, |vs|, j, i);
      }
      assert vs[at := v][ms[j].start + 1..ms[j].start + ms[j].iovlen] == vs[ms[j].start + 1..ms[j].start + ms[j].iovlen];
    }
  }

  /** What sendmsg is offered for message d, once its header is there. */
  lemma DatagramOffered(vs: seq<Iovec>, m: Msg, header: seq<byte>, p: seq<byte>)
    requires Awaits(vs, m, p) && vs[m.start] == Data(header) && |header| == UDP_HEADER_SIZE
    ensures forall j :: m.start <= j < m.start + m.iovlen ==> vs[j].Data?
    ensures Flat(Entries(vs, m)) == header + p && TotalLen(Entries(vs, m)) == UDP_HEADER_SIZE + |p|
  {
    var rest := vs[m.start + 1..m.start + m.iovlen];
    assert Entries(vs, m)[0] == vs[m.start] && Entries(vs, m)[1..] == rest;
    FlatLen(rest);
  }

  /** With its headers written the plan is ready to be sent, from message k on. */
  lemma DatagramsReady(vs: seq<Iovec>, ms: seq<Msg>, ps: seq<seq<byte>>, request: nat, d: nat, k: nat)
    requires Tiled(ms, k, |vs|) && Pending(vs, ms, ps, d) && Headed(vs, ms, request, d)
    requires k == d || (k + 1 == d && ms[k].iovlen == 0)
    ensures SendOk(vs, ms, k)
  {
    forall i | k <= i < |ms| ensures ms[i].start <= |vs| {
      TiledBound(ms, k, |vs|, i);
    }
    if k < |ms| {
      forall j | ms[k].start <= j < |vs| ensures vs[j].Data? {
        var i := MessageFrom(ms, k, |vs|, j);
        assert Awaits(vs, ms[i], ps[i]);
      }
    }
  }

  lemma MessageFrom(ms: seq<Msg>, k: nat, used: nat, j: nat) returns (i: nat)
    requires k < |ms| && Tiled(ms, k, used) && ms[k].start <= j < used
    ensures k <= i < |ms| && ms[i].start <= j < ms[i].start + ms[i].iovlen
  {
    i := |ms| - 1;
    while j < ms[i].start
      invariant k <= i < |ms| && j < ms[i].start + ms[i].iovlen
      decreases i
    {
      i := i - 1;
      assert ms[i + 1].start == ms[i].start + ms[i].iovlen;
    }
  }

  /** What stands first among the bytes left is the next datagram. */
  lemma NextDatagram(vs: seq<Iovec>, ms: seq<Msg>, ps: seq<seq<byte>>, request: nat, d: nat)
    requires SendOk(vs, ms, d) && Pending(vs, ms, ps, d) && Headed(vs, ms, request, d) && d < |ms|
    ensures Offered(vs, ms, d) == UDP_HEADER_SIZE + |ps[d]|
    ensures HeaderBytes(request, d, |ms|) + ps[d] <= Unsent(vs, ms, d)
  {
    var m := ms[d];
    assert Awaits(vs, m, ps[d]);
    DatagramOffered(vs, m, HeaderBytes(request, d, |ms|), ps[d]);
    assert vs[m.start..] == Entries(vs, m) + vs[m.start + m.iovlen..];
    FlatSplit(Entries(vs, m), vs[m.start + m.iovlen..]);
  }

  lemma AwaitsBehind(vs: seq<Iovec>, vs': seq<Iovec>, m: Msg, p: seq<byte>, from: nat)
    requires Awaits(vs, m, p) && from <= m.start && |vs| == |vs'|
    requires forall j :: from <= j < |vs| ==> vs'[j] == vs[j]
    ensures Awaits(vs', m, p) && vs'[m.start] == vs[m.start]
  {
    assert vs'[m.start + 1..m.start + m.iovlen] == vs[m.start + 1..m.start + m.iovlen];
  }

  /** The other messages still wait when one is gone. */
  lemma DatagramGone(vs: seq<Iovec>, ms: seq<Msg>, vs': seq<Iovec>, ms': seq<Msg>, ps: seq<seq<byte>>, request: nat, d: nat)
    requires Later(vs, ms, vs', ms', d) && Tiled(ms, d, |vs|)
    requires Pending(vs, ms, ps, d) && Headed(vs, ms, request, d)
    ensures Pending(vs', ms', ps, d + 1) && Headed(vs', ms', request, d + 1)
  {
    hide Awaits, Tiled;
    forall i | d + 1 <= i < |ms| ensures ms'[i] == ms[i] && Awaits(vs', ms[i], ps[i]) && ms[i].start < |vs| && vs'[ms[i].start] == vs[ms[i].start] {
      TiledOrder(ms, d, |vs|, d, i);
      AwaitsBehind(vs, vs', ms[i], ps[i], ms[d].start + ms[d].iovlen);
    }
  }

  /** A message with nothing left leaves the bytes of the next one. */
  lemma EmptyMessage(vs: seq<Iovec>, ms: seq<Msg>, k: nat)
    requires SendOk(vs, ms, k) && k + 1 < |ms| && ms[k].iovlen == 0
    ensures SendOk(vs, ms, k + 1) && Unsent(vs, ms, k + 1) == Unsent(vs, ms, k)
  {
  }

  class Output {
    const udp: bool
    var iov: array<Iovec>
    var iovused: nat
    var msglist: array<Msg>
    var msgused: nat
    var msgcurr: nat
    var msgbytes: nat

    ghost predicate Shape()
      reads this
    {
      iov.Length > 0 && msglist.Length > 0 && iovused <= iov.Length && msgused <= msglist.Length
    }

    ghost function Vecs(): seq<Iovec>
      requires Shape()
      reads this, iov
    {
      iov[..iovused]
    }

    ghost function Msgs(): seq<Msg>
      requires Shape()
      reads this, msglist
    {
      msglist[..msgused]
    }

    /** A plan is being built and nothing has been sent. */
    ghost predicate Valid()
      reads this, iov, msglist
    {
      Shape() && msgused > 0 && msgcurr == 0 && PlanOk(Vecs(), Msgs(), msgbytes, udp)
    }

    /** A message just begun has no entries, not even its header. */
    ghost predicate Begun()
      requires Shape() && msgused > 0
      reads this, msglist
    {
      msglist[msgused - 1].iovlen == 0
    }

    /** All bytes planned so far, in order. */
    ghost function Planned(): seq<byte>
      requires Shape()
      reads this, iov
    {
      Flat(Vecs())
    }

    constructor (udp: bool)
      ensures this.udp == udp && iov.Length == IOV_LIST_INITIAL && msglist.Length == MSG_LIST_INITIAL
      ensures fresh(iov) && fresh(msglist) && iovused == msgused == msgcurr == 0
    {
      this.udp := udp;
      iov := new Iovec[IOV_LIST_INITIAL](_ => Header);
      msglist := new Msg[MSG_LIST_INITIAL](_ => Msg(0, 0));
      iovused, msgused, msgcurr, msgbytes := 0, 0, 0, 0;
    }

    /** ensure_iov_space. */
    method EnsureIovSpace()
      requires Valid()
      modifies this`iov, msglist
      ensures Valid() && iovused < iov.Length && (iov == old(iov) || fresh(iov))
      ensures Vecs() == old(Vecs()) && Msgs() == old(Msgs())
      ensures iov.Length == if old(iovused == iov.Length) then 2 * old(iov.Length) else old(iov.Length)
      ensures old(iovused < iov.Length) ==> iov == old(iov)
    {
      hide PlanOk;
      ghost var vs := Vecs();
      if iovused >= iov.Length {
        var was := iov;
        iov := new Iovec[2 * was.Length](k requires 0 <= k < 2 * was.Length reads was => if k < was.Length then was[k] else Header);
        assert Vecs() == vs;
        PlanTiled();
        ghost var ms := Msgs();
        LoseStarts(msglist, msgused);
        Rebase(msglist, msgused, ms, iovused);
      }
    }

    lemma PlanTiled()
      requires Valid()
      ensures Tiled(msglist[..msgused], 0, iovused) && msglist[0].start == 0
    {
    }

    lemma BegunIsEmpty()
      requires Valid()
      ensures msglist[msgused - 1].iovlen <= IOV_MAX
      ensures udp || msgused == 1 ==> msgbytes <= UDP_MAX_PAYLOAD_SIZE
      ensures Begun() ==> msgbytes == 0
      ensures msglist[msgused - 1].start + msglist[msgused - 1].iovlen == iovused
    {
      assert Msgs()[msgused - 1] == msglist[msgused - 1];
    }

    /** The end of one round of add_iov: the entry goes behind the others. */
    method PutEntry(v: Iovec)
      requires Valid() && iovused < iov.Length && msglist[msgused - 1].iovlen < IOV_MAX
      requires udp || msgused == 1 ==> msgbytes + v.Len() <= UDP_MAX_PAYLOAD_SIZE
      requires v.Header? <==> udp && Begun()
      modifies this`iovused, this`msgbytes, iov, msglist
      ensures Valid() && !Begun() && iovused == old(iovused) + 1 && msgbytes == old(msgbytes) + v.Len()
      ensures msglist[msgused - 1].iovlen == old(msglist[msgused - 1].iovlen) + 1
      ensures Planned() == old(Planned()) + (if v.Data? then v.bytes else []) && Vecs() == old(Vecs()) + [v]
      ensures Msgs()[..msgused - 1] == old(Msgs())[..msgused - 1]
    {
      hide PlanOk;
      ghost var vs, ms := Vecs(), Msgs();
      PlanEntry(vs, ms, msgbytes, udp, v);
      BegunIsEmpty();
      var m := msglist[msgused - 1];
      iov[m.start + m.iovlen] := v;
      msgbytes := msgbytes + v.Len();
      iovused := iovused + 1;
      msglist[msgused - 1] := Msg(m.start, m.iovlen + 1);
      assert Vecs() == vs + [v] && Msgs() == ms[|ms| - 1 := Extend(m)];
    }

    /** A new message in the list, without a header yet. */
    method OpenMessage()
      requires Shape() && (msgused == 0 ==> iovused == 0 && msgcurr == 0) && (msgused > 0 ==> Valid() && !Begun())
      modifies this`msglist, this`msgused, this`msgbytes, msglist
      ensures Valid() && Begun() && Vecs() == old(Vecs()) && msgused == old(msgused) + 1
      ensures msglist == old(msglist) || fresh(msglist)
      ensures Msgs()[..msgused - 1] == old(Msgs())
    {
      hide PlanOk;
      ghost var vs, ms := Vecs(), Msgs();
      if msgused == 0 {
        PlanFirst(udp);
        assert vs == [] && ms + [Msg(0, 0)] == [Msg(0, 0)];
      } else {
        PlanMessage(vs, ms, msgbytes, udp);
      }
      if msglist.Length == msgused {
        var was := msglist;
        msglist := new Msg[2 * was.Length](k requires 0 <= k < 2 * was.Length reads was => if k < was.Length then was[k] else Msg(0, 0));
      }
      msglist[msgused] := Msg(iovused, 0);
      msgbytes := 0;
      msgused := msgused + 1;
      assert Msgs() == ms + [Msg(iovused, 0)] && Vecs() == vs;
    }

    /** add_msghdr: a new message, and for UDP the room for its header. */
    method AddMsghdr()
      requires Shape() && (msgused == 0 ==> iovused == 0 && msgcurr == 0) && (msgused > 0 ==> Valid() && !Begun())
      modifies this`iov, this`iovused, this`msglist, this`msgused, this`msgbytes, iov, msglist
      ensures Valid() && Planned() == old(Planned()) && msgused == old(msgused) + 1
      ensures (iov == old(iov) || fresh(iov)) && (msglist == old(msglist) || fresh(msglist))
      ensures udp <==> !Begun()
      ensures msgbytes == (if udp then UDP_HEADER_SIZE else 0) && msglist[msgused - 1].iovlen < IOV_MAX
      ensures iovused == old(iovused) + (if udp then 1 else 0) && (old(iovused < iov.Length) ==> iov == old(iov))
      ensures udp ==> msglist[msgused - 1].iovlen == 1
      ensures old(Dense(Vecs(), 0)) ==> Dense(Vecs(), 0)
      decreases 1
    {
      hide PlanOk;
      OpenMessage();
      BegunIsEmpty();
      if udp {
        AddIov(Header);
      }
    }

    /** The last message, number n, holds nothing but its header, entry number k. */
    ghost predicate HeaderOnly(n: nat, k: nat)
      requires Shape() && msgused > 0
      reads this, msglist
    {
      msgused == n && msgbytes == UDP_HEADER_SIZE && msglist[msgused - 1].iovlen == 1 && iovused == k + 1
    }

    /** The last message takes no more entries, or no more bytes. */
    ghost predicate Crowded()
      requires Shape() && msgused > 0
      reads this, msglist
    {
      msglist[msgused - 1].iovlen == IOV_MAX || ((udp || msgused == 1) && msgbytes >= UDP_MAX_PAYLOAD_SIZE)
    }

    /** v fits the last message, and the entry array. */
    ghost predicate Fits(v: Iovec)
      requires Shape() && msgused > 0
      reads this, iov, msglist
    {
      !Crowded() && msgbytes + v.Len() <= UDP_MAX_PAYLOAD_SIZE && iovused < iov.Length
    }

    /** The first half of a round of add_iov: a new message if the last one is full, and a free entry. */
    method MakeRoom(header: bool)
      requires Valid() && (udp ==> (header <==> Begun())) && (header ==> udp)
      modifies this`iov, this`iovused, this`msglist, this`msgused, this`msgbytes, iov, msglist
      ensures Valid() && Planned() == old(Planned()) && iovused < iov.Length && (udp ==> (header <==> Begun()))
      ensures (iov == old(iov) || fresh(iov)) && (msglist == old(msglist) || fresh(msglist))
      ensures msgused == old(msgused) + (if old(Crowded()) then 1 else 0) && !Crowded()
      ensures iovused >= old(iovused) && (header || !old(Crowded()) ==> iovused == old(iovused) && msgbytes == old(msgbytes))
      ensures old(udp || msgused == 1) ==> msgbytes < UDP_MAX_PAYLOAD_SIZE
      ensures !old(Crowded()) ==> msglist[msgused - 1].iovlen == old(msglist[msgused - 1].iovlen)
      ensures old(!Crowded() && iovused < iov.Length) ==> iov == old(iov)
      ensures old(Dense(Vecs(), 0)) ==> Dense(Vecs(), 0)
      decreases if header then 0 else 2, 0
    {
      hide PlanOk;
      BegunIsEmpty();
      if msglist[msgused - 1].iovlen == IOV_MAX || ((udp || msgused == 1) && msgbytes >= UDP_MAX_PAYLOAD_SIZE) {
        AddMsghdr();
      }
      BegunIsEmpty();
      ghost var ms := Msgs();
      EnsureIovSpace();
      assert msglist[msgused - 1] == Msgs()[msgused - 1] == ms[msgused - 1];
    }

    /** One round of the loop of add_iov: as much of v as the current message takes; `left` is not planned yet. */
    method AddRound(v: Iovec) returns (left: seq<byte>)
      requires Valid() && (udp ==> (v.Header? <==> Begun())) && (v.Header? ==> udp)
      modifies this`iov, this`iovused, this`msglist, this`msgused, this`msgbytes, iov, msglist
      ensures Valid() && !Begun() && iovused > old(iovused)
      ensures (iov == old(iov) || fresh(iov)) && (msglist == old(msglist) || fresh(msglist))
      ensures v.Data? ==> Split(v.bytes, left) && Planned() + left == old(Planned()) + v.bytes
      ensures v.Data? ==> left == [] || |left| < |v.bytes|
      ensures v.Header? ==> left == [] && Planned() == old(Planned()) && HeaderOnly(old(msgused), old(iovused))
      ensures left != [] ==> msgbytes == UDP_MAX_PAYLOAD_SIZE && (udp || old(msgused) == 1)
      ensures msgused == old(msgused) + if old(Crowded()) then 1 else 0
      ensures msgused > old(msgused) <==>
        old(msglist[msgused - 1].iovlen) == IOV_MAX || ((udp || old(msgused) == 1) && old(msgbytes) == UDP_MAX_PAYLOAD_SIZE)
      ensures old(Fits(v)) ==> left == [] && iovused == old(iovused) + 1 && iov == old(iov)
      ensures old(Fits(v)) ==> msgbytes == old(msgbytes) + v.Len() && msglist[msgused - 1].iovlen == old(msglist[msgused - 1].iovlen) + 1
      ensures v != Data([]) && old(Dense(Vecs(), 0)) ==> Dense(Vecs(), 0)
      decreases if v.Header? then 0 else 2, 1
    {
      hide PlanOk, Dense, Split;
      BegunIsEmpty();
      var limitToMtu := udp || msgused == 1;
      MakeRoom(v.Header?);
      left := PutPiece(v, limitToMtu);
    }

    /** The second half of a round: as much of v as fits is the next entry. */
    method PutPiece(v: Iovec, limitToMtu: bool) returns (left: seq<byte>)
      requires Valid() && iovused < iov.Length && !Crowded() && (udp ==> (v.Header? <==> Begun())) && (v.Header? ==> udp)
      requires (udp || msgused == 1 ==> limitToMtu) && (limitToMtu ==> msgbytes < UDP_MAX_PAYLOAD_SIZE)
      modifies this`iovused, this`msgbytes, iov, msglist
      ensures Valid() && !Begun() && iovused == old(iovused) + 1
      ensures v.Data? ==> Split(v.bytes, left) && Planned() + left == old(Planned()) + v.bytes
      ensures v.Data? ==> left == [] || |left| < |v.bytes|
      ensures v.Header? ==> left == [] && Planned() == old(Planned())
      ensures left != [] ==> msgbytes == UDP_MAX_PAYLOAD_SIZE && limitToMtu
      ensures old(msgbytes) + v.Len() <= UDP_MAX_PAYLOAD_SIZE ==> left == []
      ensures left == [] ==> msgbytes == old(msgbytes) + v.Len()
      ensures msglist[msgused - 1].iovlen == old(msglist[msgused - 1].iovlen) + 1
      ensures v != Data([]) && old(Dense(Vecs(), 0)) ==> Dense(Vecs(), 0)
    {
      hide PlanOk, Dense;
      ghost var planned := Planned();
      BegunIsEmpty();
      var len := v.Len();
      var leftover := 0;
      if limitToMtu && len + msgbytes > UDP_MAX_PAYLOAD_SIZE {
        leftover := len + msgbytes - UDP_MAX_PAYLOAD_SIZE;
        len := len - leftover;
      }
      if v.Header? {
        DenseSnoc(Vecs(), v);
        PutEntry(v);
        left := [];
      } else {
        DenseSnoc(Vecs(), Data(v.bytes[..len]));
        PutEntry(Data(v.bytes[..len]));
        left := v.bytes[len..];
        SplitJoin(planned, v.bytes, len);
      }
    }

    /** add_iov: plan a buffer, split where a message is full. The header only opens a message. */
    method AddIov(buf: Iovec)
      requires Valid() && (udp ==> (buf.Header? <==> Begun())) && (buf.Header? ==> udp)
      modifies this`iov, this`iovused, this`msglist, this`msgused, this`msgbytes, iov, msglist
      ensures Valid() && !Begun() && Planned() == old(Planned()) + (if buf.Data? then buf.bytes else [])
      ensures (iov == old(iov) || fresh(iov)) && (msglist == old(msglist) || fresh(msglist))
      ensures buf.Header? ==> HeaderOnly(old(msgused), old(iovused))
      ensures iovused > old(iovused)
      ensures old(Fits(buf)) ==> msgused == old(msgused) && iovused == old(iovused) + 1 && iov == old(iov)
      ensures old(Fits(buf)) ==> msgbytes == old(msgbytes) + buf.Len() && msglist[msgused - 1].iovlen == old(msglist[msgused - 1].iovlen) + 1
      ensures buf != Data([]) && old(Dense(Vecs(), 0)) ==> Dense(Vecs(), 0)
      decreases if buf.Header? then 0 else 2, 3
    {
      hide PlanOk, Flat, Crowded, HeaderOnly, Dense;
      hide Split;
      var left := AddRound(buf);
      if buf.Data? {
        AddRest(left);
      }
    }

    /** The further rounds of add_iov, until nothing is left over. */
    method AddRest(bytes: seq<byte>)
      requires Valid() && !Begun()
      modifies this`iov, this`iovused, this`msglist, this`msgused, this`msgbytes, iov, msglist
      ensures Valid() && !Begun() && Planned() == old(Planned()) + bytes && iovused >= old(iovused)
      ensures (iov == old(iov) || fresh(iov)) && (msglist == old(msglist) || fresh(msglist))
      ensures bytes == [] ==> msgused == old(msgused) && iovused == old(iovused) && msgbytes == old(msgbytes) && iov == old(iov)
      ensures bytes == [] ==> msglist[msgused - 1].iovlen == old(msglist[msgused - 1].iovlen)
      ensures old(Dense(Vecs(), 0)) ==> Dense(Vecs(), 0)
      decreases 2, 2
    {
      hide PlanOk, Flat, Crowded, HeaderOnly, Dense;
      if bytes == [] {
        assert Planned() + [] == Planned();
        assert Vecs() == old(Vecs());
        return;
      }
      var left := bytes;
      ghost var goal := Planned() + bytes;
      while left != []
        invariant Shape() && Valid() && msgused > 0 && !Begun() && iovused >= old(iovused)
        invariant (iov == old(iov) || fresh(iov)) && (msglist == old(msglist) || fresh(msglist))
        invariant Planned() + left == goal && (old(Dense(Vecs(), 0)) ==> Dense(Vecs(), 0))
        decreases |left|
      {
        left := AddRound(Data(left));
      }
      assert Planned() + [] == Planned();
    }

    ghost predicate Sending()
      reads this, iov, msglist
    {
      Shape() && msgcurr <= msgused && SendOk(Vecs(), Msgs(), msgcurr)
    }

    ghost function Left(): seq<byte>
      requires Sending()
      reads this, iov, msglist
    {
      Unsent(Vecs(), Msgs(), msgcurr)
    }

    lemma ReadyToSend()
      requires Valid() && !udp
      ensures Sending() && Left() == Planned() && (Dense(Vecs(), 0) && (msgused == 1 || !Begun()) ==> Solid())
    {
      PlanIsSendable(Vecs(), Msgs(), msgbytes);
      assert forall i :: 0 <= i < msgused ==> Msgs()[i] == msglist[i];
    }

    /** Whole entries first: the message m stands at what is left of the current one. */
    method DropWhole(res: nat) returns (m: Msg, left: nat)
      requires Sending() && msgcurr < msgused
      requires var m := msglist[msgcurr]; m.start + m.iovlen <= iovused && res <= TotalLen(Entries(Vecs(), m))
      ensures var m0 := msglist[msgcurr]; m0.start <= m.start && m.start + m.iovlen == m0.start + m0.iovlen
      ensures left <= res <= |Left()| + left && Flat(Vecs()[m.start..]) == Left()[res - left..]
      ensures left > 0 ==> m.iovlen > 0 && left < iov[m.start].Len()
      ensures res == TotalLen(Entries(Vecs(), msglist[msgcurr])) ==> left == 0 && m.iovlen == 0
    {
      hide SendOk, Flat, TotalLen, Entries;
      SendStep(Vecs(), Msgs(), msgcurr);
      m, left := msglist[msgcurr], res;
      ghost var all, end := Left(), m.start + m.iovlen;
      assert Msgs()[msgcurr] == m && all[0..] == all;
      while m.iovlen > 0 && left >= iov[m.start].Len()
        invariant 0 <= left <= res && m.start + m.iovlen == end <= iovused && msglist[msgcurr].start <= m.start
        invariant TotalLen(Entries(Vecs(), m)) - left == TotalLen(Entries(Vecs(), msglist[msgcurr])) - res
        invariant res - left <= |all| && Flat(Vecs()[m.start..]) == all[res - left..]
        decreases m.iovlen
      {
        TotalFrom(Vecs(), m);
        FlatFrom(Vecs(), m.start);
        left := left - iov[m.start].Len();
        m := Msg(m.start + 1, m.iovlen - 1);
      }
      TotalNone(Vecs(), m);
      if m.iovlen > 0 {
        TotalFrom(Vecs(), m);
      }
    }

    /** The part of transmit after a successful sendmsg: drop what was accepted from the current message. */
    method Consume(res: nat)
      requires Sending() && msgcurr < msgused
      requires var m := msglist[msgcurr]; m.start + m.iovlen <= iovused && res <= TotalLen(Entries(Vecs(), m))
      modifies iov, msglist
      ensures Sending() && res <= |old(Left())| && Left() == old(Left())[res..]
      ensures Later(old(Vecs()), old(Msgs()), Vecs(), Msgs(), msgcurr)
      ensures res == old(TotalLen(Entries(Vecs(), msglist[msgcurr]))) ==> msglist[msgcurr].iovlen == 0
      ensures old(Solid()) ==> Solid()
    {
      hide SendOk, Flat, TotalLen, Entries;
      SendStep(Vecs(), Msgs(), msgcurr);
      ghost var vs, ms, all := Vecs(), Msgs(), Left();
      var m, left := DropWhole(res);
      Advance(vs, ms, msgcurr, m);
      msglist[msgcurr] := m;
      assert Msgs() == ms[msgcurr := m];
      if left > 0 {
        var bytes := iov[m.start].bytes;
        FlatFrom(vs, m.start);
        Shorten(vs, Msgs(), msgcurr, bytes[left..]);
        iov[m.start] := Data(bytes[left..]);
        assert Vecs() == vs[m.start := Data(bytes[left..])];
        assert all[res - left..][left..] == all[res..];
      }
    }

    /** Nothing empty is left to send, but for a message that is just done. */
    ghost predicate Solid()
      requires Shape()
      reads this, iov, msglist
    {
      && (msgcurr < msgused ==> Dense(Vecs(), msglist[msgcurr].start))
      && forall i :: msgcurr < i < msgused ==> msglist[i].iovlen > 0
    }

    lemma SolidOffers()
      requires Sending() && Solid() && msgcurr < msgused && msglist[msgcurr].iovlen > 0
      ensures Offered(Vecs(), Msgs(), msgcurr) > 0
    {
      var vs, m := Vecs(), msglist[msgcurr];
      SendStep(vs, Msgs(), msgcurr);
      TotalFrom(vs, m);
      assert vs[m.start].Data? && vs[m.start] != Data([]);
    }

    lemma SolidNext()
      requires Sending() && Solid() && msgcurr + 1 < msgused && msglist[msgcurr].iovlen == 0
      ensures Dense(Vecs(), msglist[msgcurr + 1].start)
    {
      assert Msgs()[msgcurr + 1].start == Msgs()[msgcurr].start;
    }

    /** Every message is gone; transmit then calls no sendmsg. */
    predicate Finished()
      requires Shape() && msgcurr <= msgused
      reads this, msglist
    {
      msgcurr == msgused || (msgcurr + 1 == msgused && msglist[msgcurr].iovlen == 0)
    }

    /** transmit. `sent` is what the kernel took; the event update only matters when it would block. */
    method Transmit(answer: SendResult, updateOk: bool) returns (r: TransmitResult, ghost sent: seq<byte>)
      requires Sending()
      modifies this`msgcurr, iov, msglist
      ensures Sending() && old(Left()) == sent + Left()
      ensures msgcurr == old(msgcurr) + if old(msgcurr < msgused && msglist[msgcurr].iovlen == 0) then 1 else 0
      ensures (r.Complete? <==> msgcurr == msgused) && (r.Complete? <==> old(Finished()))
      ensures r.Complete? ==> sent == Left() == []
      ensures !r.Complete? ==> SendOk(old(Vecs()), old(Msgs()), msgcurr) && |sent| == Accepts(answer, Offered(old(Vecs()), old(Msgs()), msgcurr))
      ensures !r.Complete? ==> (r.Incomplete? <==> sent != []) && (r.SoftError? <==> answer.WouldBlock? && updateOk)
      ensures answer.Sent? ==> |sent| <= answer.n
      ensures !answer.Sent? ==> sent == []
      ensures !r.Complete? && answer.Sent? && |sent| < answer.n ==> |sent| == Offered(old(Vecs()), old(Msgs()), msgcurr)
      ensures if r.Complete? then Vecs() == old(Vecs()) && Msgs() == old(Msgs())
              else Later(old(Vecs()), old(Msgs()), Vecs(), Msgs(), msgcurr)
      ensures sent == [] ==> Vecs() == old(Vecs()) && Msgs() == old(Msgs())
      ensures old(Solid()) ==> Solid() && (!r.Complete? && answer.Sent? && answer.n > 0 ==> sent != [])
      ensures !r.Complete? && 0 < |sent| == Offered(old(Vecs()), old(Msgs()), msgcurr) ==> msglist[msgcurr].iovlen == 0
    {
      hide SendOk, Flat, TotalLen, Entries, Solid, Later, Unsent, Offered;
      sent := [];
      NextMessage();
      if msgcurr < msgused {
        r, sent := SendMessage(answer, updateOk);
      } else {
        r := Complete;
      }
    }

    /** The beginning of transmit: a message that is done is left behind. */
    method NextMessage()
      requires Sending()
      modifies this`msgcurr
      ensures Sending() && Left() == old(Left()) && (msgcurr == msgused <==> old(Finished())) && (msgcurr == msgused ==> Left() == [])
      ensures msgcurr == old(msgcurr) + if old(msgcurr < msgused && msglist[msgcurr].iovlen == 0) then 1 else 0
      ensures msgcurr < msgused ==> SendOk(Vecs(), Msgs(), msgcurr) && msglist[msgcurr].start + msglist[msgcurr].iovlen <= iovused
      ensures old(Solid()) ==> Solid() && (msgcurr < msgused ==> msglist[msgcurr].iovlen > 0)
    {
      hide SendOk, Flat, TotalLen, Entries, Dense;
      if msgcurr < msgused && msglist[msgcurr].iovlen == 0 {
        SendStep(Vecs(), Msgs(), msgcurr);
        if Solid() && msgcurr + 1 < msgused {
          SolidNext();
        }
        msgcurr := msgcurr + 1;
      }
      if msgcurr < msgused {
        SendStep(Vecs(), Msgs(), msgcurr);
      }
    }

    /** The sendmsg call of transmit. */
    method SendMessage(answer: SendResult, updateOk: bool) returns (r: TransmitResult, ghost sent: seq<byte>)
      requires Sending() && msgcurr < msgused && msglist[msgcurr].start + msglist[msgcurr].iovlen <= iovused
      modifies iov, msglist
      ensures Sending() && old(Left()) == sent + Left()
      ensures |sent| == Accepts(answer, old(Offered(Vecs(), Msgs(), msgcurr)))
      ensures Later(old(Vecs()), old(Msgs()), Vecs(), Msgs(), msgcurr)
      ensures sent == [] ==> Vecs() == old(Vecs()) && Msgs() == old(Msgs())
      ensures old(Solid()) ==> Solid()
      ensures old(Solid() && msglist[msgcurr].iovlen > 0) && answer.Sent? && answer.n > 0 ==> sent != []
      ensures 0 < |sent| == old(Offered(Vecs(), Msgs(), msgcurr)) ==> msglist[msgcurr].iovlen == 0
      ensures !r.Complete? && (r.Incomplete? <==> sent != []) && (r.SoftError? <==> answer.WouldBlock? && updateOk)
    {
      hide SendOk, Flat, TotalLen, Entries, Solid;
      ghost var before := Left();
      if Solid() && msglist[msgcurr].iovlen > 0 {
        SolidOffers();
      }
      sent := [];
      var total := MessageBytes(msglist[msgcurr]);
      var res := match answer case Sent(n) => if n < total then n else total case _ => 0;
      if res > 0 {
        Consume(res);
        sent := before[..res];
        r := Incomplete;
      } else if answer.WouldBlock? {
        r := if updateOk then SoftError else HardError;
      } else {
        r := HardError;
      }
    }

    /** How many bytes sendmsg is offered. */
    method MessageBytes(m: Msg) returns (total: nat)
      requires Shape() && m.start + m.iovlen <= iovused
      ensures total == TotalLen(Entries(Vecs(), m))
    {
      total := 0;
      var i := m.iovlen;
      assert Entries(Vecs(), Msg(m.start + i, 0)) == [];
      while i > 0
        invariant 0 <= i <= m.iovlen && total == TotalLen(Entries(Vecs(), Msg(m.start + i, m.iovlen - i)))
      {
        i := i - 1;
        TotalFrom(Vecs(), Msg(m.start + i, m.iovlen - i));
        total := total + iov[m.start + i].Len();
      }
    }

    /** Output starts over with one empty message, as out_string and process_command begin. */
    method Restart()
      requires Shape()
      modifies this`iov, this`iovused, this`msglist, this`msgused, this`msgbytes, this`msgcurr, iov, msglist
      ensures Valid() && Shape() && Planned() == [] && iovused == (if udp then 1 else 0) && msgused == 1 && (udp <==> !Begun())
      ensures Dense(Vecs(), 0)
      ensures msgcurr == 0 && (udp ==> msgbytes == UDP_HEADER_SIZE && msglist[0].iovlen == 1)
      ensures iov == old(iov) && (msglist == old(msglist) || fresh(msglist))
    {
      hide PlanOk;
      msgcurr, msgused, iovused := 0, 0, 0;
      assert Vecs() == [];
      AddMsghdr();
    }

    /** A response as process_command and drive_machine make it: start over, plan all buffers. */
    method PlanAll(bufs: seq<seq<byte>>)
      requires Shape()
      modifies this`iov, this`iovused, this`msglist, this`msgused, this`msgbytes, this`msgcurr, iov, msglist
      ensures Valid() && Planned() == Concat(bufs) && (udp || msgused > 1 ==> !Begun()) && ([] !in bufs ==> Dense(Vecs(), 0))
      ensures (iov == old(iov) || fresh(iov)) && (msglist == old(msglist) || fresh(msglist))
    {
      hide PlanOk;
      Restart();
      for i := 0 to |bufs|
        invariant Valid() && Planned() == Concat(bufs[..i]) && (udp || msgused > 1 ==> !Begun()) && ([] !in bufs ==> Dense(Vecs(), 0))
        invariant (iov == old(iov) || fresh(iov)) && (msglist == old(msglist) || fresh(msglist))
      {
        AddIov(Data(bufs[i]));
        assert bufs[..i + 1][..i] == bufs[..i];
      }
      assert bufs[..|bufs|] == bufs;
    }

    /**
     Planning any buffers and then transmitting with any answers of sendmsg and of the event updates:
     what was sent followed by what is left is the concatenation of the buffers, and a complete
     transmission sent all of it. It ends only when complete or when a send fails; and when no buffer is
     empty and every call takes something, it is complete after as many calls as there are bytes, and one.
    */
    method Respond(bufs: seq<seq<byte>>, answers: seq<(SendResult, bool)>)
      returns (r: TransmitResult, rounds: nat, ghost sent: seq<byte>)
      requires Shape() && !udp
      modifies this`iov, this`iovused, this`msglist, this`msgused, this`msgbytes, this`msgcurr, iov, msglist
      ensures Sending() && sent + Left() == Concat(bufs)
      ensures r.Complete? ==> sent == Concat(bufs)
      ensures rounds <= |answers| && (rounds < |answers| ==> r.Complete? || r.HardError?)
      ensures r.HardError? ==> rounds > 0 && !(answers[rounds - 1].0.WouldBlock? && answers[rounds - 1].1)
      ensures r.SoftError? ==> rounds > 0 && answers[rounds - 1].0.WouldBlock? && answers[rounds - 1].1
      ensures [] !in bufs && AllTake(answers) && |answers| > |Concat(bufs)| ==> r.Complete?
    {
      hide PlanOk, SendOk, Flat, Concat, Unsent, Later, Offered, Accepts, Dense, Output.Solid, Output.Left, Output.Finished;
      PlanAll(bufs);
      ReadyToSend();
      sent, rounds := [], 0;
      r := Incomplete;
      ghost var lively := [] !in bufs && AllTake(answers);
      while rounds < |answers|
        invariant 0 <= rounds <= |answers| && Sending() && sent + Left() == Concat(bufs)
        invariant !r.Complete? && !r.HardError?
        invariant r.SoftError? ==> rounds > 0 && answers[rounds - 1].0.WouldBlock? && answers[rounds - 1].1
        invariant lively ==> Solid() && rounds <= |sent|
        invariant (iov == old(iov) || fresh(iov)) && (msglist == old(msglist) || fresh(msglist))
      {
        ghost var now, before := [], Left();
        r, now := Transmit(answers[rounds].0, answers[rounds].1);
        rounds := rounds + 1;
        assert sent + (now + Left()) == (sent + now) + Left();
        sent := sent + now;
        if r.Complete? || r.HardError? {
          assert sent + [] == sent;
          return;
        }
      }
    }

    // ---------- over UDP ----------

    /** The first d datagrams are gone; the payloads of the others wait, with their headers once sending is past the first. */
    ghost predicate UdpSending(ps: seq<seq<byte>>, request: nat, d: nat)
      reads this, iov, msglist
    {
      && Shape() && 0 < msgused == |ps| && d <= msgused && msgcurr <= msgused
      && (msgcurr == d || (msgcurr + 1 == d && msglist[msgcurr].iovlen == 0))
      && Tiled(Msgs(), msgcurr, iovused) && Pending(Vecs(), Msgs(), ps, d)
      && (msgcurr > 0 ==> Headed(Vecs(), Msgs(), request, d))
    }

    /**
     Whether build_udp_headers writes behind the entry array: it runs once more after the only message
     is gone, and then writes the entry behind that message.
    */
    predicate WritesBehind()
      requires Shape() && msgused > 0
      reads this, iov, msglist
    {
      msgcurr == 0 && msglist[0].start == iov.Length
    }

    lemma WhereHeadersGo(ps: seq<seq<byte>>, request: nat, d: nat, i: nat)
      requires UdpSending(ps, request, d) && msgcurr == 0 && i < msgused
      ensures msglist[i].start <= iovused
      ensures i >= d || msgused > 1 ==> msglist[i].start < iovused
      ensures i < d ==> i == 0
      ensures forall j :: d <= j < i ==> msglist[j].start < msglist[i].start
    {
      ghost var ms := Msgs();
      TiledBound(ms, 0, iovused, i);
      assert i >= d ==> Awaits(Vecs(), ms[i], ps[i]);
      if i < d && msgused > 1 {
        assert Awaits(Vecs(), ms[1], ps[1]) && ms[1].start == ms[0].start;
      }
      forall j | d <= j < i ensures ms[j].start < ms[i].start {
        assert Awaits(Vecs(), ms[j], ps[j]);
        TiledOrder(ms, 0, iovused, j, i);
      }
    }

    /** build_udp_headers. */
    method BuildUdpHeaders(request: nat, ghost ps: seq<seq<byte>>, ghost d: nat)
      requires UdpSending(ps, request, d) && msgcurr == 0 && !WritesBehind()
      modifies iov
      ensures UdpSending(ps, request, d) && Headed(Vecs(), Msgs(), request, d)
    {
      hide Tiled, Pending;
      ghost var ms := Msgs();
      var i := 0;
      while i < msgused
        invariant 0 <= i <= msgused && Pending(Vecs(), ms, ps, d)
        invariant forall j :: d <= j < i ==> msglist[j].start < iovused && iov[msglist[j].start] == Data(HeaderBytes(request, j, msgused))
      {
        WhereHeadersGo(ps, request, d, i);
        ghost var vs, at := Vecs(), msglist[i].start;
        var header := Data(HeaderBytes(request, i, msgused));
        if at < iovused {
          HeaderWrite(vs, ms, ps, d, i, header);
        }
        iov[msglist[i].start] := header;
        assert Vecs() == if at < iovused then vs[at := header] else vs;
        i := i + 1;
      }
    }

    lemma UdpReady(ps: seq<seq<byte>>, request: nat, d: nat)
      requires UdpSending(ps, request, d) && Headed(Vecs(), Msgs(), request, d)
      ensures Sending() && (msgcurr + 1 == d <==> msgcurr < msgused && msglist[msgcurr].iovlen == 0)
      ensures d < |ps| ==>
        && Tiled(Msgs(), d, iovused) && SendOk(Vecs(), Msgs(), d)
        && Offered(Vecs(), Msgs(), d) == UDP_HEADER_SIZE + |ps[d]| <= UDP_MAX_PAYLOAD_SIZE
        && HeaderBytes(request, d, |ps|) + ps[d] <= Left()
    {
      ghost var vs, ms := Vecs(), Msgs();
      DatagramsReady(vs, ms, ps, request, d, msgcurr);
      if d < |ps| {
        assert Awaits(vs, ms[d], ps[d]);
        hide Pending, Headed, HeaderBytes, Flat, Awaits;
        if msgcurr < d {
          EmptyMessage(vs, ms, msgcurr);
        }
        NextDatagram(vs, ms, ps, request, d);
      }
    }

    /** One round of conn_mwrite over UDP: the kernel takes a datagram whole or not at all. */
    method SendDatagram(request: nat, answer: SendResult, updateOk: bool, ghost ps: seq<seq<byte>>, ghost d: nat)
      returns (r: TransmitResult, ghost sent: seq<byte>)
      requires UdpSending(ps, request, d) && !WritesBehind() && (answer.Sent? ==> answer.n >= UDP_MAX_PAYLOAD_SIZE)
      modifies this`msgcurr, iov, msglist
      ensures (r.Complete? <==> d == |ps|) && (r.Complete? <==> msgcurr == |ps|) && msgcurr <= |ps|
      ensures !r.Complete? ==> (r.Incomplete? <==> sent != []) && (r.SoftError? <==> answer.WouldBlock? && updateOk)
      ensures sent == if !r.Complete? && answer.Sent? then HeaderBytes(request, d, |ps|) + ps[d] else []
      ensures UdpSending(ps, request, if sent == [] then d else d + 1)
    {
      hide Tiled, Pending, Headed, SendOk, Later, HeaderBytes, Unsent;
      if msgcurr == 0 {
        BuildUdpHeaders(request, ps, d);
      }
      UdpReady(ps, request, d);
      ghost var vs, ms, left := Vecs(), Msgs(), Left();
      r, sent := Transmit(answer, updateOk);
      StillSending();
      if sent != [] {
        assert sent == left[..|sent|];
        DatagramGone(vs, ms, Vecs(), Msgs(), ps, request, d);
      }
    }

    lemma StillSending()
      requires Sending()
      ensures Tiled(Msgs(), msgcurr, iovused)
    {
    }

    lemma ReadyForUdp(request: nat) returns (ps: seq<seq<byte>>)
      requires Valid() && udp && !Begun()
      ensures UdpSending(ps, request, 0) && Concat(ps) == Planned()
      ensures forall k :: 0 <= k < |ps| ==> UDP_HEADER_SIZE + |ps[k]| <= UDP_MAX_PAYLOAD_SIZE
    {
      ps := PlanIsPending(Vecs(), Msgs(), msgbytes);
      forall k | 0 <= k < |ps| ensures UDP_HEADER_SIZE + |ps[k]| <= UDP_MAX_PAYLOAD_SIZE {
        assert Awaits(Vecs(), Msgs()[k], ps[k]);
      }
    }

    lemma BehindExact(ps: seq<seq<byte>>, request: nat, d: nat)
      requires UdpSending(ps, request, d)
      ensures WritesBehind() <==> msgcurr == 0 && d == |ps| == 1 && iovused == iov.Length
    {
      if msgcurr == 0 {
        WhereHeadersGo(ps, request, d, 0);
      }
    }

    /** The datagrams sent are the first ones, each a header and its payload. */
    ghost predicate Seen(sent: seq<seq<byte>>, ps: seq<seq<byte>>, request: nat) {
      |sent| <= |ps| && forall k :: 0 <= k < |sent| ==> sent[k] == HeaderBytes(request, k, |ps|) + ps[k]
    }

    /**
     The same over UDP, where the kernel takes a datagram whole or not at all. The buffers are cut into
     payloads that fit a datagram; each goes out once, in order, behind the header that says its number
     and how many there are. `behind`: build_udp_headers would write behind the entry array, which
     happens when everything is sent, in one datagram whose entries fill the array exactly.
    */
    method RespondUdp(bufs: seq<seq<byte>>, request: nat, answers: seq<(SendResult, bool)>)
      returns (r: TransmitResult, rounds: nat, behind: bool, ghost ps: seq<seq<byte>>, ghost sent: seq<seq<byte>>)
      requires Shape() && udp
      requires forall i :: 0 <= i < |answers| && answers[i].0.Sent? ==> answers[i].0.n >= UDP_MAX_PAYLOAD_SIZE
      modifies this`iov, this`iovused, this`msglist, this`msgused, this`msgbytes, this`msgcurr, iov, msglist
      ensures Concat(ps) == Concat(bufs) && forall k :: 0 <= k < |ps| ==> UDP_HEADER_SIZE + |ps[k]| <= UDP_MAX_PAYLOAD_SIZE
      ensures Seen(sent, ps, request) && UdpSending(ps, request, |sent|)
      ensures r.Complete? ==> |sent| == |ps|
      ensures behind ==> |sent| == 1
      ensures if |ps| == 1 && iovused == iov.Length then !r.Complete? else !behind
      ensures r.Complete? && request < 65536 && |ps| < 65536 ==> Reassembles(sent, Concat(bufs))
      ensures rounds <= |answers| && (rounds < |answers| ==> r.Complete? || r.HardError? || behind)
      ensures r.HardError? ==> rounds > 0 && !answers[rounds - 1].0.Sent? && !(answers[rounds - 1].0.WouldBlock? && answers[rounds - 1].1)
      ensures (forall i :: 0 <= i < |answers| ==> answers[i].0.Sent?) && |answers| > |ps| ==> r.Complete? || behind
    {
      hide PlanOk, Concat, UdpSending, WritesBehind, HeaderBytes, Reassembles;
      PlanAll(bufs);
      ps := ReadyForUdp(request);
      sent, behind, r, rounds := [], false, Incomplete, 0;
      ghost var one := |ps| == 1;
      ghost var lively := forall i :: 0 <= i < |answers| ==> answers[i].0.Sent?;
      while rounds < |answers|
        invariant 0 <= rounds <= |answers| && !r.HardError? && (lively ==> rounds == |sent|)
        invariant Shape() && msgused > 0 && UdpSending(ps, request, |sent|) && Seen(sent, ps, request)
        invariant !r.Complete? && (one ==> msgcurr == 0)
        invariant (iov == old(iov) || fresh(iov)) && (msglist == old(msglist) || fresh(msglist))
      {
        BehindExact(ps, request, |sent|);
        behind := WritesBehind();
        if behind {
          return;
        }
        ghost var datagram;
        r, datagram := SendDatagram(request, answers[rounds].0, answers[rounds].1, ps, |sent|);
        rounds := rounds + 1;
        if datagram != [] {
          sent := sent + [datagram];
        }
        if r.Complete? && request < 65536 && |ps| < 65536 {
          AllSentReassembles(sent, ps, request);
        }
        if r.Complete? || r.HardError? {
          return;
        }
      }
    }
  }

  /** A header and 399 buffers of one byte fill the array: the round after the only datagram writes behind it. */
  method HeadersBehindTheArray() returns (o: Output, ghost ps: seq<seq<byte>>)
    ensures o.UdpSending(ps, 7, |ps|) && |ps| == 1 && o.WritesBehind()
  {
    hide PlanOk, Output.UdpSending, Output.WritesBehind, HeaderBytes;
    o := new Output(true);
    o.Restart();
    for i := 0 to IOV_LIST_INITIAL - 1
      invariant fresh(o) && fresh(o.iov) && fresh(o.msglist) && o.Valid() && o.udp && !o.Begun() && o.msgused == 1
      invariant o.iov.Length == IOV_LIST_INITIAL && o.iovused == i + 1
      invariant o.msglist[0].iovlen == i + 1 && o.msgbytes == UDP_HEADER_SIZE + i
    {
      o.AddIov(Data([0]));
    }
    ps := o.ReadyForUdp(7);
    Planned(o, ps);
    o.BehindExact(ps, 7, 0);
    var r;
    ghost var sent;
    r, sent := o.SendDatagram(7, Sent(UDP_MAX_PAYLOAD_SIZE), true, ps, 0);
    o.BehindExact(ps, 7, 1);
  }

  lemma Planned(o: Output, ps: seq<seq<byte>>)
    requires o.UdpSending(ps, 7, 0)
    ensures |ps| == o.msgused && o.msgcurr == 0
  {
  }
}
