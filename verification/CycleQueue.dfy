/**
 The self-stretching circular queue of ngix_module/AIS/cyclequeue.c: a ring of linked nodes,
 into which whole buckets of nodes are spliced behind the tail when the ring is full, and from
 which the newest bucket is taken out again when it has fallen idle.
*/
module CycleQueueModel {
  import opened Lists

  /** A void pointer to a stored element; a node holds an element exactly when its pointer is not NULL. */
  datatype Pointer<T> = Null | To(value: T)

  class Node<T> {
    var next: Node?<T>
    var val: Pointer<T>

    constructor ()
      ensures val == Null && next == null
    {
      next, val := null, Null;
    }
  }

  /** eg_cg_bucket_t; `nodes` stands for the node array, `head` for the node it was spliced behind. */
  class Bucket<T> {
    const nodes: seq<Node<T>>
    const head: Node?<T>
    const next: Bucket?<T>

    constructor (nodes: seq<Node<T>>, head: Node?<T>, next: Bucket?<T>)
      ensures this.nodes == nodes && this.head == head && this.next == next
    {
      this.nodes, this.head, this.next := nodes, head, next;
    }
  }

  // ---------- rings as sequences ----------

  ghost function IndexOf<N>(s: seq<N>, x: N): (p: nat)
    requires x in s
    ensures p < |s| && s[p] == x
  {
    var p :| 0 <= p < |s| && s[p] == x; p
  }

  ghost function InsertAfter<N>(s: seq<N>, x: N, new_: seq<N>): seq<N>
    requires x in s
  {
    var p := IndexOf(s, x) + 1;
    s[..p] + new_ + s[p..]
  }

  /** The ring read from position h on. */
  ghost function Rotate<N>(s: seq<N>, h: nat): seq<N>
    requires h <= |s|
  {
    s[h..] + s[..h]
  }

  /** The buckets form a stack, oldest first; each newer one knows a node of the ring below it. */
  ghost predicate IsStack<T>(stack: seq<Bucket<T>>)
    decreases |stack|
  {
    && |stack| > 0
    && |stack[|stack| - 1].nodes| > 0
    && if |stack| == 1 then Distinct(stack[0].nodes)
       else
         var b, below := stack[|stack| - 1], stack[..|stack| - 1];
         && IsStack(below)
         && b.head != null && b.head in RingOf(below)
         && b.next == below[|below| - 1]
         && Distinct(RingOf(below) + b.nodes)
  }

  /** The ring that a stack of buckets makes, starting with the first node of the oldest bucket. */
  ghost function RingOf<T>(stack: seq<Bucket<T>>): seq<Node<T>>
    decreases |stack|, 0
  {
    if |stack| == 0 then []
    else if |stack| == 1 then stack[0].nodes
    else
      var b, below := stack[|stack| - 1], RingOf(stack[..|stack| - 1]);
      if b.head != null && b.head in below then InsertAfter(below, b.head, b.nodes) else below + b.nodes
  }

  lemma RotateStep<N>(s: seq<N>, h: nat)
    requires h < |s|
    ensures var r := Rotate(s, h); r[1..] + [r[0]] == Rotate(s, if h + 1 == |s| then 0 else h + 1)
  {
  }

  lemma RotateHead<N>(s: seq<N>, h: nat)
    requires h < |s|
    ensures Rotate(s, h)[0] == s[h]
  {
  }

  /** Splicing behind the last node of the rotated ring appends there. */
  lemma RotateInsert<N>(s: seq<N>, h: nat, new_: seq<N>) returns (h': nat)
    requires h < |s| && Distinct(s)
    ensures h' <= |s| + |new_| && (|new_| > 0 ==> h' < |s| + |new_|)
    ensures var last := Rotate(s, h)[|s| - 1];
      last in s && |InsertAfter(s, last, new_)| == |s| + |new_|
      && Rotate(s, h) + new_ == Rotate(InsertAfter(s, last, new_), h')
  {
    var last := Rotate(s, h)[|s| - 1];
    if h == 0 {
      h' := 0;
      assert last == s[|s| - 1];
      assert IndexOf(s, last) == |s| - 1;
    } else {
      assert last == s[h - 1];
      assert IndexOf(s, last) == h - 1;
      h' := h + |new_|;
      var t := InsertAfter(s, last, new_);
      assert t[h'..] == s[h..];
      assert t[..h'] == s[..h] + new_;
    }
  }

  lemma RotateCutAhead<N>(s: seq<N>, h: nat, p: nat)
    requires h <= p <= |s|
    ensures Rotate(s, h)[..p - h] == s[h..p] && Rotate(s, h)[p - h..] == s[p..] + s[..h]
  {
    assert s[h..] == s[h..p] + s[p..];
  }

  lemma RotateCutBehind<N>(s: seq<N>, h: nat, p: nat)
    requires p <= h <= |s|
    ensures Rotate(s, h)[..|s| - h + p] == s[h..] + s[..p] && Rotate(s, h)[|s| - h + p..] == s[p..h]
  {
    assert s[..h] == s[..p] + s[p..h];
  }

  /** Where a spliced bucket lies in the rotated ring when the ring's first node is not one of its nodes. */
  lemma RotateRemove<N>(s: seq<N>, x: N, new_: seq<N>, h': nat) returns (h: nat, q: nat)
    requires x in s && Distinct(s + new_) && h' < |s| + |new_|
    requires InsertAfter(s, x, new_)[h'] !in new_
    ensures h < |s| && 0 < q <= |s| && Rotate(s, h)[q - 1] == x
    ensures Rotate(InsertAfter(s, x, new_), h') == Rotate(s, h)[..q] + new_ + Rotate(s, h)[q..]
  {
    var p := IndexOf(s, x) + 1;
    var t := InsertAfter(s, x, new_);
    if h' < p {
      h, q := h', p - h';
      assert t[h'..] == s[h..p] + new_ + s[p..];
      assert t[..h'] == s[..h];
      RotateCutAhead(s, h, p);
    } else if h' < p + |new_| {
      assert false;
    } else {
      h := h' - |new_|;
      q := |s| - h + p;
      assert t[h'..] == s[h..];
      assert t[..h'] == s[..p] + new_ + s[p..h];
      RotateCutBehind(s, h, p);
    }
  }

  lemma DistinctInsert<N>(s: seq<N>, x: N, new_: seq<N>)
    requires x in s && Distinct(s + new_)
    ensures Distinct(InsertAfter(s, x, new_))
  {
    var p := IndexOf(s, x) + 1;
    var t := InsertAfter(s, x, new_);
    forall i, j | 0 <= i < j < |t| ensures t[i] != t[j] {
      var i', j' := Unsplice(i, p, |s|, |new_|), Unsplice(j, p, |s|, |new_|);
      assert t[i] == (s + new_)[i'] && t[j] == (s + new_)[j'] && i' != j';
    }
  }

  /** Position in s + new_ of what lies at position i of the spliced sequence. */
  function Unsplice(i: nat, p: nat, n: nat, k: nat): nat {
    if i < p then i else if i < p + k then n + (i - p) else i - k
  }

  lemma DistinctRotate<N>(s: seq<N>, h: nat)
    requires h <= |s| && Distinct(s)
    ensures Distinct(Rotate(s, h)) && |Rotate(s, h)| == |s|
    ensures forall x :: x in Rotate(s, h) <==> x in s
  {
    assert s == s[..h] + s[h..];
  }

  lemma {:induction false} RingDistinct<T>(stack: seq<Bucket<T>>)
    requires IsStack(stack)
    ensures Distinct(RingOf(stack)) && |RingOf(stack)| > 0
    decreases |stack|
  {
    if |stack| > 1 {
      var b := stack[|stack| - 1];
      RingDistinct(stack[..|stack| - 1]);
      DistinctInsert(RingOf(stack[..|stack| - 1]), b.head, b.nodes);
    }
  }

  ghost function NodesOf<T>(stack: seq<Bucket<T>>): seq<Node<T>>
    decreases |stack|
  {
    if |stack| == 0 then [] else NodesOf(stack[..|stack| - 1]) + stack[|stack| - 1].nodes
  }

  /** The ring visits every node of every bucket exactly once. */
  lemma {:induction false} RingIsAllBuckets<T>(stack: seq<Bucket<T>>)
    requires IsStack(stack)
    ensures Distinct(RingOf(stack))
    ensures multiset(RingOf(stack)) == multiset(NodesOf(stack))
    decreases |stack|
  {
    RingDistinct(stack);
    var b, below := stack[|stack| - 1], stack[..|stack| - 1];
    if |stack| == 1 {
      assert NodesOf(below) == [];
      assert [] + b.nodes == b.nodes;
    } else {
      RingIsAllBuckets(below);
      var r := RingOf(below);
      var p := IndexOf(r, b.head) + 1;
      assert r == r[..p] + r[p..];
    }
  }

  /** `ring` is the ring of the bucket stack, read from position `first` on. */
  ghost predicate IsRing<T>(stack: seq<Bucket<T>>, first: nat, ring: seq<Node<T>>) {
    IsStack(stack) && first < |RingOf(stack)| && ring == Rotate(RingOf(stack), first)
  }

  lemma NewestInRing<T>(stack: seq<Bucket<T>>, first: nat, ring: seq<Node<T>>, x: Node<T>)
    requires IsRing(stack, first, ring) && x in stack[|stack| - 1].nodes
    ensures x in ring
  {
    RingIsAllBuckets(stack);
    var t := RingOf(stack);
    assert x in NodesOf(stack);
    assert multiset(t)[x] > 0 && t == t[..first] + t[first..];
  }

  lemma RingFacts<T>(stack: seq<Bucket<T>>, first: nat, ring: seq<Node<T>>) returns (pos: map<Node<T>, nat>)
    requires IsRing(stack, first, ring)
    ensures |ring| > 0 && Numbered(ring, pos)
    ensures |stack| > 0 && |stack[|stack| - 1].nodes| > 0
    ensures |stack| > 1 ==> stack[|stack| - 1].next == stack[|stack| - 2] && stack[|stack| - 1].head != null
  {
    RingDistinct(stack);
    DistinctRotate(RingOf(stack), first);
    pos := map x | x in ring :: IndexOf(ring, x);
  }

  lemma GrowRing<T>(stack: seq<Bucket<T>>, first: nat, ring: seq<Node<T>>, bt: Bucket<T>,
                    owned: set<Node<T>>, added: set<Node<T>>) returns (first': nat)
    requires IsRing(stack, first, ring) && |bt.nodes| > 0
    requires |ring| > 0 && bt.head == ring[|ring| - 1] && bt.next == stack[|stack| - 1]
    requires Distinct(bt.nodes) && owned !! added
    requires forall i :: 0 <= i < |ring| ==> ring[i] in owned
    requires forall i :: 0 <= i < |bt.nodes| ==> bt.nodes[i] in added
    ensures IsRing(stack + [bt], first', ring + bt.nodes)
  {
    hide IsStack, RingOf, Distinct, InsertAfter;
    var below := RingOf(stack);
    RingDistinct(stack);
    DistinctRotate(below, first);
    assert forall i :: 0 <= i < |bt.nodes| ==> bt.nodes[i] !in below;
    first' := RotateInsert<Node?<T>>(below, first, bt.nodes);
    GrowStack(stack, bt);
  }

  /** Where the newest bucket lies in a ring that does not start inside it. */
  lemma BucketPlace<T>(stack: seq<Bucket<T>>, first: nat, ring: seq<Node<T>>) returns (h: nat, q: nat, rest: seq<Node<T>>)
    requires IsRing(stack, first, ring) && |stack| > 1 && |ring| > 0
    requires ring[0] !in stack[|stack| - 1].nodes
    ensures var b := stack[|stack| - 1];
      && Cut(ring, rest, q, |b.nodes|) && rest[q - 1] == b.head
      && ring == rest[..q] + b.nodes + rest[q..]
      && (forall i :: 0 <= i < |b.nodes| ==> ring[q + i] == b.nodes[i])
    ensures IsRing(stack[..|stack| - 1], h, rest)
  {
    var below, b := RingOf(stack[..|stack| - 1]), stack[|stack| - 1];
    assert RingOf(stack) == InsertAfter(below, b.head, b.nodes);
    RotateHead(RingOf(stack), first);
    h, q := RotateRemove(below, b.head, b.nodes, first);
    rest := Rotate(below, h);
    RingDistinct(stack[..|stack| - 1]);
    DistinctRotate(below, h);
    hide RingOf, InsertAfter, Distinct, Rotate;
  }

  lemma GrowStack<T>(stack: seq<Bucket<T>>, bt: Bucket<T>)
    requires IsStack(stack) && Distinct(RingOf(stack)) && |bt.nodes| > 0 && Distinct(bt.nodes)
    requires bt.head != null && bt.head in RingOf(stack) && bt.next == stack[|stack| - 1]
    requires forall i :: 0 <= i < |bt.nodes| ==> bt.nodes[i] !in RingOf(stack)
    ensures IsStack(stack + [bt])
    ensures RingOf(stack + [bt]) == InsertAfter(RingOf(stack), bt.head, bt.nodes)
  {
    assert (stack + [bt])[..|stack|] == stack;
  }

  lemma TurnRing<T>(stack: seq<Bucket<T>>, first: nat, ring: seq<Node<T>>)
    requires IsRing(stack, first, ring)
    ensures IsRing(stack, if first + 1 == |ring| then 0 else first + 1, ring[1..] + [ring[0]])
  {
    RotateStep(RingOf(stack), first);
  }

  // ---------- linked rings ----------

  /** Every node of the ring points to the next one, the last to the first. */
  ghost predicate Cyclic<T>(ring: seq<Node<T>>, owned: set<Node<T>>)
    reads owned`next
  {
    && (forall i :: 0 <= i < |ring| ==> ring[i] in owned)
    && forall i {:trigger ring[i].next} :: 0 <= i < |ring| ==> ring[i].next == ring[if i + 1 == |ring| then 0 else i + 1]
  }

  /** The first nodes of the ring hold the elements, the others hold NULL. */
  ghost predicate Holds<T>(ring: seq<Node<T>>, contents: seq<T>, owned: set<Node<T>>)
    reads owned`val
  {
    && |contents| < |ring|
    && (forall i :: 0 <= i < |ring| ==> ring[i] in owned)
    && (forall i :: 0 <= i < |contents| ==> ring[i].val == To(contents[i]))
    && (forall i :: |contents| <= i < |ring| ==> ring[i].val == Null)
  }

  /** eg_cq_initbucket: n cleared nodes, each linked to the next. */
  method NewNodes<T>(n: nat) returns (nodes: seq<Node<T>>, ghost pos: map<Node<T>, nat>, ghost all: set<Node<T>>)
    requires n > 0
    ensures |nodes| == n && fresh(all) && (forall i :: 0 <= i < n ==> nodes[i] in all)
    ensures Numbered(nodes, pos) && Distinct(nodes)
    ensures forall i :: 0 <= i < n ==> nodes[i].val == Null
    ensures forall i {:trigger nodes[i].next} :: 0 <= i < n - 1 ==> nodes[i].next == nodes[i + 1]
  {
    nodes, pos, all := [], map[], {};
    for i := 0 to n
      invariant |nodes| == i && fresh(all) && Numbered(nodes, pos)
      invariant forall k :: 0 <= k < i ==> nodes[k] in all
      invariant forall k :: 0 <= k < i ==> nodes[k].val == Null
      invariant forall k {:trigger nodes[k].next} :: 0 <= k < i - 1 ==> nodes[k].next == nodes[k + 1]
    {
      var node := new Node<T>();
      if i > 0 {
        nodes[i - 1].next := node;
      }
      pos, all := pos[node := i], all + {node};
      nodes := nodes + [node];
    }
  }

  /** The pointer part of eg_cq_inc, for a ring read up to the node `cur`. */
  method LinkBehind<T>(cur: Node<T>, nodes: seq<Node<T>>, last: Node<T>, ghost ring: seq<Node<T>>, ghost contents: seq<T>,
                       ghost pos: map<Node<T>, nat>, ghost newPos: map<Node<T>, nat>,
                       ghost owned: set<Node<T>>, ghost added: set<Node<T>>)
    requires |ring| > 0 && |nodes| > 0 && cur == ring[|ring| - 1] && last == nodes[|nodes| - 1]
    requires Cyclic(ring, owned) && Numbered(ring, pos) && Numbered(nodes, newPos) && Holds(ring, contents, owned)
    requires forall i :: 0 <= i < |nodes| ==> nodes[i] in added && nodes[i].val == Null
    requires forall i {:trigger nodes[i].next} :: 0 <= i < |nodes| - 1 ==> nodes[i].next == nodes[i + 1]
    requires owned !! added
    modifies cur`next, last`next
    ensures Cyclic(ring + nodes, owned + added) && Holds(ring + nodes, contents, owned + added)
  {
    assert ring[|ring| - 1].next == ring[0];
    last.next := cur.next;
    cur.next := nodes[0];
    ghost var all := ring + nodes;
    forall i | 0 <= i < |all|
      ensures all[i].next == all[if i + 1 == |all| then 0 else i + 1]
    {
      if i < |ring| - 1 {
        assert all[i] == ring[i] && all[i] != cur && all[i] != last;
        assert old(ring[i].next) == ring[i + 1];
      } else if |ring| <= i < |all| - 1 {
        assert all[i] == nodes[i - |ring|] && all[i] != cur && all[i] != last;
        assert old(nodes[i - |ring|].next) == nodes[i - |ring| + 1];
      }
    }
  }

  /** `rest` is the ring without n nodes from position q on. */
  ghost predicate Cut<T>(ring: seq<Node<T>>, rest: seq<Node<T>>, q: nat, n: nat) {
    && 0 < q <= |rest| && n > 0 && |ring| == |rest| + n
    && (forall i :: 0 <= i < q ==> rest[i] == ring[i])
    && (forall i :: q <= i < |rest| ==> rest[i] == ring[i + n])
  }

  /** The pointer part of eg_cq_dec: n nodes from position q of the ring on drop out. */
  method Unlink<T>(before: Node<T>, last: Node<T>, ghost ring: seq<Node<T>>, ghost rest: seq<Node<T>>,
                   ghost q: nat, ghost n: nat, ghost pos: map<Node<T>, nat>, ghost owned: set<Node<T>>)
    requires Cut(ring, rest, q, n) && before == rest[q - 1] && last == ring[q + n - 1]
    requires Cyclic(ring, owned) && Numbered(rest, pos)
    modifies before`next
    ensures Cyclic(rest, owned)
  {
    assert ring[q + n - 1].next == ring[if q + n == |ring| then 0 else q + n];
    assert rest[0] == ring[0] && (q < |rest| ==> rest[q] == ring[q + n]);
    before.next := last.next;
    assert before.next == rest[if q == |rest| then 0 else q];
    forall i | 0 <= i < q - 1 ensures rest[i].next == rest[i + 1] {
      assert rest[i] == ring[i] != before;
      assert old(ring[i].next) == ring[i + 1];
    }
    forall i | q <= i < |rest| ensures rest[i].next == rest[if i + 1 == |rest| then 0 else i + 1] {
      assert rest[i] == ring[i + n] != before;
      assert old(ring[i + n].next) == ring[if i + n + 1 == |ring| then 0 else i + n + 1];
      assert i + 1 < |rest| ==> rest[i + 1] == ring[i + 1 + n];
    }
  }

  lemma HoldsCut<T>(ring: seq<Node<T>>, rest: seq<Node<T>>, contents: seq<T>, q: nat, n: nat, owned: set<Node<T>>)
    requires Cut(ring, rest, q, n) && |contents| < q && Holds(ring, contents, owned)
    ensures Holds(rest, contents, owned)
  {
  }

  lemma NextIs<T>(ring: seq<Node<T>>, owned: set<Node<T>>, i: nat)
    requires Cyclic(ring, owned) && i < |ring|
    ensures ring[i] in owned && ring[i].next == ring[if i + 1 == |ring| then 0 else i + 1]
  {
  }

  lemma Turned<T>(ring: seq<Node<T>>, owned: set<Node<T>>)
    requires Cyclic(ring, owned) && |ring| > 0
    ensures Cyclic(ring[1..] + [ring[0]], owned)
  {
    var r := ring[1..] + [ring[0]];
    forall i | 0 <= i < |r|
      ensures r[i].next == r[if i + 1 == |r| then 0 else i + 1]
    {
      var j := if i + 1 == |ring| then 0 else i + 1;
      assert r[i] == ring[j] && ring[j].next == ring[if j + 1 == |ring| then 0 else j + 1];
    }
  }

  // ---------- the queue ----------

  /** The abstract state: bucket stack, ring from the head on, where the head stands in it, nodes, stored elements. */
  datatype Model<!T> = Model(
    stack: seq<Bucket<T>>,
    ring: seq<Node<T>>,
    first: nat,
    owned: set<Node<T>>,
    contents: seq<T>)  // oldest first

  class CycleQueue<T> {
    var head: Node<T>
    var tail: Node<T>
    var btlist: Bucket<T>
    var size: int
    var btIndex: int
    ghost var m: Model<T>

    ghost predicate Valid()
      reads this, m.owned
    {
      && IsRing(m.stack, m.first, m.ring)
      && |m.stack| > 0 && btlist == m.stack[|m.stack| - 1] && btIndex == |m.stack| - 1
      && size == |m.ring| > |m.contents| && head == m.ring[0] && tail == m.ring[|m.contents|]
      && Cyclic(m.ring, m.owned) && Holds(m.ring, m.contents, m.owned)
    }

    /** The test of eg_cq_push before it gives the newest bucket up. */
    predicate Idle()
      requires |btlist.nodes| > 0
      reads this, btlist.nodes
    {
      && btlist.nodes[0].val == Null && btlist.nodes[|btlist.nodes| - 1].val == Null
      && tail !in btlist.nodes
    }

    /** The next push gives a bucket up although the rest of the ring then has only its own node left. */
    ghost predicate ShrinksToFull()
      requires Valid()
      reads this, m.owned, btlist.nodes
    {
      |m.contents| + 1 < size && btIndex > 0 && Idle() && size - |btlist.nodes| == |m.contents| + 1
    }

    constructor (size: nat)
      requires size > 0
      ensures Valid() && m.contents == [] && fresh(m.owned) && this.size == size && |btlist.nodes| == size && btIndex == 0
    {
      var nodes, pos, all := NewNodes<T>(size);
      nodes[size - 1].next := nodes[0];
      var bt := new Bucket(nodes, null, null);
      head, tail, btlist := nodes[0], nodes[0], bt;
      this.size, btIndex := size, 0;
      m := Model([bt], nodes, 0, all, []);
    }

    predicate Empty()
      reads this
    {
      head == tail
    }

    lemma EmptyExact()
      requires Valid()
      ensures Empty() <==> m.contents == []
    {
      var pos := RingFacts(m.stack, m.first, m.ring);
    }

    /** Splice a new bucket, as large as the newest one, in behind the tail. */
    method Inc()
      requires Valid() && |m.contents| + 1 == size
      modifies this, m.owned
      ensures Valid() && m.contents == old(m.contents) && tail == old(tail)
      ensures m.stack == old(m.stack) + [btlist] && |btlist.nodes| == |old(btlist).nodes|
      ensures fresh(btlist) && fresh(m.owned - old(m.owned))
      ensures m.ring == old(m.ring) + btlist.nodes && size == old(size) + |btlist.nodes|
    {
      hide IsRing, Distinct, Numbered, Cyclic, Holds;
      RingOwned();
      ghost var pos := RingFacts(m.stack, m.first, m.ring);
      var nodes, newPos, added := NewNodes<T>(|btlist.nodes|);
      var bt := new Bucket(nodes, tail, btlist);
      ghost var h := GrowRing(m.stack, m.first, m.ring, bt, m.owned, added);
      Splice(bt, nodes[|nodes| - 1], h, pos, newPos, added);
    }

    /** The pointers and fields of eg_cq_inc. */
    method Splice(bt: Bucket<T>, last: Node<T>, ghost h: nat, ghost pos: map<Node<T>, nat>, ghost newPos: map<Node<T>, nat>, ghost added: set<Node<T>>)
      requires Valid() && |m.contents| + 1 == size && |bt.nodes| > 0 && last == bt.nodes[|bt.nodes| - 1] && added !! m.owned
      requires Numbered(m.ring, pos) && Numbered(bt.nodes, newPos) && IsRing(m.stack + [bt], h, m.ring + bt.nodes)
      requires forall i :: 0 <= i < |bt.nodes| ==> bt.nodes[i] in added && bt.nodes[i].val == Null
      requires forall i {:trigger bt.nodes[i].next} :: 0 <= i < |bt.nodes| - 1 ==> bt.nodes[i].next == bt.nodes[i + 1]
      modifies this`btlist, this`size, this`btIndex, this`m, tail`next, last`next
      ensures Valid() && btlist == bt && size == old(size) + |bt.nodes|
      ensures m == Model(old(m.stack) + [bt], old(m.ring) + bt.nodes, h, old(m.owned) + added, old(m.contents))
    {
      hide IsRing, Distinct, Numbered, Cyclic, Holds;
      LinkBehind(tail, bt.nodes, last, m.ring, m.contents, pos, newPos, m.owned, added);
      btlist, size, btIndex := bt, size + |bt.nodes|, btIndex + 1;
      m := Model(m.stack + [bt], m.ring + bt.nodes, h, m.owned + added, m.contents);
    }

    lemma RingOwned()
      requires Valid()
      ensures tail in m.owned && forall i :: 0 <= i < |m.ring| ==> m.ring[i] in m.owned
    {
    }

    /** An idle newest bucket lies, whole and in order, behind the live part of the ring. */
    lemma IdlePlace() returns (h: nat, q: nat, rest: seq<Node<T>>)
      requires Valid() && btIndex > 0 && Idle()
      ensures Cut(m.ring, rest, q, |btlist.nodes|) && |m.contents| < q <= |rest| && |m.ring| == |rest| + |btlist.nodes|
      ensures rest[q - 1] == btlist.head && forall i :: 0 <= i < q ==> rest[i] == m.ring[i]
      ensures m.ring == rest[..q] + btlist.nodes + rest[q..]
      ensures IsRing(m.stack[..|m.stack| - 1], h, rest)
    {
      HeadOutsideIdle();
      h, q, rest := BucketPlace(m.stack, m.first, m.ring);
      LiveBefore(q);
    }

    lemma LiveBefore(q: nat)
      requires Valid() && |btlist.nodes| > 0 && Idle() && q + |btlist.nodes| <= |m.ring|
      requires forall i :: 0 <= i < |btlist.nodes| ==> m.ring[q + i] == btlist.nodes[i]
      ensures |m.contents| < q
    {
      hide IsRing, Cyclic;
      assert forall i :: q <= i < q + |btlist.nodes| ==> m.ring[i] == btlist.nodes[i - q];
      assert m.ring[q] == btlist.nodes[0];
    }

    /** The head is not inside an idle bucket. */
    lemma HeadOutsideIdle()
      requires Valid() && btIndex > 0 && Idle()
      ensures head !in btlist.nodes
    {
      var below, b, s := RingOf(m.stack[..|m.stack| - 1]), btlist, |btlist.nodes|;
      var t, p := RingOf(m.stack), IndexOf(below, b.head) + 1;
      RingDistinct(m.stack);
      if head in b.nodes {
        var j :| 0 <= j < s && b.nodes[j] == head;
        assert t[p + j] == head == t[m.first];
        forall k | j <= k < s ensures b.nodes[k] == m.ring[k - j] {
          assert b.nodes[k] == t[p + k];
        }
        assert false;
      }
    }

    /** No node of an idle bucket holds an element, although only its ends were looked at. */
    lemma NoLiveNodeInIdle()
      requires Valid() && btIndex > 0 && Idle()
      ensures forall n :: n in btlist.nodes ==> n.val == Null
    {
      var h, q, rest := IdlePlace();
      forall n | n in btlist.nodes ensures n.val == Null {
        var j :| 0 <= j < |btlist.nodes| && btlist.nodes[j] == n;
        assert m.ring[q + j] == n;
      }
    }

    /** The test of its two ends and the tail is exact: the newest bucket is idle when neither a live node nor the tail is in it. */
    lemma IdleExact()
      requires Valid() && btIndex > 0 && |btlist.nodes| > 0
      ensures Idle() <==> forall i :: 0 <= i <= |m.contents| ==> m.ring[i] !in btlist.nodes
    {
      if Idle() {
        NoLiveNodeInIdle();
      } else {
        EndsInRing();
      }
    }

    lemma EndsInRing()
      requires Valid() && |btlist.nodes| > 0
      ensures btlist.nodes[0] in m.ring && btlist.nodes[|btlist.nodes| - 1] in m.ring
    {
      NewestInRing(m.stack, m.first, m.ring, btlist.nodes[0]);
      NewestInRing(m.stack, m.first, m.ring, btlist.nodes[|btlist.nodes| - 1]);
    }

    /** Take the newest bucket out again. */
    method Dec()
      requires Valid() && btIndex > 0 && Idle()
      modifies this, m.owned
      ensures Valid() && m.contents == old(m.contents) && tail == old(tail)
      ensures m.stack == old(m.stack)[..|old(m.stack)| - 1] && m.owned == old(m.owned)
      ensures size == old(size) - |old(btlist).nodes|
    {
      hide IsRing, Distinct, Numbered, Cyclic, Cut, Holds;
      ghost var pos := RingFacts(m.stack, m.first, m.ring);
      ghost var h, q, rest := IdlePlace();
      ghost var pos' := RingFacts(m.stack[..|m.stack| - 1], h, rest);
      var b, n := btlist, |btlist.nodes|;
      assert m.ring[q - 1] == rest[q - 1] && m.ring[q + n - 1] == b.nodes[n - 1];
      NextIs(m.ring, m.owned, q - 1);
      HoldsCut(m.ring, rest, m.contents, q, n, m.owned);
      Unlink(b.head, b.nodes[n - 1], m.ring, rest, q, n, pos', m.owned);
      btlist, size, btIndex := b.next, size - n, btIndex - 1;
      m := Model(m.stack[..|m.stack| - 1], rest, h, m.owned, m.contents);
    }

    /**
     eg_cq_push of a non-NULL element. It appends the element, unless it shrinks the ring until only
     the written node was free: then the full ring reads as an empty one.
    */
    method Push(v: T)
      requires Valid()
      modifies this, m.owned
      ensures fresh(m.owned - old(m.owned))
      ensures |old(m.contents)| + 1 == old(size) ==>
        && m.stack == old(m.stack) + [btlist] && m.ring == old(m.ring) + btlist.nodes
        && |btlist.nodes| == old(|btlist.nodes|) && btIndex == old(btIndex) + 1
      ensures |old(m.contents)| + 1 < old(size) && !old(btIndex > 0 && |btlist.nodes| > 0 && Idle()) ==>
        m.ring == old(m.ring) && btlist == old(btlist) && btIndex == old(btIndex)
      ensures |old(m.contents)| + 1 < old(size) ==>
        m.stack == if old(btIndex) > 0 && old(|btlist.nodes| > 0 && Idle()) then old(m.stack)[..|old(m.stack)| - 1] else old(m.stack)
      ensures !old(ShrinksToFull()) ==> Valid() && m.contents == old(m.contents) + [v]
      ensures old(ShrinksToFull()) ==> Empty() && Overrun(old(m.contents) + [v])
    {
      hide IsRing, Cyclic, Holds, Distinct;
      var full := IsFull();
      if full {
        Inc();
        BucketNotEmpty();
      } else if btIndex > 0 {
        BucketNotEmpty();
        if Idle() {
          Dec();
        }
      }
      Store(v);
    }

    /** Every node of the ring holds an element, so that head and tail coincide as in an empty queue. */
    ghost predicate Overrun(vs: seq<T>)
      reads this, m.owned
    {
      && |m.ring| == |vs| > 0 && Cyclic(m.ring, m.owned) && head == tail == m.ring[0]
      && forall i :: 0 <= i < |vs| ==> m.ring[i].val == To(vs[i])
    }

    lemma BucketNotEmpty()
      requires Valid()
      ensures |btlist.nodes| > 0
    {
      var pos := RingFacts(m.stack, m.first, m.ring);
    }

    /** cur->next == cq->head: the tail node is the only free one. */
    method IsFull() returns (b: bool)
      requires Valid()
      ensures b <==> |m.contents| + 1 == size
    {
      hide IsRing, Distinct, Cyclic;
      ghost var pos := RingFacts(m.stack, m.first, m.ring);
      ghost var k := |m.contents|;
      NextIs(m.ring, m.owned, k);
      b := tail.next == head;
    }

    /** The end of eg_cq_push: write the tail node and step the tail. */
    method Store(v: T)
      requires Valid()
      modifies this, m.owned
      ensures m.owned == old(m.owned) && m.stack == old(m.stack) && m.ring == old(m.ring)
      ensures btlist == old(btlist) && btIndex == old(btIndex)
      ensures |old(m.contents)| + 1 < old(size) ==> Valid() && m.contents == old(m.contents) + [v]
      ensures |old(m.contents)| + 1 == old(size) ==> Overrun(old(m.contents) + [v])
    {
      hide IsRing, Distinct, Cyclic;
      ghost var pos := RingFacts(m.stack, m.first, m.ring);
      ghost var k := |m.contents|;
      NextIs(m.ring, m.owned, k);
      var cur := tail;
      cur.val := To(v);
      tail := cur.next;
      m := m.(contents := m.contents + [v]);
    }

    /** eg_cq_pop: the oldest element, or NULL when there is none. */
    method Pop() returns (r: Pointer<T>)
      requires Valid()
      modifies this, m.owned
      ensures Valid() && m.owned == old(m.owned)
      ensures old(m.contents) == [] ==> r == Null && m.contents == []
      ensures old(m.contents) != [] ==> r == To(old(m.contents)[0]) && m.contents == old(m.contents)[1..]
      ensures m.stack == old(m.stack) && size == old(size) && btlist == old(btlist) && btIndex == old(btIndex)
      ensures old(m.contents) != [] ==> m.ring == old(m.ring)[1..] + [old(m.ring)[0]]
    {
      hide IsRing, Distinct, Cyclic;
      ghost var pos := RingFacts(m.stack, m.first, m.ring);
      if head == tail {
        return Null;
      }
      NextIs(m.ring, m.owned, 0);
      r := head.val;
      head.val := Null;
      head := head.next;
      TurnRing(m.stack, m.first, m.ring);
      Turned(m.ring, m.owned);
      m := m.(ring := m.ring[1..] + [m.ring[0]], first := if m.first + 1 == |m.ring| then 0 else m.first + 1,
              contents := m.contents[1..]);
    }

    /** What the ring of a valid queue holds, node by node. */
    lemma RingHolds()
      requires Valid()
      ensures Distinct(m.ring) && |m.ring| == size > |m.contents| && tail == m.ring[|m.contents|]
      ensures forall i :: 0 <= i < |m.ring| ==> m.ring[i].val == if i < |m.contents| then To(m.contents[i]) else Null
    {
      RingDistinct(m.stack);
      DistinctRotate(RingOf(m.stack), m.first);
    }
  }

  /** A queue of two buckets of two nodes each: the ring, what it holds, and the newest bucket. */
  ghost predicate Stage(q: CycleQueue<int>, ring: seq<Node<int>>, contents: seq<int>, b0: Node<int>, b1: Node<int>)
    reads q, q.m.owned
  {
    q.Valid() && q.m.ring == ring && |ring| == 4 && q.m.contents == contents && q.btIndex == 1 && q.btlist.nodes == [b0, b1]
  }

  /** Two nodes, two values, and no room: the second push brings the second bucket. */
  method Stretched() returns (q: CycleQueue<int>, ghost n0: Node<int>, ghost n1: Node<int>, ghost b0: Node<int>, ghost b1: Node<int>)
    ensures Stage(q, [n0, n1, b0, b1], [1, 2], b0, b1) && fresh(q) && fresh(q.m.owned)
  {
    hide CycleQueue.Valid, CycleQueue.Idle, CycleQueue.Overrun;
    q := new CycleQueue(2);
    q.RingHolds();
    n0, n1 := q.m.ring[0], q.m.ring[1];
    assert q.m.ring == [n0, n1];
    assert !q.ShrinksToFull();
    q.Push(1);
    q.RingHolds();
    assert !q.ShrinksToFull();
    q.Push(2);
    b0, b1 := q.btlist.nodes[0], q.btlist.nodes[1];
    assert q.btlist.nodes == [b0, b1];
  }

  /** A push while the newest bucket is in use. */
  method StagePush(q: CycleQueue<int>, v: int, ghost ring: seq<Node<int>>, ghost contents: seq<int>, ghost b0: Node<int>, ghost b1: Node<int>)
    requires Stage(q, ring, contents, b0, b1) && |contents| < 3
    requires ring[|contents|] in [b0, b1] || exists i :: 0 <= i < |contents| && ring[i] == b0
    modifies q, q.m.owned
    ensures Stage(q, ring, contents + [v], b0, b1) && fresh(q.m.owned - old(q.m.owned))
  {
    q.RingHolds();
    assert !q.Idle();
    hide CycleQueue.Valid, CycleQueue.Idle, CycleQueue.Overrun;
    q.Push(v);
  }

  method StagePop(q: CycleQueue<int>, ghost ring: seq<Node<int>>, ghost contents: seq<int>, ghost b0: Node<int>, ghost b1: Node<int>)
    returns (ghost ring': seq<Node<int>>)
    requires Stage(q, ring, contents, b0, b1) && contents != []
    modifies q, q.m.owned
    ensures Stage(q, ring', contents[1..], b0, b1) && q.m.owned == old(q.m.owned)
    ensures ring' == [ring[1], ring[2], ring[3], ring[0]]
  {
    hide CycleQueue.Valid;
    var r := q.Pop();
    ring' := q.m.ring;
  }

  /** The push that overruns: the second bucket is idle and only one other node is free. */
  method StageOverrun(q: CycleQueue<int>, v: int, ghost ring: seq<Node<int>>, ghost contents: seq<int>, ghost b0: Node<int>, ghost b1: Node<int>)
    requires Stage(q, ring, contents, b0, b1) && |contents| == 1 && ring[2] == b0 && ring[3] == b1
    modifies q, q.m.owned
    ensures q.Empty() && q.Overrun(contents + [v])
  {
    q.RingHolds();
    assert q.tail == ring[1] && q.Idle() && q.ShrinksToFull();
    hide CycleQueue.Valid, CycleQueue.Idle, CycleQueue.Overrun;
    q.Push(v);
  }

  /**
     A run into the overrun: create(2), three pushes, then pop, push, pop, push, pop, pop, and one more
     push. It gives the second bucket up although the other ring has only its own node left.
  */
  method OverrunIsReachable() returns (q: CycleQueue<int>)
    ensures q.Empty() && q.Overrun([5, 6])
  {
    ghost var n0, n1, b0, b1;
    q, n0, n1, b0, b1 := Stretched();
    hide Stage;
    ghost var ring := [n0, n1, b0, b1];
    StagePush(q, 3, ring, [1, 2], b0, b1);
    ring := StagePop(q, ring, [1, 2] + [3], b0, b1);
    Held([1, 2] + [3], 1, 2, 3);
    StagePush(q, 4, ring, [2, 3], b0, b1);
    ring := StagePop(q, ring, [2, 3] + [4], b0, b1);
    Held([2, 3] + [4], 2, 3, 4);
    assert ring[0] == b0;
    StagePush(q, 5, ring, [3, 4], b0, b1);
    ring := StagePop(q, ring, [3, 4] + [5], b0, b1);
    Held([3, 4] + [5], 3, 4, 5);
    ring := StagePop(q, ring, [4, 5], b0, b1);
    assert [4, 5][1..] == [5] && [5] + [6] == [5, 6];
    StageOverrun(q, 6, ring, [5], b0, b1);
  }

  lemma Held(s: seq<int>, a: int, b: int, c: int)
    requires s == [a, b, c]
    ensures s[1..] == [b, c]
  {
  }
}
