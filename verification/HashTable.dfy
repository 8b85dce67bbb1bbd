/**
 The hash table of ngix_module/AIS/hashtable.c: every entry is in a doubly linked chain chosen by
 its hash and in one doubly linked traversal list; the chains are rebuilt from the traversal
 list when the number of chains changes.
*/
module HashTableModel {
  import opened Lists

  // ---------- sizes ----------

  const PRIMES: seq<nat> := [
    53, 97, 193, 389, 769,
    1543, 3079, 6151, 12289, 24593,
    49157, 98317, 196613, 393241, 786433,
    1572869, 3145739, 6291469, 12582917, 25165843,
    50331653, 100663319, 201326611, 402653189, 805306457,
    1610612741, 3221225473, 4294967291]

  const NUM_PRIMES := 28

  ghost predicate Ascending(s: seq<nat>) {
    forall i, j :: 0 <= i < j < |s| ==> s[i] < s[j]
  }

  lemma {:induction false} StepsAscend(s: seq<nat>, i: nat, j: nat)
    requires i < j < |s| && forall k :: 0 <= k < |s| - 1 ==> s[k] < s[k + 1]
    ensures s[i] < s[j]
    decreases j - i
  {
    if i + 1 < j {
      StepsAscend(s, i + 1, j);
    }
  }

  lemma PrimesAscend()
    ensures |PRIMES| == NUM_PRIMES && Ascending(PRIMES)
  {
    var s := PRIMES;
    assert forall k :: 0 <= k < |s| - 1 ==> s[k] < s[k + 1];
    forall i, j | 0 <= i < j < |s| ensures s[i] < s[j] {
      StepsAscend(s, i, j);
    }
  }

  /** r is the least element of the list not below n, or its largest one when n exceeds them all. */
  ghost predicate IsNextIn(list: seq<nat>, n: nat, r: nat) {
    && r in list
    && (r < n ==> forall p :: p in list ==> p <= r)
    && (r >= n ==> forall p :: p in list && p >= n ==> r <= p)
  }

  ghost predicate IsNextPrime(n: nat, r: nat) { IsNextIn(PRIMES, n, r) }

  lemma NextPrimeUnique(n: nat, r: nat, r': nat)
    requires IsNextPrime(n, r) && IsNextPrime(n, r')
    ensures r == r'
  {
  }

  lemma NextPrimePositive(n: nat, r: nat)
    requires IsNextPrime(n, r)
    ensures r > 0
  {
    var s := PRIMES;
    assert forall i :: 0 <= i < |s| ==> s[i] > 0;
  }

  /** A listed prime is its own next prime, so the default sizing never changes a size it chose. */
  lemma ListedIsItsOwnNext(n: nat, r: nat)
    requires n in PRIMES && IsNextPrime(n, r)
    ensures r == n
  {
  }

  /** The search of eg_next_prime; f and len delimit what is left of the list. */
  method NextIn(list: seq<nat>, n: nat) returns (r: nat)
    requires list != [] && Ascending(list)
    ensures IsNextIn(list, n, r)
  {
    var len := |list| - 1;
    var f := 0;
    while len > 0
      invariant 0 <= f && 0 <= len && f + len <= |list| - 1
      invariant forall i :: 0 <= i < f ==> list[i] < n
      invariant forall i :: f + len <= i < |list| - 1 ==> list[i] >= n
    {
      var half := len / 2;
      var m := f + half;
      if list[m] < n {
        f := m + 1;
        len := len - half - 1;
      } else {
        len := half;
      }
    }
    r := list[f];
  }

  method EgNextPrime(n: nat) returns (r: nat)
    ensures IsNextPrime(n, r)
  {
    PrimesAscend();
    r := NextIn(PRIMES, n);
  }

  // ---------- doubly linked lists ----------

  class Bucket<K, V> {
    const key: K
    const val: V
    var next: Bucket?<K, V>
    var prev: Bucket?<K, V>
    var tnext: Bucket?<K, V>
    var tprev: Bucket?<K, V>
    var head: nat   // the index of its chain, for the C pointer to the chain's head cell

    constructor (key: K, val: V)
      ensures this.key == key && this.val == val
    {
      this.key, this.val := key, val;
      next, prev, tnext, tprev, head := null, null, null, null, 0;
    }
  }

  /** `s` is linked by next and prev; `e` is the set of its nodes. */
  ghost predicate Chain<K, V>(s: seq<Bucket<K, V>>, e: set<Bucket<K, V>>)
    reads e`next, e`prev
  {
    && (forall i :: 0 <= i < |s| ==> s[i] in e)
    && (forall i {:trigger s[i].next} :: 0 <= i < |s| ==> s[i].next == if i + 1 < |s| then s[i + 1] else null)
    && (forall i {:trigger s[i].prev} :: 0 <= i < |s| ==> s[i].prev == if i > 0 then s[i - 1] else null)
  }

  /** `s` is linked by tnext and tprev. */
  ghost predicate Traversal<K, V>(s: seq<Bucket<K, V>>, e: set<Bucket<K, V>>)
    reads e`tnext, e`tprev
  {
    && (forall i :: 0 <= i < |s| ==> s[i] in e)
    && (forall i {:trigger s[i].tnext} :: 0 <= i < |s| ==> s[i].tnext == if i + 1 < |s| then s[i + 1] else null)
    && (forall i {:trigger s[i].tprev} :: 0 <= i < |s| ==> s[i].tprev == if i > 0 then s[i - 1] else null)
  }

  function First<K, V>(s: seq<Bucket<K, V>>): Bucket?<K, V> {
    if s == [] then null else s[0]
  }

  /** All chains: their nodes in order, their node sets, and the set of all nodes. */
  datatype Chains<!K, !V> = Chains(lists: seq<seq<Bucket<K, V>>>, parts: seq<set<Bucket<K, V>>>, all: set<Bucket<K, V>>)

  ghost predicate ChainOk<K, V>(i: nat, hlist: array<Bucket?<K, V>>, c: Chains<K, V>)
    requires i < hlist.Length == |c.lists| == |c.parts|
    reads hlist, c.parts[i]`next, c.parts[i]`prev, c.parts[i]`head
  {
    && hlist[i] == First(c.lists[i]) && Chain(c.lists[i], c.parts[i])
    && Distinct(c.lists[i]) && SameElements(c.lists[i], c.parts[i])
    && c.parts[i] <= c.all
    && forall b :: b in c.parts[i] ==> b.head == i
  }

  /** Every chain is well linked and holds exactly the entries that say so. */
  ghost predicate ChainsOk<K, V>(hlist: array<Bucket?<K, V>>, c: Chains<K, V>)
    reads hlist, c.all`next, c.all`prev, c.all`head
  {
    && hlist.Length == |c.lists| == |c.parts| > 0
    && (forall i :: 0 <= i < |c.parts| ==> c.parts[i] <= c.all)
    && (forall i :: 0 <= i < hlist.Length ==> ChainOk(i, hlist, c))
    && (forall b :: b in c.all ==> b.head < |c.parts| && b in c.parts[b.head])
  }

  /** Every entry is in the chain that its hash selects. */
  ghost predicate Placed<K, V>(all: set<Bucket<K, V>>, hash: K -> nat, n: nat)
    requires n > 0
    reads all`head
  {
    forall b :: b in all ==> b.head == hash(b.key) % n
  }

  lemma PlacedLess<K, V>(all: set<Bucket<K, V>>, b: Bucket<K, V>, hash: K -> nat, n: nat)
    requires n > 0 && Placed(all, hash, n)
    ensures Placed(all - {b}, hash, n)
  {
  }

  /** The pointer part of putting b in front of a chain. */
  method PushFront<K, V>(first: Bucket?<K, V>, b: Bucket<K, V>, ghost s: seq<Bucket<K, V>>, ghost e: set<Bucket<K, V>>,
                         ghost pos: map<Bucket<K, V>, nat>)
    requires Chain(s, e) && Numbered(s, pos) && first == First(s) && b !in e
    modifies b`next, b`prev, e`prev
    ensures Chain([b] + s, e + {b})
  {
    b.next := first;
    b.prev := null;
    if b.next != null {
      b.next.prev := b;
    }
  }

  /** Put b in front of chain h. */
  method PushChain<K, V>(hlist: array<Bucket?<K, V>>, h: nat, b: Bucket<K, V>, ghost c: Chains<K, V>)
    returns (ghost c': Chains<K, V>)
    requires ChainsOk(hlist, c) && b !in c.all && h < hlist.Length
    modifies hlist, b`head, b`next, b`prev, c.all`prev
    ensures c' == Chains(c.lists[h := [b] + c.lists[h]], c.parts[h := c.parts[h] + {b}], c.all + {b})
    ensures ChainsOk(hlist, c') && b.head == h
  {
    hide Chain, Distinct, SameElements, Numbered;
    c' := Chains(c.lists[h := [b] + c.lists[h]], c.parts[h := c.parts[h] + {b}], c.all + {b});
    assert ChainOk(h, hlist, c);
    DistinctPush(c.lists[h], c.parts[h], b);
    ghost var pos := Number(c.lists[h]);
    b.head := h;
    PushFront(hlist[h], b, c.lists[h], c.parts[h], pos);
    hlist[h] := b;
    assert ChainOk(h, hlist, c');
    forall i | 0 <= i < hlist.Length && i != h ensures ChainOk(i, hlist, c') {
      assert old(ChainOk(i, hlist, c));
    }
  }

  /** The pointer part of taking b out of a chain; the new first entry is for the chain's head cell. */
  method Unchain<K, V>(first: Bucket?<K, V>, b: Bucket<K, V>, ghost s: seq<Bucket<K, V>>, ghost e: set<Bucket<K, V>>,
                       ghost j: nat, ghost pos: map<Bucket<K, V>, nat>)
    returns (first': Bucket?<K, V>)
    requires Chain(s, e) && Numbered(s, pos) && first == First(s) && j < |s| && s[j] == b
    modifies e`next, e`prev
    ensures Chain(Without(s, j), e - {b}) && first' == First(Without(s, j))
  {
    ghost var r := Without(s, j);
    assert forall i :: 0 <= i < j ==> r[i] == s[i];
    assert forall i :: j <= i < |r| ==> r[i] == s[i + 1];
    first' := first;
    if b.prev != null && b.next != null {
      b.prev.next := b.next;
      b.next.prev := b.prev;
    } else if b.prev != null {
      b.prev.next := b.next;
    } else if b.next != null {
      first' := b.next;
      b.next.prev := b.prev;
    } else {
      first' := null;
    }
  }

  /** Take b out of its chain. */
  method DropChain<K, V>(hlist: array<Bucket?<K, V>>, b: Bucket<K, V>, ghost c: Chains<K, V>)
    returns (ghost c': Chains<K, V>, ghost j: nat)
    requires ChainsOk(hlist, c) && b in c.all
    modifies hlist, c.all`next, c.all`prev
    ensures b.head < |c.lists| && j < |c.lists[b.head]| && c.lists[b.head][j] == b
    ensures c' == Chains(c.lists[b.head := Without(c.lists[b.head], j)], c.parts[b.head := c.parts[b.head] - {b}], c.all - {b})
    ensures ChainsOk(hlist, c')
  {
    hide Chain, Distinct, SameElements, Numbered, Without;
    var h := b.head;
    assert ChainOk(h, hlist, c);
    ghost var s := c.lists[h];
    ghost var pos;
    j, pos := PlaceOf(s, c.parts[h], b);
    c' := Chains(c.lists[h := Without(s, j)], c.parts[h := c.parts[h] - {b}], c.all - {b});
    var first := Unchain(hlist[h], b, s, c.parts[h], j, pos);
    hlist[h] := first;
    forall i | 0 <= i < hlist.Length && i != h ensures b !in c.parts[i] {
      assert old(ChainOk(i, hlist, c));
    }
    assert ChainOk(h, hlist, c');
    forall i | 0 <= i < hlist.Length && i != h ensures ChainOk(i, hlist, c') {
      assert old(ChainOk(i, hlist, c));
    }
  }

  method PushTraversal<K, V>(tlist: Bucket?<K, V>, b: Bucket<K, V>, ghost s: seq<Bucket<K, V>>, ghost e: set<Bucket<K, V>>)
    requires Traversal(s, e) && Distinct(s) && tlist == First(s) && b !in e
    modifies b`tnext, b`tprev, e`tprev
    ensures Traversal([b] + s, e + {b})
  {
    ghost var pos := Number(s);
    b.tnext := tlist;
    b.tprev := null;
    if b.tnext != null {
      b.tnext.tprev := b;
    }
  }

  /** The pointer part of taking b out of the traversal list; the new first entry is for tlist. */
  method Untraverse<K, V>(tlist: Bucket?<K, V>, b: Bucket<K, V>, ghost s: seq<Bucket<K, V>>, ghost e: set<Bucket<K, V>>,
                          ghost j: nat, ghost pos: map<Bucket<K, V>, nat>)
    returns (tlist': Bucket?<K, V>)
    requires Traversal(s, e) && Numbered(s, pos) && tlist == First(s) && j < |s| && s[j] == b
    modifies e`tnext, e`tprev
    ensures Traversal(Without(s, j), e - {b}) && tlist' == First(Without(s, j))
  {
    ghost var r := Without(s, j);
    assert forall i :: 0 <= i < j ==> r[i] == s[i];
    assert forall i :: j <= i < |r| ==> r[i] == s[i + 1];
    tlist' := tlist;
    if b.tprev != null && b.tnext != null {
      b.tprev.tnext := b.tnext;
      b.tnext.tprev := b.tprev;
    } else if b.tprev != null {
      b.tprev.tnext := b.tnext;
    } else if b.tnext != null {
      tlist' := b.tnext;
      b.tnext.tprev := b.tprev;
    } else {
      tlist' := null;
    }
  }

  // ---------- the table ----------

  /** A key pointer. */
  datatype Ref<K> = Null | To(k: K)

  /** The abstract state: the chains, the traversal order, and the entry of every key. */
  datatype Table<!K, !V> = Table(chains: Chains<K, V>, order: seq<Bucket<K, V>>, entry: map<K, Bucket<K, V>>)

  /** Every key has one entry and every entry is its key's. */
  ghost predicate Keyed<K, V>(entry: map<K, Bucket<K, V>>, all: set<Bucket<K, V>>) {
    && (forall k :: k in entry ==> entry[k] in all && entry[k].key == k)
    && (forall b :: b in all ==> b.key in entry && entry[b.key] == b)
  }

  lemma KeyedPut<K, V>(entry: map<K, Bucket<K, V>>, all: set<Bucket<K, V>>, b: Bucket<K, V>)
    requires Keyed(entry, all) && b.key !in entry
    ensures Keyed(entry[b.key := b], all + {b})
  {
  }

  ghost function ValuesOf<K, V>(entry: map<K, Bucket<K, V>>): map<K, V> {
    map k | k in entry :: entry[k].val
  }

  lemma ValuesPut<K, V>(entry: map<K, Bucket<K, V>>, b: Bucket<K, V>)
    ensures ValuesOf(entry[b.key := b]) == ValuesOf(entry)[b.key := b.val]
  {
  }

  lemma ValuesDrop<K, V>(entry: map<K, Bucket<K, V>>, k: K)
    ensures ValuesOf(entry - {k}) == ValuesOf(entry) - {k}
  {
  }

  ghost predicate OrderOk<K, V>(tlist: Bucket?<K, V>, order: seq<Bucket<K, V>>, all: set<Bucket<K, V>>)
    reads all`tnext, all`tprev
  {
    Traversal(order, all) && Distinct(order) && SameElements(order, all) && tlist == First(order)
  }

  /** `rest` is `order` without b, and `next` is what followed b. */
  ghost predicate Removed<K, V>(order: seq<Bucket<K, V>>, b: Bucket<K, V>, rest: seq<Bucket<K, V>>, next: Bucket?<K, V>) {
    exists j :: 0 <= j < |order| && order[j] == b && rest == Without(order, j) && next == First(order[j + 1..])
  }

  /** The loop of eg_ht_resize: every entry of the traversal list goes in front of its new chain. */
  method Rebuild<K, V>(hlist: array<Bucket?<K, V>>, tlist: Bucket?<K, V>, ghost order: seq<Bucket<K, V>>,
                       ghost all: set<Bucket<K, V>>, hash: K -> nat)
    returns (ghost c: Chains<K, V>)
    requires OrderOk(tlist, order, all)
    requires hlist.Length > 0 && forall i :: 0 <= i < hlist.Length ==> hlist[i] == null
    modifies hlist, all`head, all`next, all`prev
    ensures ChainsOk(hlist, c) && c.all == all && Placed(all, hash, hlist.Length)
  {
    hide Traversal;
    c := NoChains(hlist);
    ghost var j := 0;
    var b := tlist;
    while b != null
      invariant 0 <= j <= |order| && b == if j < |order| then order[j] else null
      invariant ChainsOk(hlist, c) && c.all <= all && Placed(c.all, hash, hlist.Length)
      invariant forall i :: 0 <= i < j ==> order[i] in c.all
      invariant forall i :: j <= i < |order| ==> order[i] !in c.all
      invariant OrderOk(tlist, order, all)
      decreases |order| - j
    {
      var h := hash(b.key) % hlist.Length;
      c := PushChain(hlist, h, b, c);
      TraversalNext(order, all, j);
      j := j + 1;
      b := b.tnext;
    }
  }

  lemma NoChains<K, V>(hlist: array<Bucket?<K, V>>) returns (c: Chains<K, V>)
    requires hlist.Length > 0 && forall i :: 0 <= i < hlist.Length ==> hlist[i] == null
    ensures ChainsOk(hlist, c) && c.all == {}
  {
    c := Chains(seq(hlist.Length, _ => []), seq(hlist.Length, _ => {}), {});
  }

  class HashTable<K(==), V> {
    const hash: K -> nat
    var size: nat
    var elements: nat
    var hlist: array<Bucket?<K, V>>
    var tlist: Bucket?<K, V>
    ghost var m: Table<K, V>

    /** Links, order and counter are right; entries may be in a wrong chain. */
    ghost predicate Linked()
      reads this, hlist, m.chains.all
    {
      && ChainsOk(hlist, m.chains) && size == hlist.Length > 0
      && OrderOk(tlist, m.order, m.chains.all) && elements == |m.order|
      && Keyed(m.entry, m.chains.all)
    }

    ghost predicate Valid()
      reads this, hlist, m.chains.all
    {
      Linked() && Placed(m.chains.all, hash, size)
    }

    /** An entry that eg_ht_find does not see, because it is not in the chain its hash selects. */
    ghost predicate Lost(k: K)
      reads this, m.chains.all
    {
      size > 0 && k in m.entry && m.entry[k] in m.chains.all && m.entry[k].head != hash(k) % size
    }

    ghost function LostKeys(): set<K>
      reads this, m.chains.all
    {
      set k | k in m.entry && Lost(k)
    }

    /** The table is right when no key is lost. */
    lemma ValidExact()
      requires Linked()
      ensures Valid() <==> LostKeys() == {}
    {
      hide ChainsOk, OrderOk;
      if Valid() {
        assert forall k :: k in m.entry ==> !Lost(k);
      } else {
        var b :| b in m.chains.all && b.head != hash(b.key) % size;
        assert Lost(b.key) && b.key in LostKeys();
      }
    }

    /** What the table maps. */
    ghost function Contents(): map<K, V>
      reads this
    {
      ValuesOf(m.entry)
    }

    /** eg_ht_create with the default sizing functions. */
    constructor (size: nat, hash: K -> nat)
      ensures Valid() && Contents() == map[] && this.hash == hash
      ensures IsNextPrime(size, this.size) && fresh(hlist) && m.chains.all == {} && m.order == []
    {
      var p := EgNextPrime(size);
      PrimesAscend();
      assert p > 0;
      this.hash := hash;
      this.size := p;
      elements, tlist := 0, null;
      hlist := new Bucket?<K, V>[p](_ => null);
      new;
      ghost var c := NoChains(hlist);
      hide ChainsOk;
      m := Table(c, [], map[]);
    }

    /** eg_ht_find, on any linked table: the key's entry, unless there is none or it is lost. */
    method Find(key: Ref<K>) returns (b: Bucket?<K, V>)
      requires Linked()
      ensures b == if key.To? && key.k in m.entry && !Lost(key.k) then m.entry[key.k] else null
      ensures Valid() ==> (b != null <==> key.To? && key.k in Contents())
      ensures b != null ==> b in m.chains.all && b.val == Contents()[key.k]
    {
      if key.Null? {
        return null;
      }
      var h := hash(key.k) % size;
      assert ChainOk(h, hlist, m.chains);
      ghost var j, s := 0, m.chains.lists[h];
      b := hlist[h];
      while b != null && b.key != key.k
        invariant 0 <= j <= |s| && b == if j < |s| then s[j] else null
        invariant forall i :: 0 <= i < j ==> s[i].key != key.k
        decreases |s| - j
      {
        b := b.next;
        j := j + 1;
      }
      if key.k in m.entry {
        ghost var e := m.entry[key.k];
        assert ChainOk(e.head, hlist, m.chains);
        assert e.head == h ==> e in s;
      }
    }

    /** The end of eg_ht_insert and of ht_insert_bucket: the entry is lost when h is not its place. */
    method LinkIn(h: nat, b: Bucket<K, V>)
      requires Linked() && b !in m.chains.all && b.key !in m.entry && h < size
      modifies this, hlist, m.chains.all, b
      ensures Linked() && hlist == old(hlist) && size == old(size)
      ensures m.chains.all == old(m.chains.all) + {b} && b.head == h
      ensures forall x :: x in old(m.chains.all) ==> x.head == old(x.head)
      ensures m.entry == old(m.entry)[b.key := b]
      ensures m.order == [b] + old(m.order)
      ensures LostKeys() == old(LostKeys()) + if h == hash(b.key) % size then {} else {b.key}
    {
      assert forall k :: k in m.entry ==> m.entry[k] in m.chains.all && m.entry[k] != b;
      ghost var all := m.chains.all;
      hide Linked;
      LinkFirst(h, b);
      assert forall x :: x in all ==> x in m.chains.all;
    }

    /** The linking itself, in front of chain and traversal list. */
    method LinkFirst(h: nat, b: Bucket<K, V>)
      requires Linked() && b !in m.chains.all && b.key !in m.entry && h < size
      modifies this, hlist, m.chains.all, b
      ensures Linked() && hlist == old(hlist) && size == old(size)
      ensures m.chains.all == old(m.chains.all) + {b} && b.head == h
      ensures forall x :: x in old(m.chains.all) ==> x.head == old(x.head)
      ensures m.entry == old(m.entry)[b.key := b]
      ensures m.order == [b] + old(m.order)
    {
      hide ChainsOk, Traversal, Distinct, SameElements, Keyed;
      KeyedPut(m.entry, m.chains.all, b);
      ghost var c := PushChain(hlist, h, b, m.chains);
      DistinctPush(m.order, m.chains.all, b);
      PushTraversal(tlist, b, m.order, m.chains.all);
      tlist := b;
      elements := elements + 1;
      m := Table(c, [b] + m.order, m.entry[b.key := b]);
    }

    /** The chain index computed before a resize is still the right one after it. */
    ghost predicate PlaceSurvives(k: K)
      reads this
    {
      elements > size > 0 ==> forall r :: r > 0 && IsNextPrime(size, r) ==> hash(k) % r == hash(k) % size
    }

    /** There is such a chain after the resize at all; if not, the original writes outside its array. */
    ghost predicate PlaceExists(k: K)
      reads this
    {
      elements > size > 0 ==> forall r :: IsNextPrime(size, r) ==> hash(k) % size < r
    }

    /** With the sizes the default policy chooses it always is: a resize then keeps the size. */
    lemma DefaultSizesSurvive(k: K)
      requires size in PRIMES
      ensures PlaceSurvives(k)
    {
      forall r | r > 0 && IsNextPrime(size, r) ensures r == size {
        ListedIsItsOwnNext(size, r);
      }
    }

    /** And up to the largest listed prime there always is a chain. */
    lemma SmallSizesHavePlace(k: K)
      requires 0 < size <= PRIMES[NUM_PRIMES - 1]
      ensures PlaceExists(k)
    {
      forall r | IsNextPrime(size, r) ensures hash(k) % size < r {
        assert PRIMES[NUM_PRIMES - 1] in PRIMES;
      }
    }

    /**
     eg_ht_insert. The index h is computed before the resize and used after it. When the resize moves
     the place of the new key, its entry is linked into the old place, and from then on the key is lost,
     until the next resize. (A second insert of a lost key enters it twice; that is excluded.)
    */
    method Insert(key: Ref<K>, val: V) returns (code: int)
      requires Linked() && (key.To? ==> !Lost(key.k) && (key.k !in Contents() ==> PlaceExists(key.k)))
      modifies this, hlist, m.chains.all
      ensures Linked() && fresh(m.chains.all - old(m.chains.all)) && (fresh(hlist) || hlist == old(hlist))
      ensures code == if key.To? && key.k !in old(Contents()) then 1 else 0
      ensures LostKeys() == (if code == 1 && old(size < elements) then {} else old(LostKeys()))
                            + (if code == 0 || old(PlaceSurvives(key.k)) then {} else {key.k})
      ensures Contents() == if code == 1 then old(Contents())[key.k := val] else old(Contents())
      ensures old(size) in PRIMES ==> size == old(size)
      ensures if code == 1 && old(size < elements) then fresh(hlist) && IsNextPrime(old(size), size) else hlist == old(hlist) && size == old(size)
      ensures if code == 1 then key.k in m.entry && m.order == [m.entry[key.k]] + old(m.order) && fresh(m.entry[key.k]) else m == old(m)
      ensures code == 1 ==> m.entry[key.k].head == hash(key.k) % old(size)
    {
      hide ChainsOk, OrderOk, IsNextIn, Traversal;
      if key.Null? {
        return 0;
      }
      var h := hash(key.k) % size;
      var b := Find(key);
      if b != null {
        return 0;
      }
      b := new Bucket(key.k, val);
      if size < elements {
        Rehash();
      }
      ValuesPut(m.entry, b);
      LinkIn(h, b);
      code := 1;
    }

    /** The resize of eg_ht_insert. */
    method Rehash()
      requires Linked()
      modifies this`size, this`hlist, this`m, m.chains.all`head, m.chains.all`next, m.chains.all`prev
      ensures Valid() && fresh(hlist) && IsNextPrime(old(size), size) && size > 0
      ensures forall r :: IsNextPrime(old(size), r) ==> r == size
      ensures m.order == old(m.order) && m.entry == old(m.entry) && m.chains.all == old(m.chains.all)
      ensures old(size) in PRIMES ==> size == old(size)
    {
      hide ChainsOk, OrderOk, Keyed, IsNextIn;
      ghost var n := size;
      var newsize := EgNextPrime(size);
      NextPrimePositive(n, newsize);
      forall r | IsNextPrime(n, r) ensures r == newsize {
        NextPrimeUnique(n, r, newsize);
      }
      if size in PRIMES {
        ListedIsItsOwnNext(size, newsize);
      }
      var _ := Resize(newsize);
    }

    /** ht_insert_bucket: a caller's bucket, without resizing. */
    method InsertBucket(b: Bucket<K, V>)
      requires Linked() && b !in m.chains.all && !Lost(b.key)
      modifies this, hlist, m.chains.all, b
      ensures Linked() && hlist == old(hlist) && size == old(size) && LostKeys() == old(LostKeys())
      ensures if b.key in old(Contents()) then Contents() == old(Contents()) && m == old(m)
              else Contents() == old(Contents())[b.key := b.val] && m.chains.all == old(m.chains.all) + {b}
    {
      hide ChainsOk, OrderOk, Keyed;
      var h := hash(b.key) % size;
      var bt := Find(To(b.key));
      if bt == null {
        ValuesPut(m.entry, b);
        LinkIn(h, b);
      }
    }

    /** eg_ht_resize, for any positive size: the chains are rebuilt from the traversal list, lost entries included. */
    method Resize(newsize: nat) returns (code: int)
      requires Linked() && newsize > 0
      modifies this`size, this`hlist, this`m, m.chains.all`head, m.chains.all`next, m.chains.all`prev
      ensures Valid() && size == newsize && fresh(hlist) && code == 1
      ensures m.order == old(m.order) && m.entry == old(m.entry) && m.chains.all == old(m.chains.all)
    {
      hide ChainsOk, Keyed, Traversal, Distinct, SameElements, Placed;
      hlist := new Bucket?<K, V>[newsize](_ => null);
      size := newsize;
      ghost var c := Rebuild(hlist, tlist, m.order, m.chains.all, hash);
      m := m.(chains := c);
      code := 1;
    }

    /** eg_ht_erase: the iterator steps to the next entry of the traversal. */
    method Erase(b: Bucket<K, V>) returns (iter: Bucket?<K, V>)
      requires Linked() && b in m.chains.all
      modifies this, hlist, m.chains.all
      ensures Linked() && hlist == old(hlist) && size == old(size) && (old(Valid()) ==> Valid())
      ensures m.chains.all == old(m.chains.all) - {b}
      ensures m.entry == old(m.entry) - {b.key} && Contents() == old(Contents()) - {b.key}
      ensures LostKeys() == old(LostKeys()) - {b.key}
      ensures Removed(old(m.order), b, m.order, iter)
    {
      hide Linked, Placed, ValuesOf;
      LinkedFacts();
      if Placed(m.chains.all, hash, size) {
        PlacedLess(m.chains.all, b, hash, size);
      }
      ValuesDrop(m.entry, b.key);
      iter := Detach(b);
    }

    /** The unlinking of eg_ht_erase. */
    method Detach(b: Bucket<K, V>) returns (iter: Bucket?<K, V>)
      requires Linked() && b in m.chains.all
      modifies this`tlist, this`elements, this`m, hlist
      modifies m.chains.all`next, m.chains.all`prev, m.chains.all`tnext, m.chains.all`tprev
      ensures Linked()
      ensures m.chains.all == old(m.chains.all) - {b} && m.entry == old(m.entry) - {b.key}
      ensures Removed(old(m.order), b, m.order, iter)
    {
      hide ChainsOk, Numbered, Traversal, Distinct, SameElements, Without;
      iter := b.tnext;
      ghost var c, i := DropChain(hlist, b, m.chains);
      ghost var j, pos := PlaceOf(m.order, m.chains.all, b);
      TraversalNext(m.order, m.chains.all, j);
      tlist := Untraverse(tlist, b, m.order, m.chains.all, j, pos);
      elements := elements - 1;
      m := Table(c, Without(m.order, j), m.entry - {b.key});
    }

    /** eg_ht_remove, on any linked table: a lost key stays. */
    method Remove(key: Ref<K>) returns (code: int)
      requires Linked()
      modifies this, hlist, m.chains.all
      ensures Linked() && hlist == old(hlist) && size == old(size) && m.chains.all <= old(m.chains.all)
      ensures code == if key.To? && key.k in old(Contents()) && !old(Lost(key.k)) then 1 else 0
      ensures Contents() == if code == 1 then old(Contents()) - {key.k} else old(Contents())
      ensures LostKeys() == old(LostKeys())
    {
      hide Linked, Placed, ValuesOf, Removed, Without, First;
      LinkedFacts();
      var it := Find(key);
      if it == null {
        return 0;
      }
      it := Erase(it);
      code := 1;
    }

    /** eg_ht_clear; `freed` are the entries given back, each once. */
    method Clear() returns (ghost freed: seq<Bucket<K, V>>)
      requires Linked()
      modifies this, hlist
      ensures Valid() && Contents() == map[] && m.chains.all == {} && hlist == old(hlist) && size == old(size)
      ensures freed == old(m.order)
    {
      if elements == 0 {
        NothingStored();
        return [];
      }
      freed := FreeAll();
      Forget();
    }

    lemma NothingStored()
      requires Linked() && elements == 0
      ensures m.order == [] && m.chains.all == {} && Valid() && Contents() == map[]
    {
    }

    /** What eg_ht_clear does to the table itself. */
    method Forget()
      requires Linked()
      modifies this`elements, this`tlist, this`m, hlist
      ensures Valid() && Contents() == map[] && m.chains.all == {}
    {
      forall i | 0 <= i < hlist.Length {
        hlist[i] := null;
      }
      hide ChainsOk;
      elements := 0;
      tlist := null;
      ghost var c := NoChains(hlist);
      m := Table(c, [], map[]);
    }

    /** The loop of eg_ht_clear. */
    method FreeAll() returns (ghost freed: seq<Bucket<K, V>>)
      requires Linked()
      ensures freed == m.order
    {
      freed := [];
      var b := tlist;
      while b != null
        invariant |freed| <= |m.order| && freed == m.order[..|freed|]
        invariant b == if |freed| < |m.order| then m.order[|freed|] else null
        decreases |m.order| - |freed|
      {
        freed := freed + [b];
        b := b.tnext;
      }
    }

    lemma LinkedFacts()
      requires Linked()
      ensures size > 0 && elements == |m.order|
      ensures forall k :: k in m.entry ==> m.entry[k] in m.order && k in Contents()
      ensures forall k :: k in m.entry ==> m.entry[k] in m.chains.all && m.entry[k].key == k
      ensures Contents().Keys == m.entry.Keys
    {
    }

    /** `elements` counts the keys of the table. */
    lemma ElementsCount()
      requires Linked()
      ensures |Contents()| == elements
    {
      var order := m.order;
      var keys := seq(|order|, i requires 0 <= i < |order| => order[i].key);
      forall i, j | 0 <= i < j < |keys| ensures keys[i] != keys[j] {
        assert m.entry[m.order[i].key] == m.order[i];
        assert m.entry[m.order[j].key] == m.order[j];
      }
      forall k | k in m.entry.Keys ensures k in keys {
        var i :| 0 <= i < |m.order| && m.order[i] == m.entry[k];
        assert keys[i] == k;
      }
      Cardinality(keys, m.entry.Keys);
      assert Contents().Keys == m.entry.Keys;
      assert |Contents()| == |Contents().Keys|;
    }
  }

  lemma TraversalNext<K, V>(s: seq<Bucket<K, V>>, e: set<Bucket<K, V>>, j: nat)
    requires Traversal(s, e) && j < |s|
    ensures s[j] in e && s[j].tnext == First(s[j + 1..])
    ensures s[j].tnext == if j + 1 < |s| then s[j + 1] else null
  {
  }

  lemma NextOfSmall(n: nat)
    requires n <= 53
    ensures IsNextPrime(n, 53)
  {
    PrimesAscend();
    var s := PRIMES;
    assert s[0] == 53;
    forall p | p in s ensures 53 <= p {
      var i :| 0 <= i < |s| && s[i] == p;
      assert i == 0 || s[0] < s[i];
    }
  }

  /** A table of 53 chains that maps n keys to themselves. */
  ghost predicate Listed(t: HashTable<nat, nat>, keys: set<nat>, n: nat)
    reads t, t.hlist, t.m.chains.all
  {
    t.Valid() && t.size == 53 && t.Contents().Keys == keys && |t.m.order| == n && t.hash(2) == 2
  }

  method InsertListed(t: HashTable<nat, nat>, k: nat, ghost keys: set<nat>, ghost n: nat)
    requires Listed(t, keys, n) && k !in keys
    modifies t, t.hlist, t.m.chains.all
    ensures Listed(t, keys + {k}, n + 1)
    ensures (fresh(t.hlist) || t.hlist == old(t.hlist)) && fresh(t.m.chains.all - old(t.m.chains.all))
  {
    assert PRIMES[0] == 53;
    t.DefaultSizesSurvive(k);
    t.SmallSizesHavePlace(k);
    t.ValidExact();
    AbsentNotLost(t, k);
    hide HashTable.Valid, HashTable.Linked, HashTable.Contents, HashTable.Lost, HashTable.PlaceSurvives, HashTable.PlaceExists;
    hide IsNextPrime;
    var code := t.Insert(To(k), k);
    t.ValidExact();
  }

  lemma AbsentNotLost(t: HashTable<nat, nat>, k: nat)
    ensures t.Valid() ==> t.Linked()
    ensures k !in t.Contents() ==> !t.Lost(k)
    ensures k in t.LostKeys() ==> t.Lost(k)
  {
  }

  method Fresh() returns (t: HashTable<nat, nat>)
    ensures Listed(t, {}, 0) && fresh(t) && fresh(t.hlist) && fresh(t.m.chains.all)
  {
    t := new HashTable(0, (k: nat) => k);
    NextOfSmall(0);
    NextPrimeUnique(0, t.size, 53);
    hide HashTable.Valid;
  }

  lemma HasKey(t: HashTable<nat, nat>, k: nat)
    ensures k in t.Contents() <==> k in t.Contents().Keys
  {
  }

  /** Three keys in a table of two chains. */
  method Overfull() returns (t: HashTable<nat, nat>)
    ensures fresh(t) && fresh(t.hlist) && fresh(t.m.chains.all)
    ensures t.Valid() && t.size == 2 && t.elements == 3 && 2 !in t.Contents() && t.hash(2) == 2
  {
    hide *;
    t := Fresh();
    ghost var none: set<nat> := {};
    InsertListed(t, 3, none, 0);
    InsertListed(t, 4, none + {3}, 1);
    InsertListed(t, 5, none + {3} + {4}, 2);
    Halve(t, none + {3} + {4} + {5}, 3);
    HasKey(t, 2);
  }

  method Halve(t: HashTable<nat, nat>, ghost keys: set<nat>, ghost n: nat)
    requires Listed(t, keys, n)
    modifies t, t.m.chains.all
    ensures t.Valid() && fresh(t.hlist) && t.m.chains.all == old(t.m.chains.all)
    ensures t.size == 2 && t.elements == n && t.Contents().Keys == keys && t.hash(2) == 2
  {
    hide HashTable.Linked;
    var _ := t.Resize(2);
    t.LinkedFacts();
  }

  lemma TwoMoves(t: HashTable<nat, nat>)
    requires t.size == 2 && t.elements == 3 && t.hash(2) == 2
    ensures t.PlaceExists(2) && !t.PlaceSurvives(2)
  {
    NextOfSmall(2);
    forall r | IsNextPrime(2, r) ensures r == 53 {
      NextPrimeUnique(2, r, 53);
    }
  }

  /**
     A run that loses a key: after eg_ht_resize to 2, which is no listed prime, the insert of key 2 into
     the overfull table reports success, the key is in the traversal list, and eg_ht_find does not find it.
  */
  method LosesAKey() returns (t: HashTable<nat, nat>, code: int, b: Bucket?<nat, nat>)
    ensures t.Linked() && code == 1 && 2 in t.Contents() && t.hash(2) == 2 && t.size == 53 && b == null
  {
    hide *;
    t := Overfull();
    TwoMoves(t);
    AbsentNotLost(t, 2);
    code := t.Insert(To(2), 2);
    NextOfSmall(2);
    NextPrimeUnique(2, t.size, 53);
    t.LinkedFacts();
    AbsentNotLost(t, 2);
    b := t.Find(To(2));
  }
}
