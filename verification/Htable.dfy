/**
 The string hash table of ngix_module/AIS/htable.c: doubly linked chains, growth to twice the
 size when every chain is in use on average, and an iterator inside the table that
 suppresses growth while it is live. Entries with equal keys may coexist; the one entered last
 is found first.
*/
module HtableModel {
  import opened Lists

  class Info<V> {
    const key: string
    const value: V
    var next: Info?<V>
    var prev: Info?<V>

    constructor (key: string, value: V)
      ensures this.key == key && this.value == value
    {
      this.key, this.value := key, value;
      next, prev := null, null;
    }
  }

  // ---------- one chain ----------

  ghost predicate Chain<V>(s: seq<Info<V>>, e: set<Info<V>>)
    reads e`next, e`prev
  {
    && (forall i :: 0 <= i < |s| ==> s[i] in e)
    && (forall i {:trigger s[i].next} :: 0 <= i < |s| ==> s[i].next == if i + 1 < |s| then s[i + 1] else null)
    && (forall i {:trigger s[i].prev} :: 0 <= i < |s| ==> s[i].prev == if i > 0 then s[i - 1] else null)
  }

  function First<V>(s: seq<Info<V>>): Info?<V> {
    if s == [] then null else s[0]
  }

  lemma NextIs<V>(s: seq<Info<V>>, e: set<Info<V>>, j: nat)
    requires Chain(s, e) && j < |s|
    ensures s[j] in e && s[j].next == First(s[j + 1..])
    ensures s[j].next == if j + 1 < |s| then s[j + 1] else null
  {
  }

  // ---------- all chains ----------

  /** The entries chain by chain, the node set of each chain, and the set of all entries. */
  datatype Chains<!V> = Chains(lists: seq<seq<Info<V>>>, parts: seq<set<Info<V>>>, all: set<Info<V>>)

  ghost predicate ChainOk<V>(i: nat, data: array<Info?<V>>, c: Chains<V>, hash: string -> nat)
    requires i < data.Length == |c.lists| == |c.parts|
    reads data, c.parts[i]`next, c.parts[i]`prev
  {
    && data[i] == First(c.lists[i]) && Chain(c.lists[i], c.parts[i])
    && Distinct(c.lists[i]) && SameElements(c.lists[i], c.parts[i])
    && c.parts[i] <= c.all
    && forall b :: b in c.parts[i] ==> hash(b.key) % data.Length == i
  }

  /** Every chain is well linked and holds exactly the entries whose hash selects it. */
  ghost predicate ChainsOk<V>(data: array<Info?<V>>, c: Chains<V>, hash: string -> nat)
    reads data, c.all`next, c.all`prev
  {
    && data.Length == |c.lists| == |c.parts| > 0
    && (forall i :: 0 <= i < |c.parts| ==> c.parts[i] <= c.all)
    && (forall i :: 0 <= i < data.Length ==> ChainOk(i, data, c, hash))
    && (forall b :: b in c.all ==> b in c.parts[hash(b.key) % data.Length])
  }

  /** The pointer part of htable_link. */
  method LinkFront<V>(first: Info?<V>, b: Info<V>, ghost s: seq<Info<V>>, ghost e: set<Info<V>>, ghost pos: map<Info<V>, nat>)
    requires Chain(s, e) && Numbered(s, pos) && first == First(s) && b !in e
    modifies b`next, b`prev, e`prev
    ensures Chain([b] + s, e + {b})
  {
    b.prev := null;
    b.next := first;
    if b.next != null {
      first.prev := b;
    }
  }

  /** htable_link. */
  method Link<V>(data: array<Info?<V>>, b: Info<V>, used: nat, ghost c: Chains<V>, hash: string -> nat)
    returns (used': nat, ghost c': Chains<V>)
    requires ChainsOk(data, c, hash) && b !in c.all
    modifies data, b`next, b`prev, c.all`prev
    ensures var h := hash(b.key) % data.Length;
      c' == Chains(c.lists[h := [b] + c.lists[h]], c.parts[h := c.parts[h] + {b}], c.all + {b})
    ensures ChainsOk(data, c', hash) && used' == used + 1 && |c'.all| == |c.all| + 1
  {
    hide Chain, Distinct, SameElements, Numbered;
    var h := hash(b.key) % data.Length;
    c' := Chains(c.lists[h := [b] + c.lists[h]], c.parts[h := c.parts[h] + {b}], c.all + {b});
    assert ChainOk(h, data, c, hash);
    DistinctPush(c.lists[h], c.parts[h], b);
    ghost var pos := Number(c.lists[h]);
    LinkFront(data[h], b, c.lists[h], c.parts[h], pos);
    data[h] := b;
    used' := used + 1;
    assert ChainOk(h, data, c', hash);
    forall i | 0 <= i < data.Length && i != h ensures ChainOk(i, data, c', hash) {
      assert old(ChainOk(i, data, c, hash));
    }
  }

  /** The pointer part of htable_delete; the new first entry is for the chain's cell. */
  method Unchain<V>(first: Info?<V>, b: Info<V>, ghost s: seq<Info<V>>, ghost e: set<Info<V>>, ghost j: nat, ghost pos: map<Info<V>, nat>)
    returns (first': Info?<V>)
    requires Chain(s, e) && Numbered(s, pos) && first == First(s) && j < |s| && s[j] == b
    modifies e`next, e`prev
    ensures Chain(Without(s, j), e - {b}) && first' == First(Without(s, j))
  {
    ghost var r := Without(s, j);
    assert forall i :: 0 <= i < j ==> r[i] == s[i];
    assert forall i :: j <= i < |r| ==> r[i] == s[i + 1];
    first' := first;
    if b.next != null {
      b.next.prev := b.prev;
    }
    if b.prev != null {
      b.prev.next := b.next;
    } else {
      first' := b.next;
    }
  }

  method Unlink<V>(data: array<Info?<V>>, b: Info<V>, ghost j: nat, ghost c: Chains<V>, hash: string -> nat)
    returns (ghost c': Chains<V>)
    requires ChainsOk(data, c, hash) && b in c.all
    requires var h := hash(b.key) % data.Length; j < |c.lists[h]| && c.lists[h][j] == b
    modifies data, c.all`next, c.all`prev
    ensures var h := hash(b.key) % data.Length;
      c' == Chains(c.lists[h := Without(c.lists[h], j)], c.parts[h := c.parts[h] - {b}], c.all - {b})
    ensures ChainsOk(data, c', hash)
  {
    hide Chain, Distinct, SameElements, Numbered, Without;
    var h := hash(b.key) % data.Length;
    assert ChainOk(h, data, c, hash);
    ghost var s := c.lists[h];
    ghost var pos := Places(s, c.parts[h], b, j);
    c' := Chains(c.lists[h := Without(s, j)], c.parts[h := c.parts[h] - {b}], c.all - {b});
    var first := Unchain(data[h], b, s, c.parts[h], j, pos);
    data[h] := first;
    forall i | 0 <= i < data.Length && i != h ensures b !in c.parts[i] {
      assert old(ChainOk(i, data, c, hash));
    }
    assert ChainOk(h, data, c', hash);
    forall i | 0 <= i < data.Length && i != h ensures ChainOk(i, data, c', hash) {
      assert old(ChainOk(i, data, c, hash));
    }
  }

  lemma Places<N>(s: seq<N>, e: set<N>, b: N, j: nat) returns (pos: map<N, nat>)
    requires Distinct(s) && SameElements(s, e) && j < |s| && s[j] == b
    ensures Numbered(s, pos) && Distinct(Without(s, j)) && SameElements(Without(s, j), e - {b})
  {
    pos := Number(s);
    DistinctWithout(s, e, j);
  }

  lemma NoChains<V>(data: array<Info?<V>>, hash: string -> nat) returns (c: Chains<V>)
    requires data.Length > 0 && forall i :: 0 <= i < data.Length ==> data[i] == null
    ensures ChainsOk(data, c, hash) && c.all == {} && c.lists == seq(data.Length, _ => [])
  {
    c := Chains(seq(data.Length, _ => []), seq(data.Length, _ => {}), {});
  }

  lemma ChainAt<V>(data: array<Info?<V>>, c: Chains<V>, hash: string -> nat, i: nat)
    requires ChainsOk(data, c, hash) && i < data.Length
    ensures |c.lists| == |c.parts| == data.Length
    ensures data[i] == First(c.lists[i]) && Chain(c.lists[i], c.parts[i])
  {
    assert ChainOk(i, data, c, hash);
  }

  // ---------- chains end to end ----------

  ghost function Flatten<N>(lists: seq<seq<N>>): seq<N> {
    if lists == [] then [] else lists[0] + Flatten(lists[1..])
  }

  lemma {:induction false} FlattenSplit<N>(lists: seq<seq<N>>, i: nat)
    requires i <= |lists|
    ensures Flatten(lists) == Flatten(lists[..i]) + Flatten(lists[i..])
    decreases i
  {
    if i == 0 {
      assert lists[0..] == lists;
    } else {
      FlattenSplit(lists[1..], i - 1);
      assert lists[..i][1..] == lists[1..][..i - 1] && lists[i..] == lists[1..][i - 1..];
    }
  }

  lemma FlattenSnoc<N>(lists: seq<seq<N>>, i: nat)
    requires i < |lists|
    ensures Flatten(lists[..i + 1]) == Flatten(lists[..i]) + lists[i]
  {
    FlattenSplit(lists[..i + 1], i);
    assert lists[..i + 1][..i] == lists[..i];
    assert lists[..i + 1][i..] == [lists[i]];
    assert Flatten([lists[i]]) == lists[i] + Flatten([lists[i]][1..]);
  }

  ghost predicate DisjointParts<N>(lists: seq<seq<N>>, parts: seq<set<N>>) {
    && |lists| == |parts|
    && (forall i :: 0 <= i < |lists| ==> Distinct(lists[i]) && SameElements(lists[i], parts[i]))
    && (forall i, j :: 0 <= i < j < |parts| ==> parts[i] !! parts[j])
  }

  ghost function Union<N>(parts: seq<set<N>>): set<N> {
    if parts == [] then {} else parts[0] + Union(parts[1..])
  }

  lemma {:induction false} UnionIn<N>(parts: seq<set<N>>, x: N)
    ensures x in Union(parts) <==> exists i :: 0 <= i < |parts| && x in parts[i]
    decreases parts
  {
    if parts != [] {
      UnionIn(parts[1..], x);
      assert forall i :: 0 <= i < |parts[1..]| ==> parts[1..][i] == parts[i + 1];
      if x in Union(parts) && x !in parts[0] {
        var i :| 0 <= i < |parts[1..]| && x in parts[1..][i];
        assert x in parts[i + 1];
      }
      if i :| 0 <= i < |parts| && x in parts[i] {
        if i > 0 {
          assert x in parts[1..][i - 1];
        }
      }
    }
  }

  lemma DistinctAppend<N>(s: seq<N>, d: set<N>, t: seq<N>, e: set<N>)
    requires Distinct(s) && SameElements(s, d) && Distinct(t) && SameElements(t, e) && d !! e
    ensures Distinct(s + t) && SameElements(s + t, d + e)
  {
    forall x | x in d + e ensures x in s + t {
      if x in d {
        var i :| 0 <= i < |s| && s[i] == x;
        assert (s + t)[i] == x;
      } else {
        var i :| 0 <= i < |t| && t[i] == x;
        assert (s + t)[|s| + i] == x;
      }
    }
  }

  lemma {:induction false} FlattenDistinct<N>(lists: seq<seq<N>>, parts: seq<set<N>>)
    requires DisjointParts(lists, parts)
    ensures Distinct(Flatten(lists)) && SameElements(Flatten(lists), Union(parts))
    decreases lists
  {
    if lists != [] {
      assert forall i :: 0 <= i < |lists[1..]| ==> lists[1..][i] == lists[i + 1] && parts[1..][i] == parts[i + 1];
      FlattenDistinct(lists[1..], parts[1..]);
      forall x | x in parts[0] ensures x !in Union(parts[1..]) {
        UnionIn(parts[1..], x);
      }
      DistinctAppend(lists[0], parts[0], Flatten(lists[1..]), Union(parts[1..]));
    }
  }

  /** The chains end to end list every entry once. */
  lemma ChainsFlatten<V>(data: array<Info?<V>>, c: Chains<V>, hash: string -> nat)
    requires ChainsOk(data, c, hash)
    ensures Distinct(Flatten(c.lists)) && SameElements(Flatten(c.lists), c.all)
    ensures |Flatten(c.lists)| == |c.all|
  {
    forall i | 0 <= i < |c.parts| ensures Distinct(c.lists[i]) && SameElements(c.lists[i], c.parts[i])
      ensures forall b :: b in c.parts[i] ==> hash(b.key) % data.Length == i
    {
      assert ChainOk(i, data, c, hash);
    }
    FlattenDistinct(c.lists, c.parts);
    forall x | x in Union(c.parts) ensures x in c.all {
      UnionIn(c.parts, x);
    }
    forall x | x in c.all ensures x in Union(c.parts) {
      UnionIn(c.parts, x);
      assert x in c.parts[hash(x.key) % data.Length];
    }
    assert Union(c.parts) == c.all;
    Cardinality(Flatten(c.lists), c.all);
  }

  // ---------- growth ----------

  /** The inner loop of htable_grow: one old chain is relinked, entry by entry, into the new table. */
  method Relink<V>(first: Info?<V>, ghost s: seq<Info<V>>, ghost e: set<Info<V>>, data: array<Info?<V>>, used: nat, ghost c: Chains<V>, hash: string -> nat)
    returns (used': nat, ghost c': Chains<V>)
    requires Chain(s, e) && Distinct(s) && SameElements(s, e) && first == First(s)
    requires ChainsOk(data, c, hash) && c.all !! e && used == |c.all|
    modifies data, e`next, e`prev, c.all`prev
    ensures ChainsOk(data, c', hash) && c'.all == c.all + e && used' == |c'.all|
  {
    hide ChainsOk;
    used', c' := used, c;
    ghost var j := 0;
    var ht := first;
    while ht != null
      invariant 0 <= j <= |s| && ht == if j < |s| then s[j] else null
      invariant ChainsOk(data, c', hash) && c.all <= c'.all <= c.all + e && used' == |c'.all|
      invariant forall i :: 0 <= i < j ==> s[i] in c'.all
      invariant forall i :: j <= i < |s| ==> s[i] !in c'.all
      invariant forall i {:trigger s[i].next} :: j <= i < |s| ==> s[i].next == if i + 1 < |s| then s[i + 1] else null
      decreases |s| - j
    {
      var next := ht.next;
      used', c' := Link(data, ht, used', c', hash);
      j := j + 1;
      ht := next;
    }
  }

  /** The outer loop of htable_grow; htable_size has set the count to 0. */
  method RelinkAll<V>(src: array<Info?<V>>, ghost c: Chains<V>, data: array<Info?<V>>, hash: string -> nat)
    returns (used: nat, ghost c': Chains<V>)
    requires ChainsOk(src, c, hash) && src != data
    requires data.Length > 0 && forall i :: 0 <= i < data.Length ==> data[i] == null
    modifies data, c.all`next, c.all`prev
    ensures ChainsOk(data, c', hash) && c'.all == c.all && used == |c.all|
  {
    hide ChainsOk, Chain, Distinct, SameElements;
    used := 0;
    c' := NoChains(data, hash);
    ChainsFacts(src, c, hash);
    var i := 0;
    while i < src.Length
      invariant 0 <= i <= src.Length && ChainsOk(data, c', hash) && c'.all == Union(c.parts[..i]) && used == |c'.all|
      invariant forall k :: i <= k < src.Length ==> ChainOk(k, src, c, hash)
    {
      assert ChainOk(i, src, c, hash);
      UnionBefore(c.parts, i);
      used, c' := Relink(src[i], c.lists[i], c.parts[i], data, used, c', hash);
      i := i + 1;
    }
    assert c.parts[..|c.parts|] == c.parts;
  }

  lemma ChainsLength<V>(data: array<Info?<V>>, c: Chains<V>, hash: string -> nat)
    requires ChainsOk(data, c, hash)
    ensures data.Length == |c.lists| > 0
  {
  }

  lemma ChainsFacts<V>(data: array<Info?<V>>, c: Chains<V>, hash: string -> nat)
    requires ChainsOk(data, c, hash)
    ensures data.Length == |c.lists| == |c.parts| > 0
    ensures forall i :: 0 <= i < data.Length ==> ChainOk(i, data, c, hash)
    ensures forall i :: 0 <= i < data.Length ==> c.parts[i] <= c.all
    ensures forall i, j :: 0 <= i < j < data.Length ==> c.parts[i] !! c.parts[j]
    ensures Union(c.parts) == c.all
  {
    assert forall i :: 0 <= i < data.Length ==> ChainOk(i, data, c, hash);
    forall i, j | 0 <= i < j < data.Length ensures c.parts[i] !! c.parts[j] {
      assert ChainOk(i, data, c, hash) && ChainOk(j, data, c, hash);
    }
    forall x | x in Union(c.parts) ensures x in c.all {
      UnionIn(c.parts, x);
    }
    forall x | x in c.all ensures x in Union(c.parts) {
      UnionIn(c.parts, x);
      assert x in c.parts[hash(x.key) % data.Length];
    }
  }

  lemma {:induction false} UnionSnoc<N>(parts: seq<set<N>>, i: nat)
    requires i < |parts|
    ensures Union(parts[..i + 1]) == Union(parts[..i]) + parts[i]
    decreases i
  {
    if i > 0 {
      assert parts[..i + 1][1..] == parts[1..][..i] && parts[..i][1..] == parts[1..][..i - 1];
      UnionSnoc(parts[1..], i - 1);
    }
  }

  lemma UnionBefore<N>(parts: seq<set<N>>, i: nat)
    requires i < |parts| && forall j, k :: 0 <= j < k < |parts| ==> parts[j] !! parts[k]
    ensures forall k :: i <= k < |parts| ==> Union(parts[..i]) !! parts[k]
    ensures Union(parts[..i + 1]) == Union(parts[..i]) + parts[i]
    ensures Union(parts[..i]) <= Union(parts)
  {
    UnionSnoc(parts, i);
    forall x | x in Union(parts[..i])
      ensures x in Union(parts) && forall k :: i <= k < |parts| ==> x !in parts[k]
    {
      UnionIn(parts[..i], x);
      UnionIn(parts, x);
      var j :| 0 <= j < i && x in parts[..i][j];
      assert x in parts[j];
    }
  }

  /** The inner loop of htable_list. */
  method CopyChain<V>(first: Info?<V>, list: array<Info?<V>>, start: nat, ghost s: seq<Info<V>>, ghost e: set<Info<V>>)
    returns (count: nat)
    requires Chain(s, e) && first == First(s) && start + |s| < list.Length
    requires forall k :: start <= k < list.Length ==> list[k] == null
    modifies list
    ensures count == start + |s| && list[..count] == old(list[..start]) + s
    ensures forall k :: count <= k < list.Length ==> list[k] == null
  {
    count := start;
    ghost var j := 0;
    var member := first;
    while member != null
      invariant 0 <= j <= |s| && member == (if j < |s| then s[j] else null) && count == start + j
      invariant forall k :: 0 <= k < start ==> list[k] == old(list[k])
      invariant forall k :: 0 <= k < j ==> list[start + k] == s[k]
      invariant forall k :: count <= k < list.Length ==> list[k] == null
      decreases |s| - j
    {
      list[count] := member;
      count := count + 1;
      j := j + 1;
      member := member.next;
    }
  }

  // ---------- the table ----------

  datatype How = SeqFirst | SeqNext | SeqStop

  ghost predicate DistinctKeys<V>(all: set<Info<V>>) {
    forall x, y :: x in all && y in all && x.key == y.key ==> x == y
  }

  ghost predicate HasKey<V>(all: set<Info<V>>, key: string) {
    exists x :: x in all && x.key == key
  }

  /** With distinct keys the entries are a map. */
  ghost function MapOf<V>(all: set<Info<V>>): map<string, V>
    requires DistinctKeys(all)
  {
    map x | x in all :: x.key := x.value
  }

  /** b is the entry of `all` that a lookup of the key must find, or null when there is none. */
  ghost predicate Finds<V>(all: set<Info<V>>, key: string, b: Info?<V>) {
    if b == null then !HasKey(all, key) else b in all && b.key == key
  }

  /** b is what a map lookup finds. */
  ghost predicate LooksUp<V>(m: map<string, V>, key: string, b: Info?<V>) {
    (b != null <==> key in m) && (b != null ==> m[key] == b.value)
  }

  /** With distinct keys a lookup is a map lookup. */
  lemma FindAgreesWithMap<V>(all: set<Info<V>>, key: string, b: Info?<V>)
    requires DistinctKeys(all) && Finds(all, key, b)
    ensures LooksUp(MapOf(all), key, b)
  {
    if key in MapOf(all) {
      var x :| x in all && x.key == key;
    }
  }

  lemma EnterUpdatesMap<V>(all: set<Info<V>>, b: Info<V>)
    requires DistinctKeys(all) && b !in all && !HasKey(all, b.key)
    ensures DistinctKeys(all + {b}) && MapOf(all + {b}) == MapOf(all)[b.key := b.value]
  {
  }

  lemma DeleteUpdatesMap<V>(all: set<Info<V>>, b: Info<V>)
    requires DistinctKeys(all) && b in all
    ensures DistinctKeys(all - {b}) && MapOf(all - {b}) == MapOf(all) - {b.key}
  {
    forall k | k in MapOf(all) && k != b.key ensures k in MapOf(all - {b}) {
      var x :| x in all && x.key == k;
      assert x in all - {b};
    }
  }

  lemma RemoveUpdatesMap<V>(all: set<Info<V>>, key: string, b: Info?<V>)
    requires DistinctKeys(all) && Finds(all, key, b)
    ensures b == null ==> MapOf(all) == MapOf(all) - {key}
    ensures b != null ==> DistinctKeys(all - {b}) && MapOf(all - {b}) == MapOf(all) - {key}
  {
    if b == null {
      FindAgreesWithMap(all, key, b);
    } else {
      DeleteUpdatesMap(all, b);
    }
  }

  /** r is s, or s with x put in somewhere. */
  ghost predicate Inserted<N>(s: seq<N>, x: N, r: seq<N>) {
    r == s || exists p :: 0 <= p <= |s| && r == s[..p] + [x] + s[p..]
  }

  /** What the cursor has still to visit behind position j of chain i. */
  ghost function Rest<N>(lists: seq<seq<N>>, i: nat, j: nat): seq<N>
    requires i < |lists| && j < |lists[i]|
  {
    lists[i][j + 1..] + Flatten(lists[i + 1..])
  }

  lemma InsertedBehind<N>(a: seq<N>, s: seq<N>, x: N, r: seq<N>)
    requires Inserted(s, x, r)
    ensures Inserted(a + s, x, a + r)
  {
    if r != s {
      var p :| 0 <= p <= |s| && r == s[..p] + [x] + s[p..];
      var t, q := a + s, |a| + p;
      assert t[..q] == a + s[..p] && t[q..] == s[p..];
      assert a + r == t[..q] + [x] + t[q..];
    }
  }

  /** Putting x in front of chain h moves at most x itself into what is still to be visited. */
  lemma {:induction false} FlattenInsert<N>(lists: seq<seq<N>>, h: nat, x: N)
    requires h < |lists|
    ensures Inserted(Flatten(lists), x, Flatten(lists[h := [x] + lists[h]]))
    decreases h
  {
    var lists' := lists[h := [x] + lists[h]];
    if h == 0 {
      assert lists'[1..] == lists[1..];
      assert Flatten(lists') == Flatten(lists)[..0] + [x] + Flatten(lists)[0..];
    } else {
      FlattenInsert(lists[1..], h - 1, x);
      assert lists'[1..] == lists[1..][h - 1 := [x] + lists[1..][h - 1]];
      InsertedBehind(lists[0], Flatten(lists[1..]), x, Flatten(lists'[1..]));
    }
  }

  lemma RestInsert<N>(lists: seq<seq<N>>, h: nat, x: N, i: nat, j: nat)
    requires h < |lists| && i < |lists| && j < |lists[i]|
    ensures var lists' := lists[h := [x] + lists[h]]; var j' := if h == i then j + 1 else j;
      lists'[i][j'] == lists[i][j] && Inserted(Rest(lists, i, j), x, Rest(lists', i, j'))
  {
    hide Flatten;
    var lists' := lists[h := [x] + lists[h]];
    if h <= i {
      assert lists'[i + 1..] == lists[i + 1..];
      assert h == i ==> lists'[i][j + 2..] == lists[i][j + 1..];
    } else {
      var tail := lists[i + 1..];
      FlattenInsert(tail, h - i - 1, x);
      assert lists'[i + 1..] == tail[h - i - 1 := [x] + tail[h - i - 1]];
      InsertedBehind(lists[i][j + 1..], Flatten(tail), x, Flatten(lists'[i + 1..]));
      hide Inserted;
      assert lists'[i] == lists[i];
    }
  }

  ghost predicate CursorOk<V>(lists: seq<seq<Info<V>>>, i: nat, at: nat, e: Info?<V>) {
    i < |lists| && (e != null ==> at < |lists[i]| && lists[i][at] == e)
  }

  /** What a cursor standing on e, or on nothing after chain i, has to return from now on. */
  ghost function Todo<V>(lists: seq<seq<Info<V>>>, i: nat, at: nat, e: Info?<V>): seq<Info<V>>
    requires CursorOk(lists, i, at, e)
  {
    if e == null then Flatten(lists[i + 1..]) else [e] + Rest(lists, i, at)
  }

  lemma TodoEnter<V>(lists: seq<seq<Info<V>>>, i: nat)
    requires i < |lists|
    ensures CursorOk(lists, i, 0, First(lists[i]))
    ensures Todo(lists, i, 0, First(lists[i])) == Flatten(lists[i..])
  {
    var s := lists[i];
    assert lists[i..][0] == s && lists[i..][1..] == lists[i + 1..];
    assert s != [] ==> s == [s[0]] + s[1..];
  }

  lemma TodoStep<V>(lists: seq<seq<Info<V>>>, i: nat, at: nat)
    requires i < |lists| && at < |lists[i]|
    ensures CursorOk(lists, i, at + 1, First(lists[i][at + 1..]))
    ensures Todo(lists, i, at + 1, First(lists[i][at + 1..])) == Rest(lists, i, at)
  {
    var s := lists[i];
    assert at + 1 < |s| ==> s[at + 1..] == [s[at + 1]] + s[at + 2..];
  }

  lemma TodoShape<V>(lists: seq<seq<Info<V>>>, i: nat, at: nat, e: Info?<V>)
    requires CursorOk(lists, i, at, e)
    ensures e == null && i + 1 == |lists| ==> Todo(lists, i, at, e) == []
    ensures e != null ==> First(Todo(lists, i, at, e)) == e && Todo(lists, i, at, e)[1..] == Rest(lists, i, at)
    ensures e == null ==> Todo(lists, i, at, e) == Flatten(lists[i + 1..])
  {
  }

  /** `list` has no repetition, all of `start`, and nothing from outside `all`. */
  ghost predicate Covers<N>(start: set<N>, all: set<N>, list: seq<N>) {
    Distinct(list) && (forall x :: x in start ==> x in list) && (forall i :: 0 <= i < |list| ==> list[i] in all)
  }

  lemma CoversPut<N>(start: set<N>, all: set<N>, s: seq<N>, x: N, q: nat)
    requires Covers(start, all, s) && q <= |s| && x !in all
    ensures Covers(start, all + {x}, s[..q] + [x] + s[q..])
  {
    var t := s[..q] + [x] + s[q..];
    forall i, j | 0 <= i < j < |t| ensures t[i] != t[j] {
      var i', j' := if i < q then i else i - 1, if j < q then j else j - 1;
      assert i != q ==> t[i] == s[i'];
      assert j != q ==> t[j] == s[j'];
    }
    forall y | y in start ensures y in t {
      var i :| 0 <= i < |s| && s[i] == y;
      assert t[if i < q then i else i + 1] == y;
    }
    forall i | 0 <= i < |t| ensures t[i] in all + {x} {
      assert i != q ==> t[i] == s[if i < q then i else i - 1];
    }
  }

  lemma CoversMore<N>(start: set<N>, all: set<N>, s: seq<N>, x: N)
    requires Covers(start, all, s)
    ensures Covers(start, all + {x}, s)
  {
  }

  lemma CoversInsert<N>(start: set<N>, all: set<N>, visited: seq<N>, rest: seq<N>, x: N, rest': seq<N>)
    requires Covers(start, all, visited + rest) && Inserted(rest, x, rest') && x !in all
    ensures Covers(start, all + {x}, visited + rest') && |rest'| <= |rest| + 1
  {
    hide Covers;
    if rest' == rest {
      CoversMore(start, all, visited + rest, x);
    } else {
      var p :| 0 <= p <= |rest| && rest' == rest[..p] + [x] + rest[p..];
      var s, q := visited + rest, |visited| + p;
      CoversPut(start, all, s, x, q);
      assert s[..q] == visited + rest[..p] && s[q..] == rest[p..];
      assert visited + rest' == s[..q] + [x] + s[q..];
    }
  }

  /** How many entries the script enters from step n on. */
  ghost function Insertions<E>(script: seq<seq<E>>, n: nat): nat
    decreases |script| - n
  {
    if n >= |script| then 0 else |script[n]| + Insertions(script, n + 1)
  }

  class Htable<V> {
    const hash: string -> nat
    var size: nat
    var used: nat
    var data: array<Info?<V>>
    var seqBucket: nat        // an index, for the C pointer into data
    var seqElement: Info?<V>
    ghost var c: Chains<V>
    ghost var at: nat         // the position of seqElement in its chain

    ghost predicate Valid()
      reads this, data, c.all
    {
      && ChainsOk(data, c, hash) && size == data.Length == |c.lists| > 0 && used == |c.all|
      && (seqElement != null ==> CursorOk(c.lists, seqBucket, at, seqElement))
    }

    /** The entries the cursor has still to return. */
    ghost function Unvisited(): seq<Info<V>>
      requires Valid()
      reads this, data, c.all
    {
      if seqElement == null then [] else Rest(c.lists, seqBucket, at)
    }

    /** htable_create; htable_size makes the length odd. */
    constructor (size: int, hash: string -> nat)
      ensures Valid() && c.all == {} && seqElement == null && this.hash == hash
      ensures this.size == var n := if size < 13 then 13 else size; if n % 2 == 0 then n + 1 else n
      ensures fresh(data)
    {
      var n := if size < 13 then 13 else size;
      n := if n % 2 == 0 then n + 1 else n;
      this.hash, this.size, used := hash, n, 0;
      seqBucket, seqElement, at := 0, null, 0;
      data := new Info?<V>[n](_ => null);
      new;
      c := NoChains(data, hash);
    }

    /** htable_grow: the same entries in a table of 2 * size | 1 chains. */
    method Grow()
      requires Valid() && seqElement == null
      modifies this`size, this`used, this`data, this`c, c.all`next, c.all`prev
      ensures Valid() && c.all == old(c.all) && size == 2 * old(size) + 1 && used == old(used) && fresh(data)
    {
      hide ChainsOk, CursorOk;
      var n := 2 * size + 1;
      var grown := new Info?<V>[n](_ => null);
      var count;
      ghost var c';
      count, c' := RelinkAll(data, c, grown, hash);
      ChainsLength(grown, c', hash);
      data, size, used, c := grown, n, count, c';
    }

    /** htable_enter. A live cursor keeps its entry and, but for the new one, what it has still to visit. */
    method Enter(key: string, value: V) returns (b: Info<V>)
      requires Valid()
      modifies this`size, this`used, this`data, this`c, this`at, data, c.all`next, c.all`prev
      ensures Valid() && fresh(b) && b.key == key && b.value == value && (fresh(data) || data == old(data))
      ensures c.all == old(c.all) + {b} && used == old(used) + 1
      ensures seqElement == old(seqElement) && (seqElement != null ==> data == old(data))
      ensures seqElement != null ==> Inserted(old(Unvisited()), b, Unvisited())
      ensures size == if old(used) >= old(size) && old(seqElement) == null then 2 * old(size) + 1 else old(size)
      ensures old(DistinctKeys(c.all) && !HasKey(c.all, key)) ==> DistinctKeys(c.all) && MapOf(c.all) == old(MapOf(c.all))[key := value]
    {
      hide ChainsOk, Rest, Inserted, CursorOk, DistinctKeys, HasKey, MapOf;
      ghost var all := c.all;
      if used >= size && seqElement == null {
        Grow();
      }
      b := new Info(key, value);
      if DistinctKeys(all) && !HasKey(all, key) {
        EnterUpdatesMap(all, b);
      }
      LinkNew(b);
    }

    /** The linking of htable_enter. */
    method LinkNew(b: Info<V>)
      requires Valid() && b !in c.all
      modifies this`used, this`c, this`at, data, b`next, b`prev, c.all`prev
      ensures Valid() && c.all == old(c.all) + {b} && used == old(used) + 1
      ensures seqElement != null ==> Inserted(old(Unvisited()), b, Unvisited())
    {
      hide ChainsOk, Rest, Inserted;
      ghost var lists := c.lists;
      var h := hash(b.key) % size;
      used, c := Link(data, b, used, c, hash);
      if seqElement != null {
        RestInsert(lists, h, b, seqBucket, at);
        at := if h == seqBucket then at + 1 else at;
      }
    }

    /** htable_locate, and htable_find when only the value is wanted: the first match of the chain. */
    method Locate(key: string) returns (b: Info?<V>)
      requires Valid()
      ensures Finds(c.all, key, b)
      ensures b != null ==> var s := c.lists[hash(key) % size];
        exists j :: 0 <= j < |s| && s[j] == b && forall i :: 0 <= i < j ==> s[i].key != key
      ensures DistinctKeys(c.all) ==> LooksUp(MapOf(c.all), key, b)
    {
      b := Search(key);
      if DistinctKeys(c.all) {
        FindAgreesWithMap(c.all, key, b);
      }
    }

    /** The loop over the chain. */
    method Search(key: string) returns (b: Info?<V>)
      requires Valid()
      ensures Finds(c.all, key, b)
      ensures b != null ==> var s := c.lists[hash(key) % size];
        exists j :: 0 <= j < |s| && s[j] == b && forall i :: 0 <= i < j ==> s[i].key != key
    {
      var h := hash(key) % size;
      assert ChainOk(h, data, c, hash);
      ghost var j, s := 0, c.lists[h];
      b := data[h];
      while b != null && b.key != key
        invariant 0 <= j <= |s| && b == if j < |s| then s[j] else null
        invariant forall i :: 0 <= i < j ==> s[i].key != key
        decreases |s| - j
      {
        b := b.next;
        j := j + 1;
      }
    }

    /** htable_delete, with no cursor live. */
    method Delete(key: string) returns (ghost gone: Info?<V>)
      requires Valid() && seqElement == null
      modifies this`used, this`c, data, c.all`next, c.all`prev
      ensures Valid() && Finds(old(c.all), key, gone)
      ensures c.all == if gone == null then old(c.all) else old(c.all) - {gone}
      ensures old(DistinctKeys(c.all)) ==> DistinctKeys(c.all) && MapOf(c.all) == old(MapOf(c.all)) - {key}
    {
      hide ChainsOk, DistinctKeys, MapOf;
      var b := Locate(key);
      gone := b;
      if DistinctKeys(c.all) {
        RemoveUpdatesMap(c.all, key, gone);
      }
      if b != null {
        ghost var s := c.lists[hash(key) % size];
        ghost var j :| 0 <= j < |s| && s[j] == b;
        c := Unlink(data, b, j, c, hash);
        used := used - 1;
      }
    }

    /** htable_list: every entry once, chain by chain, then NULL, filling exactly used + 1 cells. */
    method List() returns (list: array<Info?<V>>)
      requires Valid()
      ensures fresh(list) && list.Length == used + 1 && list[used] == null
      ensures list[..used] == Flatten(c.lists)
      ensures Distinct(Flatten(c.lists)) && SameElements(Flatten(c.lists), c.all)
    {
      ChainsFlatten(data, c, hash);
      hide ChainsOk, ChainOk, Chain, Distinct, SameElements;
      list := new Info?<V>[used + 1](_ => null);
      var count, i := 0, 0;
      assert c.lists[..|c.lists|] == c.lists;
      while i < size
        invariant 0 <= i <= size && 0 <= count <= used
        invariant list[..count] == Flatten(c.lists[..i])
        invariant forall k :: count <= k <= used ==> list[k] == null
      {
        ChainAt(data, c, hash, i);
        FlattenSnoc(c.lists, i);
        FlattenSplit(c.lists, i + 1);
        count := CopyChain(data[i], list, count, c.lists[i], c.parts[i]);
        i := i + 1;
      }
    }

    /** The loop at the end of htable_sequence: find the next chain that is not empty. */
    method SkipEmpty(ghost todo: seq<Info<V>>)
      requires ChainsOk(data, c, hash) && size == data.Length == |c.lists| > 0 && used == |c.all|
      requires CursorOk(c.lists, seqBucket, at, seqElement) && todo == Todo(c.lists, seqBucket, at, seqElement)
      modifies this`seqBucket, this`seqElement, this`at
      ensures Valid() && seqElement == First(todo)
      ensures Unvisited() == if todo == [] then [] else todo[1..]
    {
      hide ChainsOk, ChainOk, Todo, Rest, Chain, Distinct, SameElements;
      assert seqBucket < |c.lists|;
      while seqElement == null
        invariant CursorOk(c.lists, seqBucket, at, seqElement) && todo == Todo(c.lists, seqBucket, at, seqElement)
        decreases size - seqBucket
      {
        TodoShape(c.lists, seqBucket, at, null);
        seqBucket := seqBucket + 1;
        if !(seqBucket < size) {
          return;
        }
        ChainAt(data, c, hash, seqBucket);
        seqElement := data[seqBucket];
        at := 0;
        TodoEnter(c.lists, seqBucket);
      }
      TodoShape(c.lists, seqBucket, at, seqElement);
    }

    method StartOver()
      requires Valid()
      modifies this`seqBucket, this`seqElement, this`at
      ensures Valid() && seqElement == First(Flatten(c.lists))
      ensures Unvisited() == if Flatten(c.lists) == [] then [] else Flatten(c.lists)[1..]
    {
      hide ChainsOk, ChainOk, Todo, Rest, Chain, Distinct, SameElements;
      seqBucket, at := 0, 0;
      seqElement := data[0];
      ChainAt(data, c, hash, 0);
      TodoEnter(c.lists, 0);
      assert c.lists[0..] == c.lists;
      SkipEmpty(Flatten(c.lists));
    }

    method StepOn()
      requires Valid() && seqElement != null
      modifies this`seqBucket, this`seqElement, this`at
      ensures Valid() && seqElement == First(old(Unvisited()))
      ensures Unvisited() == if old(Unvisited()) == [] then [] else old(Unvisited())[1..]
    {
      hide ChainsOk, ChainOk, Todo, Rest, Chain, Distinct, SameElements;
      ghost var todo := Unvisited();
      ChainAt(data, c, hash, seqBucket);
      NextIs(c.lists[seqBucket], c.parts[seqBucket], at);
      TodoStep(c.lists, seqBucket, at);
      seqElement := seqElement.next;
      at := at + 1;
      SkipEmpty(todo);
    }

    /** htable_sequence. FIRST starts over, NEXT returns the first unvisited entry, NULL ends the traversal. */
    method Sequence(how: How) returns (b: Info?<V>)
      requires Valid()
      modifies this`seqBucket, this`seqElement, this`at
      ensures Valid() && b == seqElement
      ensures how.SeqStop? ==> b == null
      ensures !how.SeqStop? ==>
        var todo := if how.SeqFirst? then Flatten(c.lists) else old(Unvisited());
        b == First(todo) && Unvisited() == if todo == [] then [] else todo[1..]
    {
      match how {
        case SeqFirst => StartOver();
        case SeqNext =>
          if seqElement != null {
            StepOn();
          }
        case SeqStop => seqElement := null;
      }
      b := seqElement;
    }

    /** What a traversal returns from the entry b, just returned, on. */
    ghost function Ahead(b: Info?<V>): seq<Info<V>>
      requires Valid()
      reads this, data, c.all
    {
      if b == null then [] else [b] + Unvisited()
    }

    /** Entries entered between two steps of a traversal: all that was to be returned still is, once. */
    method EnterAll(entries: seq<(string, V)>, ghost start: set<Info<V>>, ghost visited: seq<Info<V>>)
      requires Valid() && seqElement != null && Covers(start, c.all, visited + Unvisited())
      modifies this`size, this`used, this`data, this`c, this`at, data, c.all`next, c.all`prev
      ensures Valid() && seqElement == old(seqElement) && data == old(data)
      ensures old(c.all) <= c.all && fresh(c.all - old(c.all))
      ensures Covers(start, c.all, visited + Unvisited()) && |Unvisited()| <= |old(Unvisited())| + |entries|
      ensures entries == [] ==> c == old(c) && at == old(at)
    {
      hide ChainsOk, Rest, Inserted, Covers;
      for k := 0 to |entries|
        invariant Valid() && seqElement == old(seqElement) && data == old(data)
        invariant old(c.all) <= c.all && fresh(c.all - old(c.all))
        invariant Covers(start, c.all, visited + Unvisited()) && |Unvisited()| <= |old(Unvisited())| + k
        invariant k == 0 ==> c == old(c) && at == old(at)
      {
        ghost var all, rest := c.all, Unvisited();
        var x := Enter(entries[k].0, entries[k].1);
        CoversInsert(start, all, visited, rest, x, Unvisited());
      }
    }

    /** Entries entered after the entry b was returned, then NEXT. */
    method EnterAndStep(b: Info<V>, entries: seq<(string, V)>, ghost start: set<Info<V>>, ghost visited: seq<Info<V>>)
      returns (b': Info?<V>)
      requires Valid() && b == seqElement && Covers(start, c.all, visited + Ahead(b))
      modifies this, data, c.all`next, c.all`prev
      ensures Valid() && b' == seqElement && data == old(data)
      ensures old(c.all) <= c.all && fresh(c.all - old(c.all))
      ensures Covers(start, c.all, (visited + [b]) + Ahead(b')) && |Ahead(b')| < |old(Ahead(b))| + |entries|
      ensures entries == [] ==> (visited + [b]) + Ahead(b') == visited + old(Ahead(b)) && c.all == old(c.all)
    {
      hide ChainsOk, Rest, Covers, CursorOk;
      assert visited + Ahead(b) == (visited + [b]) + Unvisited();
      EnterAll(entries, start, visited + [b]);
      ghost var rest := Unvisited();
      b' := Sequence(SeqNext);
      assert Ahead(b') == rest;
    }

    lemma AllCovered()
      requires Valid()
      ensures Covers(c.all, c.all, Flatten(c.lists))
    {
      ChainsFlatten(data, c, hash);
    }

    method Begin() returns (b: Info?<V>)
      requires Valid()
      modifies this`seqBucket, this`seqElement, this`at
      ensures Valid() && b == seqElement && Ahead(b) == Flatten(c.lists) && Covers(c.all, c.all, Ahead(b))
    {
      hide ChainsOk, Rest, Covers, CursorOk, Flatten;
      AllCovered();
      b := Sequence(SeqFirst);
      assert Ahead(b) == Flatten(c.lists);
    }

    lemma AheadNone()
      requires Valid()
      ensures Ahead(null) == []
    {
    }

    /**
     A whole FIRST/NEXT traversal with entries entered between its steps: script[n] is entered after
     the n-th entry was returned. Every entry there at FIRST is returned exactly once, nothing is
     returned twice, and what else is returned was entered on the way.
    */
    method Traverse(script: seq<seq<(string, V)>>) returns (visited: seq<Info<V>>)
      requires Valid()
      modifies this, data, c.all`next, c.all`prev
      ensures Valid() && seqElement == null
      ensures Covers(old(c.all), c.all, visited)
      ensures (forall n :: 0 <= n < |script| ==> script[n] == []) ==> visited == old(Flatten(c.lists)) && c.all == old(c.all)
    {
      ghost var start, lists := c.all, Flatten(c.lists);
      ghost var quiet := forall n :: 0 <= n < |script| ==> script[n] == [];
      visited := [];
      var n := 0;
      var b := Begin();
      hide Valid, Ahead, Unvisited, Covers, Flatten;
      assert visited + Ahead(b) == Ahead(b);
      while b != null
        invariant Valid() && b == seqElement && 0 <= n && data == old(data)
        invariant start <= c.all && fresh(c.all - start)
        invariant Covers(start, c.all, visited + Ahead(b))
        invariant quiet ==> visited + Ahead(b) == lists && c.all == start
        decreases Insertions(script, n) + |Ahead(b)|
      {
        ghost var was := visited;
        visited := visited + [b];
        b := EnterAndStep(b, if n < |script| then script[n] else [], start, was);
        n := n + 1;
      }
      AheadNone();
      assert visited + [] == visited;
    }
  }
}
