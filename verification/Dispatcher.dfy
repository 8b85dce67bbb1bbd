/**
 The pre-forked server of linux_demo/unp1/server_serv_sockpair.c: a parent accepts connections and
 passes each to an idle child through a pipe; the child answers with one byte when it is done.
*/
module DispatcherModel {

  /** A child as the parent's table knows it (busy, count), its two pipes, and what it works on. */
  datatype Child = Child(busy: bool, count: nat, down: seq<nat>, work: seq<nat>, up: nat, served: seq<nat>)

  /** Where the parent is in its loop: about to select, about to accept, or looking at child i. */
  datatype Place = Top | Accepting(ready: set<nat>, nsel: int) | Scanning(i: nat, ready: set<nat>, nsel: int) | NoChild | Stuck

  /** `given[k]` is the child that connection k went to. */
  datatype State = State(cs: seq<Child>, navail: int, at: Place, given: seq<nat>)

  datatype Event = Select(ready: set<nat>, listening: bool) | Accept | Look | Take(child: nat) | Finish(child: nat)

  function Free(cs: seq<Child>): nat {
    if cs == [] then 0 else Free(cs[..|cs| - 1]) + if cs[|cs| - 1].busy then 0 else 1
  }

  lemma {:induction false} FreeUpdate(cs: seq<Child>, i: nat, c: Child)
    requires i < |cs|
    ensures Free(cs[i := c]) == Free(cs) - (if cs[i].busy then 0 else 1) + (if c.busy then 0 else 1)
  {
    var n := |cs| - 1;
    if i == n {
      assert cs[i := c][..n] == cs[..n];
    } else {
      assert cs[i := c][..n] == cs[..n][i := c];
      FreeUpdate(cs[..n], i, c);
    }
  }

  /** The search for an idle child. */
  function FirstFree(cs: seq<Child>): (i: nat)
    ensures i <= |cs| && (i < |cs| ==> !cs[i].busy)
    ensures forall k :: 0 <= k < i ==> cs[k].busy
  {
    if cs == [] || !cs[0].busy then 0 else
    var j := FirstFree(cs[1..]);
    assert forall k :: 1 <= k <= j ==> cs[k] == cs[1..][k - 1];
    1 + j
  }

  lemma {:induction false} FreeHasFirst(cs: seq<Child>)
    ensures Free(cs) == 0 <==> forall k :: 0 <= k < |cs| ==> cs[k].busy
  {
    if cs != [] {
      var n := |cs| - 1;
      FreeHasFirst(cs[..n]);
      assert forall k :: 0 <= k < n ==> cs[..n][k] == cs[k];
    }
  }

  /** The connections that went to child i, in order. */
  function Assigned(given: seq<nat>, i: nat): seq<nat> {
    if given == [] then [] else
    var k := |given| - 1;
    Assigned(given[..k], i) + if given[k] == i then [k] else []
  }

  lemma {:induction false} AssignedMembers(given: seq<nat>, i: nat)
    ensures forall k: nat :: k in Assigned(given, i) <==> k < |given| && given[k] == i
  {
    if given != [] {
      var n := |given| - 1;
      AssignedMembers(given[..n], i);
      assert forall k :: 0 <= k < n ==> given[..n][k] == given[k];
    }
  }

  lemma {:induction false} AssignedAscends(given: seq<nat>, i: nat)
    ensures forall a, b :: 0 <= a < b < |Assigned(given, i)| ==> Assigned(given, i)[a] < Assigned(given, i)[b]
  {
    if given != [] {
      var n := |given| - 1;
      AssignedAscends(given[..n], i);
      AssignedMembers(given[..n], i);
      var before := Assigned(given[..n], i);
      assert forall a :: 0 <= a < |before| ==> before[a] in before;
    }
  }

  lemma AssignedNext(given: seq<nat>, c: nat, i: nat)
    ensures Assigned(given + [c], i) == Assigned(given, i) + if c == i then [|given|] else []
  {
    assert (given + [c])[..|given|] == given;
  }

  function Ready(cs: seq<Child>): set<nat> { set i: nat | i < |cs| && cs[i].up > 0 }

  function From(ready: set<nat>, i: nat): set<nat> { set j | j in ready && j >= i }

  predicate Enabled(s: State, e: Event) {
    match e
    case Select(ready, listening) =>
      s.at.Top? && ready == Ready(s.cs) && (listening ==> s.navail > 0) && (listening || ready != {})
    case Accept => s.at.Accepting?
    case Look => s.at.Scanning?
    case Take(i) => i < |s.cs| && s.cs[i].work == [] && s.cs[i].down != []
    case Finish(i) => i < |s.cs| && s.cs[i].work != []
  }

  function Granted(c: Child, k: nat): Child { c.(busy := true, count := c.count + 1, down := c.down + [k]) }
  function Heard(c: Child): Child requires c.up > 0 { c.(busy := false, up := c.up - 1) }
  function Taken(c: Child): Child requires c.down != [] { c.(work := [c.down[0]], down := c.down[1..]) }
  function Finished(c: Child): Child { c.(work := [], up := c.up + 1, served := c.served + c.work) }

  function Resume(i: nat, ready: set<nat>, nsel: int): Place {
    if nsel == 0 then Top else Scanning(i, ready, nsel)
  }

  function Apply(s: State, e: Event): State
    requires Enabled(s, e)
  {
    match e
    case Select(ready, listening) =>
      s.(at := if listening then Accepting(ready, |ready| + 1) else Scanning(0, ready, |ready|))
    case Accept =>
      var i := FirstFree(s.cs);
      if i == |s.cs| then s.(at := NoChild) else
      State(s.cs[i := Granted(s.cs[i], |s.given|)], s.navail - 1, Resume(0, s.at.ready, s.at.nsel - 1), s.given + [i])
    case Look =>
      var i := s.at.i;
      if i >= |s.cs| then s.(at := Top)
      else if i !in s.at.ready then s.(at := Scanning(i + 1, s.at.ready, s.at.nsel))
      else if s.cs[i].up == 0 then s.(at := Stuck)
      else State(s.cs[i := Heard(s.cs[i])], s.navail + 1, Resume(i + 1, s.at.ready, s.at.nsel - 1), s.given)
    case Take(i) => s.(cs := s.cs[i := Taken(s.cs[i])])
    case Finish(i) => s.(cs := s.cs[i := Finished(s.cs[i])])
  }

  ghost predicate Legal(s: State, es: seq<Event>)
    decreases |es|
  {
    es == [] || (Enabled(s, es[0]) && Legal(Apply(s, es[0]), es[1..]))
  }

  ghost function Run(s: State, es: seq<Event>): State
    requires Legal(s, es)
    decreases |es|
  {
    if es == [] then s else Run(Apply(s, es[0]), es[1..])
  }

  lemma {:induction false} RunNext(s: State, es: seq<Event>, e: Event)
    requires Legal(s, es) && Enabled(Run(s, es), e)
    ensures Legal(s, es + [e]) && Run(s, es + [e]) == Apply(Run(s, es), e)
    decreases |es|
  {
    if es == [] {
      assert es + [e] == [e];
    } else {
      RunNext(Apply(s, es[0]), es[1..], e);
      assert (es + [e])[1..] == es[1..] + [e];
    }
  }

  // ---------- the invariant ----------

  /** A busy child has one token: the descriptor in its pipe, the work in hand, or its done byte. */
  ghost predicate Token(c: Child) { |c.down| + |c.work| + c.up == if c.busy then 1 else 0 }

  /** What a child was given is what it has served, works on, and will find in its pipe, in this order. */
  ghost predicate Ledger(c: Child, given: seq<nat>) {
    c.served + c.work + c.down == given && c.count == |given|
  }

  ghost predicate Books(cs: seq<Child>, given: seq<nat>) {
    forall i :: 0 <= i < |cs| ==> Token(cs[i]) && Ledger(cs[i], Assigned(given, i))
  }

  ghost predicate PlaceOk(s: State) {
    match s.at
    case Top => true
    case Accepting(ready, nsel) => s.navail > 0 && nsel == |ready| + 1 && Pending(s.cs, ready)
    case Scanning(i, ready, nsel) => nsel == |From(ready, i)| > 0 && Pending(s.cs, From(ready, i))
    case _ => false
  }

  ghost predicate Pending(cs: seq<Child>, ready: set<nat>) {
    forall j :: j in ready ==> j < |cs| && cs[j].up > 0
  }

  ghost predicate Conserved(s: State) {
    && Books(s.cs, s.given)
    && (forall k :: 0 <= k < |s.given| ==> s.given[k] < |s.cs|)
    && s.navail == Free(s.cs)
    && PlaceOk(s)
  }

  function Start(n: nat): State {
    State(seq(n, _ => Child(false, 0, [], [], 0, [])), n, Top, [])
  }

  lemma {:induction false} FreeAll(cs: seq<Child>)
    requires forall k :: 0 <= k < |cs| ==> !cs[k].busy
    ensures Free(cs) == |cs|
  {
    if cs != [] {
      FreeAll(cs[..|cs| - 1]);
    }
  }

  lemma StartConserved(n: nat)
    ensures Conserved(Start(n))
  {
    FreeAll(Start(n).cs);
  }

  lemma FromStep(ready: set<nat>, i: nat)
    ensures From(ready, 0) == ready
    ensures From(ready, i) == From(ready, i + 1) + (if i in ready then {i} else {})
    ensures |From(ready, i)| == |From(ready, i + 1)| + if i in ready then 1 else 0
  {
    assert From(ready, 0) == ready;
    assert From(ready, i) == From(ready, i + 1) + (if i in ready then {i} else {});
  }

  lemma BooksReplace(cs: seq<Child>, given: seq<nat>, i: nat, c: Child)
    requires Books(cs, given) && i < |cs| && Token(c) && Ledger(c, Assigned(given, i))
    ensures Books(cs[i := c], given)
  {
    hide Ledger, Token, Assigned;
    forall k | 0 <= k < |cs| ensures Token(cs[i := c][k]) && Ledger(cs[i := c][k], Assigned(given, k)) {
      assert k != i ==> cs[i := c][k] == cs[k];
    }
  }

  lemma BooksGrant(cs: seq<Child>, given: seq<nat>, i: nat)
    requires Books(cs, given) && i < |cs| && !cs[i].busy
    ensures Books(cs[i := Granted(cs[i], |given|)], given + [i])
  {
    var c := Granted(cs[i], |given|);
    forall j | 0 <= j < |cs| ensures Token(cs[i := c][j]) && Ledger(cs[i := c][j], Assigned(given + [i], j)) {
      AssignedNext(given, i, j);
      assert Token(cs[j]) && Ledger(cs[j], Assigned(given, j));
      if j == i {
        var was := cs[i];
        assert (was.served + was.work) + (was.down + [|given|]) == (was.served + was.work + was.down) + [|given|];
      } else {
        assert cs[i := c][j] == cs[j];
      }
    }
  }

  /** A child's own step keeps its books and takes no done byte away. */
  lemma ChildKeeps(s: State, i: nat, c: Child)
    requires Conserved(s) && i < |s.cs| && Token(c) && Ledger(c, Assigned(s.given, i))
    requires c.busy == s.cs[i].busy && c.up >= s.cs[i].up
    ensures Conserved(s.(cs := s.cs[i := c]))
  {
    FreeUpdate(s.cs, i, c);
    BooksReplace(s.cs, s.given, i, c);
    hide Books, Free, Token, Ledger;
    var t := s.(cs := s.cs[i := c]);
    assert forall k :: 0 <= k < |s.cs| ==> t.cs[k].up >= s.cs[k].up;
  }

  lemma BusyOrReady(cs: seq<Child>, given: seq<nat>, i: nat)
    requires Books(cs, given) && i < |cs|
    ensures cs[i].up > 0 ==> cs[i].busy
    ensures cs[i].up > 0 ==> Token(Heard(cs[i])) && Ledger(Heard(cs[i]), Assigned(given, i))
  {
    assert Token(cs[i]) && Ledger(cs[i], Assigned(given, i));
  }

  lemma AcceptParts(s: State, i: nat)
    requires Conserved(s) && s.at.Accepting? && i == FirstFree(s.cs)
    ensures i < |s.cs|
    ensures var cs := s.cs[i := Granted(s.cs[i], |s.given|)];
      Books(cs, s.given + [i]) && Free(cs) == s.navail - 1 && Pending(cs, s.at.ready)
  {
    FreeHasFirst(s.cs);
    hide Books, Free, FirstFree, Token, Ledger, Assigned;
    FreeUpdate(s.cs, i, Granted(s.cs[i], |s.given|));
    BooksGrant(s.cs, s.given, i);
  }

  lemma AcceptKeeps(s: State)
    requires Conserved(s) && s.at.Accepting?
    ensures FirstFree(s.cs) < |s.cs| && Conserved(Apply(s, Accept))
  {
    hide Books, Free, Pending, From, FirstFree, Granted, Token, Ledger, Assigned;
    AcceptParts(s, FirstFree(s.cs));
    FromStep(s.at.ready, 0);
  }

  lemma PendingStep(cs: seq<Child>, ready: set<nat>, i: nat, c: Child)
    requires Pending(cs, From(ready, i)) && i < |cs|
    ensures Pending(cs[i := c], From(ready, i + 1))
  {
    var rest, cs' := From(ready, i + 1), cs[i := c];
    forall j | j in rest ensures j < |cs'| && cs'[j].up > 0 {
      assert j in From(ready, i);
    }
  }

  lemma LookParts(s: State, i: nat)
    requires Conserved(s) && s.at.Scanning? && i == s.at.i && i in s.at.ready
    ensures i < |s.cs| && s.cs[i].up > 0
    ensures var cs := s.cs[i := Heard(s.cs[i])];
      Books(cs, s.given) && Free(cs) == s.navail + 1 && Pending(cs, From(s.at.ready, i + 1))
  {
    hide Books, Free, Token, Ledger, Assigned;
    assert i in From(s.at.ready, i);
    FreeUpdate(s.cs, i, Heard(s.cs[i]));
    BusyOrReady(s.cs, s.given, i);
    BooksReplace(s.cs, s.given, i, Heard(s.cs[i]));
    PendingStep(s.cs, s.at.ready, i, Heard(s.cs[i]));
  }

  lemma LookKeeps(s: State)
    requires Conserved(s) && s.at.Scanning?
    ensures s.at.i < |s.cs| && (s.at.i in s.at.ready ==> s.cs[s.at.i].up > 0)
    ensures Conserved(Apply(s, Look))
  {
    hide Books, Free, Pending, From, FirstFree, Heard, Token, Ledger, Assigned;
    var i, ready := s.at.i, s.at.ready;
    ScanHasMore(s);
    FromStep(ready, i);
    if i in ready {
      LookParts(s, i);
    } else {
      assert From(ready, i) + {} == From(ready, i);
    }
  }

  lemma ScanHasMore(s: State)
    requires Conserved(s) && s.at.Scanning?
    ensures s.at.i < |s.cs|
  {
    var j :| j in From(s.at.ready, s.at.i);
  }

  /** Every step of parent or child keeps the tokens. */
  lemma StepKeepsConserved(s: State, e: Event)
    requires Conserved(s) && Enabled(s, e)
    ensures Conserved(Apply(s, e))
  {
    match e {
      case Select(ready, listening) =>
        FromStep(ready, 0);
        assert |ready| == 0 ==> ready == {};
      case Accept => AcceptKeeps(s);
      case Look => LookKeeps(s);
      case Take(i) =>
        var c := s.cs[i];
        assert Token(c) && Ledger(c, Assigned(s.given, i));
        assert c.served + [c.down[0]] + c.down[1..] == c.served + [] + c.down;
        ChildKeeps(s, i, Taken(c));
      case Finish(i) =>
        var c := s.cs[i];
        assert Token(c) && Ledger(c, Assigned(s.given, i));
        assert (c.served + c.work) + [] + c.down == c.served + c.work + c.down;
        ChildKeeps(s, i, Finished(c));
    }
  }

  /** Over every run: one token per busy child, exact navail, and neither error exit is reached. */
  lemma {:induction false} ConservedOverRuns(s: State, es: seq<Event>)
    requires Conserved(s) && Legal(s, es)
    ensures Conserved(Run(s, es)) && !Run(s, es).at.NoChild? && !Run(s, es).at.Stuck?
    decreases |es|
  {
    if es != [] {
      StepKeepsConserved(s, es[0]);
      ConservedOverRuns(Apply(s, es[0]), es[1..]);
    }
  }

  /** Every accepted connection is with one child, at one place, and with no other. */
  lemma OneChildPerConnection(s: State, k: nat)
    requires Conserved(s) && k < |s.given|
    ensures s.given[k] < |s.cs|
    ensures forall i :: 0 <= i < |s.cs| ==>
      (k in s.cs[i].served + s.cs[i].work + s.cs[i].down <==> i == s.given[k])
    ensures var c := s.cs[s.given[k]];
      exists p :: 0 <= p < c.count && (c.served + c.work + c.down)[p] == k && k !in (c.served + c.work + c.down)[..p] + (c.served + c.work + c.down)[p + 1..]
  {
    forall i | 0 <= i < |s.cs| ensures k in s.cs[i].served + s.cs[i].work + s.cs[i].down <==> i == s.given[k] {
      AssignedMembers(s.given, i);
      assert Ledger(s.cs[i], Assigned(s.given, i));
    }
    var i := s.given[k];
    AssignedMembers(s.given, i);
    AssignedAscends(s.given, i);
    var all := Assigned(s.given, i);
    assert Ledger(s.cs[i], all);
    var p :| 0 <= p < |all| && all[p] == k;
    assert k !in all[..p] + all[p + 1..];
  }

  /** The scan always ends at its break: while it goes on, a ready child is still ahead. */
  lemma ScanEndsAtBreak(s: State)
    requires Conserved(s) && s.at.Scanning?
    ensures exists j :: s.at.i <= j < |s.cs| && j in s.at.ready && s.cs[j].up > 0
    ensures s.at.nsel == 1 <==> exists j :: j in s.at.ready && From(s.at.ready, s.at.i) == {j}
  {
    var left := From(s.at.ready, s.at.i);
    var j :| j in left;
    assert s.at.i <= j < |s.cs| && j in s.at.ready;
    assert |left| == |left - {j}| + 1;
    if s.at.nsel == 1 {
      assert left - {j} == {};
      assert left == {j};
    }
  }

  /** Somebody can always move: if all are waiting, every child is idle and the listening socket is watched. */
  lemma NeverDeadlocked(s: State)
    requires Conserved(s)
    requires !Enabled(s, Select(Ready(s.cs), false)) && !Enabled(s, Accept) && !Enabled(s, Look)
    requires forall i :: 0 <= i < |s.cs| ==> !Enabled(s, Take(i)) && !Enabled(s, Finish(i))
    ensures s.at.Top? && s.navail == |s.cs| && (|s.cs| > 0 ==> Enabled(s, Select({}, true)))
  {
    assert Ready(s.cs) == {};
    forall i | 0 <= i < |s.cs| ensures !s.cs[i].busy {
      assert Token(s.cs[i]) && !Enabled(s, Take(i)) && !Enabled(s, Finish(i));
      assert s.cs[i].up > 0 ==> i in Ready(s.cs);
    }
    FreeAll(s.cs);
  }

  lemma StartOfScan(s: State)
    requires Conserved(s) && s.at.Scanning? && s.at.i == 0
    ensures s.at.nsel == |s.at.ready|
  {
    FromStep(s.at.ready, 0);
  }

  lemma ScanDone(s: State)
    requires Conserved(s) && s.at.Scanning? && s.at.nsel == 1 && s.at.i in s.at.ready
    ensures forall j :: j in s.at.ready ==> j <= s.at.i
  {
    ScanEndsAtBreak(s);
    assert s.at.i in From(s.at.ready, s.at.i);
    assert forall j :: j in s.at.ready && j > s.at.i ==> j in From(s.at.ready, s.at.i);
  }

  lemma IdleHasNothing(s: State, i: nat)
    requires Conserved(s) && i < |s.cs| && !s.cs[i].busy
    ensures s.cs[i].work == [] && s.cs[i].down == [] && s.cs[i].up == 0
  {
    assert Token(s.cs[i]);
  }

  /** A child's next step, if it has one: to take up its descriptor, or to finish its work. */
  function Moved(cs: seq<Child>, i: nat): seq<Child> {
    if i >= |cs| then cs else if cs[i].work != [] then cs[i := Finished(cs[i])] else if cs[i].down != [] then cs[i := Taken(cs[i])] else cs
  }

  function MovedAll(cs: seq<Child>, moves: seq<nat>): seq<Child> {
    if moves == [] then cs else Moved(MovedAll(cs, moves[..|moves| - 1]), moves[|moves| - 1])
  }

  /** Children never change who is idle, and only add done bytes. */
  ghost predicate OnlyChildrenMoved(a: seq<Child>, b: seq<Child>) {
    && |a| == |b|
    && forall k :: 0 <= k < |a| ==> b[k].busy == a[k].busy && b[k].up >= a[k].up && (!a[k].busy ==> b[k] == a[k])
  }

  class Dispatcher {
    const nchildren: nat
    const cptr: array<Child>
    var navail: int
    ghost var at: Place
    var given: seq<nat>             // the child each accepted connection went to
    ghost var trace: seq<Event>     // every step of parent and children so far

    ghost function Now(): State
      reads this, cptr
    {
      State(cptr[..], navail, at, given)
    }

    /** The parent and its children have come here from the start, step by step. */
    ghost predicate Valid()
      reads this, cptr
    {
      && cptr.Length == nchildren
      && Legal(Start(nchildren), trace) && Run(Start(nchildren), trace) == Now()
    }

    constructor (n: nat)
      ensures Valid() && at.Top? && nchildren == n && given == []
    {
      nchildren, navail := n, n;
      cptr := new Child[n](_ => Child(false, 0, [], [], 0, []));
      at, given, trace := Top, [], [];
      new;
      assert Now() == Start(n) && Legal(Start(n), []);
    }

    lemma Sound()
      requires Valid()
      ensures Conserved(Now())
    {
      StartConserved(nchildren);
      ConservedOverRuns(Start(nchildren), trace);
    }

    /** What child i does next: read_fd when it waits, the done byte when it works. */
    ghost function Next(i: nat): seq<Event>
      requires cptr.Length == nchildren
      reads cptr
    {
      if i >= nchildren then [] else if cptr[i].work != [] then [Finish(i)] else if cptr[i].down != [] then [Take(i)] else []
    }

    /** The step has been made; note it. */
    ghost method Note(before: State, e: Event)
      requires Legal(Start(nchildren), trace) && Run(Start(nchildren), trace) == before && cptr.Length == nchildren
      requires Enabled(before, e) && Apply(before, e) == Now()
      modifies this`trace
      ensures Valid() && trace == old(trace) + [e]
    {
      hide Legal, Run, Enabled, Apply;
      RunNext(Start(nchildren), trace, e);
      trace := trace + [e];
    }

    /** One step of child i, if it has one. */
    method ChildStep(i: nat)
      requires Valid()
      modifies this`trace, cptr
      ensures Valid() && OnlyChildrenMoved(old(cptr[..]), cptr[..])
      ensures trace == old(trace) + old(Next(i)) && cptr[..] == Moved(old(cptr[..]), i)
    {
      hide Legal, Run, Conserved;
      Sound();
      ghost var s := Now();
      if i >= nchildren {
        return;
      }
      if !cptr[i].busy {
        IdleHasNothing(s, i);
      }
      var c := cptr[i];
      if c.work != [] {
        cptr[i] := Finished(c);
        assert cptr[..] == s.cs[i := Finished(c)];
        Note(s, Finish(i));
      } else if c.down != [] {
        cptr[i] := Taken(c);
        assert cptr[..] == s.cs[i := Taken(c)];
        Note(s, Take(i));
      }
    }

    /** Children run while the parent does something else. */
    method Children(moves: seq<nat>)
      requires Valid()
      modifies this`trace, cptr
      ensures Valid() && OnlyChildrenMoved(old(cptr[..]), cptr[..]) && cptr[..] == MovedAll(old(cptr[..]), moves)
    {
      hide Legal, Run, Moved;
      for j := 0 to |moves|
        invariant Valid() && OnlyChildrenMoved(old(cptr[..]), cptr[..]) && cptr[..] == MovedAll(old(cptr[..]), moves[..j])
      {
        ChildStep(moves[j]);
        assert moves[..j + 1][..j] == moves[..j];
      }
      assert moves[..|moves|] == moves;
    }

    /** The result of select, but for the listening socket. */
    method Poll() returns (ready: set<nat>)
      requires cptr.Length == nchildren
      ensures ready == Ready(cptr[..])
    {
      ready := {};
      for i := 0 to nchildren
        invariant ready == set j: nat | j < i && cptr[j].up > 0
      {
        if cptr[i].up > 0 {
          ready := ready + {i};
        }
      }
    }

    /** The listening socket is ready: the connection goes to the first idle child. */
    method AcceptOne(ghost ready: set<nat>, nsel: int) returns (left: int)
      requires Valid() && at == Accepting(ready, nsel)
      modifies this`navail, this`at, this`given, this`trace, cptr
      ensures Valid() && left == nsel - 1 && at == Resume(0, ready, left) && navail == old(navail) - 1
      ensures |given| == old(|given|) + 1 && given[..old(|given|)] == old(given)
      ensures forall j :: j in Ready(old(cptr[..])) ==> j in Ready(cptr[..])
    {
      hide Legal, Run, Conserved;
      Sound();
      ghost var s := Now();
      AcceptKeeps(s);
      var i := 0;
      while i < nchildren && cptr[i].busy
        invariant i <= FirstFree(s.cs)
      {
        i := i + 1;
      }
      assert i == FirstFree(s.cs);
      var connfd := |given|;
      cptr[i] := Child(true, cptr[i].count + 1, cptr[i].down + [connfd], cptr[i].work, cptr[i].up, cptr[i].served);
      navail := navail - 1;
      given := given + [i];
      left := nsel - 1;
      at := Resume(0, ready, left);
      assert cptr[..] == s.cs[i := Granted(s.cs[i], connfd)];
      Note(s, Accept);
    }

    /** The loop over the children: every one that was ready is heard, and the loop leaves at its break. */
    method Scan(ready: set<nat>, n: int, noise: nat -> seq<nat>)
      requires Valid() && at == Scanning(0, ready, n)
      modifies this`navail, this`at, this`trace, cptr
      ensures Valid() && at.Top? && navail == old(navail) + |ready|
      ensures forall j :: j in ready ==> j < nchildren && !cptr[j].busy
    {
      hide Legal, Run, Conserved, MovedAll;
      var nsel := n;
      var i := 0;
      Sound();
      StartOfScan(Now());
      while i < nchildren
        invariant Valid() && i <= nchildren && at == Scanning(i, ready, nsel)
        invariant navail == old(navail) + |ready| - nsel
        invariant forall j :: j in ready && j < i ==> !cptr[j].busy
      {
        Children(noise(i));
        Sound();
        ghost var s := Now();
        LookKeeps(s);
        if i in ready {
          cptr[i] := cptr[i].(busy := false, up := cptr[i].up - 1);
          assert cptr[..] == s.cs[i := Heard(s.cs[i])];
          navail := navail + 1;
          nsel := nsel - 1;
          at := Resume(i + 1, ready, nsel);
          Note(s, Look);
          if nsel == 0 {
            ScanDone(s);
            return;
          }
        } else {
          at := Scanning(i + 1, ready, nsel);
          Note(s, Look);
        }
        i := i + 1;
      }
      Sound();
      ScanHasMore(Now());
      assert false;
    }

    /** One round of the parent's loop, with children running at any point of it. */
    method Round(pending: bool, noise: nat -> seq<nat>, noise': nat -> seq<nat>) returns (blocked: bool, ready: set<nat>)
      requires Valid() && at.Top?
      modifies this`navail, this`at, this`given, this`trace, cptr
      ensures Valid() && at.Top? && Ready(old(cptr[..])) <= ready
      ensures blocked <==> ready == {} && !(pending && old(navail) > 0)
      ensures var accepted := pending && old(navail) > 0;
        && navail == old(navail) + |ready| - (if accepted then 1 else 0)
        && |given| == old(|given|) + (if accepted then 1 else 0)
      ensures forall j :: j in ready ==> j < nchildren && !cptr[j].busy
    {
      hide Legal, Run, Conserved, MovedAll;
      Children(noise'(0));
      ready := Poll();
      var listening := pending && navail > 0;
      if !listening && ready == {} {
        return true, ready;
      }
      blocked := false;
      var nsel := |ready| + if listening then 1 else 0;
      ghost var s := Now();
      at := if listening then Accepting(ready, nsel) else Scanning(0, ready, nsel);
      Note(s, Select(ready, listening));
      if listening {
        Children(noise'(1));
        nsel := AcceptOne(ready, nsel);
        if nsel == 0 {
          return;
        }
      }
      Scan(ready, nsel, noise);
    }
  }
}
