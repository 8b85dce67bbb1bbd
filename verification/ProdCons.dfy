/**
 Many producers and one consumer, linux_demo/unp2/prodcons6.c: producers fill an array under one
 mutex and count ready items under another; the consumer waits on a condition variable. A step is
 one action of one thread, so threads interleave also inside their critical sections.
*/
module ProdConsModel {

  const MAXNITEMS := 1000000

  /** Where a producer is; the comment says what it does next. */
  datatype ProducerAt =
    | WantPut      // lock put.mutex
    | Checking     // compare nput, then leave or store the item
    | Stored       // nput++
    | Counted      // nval++
    | LeavePut     // unlock put.mutex
    | WantReady    // lock nready.mutex
    | Signalling   // signal if nready is 0
    | Adding       // nready++
    | LeaveReady   // unlock nready.mutex
    | Tally        // count its item
    | Gone         // returned

  datatype Producer = Producer(at: ProducerAt, count: nat)

  datatype ConsumerAt =
    | Entering     // lock nready.mutex, or leave the loop
    | Testing      // compare nready, then wait or go on
    | Asleep(woken: bool)
    | Taking       // nready--
    | Leaving      // unlock nready.mutex
    | Reading      // look at buff[i]
    | Finished

  datatype Owner = Nobody | Prod(p: nat) | Cons

  datatype State = State(
    nitems: int, buff: seq<int>, nput: nat, nval: int, nready: int,
    put: Owner, ready: Owner, ps: seq<Producer>, c: ConsumerAt, i: nat, found: seq<int>)

  /** One step of a producer, one of the consumer, or a spurious return of pthread_cond_wait. */
  datatype Event = Produce(p: nat) | Consume | Spurious

  predicate Enabled(s: State, e: Event) {
    match e
    case Produce(p) =>
      p < |s.ps| && (match s.ps[p].at
                     case WantPut => s.put.Nobody?
                     case WantReady => s.ready.Nobody?
                     case Gone => false
                     case _ => true)
    case Consume =>
      (match s.c
       case Entering => s.i >= s.nitems || s.ready.Nobody?
       case Asleep(woken) => woken && s.ready.Nobody?
       case Finished => false
       case _ => true)
    case Spurious => s.c.Asleep? && s.ready.Nobody?
  }

  function Move(s: State, p: nat, at: ProducerAt): State
    requires p < |s.ps|
  {
    s.(ps := s.ps[p := s.ps[p].(at := at)])
  }

  /** pthread_cond_signal: the consumer, the only one who waits, is woken if it sleeps. */
  function Signal(c: ConsumerAt): ConsumerAt { if c.Asleep? then Asleep(true) else c }

  function ProducerStep(s: State, p: nat): State
    requires Enabled(s, Produce(p))
  {
    match s.ps[p].at
    case WantPut => Move(s, p, Checking).(put := Prod(p))
    case Checking =>
      if s.nput >= s.nitems then Move(s, p, Gone).(put := Nobody)
      else Move(s, p, Stored).(buff := if s.nput < |s.buff| then s.buff[s.nput := s.nval] else s.buff)
    case Stored => Move(s, p, Counted).(nput := s.nput + 1)
    case Counted => Move(s, p, LeavePut).(nval := s.nval + 1)
    case LeavePut => Move(s, p, WantReady).(put := Nobody)
    case WantReady => Move(s, p, Signalling).(ready := Prod(p))
    case Signalling => Move(s, p, Adding).(c := if s.nready == 0 then Signal(s.c) else s.c)
    case Adding => Move(s, p, LeaveReady).(nready := s.nready + 1)
    case LeaveReady => Move(s, p, Tally).(ready := Nobody)
    case Tally => s.(ps := s.ps[p := Producer(WantPut, s.ps[p].count + 1)])
  }

  function ConsumerStep(s: State): State
    requires Enabled(s, Consume) || Enabled(s, Spurious)
  {
    match s.c
    case Entering => if s.i >= s.nitems then s.(c := Finished) else s.(c := Testing, ready := Cons)
    case Testing => if s.nready == 0 then s.(c := Asleep(false), ready := Nobody) else s.(c := Taking)
    case Asleep(_) => s.(c := Testing, ready := Cons)
    case Taking => s.(c := Leaving, nready := s.nready - 1)
    case Leaving => s.(c := Reading, ready := Nobody)
    case Reading => s.(c := Entering, i := s.i + 1, found := s.found + [if s.i < |s.buff| then s.buff[s.i] else -1])
  }

  function Apply(s: State, e: Event): State
    requires Enabled(s, e)
  {
    if e.Produce? then ProducerStep(s, e.p) else ConsumerStep(s)
  }

  ghost predicate Legal(s: State, es: seq<Event>)
    decreases |es|
  {
    es == [] || (Enabled(s, es[0]) && Legal(Apply(s, es[0]), es[1..]))
  }

  ghost function Run(s: State, es: seq<Event>): State
    requires Legal(s, es)
    decreases |es|
  {
    if es == [] then s else Run(Apply(s, es[0]), es[1..])
  }

  lemma {:induction false} RunNext(s: State, es: seq<Event>, e: Event)
    requires Legal(s, es) && Enabled(Run(s, es), e)
    ensures Legal(s, es + [e]) && Run(s, es + [e]) == Apply(Run(s, es), e)
    decreases |es|
  {
    if es == [] {
      assert es + [e] == [e];
    } else {
      RunNext(Apply(s, es[0]), es[1..], e);
      assert (es + [e])[1..] == es[1..] + [e];
    }
  }

  // ---------- what is counted ----------

  predicate HoldsPut(at: ProducerAt) { at.Checking? || at.Stored? || at.Counted? || at.LeavePut? }

  predicate HoldsReady(at: ProducerAt) { at.Signalling? || at.Adding? || at.LeaveReady? }

  /** The item is in the array and not yet announced. */
  predicate Unannounced(at: ProducerAt) {
    at.Counted? || at.LeavePut? || at.WantReady? || at.Signalling? || at.Adding?
  }

  /** The item is in the array and not yet in the producer's own count. */
  predicate Untallied(at: ProducerAt) { Unannounced(at) || at.LeaveReady? || at.Tally? }

  function UnreadyOf(p: Producer): nat { if Unannounced(p.at) then 1 else 0 }

  function StoresOf(p: Producer): nat { p.count + if Untallied(p.at) then 1 else 0 }

  function CountOf(p: Producer): nat { p.count }

  function Sum(ps: seq<Producer>, f: Producer -> nat): nat {
    if ps == [] then 0 else Sum(ps[..|ps| - 1], f) + f(ps[|ps| - 1])
  }

  lemma {:induction false} SumUpdate(ps: seq<Producer>, p: nat, x: Producer, f: Producer -> nat)
    requires p < |ps|
    ensures Sum(ps[p := x], f) + f(ps[p]) == Sum(ps, f) + f(x)
  {
    var n := |ps| - 1;
    if p == n {
      assert ps[p := x][..n] == ps[..n];
    } else {
      assert ps[p := x][..n] == ps[..n][p := x];
      SumUpdate(ps[..n], p, x, f);
    }
  }

  lemma {:induction false} SumSame(ps: seq<Producer>, f: Producer -> nat, g: Producer -> nat)
    requires forall p :: 0 <= p < |ps| ==> f(ps[p]) == g(ps[p])
    ensures Sum(ps, f) == Sum(ps, g)
  {
    if ps != [] {
      SumSame(ps[..|ps| - 1], f, g);
    }
  }

  lemma {:induction false} SumConstant(ps: seq<Producer>, f: Producer -> nat, c: nat)
    requires forall p :: 0 <= p < |ps| ==> f(ps[p]) == c
    ensures Sum(ps, f) == c * |ps|
  {
    if ps != [] {
      SumConstant(ps[..|ps| - 1], f, c);
    }
  }

  function Unready(ps: seq<Producer>): nat { Sum(ps, UnreadyOf) }

  /** Items the producers have counted or are about to count. */
  function Stores(ps: seq<Producer>): nat { Sum(ps, StoresOf) }

  function Counts(ps: seq<Producer>): nat { Sum(ps, CountOf) }

  lemma AllGone(ps: seq<Producer>)
    requires forall p :: 0 <= p < |ps| ==> ps[p].at.Gone?
    ensures Unready(ps) == 0 && Counts(ps) == Stores(ps)
  {
    SumConstant(ps, UnreadyOf, 0);
    SumSame(ps, CountOf, StoresOf);
  }

  // ---------- the invariant ----------

  function Taken(s: State): nat { s.i + if s.c.Leaving? || s.c.Reading? then 1 else 0 }

  /** put.mutex is held by the producer that is between its lock and unlock, if there is one. */
  ghost predicate PutLock(s: State) {
    && (forall p :: 0 <= p < |s.ps| ==> (HoldsPut(s.ps[p].at) <==> s.put == Prod(p)))
    && !s.put.Cons? && (s.put.Prod? ==> s.put.p < |s.ps|)
  }

  /** nready.mutex likewise, by a producer or the consumer. */
  ghost predicate ReadyLock(s: State) {
    && (forall p :: 0 <= p < |s.ps| ==> (HoldsReady(s.ps[p].at) <==> s.ready == Prod(p)))
    && (s.c.Testing? || s.c.Taking? || s.c.Leaving? <==> s.ready == Cons)
    && (s.ready.Prod? ==> s.ready.p < |s.ps|)
  }

  /** What the owner of put.mutex is doing. */
  function AtPut(s: State): ProducerAt {
    if s.put.Prod? && s.put.p < |s.ps| then s.ps[s.put.p].at else Gone
  }

  /** The array holds k at place k, up to nput and while the item at nput is being stored. */
  ghost predicate Filled(s: State) {
    && |s.buff| == MAXNITEMS >= s.nitems
    && s.nput <= (if s.nitems > 0 then s.nitems else 0)
    && (forall k :: 0 <= k < s.nput ==> s.buff[k] == k)
    && (AtPut(s).Stored? ==> s.nput < s.nitems && s.buff[s.nput] == s.nput)
    && s.nval == s.nput - (if AtPut(s).Counted? then 1 else 0)
    && (forall p :: 0 <= p < |s.ps| && s.ps[p].at.Gone? ==> s.nput >= s.nitems)
  }

  /** Every item stored is taken, ready, or not yet announced; every item stored has its producer. */
  ghost predicate Conserved(s: State) {
    && s.nready >= 0 && Taken(s) + s.nready + Unready(s.ps) == s.nput
    && Stores(s.ps) == s.nput
    && (s.c.Taking? ==> s.nready > 0)
  }

  ghost predicate Consumer(s: State) {
    && (s.c.Asleep? && !s.c.woken ==> s.nready == 0 && forall p :: 0 <= p < |s.ps| ==> !s.ps[p].at.Adding?)
    && (s.c.Asleep? && s.c.woken ==> s.nready > 0 || (s.ready.Prod? && s.ready.p < |s.ps| && s.ps[s.ready.p].at.Adding?))
    && |s.found| == s.i && (forall k :: 0 <= k < s.i ==> s.found[k] == k)
    && (if s.c.Entering? then s.i <= (if s.nitems > 0 then s.nitems else 0)
        else if s.c.Finished? then s.i == (if s.nitems > 0 then s.nitems else 0)
        else s.i < s.nitems)
  }

  ghost predicate Inv(s: State) { PutLock(s) && ReadyLock(s) && Filled(s) && Conserved(s) && Consumer(s) }

  /** The start: nitems as main clamps it. */
  function Start(nitems: int, buff: seq<int>, nthreads: nat): State {
    State(nitems, buff, 0, 0, 0, Nobody, Nobody, seq(nthreads, _ => Producer(WantPut, 0)), Entering, 0, [])
  }

  lemma StartInv(nitems: int, buff: seq<int>, nthreads: nat)
    requires nitems <= MAXNITEMS == |buff|
    ensures Inv(Start(nitems, buff, nthreads))
  {
    var ps := Start(nitems, buff, nthreads).ps;
    SumConstant(ps, UnreadyOf, 0);
    SumConstant(ps, StoresOf, 0);
  }

  lemma ProducerKeepsPutLock(s: State, p: nat)
    requires Inv(s) && Enabled(s, Produce(p))
    ensures PutLock(ProducerStep(s, p))
  {
    hide ReadyLock, Filled, Conserved, Consumer, Sum;
  }

  lemma ProducerKeepsReadyLock(s: State, p: nat)
    requires Inv(s) && Enabled(s, Produce(p))
    ensures ReadyLock(ProducerStep(s, p))
  {
    hide PutLock, Filled, Conserved, Consumer, Sum;
  }

  lemma ProducerKeepsFilled(s: State, p: nat)
    requires Inv(s) && Enabled(s, Produce(p))
    ensures Filled(ProducerStep(s, p))
  {
    hide ReadyLock, Conserved, Consumer, Sum;
  }

  lemma ProducerKeepsConserved(s: State, p: nat)
    requires Inv(s) && Enabled(s, Produce(p))
    ensures Conserved(ProducerStep(s, p))
  {
    hide PutLock, ReadyLock, Filled, Consumer, Sum;
    var t := ProducerStep(s, p);
    SumUpdate(s.ps, p, t.ps[p], UnreadyOf);
    SumUpdate(s.ps, p, t.ps[p], StoresOf);
    assert t.ps == s.ps[p := t.ps[p]];
  }

  lemma ProducerKeepsConsumer(s: State, p: nat)
    requires Inv(s) && Enabled(s, Produce(p)) && s.nready >= 0
    ensures Consumer(ProducerStep(s, p))
  {
    hide PutLock, Filled, Conserved, Sum;
  }

  lemma ConsumerKeeps(s: State)
    requires Inv(s) && (Enabled(s, Consume) || Enabled(s, Spurious))
    ensures Inv(ConsumerStep(s))
  {
    hide Sum;
    var t := ConsumerStep(s);
    assert t.ps == s.ps;
    assert PutLock(t) && Filled(t);
  }

  lemma StepKeepsInv(s: State, e: Event)
    requires Inv(s) && Enabled(s, e)
    ensures Inv(Apply(s, e))
  {
    match e {
      case Produce(p) =>
        ProducerKeepsPutLock(s, p);
        ProducerKeepsReadyLock(s, p);
        ProducerKeepsFilled(s, p);
        ProducerKeepsConserved(s, p);
        ProducerKeepsConsumer(s, p);
      case _ => ConsumerKeeps(s);
    }
    hide *;
  }

  /** Over every run of any number of threads: the i-th value the consumer finds is i. */
  lemma {:induction false} InvOverRuns(s: State, es: seq<Event>)
    requires Inv(s) && Legal(s, es)
    ensures Inv(Run(s, es))
    ensures forall k :: 0 <= k < |Run(s, es).found| ==> Run(s, es).found[k] == k
    decreases |es|
  {
    if es != [] {
      StepKeepsInv(s, es[0]);
      InvOverRuns(Apply(s, es[0]), es[1..]);
    }
  }

  /** When every producer has returned, their counts add up to nitems, unless there are items and no producer. */
  lemma CountsAddUp(s: State)
    requires Inv(s) && forall p :: 0 <= p < |s.ps| ==> s.ps[p].at.Gone?
    ensures Counts(s.ps) == (if s.nitems > 0 then s.nitems else 0) <==> |s.ps| > 0 || s.nitems <= 0
  {
    AllGone(s.ps);
    if |s.ps| > 0 {
      assert s.ps[0].at.Gone?;
    }
  }

  /** Some thread can take a step that is not a spurious wakeup. */
  ghost predicate CanMove(s: State) {
    Enabled(s, Consume) || exists p: nat :: p < |s.ps| && Enabled(s, Produce(p))
  }

  /** Until the consumer is done some thread can move, except when there is no producer at all and the consumer sleeps. */
  lemma NeverDeadlocked(s: State)
    requires Inv(s) && !s.c.Finished?
    ensures CanMove(s) <==> |s.ps| > 0 || !s.c.Asleep?
  {
    if |s.ps| == 0 {
      assert s.nready == 0;
    } else if s.ready.Prod? {
      assert Enabled(s, Produce(s.ready.p));
    } else if s.put.Prod? {
      assert Enabled(s, Produce(s.put.p));
    } else if forall p :: 0 <= p < |s.ps| ==> s.ps[p].at.Gone? {
      AllGone(s.ps);
      assert s.ps[0].at.Gone?;
    } else {
      var p :| 0 <= p < |s.ps| && !s.ps[p].at.Gone?;
      assert s.ready.Nobody? ==> Enabled(s, Produce(p));
    }
  }

  /** Without producers it comes to that: asked for items, the consumer sleeps and nobody will wake it. */
  lemma NoProducersNoItems(nitems: int, buff: seq<int>)
    requires 0 < nitems <= MAXNITEMS == |buff|
    ensures Legal(Start(nitems, buff, 0), [Consume, Consume])
    ensures var s := Run(Start(nitems, buff, 0), [Consume, Consume]); s.c.Asleep? && !CanMove(s)
  {
    var s := Start(nitems, buff, 0);
    var t := Apply(s, Consume);
    var u := Apply(t, Consume);
    assert [Consume, Consume][1..] == [Consume] && [Consume][1..] == [];
    assert Legal(u, []) && Legal(t, [Consume]) && Run(t, [Consume]) == u;
    StartInv(nitems, buff, 0);
    StepKeepsInv(s, Consume);
    StepKeepsInv(t, Consume);
    NeverDeadlocked(u);
  }

  /** While the consumer looks at an item, no producer touches that place of the array. */
  lemma ReadsBehindTheProducers(s: State)
    requires Inv(s) && s.c.Reading?
    ensures s.i < s.nput <= |s.buff| && (Enabled(s, Consume) && ConsumerStep(s).found == s.found + [s.i])
  {
  }

  /** When the consumer is done it has found 0, 1, 2 and so on up to nitems, and nothing is left over. */
  lemma AllDelivered(s: State)
    requires Inv(s) && s.c.Finished?
    ensures s.nput == s.i == |s.found| == (if s.nitems > 0 then s.nitems else 0) && s.nready == 0
    ensures forall k :: 0 <= k < s.i ==> s.found[k] == s.buff[k] == k
  {
  }

  // ---------- termination ----------

  function RankOf(p: Producer): nat {
    match p.at
    case Stored => 10
    case Counted => 9
    case LeavePut => 8
    case WantReady => 7
    case Signalling => 6
    case Adding => 5
    case LeaveReady => 4
    case Tally => 3
    case WantPut => 2
    case Checking => 1
    case Gone => 0
  }

  function ConsumerRank(s: State): nat {
    match s.c
    case Entering => 7
    case Testing => if s.nready == 0 then 6 else 3
    case Asleep(woken) => if woken then 4 else 5
    case Taking => 2
    case Leaving => 1
    case Reading => 0
    case Finished => 0
  }

  /** A bound on the steps still to come, but for those after spurious wakeups. */
  function Work(s: State): int {
    var n := if s.nitems > 0 then s.nitems else 0;
    10 * (n - s.nput - (if AtPut(s).Stored? then 1 else 0)) + Sum(s.ps, RankOf) + 8 * (n - s.i) + ConsumerRank(s)
  }

  lemma ConsumerNotDelayed(s: State, p: nat)
    requires Inv(s) && Enabled(s, Produce(p))
    ensures ConsumerRank(ProducerStep(s, p)) <= ConsumerRank(s)
  {
    hide Sum, Filled, Conserved, Consumer, PutLock;
  }

  lemma ProducerWorks(s: State, p: nat)
    requires Inv(s) && Enabled(s, Produce(p))
    ensures Work(ProducerStep(s, p)) < Work(s)
  {
    hide Sum, Filled, Conserved, Consumer, ReadyLock, ConsumerRank;
    var t := ProducerStep(s, p);
    SumUpdate(s.ps, p, t.ps[p], RankOf);
    assert t.ps == s.ps[p := t.ps[p]];
    ConsumerNotDelayed(s, p);
  }

  lemma ConsumerWorks(s: State, e: Event)
    requires Inv(s) && !e.Produce? && Enabled(s, e)
    ensures Work(Apply(s, e)) < Work(s) + if e.Spurious? then 2 else 0
  {
    hide Sum;
  }

  function Spurs(es: seq<Event>): (n: nat)
    ensures n <= |es| && (n == 0 <==> forall e :: e in es ==> !e.Spurious?)
  {
    if es == [] then 0 else (if es[0].Spurious? then 1 else 0) + Spurs(es[1..])
  }

  /**
     However the threads interleave, a run is bounded by the number of items and threads, and two
     steps for each spurious wakeup. With NeverDeadlocked, the consumer gets all items.
  */
  lemma {:induction false} RunsAreBounded(s: State, es: seq<Event>)
    requires Inv(s) && Legal(s, es)
    ensures |es| + Work(Run(s, es)) <= Work(s) + 2 * Spurs(es)
    ensures Work(Run(s, es)) >= 0
    decreases |es|
  {
    if es != [] {
      var e := es[0];
      StepKeepsInv(s, e);
      if e.Produce? {
        ProducerWorks(s, e.p);
      } else {
        ConsumerWorks(s, e);
      }
      hide Work, Inv;
      RunsAreBounded(Apply(s, e), es[1..]);
    }
  }

  lemma StartBound(nitems: int, buff: seq<int>, nthreads: nat, es: seq<Event>)
    requires nitems <= MAXNITEMS == |buff| && Legal(Start(nitems, buff, nthreads), es)
    ensures |es| <= 18 * (if nitems > 0 then nitems else 0) + 2 * nthreads + 7 + 2 * Spurs(es)
  {
    StartInv(nitems, buff, nthreads);
    SumConstant(Start(nitems, buff, nthreads).ps, RankOf, 2);
    RunsAreBounded(Start(nitems, buff, nthreads), es);
  }

  // ---------- the program ----------

  class Program {
    const nitems: int
    const buff: array<int>
    const threads: array<Producer>
    var nput: nat                 // put
    var nval: int
    var putMutex: Owner
    var nready: int               // nready
    var readyMutex: Owner
    var consumer: ConsumerAt
    var i: nat
    var found: seq<int>
    ghost var steps: seq<Event>

    ghost function Now(): State
      reads this, buff, threads
    {
      State(nitems, buff[..], nput, nval, nready, putMutex, readyMutex, threads[..], consumer, i, found)
    }

    /** Step by step from the start. */
    ghost predicate Valid(start: State)
      reads this, buff, threads
    {
      Inv(start) && Legal(start, steps) && Run(start, steps) == Now()
    }

    /** main: clamp the arguments, start the threads. */
    constructor (items: int, nthreads: nat)
      ensures Valid(Now()) && fresh(buff) && fresh(threads)
      ensures nitems == (if items < MAXNITEMS then items else MAXNITEMS) && consumer.Entering? && found == []
    {
      nitems := if items < MAXNITEMS then items else MAXNITEMS;
      buff := new int[MAXNITEMS](_ => 0);
      threads := new Producer[nthreads](_ => Producer(WantPut, 0));
      nput, nval, putMutex, nready, readyMutex := 0, 0, Nobody, 0, Nobody;
      consumer, i, found, steps := Entering, 0, [], [];
      new;
      StartInv(nitems, buff[..], nthreads);
      assert Now() == Start(nitems, buff[..], nthreads) && Legal(Now(), []);
    }

    ghost method Note(start: State, before: State, e: Event)
      requires Inv(start) && Legal(start, steps) && Run(start, steps) == before
      requires Enabled(before, e) && Apply(before, e) == Now()
      modifies this`steps
      ensures Valid(start) && steps == old(steps) + [e]
    {
      hide Inv, Legal, Run, Enabled, Apply;
      RunNext(start, steps, e);
      steps := steps + [e];
    }

    /** The critical section of put: store the next item, or give up. */
    method Put(p: nat)
      requires p < threads.Length && HoldsPut(threads[p].at) && |found| == i
      requires threads[p].at.Checking? && nput < nitems ==> nput < buff.Length
      modifies this`nput, this`nval, this`putMutex, buff, threads
      ensures Enabled(old(Now()), Produce(p)) && Now() == old(ProducerStep(Now(), p))
    {
      ghost var s := Now();
      var t := threads[p];
      match t.at {
        case Checking =>
          if nput >= nitems {
            putMutex := Nobody;
            threads[p] := t.(at := Gone);
          } else {
            buff[nput] := nval;
            threads[p] := t.(at := Stored);
            assert buff[..] == s.buff[nput := nval];
          }
        case Stored =>
          nput := nput + 1;
          threads[p] := t.(at := Counted);
        case Counted =>
          nval := nval + 1;
          threads[p] := t.(at := LeavePut);
        case LeavePut =>
          putMutex := Nobody;
          threads[p] := t.(at := WantReady);
      }
      assert threads[..] == s.ps[p := threads[p]];
    }

    /** The critical section of nready: signal and count. */
    method Announce(p: nat)
      requires p < threads.Length && HoldsReady(threads[p].at)
      modifies this`nready, this`readyMutex, this`consumer, threads
      ensures Enabled(old(Now()), Produce(p)) && Now() == old(ProducerStep(Now(), p))
    {
      ghost var s := Now();
      var t := threads[p];
      match t.at {
        case Signalling =>
          if nready == 0 && consumer.Asleep? {
            consumer := Asleep(true);
          }
          threads[p] := t.(at := Adding);
        case Adding =>
          nready := nready + 1;
          threads[p] := t.(at := LeaveReady);
        case LeaveReady =>
          readyMutex := Nobody;
          threads[p] := t.(at := Tally);
      }
      assert threads[..] == s.ps[p := threads[p]];
    }

    /** produce, one step of thread p; nothing happens while its lock is taken or when it has returned. */
    method RunProducer(ghost start: State, p: nat) returns (moved: bool)
      requires Valid(start) && p < threads.Length
      modifies this`nput, this`nval, this`putMutex, this`nready, this`readyMutex, this`consumer, this`steps, buff, threads
      ensures Valid(start) && (moved <==> old(Enabled(Now(), Produce(p))))
      ensures steps == old(steps) + if moved then [Produce(p)] else []
    {
      hide Legal, Run, Inv;
      ghost var s := Now();
      Sound(start);
      var t := threads[p];
      moved := true;
      if HoldsPut(t.at) {
        Put(p);
      } else if HoldsReady(t.at) {
        Announce(p);
      } else if t.at.WantPut? && putMutex.Nobody? {
        putMutex := Prod(p);
        threads[p] := t.(at := Checking);
      } else if t.at.WantReady? && readyMutex.Nobody? {
        readyMutex := Prod(p);
        threads[p] := t.(at := Signalling);
      } else if t.at.Tally? {
        threads[p] := Producer(WantPut, t.count + 1);
      } else {
        moved := false;
        return;
      }
      assert threads[..] == s.ps[p := threads[p]];
      Note(start, s, Produce(p));
    }

    /** consume, one step; `spurious` lets pthread_cond_wait return without a signal. */
    method RunConsumer(ghost start: State, spurious: bool) returns (moved: bool)
      requires Valid(start)
      modifies this`nready, this`readyMutex, this`consumer, this`i, this`found, this`steps
      ensures Valid(start) && (moved <==> old(Enabled(Now(), Consume) || (spurious && Enabled(Now(), Spurious))))
      ensures steps == old(steps) + if !moved then [] else if old(Enabled(Now(), Consume)) then [Event.Consume] else [Spurious]
    {
      hide Legal, Run, Inv;
      ghost var s := Now();
      Sound(start);
      moved := true;
      var e := Consume;
      match consumer {
        case Entering =>
          if i >= nitems {
            consumer := Finished;
          } else if readyMutex.Nobody? {
            consumer, readyMutex := Testing, Cons;
          } else {
            moved := false;
          }
        case Testing =>
          if nready == 0 {
            consumer, readyMutex := Asleep(false), Nobody;
          } else {
            consumer := Taking;
          }
        case Asleep(woken) =>
          if (woken || spurious) && readyMutex.Nobody? {
            e := if woken then Consume else Spurious;
            consumer, readyMutex := Testing, Cons;
          } else {
            moved := false;
          }
        case Taking => consumer, nready := Leaving, nready - 1;
        case Leaving => consumer, readyMutex := Reading, Nobody;
        case Reading =>
          found := found + [buff[i]];
          consumer, i := Entering, i + 1;
        case Finished => moved := false;
      }
      if moved {
        Note(start, s, e);
      }
    }

    lemma Sound(start: State)
      requires Valid(start)
      ensures Inv(Now()) && buff.Length == MAXNITEMS >= nitems && (consumer.Reading? ==> i < buff.Length) && |found| == i
    {
      InvOverRuns(start, steps);
    }
  }
}
