/**
 The read/write lock of linux_demo/unp2/pthread_rwlock.c: one mutex, two condition
 variables, and the three counters rw_refcount, rw_nwaitreaders and rw_nwaitwriters.

 A thread runs from one release of the mutex to the next without interference, so a
 lock call is a sequence of atomic sections: the entry section up to the first wait,
 then one section for every return of pthread_cond_wait. Each section is an `Event`.
 Wakeups without a signal are events too, as POSIX.1-2008 (pthread_cond_wait) allows.
*/
module RwLockModel {

  const RW_MAGIC := 0x19283746
  const EINVAL := 22
  const EBUSY := 16

  /** Threads are numbered; there may be any number of them. */
  type Tid = nat

  /** A `Blocked` thread sleeps on a condition variable; a `Woken` one is on its way back to the mutex. */
  datatype Phase = Running | BlockedReader | WokenReader | BlockedWriter | WokenWriter

  /** `readLocks` counts the read locks a thread holds, `writing` says whether it holds the write lock. */
  datatype Thread = Thread(phase: Phase, readLocks: nat, writing: bool)

  datatype State = State(magic: int, refcount: int, waitReaders: int, waitWriters: int, threads: seq<Thread>)

  datatype Event =
    | RdLock(t: Tid)
    | TryRdLock(t: Tid)
    | WrLock(t: Tid)
    | TryWrLock(t: Tid)
    | Unlock(t: Tid, picks: set<Tid>)  // picks: the writers a signal unblocks, at least one if any is blocked
    | SpuriousWake(t: Tid)
    | Resume(t: Tid)                   // pthread_cond_wait returns 0
    | WaitFails(t: Tid)                // pthread_cond_wait returns an error
    | Cancel(t: Tid)                   // the thread is cancelled inside pthread_cond_wait
    | Destroy

  // ---------- the atomic sections ----------

  predicate IsReaderWait(p: Phase) { p.BlockedReader? || p.WokenReader? }

  predicate IsWriterWait(p: Phase) { p.BlockedWriter? || p.WokenWriter? }

  predicate ReadersMustWait(s: State) { s.refcount < 0 || s.waitWriters > 0 }

  function SetPhase(s: State, t: Tid, p: Phase): State
    requires t < |s.threads|
  {
    s.(threads := s.threads[t := s.threads[t].(phase := p)])
  }

  function TakeRead(s: State, t: Tid): State
    requires t < |s.threads|
  {
    s.(refcount := s.refcount + 1, threads := s.threads[t := Thread(Running, s.threads[t].readLocks + 1, s.threads[t].writing)])
  }

  function TakeWrite(s: State, t: Tid): State
    requires t < |s.threads|
  {
    s.(refcount := -1, threads := s.threads[t := Thread(Running, s.threads[t].readLocks, true)])
  }

  /** One evaluation of the loop condition of pthread_rwlock_rdlock by a thread holding the mutex. */
  function ReadLoop(s: State, t: Tid): State
    requires t < |s.threads|
  {
    if ReadersMustWait(s) then SetPhase(s.(waitReaders := s.waitReaders + 1), t, BlockedReader)
    else TakeRead(s, t)
  }

  /** One evaluation of the loop condition of pthread_rwlock_wrlock. */
  function WriteLoop(s: State, t: Tid): State
    requires t < |s.threads|
  {
    if s.refcount != 0 then SetPhase(s.(waitWriters := s.waitWriters + 1), t, BlockedWriter)
    else TakeWrite(s, t)
  }

  /** What follows the return of pthread_cond_wait: the wait counter goes down again. */
  function LeaveWait(s: State, t: Tid): State
    requires t < |s.threads|
  {
    var s' := SetPhase(s, t, Running);
    if IsReaderWait(s.threads[t].phase) then s'.(waitReaders := s.waitReaders - 1)
    else if IsWriterWait(s.threads[t].phase) then s'.(waitWriters := s.waitWriters - 1)
    else s'
  }

  function Signalled(threads: seq<Thread>, picks: set<Tid>): (r: seq<Thread>)
    ensures |r| == |threads|
    ensures forall i :: 0 <= i < |r| ==>
      r[i] == if i in picks && threads[i].phase.BlockedWriter? then threads[i].(phase := WokenWriter) else threads[i]
  {
    seq(|threads|, i requires 0 <= i < |threads| =>
      if i in picks && threads[i].phase.BlockedWriter? then threads[i].(phase := WokenWriter) else threads[i])
  }

  function Broadcast(threads: seq<Thread>): (r: seq<Thread>)
    ensures |r| == |threads|
    ensures forall i :: 0 <= i < |r| ==>
      r[i] == if threads[i].phase.BlockedReader? then threads[i].(phase := WokenReader) else threads[i]
  {
    seq(|threads|, i requires 0 <= i < |threads| =>
      if threads[i].phase.BlockedReader? then threads[i].(phase := WokenReader) else threads[i])
  }

  /** The counter part of pthread_rwlock_unlock; a free lock only draws a message. */
  function Release(s: State, t: Tid): State
    requires t < |s.threads|
  {
    var th := s.threads[t];
    if s.refcount > 0 then
      s.(refcount := s.refcount - 1, threads := s.threads[t := th.(readLocks := if th.readLocks > 0 then th.readLocks - 1 else 0)])
    else if s.refcount == -1 then
      s.(refcount := 0, threads := s.threads[t := th.(writing := false)])
    else s
  }

  /** The wakeup part of pthread_rwlock_unlock. */
  function WakeOthers(s: State, picks: set<Tid>): State {
    if s.waitWriters > 0 then
      if s.refcount == 0 then s.(threads := Signalled(s.threads, picks)) else s
    else if s.waitReaders > 0 then s.(threads := Broadcast(s.threads))
    else s
  }

  predicate SomeBlockedWriter(threads: seq<Thread>) {
    exists i :: 0 <= i < |threads| && threads[i].phase.BlockedWriter?
  }

  /**
   When an event can happen. Lock calls are made by running threads; an unlock is made by a
   holder (or on a free lock, where the code prints and goes on); a signal unblocks at least
   one blocked thread when there is one.
  */
  predicate Enabled(s: State, e: Event) {
    (e.Destroy? || e.t < |s.threads|) &&
    match e
    case RdLock(t) => s.threads[t].phase.Running?
    case TryRdLock(t) => s.threads[t].phase.Running?
    case WrLock(t) => s.threads[t].phase.Running?
    case TryWrLock(t) => s.threads[t].phase.Running?
    case Unlock(t, picks) =>
      && s.threads[t].phase.Running?
      && (s.threads[t].readLocks > 0 || s.threads[t].writing || s.refcount == 0)
      && (SomeBlockedWriter(s.threads) ==>
            exists i :: 0 <= i < |s.threads| && s.threads[i].phase.BlockedWriter? && i in picks)
    case SpuriousWake(t) => s.threads[t].phase.BlockedReader? || s.threads[t].phase.BlockedWriter?
    case Resume(t) => s.threads[t].phase.WokenReader? || s.threads[t].phase.WokenWriter?
    case WaitFails(t) => !s.threads[t].phase.Running?
    case Cancel(t) => !s.threads[t].phase.Running?
    case Destroy => true
  }

  function Apply(s: State, e: Event): State
    requires Enabled(s, e)
  {
    match e
    case RdLock(t) => if s.magic != RW_MAGIC then s else ReadLoop(s, t)
    case TryRdLock(t) => if s.magic != RW_MAGIC || ReadersMustWait(s) then s else TakeRead(s, t)
    case WrLock(t) => if s.magic != RW_MAGIC then s else WriteLoop(s, t)
    case TryWrLock(t) => if s.magic != RW_MAGIC || s.refcount != 0 then s else TakeWrite(s, t)
    case Unlock(t, picks) => if s.magic != RW_MAGIC then s else WakeOthers(Release(s, t), picks)
    case SpuriousWake(t) => SetPhase(s, t, if s.threads[t].phase.BlockedReader? then WokenReader else WokenWriter)
    case Resume(t) =>
      if s.threads[t].phase.WokenReader? then ReadLoop(LeaveWait(s, t), t) else WriteLoop(LeaveWait(s, t), t)
    case WaitFails(t) => LeaveWait(s, t)
    case Cancel(t) => LeaveWait(s, t)
    case Destroy =>
      if s.magic != RW_MAGIC || s.refcount != 0 || s.waitReaders != 0 || s.waitWriters != 0 then s
      else s.(magic := 0)
  }

  // ---------- runs ----------

  function Initial(n: nat): State {
    State(RW_MAGIC, 0, 0, 0, seq(n, _ => Thread(Running, 0, false)))
  }

  predicate Legal(s: State, es: seq<Event>)
    decreases es
  {
    es == [] || (Enabled(s, es[0]) && Legal(Apply(s, es[0]), es[1..]))
  }

  function Run(s: State, es: seq<Event>): State
    requires Legal(s, es)
    decreases es
  {
    if es == [] then s else Run(Apply(s, es[0]), es[1..])
  }

  lemma {:induction false} RunConcat(s: State, es: seq<Event>, fs: seq<Event>)
    requires Legal(s, es)
    requires Legal(Run(s, es), fs)
    ensures Legal(s, es + fs)
    ensures Run(s, es + fs) == Run(Run(s, es), fs)
    decreases es
  {
    if es == [] {
      assert es + fs == fs;
    } else {
      assert (es + fs)[0] == es[0] && (es + fs)[1..] == es[1..] + fs;
      RunConcat(Apply(s, es[0]), es[1..], fs);
    }
  }

  // ---------- counting threads ----------

  datatype Measure = Reads | Writes | WaitingReaders | WaitingWriters

  function Weight(m: Measure, th: Thread): nat {
    match m
    case Reads => th.readLocks
    case Writes => if th.writing then 1 else 0
    case WaitingReaders => if IsReaderWait(th.phase) then 1 else 0
    case WaitingWriters => if IsWriterWait(th.phase) then 1 else 0
  }

  function Total(m: Measure, ts: seq<Thread>): nat {
    if ts == [] then 0 else Weight(m, ts[0]) + Total(m, ts[1..])
  }

  lemma {:induction false} TotalUpdate(m: Measure, ts: seq<Thread>, t: Tid, th: Thread)
    requires t < |ts|
    ensures Total(m, ts[t := th]) == Total(m, ts) - Weight(m, ts[t]) + Weight(m, th)
    decreases ts
  {
    if t == 0 {
      assert ts[t := th][1..] == ts[1..];
    } else {
      assert ts[t := th][1..] == ts[1..][t - 1 := th];
      TotalUpdate(m, ts[1..], t - 1, th);
    }
  }

  lemma {:induction false} TotalPointwise(m: Measure, ts: seq<Thread>, us: seq<Thread>)
    requires |ts| == |us|
    requires forall i :: 0 <= i < |ts| ==> Weight(m, ts[i]) == Weight(m, us[i])
    ensures Total(m, ts) == Total(m, us)
    decreases ts
  {
    if ts != [] {
      assert forall i :: 0 <= i < |ts[1..]| ==> ts[1..][i] == ts[i + 1] && us[1..][i] == us[i + 1];
      TotalPointwise(m, ts[1..], us[1..]);
    }
  }

  lemma {:induction false} TotalAtLeast(m: Measure, ts: seq<Thread>, t: Tid)
    requires t < |ts|
    ensures Weight(m, ts[t]) <= Total(m, ts)
    decreases ts
  {
    if t > 0 {
      assert ts[1..][t - 1] == ts[t];
      TotalAtLeast(m, ts[1..], t - 1);
    }
  }

  lemma {:induction false} TotalPositive(m: Measure, ts: seq<Thread>) returns (t: Tid)
    requires Total(m, ts) > 0
    ensures t < |ts| && Weight(m, ts[t]) > 0
    decreases ts
  {
    if Weight(m, ts[0]) > 0 {
      t := 0;
    } else {
      t := TotalPositive(m, ts[1..]);
      t := t + 1;
    }
  }

  /** All four totals after one thread is replaced. */
  lemma TotalsUpdate(ts: seq<Thread>, t: Tid, th: Thread)
    requires t < |ts|
    ensures forall m :: Total(m, ts[t := th]) == Total(m, ts) - Weight(m, ts[t]) + Weight(m, th)
    ensures forall m :: Weight(m, ts[t]) <= Total(m, ts)
  {
    forall m
      ensures Total(m, ts[t := th]) == Total(m, ts) - Weight(m, ts[t]) + Weight(m, th)
      ensures Weight(m, ts[t]) <= Total(m, ts)
    {
      TotalUpdate(m, ts, t, th);
      TotalAtLeast(m, ts, t);
    }
  }

  // ---------- the counter invariant ----------

  /** The counters say exactly who holds the lock and who waits. */
  ghost predicate Counted(s: State) {
    && Total(Writes, s.threads) <= 1
    && (Total(Writes, s.threads) == 1 ==> Total(Reads, s.threads) == 0)
    && s.refcount == (if Total(Writes, s.threads) == 1 then -1 else Total(Reads, s.threads))
    && s.waitReaders == Total(WaitingReaders, s.threads)
    && s.waitWriters == Total(WaitingWriters, s.threads)
  }

  lemma {:induction false} TotalInitial(m: Measure, n: nat)
    ensures Total(m, seq(n, _ => Thread(Running, 0, false))) == 0
    decreases n
  {
    if n > 0 {
      assert seq(n, _ => Thread(Running, 0, false))[1..] == seq(n - 1, _ => Thread(Running, 0, false));
      TotalInitial(m, n - 1);
    }
  }

  lemma InitialCounted(n: nat)
    ensures Counted(Initial(n)) && NoLostWakeup(Initial(n))
  {
    forall m ensures Total(m, Initial(n).threads) == 0 {
      TotalInitial(m, n);
    }
  }

  lemma LoopsKeepCounted(s: State, t: Tid)
    requires Counted(s) && t < |s.threads| && s.threads[t].phase.Running?
    ensures Counted(ReadLoop(s, t)) && Counted(WriteLoop(s, t))
  {
    var th := s.threads[t];
    TotalsUpdate(s.threads, t, th.(phase := BlockedReader));
    TotalsUpdate(s.threads, t, th.(phase := BlockedWriter));
    TotalsUpdate(s.threads, t, Thread(Running, th.readLocks + 1, th.writing));
    TotalsUpdate(s.threads, t, Thread(Running, th.readLocks, true));
  }

  lemma LeaveKeepsCounted(s: State, t: Tid)
    requires Counted(s) && t < |s.threads|
    ensures Counted(LeaveWait(s, t))
  {
    TotalsUpdate(s.threads, t, s.threads[t].(phase := Running));
  }

  lemma ReleaseKeepsCounted(s: State, t: Tid)
    requires Counted(s) && t < |s.threads|
    requires s.threads[t].readLocks > 0 || s.threads[t].writing || s.refcount == 0
    ensures Counted(Release(s, t))
  {
    var th := s.threads[t];
    TotalsUpdate(s.threads, t, th.(readLocks := if th.readLocks > 0 then th.readLocks - 1 else 0));
    TotalsUpdate(s.threads, t, th.(writing := false));
  }

  lemma WakeKeepsCounted(s: State, picks: set<Tid>)
    requires Counted(s)
    ensures Counted(WakeOthers(s, picks))
  {
    forall m
      ensures Total(m, Signalled(s.threads, picks)) == Total(m, s.threads)
      ensures Total(m, Broadcast(s.threads)) == Total(m, s.threads)
    {
      TotalPointwise(m, Signalled(s.threads, picks), s.threads);
      TotalPointwise(m, Broadcast(s.threads), s.threads);
    }
  }

  lemma StepKeepsCounted(s: State, e: Event)
    requires Counted(s) && Enabled(s, e)
    ensures Counted(Apply(s, e))
  {
    match e
    case RdLock(t) => LoopsKeepCounted(s, t);
    case WrLock(t) => LoopsKeepCounted(s, t);
    case TryRdLock(t) => LoopsKeepCounted(s, t);
    case TryWrLock(t) => LoopsKeepCounted(s, t);
    case Unlock(t, picks) =>
      ReleaseKeepsCounted(s, t);
      WakeKeepsCounted(Release(s, t), picks);
    case SpuriousWake(t) =>
      TotalsUpdate(s.threads, t,
        s.threads[t].(phase := if s.threads[t].phase.BlockedReader? then WokenReader else WokenWriter));
    case Resume(t) =>
      LeaveKeepsCounted(s, t);
      LoopsKeepCounted(LeaveWait(s, t), t);
    case WaitFails(t) => LeaveKeepsCounted(s, t);
    case Cancel(t) => LeaveKeepsCounted(s, t);
    case Destroy =>
  }

  /** Exact counters in every reachable state, with cancellation and failing waits among the events. */
  lemma {:induction false} CountedOverRuns(s: State, es: seq<Event>)
    requires Counted(s) && Legal(s, es)
    ensures Counted(Run(s, es))
    decreases es
  {
    if es != [] {
      StepKeepsCounted(s, es[0]);
      CountedOverRuns(Apply(s, es[0]), es[1..]);
    }
  }

  /** Readers and writers exclude each other in every state reachable from the initial one. */
  lemma Exclusion(n: nat, es: seq<Event>, t: Tid, u: Tid)
    requires Legal(Initial(n), es)
    requires t < |Run(Initial(n), es).threads| && u < |Run(Initial(n), es).threads|
    requires Run(Initial(n), es).threads[t].writing
    ensures Run(Initial(n), es).refcount == -1
    ensures Run(Initial(n), es).threads[u].readLocks == 0
    ensures t != u ==> !Run(Initial(n), es).threads[u].writing
  {
    InitialCounted(n);
    CountedOverRuns(Initial(n), es);
    var ts := Run(Initial(n), es).threads;
    TotalAtLeast(Writes, ts, t);
    TotalAtLeast(Reads, ts, u);
    if t != u {
      TotalUpdate(Writes, ts, t, ts[t].(writing := false));
      TotalAtLeast(Writes, ts[t := ts[t].(writing := false)], u);
    }
  }

  /** Writers come first: while one waits, no event adds a read lock. */
  lemma NoNewReadersWhileWriterWaits(s: State, e: Event)
    requires Counted(s) && Enabled(s, e) && s.waitWriters > 0
    ensures Total(Reads, Apply(s, e).threads) <= Total(Reads, s.threads)
  {
    StepKeepsCounted(s, e);
    if e.Unlock? && s.magic == RW_MAGIC {
      ReleaseKeepsCounted(s, e.t);
      var r := Release(s, e.t);
      TotalsUpdate(s.threads, e.t, r.threads[e.t]);
      WakeKeepsCounted(r, e.picks);
    } else if !e.Destroy? {
      TotalsUpdate(s.threads, e.t, Apply(s, e).threads[e.t]);
      if e.Resume? {
        TotalsUpdate(LeaveWait(s, e.t).threads, e.t, Apply(s, e).threads[e.t]);
      }
    }
  }

  /** pthread_rwlock_destory gives the lock up exactly when nobody holds it and nobody waits. */
  lemma DestroyExact(s: State)
    requires Counted(s) && s.magic == RW_MAGIC
    ensures Apply(s, Destroy).magic == 0 <==>
      forall i :: 0 <= i < |s.threads| ==> s.threads[i] == Thread(Running, 0, false)
  {
    if forall i :: 0 <= i < |s.threads| ==> s.threads[i] == Thread(Running, 0, false) {
      forall m ensures Total(m, s.threads) == 0 {
        if Total(m, s.threads) > 0 {
          var t := TotalPositive(m, s.threads);
          assert false;
        }
      }
    } else {
      var i :| 0 <= i < |s.threads| && s.threads[i] != Thread(Running, 0, false);
      TotalsUpdate(s.threads, i, s.threads[i]);
      assert Weight(Reads, s.threads[i]) > 0 || Weight(Writes, s.threads[i]) > 0
             || Weight(WaitingReaders, s.threads[i]) > 0 || Weight(WaitingWriters, s.threads[i]) > 0;
    }
  }

  // ---------- taking and giving up ----------

  /** How many locks a thread holds, and how many all of them do. */
  function Locks(th: Thread): nat { th.readLocks + if th.writing then 1 else 0 }

  function Held(ts: seq<Thread>): nat { Total(Reads, ts) + Total(Writes, ts) }

  lemma HeldByNobody(ts: seq<Thread>)
    ensures Held(ts) == 0 <==> forall i :: 0 <= i < |ts| ==> Locks(ts[i]) == 0
  {
    if Held(ts) == 0 {
      forall i | 0 <= i < |ts| ensures Locks(ts[i]) == 0 {
        TotalAtLeast(Reads, ts, i);
        TotalAtLeast(Writes, ts, i);
      }
    } else if Total(Reads, ts) > 0 {
      var i := TotalPositive(Reads, ts);
    } else {
      var i := TotalPositive(Writes, ts);
    }
  }

  /** Who may take the lock at once: a reader when no writer has it or waits for it, a writer when nobody has it. */
  predicate OpenToReaders(ts: seq<Thread>) {
    forall i :: 0 <= i < |ts| ==> !ts[i].writing && !IsWriterWait(ts[i].phase)
  }

  predicate OpenToWriters(ts: seq<Thread>) {
    forall i :: 0 <= i < |ts| ==> Locks(ts[i]) == 0
  }

  lemma OpenExact(s: State)
    requires Counted(s)
    ensures OpenToReaders(s.threads) <==> !ReadersMustWait(s)
    ensures OpenToWriters(s.threads) <==> s.refcount == 0
  {
    HeldByNobody(s.threads);
    if ReadersMustWait(s) {
      var i := TotalPositive(if s.refcount < 0 then Writes else WaitingWriters, s.threads);
    } else {
      forall i | 0 <= i < |s.threads| ensures !s.threads[i].writing && !IsWriterWait(s.threads[i].phase) {
        TotalAtLeast(Writes, s.threads, i);
        TotalAtLeast(WaitingWriters, s.threads, i);
      }
    }
  }

  /**
   A call takes the lock at once exactly when it is open to it. Otherwise the try functions change
   nothing and the others go to sleep. Either way no other thread is touched.
  */
  lemma CallsTakeExactly(s: State, t: Tid)
    requires Counted(s) && s.magic == RW_MAGIC && t < |s.threads| && s.threads[t].phase.Running?
    ensures var th := s.threads[t]; var rd := th.(readLocks := th.readLocks + 1);
      && Apply(s, TryRdLock(t)).threads == (if OpenToReaders(s.threads) then s.threads[t := rd] else s.threads)
      && Apply(s, RdLock(t)).threads == s.threads[t := if OpenToReaders(s.threads) then rd else th.(phase := BlockedReader)]
    ensures var th := s.threads[t]; var wr := th.(writing := true);
      && Apply(s, TryWrLock(t)).threads == (if OpenToWriters(s.threads) then s.threads[t := wr] else s.threads)
      && Apply(s, WrLock(t)).threads == s.threads[t := if OpenToWriters(s.threads) then wr else th.(phase := BlockedWriter)]
  {
    OpenExact(s);
  }

  predicate SameLocks(th: Thread, th': Thread) { th.readLocks == th'.readLocks && th.writing == th'.writing }

  /** From ts to ts' thread t gives up that many locks, and no other thread any. */
  ghost predicate GivesUp(ts: seq<Thread>, ts': seq<Thread>, t: Tid, given: nat)
    requires t < |ts|
  {
    && |ts'| == |ts| && Held(ts') == Held(ts) - given && Locks(ts'[t]) == Locks(ts[t]) - given
    && forall i :: 0 <= i < |ts| && i != t ==> SameLocks(ts'[i], ts[i])
  }

  lemma ReleaseGivesUp(s: State, t: Tid)
    requires Counted(s) && t < |s.threads| && (Locks(s.threads[t]) > 0 || s.refcount == 0)
    ensures GivesUp(s.threads, Release(s, t).threads, t, if Locks(s.threads[t]) > 0 then 1 else 0)
  {
    var th := Release(s, t).threads[t];
    TotalsUpdate(s.threads, t, th);
    assert Release(s, t).threads == s.threads[t := th];
  }

  lemma WakeGivesUpNone(s: State, picks: set<Tid>)
    ensures var ts := WakeOthers(s, picks).threads;
      |ts| == |s.threads| && Held(ts) == Held(s.threads) && forall i :: 0 <= i < |ts| ==> SameLocks(ts[i], s.threads[i])
  {
    var ts := WakeOthers(s, picks).threads;
    TotalPointwise(Reads, ts, s.threads);
    TotalPointwise(Writes, ts, s.threads);
  }

  /** An unlock by a holder gives up exactly one lock, its own; by anybody else it gives up none. */
  lemma UnlockGivesUpOne(s: State, t: Tid, picks: set<Tid>)
    requires Counted(s) && Enabled(s, Unlock(t, picks)) && s.magic == RW_MAGIC
    ensures GivesUp(s.threads, Apply(s, Unlock(t, picks)).threads, t, if Locks(s.threads[t]) > 0 then 1 else 0)
  {
    assert Apply(s, Unlock(t, picks)) == WakeOthers(Release(s, t), picks);
    ReleaseGivesUp(s, t);
    WakeGivesUpNone(Release(s, t), picks);
  }

  /** And whom it wakes: chosen writers when it frees the lock for them, readers when no writer waits, nobody else. */
  lemma UnlockWakesOnly(s: State, t: Tid, picks: set<Tid>, i: Tid)
    requires Counted(s) && Enabled(s, Unlock(t, picks)) && s.magic == RW_MAGIC && i < |s.threads|
    ensures var s' := Apply(s, Unlock(t, picks)); var was := s.threads[i].phase;
      s'.threads[i].phase == if was.BlockedWriter? && i in picks && OpenToWriters(s'.threads) then WokenWriter
        else if was.BlockedReader? && OpenToReaders(s'.threads) then WokenReader else was
  {
    var s' := Apply(s, Unlock(t, picks));
    StepKeepsCounted(s, Unlock(t, picks));
    OpenExact(s');
    TotalAtLeast(WaitingWriters, s.threads, i);
    TotalAtLeast(WaitingReaders, s.threads, i);
  }

  /** After the last holder's unlock, a waiting writer has been woken whose next section takes the lock. */
  lemma LastUnlockAdmitsWriter(s: State, t: Tid, picks: set<Tid>) returns (w: Tid)
    requires Counted(s) && Enabled(s, Unlock(t, picks)) && s.magic == RW_MAGIC
    requires Locks(s.threads[t]) == Held(s.threads) == 1 && s.waitWriters > 0
    ensures var s' := Apply(s, Unlock(t, picks));
      w < |s'.threads| && Enabled(s', Resume(w)) && Apply(s', Resume(w)).threads[w] == Thread(Running, 0, true)
  {
    var s' := Apply(s, Unlock(t, picks));
    StepKeepsCounted(s, Unlock(t, picks));
    UnlockWakes(s, t, picks);
    UnlockGivesUpOne(s, t, picks);
    HeldByNobody(s'.threads);
    OpenExact(s');
    assert s'.waitWriters == s.waitWriters;
    w :| 0 <= w < |s'.threads| && s'.threads[w].phase.WokenWriter?;
    assert Locks(s'.threads[w]) == 0;
  }

  // ---------- no lost wakeup ----------

  predicate SomeWokenWriter(s: State) {
    exists i :: 0 <= i < |s.threads| && s.threads[i].phase.WokenWriter?
  }

  predicate NoBlockedReader(s: State) {
    forall i :: 0 <= i < |s.threads| ==> !s.threads[i].phase.BlockedReader?
  }

  /** On a free lock with waiting writers one is on its way; no reader sleeps while readers may enter. */
  predicate NoLostWakeup(s: State) {
    && (s.refcount == 0 && s.waitWriters > 0 ==> SomeWokenWriter(s))
    && (s.refcount >= 0 && s.waitWriters == 0 ==> NoBlockedReader(s))
  }

  predicate Uncancelled(e: Event) { !e.Cancel? && !e.WaitFails? }

  lemma StepKeepsNoLostWakeup(s: State, e: Event)
    requires Counted(s) && NoLostWakeup(s) && Enabled(s, e) && Uncancelled(e)
    ensures NoLostWakeup(Apply(s, e))
  {
    var s' := Apply(s, e);
    if s'.refcount >= 0 {
      match e
      case Unlock(t, picks) =>
        if s.magic == RW_MAGIC {
          UnlockWakes(s, t, picks);
        }
      case RdLock(t) =>
        if SomeWokenWriter(s) {
          var w :| 0 <= w < |s.threads| && s.threads[w].phase.WokenWriter?;
          assert s'.threads[w] == s.threads[w];
        }
      case SpuriousWake(t) =>
        if SomeWokenWriter(s) {
          var w :| 0 <= w < |s.threads| && s.threads[w].phase.WokenWriter?;
          assert s'.threads[w] == s.threads[w];
        }
      case Resume(t) =>
        TotalAtLeast(WaitingReaders, s.threads, t);
        if SomeWokenWriter(s) {
          var w :| 0 <= w < |s.threads| && s.threads[w].phase.WokenWriter?;
          assert w != t ==> s'.threads[w] == s.threads[w];
        }
      case _ =>
    }
  }

  /** An unlock that frees the lock wakes a waiting writer; one after which readers may enter wakes every reader. */
  lemma UnlockWakes(s: State, t: Tid, picks: set<Tid>)
    requires Counted(s) && Enabled(s, Unlock(t, picks)) && s.magic == RW_MAGIC
    ensures NoLostWakeup(Apply(s, Unlock(t, picks)))
  {
    ReleaseKeepsCounted(s, t);
    var r := Release(s, t);
    assert forall i :: 0 <= i < |s.threads| ==> r.threads[i].phase == s.threads[i].phase;
    var s' := Apply(s, Unlock(t, picks));
    if r.refcount == 0 && r.waitWriters > 0 {
      var w := TotalPositive(WaitingWriters, r.threads);
      if s.threads[w].phase.BlockedWriter? {
        var v :| 0 <= v < |s.threads| && s.threads[v].phase.BlockedWriter? && v in picks;
        assert s'.threads[v].phase.WokenWriter?;
      } else {
        assert s'.threads[w].phase.WokenWriter?;
      }
    } else if r.waitReaders == 0 {
      forall i | 0 <= i < |r.threads| ensures !r.threads[i].phase.BlockedReader? {
        TotalAtLeast(WaitingReaders, r.threads, i);
      }
    }
  }

  /** No lost wakeup, over every interleaving of any number of threads in which no wait is cancelled or fails. */
  lemma {:induction false} NoLostWakeupOverRuns(s: State, es: seq<Event>)
    requires Counted(s) && NoLostWakeup(s) && Legal(s, es)
    requires forall i :: 0 <= i < |es| ==> Uncancelled(es[i])
    ensures NoLostWakeup(Run(s, es))
    decreases es
  {
    if es != [] {
      StepKeepsCounted(s, es[0]);
      StepKeepsNoLostWakeup(s, es[0]);
      assert forall i :: 0 <= i < |es[1..]| ==> es[1..][i] == es[i + 1];
      NoLostWakeupOverRuns(Apply(s, es[0]), es[1..]);
    }
  }

  /** Progress: when the lock is free and somebody waits, one further section of a woken thread takes it. */
  lemma FreeLockIsTaken(n: nat, es: seq<Event>) returns (t: Tid)
    requires Legal(Initial(n), es)
    requires forall i :: 0 <= i < |es| ==> Uncancelled(es[i])
    requires Run(Initial(n), es).refcount == 0
    requires Run(Initial(n), es).waitReaders > 0 || Run(Initial(n), es).waitWriters > 0
    ensures Enabled(Run(Initial(n), es), Resume(t))
    ensures Apply(Run(Initial(n), es), Resume(t)).refcount != 0
    ensures Apply(Run(Initial(n), es), Resume(t)).threads[t].phase.Running?
  {
    var s := Run(Initial(n), es);
    InitialCounted(n);
    CountedOverRuns(Initial(n), es);
    NoLostWakeupOverRuns(Initial(n), es);
    if s.waitWriters > 0 {
      t :| 0 <= t < |s.threads| && s.threads[t].phase.WokenWriter?;
    } else {
      t := TotalPositive(WaitingReaders, s.threads);
    }
  }

  /** While readers may enter, every reader that waits has been woken, and its next section lets it in. */
  lemma ReadersGetIn(n: nat, es: seq<Event>, t: Tid)
    requires Legal(Initial(n), es) && t < |Run(Initial(n), es).threads|
    requires forall i :: 0 <= i < |es| ==> Uncancelled(es[i])
    requires !ReadersMustWait(Run(Initial(n), es)) && IsReaderWait(Run(Initial(n), es).threads[t].phase)
    ensures Enabled(Run(Initial(n), es), Resume(t))
    ensures Apply(Run(Initial(n), es), Resume(t)).refcount == Run(Initial(n), es).refcount + 1
    ensures Apply(Run(Initial(n), es), Resume(t)).threads[t].phase.Running?
  {
    InitialCounted(n);
    CountedOverRuns(Initial(n), es);
    NoLostWakeupOverRuns(Initial(n), es);
  }

  /**
   A thread that leaves its wait because it is cancelled, or because the wait fails, can lose a
   wakeup. The condition is exact: on a free lock that thread was the only writer on its way
   while other writers wait, or, on a lock that is free or read-locked, the last waiting writer
   while some reader sleeps.
  */
  lemma LeavingLosesWakeupExactly(s: State, e: Event)
    requires Counted(s) && NoLostWakeup(s) && Enabled(s, e) && (e.Cancel? || e.WaitFails?)
    ensures !NoLostWakeup(Apply(s, e)) <==>
      && IsWriterWait(s.threads[e.t].phase)
      && (if s.waitWriters > 1
          then s.refcount == 0 && forall i :: 0 <= i < |s.threads| && i != e.t ==> !s.threads[i].phase.WokenWriter?
          else s.refcount >= 0 && !NoBlockedReader(s))
  {
    var t, s' := e.t, Apply(s, e);
    assert forall i :: 0 <= i < |s.threads| && i != t ==> s'.threads[i] == s.threads[i];
    TotalAtLeast(WaitingWriters, s.threads, t);
    if s.refcount == 0 && !IsWriterWait(s.threads[t].phase) && s.waitWriters > 0 {
      var w :| 0 <= w < |s.threads| && s.threads[w].phase.WokenWriter?;
      assert s'.threads[w].phase.WokenWriter?;
    }
    if s.refcount == 0 && s'.waitWriters > 0 && SomeWokenWriter(s') {
      var w :| 0 <= w < |s'.threads| && s'.threads[w].phase.WokenWriter?;
      assert w != t && s.threads[w].phase.WokenWriter?;
    }
    if !NoBlockedReader(s) {
      var r :| 0 <= r < |s.threads| && s.threads[r].phase.BlockedReader?;
      assert IsWriterWait(s.threads[t].phase) ==> s'.threads[r].phase.BlockedReader?;
    }
  }

  /** Such a state is reachable: a reader sleeps on a free lock that nobody else will take. */
  lemma CancelledWriterStrandsReader() returns (es: seq<Event>)
    ensures Legal(Initial(3), es)
    ensures |Run(Initial(3), es).threads| == 3
    ensures Run(Initial(3), es).refcount == 0 && Run(Initial(3), es).waitWriters == 0
    ensures Run(Initial(3), es).threads[2].phase.BlockedReader?
    ensures Run(Initial(3), es).threads[0] == Run(Initial(3), es).threads[1] == Thread(Running, 0, false)
  {
    var s1 := Apply(Initial(3), WrLock(0));
    var s2 := Apply(s1, WrLock(1));
    var s3 := Apply(s2, RdLock(2));
    assert s3.threads[1].phase.BlockedWriter?;
    es := FourEvents(Initial(3), WrLock(0), s1, WrLock(1), s2, RdLock(2), s3, Unlock(0, {1}), Apply(s3, Unlock(0, {1})));
    ReachesStep(Initial(3), es, Apply(s3, Unlock(0, {1})), Cancel(1));
    es := es + [Cancel(1)];
  }

  /** And on a lock held for reading: a reader sleeps though the next one to call would get in. */
  lemma CancelledWriterHoldsUpReader() returns (es: seq<Event>)
    ensures Legal(Initial(4), es)
    ensures |Run(Initial(4), es).threads| == 4
    ensures Run(Initial(4), es).refcount == 1 && Run(Initial(4), es).waitWriters == 0
    ensures Run(Initial(4), es).threads[2].phase.BlockedReader?
    ensures Enabled(Run(Initial(4), es), RdLock(3))
    ensures Apply(Run(Initial(4), es), RdLock(3)).threads[3] == Thread(Running, 1, false)
  {
    var s1 := Apply(Initial(4), RdLock(0));
    var s2 := Apply(s1, WrLock(1));
    var s3 := Apply(s2, RdLock(2));
    es := FourEvents(Initial(4), RdLock(0), s1, WrLock(1), s2, RdLock(2), s3, Cancel(1), Apply(s3, Cancel(1)));
  }

  /** One event leads from s to s'. */
  predicate Leads(s: State, e: Event, s': State) { Enabled(s, e) && Apply(s, e) == s' }

  lemma FourEvents(s: State, a: Event, s1: State, b: Event, s2: State, c: Event, s3: State, d: Event, s4: State)
    returns (es: seq<Event>)
    requires Leads(s, a, s1) && Leads(s1, b, s2) && Leads(s2, c, s3) && Leads(s3, d, s4)
    ensures Reaches(s, es, s4)
  {
    hide Enabled, Apply;
    ReachesStep(s, [], s, a);
    ReachesStep(s, [] + [a], s1, b);
    ReachesStep(s, [] + [a] + [b], s2, c);
    ReachesStep(s, [] + [a] + [b] + [c], s3, d);
    es := [] + [a] + [b] + [c] + [d];
  }

  // ---------- the lock as the code keeps it ----------

  /** What happens during one pthread_cond_wait: the sections of other threads, then its result. */
  datatype Sleep = Sleep(others: seq<Event>, result: int)

  /** Events other threads may add while thread t sleeps; a wakeup without signal is theirs to give. */
  predicate ByOthers(e: Event, t: Tid) { e.Destroy? || e.t != t || e.SpuriousWake? }

  /** State s' follows from s by the atomic sections in es. */
  ghost predicate Reaches(s: State, es: seq<Event>, s': State) {
    Legal(s, es) && Run(s, es) == s'
  }

  lemma ReachesStep(s: State, es: seq<Event>, s': State, e: Event)
    requires Reaches(s, es, s') && Enabled(s', e)
    ensures Reaches(s, es + [e], Apply(s', e))
  {
    var one := [e];
    assert one[1..] == [];
    assert Legal(Apply(s', e), []);
    assert Legal(s', one);
    assert Run(s', one) == Run(Apply(s', e), one[1..]);
    RunConcat(s, es, one);
  }

  lemma ReachesTrans(s: State, es: seq<Event>, s': State, fs: seq<Event>, s'': State)
    requires Reaches(s, es, s') && Reaches(s', fs, s'')
    ensures Reaches(s, es + fs, s'')
  {
    RunConcat(s, es, fs);
  }

  /** A section of another thread leaves thread t alone, except that it may wake it. */
  lemma OthersLeave(s: State, e: Event, t: Tid, awake: Phase)
    requires Enabled(s, e) && ByOthers(e, t) && t < |s.threads|
    requires awake == match s.threads[t].phase case BlockedReader => WokenReader case BlockedWriter => WokenWriter case p => p
    requires !awake.Running?
    ensures |Apply(s, e).threads| == |s.threads|
    ensures Apply(s, e).threads[t] == s.threads[t] || Apply(s, e).threads[t] == s.threads[t].(phase := awake)
  {
  }

  /** A call ends with the first wait that fails, and with its error, or with none. */
  predicate Ended(sleeps: seq<Sleep>, code: int) {
    forall k :: 0 <= k < |sleeps| ==> sleeps[k].result == if k == |sleeps| - 1 then code else 0
  }

  lemma EndedNext(sleeps: seq<Sleep>, n: nat)
    ensures Ended(sleeps[..0], 0)
    ensures n < |sleeps| && Ended(sleeps[..n], 0) ==> Ended(sleeps[..n + 1], sleeps[n].result)
  {
  }

  class RwLock {
    var magic: int
    var refcount: int
    var waitReaders: int
    var waitWriters: int
    var threads: seq<Thread>  // the environment: what each thread is doing

    function View(): State
      reads this
    {
      State(magic, refcount, waitReaders, waitWriters, threads)
    }

    constructor (n: nat)
      ensures View() == Initial(n)
    {
      magic, refcount, waitReaders, waitWriters := RW_MAGIC, 0, 0, 0;
      threads := seq(n, _ => Thread(Running, 0, false));
    }

    method TryRdLock(t: Tid) returns (code: int)
      requires Enabled(View(), Event.TryRdLock(t))
      modifies this
      ensures View() == Apply(old(View()), Event.TryRdLock(t))
      ensures code == 0 <==> View() != old(View())
      ensures code != 0 ==> code == if magic != RW_MAGIC then EINVAL else EBUSY
    {
      if magic != RW_MAGIC {
        return EINVAL;
      }
      if refcount < 0 || waitWriters > 0 {
        code := EBUSY;
      } else {
        refcount := refcount + 1;
        threads := threads[t := Thread(Running, threads[t].readLocks + 1, threads[t].writing)];
        code := 0;
      }
    }

    method TryWrLock(t: Tid) returns (code: int)
      requires Enabled(View(), Event.TryWrLock(t))
      modifies this
      ensures View() == Apply(old(View()), Event.TryWrLock(t))
      ensures code == 0 <==> View() != old(View())
      ensures code != 0 ==> code == if magic != RW_MAGIC then EINVAL else EBUSY
    {
      if magic != RW_MAGIC {
        return EINVAL;
      }
      if refcount != 0 {
        code := EBUSY;
      } else {
        refcount := -1;
        threads := threads[t := Thread(Running, threads[t].readLocks, true)];
        code := 0;
      }
    }

    /** One atomic section of some other thread. */
    method Step(e: Event)
      requires Enabled(View(), e)
      modifies this
      ensures View() == Apply(old(View()), e)
    {
      var s := Apply(View(), e);
      magic, refcount, waitReaders, waitWriters, threads := s.magic, s.refcount, s.waitReaders, s.waitWriters, s.threads;
    }

    /** Sleeping in pthread_cond_wait: others run, in any legal way, until thread t is woken. */
    method CondWait(t: Tid, others: seq<Event>) returns (ghost trace: seq<Event>)
      requires t < |threads| && (threads[t].phase.BlockedReader? || threads[t].phase.BlockedWriter?)
      modifies this
      ensures Reaches(old(View()), trace, View())
      ensures |threads| == |old(threads)|
      ensures threads[t] == old(threads[t]).(phase := if old(threads[t]).phase.BlockedReader? then WokenReader else WokenWriter)
    {
      trace := [];
      ghost var s0 := View();
      var awake := if threads[t].phase.BlockedReader? then WokenReader else WokenWriter;
      for i := 0 to |others|
        invariant Reaches(s0, trace, View())
        invariant |threads| == |old(threads)|
        invariant threads[t] == old(threads[t]) || threads[t] == old(threads[t]).(phase := awake)
      {
        var e := others[i];
        if ByOthers(e, t) && Enabled(View(), e) {
          ReachesStep(s0, trace, View(), e);
          OthersLeave(View(), e, t, awake);
          trace := trace + [e];
          Step(e);
        }
      }
      if threads[t].phase != awake {
        ReachesStep(s0, trace, View(), SpuriousWake(t));
        trace := trace + [SpuriousWake(t)];
        threads := threads[t := threads[t].(phase := awake)];
      }
    }

    /**
     pthread_rwlock_rdlock with its wait loop. `sleeps` says what happens during each wait; when it
     is used up the call has not returned yet. The whole call is a legal run of atomic sections.
    */
    method RdLock(t: Tid, sleeps: seq<Sleep>) returns (returned: bool, code: int, slept: nat, ghost trace: seq<Event>)
      requires t < |threads| && threads[t].phase.Running?
      modifies this
      ensures Reaches(old(View()), trace, View())
      ensures |threads| == |old(threads)|
      ensures returned && code == 0 ==>
        threads[t] == Thread(Running, old(threads[t]).readLocks + 1, old(threads[t]).writing)
      ensures returned && code != 0 ==> threads[t] == old(threads[t])
      ensures !returned ==> threads[t] == old(threads[t]).(phase := BlockedReader)
      ensures old(magic) != RW_MAGIC ==> returned && code == EINVAL && View() == old(View())
      ensures old(magic) == RW_MAGIC ==> slept <= |sleeps| && Ended(sleeps[..slept], code) && (!returned ==> slept == |sleeps|)
    {
      slept := 0;
      assert Reaches(View(), [], View());
      hide Reaches, Legal, Run, WakeOthers, Release, Ended;
      EndedNext(sleeps, 0);
      trace := [];
      if magic != RW_MAGIC {
        return true, EINVAL, 0, [];
      }
      ghost var s0, before, section := View(), View(), Event.RdLock(t);
      code := 0;
      while refcount < 0 || waitWriters > 0
        invariant 0 <= slept <= |sleeps| && code == 0 && Ended(sleeps[..slept], 0)
        invariant |threads| == |old(threads)| && threads[t] == old(threads[t])
        invariant Reaches(s0, trace, before) && Enabled(before, section)
        invariant Apply(before, section) == ReadLoop(View(), t)
        decreases |sleeps| - slept
      {
        waitReaders := waitReaders + 1;
        threads := threads[t := threads[t].(phase := BlockedReader)];
        ReachesStep(s0, trace, before, section);
        trace := trace + [section];
        if slept == |sleeps| {
          return false, 0, slept, trace;
        }
        ghost var asleep := View();
        ghost var during := CondWait(t, sleeps[slept].others);
        before, section := View(), Resume(t);
        ReachesTrans(s0, trace, asleep, during, before);
        trace := trace + during;
        code := sleeps[slept].result;
        EndedNext(sleeps, slept);
        slept := slept + 1;
        waitReaders := waitReaders - 1;
        threads := threads[t := threads[t].(phase := Running)];
        if code != 0 {
          ReachesStep(s0, trace, before, WaitFails(t));
          trace := trace + [WaitFails(t)];
          return true, code, slept, trace;
        }
      }
      refcount := refcount + 1;
      threads := threads[t := Thread(Running, threads[t].readLocks + 1, threads[t].writing)];
      ReachesStep(s0, trace, before, section);
      trace := trace + [section];
      returned := true;
    }

    /** pthread_rwlock_wrlock with its wait loop. */
    method WrLock(t: Tid, sleeps: seq<Sleep>) returns (returned: bool, code: int, slept: nat, ghost trace: seq<Event>)
      requires t < |threads| && threads[t].phase.Running?
      modifies this
      ensures Reaches(old(View()), trace, View())
      ensures |threads| == |old(threads)|
      ensures returned && code == 0 ==> threads[t] == Thread(Running, old(threads[t]).readLocks, true)
      ensures returned && code != 0 ==> threads[t] == old(threads[t])
      ensures !returned ==> threads[t] == old(threads[t]).(phase := BlockedWriter)
      ensures old(magic) != RW_MAGIC ==> returned && code == EINVAL && View() == old(View())
      ensures old(magic) == RW_MAGIC ==> slept <= |sleeps| && Ended(sleeps[..slept], code) && (!returned ==> slept == |sleeps|)
    {
      slept := 0;
      assert Reaches(View(), [], View());
      hide Reaches, Legal, Run, WakeOthers, Release, Ended;
      EndedNext(sleeps, 0);
      trace := [];
      if magic != RW_MAGIC {
        return true, EINVAL, 0, [];
      }
      ghost var s0, before, section := View(), View(), Event.WrLock(t);
      code := 0;
      while refcount != 0
        invariant 0 <= slept <= |sleeps| && code == 0 && Ended(sleeps[..slept], 0)
        invariant |threads| == |old(threads)| && threads[t] == old(threads[t])
        invariant Reaches(s0, trace, before) && Enabled(before, section)
        invariant Apply(before, section) == WriteLoop(View(), t)
        decreases |sleeps| - slept
      {
        waitWriters := waitWriters + 1;
        threads := threads[t := threads[t].(phase := BlockedWriter)];
        ReachesStep(s0, trace, before, section);
        trace := trace + [section];
        if slept == |sleeps| {
          return false, 0, slept, trace;
        }
        ghost var asleep := View();
        ghost var during := CondWait(t, sleeps[slept].others);
        before, section := View(), Resume(t);
        ReachesTrans(s0, trace, asleep, during, before);
        trace := trace + during;
        code := sleeps[slept].result;
        EndedNext(sleeps, slept);
        slept := slept + 1;
        waitWriters := waitWriters - 1;
        threads := threads[t := threads[t].(phase := Running)];
        if code != 0 {
          ReachesStep(s0, trace, before, WaitFails(t));
          trace := trace + [WaitFails(t)];
          return true, code, slept, trace;
        }
      }
      refcount := -1;
      threads := threads[t := Thread(Running, threads[t].readLocks, true)];
      ReachesStep(s0, trace, before, section);
      trace := trace + [section];
      returned := true;
    }

    method Unlock(t: Tid, picks: set<Tid>) returns (code: int)
      requires Enabled(View(), Event.Unlock(t, picks))
      modifies this
      ensures View() == Apply(old(View()), Event.Unlock(t, picks))
      ensures code == if old(magic) == RW_MAGIC then 0 else EINVAL
    {
      if magic != RW_MAGIC {
        return EINVAL;
      }
      var th := threads[t];
      if refcount > 0 {
        refcount := refcount - 1;
        threads := threads[t := th.(readLocks := if th.readLocks > 0 then th.readLocks - 1 else 0)];
      } else if refcount == -1 {
        refcount := 0;
        threads := threads[t := th.(writing := false)];
      }
      if waitWriters > 0 {
        if refcount == 0 {
          threads := Signalled(threads, picks);
        }
      } else if waitReaders > 0 {
        threads := Broadcast(threads);
      }
      code := 0;
    }

    method CancelWait(t: Tid)
      requires Enabled(View(), Cancel(t))
      modifies this
      ensures View() == Apply(old(View()), Cancel(t))
    {
      if threads[t].phase.BlockedReader? || threads[t].phase.WokenReader? {
        waitReaders := waitReaders - 1;
      } else {
        waitWriters := waitWriters - 1;
      }
      threads := threads[t := threads[t].(phase := Running)];
    }

    method DestroyLock() returns (code: int)
      modifies this
      ensures View() == Apply(old(View()), Destroy)
      ensures code == 0 <==> old(magic) == RW_MAGIC && magic == 0
      ensures code == EINVAL <==> old(magic) != RW_MAGIC
      ensures code == 0 || code == EINVAL || code == EBUSY
      ensures code != 0 ==> View() == old(View())
    {
      if magic != RW_MAGIC {
        return EINVAL;
      }
      if refcount != 0 || waitReaders != 0 || waitWriters != 0 {
        return EBUSY;
      }
      magic := 0;
      code := 0;
    }
  }
}
