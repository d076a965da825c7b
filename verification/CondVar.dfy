/** The condition variable for Windows threads (evthread_win32.c): each method of Cond
    is one critical section or one call to the system, and they interleave freely. */
module CondVar {
  import opened Common

  /** What WaitForSingleObject gave. */
  datatype WaitResult = Object0 | TimedOut | Failed

  /** Where a thread is in evthread_win32_cond_wait: its generation at the start, the
      tick count then and its timeout in milliseconds, if any. */
  datatype Thread =
    | Idle
    | Blocked(gen: int, start: nat, ms: Option<nat>)
    | Polled(gen: int, start: nat, ms: Option<nat>, res: WaitResult)
    | Leaving(result: int)
    | Returned(result: int)

  /** What a run did: signals, waits begun, and waits ended with their result. */
  datatype Action = Signalled(broadcast: bool) | Entered(t: nat) | Left(t: nat, result: int)

  const DWORD := 0x1_0000_0000

  predicate Waits(t: Thread)
  {
    t.Blocked? || t.Polled?
  }

  /** The thread waits and a signal came since it started to. */
  predicate Stale(t: Thread, generation: int)
  {
    Waits(t) && t.gen != generation
  }

  function Waiters(ts: seq<Thread>): nat
  {
    if ts == [] then 0 else (if Waits(ts[0]) then 1 else 0) + Waiters(ts[1..])
  }

  function StaleWaiters(ts: seq<Thread>, generation: int): nat
  {
    if ts == [] then 0 else (if Stale(ts[0], generation) then 1 else 0) + StaleWaiters(ts[1..], generation)
  }

  lemma {:induction false} WaitersUpdate(ts: seq<Thread>, i: nat, t: Thread, generation: int)
    requires i < |ts|
    ensures Waiters(ts[i := t]) == Waiters(ts) - (if Waits(ts[i]) then 1 else 0) + (if Waits(t) then 1 else 0)
    ensures StaleWaiters(ts[i := t], generation)
         == StaleWaiters(ts, generation) - (if Stale(ts[i], generation) then 1 else 0) + (if Stale(t, generation) then 1 else 0)
  {
    if i == 0 {
      assert ts[0 := t][1..] == ts[1..];
    } else {
      assert ts[i := t][1..] == ts[1..][i - 1 := t];
      WaitersUpdate(ts[1..], i - 1, t, generation);
    }
  }

  /** Stale waiters are waiters, and one that is there is counted. */
  lemma {:induction false} CountsBound(ts: seq<Thread>, generation: int)
    ensures StaleWaiters(ts, generation) <= Waiters(ts)
    ensures forall i :: 0 <= i < |ts| && Stale(ts[i], generation) ==> StaleWaiters(ts, generation) > 0
    ensures forall i :: 0 <= i < |ts| && Waits(ts[i]) ==> Waiters(ts) > 0
  {
    if ts != [] {
      CountsBound(ts[1..], generation);
      forall i | 0 <= i < |ts|
        ensures Stale(ts[i], generation) ==> StaleWaiters(ts, generation) > 0
        ensures Waits(ts[i]) ==> Waiters(ts) > 0
      {
        if i > 0 { assert ts[i] == ts[1..][i - 1]; }
      }
    }
  }

  lemma {:induction false} NoneYet(n: nat, generation: int)
    ensures Waiters(seq(n, _ => Idle)) == 0 && StaleWaiters(seq(n, _ => Idle), generation) == 0
  {
    if n > 0 {
      assert seq(n, _ => Idle)[1..] == seq(n - 1, _ => Idle);
      NoneYet(n - 1, generation);
    }
  }

  function Signals(log: seq<Action>): nat
  {
    if log == [] then 0 else Signals(log[..|log| - 1]) + (if log[|log| - 1].Signalled? then 1 else 0)
  }

  lemma {:induction false} SignalBetween(log: seq<Action>, i: nat)
    requires i <= |log| && Signals(log[..i]) != Signals(log)
    ensures exists k :: i <= k < |log| && log[k].Signalled?
  {
    var n := |log| - 1;
    assert log[..|log|] == log;
    if !log[n].Signalled? {
      assert log[..n][..i] == log[..i];
      SignalBetween(log[..n], i);
      var k :| i <= k < n && log[..n][k].Signalled?;
      assert log[k].Signalled?;
    } else {
      assert i <= n < |log| && log[n].Signalled?;
    }
  }

  /** How many threads wait after `log`. */
  function Inside(log: seq<Action>): int
  {
    if log == [] then 0
    else Inside(log[..|log| - 1]) + (match log[|log| - 1] case Entered(_) => 1 case Left(_, _) => -1 case _ => 0)
  }

  /** How many threads the signals let go: one each, or all that waited then. */
  function Granted(log: seq<Action>): int
  {
    if log == [] then 0
    else Granted(log[..|log| - 1])
         + (if !log[|log| - 1].Signalled? then 0 else if log[|log| - 1].broadcast then Inside(log[..|log| - 1]) else 1)
  }

  /** How many waits ended with 0. */
  function Served(log: seq<Action>): nat
  {
    if log == [] then 0
    else Served(log[..|log| - 1]) + (if log[|log| - 1].Left? && log[|log| - 1].result == 0 then 1 else 0)
  }

  predicate Concerns(a: Action, t: nat)
  {
    (a.Entered? || a.Left?) && a.t == t
  }

  /** A wait that began at `i` and goes on. */
  predicate OpenWait(log: seq<Action>, i: nat, t: nat)
  {
    i < |log| && log[i] == Entered(t) && forall m :: i < m < |log| ==> !Concerns(log[m], t)
  }

  /** If `log[j]` ends a wait with 0, a signal came during that very wait. */
  ghost predicate ServedRightly(log: seq<Action>, j: nat)
    requires j < |log|
  {
    log[j].Left? && log[j].result == 0 ==>
      exists i: nat, k :: OpenWait(log[..j], i, log[j].t) && i < k < j && log[k].Signalled?
  }

  ghost predicate AllServedRightly(log: seq<Action>)
  {
    forall j :: 0 <= j < |log| ==> ServedRightly(log, j)
  }

  lemma LogSnoc(log: seq<Action>, a: Action)
    requires AllServedRightly(log)
    requires a.Left? && a.result == 0 ==> exists i: nat, k :: OpenWait(log, i, a.t) && i < k < |log| && log[k].Signalled?
    ensures AllServedRightly(log + [a])
  {
    var log' := log + [a];
    forall j | 0 <= j < |log'|
      ensures ServedRightly(log', j)
    {
      assert log'[..j] == log[..j];
      if j < |log| {
        assert ServedRightly(log, j) && log'[j] == log[j];
      } else {
        assert log[..j] == log;
      }
    }
  }

  /** The last signal there was is a broadcast. */
  predicate LastBroadcast(log: seq<Action>)
  {
    log != [] && (log[|log| - 1] == Signalled(true) || (!log[|log| - 1].Signalled? && LastBroadcast(log[..|log| - 1])))
  }

  lemma SignalsSnoc(log: seq<Action>, a: Action)
    ensures Signals(log + [a]) == Signals(log) + (if a.Signalled? then 1 else 0)
    ensures Inside(log + [a]) == Inside(log) + (match a case Entered(_) => 1 case Left(_, _) => -1 case _ => 0)
    ensures Granted(log + [a]) == Granted(log) + (if !a.Signalled? then 0 else if a.broadcast then Inside(log) else 1)
    ensures Served(log + [a]) == Served(log) + (if a.Left? && a.result == 0 then 1 else 0)
    ensures LastBroadcast(log + [a]) == if a.Signalled? then a.broadcast else LastBroadcast(log)
    ensures forall i :: 0 <= i <= |log| ==> (log + [a])[..i] == log[..i]
  {
    assert (log + [a])[..|log|] == log;
  }

  class Cond {
    var event: bool
    var nWaiting: int
    var nToWake: int
    var generation: int
    var threads: seq<Thread>
    ghost var log: seq<Action>
    ghost var enteredAt: seq<nat>

    ghost predicate Valid()
      reads this
    {
      && nWaiting == Waiters(threads) == Inside(log) && nToWake >= 0 && generation == Signals(log)
      && |enteredAt| == |threads|
      && (forall i :: 0 <= i < |threads| && Waits(threads[i]) ==> Began(i))
      && (nToWake > 0 && StaleWaiters(threads, generation) > 0 ==> event)
      && nToWake + Served(log) <= Granted(log)
      && (LastBroadcast(log) ==> nToWake >= StaleWaiters(threads, generation))
      && AllServedRightly(log)
    }

    /** When a waiting thread began to wait. */
    ghost predicate Began(i: nat)
      requires i < |threads| == |enteredAt| && Waits(threads[i])
      reads this`threads, this`enteredAt, this`log
    {
      OpenWait(log, enteredAt[i], i) && threads[i].gen == Signals(log[..enteredAt[i] + 1])
    }

    /** evthread_win32_cond_alloc, and `n` threads that use it. */
    constructor (n: nat)
      ensures Valid() && |threads| == n && log == []
    {
      event, nWaiting, nToWake, generation := false, 0, 0, 0;
      threads := seq(n, _ => Idle);
      log, enteredAt := [], seq(n, _ => 0);
      NoneYet(n, 0);
    }

    /** The first critical section of evthread_win32_cond_wait. */
    method Enter(t: nat, now: nat, ms: Option<nat>)
      requires Valid() && t < |threads| && !Waits(threads[t]) && !threads[t].Leaving?
      modifies this`nWaiting, this`threads, this`log, this`enteredAt
      ensures Valid() && nWaiting == old(nWaiting) + 1 && log == old(log) + [Entered(t)]
      ensures threads == old(threads)[t := Blocked(generation, now, ms)]
    {
      hide Waiters, StaleWaiters, Signals, Inside, Granted, Served, LastBroadcast, AllServedRightly;
      var thread := Blocked(generation, now, ms);
      WaitersUpdate(threads, t, thread, generation);
      LogSnoc(log, Entered(t));
      SignalsSnoc(log, Entered(t));
      nWaiting := nWaiting + 1;
      threads := threads[t := thread];
      enteredAt := enteredAt[t := |log|];
      log := log + [Entered(t)];
      assert log[..|log|] == log;
    }

    /** WaitForSingleObject comes back; with success only while the event is set. */
    method Poll(t: nat, res: WaitResult)
      requires Valid() && t < |threads| && threads[t].Blocked?
      requires res.Object0? ==> event
      requires res.TimedOut? ==> threads[t].ms.Some?
      modifies this`threads
      ensures Valid()
      ensures threads == old(threads)[t := Polled(old(threads[t].gen), old(threads[t].start), old(threads[t].ms), res)]
    {
      hide Waiters, StaleWaiters, Signals, Inside, Granted, Served, LastBroadcast, AllServedRightly;
      var thread := Polled(threads[t].gen, threads[t].start, threads[t].ms, res);
      WaitersUpdate(threads, t, thread, generation);
      threads := threads[t := thread];
    }

    /** The critical section of the wait loop. */
    method Check(t: nat, now: nat)
      requires Valid() && t < |threads| && threads[t].Polled?
      modifies this`event, this`nWaiting, this`nToWake, this`threads, this`log
      ensures Valid() && generation == old(generation) && (old(event) || !event)
      ensures var was := old(threads[t]);
              var served := old(nToWake) != 0 && Stale(was, generation);
              var late := was.ms.Some? && (was.start + was.ms.value) % DWORD <= now;
              && |threads| == |old(threads)| && threads == old(threads)[t := threads[t]]
              && threads[t] == (if served then Leaving(0)
                                else if was.res == TimedOut || (was.res == Object0 && late) then Leaving(1)
                                else if was.res == Object0 then Blocked(was.gen, was.start, was.ms) else Leaving(-1))
              && nToWake == old(nToWake) - (if served then 1 else 0)
              && log == old(log) + (if threads[t].Leaving? then [Left(t, threads[t].result)] else [])
              && nWaiting == old(nWaiting) - (if threads[t].Leaving? then 1 else 0)
              && (event == (old(event) && !(threads[t].Blocked? && nToWake == 0)))
    {
      hide Waiters, StaleWaiters, Signals, Inside, Granted, Served, LastBroadcast, AllServedRightly, OpenWait;
      var was := threads[t];
      if nToWake != 0 && generation != was.gen {
        Finish(t, 0);
      } else if was.res != Object0 {
        Finish(t, if was.res == TimedOut then 1 else -1);
      } else if was.ms.Some? && (was.start + was.ms.value) % DWORD <= now {
        Finish(t, 1);
      } else {
        WaitersUpdate(threads, t, Blocked(was.gen, was.start, was.ms), generation);
        threads := threads[t := Blocked(was.gen, was.start, was.ms)];
        if nToWake == 0 { event := false; }
      }
    }

    /** A wait ends. */
    method Finish(t: nat, result: int)
      requires Valid() && t < |threads| && Waits(threads[t])
      requires result == 0 <==> nToWake != 0 && Stale(threads[t], generation)
      modifies this`nWaiting, this`nToWake, this`threads, this`log
      ensures Valid() && nWaiting == old(nWaiting) - 1 && nToWake == old(nToWake) - (if result == 0 then 1 else 0)
      ensures threads == old(threads)[t := Leaving(result)] && log == old(log) + [Left(t, result)]
    {
      hide Waiters, StaleWaiters, Signals, Inside, Granted, Served, LastBroadcast, AllServedRightly, OpenWait;
      CountsBound(threads, generation);
      WaitersUpdate(threads, t, Leaving(result), generation);
      EndWait(t, result);
      if result == 0 { nToWake := nToWake - 1; }
      nWaiting := nWaiting - 1;
      threads := threads[t := Leaving(result)];
      log := log + [Left(t, result)];
    }

    /** The last critical section of evthread_win32_cond_wait. */
    method Leave(t: nat)
      requires Valid() && t < |threads| && threads[t].Leaving?
      modifies this`event, this`threads
      ensures Valid() && threads == old(threads)[t := Returned(old(threads[t].result))]
      ensures event == (old(event) && nWaiting != 0)
    {
      hide Waiters, StaleWaiters, Signals, Inside, Granted, Served, LastBroadcast, AllServedRightly;
      CountsBound(threads, generation);
      WaitersUpdate(threads, t, Returned(threads[t].result), generation);
      threads := threads[t := Returned(threads[t].result)];
      if nWaiting == 0 { event := false; }
    }

    /** evthread_win32_cond_signal */
    method Signal(broadcast: bool)
      requires Valid()
      modifies this`event, this`nToWake, this`generation, this`log
      ensures Valid() && event && generation == old(generation) + 1 && log == old(log) + [Signalled(broadcast)]
      ensures nToWake == if broadcast then nWaiting else old(nToWake) + 1
    {
      hide Waiters, StaleWaiters, Signals, Inside, Granted, Served, LastBroadcast, AllServedRightly;
      LogSnoc(log, Signalled(broadcast));
      SignalsSnoc(log, Signalled(broadcast));
      CountsBound(threads, generation + 1);
      nToWake := if broadcast then nWaiting else nToWake + 1;
      generation := generation + 1;
      event := true;
      log := log + [Signalled(broadcast)];
    }

    /** A waiter that is due gets 0 the next time it looks, and it can look at once: the
        event is set. */
    lemma NoLostWakeup(t: nat)
      requires Valid() && t < |threads| && Stale(threads[t], generation) && nToWake > 0
      ensures event
    {
      CountsBound(threads, generation);
    }

    /** After a broadcast, and until the next single signal, every thread that was
        waiting then and still waits is due. */
    lemma BroadcastServesAll(t: nat)
      requires Valid() && t < |threads| && Stale(threads[t], generation) && LastBroadcast(log)
      ensures nToWake > 0 && event
    {
      CountsBound(threads, generation);
    }

    /** Ending a wait, with 0 only when that is due, keeps the log right. */
    lemma EndWait(t: nat, result: int)
      requires Valid() && t < |threads| && Waits(threads[t])
      requires result == 0 ==> Stale(threads[t], generation)
      ensures AllServedRightly(log + [Left(t, result)])
      ensures Signals(log + [Left(t, result)]) == Signals(log) && Inside(log + [Left(t, result)]) == Inside(log) - 1
      ensures Granted(log + [Left(t, result)]) == Granted(log)
      ensures Served(log + [Left(t, result)]) == Served(log) + (if result == 0 then 1 else 0)
      ensures LastBroadcast(log + [Left(t, result)]) == LastBroadcast(log)
      ensures forall i :: 0 <= i < |threads| && i != t && Waits(threads[i]) ==>
                OpenWait(log + [Left(t, result)], enteredAt[i], i)
                && threads[i].gen == Signals((log + [Left(t, result)])[..enteredAt[i] + 1])
    {
      hide Waiters, StaleWaiters, Signals, Inside, Granted, Served, LastBroadcast, AllServedRightly;
      forall i | 0 <= i < |threads| && i != t && Waits(threads[i])
        ensures OpenWait(log + [Left(t, result)], enteredAt[i], i)
                && threads[i].gen == Signals((log + [Left(t, result)])[..enteredAt[i] + 1])
      {
        assert Began(i);
        assert (log + [Left(t, result)])[..enteredAt[i] + 1] == log[..enteredAt[i] + 1];
      }
      assert Began(t);
      if result == 0 {
        SignalBetween(log, enteredAt[t] + 1);
      }
      LogSnoc(log, Left(t, result));
      SignalsSnoc(log, Left(t, result));
    }
  }

  // ----- runs -----

  /** One step of some thread, with what the system gives it. */
  datatype Step =
    | DoSignal(broadcast: bool)
    | DoEnter(t: nat, now: nat, ms: Option<nat>)
    | DoPoll(t: nat, res: WaitResult)
    | DoCheck(t: nat, now: nat)
    | DoLeave(t: nat)

  method Take(cond: Cond, step: Step)
    requires cond.Valid()
    modifies cond
    ensures cond.Valid() && |cond.threads| == |old(cond.threads)| && old(cond.log) <= cond.log
  {
    hide Waiters, StaleWaiters, Signals, Inside, Granted, Served, LastBroadcast, AllServedRightly;
    match step {
      case DoSignal(broadcast) => cond.Signal(broadcast);
      case DoEnter(t, now, ms) =>
        if t < |cond.threads| && (cond.threads[t].Idle? || cond.threads[t].Returned?) { cond.Enter(t, now, ms); }
      case DoPoll(t, res) =>
        if t < |cond.threads| && cond.threads[t].Blocked? && (res.Object0? ==> cond.event)
           && (res.TimedOut? ==> cond.threads[t].ms.Some?) { cond.Poll(t, res); }
      case DoCheck(t, now) => if t < |cond.threads| && cond.threads[t].Polled? { cond.Check(t, now); }
      case DoLeave(t) => if t < |cond.threads| && cond.threads[t].Leaving? { cond.Leave(t); }
    }
  }

  /** A thread that waits while a signal is due to it can go on at once, and goes on
      with 0. */
  method WakesUp(cond: Cond, t: nat, now: nat)
    requires cond.Valid() && t < |cond.threads| && cond.threads[t].Blocked?
    requires Stale(cond.threads[t], cond.generation) && cond.nToWake > 0
    modifies cond
    ensures cond.Valid() && |cond.threads| == |old(cond.threads)| && cond.threads[t] == Leaving(0)
  {
    hide Waiters, StaleWaiters, Signals, Inside, Granted, Served, LastBroadcast, AllServedRightly, OpenWait;
    cond.NoLostWakeup(t);
    cond.Poll(t, Object0);
    cond.Check(t, now);
  }

  /** Any number of threads, any interleaving: what the log of the run shows. */
  method Run(n: nat, steps: seq<Step>) returns (cond: Cond)
    ensures cond.Valid() && |cond.threads| == n
    ensures Served(cond.log) <= Granted(cond.log)
    ensures AllServedRightly(cond.log)
  {
    hide Waiters, StaleWaiters, Signals, Inside, Granted, Served, LastBroadcast, AllServedRightly;
    cond := new Cond(n);
    for k := 0 to |steps|
      invariant cond.Valid() && |cond.threads| == n && fresh(cond)
    {
      Take(cond, steps[k]);
    }
  }
}
