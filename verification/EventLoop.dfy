/** The order in which the event loop runs callbacks of different priorities (event.c). */
module EventLoop {
  import opened Common

  /** An event: its priority, and whether it is one of the library's own. */
  datatype Ev = Ev(id: nat, pri: nat, internal: bool)

  /** What happens while a callback runs, in it or in other threads, or while the loop
      polls: events become active or are deleted, or the loop is told to break off. */
  datatype Action = Activate(ev: Ev) | Delete(ev: Ev) | Break

  /** The callback of an event starts; the queues of active events just before. */
  datatype Start = Start(ev: Ev, queues: seq<seq<Ev>>)

  /** The library's own events have priority 0. */
  predicate InternalFirst(ev: Ev)
  {
    ev.internal ==> ev.pri == 0
  }

  predicate Placed(queues: seq<seq<Ev>>)
  {
    forall p, ev :: 0 <= p < |queues| && ev in queues[p] ==> ev.pri == p && InternalFirst(ev)
  }

  predicate EmptyBelow(queues: seq<seq<Ev>>, p: nat)
  {
    forall q :: 0 <= q < p && q < |queues| ==> queues[q] == []
  }

  /** Every callback was that of the first event of its queue, and every callback of the
      program started with nothing more urgent to do. */
  ghost predicate InOrder(log: seq<Start>)
  {
    forall k :: 0 <= k < |log| ==> Rightly(log[k])
  }

  predicate Rightly(s: Start)
  {
    && s.ev.pri < |s.queues| && s.queues[s.ev.pri] != [] && s.queues[s.ev.pri][0] == s.ev
    && (!s.ev.internal ==> EmptyBelow(s.queues, s.ev.pri))
  }

  /** How many callbacks of the program have started. */
  function Users(log: seq<Start>): nat
  {
    if log == [] then 0 else Users(log[..|log| - 1]) + (if log[|log| - 1].ev.internal then 0 else 1)
  }

  lemma LogSnoc(log: seq<Start>, s: Start)
    requires InOrder(log) && Rightly(s)
    ensures InOrder(log + [s]) && Users(log + [s]) == Users(log) + if s.ev.internal then 0 else 1
  {
    assert (log + [s])[..|log|] == log;
  }

  class Base {
    var queues: seq<seq<Ev>>
    /** event_running_priority; -1 when no queue is processed. */
    var running: int
    var eventContinue: bool
    var eventBreak: bool
    ghost var log: seq<Start>

    ghost predicate Valid()
      reads this
    {
      Placed(queues) && InOrder(log) && -1 <= running < |queues|
    }

    /** Unless the loop has been told to start over, nothing more urgent is active. */
    ghost predicate Told()
      reads this
    {
      running >= 0 && !eventContinue ==> EmptyBelow(queues, running)
    }

    constructor (n: nat)
      ensures Valid() && |queues| == n && log == [] && running == -1
    {
      queues, running, eventContinue, eventBreak, log := seq(n, _ => []), -1, false, false, [];
    }

    /** event_active_nolock */
    method ActiveNolock(ev: Ev)
      requires Valid() && Told() && ev.pri < |queues| && InternalFirst(ev)
      modifies this`queues, this`eventContinue
      ensures Valid() && Told() && |queues| == |old(queues)| && ev in queues[ev.pri]
      ensures queues == if ev in old(queues)[ev.pri] then old(queues) else old(queues)[ev.pri := old(queues)[ev.pri] + [ev]]
      ensures eventContinue == (old(eventContinue) || (ev !in old(queues)[ev.pri] && ev.pri < running))
    {
      if ev in queues[ev.pri] { return; }
      if ev.pri < running { eventContinue := true; }
      queues := queues[ev.pri := queues[ev.pri] + [ev]];
    }

    /** event_del_internal, for an active event. */
    method Remove(ev: Ev)
      requires Valid() && Told() && ev.pri < |queues|
      modifies this`queues
      ensures Valid() && Told() && queues == old(queues)[ev.pri := Removed(old(queues)[ev.pri], ev)]
    {
      RemovedSubset(queues[ev.pri], ev);
      queues := queues[ev.pri := Removed(queues[ev.pri], ev)];
    }

    /** What goes on while the lock is released. */
    method Act(actions: seq<Action>)
      requires Valid() && Told()
      modifies this`queues, this`eventContinue, this`eventBreak
      ensures Valid() && Told() && |queues| == |old(queues)| && (old(eventContinue) ==> eventContinue)
      ensures running <= 0 ==> eventContinue == old(eventContinue)
      ensures actions == [] ==> queues == old(queues) && eventContinue == old(eventContinue) && eventBreak == old(eventBreak)
    {
      for k := 0 to |actions|
        invariant Valid() && Told() && |queues| == |old(queues)| && (old(eventContinue) ==> eventContinue)
        invariant running <= 0 ==> eventContinue == old(eventContinue)
        invariant k == 0 ==> queues == old(queues) && eventContinue == old(eventContinue) && eventBreak == old(eventBreak)
      {
        match actions[k] {
          case Activate(ev) => if ev.pri < |queues| && InternalFirst(ev) { ActiveNolock(ev); }
          case Delete(ev) => if ev.pri < |queues| { Remove(ev); }
          case Break => eventBreak := true;
        }
      }
    }

    /** The first event of a queue leaves it, and its callback is about to start. */
    method TakeFirst(p: nat) returns (ev: Ev)
      requires Valid() && p < |queues| && queues[p] != [] && EmptyBelow(queues, p)
      modifies this`queues, this`log
      ensures Valid() && EmptyBelow(queues, p) && ev == old(queues[p])[0] && queues == old(queues)[p := old(queues[p])[1..]]
      ensures log == old(log) + [Start(ev, old(queues))] && (p > 0 ==> !ev.internal)
      ensures Users(log) == old(Users(log)) + if ev.internal then 0 else 1
    {
      hide Users, InOrder;
      ev := queues[p][0];
      assert ev in queues[p];
      LogSnoc(log, Start(ev, queues));
      log := log + [Start(ev, queues)];
      queues := queues[p := queues[p][1..]];
    }

    /** event_process_active_single_queue. The `n`th callback run does script[n], or
        nothing once the script is over. */
    method ProcessSingleQueue(p: nat, script: seq<seq<Action>>, pos0: nat) returns (count: int, pos: nat)
      requires Valid() && p < |queues| && running == p && !eventContinue && EmptyBelow(queues, p)
      modifies this`queues, this`eventContinue, this`eventBreak, this`log
      ensures Valid() && |queues| == |old(queues)| && old(log) <= log
      ensures count >= -1 && (count == -1 ==> eventBreak) && (count >= 0 ==> count == Users(log) - old(Users(log)))
      ensures p == 0 ==> !eventContinue
      ensures p > 0 && old(queues[p]) != [] ==> count != 0
      ensures count == 0 ==> !eventContinue ==> EmptyBelow(queues, p + 1)
    {
      hide Users, InOrder, Placed;
      count, pos := 0, pos0;
      while queues[p] != []
        invariant Valid() && |queues| == |old(queues)| && old(log) <= log && count == Users(log) - old(Users(log)) >= 0
        invariant !eventContinue && EmptyBelow(queues, p)
        invariant p > 0 ==> count > 0 || queues[p] == old(queues[p])
        decreases if pos < |script| then |script| - pos else 0, |queues[p]|
      {
        var ev := TakeFirst(p);
        if !ev.internal { count := count + 1; }
        Act(if pos < |script| then script[pos] else []);
        pos := pos + 1;
        if eventBreak { return -1, pos; }
        if eventContinue { break; }
      }
    }

    /** event_process_active: 0 means that nothing is left to do, -1 that the loop is to
        break off. */
    method ProcessActive(script: seq<seq<Action>>, pos0: nat) returns (c: int, pos: nat)
      requires Valid() && running == -1 && !eventContinue
      modifies this
      ensures Valid() && running == -1 && |queues| == |old(queues)| && old(log) <= log
      ensures c == 0 ==> EmptyBelow(queues, |queues|) && Users(log) == old(Users(log))
      ensures c > 0 ==> c == Users(log) - old(Users(log))
    {
      c, pos := 0, pos0;
      var i := 0;
      while i < |queues|
        invariant Valid() && i <= |queues| == |old(queues)| && old(log) <= log
        invariant c == 0 && !eventContinue && EmptyBelow(queues, i) && Users(log) == old(Users(log))
      {
        if queues[i] != [] {
          running := i;
          c, pos := ProcessSingleQueue(i, script, pos);
          if c < 0 {
            running := -1;
            return;
          } else if c > 0 {
            break;
          }
        }
        i := i + 1;
      }
      running := -1;
    }
  }

  /** The main loop: in every round events become active while it polls, and then the
      active ones are processed. However callbacks and threads activate events of any
      priority meanwhile, no callback of the program ever starts while a more urgent
      event waits. */
  method Loop(n: nat, rounds: seq<seq<Action>>, script: seq<seq<Action>>) returns (base: Base)
    ensures base.Valid() && InOrder(base.log)
  {
    base := new Base(n);
    var pos := 0;
    for k := 0 to |rounds|
      invariant base.Valid() && base.running == -1 && fresh(base)
    {
      base.eventContinue := false;
      if base.eventBreak { break; }
      base.Act(rounds[k]);
      var c;
      c, pos := base.ProcessActive(script, pos);
    }
  }
}
