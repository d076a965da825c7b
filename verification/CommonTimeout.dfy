/** Timers of an event base (event.c): the heap, the sorted queues of events that share
    a common timeout, and the one heap timer that drives each queue. */
module CommonTimeout {
  import opened Common

  // ----- tagged times -----

  const MICROS := 0x100000   // one more than MICROSECONDS_MASK
  const MILLION := 1_000_000
  const MAGIC := 5

  /** struct timeval; the bits of `usec` above the low 20 may tag a common timeout. */
  datatype Timeval = Timeval(sec: int, usec: nat)

  function Micro(tv: Timeval): nat { tv.usec % MICROS }

  function Tag(tv: Timeval): nat { tv.usec / MICROS }

  function Masked(tv: Timeval): Timeval { Timeval(tv.sec, Micro(tv)) }

  function Tagged(tv: Timeval, tag: nat): Timeval { Timeval(tv.sec, Micro(tv) + tag * MICROS) }

  /** COMMON_TIMEOUT_MAGIC | (i << COMMON_TIMEOUT_IDX_SHIFT) */
  function TagOf(i: nat): nat { MAGIC * 256 + i }

  function Index(tv: Timeval): nat { Tag(tv) % 256 }

  /** is_common_timeout in a base with `n` of them. */
  predicate IsCommon(tv: Timeval, n: nat)
  {
    Tag(tv) / 256 == MAGIC && Index(tv) < n
  }

  predicate Normal(tv: Timeval) { Micro(tv) < MILLION }

  predicate Plain(tv: Timeval) { tv.usec < MILLION }

  /** The time meant, in microseconds. */
  function Time(tv: Timeval): int { tv.sec * MILLION + Micro(tv) }

  /** evutil_timercmp(a, b, >=), tags and all. */
  predicate NotBefore(a: Timeval, b: Timeval)
  {
    if a.sec == b.sec then a.usec >= b.usec else a.sec > b.sec
  }

  /** evutil_timeradd */
  function TimeAdd(a: Timeval, b: Timeval): Timeval
  {
    if a.usec + b.usec >= MILLION then Timeval(a.sec + b.sec + 1, a.usec + b.usec - MILLION)
    else Timeval(a.sec + b.sec, a.usec + b.usec)
  }

  /** evutil_timersub */
  function TimeSub(a: Timeval, b: Timeval): Timeval
    requires Plain(a) && Plain(b)
  {
    if a.usec < b.usec then Timeval(a.sec - b.sec - 1, a.usec - b.usec + MILLION)
    else Timeval(a.sec - b.sec, a.usec - b.usec)
  }

  lemma TimePlain(a: Timeval, b: Timeval)
    requires Plain(a) && b.usec <= MILLION
    ensures Plain(TimeAdd(a, b)) && Time(TimeAdd(a, b)) == Time(a) + Time(b) && Tag(a) == 0
    ensures Plain(b) ==> Plain(TimeSub(a, b)) && Time(TimeSub(a, b)) == Time(a) - Time(b)
  {
    hide Time;
    assert Micro(a) == a.usec && Micro(b) == b.usec;
    SumMicro(a, b);
  }

  lemma SumMicro(a: Timeval, b: Timeval)
    requires Plain(a) && b.usec <= MILLION
    ensures Time(TimeAdd(a, b)) == Time(a) + Time(b)
    ensures Plain(b) ==> Time(TimeSub(a, b)) == Time(a) - Time(b)
  {
    PlainTime(a);
    PlainTime(b);
    PlainTime(TimeAdd(a, b));
    if Plain(b) { PlainTime(TimeSub(a, b)); }
  }

  lemma PlainTime(a: Timeval)
    requires a.usec <= MILLION
    ensures Time(a) == a.sec * MILLION + a.usec
  {
  }

  /** Tagging and masking keep the time, and the tag names the queue. */
  lemma TagKeeps(tv: Timeval, i: nat)
    requires i < 256
    ensures Time(Tagged(tv, TagOf(i))) == Time(tv) && Micro(Tagged(tv, TagOf(i))) == Micro(tv)
    ensures Normal(tv) ==> Normal(Tagged(tv, TagOf(i))) && Plain(Masked(tv))
    ensures Tag(Tagged(tv, TagOf(i))) == TagOf(i) && Index(Tagged(tv, TagOf(i))) == i
    ensures forall n: nat :: i < n ==> IsCommon(Tagged(tv, TagOf(i)), n)
    ensures Masked(tv).usec == Micro(tv) && Time(Masked(tv)) == Time(tv)
  {
    assert (Micro(tv) + TagOf(i) * MICROS) / MICROS == TagOf(i);
    assert (Micro(tv) + TagOf(i) * MICROS) % MICROS == Micro(tv);
  }

  lemma PlainIsNotCommon(tv: Timeval, n: nat)
    requires Plain(tv)
    ensures !IsCommon(tv, n) && Normal(tv) && Micro(tv) == tv.usec && Masked(tv) == tv
  {
  }

  /** Comparing two times with one tag compares the times, although the tags take part. */
  lemma SameTagCompares(a: Timeval, b: Timeval)
    requires Normal(a) && Normal(b) && Tag(a) == Tag(b)
    ensures NotBefore(a, b) <==> Time(a) >= Time(b)
  {
    assert a.usec == Tag(a) * MICROS + Micro(a) && b.usec == Tag(b) * MICROS + Micro(b);
  }

  // ----- timers and their places -----

  /** An event of the program, or the internal event that drives a queue. */
  datatype Id = User(n: nat) | Driver(i: nat)

  /** EV_TIMEOUT, EV_READ, EV_WRITE and EV_SIGNAL. */
  datatype Reason = TimedOut | Readable | Writable | Signalled

  /** The fields of struct event that concern timers: ev_timeout, the flags
      EVLIST_TIMEOUT and EVLIST_ACTIVE, and ev_res. */
  datatype Ev = Ev(timeout: Timeval, timed: bool, active: bool, res: set<Reason>) {
    predicate Expired() { TimedOut in res }
  }

  type Evs = map<Id, Ev>

  function Of(evs: Evs, id: Id): Ev
  {
    if id in evs then evs[id] else Ev(Timeval(0, 0), false, false, {})
  }

  function Due(evs: Evs, id: Id): int
  {
    Time(Of(evs, id).timeout)
  }

  ghost predicate Sorted(evs: Evs, l: seq<Id>)
  {
    forall j, k :: 0 <= j < k < |l| ==> l[j] != l[k] && Due(evs, l[j]) <= Due(evs, l[k])
  }

  predicate Member(e: Ev, i: nat)
  {
    e.timed && Normal(e.timeout) && Tag(e.timeout) == TagOf(i)
  }

  /** Queue `i` is sorted, without repetition, and holds only events tagged for it. */
  ghost predicate QueueOk(evs: Evs, lists: seq<seq<Id>>, i: nat)
  {
    i < |lists| ==> Sorted(evs, lists[i]) && forall id :: id in lists[i] ==> id.User? && Member(Of(evs, id), i)
  }

  predicate HeapOk(evs: Evs, heap: set<Id>, id: Id)
  {
    id in heap ==> Of(evs, id).timed && Plain(Of(evs, id).timeout)
  }

  /** A pending timer is in the place its own timeout tells. */
  predicate Found(evs: Evs, lists: seq<seq<Id>>, heap: set<Id>, id: Id)
  {
    var e := Of(evs, id);
    e.timed ==> if IsCommon(e.timeout, |lists|) then id in lists[Index(e.timeout)] else id in heap
  }

  ghost predicate Placed(evs: Evs, lists: seq<seq<Id>>, heap: set<Id>)
  {
    && |lists| <= 256
    && (forall i: nat :: QueueOk(evs, lists, i))
    && forall id :: HeapOk(evs, heap, id) && Found(evs, lists, heap, id)
  }

  /** The driver of queue `i` waits in the heap for its head's time at the latest. */
  predicate DrivenBy(evs: Evs, lists: seq<seq<Id>>, heap: set<Id>, i: nat)
    requires i < |lists|
  {
    lists[i] != [] ==> Driver(i) in heap && Due(evs, Driver(i)) <= Due(evs, lists[i][0])
  }

  /** Every queue is driven, or its driver is among `away`. */
  ghost predicate Driven(evs: Evs, lists: seq<seq<Id>>, heap: set<Id>, away: set<Id>)
  {
    forall i :: 0 <= i < |lists| ==> Driver(i) in away || DrivenBy(evs, lists, heap, i)
  }

  // ----- removing and inserting -----

  lemma {:induction false} RemovedSorted(evs: Evs, l: seq<Id>, id: Id)
    requires Sorted(evs, l)
    ensures Sorted(evs, Removed(l, id))
    ensures Removed(l, id) != [] ==> Due(evs, l[0]) <= Due(evs, Removed(l, id)[0])
  {
    hide Due;
    if l != [] && l[0] != id {
      RemovedSorted(evs, l[1..], id);
      RemovedFacts(l[1..], id);
      var r := Removed(l[1..], id);
      forall k | 0 <= k < |r|
        ensures l[0] != r[k] && Due(evs, l[0]) <= Due(evs, r[k])
      {
        assert r[k] in l[1..];
      }
    }
  }

  lemma SortedFrame(evs: Evs, evs': Evs, l: seq<Id>)
    requires Sorted(evs, l) && forall id :: id in l ==> Due(evs', id) == Due(evs, id)
    ensures Sorted(evs', l)
  {
    hide Due;
  }

  lemma TagTells(tv: Timeval, i: nat, n: nat)
    requires Tag(tv) == TagOf(i) && i < n <= 256
    ensures IsCommon(tv, n) && Index(tv) == i
  {
  }

  /** What taking an event out does to queue `j`. */
  lemma QueueRemoval(evs: Evs, lists: seq<seq<Id>>, id: Id, j: nat)
    requires QueueOk(evs, lists, j) && j < |lists| <= 256
    ensures var e := Of(evs, id);
            var evs' := evs[id := e.(timed := false)];
            && (id in lists[j] ==> IsCommon(e.timeout, |lists|) && Index(e.timeout) == j && id.User?)
            && (forall x :: x in Removed(lists[j], id) <==> x in lists[j] && x != id)
            && Sorted(evs', Removed(lists[j], id))
            && (forall x :: x in Removed(lists[j], id) ==> x.User? && Member(Of(evs', x), j))
            && (id !in lists[j] ==>
                  Sorted(evs', lists[j]) && forall x :: x in lists[j] ==> x.User? && Member(Of(evs', x), j))
  {
    hide Time, Normal, Tag, TagOf, IsCommon, Index;
    var e := Of(evs, id);
    var evs' := evs[id := e.(timed := false)];
    if id in lists[j] { TagTells(e.timeout, j, |lists|); }
    RemovedFacts(lists[j], id);
    RemovedSorted(evs, lists[j], id);
    SortedFrame(evs, evs', Removed(lists[j], id));
    SortedFrame(evs, evs', lists[j]);
  }

  /** event_queue_remove for a pending timer. */
  lemma RemoveKeeps(evs: Evs, lists: seq<seq<Id>>, heap: set<Id>, id: Id)
    requires Placed(evs, lists, heap) && Of(evs, id).timed
    ensures var e := Of(evs, id);
            var evs' := evs[id := e.(timed := false)];
            && (IsCommon(e.timeout, |lists|) ==>
                  && id.User? && id in lists[Index(e.timeout)]
                  && Placed(evs', lists[Index(e.timeout) := Removed(lists[Index(e.timeout)], id)], heap))
            && (!IsCommon(e.timeout, |lists|) ==> id in heap && Placed(evs', lists, heap - {id}))
  {
    hide Time, Plain, Normal, Tag, Index, Removed, Sorted, TagOf, Member;
    var e := Of(evs, id);
    var evs' := evs[id := e.(timed := false)];
    assert Found(evs, lists, heap, id) && HeapOk(evs, heap, id);
    var common := IsCommon(e.timeout, |lists|);
    var i := Index(e.timeout);
    assert common ==> QueueOk(evs, lists, i);
    if id in heap { PlainIsNotCommon(e.timeout, |lists|); }
    if common { QueueRemoval(evs, lists, id, i); }
    var lists' := if common then lists[i := Removed(lists[i], id)] else lists;
    var heap' := if common then heap else heap - {id};
    forall j: nat ensures QueueOk(evs', lists', j) {
      assert QueueOk(evs, lists, j);
      if j < |lists| { QueueRemoval(evs, lists, id, j); }
    }
    forall x ensures HeapOk(evs', heap', x) && Found(evs', lists', heap', x) {
      assert HeapOk(evs, heap, x) && Found(evs, lists, heap, x);
    }
  }

  /** An event that is not pending may change in every other respect. */
  lemma IdleKeeps(evs: Evs, lists: seq<seq<Id>>, heap: set<Id>, id: Id, e: Ev)
    requires Placed(evs, lists, heap)
    requires e.timed == Of(evs, id).timed && (e.timed ==> e.timeout == Of(evs, id).timeout)
    ensures Placed(evs[id := e], lists, heap)
  {
    hide Time, Plain, Normal, Tag, Index, Sorted, TagOf, IsCommon;
    var evs' := evs[id := e];
    forall j: nat ensures QueueOk(evs', lists, j) {
      assert QueueOk(evs, lists, j);
      if j < |lists| { SortedFrame(evs, evs', lists[j]); }
    }
    forall x ensures HeapOk(evs', heap, x) && Found(evs', lists, heap, x) {
      assert HeapOk(evs, heap, x) && Found(evs, lists, heap, x);
    }
  }

  /** Where a time belongs in a sorted queue: behind all that are no later. */
  predicate Fits(evs: Evs, l: seq<Id>, p: nat, time: int)
  {
    && p <= |l| && (p > 0 ==> Due(evs, l[p - 1]) <= time)
    && (p < |l| ==> time < Due(evs, l[p]))
  }

  lemma SortedInsert(evs: Evs, evs': Evs, l: seq<Id>, p: nat, id: Id)
    requires Sorted(evs, l) && id !in l && Fits(evs, l, p, Due(evs', id))
    requires forall x :: x != id ==> Due(evs', x) == Due(evs, x)
    ensures Sorted(evs', l[..p] + [id] + l[p..])
  {
    hide Due;
    var l' := l[..p] + [id] + l[p..];
    forall j, k | 0 <= j < k < |l'|
      ensures l'[j] != l'[k] && Due(evs', l'[j]) <= Due(evs', l'[k])
    {
      var j', k' := if j > p then j - 1 else j, if k > p then k - 1 else k;
      assert j != p ==> l'[j] == l[j'];
      assert k != p ==> l'[k] == l[k'];
    }
  }

  /** event_queue_insert into a common timeout queue. */
  lemma ListInsertKeeps(evs: Evs, lists: seq<seq<Id>>, heap: set<Id>, id: Id, e: Ev, i: nat, p: nat)
    requires Placed(evs, lists, heap) && !Of(evs, id).timed && id.User?
    requires i < |lists| && Member(e, i) && Fits(evs, lists[i], p, Time(e.timeout))
    ensures Placed(evs[id := e], lists[i := lists[i][..p] + [id] + lists[i][p..]], heap)
  {
    hide Time, Plain, Normal, Tag, Index, Sorted, TagOf;
    var evs' := evs[id := e];
    var l' := lists[i][..p] + [id] + lists[i][p..];
    var lists' := lists[i := l'];
    TagTells(e.timeout, i, |lists|);
    forall j: nat ensures QueueOk(evs', lists', j) {
      assert QueueOk(evs, lists, j);
      if j < |lists| {
        assert id !in lists[j];
        SortedFrame(evs, evs', lists[j]);
        if j == i { SortedInsert(evs, evs', lists[i], p, id); }
      }
    }
    forall x ensures x in l' <==> x in lists[i] || x == id {
      assert lists[i] == lists[i][..p] + lists[i][p..];
    }
    assert lists'[i] == l';
    forall x ensures HeapOk(evs', heap, x) && Found(evs', lists', heap, x) {
      assert HeapOk(evs, heap, x) && Found(evs, lists, heap, x);
      assert HeapOk(evs, heap, id);
    }
  }

  /** min_heap_push */
  lemma HeapInsertKeeps(evs: Evs, lists: seq<seq<Id>>, heap: set<Id>, id: Id, e: Ev)
    requires Placed(evs, lists, heap) && !Of(evs, id).timed && e.timed && Plain(e.timeout)
    ensures Placed(evs[id := e], lists, heap + {id})
  {
    hide Time, Plain, Normal, Tag, Index, Sorted, TagOf, IsCommon;
    var evs' := evs[id := e];
    PlainIsNotCommon(e.timeout, |lists|);
    forall j: nat ensures QueueOk(evs', lists, j) {
      assert QueueOk(evs, lists, j);
      if j < |lists| {
        assert id !in lists[j];
        SortedFrame(evs, evs', lists[j]);
      }
    }
    forall x ensures HeapOk(evs', heap + {id}, x) && Found(evs', lists, heap + {id}, x) {
      assert HeapOk(evs, heap, x) && Found(evs, lists, heap, x);
    }
  }

  // ----- drivers -----

  /** Taking a timer out leaves every queue driven whose driver it is not. */
  lemma RemoveDriven(evs: Evs, lists: seq<seq<Id>>, heap: set<Id>, id: Id, away: set<Id>)
    requires Placed(evs, lists, heap) && Driven(evs, lists, heap, away) && Of(evs, id).timed
    ensures var e := Of(evs, id);
            var evs' := evs[id := e.(timed := false)];
            if IsCommon(e.timeout, |lists|) then
              Index(e.timeout) < |lists|
              && Driven(evs', lists[Index(e.timeout) := Removed(lists[Index(e.timeout)], id)], heap, away)
            else Driven(evs', lists, heap - {id}, away + {id})
  {
    hide Time, Plain, Normal, Tag, Index, Sorted, TagOf, Removed, Member;
    var e := Of(evs, id);
    var evs' := evs[id := e.(timed := false)];
    assert Found(evs, lists, heap, id);
    RemoveKeeps(evs, lists, heap, id);
    if IsCommon(e.timeout, |lists|) {
      var i := Index(e.timeout);
      assert QueueOk(evs, lists, i);
      RemovedSorted(evs, lists[i], id);
    }
    forall i | 0 <= i < |lists| && Driver(i) !in away && lists[i] != []
      ensures Driver(i) in heap && Due(evs, Driver(i)) <= Due(evs, lists[i][0])
    {
      assert DrivenBy(evs, lists, heap, i);
    }
  }

  /** A change that leaves all times as they are leaves the queues driven. */
  lemma IdleDriven(evs: Evs, lists: seq<seq<Id>>, heap: set<Id>, id: Id, e: Ev, away: set<Id>)
    requires Placed(evs, lists, heap) && Driven(evs, lists, heap, away)
    requires e.timed == Of(evs, id).timed && (e.timed ==> e.timeout == Of(evs, id).timeout)
    ensures Driven(evs[id := e], lists, heap, away)
  {
    hide Time, Plain, Normal, Tag, Index, Sorted, TagOf, IsCommon;
    forall i | 0 <= i < |lists| && Driver(i) !in away && lists[i] != []
      ensures DrivenBy(evs[id := e], lists, heap, i)
    {
      assert DrivenBy(evs, lists, heap, i) && HeapOk(evs, heap, Driver(i)) && QueueOk(evs, lists, i);
      assert lists[i][0] in lists[i];
    }
  }

  lemma ListInsertDriven(evs: Evs, lists: seq<seq<Id>>, heap: set<Id>, id: Id, e: Ev, q: nat, p: nat, away: set<Id>)
    requires Placed(evs, lists, heap) && Driven(evs, lists, heap, away) && !Of(evs, id).timed && id.User?
    requires q < |lists| && Member(e, q) && Fits(evs, lists[q], p, Time(e.timeout))
    ensures Driven(evs[id := e], lists[q := lists[q][..p] + [id] + lists[q][p..]], heap,
                   if p == 0 then away + {Driver(q)} else away)
  {
    hide Time, Plain, Normal, Tag, Index, Sorted, TagOf, IsCommon;
    var lists' := lists[q := lists[q][..p] + [id] + lists[q][p..]];
    forall i | 0 <= i < |lists| && Driver(i) !in away && lists'[i] != [] && (i != q || p != 0)
      ensures DrivenBy(evs[id := e], lists', heap, i)
    {
      assert DrivenBy(evs, lists, heap, i) && HeapOk(evs, heap, Driver(i)) && QueueOk(evs, lists, i);
      assert lists[i][0] in lists[i] && lists'[i][0] == lists[i][0];
    }
  }

  lemma HeapInsertDriven(evs: Evs, lists: seq<seq<Id>>, heap: set<Id>, id: Id, e: Ev, away: set<Id>)
    requires Placed(evs, lists, heap) && Driven(evs, lists, heap, away)
    requires !Of(evs, id).timed && e.timed && Plain(e.timeout)
    requires id.Driver? ==> id.i < |lists| && lists[id.i] != [] && Time(e.timeout) <= Due(evs, lists[id.i][0])
    ensures Driven(evs[id := e], lists, heap + {id}, away - {id})
  {
    hide Time, Plain, Normal, Tag, Index, Sorted, TagOf, IsCommon;
    forall i | 0 <= i < |lists| && Driver(i) !in away - {id} && lists[i] != []
      ensures DrivenBy(evs[id := e], lists, heap + {id}, i)
    {
      assert QueueOk(evs, lists, i) && lists[i][0] in lists[i];
      if Driver(i) != id { assert DrivenBy(evs, lists, heap, i) && HeapOk(evs, heap, Driver(i)); }
    }
  }

  ghost predicate ActiveOk(evs: Evs, active: seq<Id>)
  {
    && (forall id :: Of(evs, id).active <==> id in active)
    && forall j, k :: 0 <= j < k < |active| ==> active[j] != active[k]
  }

  lemma ActiveFrame(evs: Evs, active: seq<Id>, id: Id, e: Ev)
    requires ActiveOk(evs, active) && e.active == Of(evs, id).active
    ensures ActiveOk(evs[id := e], active)
  {
  }

  lemma ActiveRemove(evs: Evs, active: seq<Id>, id: Id)
    requires ActiveOk(evs, active) && Of(evs, id).active
    ensures ActiveOk(evs[id := Of(evs, id).(active := false)], Removed(active, id))
    ensures forall x :: x in Removed(active, id) <==> x in active && x != id
  {
    RemovedFacts(active, id);
  }

  lemma ActiveInsert(evs: Evs, active: seq<Id>, id: Id, e: Ev)
    requires ActiveOk(evs, active) && !Of(evs, id).active && e.active
    ensures ActiveOk(evs[id := e], active + [id])
  {
  }

  lemma AwayGrows(evs: Evs, lists: seq<seq<Id>>, heap: set<Id>, away: set<Id>, away': set<Id>)
    requires Driven(evs, lists, heap, away)
    requires forall i :: 0 <= i < |lists| && Driver(i) in away ==> Driver(i) in away'
    ensures Driven(evs, lists, heap, away')
  {
    hide DrivenBy;
  }

  class TimerBase {
    var evs: Evs
    var lists: seq<seq<Id>>
    var heap: set<Id>
    var active: seq<Id>
    var running: Option<Id>
    var eventTv: Timeval
    var durations: seq<Timeval>

    /** Events whose callback is about to run, or runs. */
    ghost function Away(): set<Id>
      reads this`active, this`running
    {
      (set id | id in active) + (if running.Some? then {running.value} else {})
    }

    /** A driver that is in `late` may be missing. */
    ghost predicate NearlyValid(late: set<Id>)
      reads this
    {
      Placed(evs, lists, heap) && Driven(evs, lists, heap, Away() + late) && ActiveOk(evs, active) && Plain(eventTv)
    }

    ghost predicate Valid()
      reads this
    {
      NearlyValid({})
    }

    constructor (now: Timeval)
      requires Plain(now)
      ensures Valid() && Offered() && lists == [] && running.None? && (forall id :: Of(evs, id) == Of(map[], id))
    {
      evs, lists, heap, active, running, eventTv, durations := map[], [], {}, [], None, now, [];
    }

    /** The common timeouts are tagged with their queues' numbers, and no two are the same. */
    ghost predicate Offered()
      reads this
    {
      && |durations| == |lists|
      && (forall i :: 0 <= i < |durations| ==> Tag(durations[i]) == TagOf(i) && Micro(durations[i]) <= MILLION)
      && forall i, j :: 0 <= i < j < |durations| ==> Masked(durations[i]) != Masked(durations[j])
    }

    /** event_base_init_common_timeout: the tagged time to use for `duration`; each
        duration gets one queue. */
    method InitCommonTimeout(duration: Timeval) returns (result: Option<Timeval>)
      requires Valid() && Offered()
      modifies this`lists, this`durations
      ensures Valid() && Offered() && |old(lists)| <= |lists| && lists[..|old(lists)|] == old(lists)
      ensures result.None? ==> |lists| == 256 && lists == old(lists)
      ensures result.Some? ==>
                && IsCommon(result.value, |lists|) && Micro(result.value) <= MILLION
                && durations[Index(result.value)] == result.value
                && Time(result.value) ==
                   duration.sec * MILLION + if IsCommon(duration, |old(lists)|) then Micro(duration) else duration.usec
      ensures |lists| <= |old(lists)| + 1 && (|lists| > |old(lists)| ==> lists[|old(lists)|] == [])
    {
      hide Placed, Driven, ActiveOk, Plain;
      var tv := duration;
      if tv.usec > MILLION {
        if IsCommon(tv, |lists|) { tv := Masked(tv); }
        tv := Timeval(tv.sec + tv.usec / MILLION, tv.usec % MILLION);
      }
      DurationTime(duration, tv, |lists|);
      for i := 0 to |durations|
        invariant forall j :: 0 <= j < i ==> Masked(durations[j]) != tv
      {
        if tv.sec == durations[i].sec && tv.usec == Micro(durations[i]) {
          TagNames(durations[i], i, |lists|, {});
          return Some(durations[i]);
        }
        assert Masked(durations[i]) != tv;
      }
      Shape({});
      if |lists| == 256 { return None; }
      var tagged := Tagged(tv, TagOf(|lists|));
      TagKeeps(tv, |lists|);
      assert Masked(tagged) == tv;
      GrowKeeps(evs, lists, heap);
      GrowDriven(evs, lists, heap, Away() + {});
      durations := durations + [tagged];
      lists := lists + [[]];
      result := Some(tagged);
    }

    lemma TagNames(tv: Timeval, i: nat, n: nat, late: set<Id>)
      requires NearlyValid(late) && Tag(tv) == TagOf(i) && i < n == |lists|
      ensures IsCommon(tv, n) && Index(tv) == i
    {
      TagTells(tv, i, n);
    }

    // ----- the queues of an event -----

    /** event_queue_remove(EVLIST_TIMEOUT) */
    method RemoveTimed(id: Id, ghost late: set<Id>)
      requires NearlyValid(late) && Of(evs, id).timed
      modifies this`evs, this`lists, this`heap
      ensures NearlyValid(late + {id}) && evs == old(evs)[id := Of(old(evs), id).(timed := false)]
      ensures |lists| == |old(lists)|
      ensures id.User? ==> NearlyValid(late)
      ensures forall i :: 0 <= i < |lists| ==>
                lists[i] == if id in old(lists[i]) then Removed(old(lists[i]), id) else old(lists[i])
      ensures heap == old(heap) - {id}
    {
      hide Placed, Driven, ActiveOk, Plain, Normal, Tag, Index, Time, Removed;
      RemoveKeeps(evs, lists, heap, id);
      RemoveDriven(evs, lists, heap, id, Away() + late);
      ActiveFrame(evs, active, id, Of(evs, id).(timed := false));
      OnlyThere(evs, lists, heap, id);
      var e := Of(evs, id);
      if IsCommon(e.timeout, |lists|) {
        lists := lists[Index(e.timeout) := Removed(lists[Index(e.timeout)], id)];
      } else {
        heap := heap - {id};
      }
      evs := evs[id := e.(timed := false)];
      ghost var away := Away() + late + (if IsCommon(e.timeout, |lists|) then {} else {id});
      assert Away() + late + {} == Away() + late;
      AwayGrows(evs, lists, heap, away, Away() + (late + {id}));
      if id.User? { AwayGrows(evs, lists, heap, away, Away() + late); }
    }

    /** insert_common_timeout_inorder: search from the end for the place of `tv`. */
    method InsertionPoint(q: nat, tv: Timeval) returns (p: nat)
      requires Placed(evs, lists, heap) && q < |lists| && Normal(tv) && Tag(tv) == TagOf(q)
      ensures Fits(evs, lists[q], p, Time(tv))
    {
      hide Sorted, Normal, Tag, TagOf, Time, NotBefore;
      assert QueueOk(evs, lists, q);
      var l := lists[q];
      p := |l|;
      while p > 0 && !NotBefore(tv, Of(evs, l[p - 1]).timeout)
        invariant p <= |l| && (p < |l| ==> Time(tv) < Due(evs, l[p]))
      {
        SameTagCompares(tv, Of(evs, l[p - 1]).timeout);
        p := p - 1;
      }
      if p > 0 { SameTagCompares(tv, Of(evs, l[p - 1]).timeout); }
    }

    /** event_queue_insert(EVLIST_TIMEOUT) of an event with timeout `tv`. */
    method InsertTimed(id: Id, tv: Timeval, ghost late: set<Id>)
      requires NearlyValid(late) && !Of(evs, id).timed
      requires Plain(tv) || (id.User? && IsCommon(tv, |lists|) && Normal(tv))
      requires id.Driver? ==> id.i < |lists| && lists[id.i] != [] && Time(tv) <= Due(evs, lists[id.i][0])
      modifies this`evs, this`lists, this`heap
      ensures |lists| == |old(lists)| && evs == old(evs)[id := Of(old(evs), id).(timed := true, timeout := tv)]
      ensures IsCommon(tv, |lists|) ==>
                lists[Index(tv)] != []
                && NearlyValid(late + if lists[Index(tv)][0] == id then {Driver(Index(tv))} else {})
      ensures !IsCommon(tv, |lists|) ==> NearlyValid(late - {id}) && lists == old(lists)
    {
      hide Placed, Driven, ActiveOk, Plain, Normal, Tag, Time, TagOf, Fits;
      var e := Of(evs, id).(timed := true, timeout := tv);
      if Plain(tv) { PlainIsNotCommon(tv, |lists|); }
      ActiveFrame(evs, active, id, e);
      if IsCommon(tv, |lists|) {
        var q := Index(tv);
        CommonTag(tv, |lists|);
        var p := InsertionPoint(q, tv);
        ListInsertKeeps(evs, lists, heap, id, e, q, p);
        ListInsertDriven(evs, lists, heap, id, e, q, p, Away() + late);
        Nowhere(evs, lists, heap, id);
        FitsBound(evs, lists[q], p, Time(tv));
        var l := lists[q][..p] + [id] + lists[q][p..];
        assert l[p] == id && (p > 0 ==> l[0] == lists[q][0]);
        lists := lists[q := l];
        evs := evs[id := e];
        AwayGrows(evs, lists, heap, if p == 0 then Away() + late + {Driver(q)} else Away() + late,
                  Away() + (late + if p == 0 then {Driver(q)} else {}));
      } else {
        HeapInsertKeeps(evs, lists, heap, id, e);
        HeapInsertDriven(evs, lists, heap, id, e, Away() + late);
        heap := heap + {id};
        evs := evs[id := e];
        AwayGrows(evs, lists, heap, Away() + late - {id}, Away() + (late - {id}));
      }
    }

    /** event_queue_remove(EVLIST_ACTIVE) */
    method RemoveActive(id: Id, ghost late: set<Id>)
      requires NearlyValid(late) && Of(evs, id).active
      modifies this`evs, this`active
      ensures NearlyValid(late + {id}) && evs == old(evs)[id := Of(old(evs), id).(active := false)]
      ensures id.User? ==> NearlyValid(late)
      ensures active == Removed(old(active), id)
    {
      hide Placed, Driven, ActiveOk, Plain, Removed;
      var e := Of(evs, id).(active := false);
      IdleKeeps(evs, lists, heap, id, e);
      IdleDriven(evs, lists, heap, id, e, Away() + late);
      ActiveRemove(evs, active, id);
      ghost var away := Away() + late;
      active := Removed(active, id);
      evs := evs[id := e];
      AwayGrows(evs, lists, heap, away, Away() + (late + {id}));
      if id.User? { AwayGrows(evs, lists, heap, away, Away() + late); }
    }

    /** event_add_internal, as far as timers go: `tv` after `now`, or at `tv` when that is
        absolute; the first event of a queue reschedules its driver. */
    method AddInternal(id: Id, tv: Timeval, absolute: bool, now: Timeval, ghost late: set<Id>)
      requires NearlyValid(late) && Plain(now) && late == if id.Driver? then {id} else {}
      requires Plain(tv) || (id.User? && IsCommon(tv, |lists|) && Micro(tv) <= MILLION && (absolute ==> Normal(tv)))
      requires id.Driver? ==>
                 absolute && id.i < |lists| && lists[id.i] != [] && Time(tv) <= Due(evs, lists[id.i][0])
      modifies this`evs, this`lists, this`heap, this`active
      ensures Valid() && |lists| == |old(lists)|
      ensures Of(evs, id).timed && Due(evs, id) == Time(tv) + if absolute then 0 else Time(now)
      ensures forall x :: x != id && x.User? ==> Of(evs, x) == Of(old(evs), x)
      ensures Of(evs, id).active == (old(Of(evs, id)).active && !old(Of(evs, id)).Expired())
      ensures id.Driver? ==> lists == old(lists)
      decreases if id.User? then 1 else 0
    {
      hide TimerBase.NearlyValid, Plain, Normal, Tag, TagOf, Index, IsCommon, Removed, TimeAdd, Time, Masked, Tagged;
      Shape(late);
      Withdraw(id, late);
      TimesAdded(tv, now, |lists|);
      var timeout := if absolute then tv
        else if IsCommon(tv, |lists|) then Tagged(TimeAdd(now, Masked(tv)), Tag(tv))
        else TimeAdd(now, tv);
      InsertTimed(id, timeout, late);
      assert late + {} == late && late - {id} == {};
      if IsCommon(tv, |lists|) {
        var q := Index(timeout);
        assert lists[q][0] == id ==> late + {Driver(q)} == {Driver(q)};
        if lists[q][0] == id {
          HeadFacts(q, {Driver(q)});
          AddInternal(Driver(q), Masked(timeout), true, now, {Driver(q)});
        }
      }
    }

    /** Take an event out of where it waits for its timeout, or out of the active queue
        when it got there by timing out. */
    method Withdraw(id: Id, ghost late: set<Id>)
      requires NearlyValid(late) && late == if id.Driver? then {id} else {}
      modifies this`evs, this`lists, this`heap, this`active
      ensures NearlyValid(late) && |lists| == |old(lists)|
      ensures id.Driver? ==> lists == old(lists)
      ensures !Of(evs, id).timed && Of(evs, id).timeout == old(Of(evs, id)).timeout
      ensures Of(evs, id).active == (old(Of(evs, id)).active && !old(Of(evs, id)).Expired())
      ensures forall x :: x != id ==> Of(evs, x) == Of(old(evs), x)
    {
      hide TimerBase.NearlyValid, Removed;
      assert id.Driver? ==> late + {id} == late;
      Shape(late);
      if Of(evs, id).timed { RemoveTimed(id, late); }
      if Of(evs, id).active && Of(evs, id).Expired() { RemoveActive(id, late); }
    }

    lemma Shape(late: set<Id>)
      requires NearlyValid(late)
      ensures |lists| <= 256
      ensures forall i, k :: 0 <= i < |lists| && 0 <= k < |lists[i]| ==> lists[i][k].User?
    {
      forall i: nat, k | i < |lists| && 0 <= k < |lists[i]| ensures lists[i][k].User? {
        assert QueueOk(evs, lists, i) && lists[i][k] in lists[i];
      }
    }

    lemma HeadFacts(q: nat, late: set<Id>)
      requires NearlyValid(late) && q < |lists| && lists[q] != []
      ensures var tv := Of(evs, lists[q][0]).timeout; Plain(Masked(tv)) && Time(Masked(tv)) == Time(tv)
    {
      assert QueueOk(evs, lists, q) && lists[q][0] in lists[q];
      TagKeeps(Of(evs, lists[q][0]).timeout, q);
    }

    /** event_del_internal */
    method DelInternal(id: Id, ghost late: set<Id>)
      requires NearlyValid(late)
      modifies this`evs, this`lists, this`heap, this`active
      ensures NearlyValid(late + {id}) && (id.User? ==> NearlyValid(late))
      ensures !Of(evs, id).timed && !Of(evs, id).active && Of(evs, id).timeout == old(Of(evs, id)).timeout
      ensures forall x :: x != id ==> Of(evs, x) == Of(old(evs), x)
      ensures heap == old(heap) - {id} && |lists| == |old(lists)|
      ensures forall i :: 0 <= i < |lists| ==>
                lists[i] == if id in old(lists[i]) then Removed(old(lists[i]), id) else old(lists[i])
    {
      hide TimerBase.NearlyValid, Removed;
      assert late + {id} + {id} == late + {id};
      Absent(id, late);
      Wider(late, {id});
      if Of(evs, id).timed { RemoveTimed(id, late); }
      if Of(evs, id).active {
        if id.User? { RemoveActive(id, late); Wider(late, {id}); } else { RemoveActive(id, late + {id}); }
      }
    }

    lemma Wider(late: set<Id>, more: set<Id>)
      requires NearlyValid(late)
      ensures NearlyValid(late + more)
    {
      hide Placed, ActiveOk;
      AwayGrows(evs, lists, heap, Away() + late, Away() + (late + more));
    }

    lemma Absent(id: Id, late: set<Id>)
      requires NearlyValid(late)
      ensures !Of(evs, id).timed ==> id !in heap && forall i :: 0 <= i < |lists| ==> id !in lists[i]
    {
      hide Placed;
      if !Of(evs, id).timed { Nowhere(evs, lists, heap, id); }
    }

    /** event_active_nolock */
    method ActiveNolock(id: Id, reasons: set<Reason>, ghost late: set<Id>)
      requires NearlyValid(late) && (id in late ==> id.Driver?)
      modifies this`evs, this`active
      ensures NearlyValid(late - {id}) && Of(evs, id).active
      ensures forall x :: x != id ==> Of(evs, x) == Of(old(evs), x)
      ensures Of(evs, id).timed == old(Of(evs, id)).timed && Of(evs, id).timeout == old(Of(evs, id)).timeout
      ensures Of(evs, id).res == if old(Of(evs, id)).active then old(Of(evs, id)).res + reasons else reasons
    {
      hide Placed, Driven, ActiveOk, Plain;
      var was := Of(evs, id);
      var e := was.(active := true, res := if was.active then was.res + reasons else reasons);
      IdleKeeps(evs, lists, heap, id, e);
      IdleDriven(evs, lists, heap, id, e, Away() + late);
      ghost var away := Away() + late;
      if was.active {
        ActiveFrame(evs, active, id, e);
        ActiveThere(evs, active, id);
      } else {
        ActiveInsert(evs, active, id, e);
        active := active + [id];
      }
      evs := evs[id := e];
      AwayGrows(evs, lists, heap, away, Away() + (late - {id}));
    }

    // ----- time -----

    /** timeout_process: activate all that is due in the heap. */
    method TimeoutProcess(now: Timeval)
      requires Valid() && Plain(now)
      modifies this`evs, this`lists, this`heap, this`active
      ensures Valid() && lists == old(lists)
      ensures forall id :: id in heap <==> id in old(heap) && old(Due(evs, id)) > Time(now)
      ensures forall id :: id in heap ==> Due(evs, id) > Time(now)
      ensures forall id :: id in old(heap) && id !in heap ==> Of(evs, id).active && Of(evs, id).Expired() && !Of(evs, id).timed
      ensures forall id :: id !in old(heap) || id in heap ==> Of(evs, id) == Of(old(evs), id)
    {
      hide TimerBase.NearlyValid, NotBefore, Time, Plain;
      while heap != {}
        invariant Valid() && lists == old(lists) && heap <= old(heap)
        invariant forall id :: id in old(heap) && id !in heap ==>
                    Of(evs, id).active && Of(evs, id).Expired() && !Of(evs, id).timed && old(Due(evs, id)) <= Time(now)
        invariant forall id :: id !in old(heap) || id in heap ==> Of(evs, id) == Of(old(evs), id)
        decreases heap
      {
        var ev := Top();
        assert Due(evs, ev) == old(Due(evs, ev));
        HeapPlain({});
        PlainCompares(Of(evs, ev).timeout, now);
        if !NotBefore(now, Of(evs, ev).timeout) {
          forall id | id in heap ensures Due(evs, id) > Time(now) { }
          break;
        }
        Fire(ev);
      }
    }

    lemma HeapPlain(late: set<Id>)
      requires NearlyValid(late)
      ensures forall id :: id in heap ==> Plain(Of(evs, id).timeout)
    {
      assert forall id :: id in heap ==> HeapOk(evs, heap, id);
    }

    /** min_heap_top: an element with the least timeout. */
    method Top() returns (ev: Id)
      requires heap != {}
      ensures ev in heap && forall id :: id in heap ==> Due(evs, ev) <= Due(evs, id)
    {
      LeastExists(evs, heap);
      ev :| ev in heap && forall id :: id in heap ==> Due(evs, ev) <= Due(evs, id);
    }

    /** Take an event that timed out from the heap to the active queue. */
    method Fire(ev: Id)
      requires Valid() && ev in heap
      modifies this`evs, this`lists, this`heap, this`active
      ensures Valid() && lists == old(lists) && heap == old(heap) - {ev}
      ensures Of(evs, ev).active && Of(evs, ev).Expired() && !Of(evs, ev).timed
      ensures forall id :: id != ev ==> Of(evs, id) == Of(old(evs), id)
    {
      hide TimerBase.NearlyValid, Removed;
      NotListed(ev);
      DelInternal(ev, {});
      assert {} + {ev} == {ev} && {ev} - {ev} == {} && {} - {ev} == {};
      ActiveNolock(ev, {TimedOut}, if ev.User? then {} else {ev});
    }

    lemma NotListed(ev: Id)
      requires Valid() && ev in heap
      ensures forall i :: 0 <= i < |lists| ==> ev !in lists[i]
    {
      hide Placed;
      HeapTimed(ev);
      OnlyThere(evs, lists, heap, ev);
    }

    lemma HeapTimed(ev: Id)
      requires Valid() && ev in heap
      ensures Of(evs, ev).timed
    {
      assert HeapOk(evs, heap, ev);
    }

    // ----- running callbacks -----

    /** Take the next event off the active queue to run its callback. */
    method Dequeue(persist: bool)
      requires Valid() && running.None? && active != [] && (persist ==> active[0].User?)
      modifies this`evs, this`lists, this`heap, this`active, this`running
      ensures Valid() && running == Some(old(active[0])) && |lists| == |old(lists)|
      ensures !Of(evs, running.value).active
      ensures forall x :: x != running.value ==> Of(evs, x) == Of(old(evs), x)
    {
      hide Placed, Driven, ActiveOk, Plain, Removed;
      var ev := active[0];
      FirstActive(evs, active);
      if persist { RemoveActive(ev, {}); } else { DelInternal(ev, {}); }
      ghost var away := Away() + ({} + {ev});
      ghost var d := Driven(evs, lists, heap, away);
      if ev.User? { AwayGrows(evs, lists, heap, Away() + {}, away); }
      running := Some(ev);
      AwayGrows(evs, lists, heap, away, Away() + {});
    }

    /** The callback that runs comes to its end. */
    method EndCallback(ghost late: set<Id>)
      requires NearlyValid(late) && running.Some?
      modifies this`running
      ensures running.None? && NearlyValid(late + {old(running).value}) && (old(running).value.User? ==> NearlyValid(late))
    {
      hide Placed, ActiveOk, Plain;
      ghost var ev, away := running.value, Away() + late;
      running := None;
      AwayGrows(evs, lists, heap, away, Away() + (late + {ev}));
      if ev.User? { AwayGrows(evs, lists, heap, away, Away() + late); }
    }

    lemma QueueFacts(q: nat, late: set<Id>)
      requires NearlyValid(late) && q < |lists|
      ensures forall j, k :: 0 <= j < k < |lists[q]| ==> lists[q][j] != lists[q][k]
      ensures forall j :: 0 <= j < |lists[q]| ==> lists[q][j].User? && Normal(Of(evs, lists[q][j]).timeout)
    {
      assert QueueOk(evs, lists, q);
      forall j | 0 <= j < |lists[q]| ensures lists[q][j].User? && Normal(Of(evs, lists[q][j]).timeout) {
        assert lists[q][j] in lists[q];
      }
    }

    /** common_timeout_callback: activate what is due in the queue, and schedule the
        driver for what is left. */
    method CommonTimeoutCallback(now: Timeval)
      requires Valid() && Plain(now) && running.Some? && running.value.Driver? && running.value.i < |lists|
      modifies this`evs, this`lists, this`heap, this`active, this`running
      ensures Valid() && running.None? && |lists| == |old(lists)|
      ensures var q := old(running).value.i;
              exists k :: 0 <= k <= |old(lists[q])| && lists[q] == old(lists[q])[k..]
                && (k < |old(lists[q])| ==> old(Due(evs, lists[q][k])) > Time(now))
                && (forall j :: 0 <= j < k ==>
                      var id := old(lists[q])[j];
                      old(Due(evs, id)) <= Time(now) && Of(evs, id).active && Of(evs, id).Expired() && !Of(evs, id).timed)
                && forall id: Id :: id.User? && id !in old(lists[q])[..k] ==> Of(evs, id) == Of(old(evs), id)
    {
      hide TimerBase.NearlyValid, Plain, Time, Masked, Removed;
      var q := running.value.i;
      ghost var l0, k := lists[q], 0;
      QueueFacts(q, {});
      while lists[q] != [] && !Later(Of(evs, lists[q][0]).timeout, now)
        invariant NearlyValid({}) && running == old(running) && |lists| == |old(lists)|
        invariant k <= |l0| && lists[q] == l0[k..]
        invariant forall j :: 0 <= j < k ==>
                    old(Due(evs, l0[j])) <= Time(now) && Of(evs, l0[j]).active && Of(evs, l0[j]).Expired() && !Of(evs, l0[j]).timed
        invariant forall id: Id :: id.User? && id !in l0[..k] ==> Of(evs, id) == Of(old(evs), id)
        decreases |l0| - k
      {
        var ev := lists[q][0];
        Shape({});
        LaterTells(Of(evs, ev).timeout, now);
        QueueFacts(q, {});
        assert ev == l0[k] && l0[..k + 1] == l0[..k] + [ev] && ev !in l0[..k];
        DelInternal(ev, {});
        assert Removed(l0[k..], ev) == l0[k + 1..] by { RemovedFirst(l0[k..]); }
        ActiveNolock(ev, {TimedOut}, {});
        assert {} - {ev} == {};
        k := k + 1;
      }
      EndCallback({});
      assert {} + {Driver(q)} == {Driver(q)};
      if lists[q] != [] {
        var head := lists[q][0];
        LaterTells(Of(evs, head).timeout, now);
        QueueFacts(q, {Driver(q)});
        HeadFacts(q, {Driver(q)});
        AddInternal(Driver(q), Masked(Of(evs, head).timeout), true, now, {Driver(q)});
      } else {
        NoDriverNeeded(q);
      }
    }

    lemma NoDriverNeeded(q: nat)
      requires NearlyValid({Driver(q)}) && q < |lists| && lists[q] == []
      ensures Valid()
    {
      forall i | 0 <= i < |lists| ensures Driver(i) in Away() || DrivenBy(evs, lists, heap, i) {
        assert i != q ==> Driver(i) in Away() + {Driver(q)} ==> Driver(i) in Away();
      }
    }

    // ----- a clock that runs backwards -----

    /** timeout_correct: when the clock went back, so do all deadlines. */
    method TimeoutCorrect(now: Timeval, useMonotonic: bool)
      requires Valid() && Plain(now)
      modifies this`evs, this`eventTv
      ensures Valid()
      ensures var back := if useMonotonic || Time(now) >= Time(old(eventTv)) then 0 else Time(old(eventTv)) - Time(now);
              && (forall id :: Of(evs, id).timed ==> Due(evs, id) == old(Due(evs, id)) - back)
              && (forall id :: !Of(evs, id).timed ==> Of(evs, id) == Of(old(evs), id))
              && (forall id :: Of(evs, id).(timeout := Of(old(evs), id).timeout) == Of(old(evs), id))
      ensures eventTv == if useMonotonic then old(eventTv) else now
    {
      hide Placed, Driven, ActiveOk, Time, Due, NotBefore, TimeSub;
      if useMonotonic { return; }
      PlainCompares(eventTv, now);
      if NotBefore(now, eventTv) {
        eventTv := now;
        return;
      }
      TimePlain(eventTv, now);
      var off := TimeSub(eventTv, now);
      ghost var evs0 := evs;
      ShiftAll(off);
      ShiftKeeps(evs0, evs, lists, heap, off, Away() + {});
      ShiftActive(evs0, evs, active, off);
      eventTv := now;
    }

    /** Move every pending deadline back by `off`, in the heap and then queue by queue. */
    method ShiftAll(off: Timeval)
      requires Placed(evs, lists, heap) && Plain(off)
      modifies this`evs
      ensures ShiftedBy(old(evs), evs, off)
    {
      hide Placed, Plain, Normal, Tag, Index, IsCommon, TimeSub, Masked, Tagged, TagOf;
      ghost var evs0, n := evs, |lists|;
      var todo := heap;
      AllNormal(evs, lists, heap);
      while todo != {}
        invariant todo <= heap
        invariant forall id :: Of(evs, id) == if id in heap && id !in todo then Shift(Of(evs0, id), off) else Of(evs0, id)
        decreases todo
      {
        var id :| id in todo;
        var e := Of(evs, id);
        evs := evs[id := e.(timeout := TimeSub(e.timeout, off))];
        todo := todo - {id};
      }
      ghost var done := heap;
      for i := 0 to |lists|
        invariant forall id :: id in done <==> InReach(evs0, n, i, [], id)
        invariant forall id :: Of(evs, id) == if id in done then Shift(Of(evs0, id), off) else Of(evs0, id)
      {
        var l := lists[i];
        QueueReach(evs0, lists, heap, i);
        for k := 0 to |l|
          invariant forall id :: id in done <==> InReach(evs0, n, i, l[..k], id)
          invariant forall id :: Of(evs, id) == if id in done then Shift(Of(evs0, id), off) else Of(evs0, id)
        {
          var e := Of(evs, l[k]);
          assert l[..k + 1] == l[..k] + [l[k]] && l[k] !in l[..k];
          assert e == Of(evs0, l[k]);
          evs := evs[l[k] := e.(timeout := Tagged(TimeSub(Masked(e.timeout), off), TagOf(i)))];
          done := done + {l[k]};
        }
        assert l[..|l|] == l;
      }
      assert forall id :: id in done <==> Of(evs0, id).timed;
    }

    /** The rescheduling in event_persist_closure: an interval after the last deadline when
        the event timed out, else after now, and never in the past. */
    method PersistClosure(id: Id, ioTimeout: Timeval, now: Timeval)
      requires Valid() && Plain(now) && id.User?
      requires var tv := Of(evs, id).timeout;
               Tag(tv) == Tag(ioTimeout) && Normal(tv) && Micro(ioTimeout) <= MILLION
               && (ioTimeout.usec <= MILLION || IsCommon(ioTimeout, |lists|))
      modifies this`evs, this`lists, this`heap, this`active
      ensures Valid() && |lists| == |old(lists)|
      ensures Of(evs, id).timed
      ensures var next := (if old(Of(evs, id)).Expired() then old(Due(evs, id)) else Time(now)) + Time(ioTimeout);
              Due(evs, id) == if next < Time(now) then Time(now) + Time(ioTimeout) else next
      ensures forall x :: x != id && x.User? ==> Of(evs, x) == Of(old(evs), x)
    {
      hide TimerBase.NearlyValid, TagOf, Index, TimeAdd, Tagged, NotBefore;
      Shape({});
      var e := Of(evs, id);
      var delay := Masked(ioTimeout);
      var relativeTo := if e.Expired() then Masked(e.timeout) else now;
      PersistTimes(e.timeout, ioTimeout, now, |lists|);
      var runAt := TimeAdd(relativeTo, delay);
      PlainCompares(now, runAt);
      if !NotBefore(runAt, now) {
        runAt := TimeAdd(now, delay);
      }
      PersistTag(runAt, ioTimeout, |lists|);
      AddInternal(id, Tagged(runAt, Tag(ioTimeout)), true, now, {});
    }

    // ----- what is never lost -----

    /** As long as no driver is being run, the loop sleeps no longer than the heap's
        first timer allows, and that is not after any pending event's deadline. */
    lemma WakesInTime(id: Id)
      requires Valid() && Of(evs, id).timed
      ensures var tv := Of(evs, id).timeout;
              || (IsCommon(tv, |lists|) && Driver(Index(tv)) in Away())
              || exists x :: x in heap && Due(evs, x) <= Due(evs, id)
    {
      hide Time, Plain, Normal, Tag, TagOf, Member;
      var tv := Of(evs, id).timeout;
      assert Found(evs, lists, heap, id);
      if IsCommon(tv, |lists|) {
        var q := Index(tv);
        assert QueueOk(evs, lists, q) && id in lists[q];
        assert Driver(q) in Away() + {} || DrivenBy(evs, lists, heap, q);
        var k :| 0 <= k < |lists[q]| && lists[q][k] == id;
        if k > 0 { assert Due(evs, lists[q][0]) <= Due(evs, lists[q][k]); }
        assert Driver(q) in heap ==> Due(evs, Driver(q)) <= Due(evs, id) || Driver(q) in Away();
      }
    }

    /** Once the heap has been processed, an event of a queue that is due has its queue's
        driver on the way. */
    lemma DueIsServed(id: Id, now: Timeval)
      requires Valid() && Of(evs, id).timed && Due(evs, id) <= Time(now)
      requires forall x :: x in heap ==> Due(evs, x) > Time(now)
      ensures IsCommon(Of(evs, id).timeout, |lists|) && Driver(Index(Of(evs, id).timeout)) in Away()
    {
      hide TimerBase.NearlyValid, Time, IsCommon, Index;
      WakesInTime(id);
    }
  }

  /** The event as timeout_correct leaves it when it is pending. */
  function Shift(e: Ev, off: Timeval): Ev
  {
    if !Plain(off) || !Normal(e.timeout) then e
    else if Plain(e.timeout) then e.(timeout := TimeSub(e.timeout, off))
    else e.(timeout := Tagged(TimeSub(Masked(e.timeout), off), Tag(e.timeout)))
  }

  ghost predicate ShiftedBy(evs: Evs, evs': Evs, off: Timeval)
  {
    forall id :: Of(evs', id) == if Of(evs, id).timed then Shift(Of(evs, id), off) else Of(evs, id)
  }

  /** A pending timer of the heap, of a queue before `i`, or among `l` of queue `i`. */
  predicate InReach(evs: Evs, n: nat, i: nat, l: seq<Id>, id: Id)
  {
    var e := Of(evs, id);
    e.timed && (!IsCommon(e.timeout, n) || Index(e.timeout) < i || (Index(e.timeout) == i && id in l))
  }

  lemma AllNormal(evs: Evs, lists: seq<seq<Id>>, heap: set<Id>)
    requires Placed(evs, lists, heap)
    ensures forall id :: id in heap ==> Plain(Of(evs, id).timeout) && Normal(Of(evs, id).timeout)
    ensures forall id :: id in heap <==> InReach(evs, |lists|, 0, [], id)
    ensures forall id :: Of(evs, id).timed && IsCommon(Of(evs, id).timeout, |lists|) ==> Index(Of(evs, id).timeout) < |lists|
  {
    hide Plain, Normal, Tag, Index, Sorted, TagOf;
    forall id
      ensures id in heap ==> Plain(Of(evs, id).timeout) && Normal(Of(evs, id).timeout)
      ensures id in heap <==> InReach(evs, |lists|, 0, [], id)
    {
      assert HeapOk(evs, heap, id) && Found(evs, lists, heap, id);
      if id in heap { PlainIsNotCommon(Of(evs, id).timeout, |lists|); }
    }
  }

  lemma QueueReach(evs: Evs, lists: seq<seq<Id>>, heap: set<Id>, i: nat)
    requires Placed(evs, lists, heap) && i < |lists|
    ensures forall j, k :: 0 <= j < k < |lists[i]| ==> lists[i][j] != lists[i][k]
    ensures forall id :: id in lists[i] ==>
              && Normal(Of(evs, id).timeout) && !Plain(Of(evs, id).timeout) && Plain(Masked(Of(evs, id).timeout))
              && Tag(Of(evs, id).timeout) == TagOf(i) && !InReach(evs, |lists|, i, [], id)
    ensures forall id :: InReach(evs, |lists|, i + 1, [], id) <==> InReach(evs, |lists|, i, lists[i], id)
    ensures forall id, l :: id in lists[i] ==> (InReach(evs, |lists|, i, l, id) <==> id in l)
    ensures forall id, l :: id !in lists[i] && id !in l ==> (InReach(evs, |lists|, i, l, id) <==> InReach(evs, |lists|, i, [], id))
  {
    hide Plain, Normal, Tag, Index, TagOf, Masked;
    assert QueueOk(evs, lists, i);
    forall id | id in lists[i]
      ensures Normal(Of(evs, id).timeout) && !Plain(Of(evs, id).timeout) && Plain(Masked(Of(evs, id).timeout))
      ensures IsCommon(Of(evs, id).timeout, |lists|) && Index(Of(evs, id).timeout) == i && Of(evs, id).timed
    {
      var tv := Of(evs, id).timeout;
      TagTells(tv, i, |lists|);
      TagKeeps(tv, i);
      if Plain(tv) { PlainIsNotCommon(tv, |lists|); }
    }
    forall id ensures InReach(evs, |lists|, i + 1, [], id) <==> InReach(evs, |lists|, i, lists[i], id) {
      assert Found(evs, lists, heap, id);
    }
  }

  lemma ShiftFacts(e: Ev, off: Timeval, n: nat)
    requires Plain(off) && Normal(e.timeout)
    requires Plain(e.timeout) || (IsCommon(e.timeout, n) && n <= 256)
    ensures var e' := Shift(e, off);
            && Time(e'.timeout) == Time(e.timeout) - Time(off) && Normal(e'.timeout)
            && Tag(e'.timeout) == Tag(e.timeout) && (Plain(e.timeout) <==> Plain(e'.timeout))
  {
    hide TimeSub;
    if Plain(e.timeout) {
      TimePlain(e.timeout, off);
    } else {
      CommonTag(e.timeout, n);
      TagKeeps(e.timeout, Index(e.timeout));
      TimePlain(Masked(e.timeout), off);
      TagKeeps(TimeSub(Masked(e.timeout), off), Index(e.timeout));
    }
  }

  lemma ShiftOne(evs: Evs, evs': Evs, lists: seq<seq<Id>>, heap: set<Id>, off: Timeval, id: Id)
    requires Placed(evs, lists, heap) && Plain(off) && ShiftedBy(evs, evs', off)
    ensures Of(evs', id).timed == Of(evs, id).timed
    ensures Of(evs, id).timed ==>
              && Due(evs', id) == Due(evs, id) - Time(off) && Normal(Of(evs', id).timeout)
              && Tag(Of(evs', id).timeout) == Tag(Of(evs, id).timeout)
              && (Plain(Of(evs, id).timeout) <==> Plain(Of(evs', id).timeout))
  {
    hide Plain, Normal, Tag, Index, TagOf, Masked, Tagged, TimeSub, Time, Sorted;
    var e := Of(evs, id);
    if e.timed {
      assert HeapOk(evs, heap, id) && Found(evs, lists, heap, id);
      if IsCommon(e.timeout, |lists|) {
        assert QueueOk(evs, lists, Index(e.timeout));
      } else {
        PlainIsNotCommon(e.timeout, |lists|);
      }
      ShiftFacts(e, off, |lists|);
    }
  }

  lemma ShiftKeeps(evs: Evs, evs': Evs, lists: seq<seq<Id>>, heap: set<Id>, off: Timeval, away: set<Id>)
    requires Placed(evs, lists, heap) && Plain(off) && ShiftedBy(evs, evs', off) && Driven(evs, lists, heap, away)
    ensures Placed(evs', lists, heap) && Driven(evs', lists, heap, away)
    ensures forall id :: Of(evs, id).timed ==> Due(evs', id) == Due(evs, id) - Time(off)
  {
    hide Plain, Normal, Tag, TagOf, Masked, Tagged, TimeSub, Time, Due, Shift, ShiftedBy, Sorted;
    forall id ensures Of(evs, id).timed ==> Due(evs', id) == Due(evs, id) - Time(off) {
      ShiftOne(evs, evs', lists, heap, off, id);
    }
    forall i: nat ensures QueueOk(evs', lists, i) {
      assert QueueOk(evs, lists, i);
      if i < |lists| {
        forall id | id in lists[i] ensures Member(Of(evs', id), i) { ShiftOne(evs, evs', lists, heap, off, id); }
        SortedShift(evs, evs', lists[i], Time(off));
      }
    }
    forall id ensures HeapOk(evs', heap, id) && Found(evs', lists, heap, id) {
      assert HeapOk(evs, heap, id) && Found(evs, lists, heap, id);
      ShiftOne(evs, evs', lists, heap, off, id);
    }
    forall i | 0 <= i < |lists| && Driver(i) !in away ensures DrivenBy(evs', lists, heap, i) {
      assert DrivenBy(evs, lists, heap, i) && HeapOk(evs, heap, Driver(i)) && QueueOk(evs, lists, i);
      if lists[i] != [] { assert lists[i][0] in lists[i]; }
    }
  }

  lemma SortedShift(evs: Evs, evs': Evs, l: seq<Id>, d: int)
    requires Sorted(evs, l) && forall id :: id in l ==> Due(evs', id) == Due(evs, id) - d
    ensures Sorted(evs', l)
  {
    hide Due;
  }

  lemma ShiftActive(evs: Evs, evs': Evs, active: seq<Id>, off: Timeval)
    requires ActiveOk(evs, active) && ShiftedBy(evs, evs', off)
    ensures ActiveOk(evs', active)
    ensures forall id :: Of(evs', id).(timeout := Of(evs, id).timeout) == Of(evs, id)
    ensures forall id :: !Of(evs, id).timed ==> Of(evs', id) == Of(evs, id)
  {
    forall id
      ensures Of(evs', id).active == Of(evs, id).active
      ensures Of(evs', id).(timeout := Of(evs, id).timeout) == Of(evs, id)
    {
    }
  }

  lemma PersistTimes(tv: Timeval, ioTimeout: Timeval, now: Timeval, n: nat)
    requires Normal(tv) && Micro(ioTimeout) <= MILLION && Plain(now) && Tag(tv) == Tag(ioTimeout) && n <= 256
    ensures Plain(Masked(tv)) && Masked(ioTimeout).usec <= MILLION && Plain(now)
    ensures Time(Masked(tv)) == Time(tv) && Time(Masked(ioTimeout)) == Time(ioTimeout)
    ensures var delay := Masked(ioTimeout);
            && Plain(TimeAdd(now, delay)) && Time(TimeAdd(now, delay)) == Time(now) + Time(ioTimeout)
            && Plain(TimeAdd(Masked(tv), delay)) && Time(TimeAdd(Masked(tv), delay)) == Time(tv) + Time(ioTimeout)
  {
    hide TimeAdd, Time;
    MaskedTime(tv);
    TagKeeps(ioTimeout, 0);
    TimePlain(now, Masked(ioTimeout));
    TimePlain(Masked(tv), Masked(ioTimeout));
  }

  lemma MaskedTime(tv: Timeval)
    requires Normal(tv)
    ensures Plain(Masked(tv)) && Time(Masked(tv)) == Time(tv)
  {
    TagKeeps(tv, 0);
  }

  lemma PersistTag(runAt: Timeval, ioTimeout: Timeval, n: nat)
    requires Plain(runAt) && n <= 256 && (ioTimeout.usec <= MILLION || IsCommon(ioTimeout, n))
    ensures var t := Tagged(runAt, Tag(ioTimeout));
            && Time(t) == Time(runAt) && Normal(t) && Micro(t) <= MILLION
            && (Plain(t) || IsCommon(t, n))
  {
    if ioTimeout.usec <= MILLION {
      assert Tag(ioTimeout) == 0;
      assert Tagged(runAt, Tag(ioTimeout)) == runAt;
    } else {
      CommonTag(ioTimeout, n);
      TagKeeps(runAt, Index(ioTimeout));
    }
  }

  // ----- runs -----

  /** What may happen to a base, with the time read from the clock where it is read. */
  datatype Op =
    | Init(duration: Timeval)
    | AddPlain(n: nat, tv: Timeval, now: Timeval)
    | AddCommon(n: nat, q: nat, now: Timeval)
    | Persist(n: nat, ioTimeout: Timeval, now: Timeval)
    | Delete(n: nat)
    | Activate(n: nat, reasons: set<Reason>)
    | Process(now: Timeval)
    | Next(persist: bool)
    | Callback(now: Timeval)
    | Correct(now: Timeval, useMonotonic: bool)

  method Take(base: TimerBase, op: Op)
    requires base.Valid() && base.Offered()
    modifies base
    ensures base.Valid() && base.Offered()
  {
    hide TimerBase.NearlyValid, Time, Micro, Tag, Index, Plain, Normal;
    match op {
      case Init(duration) => var tv := base.InitCommonTimeout(duration);
      case AddPlain(n, tv, now) =>
        if Plain(tv) && Plain(now) { base.AddInternal(User(n), tv, false, now, {}); }
      case AddCommon(n, q, now) =>
        if q < |base.durations| && Plain(now) {
          base.TagNames(base.durations[q], q, |base.lists|, {});
          base.AddInternal(User(n), base.durations[q], false, now, {});
        }
      case Persist(n, ioTimeout, now) =>
        var tv := Of(base.evs, User(n)).timeout;
        if Plain(now) && Tag(tv) == Tag(ioTimeout) && Normal(tv) && Micro(ioTimeout) <= MILLION
           && (ioTimeout.usec <= MILLION || IsCommon(ioTimeout, |base.lists|)) {
          base.PersistClosure(User(n), ioTimeout, now);
        }
      case Delete(n) => base.DelInternal(User(n), {});
      case Activate(n, reasons) =>
        base.ActiveNolock(User(n), reasons, {});
        assert {} - {User(n)} == {};
      case Process(now) => if Plain(now) { base.TimeoutProcess(now); }
      case Next(persist) =>
        if base.running.None? && base.active != [] && (persist ==> base.active[0].User?) { base.Dequeue(persist); }
      case Callback(now) =>
        if Plain(now) && base.running.Some? {
          if base.running.value.User? {
            base.EndCallback({});
          } else if base.running.value.i < |base.lists| {
            base.CommonTimeoutCallback(now);
          }
        }
      case Correct(now, useMonotonic) => if Plain(now) { base.TimeoutCorrect(now, useMonotonic); }
    }
  }

  /** In every run each queue stays sorted and driven, and every pending event is where
      its deadline says. */
  method Run(start: Timeval, ops: seq<Op>) returns (base: TimerBase)
    requires Plain(start)
    ensures base.Valid() && base.Offered()
  {
    hide TimerBase.NearlyValid, TimerBase.Offered;
    base := new TimerBase(start);
    for k := 0 to |ops|
      invariant base.Valid() && base.Offered() && fresh(base)
    {
      Take(base, ops[k]);
    }
  }

  /** The comparison that common_timeout_callback makes. */
  predicate Later(tv: Timeval, now: Timeval)
  {
    tv.sec > now.sec || (tv.sec == now.sec && Micro(tv) > now.usec)
  }

  lemma LaterTells(tv: Timeval, now: Timeval)
    requires Plain(now)
    ensures Normal(tv) ==> (Later(tv, now) <==> Time(tv) > Time(now))
  {
  }

  lemma FirstActive(evs: Evs, active: seq<Id>)
    requires ActiveOk(evs, active) && active != []
    ensures Of(evs, active[0]).active
  {
    assert active[0] in active;
  }

  lemma DurationTime(duration: Timeval, tv: Timeval, n: nat)
    requires tv == if duration.usec <= MILLION then duration else
                     var d := if IsCommon(duration, n) then Masked(duration) else duration;
                     Timeval(d.sec + d.usec / MILLION, d.usec % MILLION)
    ensures tv.usec <= MILLION && Micro(tv) == tv.usec
    ensures Time(tv) == duration.sec * MILLION + if IsCommon(duration, n) then Micro(duration) else duration.usec
  {
  }

  lemma GrowKeeps(evs: Evs, lists: seq<seq<Id>>, heap: set<Id>)
    requires Placed(evs, lists, heap) && |lists| < 256
    ensures Placed(evs, lists + [[]], heap)
  {
    hide Plain, Normal, Tag, TagOf, Sorted, Member;
    forall i: nat ensures QueueOk(evs, lists + [[]], i) {
      assert QueueOk(evs, lists, i);
      if i == |lists| { EmptySorted(evs); }
    }
    forall id ensures HeapOk(evs, heap, id) && Found(evs, lists + [[]], heap, id) {
      assert HeapOk(evs, heap, id) && Found(evs, lists, heap, id);
      if id in heap { PlainIsNotCommon(Of(evs, id).timeout, |lists| + 1); }
    }
  }

  lemma EmptySorted(evs: Evs)
    ensures Sorted(evs, [])
  {
  }

  lemma GrowDriven(evs: Evs, lists: seq<seq<Id>>, heap: set<Id>, away: set<Id>)
    requires Driven(evs, lists, heap, away)
    ensures Driven(evs, lists + [[]], heap, away)
  {
    forall i | 0 <= i < |lists| + 1 ensures Driver(i) in away || DrivenBy(evs, lists + [[]], heap, i) {
      assert i < |lists| ==> Driver(i) in away || DrivenBy(evs, lists, heap, i);
    }
  }

  lemma ActiveThere(evs: Evs, active: seq<Id>, id: Id)
    requires ActiveOk(evs, active) && Of(evs, id).active
    ensures id in active
  {
  }

  lemma PlainCompares(a: Timeval, b: Timeval)
    requires Plain(a) && Plain(b)
    ensures NotBefore(b, a) <==> Time(b) >= Time(a)
  {
  }

  lemma {:induction false} LeastExists(evs: Evs, heap: set<Id>)
    requires heap != {}
    ensures exists ev :: ev in heap && forall id :: id in heap ==> Due(evs, ev) <= Due(evs, id)
  {
    var x :| x in heap;
    if heap == {x} { return; }
    LeastExists(evs, heap - {x});
    var y :| y in heap - {x} && forall id :: id in heap - {x} ==> Due(evs, y) <= Due(evs, id);
    var least := if Due(evs, x) <= Due(evs, y) then x else y;
    assert forall id :: id in heap ==> Due(evs, least) <= Due(evs, id);
  }

  lemma CommonTag(tv: Timeval, n: nat)
    requires IsCommon(tv, n)
    ensures Tag(tv) == TagOf(Index(tv)) && Index(tv) < 256
  {
  }

  lemma FitsBound(evs: Evs, l: seq<Id>, p: nat, time: int)
    requires Fits(evs, l, p, time)
    ensures p <= |l|
  {
  }

  /** The deadline that event_add_internal computes. */
  lemma TimesAdded(tv: Timeval, now: Timeval, n: nat)
    requires Plain(now) && n <= 256 && (Plain(tv) || (IsCommon(tv, n) && Micro(tv) <= MILLION))
    ensures Plain(tv) ==> !IsCommon(tv, n) && !IsCommon(TimeAdd(now, tv), n)
    ensures Plain(tv) ==> Plain(TimeAdd(now, tv)) && Time(TimeAdd(now, tv)) == Time(now) + Time(tv)
    ensures !Plain(tv) ==>
              var t := Tagged(TimeAdd(now, Masked(tv)), Tag(tv));
              IsCommon(t, n) && Normal(t) && Index(t) == Index(tv) < n && Time(t) == Time(now) + Time(tv)
  {
    if Plain(tv) {
      TimePlain(now, tv);
      PlainIsNotCommon(tv, n);
      PlainIsNotCommon(TimeAdd(now, tv), n);
    } else {
      CommonTag(tv, n);
      TagKeeps(tv, Index(tv));
      TimePlain(now, Masked(tv));
      TagKeeps(TimeAdd(now, Masked(tv)), Index(tv));
    }
  }

  lemma Nowhere(evs: Evs, lists: seq<seq<Id>>, heap: set<Id>, id: Id)
    requires Placed(evs, lists, heap) && !Of(evs, id).timed
    ensures id !in heap && forall i :: 0 <= i < |lists| ==> id !in lists[i]
  {
    hide Time, Plain, Normal, Tag, Index, Sorted, TagOf;
    assert HeapOk(evs, heap, id);
    forall i: nat | i < |lists| ensures id !in lists[i] { assert QueueOk(evs, lists, i); }
  }

  /** A pending timer is in one place only. */
  lemma OnlyThere(evs: Evs, lists: seq<seq<Id>>, heap: set<Id>, id: Id)
    requires Placed(evs, lists, heap) && Of(evs, id).timed
    ensures var e := Of(evs, id);
            if IsCommon(e.timeout, |lists|) then
              id.User? && id !in heap && forall i :: 0 <= i < |lists| ==> (id in lists[i] <==> i == Index(e.timeout))
            else id in heap && forall i :: 0 <= i < |lists| ==> id !in lists[i]
  {
    hide Time, Plain, Normal, Tag, Index, Sorted, TagOf;
    var e := Of(evs, id);
    assert Found(evs, lists, heap, id) && HeapOk(evs, heap, id);
    if id in heap { PlainIsNotCommon(e.timeout, |lists|); }
    forall i: nat | i < |lists| && id in lists[i]
      ensures IsCommon(e.timeout, |lists|) && Index(e.timeout) == i && id.User?
    {
      assert QueueOk(evs, lists, i);
      TagTells(e.timeout, i, |lists|);
    }
  }
}
