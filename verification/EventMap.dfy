/** The map from file descriptors to events (evmap.c), the list of pending changes to
    the kernel's interest set (changelist-internal.h) and how epoll applies them
    (epoll.c), for level-triggered events. */
module EventMap {
  import opened Common

  /** A set of EV_READ and EV_WRITE, or of EPOLLIN and EPOLLOUT. */
  datatype Interest = Interest(read: bool, write: bool)

  const NOTHING := Interest(false, false)

  datatype Event = Event(id: nat, fd: int, events: Interest)

  /** `read_change` and `write_change`: 0, EV_CHANGE_ADD or EV_CHANGE_DEL. */
  datatype Mark = Keep | Add | Del

  datatype Change = Change(fd: nat, before: Interest, read: Mark, write: Mark)

  /** struct evmap_io with the fdinfo of the change list behind it. */
  datatype EvmapIo = EvmapIo(nread: nat, nwrite: nat, events: seq<Event>, idxplus1: nat)

  datatype Op = CtlAdd | CtlMod | CtlDel

  datatype Errno = Ok | EEXIST | ENOENT

  type Kernel = map<nat, Interest>

  // ----- meaning -----

  /** What the kernel watches `fd` for. */
  function At(kernel: Kernel, fd: nat): Interest
  {
    if fd in kernel then kernel[fd] else NOTHING
  }

  function SetAt(kernel: Kernel, fd: nat, i: Interest): Kernel
  {
    if i == NOTHING then kernel - {fd} else kernel[fd := i]
  }

  /** What events registered on one descriptor want it watched for. */
  ghost function Wants(es: seq<Event>): Interest
  {
    Interest(exists k :: 0 <= k < |es| && es[k].events.read, exists k :: 0 <= k < |es| && es[k].events.write)
  }

  function Marked(mark: Mark, before: bool): bool
  {
    mark == Add || (mark == Keep && before)
  }

  /** What a change means to achieve. */
  function Effect(c: Change): Interest
  {
    Interest(Marked(c.read, c.before.read), Marked(c.write, c.before.write))
  }

  function Plus(a: Interest, b: Interest): Interest
  {
    Interest(a.read || b.read, a.write || b.write)
  }

  function Minus(a: Interest, b: Interest): Interest
  {
    Interest(a.read && !b.read, a.write && !b.write)
  }

  /** The kernel is as the change supposes, or has forgotten a descriptor that was
      closed after all that had been enabled on it was deleted. */
  predicate Sound(kernel: Kernel, c: Change)
  {
    && (c.read == Del ==> c.before.read) && (c.write == Del ==> c.before.write)
    && (At(kernel, c.fd) == c.before
        || (c.fd !in kernel && (c.before.read ==> c.read != Keep) && (c.before.write ==> c.write != Keep)))
  }

  // ----- counting -----

  function Reads(es: seq<Event>): nat
  {
    if es == [] then 0 else (if es[0].events.read then 1 else 0) + Reads(es[1..])
  }

  function Writes(es: seq<Event>): nat
  {
    if es == [] then 0 else (if es[0].events.write then 1 else 0) + Writes(es[1..])
  }

  lemma {:induction false} CountsAdd(es: seq<Event>, ev: Event)
    ensures Reads(es + [ev]) == Reads(es) + (if ev.events.read then 1 else 0)
    ensures Writes(es + [ev]) == Writes(es) + (if ev.events.write then 1 else 0)
  {
    if es == [] {
      assert [ev][1..] == [] && es + [ev] == [ev];
    } else {
      assert (es + [ev])[1..] == es[1..] + [ev];
      CountsAdd(es[1..], ev);
    }
  }

  lemma {:induction false} CountsRemove(es: seq<Event>, ev: Event)
    requires ev in es
    ensures Reads(Removed(es, ev)) == Reads(es) - (if ev.events.read then 1 else 0)
    ensures Writes(Removed(es, ev)) == Writes(es) - (if ev.events.write then 1 else 0)
  {
    if es[0] != ev {
      assert Removed(es, ev)[1..] == Removed(es[1..], ev);
      CountsRemove(es[1..], ev);
    }
  }

  /** The counters say what is wanted. */
  lemma {:induction false} CountsTell(es: seq<Event>)
    ensures Wants(es) == Interest(Reads(es) > 0, Writes(es) > 0)
  {
    if es != [] {
      CountsTell(es[1..]);
      assert forall k :: 0 <= k < |es| - 1 ==> es[1..][k] == es[k + 1];
      assert forall k :: 0 < k < |es| ==> es[k] == es[1..][k - 1];
    }
  }

  // ----- state -----

  type IoMap = seq<Option<EvmapIo>>

  predicate HasEntry(io: IoMap, fd: nat)
  {
    fd < |io| && io[fd].Some?
  }

  function EventsIn(io: IoMap, fd: nat): seq<Event>
  {
    if HasEntry(io, fd) then io[fd].value.events else []
  }

  function IndexIn(io: IoMap, fd: nat): nat
  {
    if HasEntry(io, fd) then io[fd].value.idxplus1 else 0
  }

  ghost predicate ChangeOk(io: IoMap, changes: seq<Change>, k: nat)
  {
    k < |changes| ==> HasEntry(io, changes[k].fd) && IndexIn(io, changes[k].fd) == k + 1
  }

  ghost predicate IndexOk(io: IoMap, changes: seq<Change>, fd: nat)
  {
    IndexIn(io, fd) > 0 ==> IndexIn(io, fd) <= |changes| && changes[IndexIn(io, fd) - 1].fd == fd
  }

  /** idxplus1 and the change array are inverse to each other. */
  ghost predicate Indexed(io: IoMap, changes: seq<Change>)
  {
    (forall k: nat :: ChangeOk(io, changes, k)) && forall fd: nat :: IndexOk(io, changes, fd)
  }

  ghost predicate Counted(io: IoMap)
  {
    forall fd: nat :: HasEntry(io, fd) ==>
      var c := io[fd].value; c.nread == Reads(c.events) <= 0xffff && c.nwrite == Writes(c.events) <= 0xffff
  }

  /** The change pending for `fd`, or the lack of one, leads to `want`. */
  ghost predicate LeadsTo(io: IoMap, changes: seq<Change>, kernel: Kernel, fd: nat, want: Interest)
  {
    var k := IndexIn(io, fd);
    if k == 0 then At(kernel, fd) == want
    else k <= |changes| && Sound(kernel, changes[k - 1]) && Effect(changes[k - 1]) == want
  }

  ghost predicate Tidy(kernel: Kernel)
  {
    forall fd :: fd in kernel ==> kernel[fd] != NOTHING
  }

  /** Pending changes and the kernel's set together make what is wanted. */
  ghost predicate Accounted(io: IoMap, changes: seq<Change>, kernel: Kernel)
  {
    (forall fd: nat :: LeadsTo(io, changes, kernel, fd, Wants(EventsIn(io, fd)))) && Tidy(kernel)
  }

  /** A change array with the change of a descriptor, whose index is `idxplus1`, set. */
  function PutChange(changes: seq<Change>, idxplus1: nat, c: Change): seq<Change>
    requires idxplus1 <= |changes|
  {
    if idxplus1 == 0 then changes + [c] else changes[idxplus1 - 1 := c]
  }

  function PutIndex(io: IoMap, fd: nat, n: nat): IoMap
    requires HasEntry(io, fd)
  {
    if io[fd].value.idxplus1 == 0 then io[fd := Some(io[fd].value.(idxplus1 := n + 1))] else io
  }

  /** Putting in place the change of one descriptor, along with its events. */
  lemma PutKeeps(io: IoMap, changes: seq<Change>, kernel: Kernel, fd: nat, c: Change, ctx: EvmapIo)
    requires Indexed(io, changes) && Accounted(io, changes, kernel) && HasEntry(io, fd) && IndexIn(io, fd) <= |changes|
    requires c.fd == fd && Sound(kernel, c) && Effect(c) == Wants(ctx.events)
    requires ctx.idxplus1 == IndexIn(PutIndex(io, fd, |changes|), fd)
    ensures var io', changes' := PutIndex(io, fd, |changes|)[fd := Some(ctx)], PutChange(changes, IndexIn(io, fd), c);
            Indexed(io', changes') && Accounted(io', changes', kernel)
  {
    hide Sound, Effect, Wants, At, Indexed;
    PutIndexed(io, changes, fd, c, ctx);
    var io', changes' := PutIndex(io, fd, |changes|)[fd := Some(ctx)], PutChange(changes, IndexIn(io, fd), c);
    forall g: nat
      ensures LeadsTo(io', changes', kernel, g, Wants(EventsIn(io', g)))
    {
      assert LeadsTo(io, changes, kernel, g, Wants(EventsIn(io, g)));
      IndexedAt(io, changes, g);
      IndexedAt(io, changes, fd);
    }
  }

  lemma IndexedAt(io: IoMap, changes: seq<Change>, fd: nat)
    requires Indexed(io, changes)
    ensures IndexIn(io, fd) <= |changes| && (IndexIn(io, fd) > 0 ==> changes[IndexIn(io, fd) - 1].fd == fd)
  {
    assert IndexOk(io, changes, fd);
  }

  lemma PutIndexed(io: IoMap, changes: seq<Change>, fd: nat, c: Change, ctx: EvmapIo)
    requires Indexed(io, changes) && HasEntry(io, fd) && IndexIn(io, fd) <= |changes| && c.fd == fd
    requires ctx.idxplus1 == IndexIn(PutIndex(io, fd, |changes|), fd)
    ensures Indexed(PutIndex(io, fd, |changes|)[fd := Some(ctx)], PutChange(changes, IndexIn(io, fd), c))
  {
    var io', changes' := PutIndex(io, fd, |changes|)[fd := Some(ctx)], PutChange(changes, IndexIn(io, fd), c);
    forall k: nat ensures ChangeOk(io', changes', k) {
      assert ChangeOk(io, changes, k) && IndexOk(io, changes, fd);
    }
    forall g: nat ensures IndexOk(io', changes', g) {
      assert IndexOk(io, changes, g) && IndexOk(io, changes, fd);
      var n := IndexIn(io', g);
      assert n == if g == fd then ctx.idxplus1 else IndexIn(io, g);
      if g == fd {
        assert n <= |changes'| && changes'[n - 1] == c;
      } else if n > 0 {
        assert n != IndexIn(io, fd) && changes'[n - 1] == changes[n - 1];
      }
    }
  }

  /** Events may be replaced by others that want the same, and with no change pending
      the kernel's set may follow. */
  lemma ReplaceKeeps(io: IoMap, changes: seq<Change>, kernel: Kernel, fd: nat, ctx: EvmapIo)
    requires Indexed(io, changes) && Accounted(io, changes, kernel) && HasEntry(io, fd)
    requires ctx.idxplus1 == io[fd].value.idxplus1
    ensures Indexed(io[fd := Some(ctx)], changes)
    ensures Wants(ctx.events) == Wants(EventsIn(io, fd)) ==> Accounted(io[fd := Some(ctx)], changes, kernel)
    ensures ctx.idxplus1 == 0 ==> Accounted(io[fd := Some(ctx)], changes, SetAt(kernel, fd, Wants(ctx.events)))
  {
    hide Effect, Wants, Indexed, Sound, IndexIn, EventsIn, At, SetAt;
    var io', kernel' := io[fd := Some(ctx)], SetAt(kernel, fd, Wants(ctx.events));
    forall g: nat
      ensures HasEntry(io', g) == HasEntry(io, g) && IndexIn(io', g) == IndexIn(io, g)
      ensures EventsIn(io', g) == if g == fd then ctx.events else EventsIn(io, g)
      ensures Wants(ctx.events) == Wants(EventsIn(io, fd)) ==> LeadsTo(io', changes, kernel, g, Wants(EventsIn(io', g)))
      ensures ctx.idxplus1 == 0 ==> LeadsTo(io', changes, kernel', g, Wants(EventsIn(io', g)))
    {
      ReplacedAt(io, fd, ctx, g);
      IndexedAt(io, changes, g);
      assert LeadsTo(io, changes, kernel, g, Wants(EventsIn(io, g)));
      SetAtKeeps(kernel, fd, Wants(ctx.events), g);
      if IndexIn(io, g) > 0 && g != fd {
        SoundKept(kernel, kernel', changes[IndexIn(io, g) - 1], g);
      }
    }
    SameIndices(io, io', changes);
    SetAtTidy(kernel, fd, Wants(ctx.events));
  }

  lemma ReplacedAt(io: IoMap, fd: nat, ctx: EvmapIo, g: nat)
    requires HasEntry(io, fd) && ctx.idxplus1 == io[fd].value.idxplus1
    ensures HasEntry(io[fd := Some(ctx)], g) == HasEntry(io, g)
    ensures IndexIn(io[fd := Some(ctx)], g) == IndexIn(io, g) && (g == fd ==> IndexIn(io, g) == ctx.idxplus1)
    ensures EventsIn(io[fd := Some(ctx)], g) == if g == fd then ctx.events else EventsIn(io, g)
  {
  }

  lemma SameIndices(io: IoMap, io': IoMap, changes: seq<Change>)
    requires Indexed(io, changes)
    requires forall g: nat :: HasEntry(io', g) == HasEntry(io, g) && IndexIn(io', g) == IndexIn(io, g)
    ensures Indexed(io', changes)
  {
    hide HasEntry, IndexIn;
    forall k: nat ensures ChangeOk(io', changes, k) { assert ChangeOk(io, changes, k); }
    forall g: nat ensures IndexOk(io', changes, g) { assert IndexOk(io, changes, g); }
  }

  lemma SetAtKeeps(kernel: Kernel, fd: nat, want: Interest, g: nat)
    ensures At(SetAt(kernel, fd, want), g) == if g == fd then want else At(kernel, g)
    ensures g != fd ==> (g in SetAt(kernel, fd, want) <==> g in kernel)
  {
  }

  lemma SetAtTidy(kernel: Kernel, fd: nat, want: Interest)
    requires Tidy(kernel)
    ensures Tidy(SetAt(kernel, fd, want))
  {
  }

  lemma SoundKept(kernel: Kernel, kernel': Kernel, c: Change, g: nat)
    requires c.fd == g && At(kernel', g) == At(kernel, g) && (g in kernel' <==> g in kernel)
    ensures Sound(kernel', c) == Sound(kernel, c)
  {
  }

  /** A longer map with empty entries, or a fresh one, changes nothing. */
  lemma GrowKeeps(io: IoMap, changes: seq<Change>, kernel: Kernel, io': IoMap)
    requires Indexed(io, changes) && Accounted(io, changes, kernel) && Counted(io)
    requires forall g: nat :: HasEntry(io, g) ==> HasEntry(io', g) && io'[g] == io[g]
    requires forall g: nat :: HasEntry(io', g) && !HasEntry(io, g) ==> io'[g].value == EvmapIo(0, 0, [], 0)
    ensures Indexed(io', changes) && Accounted(io', changes, kernel) && Counted(io')
    ensures forall g: nat :: EventsIn(io', g) == EventsIn(io, g)
  {
    hide Effect, Wants, Sound, At;
    forall g: nat
      ensures EventsIn(io', g) == EventsIn(io, g) && IndexIn(io', g) == IndexIn(io, g)
      ensures LeadsTo(io', changes, kernel, g, Wants(EventsIn(io', g)))
      ensures IndexOk(io', changes, g)
    {
      assert LeadsTo(io, changes, kernel, g, Wants(EventsIn(io, g)));
      if !HasEntry(io', g) { assert !HasEntry(io, g); }
      assert IndexOk(io, changes, g);
    }
    forall k: nat ensures ChangeOk(io', changes, k) { assert ChangeOk(io, changes, k); }
  }

  // ----- the base -----

  /** The events of a descriptor once `ev` has been added, within the counters' range. */
  function Registered(es: seq<Event>, ev: Event): seq<Event>
  {
    if Reads(es + [ev]) > 0xffff || Writes(es + [ev]) > 0xffff then es else es + [ev]
  }

  class Base {
    const useChangelist: bool
    var io: seq<Option<EvmapIo>>
    var changes: seq<Change>
    var changesSize: nat
    var kernel: Kernel

    /** The events registered on a descriptor. */
    function Events(fd: nat): seq<Event>
      reads this
    {
      EventsIn(io, fd)
    }

    ghost predicate Valid()
      reads this
    {
      && |changes| <= changesSize && (!useChangelist ==> changes == [])
      && Indexed(io, changes) && Counted(io) && Accounted(io, changes, kernel)
    }

    /** The kernel watches exactly what is wanted. */
    ghost predicate Settled()
      reads this
    {
      (forall fd: nat :: At(kernel, fd) == Wants(Events(fd))) && forall fd :: fd in kernel ==> kernel[fd] != NOTHING
    }

    constructor (useChangelist: bool)
      ensures Valid() && Settled() && this.useChangelist == useChangelist
      ensures forall fd: nat :: Events(fd) == []
    {
      this.useChangelist := useChangelist;
      io, changes, changesSize, kernel := [], [], 0, map[];
    }

    // ----- epoll -----

    /** epoll_ctl on an open descriptor. */
    method EpollCtl(op: Op, fd: nat, events: Interest) returns (err: Errno)
      modifies this`kernel
      ensures op.CtlAdd? ==> err == (if fd in old(kernel) then EEXIST else Ok)
      ensures !op.CtlAdd? ==> err == (if fd in old(kernel) then Ok else ENOENT)
      ensures kernel == if err != Ok then old(kernel) else if op.CtlDel? then old(kernel) - {fd} else old(kernel)[fd := events]
    {
      if op.CtlAdd? && fd in kernel { return EEXIST; }
      if !op.CtlAdd? && fd !in kernel { return ENOENT; }
      kernel := if op.CtlDel? then kernel - {fd} else kernel[fd := events];
      err := Ok;
    }

    /** epoll_apply_one_change: an add takes effect whatever the kernel remembers of the
        descriptor, and every other change when that is as expected. */
    method ApplyOneChange(ch: Change)
      modifies this`kernel
      ensures Sound(old(kernel), ch) && (ch.fd in old(kernel) ==> old(kernel)[ch.fd] != NOTHING) ==>
                kernel == SetAt(old(kernel), ch.fd, Effect(ch))
      ensures ch.read == Add || ch.write == Add ==> kernel == old(kernel)[ch.fd := Effect(ch)]
      ensures ch.read == Keep && ch.write == Keep ==> kernel == old(kernel)
    {
      var events, op := NOTHING, CtlAdd;
      if ch.read == Add || ch.write == Add {
        if ch.read == Add { events := events.(read := true); }
        else if ch.read == Del { }
        else if ch.before.read { events := events.(read := true); }
        if ch.write == Add { events := events.(write := true); }
        else if ch.write == Del { }
        else if ch.before.write { events := events.(write := true); }
        if ch.before != NOTHING { op := CtlMod; }
      } else if ch.read == Del || ch.write == Del {
        op := CtlDel;
        if ch.read == Del {
          if ch.write == Del {
            events := Interest(true, true);
          } else if ch.before.write {
            events := Interest(false, true);
            op := CtlMod;
          } else {
            events := Interest(true, false);
          }
        } else if ch.write == Del {
          if ch.before.read {
            events := Interest(true, false);
            op := CtlMod;
          } else {
            events := Interest(false, true);
          }
        }
      }
      if events == NOTHING { return; }
      var err := EpollCtl(op, ch.fd, events);
      if op == CtlMod && err == ENOENT {
        err := EpollCtl(CtlAdd, ch.fd, events);
      } else if op == CtlAdd && err == EEXIST {
        err := EpollCtl(CtlMod, ch.fd, events);
      }
    }

    // ----- the change list -----

    /** event_changelist_get_or_construct: the index of the change of `fd`. */
    method GetOrConstruct(fd: nat, before: Interest) returns (k: nat)
      requires HasEntry(io, fd) && IndexIn(io, fd) <= |changes| <= changesSize
      modifies this`io, this`changes, this`changesSize
      ensures io == PutIndex(old(io), fd, |old(changes)|) && k < |changes| <= changesSize && |changes| >= |old(changes)|
      ensures var was := IndexIn(old(io), fd);
              if was == 0 then changes == old(changes) + [Change(fd, before, Keep, Keep)] && k == |old(changes)|
              else changes == old(changes) && k == was - 1
    {
      var ctx := io[fd].value;
      if ctx.idxplus1 == 0 {
        if |changes| == changesSize {
          changesSize := if changesSize < 64 then 64 else changesSize * 2;
        }
        k := |changes|;
        changes := changes + [Change(fd, before, Keep, Keep)];
        io := io[fd := Some(ctx.(idxplus1 := k + 1))];
      } else {
        k := ctx.idxplus1 - 1;
      }
    }

    /** event_changelist_add */
    method ChangelistAdd(fd: nat, before: Interest, events: Interest) returns (ghost c: Change)
      requires HasEntry(io, fd) && Indexed(io, changes) && |changes| <= changesSize
      requires LeadsTo(io, changes, kernel, fd, before)
      modifies this`io, this`changes, this`changesSize
      ensures IndexIn(old(io), fd) <= |old(changes)| && |changes| <= changesSize
      ensures changes == PutChange(old(changes), IndexIn(old(io), fd), c) && io == PutIndex(old(io), fd, |old(changes)|)
      ensures c.fd == fd && Sound(kernel, c) && Effect(c) == Plus(before, events)
    {
      IndexedAt(io, changes, fd);
      var k := GetOrConstruct(fd, before);
      var change := changes[k];
      assert Effect(change) == before;
      if events.read { change := change.(read := Add); }
      if events.write { change := change.(write := Add); }
      changes := changes[k := change];
      c := change;
    }

    /** event_changelist_del: a delete cancels an add of something that was not enabled
        before. */
    method ChangelistDel(fd: nat, before: Interest, events: Interest) returns (ghost c: Change)
      requires HasEntry(io, fd) && Indexed(io, changes) && |changes| <= changesSize
      requires LeadsTo(io, changes, kernel, fd, before) && Plus(before, events) == before
      modifies this`io, this`changes, this`changesSize
      ensures IndexIn(old(io), fd) <= |old(changes)| && |changes| <= changesSize
      ensures changes == PutChange(old(changes), IndexIn(old(io), fd), c) && io == PutIndex(old(io), fd, |old(changes)|)
      ensures c.fd == fd && Sound(kernel, c) && Effect(c) == Minus(before, events)
    {
      IndexedAt(io, changes, fd);
      var k := GetOrConstruct(fd, before);
      var change := changes[k];
      assert Effect(change) == before;
      if events.read {
        change := change.(read := if !change.before.read && change.read == Add then Keep else Del);
      }
      if events.write {
        change := change.(write := if !change.before.write && change.write == Add then Keep else Del);
      }
      changes := changes[k := change];
      c := change;
    }

    // ----- immediate mode -----

    /** epoll_nochangelist_add */
    method NochangelistAdd(fd: nat, before: Interest, events: Interest)
      requires At(kernel, fd) == before && (fd in kernel ==> kernel[fd] != NOTHING)
      modifies this`kernel
      ensures kernel == SetAt(old(kernel), fd, Plus(before, events))
    {
      var ch := Change(fd, before, if events.read then Add else Keep, if events.write then Add else Keep);
      ApplyOneChange(ch);
    }

    /** epoll_nochangelist_del */
    method NochangelistDel(fd: nat, before: Interest, events: Interest)
      requires At(kernel, fd) == before && (fd in kernel ==> kernel[fd] != NOTHING) && Plus(before, events) == before
      modifies this`kernel
      ensures kernel == SetAt(old(kernel), fd, Minus(before, events))
    {
      var ch := Change(fd, before, if events.read then Del else Keep, if events.write then Del else Keep);
      ApplyOneChange(ch);
    }

    // ----- the event map -----

    /** evmap_make_space, and the entry of `fd`. */
    method MakeEntry(fd: nat)
      requires Valid()
      modifies this`io
      ensures Valid() && HasEntry(io, fd) && forall g: nat :: Events(g) == old(Events(g))
    {
      hide Indexed, Accounted, Counted;
      var n: nat := if |io| > 0 then |io| else 32;
      while n <= fd
        invariant n >= |io| && n > 0
      {
        n := 2 * n;
      }
      var io' := io + seq(n - |io|, _ => None);
      if io'[fd].None? { io' := io'[fd := Some(EvmapIo(0, 0, [], 0))]; }
      GrowKeeps(io, changes, kernel, io');
      io := io';
    }

    /** Tell the backend of events newly wanted or no longer wanted, then note the new
        counters and events of the descriptor. */
    method Update(fd: nat, adding: bool, before: Interest, res: Interest, nread: nat, nwrite: nat, events: seq<Event>)
      requires Valid() && HasEntry(io, fd) && nread == Reads(events) <= 0xffff && nwrite == Writes(events) <= 0xffff
      requires before == Wants(Events(fd)) && (!adding ==> Plus(before, res) == before)
      requires Wants(events) == if adding then Plus(before, res) else Minus(before, res)
      modifies this`io, this`changes, this`changesSize, this`kernel
      ensures Valid() && Events(fd) == events && forall g: nat :: g != fd ==> Events(g) == old(Events(g))
    {
      hide Indexed, Accounted, Counted, Wants, Sound, Effect, At;
      ghost var io0, changes0, kernel0 := io, changes, kernel;
      FactsAt(io, changes, kernel, fd);
      ghost var c := Change(fd, NOTHING, Keep, Keep);
      if res != NOTHING {
        if useChangelist {
          if adding { c := ChangelistAdd(fd, before, res); } else { c := ChangelistDel(fd, before, res); }
        } else {
          if adding { NochangelistAdd(fd, before, res); } else { NochangelistDel(fd, before, res); }
        }
      }
      var ctx := EvmapIo(nread, nwrite, events, io[fd].value.idxplus1);
      if res != NOTHING && useChangelist {
        PutKeeps(io0, changes0, kernel0, fd, c, ctx);
      } else {
        ReplaceKeeps(io0, changes0, kernel0, fd, ctx);
      }
      CountedAt(io0, io, fd, ctx);
      io := io[fd := Some(ctx)];
    }

    /** evmap_io_add: 1 when what is wanted of the descriptor changed, 0 when not, -1 when
        there would be too many events. */
    method IoAdd(ev: Event) returns (r: int)
      requires Valid()
      modifies this
      ensures Valid()
      ensures forall g: nat :: Events(g) == if g == ev.fd then Registered(old(Events(g)), ev) else old(Events(g))
      ensures ev.fd < 0 ==> r == 0
      ensures ev.fd >= 0 ==> (r == -1 <==> Events(ev.fd) == old(Events(ev.fd)))
      ensures ev.fd >= 0 && r != -1 ==> r == if Wants(Events(ev.fd)) != Wants(old(Events(ev.fd))) then 1 else 0
    {
      hide Indexed, Accounted, Wants, Reads, Writes;
      if ev.fd < 0 { return 0; }
      MakeEntry(ev.fd);
      var ctx := io[ev.fd].value;
      assert HasEntry(io, ev.fd);
      CountsAdd(ctx.events, ev);
      CountsTell(ctx.events);
      CountsTell(ctx.events + [ev]);
      var nread, nwrite, res := ctx.nread, ctx.nwrite, NOTHING;
      var before := Interest(nread != 0, nwrite != 0);
      if ev.events.read {
        nread := nread + 1;
        if nread == 1 { res := res.(read := true); }
      }
      if ev.events.write {
        nwrite := nwrite + 1;
        if nwrite == 1 { res := res.(write := true); }
      }
      if nread > 0xffff || nwrite > 0xffff { return -1; }
      Update(ev.fd, true, before, res, nread, nwrite, ctx.events + [ev]);
      r := if res != NOTHING then 1 else 0;
    }

    /** evmap_io_del: 1 when what is wanted of the descriptor changed, 0 when not. */
    method IoDel(ev: Event) returns (r: int)
      requires Valid() && (ev.fd >= 0 ==> ev in Events(ev.fd))
      modifies this
      ensures Valid()
      ensures forall g: nat :: Events(g) == if g == ev.fd then Removed(old(Events(g)), ev) else old(Events(g))
      ensures ev.fd >= 0 ==> r == if Wants(Events(ev.fd)) != Wants(old(Events(ev.fd))) then 1 else 0
      ensures ev.fd < 0 ==> r == 0
    {
      hide Indexed, Accounted, Wants, Reads, Writes, Removed;
      if ev.fd < 0 { return 0; }
      var ctx := io[ev.fd].value;
      assert HasEntry(io, ev.fd);
      CountsRemove(ctx.events, ev);
      CountsTell(ctx.events);
      CountsTell(Removed(ctx.events, ev));
      var nread, nwrite, res := ctx.nread, ctx.nwrite, NOTHING;
      var before := Interest(nread != 0, nwrite != 0);
      if ev.events.read {
        nread := nread - 1;
        if nread == 0 { res := res.(read := true); }
      }
      if ev.events.write {
        nwrite := nwrite - 1;
        if nwrite == 0 { res := res.(write := true); }
      }
      Update(ev.fd, false, before, res, nread, nwrite, Removed(ctx.events, ev));
      r := if res != NOTHING then 1 else 0;
    }

    // ----- dispatch -----

    /** epoll_apply_changes */
    method ApplyChanges()
      requires Valid()
      modifies this`kernel
      ensures Applied(io, changes, old(kernel), kernel, |changes|)
    {
      hide Indexed, Accounted, Applied, Sound, Effect, At, Wants;
      AppliedNone(io, changes, kernel);
      for i := 0 to |changes|
        invariant Applied(io, changes, old(kernel), kernel, i)
      {
        AppliedOne(io, changes, old(kernel), kernel, i);
        ApplyOneChange(changes[i]);
      }
    }

    /** event_changelist_remove_all */
    method RemoveAll()
      requires Indexed(io, changes)
      modifies this`io, this`changes
      ensures changes == [] && Cleared(old(io), old(changes), io, |old(changes)|)
    {
      hide Indexed, Cleared;
      ghost var io0 := io;
      ClearedNone(io, changes);
      for i := 0 to |changes|
        invariant Cleared(io0, changes, io, i) && changes == old(changes) && Indexed(io0, changes)
      {
        ClearedOne(io0, changes, io, i);
        io := io[changes[i].fd := Some(io[changes[i].fd].value.(idxplus1 := 0))];
      }
      changes := [];
    }

    /** What epoll_dispatch does before it waits. */
    method Dispatch()
      requires Valid()
      modifies this`kernel, this`io, this`changes
      ensures Valid() && Settled() && forall g: nat :: Events(g) == old(Events(g))
    {
      hide Indexed, Accounted, Counted, Applied, Cleared, Effect, Wants, At;
      ApplyChanges();
      RemoveAll();
      AllSettled(old(io), old(changes), old(kernel), kernel, io);
    }

    /** The program closes a descriptor it has deleted all events of: the kernel forgets
        it. */
    method Close(fd: nat)
      requires Valid() && Events(fd) == []
      modifies this`kernel
      ensures Valid() && fd !in kernel
    {
      hide Indexed, Counted;
      CloseKeeps(io, changes, kernel, fd);
      kernel := kernel - {fd};
    }

    /** Removed pending changes, and so always in immediate mode, the kernel's set is right. */
    lemma NothingPending()
      requires Valid() && changes == []
      ensures Settled()
    {
      hide Wants;
      forall g: nat ensures At(kernel, g) == Wants(Events(g)) { FactsAt(io, changes, kernel, g); }
    }
  }

  lemma FactsAt(io: IoMap, changes: seq<Change>, kernel: Kernel, fd: nat)
    requires Indexed(io, changes) && Accounted(io, changes, kernel)
    ensures IndexIn(io, fd) <= |changes| && LeadsTo(io, changes, kernel, fd, Wants(EventsIn(io, fd)))
    ensures fd in kernel ==> kernel[fd] != NOTHING
    ensures changes == [] ==> IndexIn(io, fd) == 0 && At(kernel, fd) == Wants(EventsIn(io, fd))
  {
  }

  lemma CountedAt(io0: IoMap, io: IoMap, fd: nat, ctx: EvmapIo)
    requires Counted(io0) && HasEntry(io0, fd) && ctx.nread == Reads(ctx.events) <= 0xffff && ctx.nwrite == Writes(ctx.events) <= 0xffff
    requires |io| == |io0| && forall g: nat :: g != fd && g < |io| ==> io[g] == io0[g]
    ensures Counted(io[fd := Some(ctx)])
    ensures forall g: nat :: EventsIn(io[fd := Some(ctx)], g) == if g == fd then ctx.events else EventsIn(io0, g)
  {
    hide Reads, Writes;
    var io' := io[fd := Some(ctx)];
    forall g: nat | HasEntry(io', g)
      ensures io'[g].value.nread == Reads(io'[g].value.events) <= 0xffff
      ensures io'[g].value.nwrite == Writes(io'[g].value.events) <= 0xffff
    {
      if g != fd { assert HasEntry(io0, g); }
    }
    forall g: nat
      ensures EventsIn(io', g) == if g == fd then ctx.events else EventsIn(io0, g)
    {
      if g != fd && g < |io| { assert io[g] == io0[g]; }
    }
  }

  /** The first `i` changes have been applied to `kernel0`. */
  ghost predicate Applied(io: IoMap, changes: seq<Change>, kernel0: Kernel, kernel: Kernel, i: nat)
  {
    && Tidy(kernel)
    && forall g: nat ::
         if 0 < IndexIn(io, g) <= i then
           IndexIn(io, g) <= |changes| && At(kernel, g) == Effect(changes[IndexIn(io, g) - 1])
         else At(kernel, g) == At(kernel0, g) && (g in kernel <==> g in kernel0)
  }

  lemma AppliedNone(io: IoMap, changes: seq<Change>, kernel: Kernel)
    requires Accounted(io, changes, kernel)
    ensures Applied(io, changes, kernel, kernel, 0)
  {
  }

  lemma AppliedOne(io: IoMap, changes: seq<Change>, kernel0: Kernel, kernel: Kernel, i: nat)
    requires Indexed(io, changes) && Accounted(io, changes, kernel0) && Applied(io, changes, kernel0, kernel, i)
    requires i < |changes|
    ensures Sound(kernel, changes[i]) && (changes[i].fd in kernel ==> kernel[changes[i].fd] != NOTHING)
    ensures Applied(io, changes, kernel0, SetAt(kernel, changes[i].fd, Effect(changes[i])), i + 1)
  {
    hide Effect, Wants, Indexed, SetAt;
    var fd := changes[i].fd;
    ChangeAt(io, changes, i);
    assert LeadsTo(io, changes, kernel0, fd, Wants(EventsIn(io, fd)));
    assert At(kernel, fd) == At(kernel0, fd) && (fd in kernel <==> fd in kernel0);
    var kernel' := SetAt(kernel, fd, Effect(changes[i]));
    SetAtTidy(kernel, fd, Effect(changes[i]));
    forall g: nat
      ensures if 0 < IndexIn(io, g) <= i + 1 then
                IndexIn(io, g) <= |changes| && At(kernel', g) == Effect(changes[IndexIn(io, g) - 1])
              else At(kernel', g) == At(kernel0, g) && (g in kernel' <==> g in kernel0)
    {
      IndexedAt(io, changes, g);
      SetAtKeeps(kernel, fd, Effect(changes[i]), g);
    }
  }

  lemma ChangeAt(io: IoMap, changes: seq<Change>, k: nat)
    requires Indexed(io, changes) && k < |changes|
    ensures HasEntry(io, changes[k].fd) && IndexIn(io, changes[k].fd) == k + 1
  {
    assert ChangeOk(io, changes, k);
  }

  /** The first `i` indices of `io0` have been reset. */
  ghost predicate Cleared(io0: IoMap, changes: seq<Change>, io: IoMap, i: nat)
  {
    forall g: nat ::
      && HasEntry(io, g) == HasEntry(io0, g)
      && (HasEntry(io, g) ==>
            io[g].value == if 0 < IndexIn(io0, g) <= i then io0[g].value.(idxplus1 := 0) else io0[g].value)
  }

  lemma ClearedNone(io: IoMap, changes: seq<Change>)
    ensures Cleared(io, changes, io, 0)
  {
  }

  lemma ClearedOne(io0: IoMap, changes: seq<Change>, io: IoMap, i: nat)
    requires Indexed(io0, changes) && Cleared(io0, changes, io, i) && i < |changes|
    ensures HasEntry(io, changes[i].fd)
    ensures Cleared(io0, changes, io[changes[i].fd := Some(io[changes[i].fd].value.(idxplus1 := 0))], i + 1)
  {
    hide Indexed;
    var fd := changes[i].fd;
    ChangeAt(io0, changes, i);
    var io' := io[fd := Some(io[fd].value.(idxplus1 := 0))];
    forall g: nat
      ensures HasEntry(io', g) == HasEntry(io0, g)
      ensures HasEntry(io', g) ==>
                io'[g].value == if 0 < IndexIn(io0, g) <= i + 1 then io0[g].value.(idxplus1 := 0) else io0[g].value
    {
      IndexedAt(io0, changes, g);
      assert HasEntry(io, g) == HasEntry(io0, g);
    }
  }

  lemma AllSettled(io0: IoMap, changes: seq<Change>, kernel0: Kernel, kernel: Kernel, io: IoMap)
    requires Indexed(io0, changes) && Accounted(io0, changes, kernel0) && Counted(io0)
    requires Applied(io0, changes, kernel0, kernel, |changes|) && Cleared(io0, changes, io, |changes|)
    ensures Indexed(io, []) && Accounted(io, [], kernel) && Counted(io) && Tidy(kernel)
    ensures forall g: nat :: EventsIn(io, g) == EventsIn(io0, g)
    ensures forall g: nat :: At(kernel, g) == Wants(EventsIn(io, g))
  {
    hide Effect, Wants, At, Sound, Reads, Writes;
    forall g: nat
      ensures EventsIn(io, g) == EventsIn(io0, g) && IndexIn(io, g) == 0
      ensures At(kernel, g) == Wants(EventsIn(io, g))
      ensures HasEntry(io, g) ==> HasEntry(io0, g) && io[g].value == io0[g].value.(idxplus1 := 0)
    {
      IndexedAt(io0, changes, g);
      assert HasEntry(io, g) == HasEntry(io0, g);
      assert LeadsTo(io0, changes, kernel0, g, Wants(EventsIn(io0, g)));
    }
    forall k: nat ensures ChangeOk(io, [], k) { }
    forall g: nat ensures IndexOk(io, [], g) { }
    forall g: nat ensures LeadsTo(io, [], kernel, g, Wants(EventsIn(io, g))) { }
  }

  lemma CloseKeeps(io: IoMap, changes: seq<Change>, kernel: Kernel, fd: nat)
    requires Indexed(io, changes) && Accounted(io, changes, kernel) && EventsIn(io, fd) == []
    ensures Accounted(io, changes, kernel - {fd})
  {
    hide Indexed;
    var kernel' := kernel - {fd};
    forall g: nat
      ensures LeadsTo(io, changes, kernel', g, Wants(EventsIn(io, g)))
    {
      IndexedAt(io, changes, g);
      assert LeadsTo(io, changes, kernel, g, Wants(EventsIn(io, g)));
    }
  }

  // ----- runs -----

  /** What a program may ask for. */
  datatype Call = AddEvent(ev: Event) | DelEvent(ev: Event) | CloseFd(fd: nat) | DispatchNow

  function AfterCall(call: Call, g: nat, es: seq<Event>): seq<Event>
  {
    match call
    case AddEvent(ev) => if ev.fd == g then Registered(es, ev) else es
    case DelEvent(ev) => if ev.fd == g && ev in es then Removed(es, ev) else es
    case CloseFd(_) => es
    case DispatchNow => es
  }

  /** The events registered on `g` after a run, whatever the mode. */
  function Table(calls: seq<Call>, g: nat): seq<Event>
  {
    if calls == [] then [] else AfterCall(calls[|calls| - 1], g, Table(calls[..|calls| - 1], g))
  }

  lemma TableSnoc(calls: seq<Call>, n: nat)
    requires n < |calls|
    ensures forall g: nat :: Table(calls[..n + 1], g) == AfterCall(calls[n], g, Table(calls[..n], g))
  {
    assert calls[..n + 1][..n] == calls[..n];
  }

  method Perform(base: Base, call: Call)
    requires base.Valid()
    modifies base
    ensures base.Valid() && (call.DispatchNow? ==> base.Settled())
    ensures forall g: nat :: base.Events(g) == AfterCall(call, g, old(base.Events(g)))
  {
    hide Indexed, Accounted, Counted, Wants, Registered, Removed, EventsIn;
    match call {
      case AddEvent(ev) => var r := base.IoAdd(ev);
      case DelEvent(ev) =>
        if ev.fd >= 0 && ev in base.Events(ev.fd) { var r := base.IoDel(ev); }
      case CloseFd(fd) => if base.Events(fd) == [] { base.Close(fd); }
      case DispatchNow => base.Dispatch();
    }
  }

  /** A run in either mode: events are registered as asked, and after every dispatch, or
      all the time in immediate mode, the kernel watches exactly what they want. */
  method Run(useChangelist: bool, calls: seq<Call>) returns (base: Base)
    ensures base.Valid() && base.useChangelist == useChangelist
    ensures forall g: nat :: base.Events(g) == Table(calls, g)
    ensures !useChangelist || calls == [] || calls[|calls| - 1].DispatchNow? ==> base.Settled()
  {
    hide Indexed, Accounted, Counted, Wants, Table, AfterCall, EventsIn;
    base := new Base(useChangelist);
    forall g: nat ensures Table([], g) == [] { TableEmpty(g); }
    assert calls[..0] == [];
    for n := 0 to |calls|
      invariant base.Valid() && base.useChangelist == useChangelist && fresh(base)
      invariant forall g: nat :: base.Events(g) == Table(calls[..n], g)
      invariant n == 0 || calls[n - 1].DispatchNow? ==> base.Settled()
    {
      TableSnoc(calls, n);
      Perform(base, calls[n]);
    }
    assert calls[..|calls|] == calls;
    if !useChangelist { base.NothingPending(); }
  }

  lemma TableEmpty(g: nat)
    ensures Table([], g) == []
  {
  }

  /** Coalescing changes leaves at every dispatch the very interest set that applying
      each at once leaves. */
  method Coalesced(calls: seq<Call>) returns (lazy: Base, eager: Base)
    requires calls != [] && calls[|calls| - 1].DispatchNow?
    ensures lazy.useChangelist && !eager.useChangelist && lazy.kernel == eager.kernel
    ensures forall g: nat :: At(lazy.kernel, g) == Wants(Table(calls, g))
  {
    hide Wants, Table;
    lazy := Run(true, calls);
    eager := Run(false, calls);
    SameKernel(lazy.kernel, eager.kernel);
  }

  lemma SameKernel(a: Kernel, b: Kernel)
    requires Tidy(a) && Tidy(b) && forall g: nat :: At(a, g) == At(b, g)
    ensures a == b
  {
    forall g: nat ensures g in a <==> g in b { assert At(a, g) == At(b, g); }
    forall g | g in a ensures a[g] == b[g] { assert At(a, g) == At(b, g); }
  }
}
