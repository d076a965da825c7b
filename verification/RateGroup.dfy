/** Rate-limit groups (bufferevent_ratelim.c): suspending and resuming all members of a
    group by threads that can only try to lock each of them. */
module RateGroup {
  import opened Common
  import opened RateLimit

  /** One direction of struct bufferevent_rate_limit_group; `held` are the bufferevents
      that carry BEV_SUSPEND_BW_GROUP for it, and `due` those that are joining and have
      seen the group suspended. */
  datatype GroupSide = GroupSide(limit: int, suspended: bool, pending: bool, held: set<nat>, due: set<nat>)

  /** C's division, towards zero. */
  function Quotient(a: int, n: nat): int
    requires n > 0
  {
    if a >= 0 then a / n else -((-a) / n)
  }

  /** The tokens and suspensions of a group, and what decides about them. */
  datatype Moment = Moment(read: GroupSide, write: GroupSide, lastUpdated: nat, cfg: Cfg, minShare: nat) {
    function Get(d: Dir): GroupSide { if d.Reading? then read else write }

    /** The limit a side will have after the update at `tick`. */
    function Awaited(d: Dir, tick: nat): int
      requires lastUpdated < TICKS && tick < TICKS
    {
      Updated(Get(d).limit, if d.Reading? then cfg.read else cfg.write, Elapsed(lastUpdated, tick))
    }

    /** A side without tokens is suspended. */
    predicate Held(d: Dir)
    {
      Get(d).limit <= 0 ==> Get(d).suspended
    }
  }

  /** The side after a joining member that is due has been suspended. */
  function JoinedSide(s: GroupSide, m: nat): GroupSide
  {
    s.(held := s.held + {m}, due := s.due - {m})
  }

  class Group {
    /** TAILQ of the members, and n_members. */
    var members: seq<nat>
    var nMembers: nat
    var read: GroupSide
    var write: GroupSide
    var lastUpdated: nat
    var cfg: Cfg
    var minShare: nat
    var configuredMinShare: nat
    /** Members whose own thread is between the two halves of joining, holding their lock. */
    var joining: set<nat>
    /** The share has always been positive. */
    ghost var shared: bool

    function Get(d: Dir): GroupSide
      reads this
    {
      if d.Reading? then read else write
    }

    function Other(d: Dir): GroupSide
      reads this
    {
      if d.Reading? then write else read
    }

    /** What tokens and suspensions are like at the moment. */
    function Now(): Moment
      reads this
    {
      Moment(read, write, lastUpdated, cfg, minShare)
    }

    method Put(d: Dir, s: GroupSide)
      modifies this`read, this`write
      ensures Get(d) == s && Other(d) == old(Other(d))
    {
      if d.Reading? { read := s; } else { write := s; }
    }

    /** As long as a member carries the group's suspension, or is about to, the group is
        suspended or remembers to lift it. */
    ghost predicate SideOk(s: GroupSide)
      reads this`members, this`joining, this`shared
    {
      && !(s.suspended && s.pending)
      && (forall m :: m in members && m in s.held ==> s.suspended || s.pending)
      && (forall m :: m in s.due ==> s.suspended || s.pending)
      && s.due <= joining
      && (shared && s.limit <= 0 ==> s.suspended)
    }

    ghost predicate ListOk()
      reads this`members, this`nMembers, this`joining
    {
      && nMembers == |members| && (forall i, j :: 0 <= i < j < |members| ==> members[i] != members[j])
      && (forall m :: m in joining ==> m in members)
    }

    ghost predicate Valid()
      reads this
    {
      && ListOk() && SideOk(read) && SideOk(write)
      && RateOk(cfg.read) && RateOk(cfg.write) && lastUpdated < TICKS
      && minShare == Least(Least(configuredMinShare, cfg.read.rate), cfg.write.rate)
      && (shared ==> minShare > 0)
    }

    /** bufferevent_rate_limit_group_new */
    constructor (cfg: Cfg, tick: nat)
      requires RateOk(cfg.read) && RateOk(cfg.write) && tick < TICKS
      ensures Valid() && members == [] && shared && this.cfg == cfg
      ensures read.limit == cfg.read.rate && write.limit == cfg.write.rate && lastUpdated == tick
    {
      members, nMembers, joining, shared := [], 0, {}, true;
      read := GroupSide(cfg.read.rate, false, false, {}, {});
      write := GroupSide(cfg.write.rate, false, false, {}, {});
      lastUpdated, this.cfg := tick, cfg;
      configuredMinShare, minShare := 64, Least(Least(64, cfg.read.rate), cfg.write.rate);
    }

    /** The members that can be locked. */
    function Free(busy: set<nat>): set<nat>
      reads this`members
    {
      set m | m in members && m !in busy
    }

    // ----- passes over the members -----

    /** _bev_group_suspend_reading and its twin; the members in `busy` cannot be locked. */
    method SuspendAll(d: Dir, busy: set<nat>)
      modifies this`read, this`write
      ensures Other(d) == old(Other(d))
      ensures var s := old(Get(d));
              && Get(d).suspended && !Get(d).pending && Get(d).limit == s.limit && Get(d).due == s.due
              && Get(d).held == s.held + Free(busy)
    {
      var s := Get(d).(suspended := true, pending := false);
      for k := 0 to |members|
        invariant s == old(Get(d)).(suspended := true, pending := false,
                                    held := old(Get(d)).held + (set m | m in members[..k] && m !in busy))
      {
        if members[k] !in busy { s := s.(held := s.held + {members[k]}); }
      }
      assert members[..|members|] == members;
      Put(d, s);
    }

    /** _bev_group_unsuspend_reading and its twin: once round the members from a random
        one, each exactly once. */
    method UnsuspendAll(d: Dir, rand: nat, busy: set<nat>)
      requires ListOk()
      modifies this`read, this`write
      ensures Other(d) == old(Other(d))
      ensures var s := old(Get(d));
              && !Get(d).suspended && Get(d).limit == s.limit && Get(d).due == s.due
              && Get(d).held == s.held - Free(busy)
              && (Get(d).pending <==> exists m :: m in members && m in busy)
    {
      hide Lifted;
      var s, again := Get(d).(suspended := false), false;
      ghost var s0 := s;
      if nMembers > 0 {
        s, again := Round(s, rand % nMembers, busy);
      } else {
        NothingLifted(s0, busy);
      }
      AllLifted(s0, s, again, members, busy);
      Put(d, s.(pending := again));
    }

    /** FOREACH_RANDOM_ORDER from the member at place `which`: to the end, and then from
        the start until that member comes up again. */
    method Round(s0: GroupSide, which: nat, busy: set<nat>) returns (s: GroupSide, again: bool)
      requires ListOk() && which < |members|
      ensures Lifted(s0, s, again, members, busy)
    {
      hide Lifted;
      s, again := s0, false;
      NothingLifted(s0, busy);
      var first := members[which];
      assert members[which..which] == [];
      for k := which to |members|
        invariant Lifted(s0, s, again, members[which..k], busy)
      {
        s, again := Turn(s, again, members[k], busy, s0, members[which..k]);
        assert members[which..k] + [members[k]] == members[which..k + 1];
      }
      assert members[which..|members|] == members[which..] + members[..0];
      var k := 0;
      while k < |members| && members[k] != first
        invariant k <= which && Lifted(s0, s, again, members[which..] + members[..k], busy)
      {
        s, again := Turn(s, again, members[k], busy, s0, members[which..] + members[..k]);
        assert members[which..] + members[..k] + [members[k]] == members[which..] + members[..k + 1];
        k := k + 1;
      }
      assert k == which;
      SameMembers(s0, s, again, members, which, busy);
    }

    // ----- operations under the group lock -----

    /** The group part of _bufferevent_decrement_read_buckets and its twin. `busy` are the
        members that cannot be locked now, all that are joining among them. */
    method Charge(d: Dir, bytes: int, rand: nat, busy: set<nat>)
      requires Valid() && joining <= busy
      modifies this`read, this`write
      ensures Valid() && Get(d).limit == old(Get(d)).limit - bytes && Other(d) == old(Other(d))
      ensures Get(d).suspended <==> Get(d).limit <= 0
      ensures Get(d).held == (if Get(d).limit <= 0 then old(Get(d)).held + Free(busy)
                              else if old(Get(d)).suspended then old(Get(d)).held - Free(busy) else old(Get(d)).held)
    {
      hide RateOk;
      var s := Get(d);
      Put(d, s.(limit := s.limit - bytes));
      if Get(d).limit <= 0 {
        SuspendAll(d, busy);
      } else if s.suspended {
        UnsuspendAll(d, rand, busy);
      }
    }

    /** bufferevent_rate_limit_group_decrement_read and its twin. */
    method Decrement(d: Dir, decr: int, rand: nat, busy: set<nat>)
      requires Valid() && joining <= busy
      modifies this`read, this`write
      ensures Valid() && Get(d).limit == old(Get(d)).limit - decr && Other(d) == old(Other(d))
      ensures var s := old(Get(d));
              Get(d).held == (if s.limit > 0 >= Get(d).limit then s.held + Free(busy)
                              else if s.limit <= 0 < Get(d).limit then s.held - Free(busy) else s.held)
      ensures var s := old(Get(d));
              Get(d).suspended <==> if s.limit > 0 >= Get(d).limit then true
                                    else if s.limit <= 0 < Get(d).limit then false else s.suspended
    {
      hide RateOk;
      var oldLimit := Get(d).limit;
      var newLimit := oldLimit - decr;
      if oldLimit > 0 && newLimit <= 0 {
        Put(d, Get(d).(limit := newLimit));
        SuspendAll(d, busy);
      } else if oldLimit <= 0 && newLimit > 0 {
        Put(d, Get(d).(limit := newLimit));
        UnsuspendAll(d, rand, busy);
      } else {
        Put(d, Get(d).(limit := newLimit));
      }
    }

    /** The group part of _bufferevent_get_rlim_max for a member whose lock is held: its
        share, or nothing and a late suspension. */
    method Share(m: nat, d: Dir) returns (share: int)
      requires Valid() && m in members
      modifies this`read, this`write
      ensures Valid() && Other(d) == old(Other(d))
      ensures if Get(d).suspended then share == 0 && m in Get(d).held
              else Get(d) == old(Get(d)) && share >= minShare && share >= Quotient(Get(d).limit, |members|)
    {
      if Get(d).suspended {
        Put(d, Get(d).(held := Get(d).held + {m}));
        share := 0;
      } else {
        share := Quotient(Get(d).limit, nMembers);
        if share < minShare { share := minShare; }
      }
    }

    /** One direction of _bev_group_refill_callback: a suspension stays exactly while there
        are fewer tokens than the minimal share. */
    method RefillSide(d: Dir, rand: nat, busy: set<nat>)
      requires Valid() && joining <= busy
      modifies this`read, this`write
      ensures Valid() && Other(d) == old(Other(d)) && Get(d).limit == old(Get(d)).limit
      ensures Get(d).suspended <==> old(Get(d)).suspended && Get(d).limit < minShare
      ensures var lift := old(Get(d)).pending || (old(Get(d)).suspended && Get(d).limit >= minShare);
              && Get(d).held == (if lift then old(Get(d)).held - Free(busy) else old(Get(d)).held)
              && (Get(d).pending <==> lift && exists m :: m in members && m in busy)
    {
      hide RateOk;
      if Get(d).pending || (Get(d).suspended && Get(d).limit >= minShare) {
        UnsuspendAll(d, rand, busy);
      }
    }

    /** _bev_group_refill_callback: afterwards a suspension is kept exactly for lack of
        tokens, and lifting one is put off only for members that could not be locked. So a
        side still without tokens is let go if and only if it lacks none and the minimal
        share is nothing. */
    method RefillCallback(tick: nat, rand: nat, busy: set<nat>)
      requires Valid() && joining <= busy && tick < TICKS
      modifies this`read, this`write, this`lastUpdated
      ensures Valid()
      ensures forall d :: Get(d).limit == old(Now()).Awaited(d, tick)
      ensures forall d :: Get(d).suspended <==> old(Get(d)).suspended && Get(d).limit < minShare
      ensures forall d :: old(Get(d)).suspended && old(Now()).Awaited(d, tick) <= 0 ==>
                (!Get(d).suspended <==> old(Now()).Awaited(d, tick) == 0 && minShare == 0)
      ensures forall d :: old(Get(d)).limit > 0 ==> Get(d).limit > 0
      ensures forall d :: Get(d).pending ==> exists m :: m in members && m in busy
    {
      hide Refilled, RateOk;
      RefillNotLess(read.limit, cfg.read, Elapsed(lastUpdated, tick));
      RefillNotLess(write.limit, cfg.write, Elapsed(lastUpdated, tick));
      UpdateBucket(tick);
      RefillSide(Reading, rand, busy);
      RefillSide(Writing, rand, busy);
      assert Get(Reading) == read && Get(Writing) == write;
    }

    method UpdateBucket(tick: nat)
      requires Valid() && tick < TICKS
      modifies this`read, this`write, this`lastUpdated
      ensures Valid()
      ensures var n := Elapsed(old(lastUpdated), tick);
              if n == 0 || n > INT_MAX then
                read == old(read) && write == old(write) && lastUpdated == old(lastUpdated)
              else
                && read == old(read).(limit := Refilled(old(read).limit, cfg.read, n)) && lastUpdated == tick
                && write == old(write).(limit := Refilled(old(write).limit, cfg.write, n))
    {
      hide Refilled, RateOk;
      var n := Elapsed(lastUpdated, tick);
      if n == 0 || n > INT_MAX { return; }
      RefillNotLess(read.limit, cfg.read, n);
      RefillNotLess(write.limit, cfg.write, n);
      read := read.(limit := Refilled(read.limit, cfg.read, n));
      write := write.(limit := Refilled(write.limit, cfg.write, n));
      lastUpdated := tick;
    }

    /** bufferevent_rate_limit_group_set_cfg */
    method SetCfg(cfg': Cfg)
      requires Valid() && RateOk(cfg'.read) && RateOk(cfg'.write)
      modifies this`cfg, this`read, this`write, this`minShare
      ensures Valid() && cfg == cfg'
      ensures read == old(read).(limit := Clipped(old(read).limit, cfg'.read, true))
      ensures write == old(write).(limit := Clipped(old(write).limit, cfg'.write, true))
      ensures cfg'.read.maximum > 0 && cfg'.write.maximum > 0
    {
      cfg := cfg';
      if read.limit > cfg.read.maximum { read := read.(limit := cfg.read.maximum); }
      if write.limit > cfg.write.maximum { write := write.(limit := cfg.write.maximum); }
      minShare := Least(Least(configuredMinShare, cfg.read.rate), cfg.write.rate);
    }

    /** bufferevent_rate_limit_group_set_min_share */
    method SetMinShare(share: nat)
      requires Valid()
      modifies this`minShare, this`configuredMinShare, this`shared
      ensures Valid() && configuredMinShare == share && (shared <==> old(shared) && share > 0)
    {
      configuredMinShare := share;
      minShare := Least(Least(share, cfg.read.rate), cfg.write.rate);
      shared := shared && share > 0;
    }

    // ----- membership -----

    /** The first half of bufferevent_add_to_rate_limit_group: enter the list and see
        whether the group is suspended. The bufferevent's lock stays held. */
    method JoinList(m: nat)
      requires Valid() && m !in members && m !in read.held && m !in write.held
      modifies this`members, this`nMembers, this`read, this`write, this`joining
      ensures Valid() && members == old(members) + [m] && joining == old(joining) + {m}
      ensures read == old(read).(due := old(read).due + if old(read).suspended then {m} else {})
      ensures write == old(write).(due := old(write).due + if old(write).suspended then {m} else {})
    {
      members := members + [m];
      nMembers := nMembers + 1;
      joining := joining + {m};
      read := read.(due := read.due + if read.suspended then {m} else {});
      write := write.(due := write.due + if write.suspended then {m} else {});
    }

    /** The second half, after the group lock was let go: suspend as seen then. */
    method JoinSuspend(m: nat)
      requires Valid() && m in joining
      modifies this`read, this`write, this`joining
      ensures Valid() && joining == old(joining) - {m}
      ensures read == if m in old(read).due then JoinedSide(old(read), m) else old(read)
      ensures write == if m in old(write).due then JoinedSide(old(write), m) else old(write)
    {
      if m in read.due { read := JoinedSide(read, m); }
      if m in write.due { write := JoinedSide(write, m); }
      joining := joining - {m};
    }

    /** bufferevent_remove_from_rate_limit_group_internal by a thread that could lock the
        bufferevent. */
    method Leave(m: nat, unsuspend: bool)
      requires Valid() && m in members && m !in joining
      modifies this`members, this`nMembers, this`read, this`write
      ensures Valid() && members == Removed(old(members), m) && m !in members
      ensures read == old(read).(held := old(read).held - if unsuspend then {m} else {})
      ensures write == old(write).(held := old(write).held - if unsuspend then {m} else {})
    {
      RemovedFacts(members, m);
      nMembers := nMembers - 1;
      members := Removed(members, m);
      if unsuspend {
        read := read.(held := read.held - {m});
        write := write.(held := write.held - {m});
      }
    }

    /** One turn of the loops: lift the suspension of a member, or note that it could not
        be locked. */
    method Turn(s: GroupSide, again: bool, m: nat, busy: set<nat>, ghost s0: GroupSide, ghost visited: seq<nat>)
      returns (s': GroupSide, again': bool)
      requires Lifted(s0, s, again, visited, busy)
      ensures Lifted(s0, s', again', visited + [m], busy)
    {
      s', again' := s, again;
      if m !in busy { s' := s.(held := s.held - {m}); } else { again' := true; }
    }
  }

  /** What the turns for `visited` make of `s0`. */
  ghost predicate Lifted(s0: GroupSide, s: GroupSide, again: bool, visited: seq<nat>, busy: set<nat>)
  {
    && s == s0.(held := s0.held - (set m | m in visited && m !in busy))
    && (again <==> exists m :: m in visited && m in busy)
  }

  lemma NothingLifted(s: GroupSide, busy: set<nat>)
    ensures Lifted(s, s, false, [], busy)
  {
    assert s.held - {} == s.held;
  }

  /** Going round the list from anywhere meets each member once. */
  lemma SameMembers(s0: GroupSide, s: GroupSide, again: bool, members: seq<nat>, which: nat, busy: set<nat>)
    requires which <= |members| && Lifted(s0, s, again, members[which..] + members[..which], busy)
    ensures Lifted(s0, s, again, members, busy)
    ensures multiset(members[which..] + members[..which]) == multiset(members)
  {
    assert members == members[..which] + members[which..];
    forall m: nat ensures m in members[which..] + members[..which] <==> m in members { }
  }

  lemma AllLifted(s0: GroupSide, s: GroupSide, again: bool, members: seq<nat>, busy: set<nat>)
    requires Lifted(s0, s, again, members, busy)
    ensures s == s0.(held := s0.held - (set m | m in members && m !in busy))
    ensures again <==> exists m :: m in members && m in busy
  {
  }

  // ----- runs -----

  /** What threads may do to a group. `busy` are bufferevents locked by other threads at
      that moment; those joining always are. */
  datatype Call =
    | DoCharge(d: Dir, bytes: int, rand: nat, busy: set<nat>)
    | DoDecrement(d: Dir, decr: int, rand: nat, busy: set<nat>)
    | DoShare(m: nat, d: Dir)
    | DoRefill(tick: nat, rand: nat, busy: set<nat>)
    | DoSetCfg(cfg: Cfg)
    | DoSetMinShare(share: nat)
    | DoJoinList(m: nat)
    | DoJoinSuspend(m: nat)
    | DoLeave(m: nat)

  /** The call is a refill that finds a side just out of tokens, with a minimal share of
      nothing. */
  predicate Slips(now: Moment, call: Call, d: Dir)
  {
    && call.DoRefill? && now.minShare == 0 && now.Get(d).suspended
    && now.lastUpdated < TICKS && now.Awaited(d, call.tick % TICKS) == 0
  }

  /** One call. If a side without tokens was suspended before it, that is so afterwards unless
      the call is a refill that slips, and then it is not. */
  method Perform(g: Group, call: Call)
    requires g.Valid()
    modifies g
    ensures g.Valid()
    ensures g.shared <==> old(g.shared) && (call.DoSetMinShare? ==> call.share > 0)
    ensures forall d :: old(g.Now()).Held(d) ==> (g.Now().Held(d) <==> !Slips(old(g.Now()), call, d))
  {
    hide RateOk, Updated, Elapsed;
    match call {
      case DoCharge(d, bytes, rand, busy) => g.Charge(d, bytes, rand, busy + g.joining);
      case DoDecrement(d, decr, rand, busy) => g.Decrement(d, decr, rand, busy + g.joining);
      case DoShare(m, d) => if m in g.members { var share := g.Share(m, d); }
      case DoRefill(tick, rand, busy) =>
        ghost var now := g.Now();
        g.RefillCallback(tick % TICKS, rand, busy + g.joining);
        assert forall d :: now.Get(d) == old(g.Get(d)) && g.Now().Get(d) == g.Get(d);
      case DoSetCfg(cfg) =>
        if Accepted(cfg) { g.SetCfg(cfg); }
      case DoSetMinShare(share) => g.SetMinShare(share);
      case DoJoinList(m) =>
        if m !in g.members && m !in g.read.held && m !in g.write.held { g.JoinList(m); }
      case DoJoinSuspend(m) => if m in g.joining { g.JoinSuspend(m); }
      case DoLeave(m) => if m in g.members && m !in g.joining { g.Leave(m, true); }
    }
  }

  predicate Accepted(cfg: Cfg)
  {
    RateOk(cfg.read) && RateOk(cfg.write)
  }

  /** At every moment each side without tokens is suspended. */
  ghost predicate AlwaysHeld(trace: seq<Moment>)
  {
    forall k, d :: 0 <= k < |trace| ==> trace[k].Held(d)
  }

  /** No call is a refill that slips. */
  ghost predicate NeverSlips(trace: seq<Moment>, calls: seq<Call>)
    requires |trace| > |calls|
  {
    forall k, d :: 0 <= k < |calls| ==> !Slips(trace[k], calls[k], d)
  }

  /** Over every run, whichever locks fail: a suspension some member carries is either the
      group's own or remembered as one to lift, no one is forgotten; and a side without tokens
      is suspended at every moment of the run if and only if no refill finds one just out of
      tokens with a minimal share of nothing. A share that was always positive is enough. */
  method Run(cfg: Cfg, tick: nat, calls: seq<Call>) returns (g: Group, ghost trace: seq<Moment>)
    requires RateOk(cfg.read) && RateOk(cfg.write) && tick < TICKS
    ensures g.Valid()
    ensures forall d :: !g.Get(d).suspended && (exists m :: m in g.members && m in g.Get(d).held) ==> g.Get(d).pending
    ensures |trace| == |calls| + 1 && trace[|calls|] == g.Now()
    ensures AlwaysHeld(trace) <==> NeverSlips(trace, calls)
    ensures (forall k :: 0 <= k < |calls| && calls[k].DoSetMinShare? ==> calls[k].share > 0) ==> AlwaysHeld(trace)
  {
    hide RateOk, AlwaysHeld, NeverSlips;
    g := new Group(cfg, tick);
    trace := [g.Now()];
    HeldFirst(g);
    assert calls[..0] == [];
    for k := 0 to |calls|
      invariant g.Valid() && fresh(g)
      invariant |trace| == k + 1 && trace[k] == g.Now()
      invariant AlwaysHeld(trace) <==> NeverSlips(trace, calls[..k])
      invariant (forall j :: 0 <= j < k && calls[j].DoSetMinShare? ==> calls[j].share > 0) ==> g.shared && AlwaysHeld(trace)
    {
      ghost var before := trace;
      Perform(g, calls[k]);
      trace := trace + [g.Now()];
      HeldStep(before, calls[..k], calls[k], g.Now());
      if g.shared { SharedHeld(g); }
      assert calls[..k + 1] == calls[..k] + [calls[k]];
    }
    assert calls[..|calls|] == calls;
  }

  lemma HeldFirst(g: Group)
    requires forall d :: g.Get(d).limit > 0
    ensures AlwaysHeld([g.Now()]) && NeverSlips([g.Now()], [])
  {
    assert forall d :: g.Now().Get(d) == g.Get(d);
  }

  lemma HeldStep(trace: seq<Moment>, calls: seq<Call>, call: Call, now: Moment)
    requires |trace| == |calls| + 1 && (AlwaysHeld(trace) <==> NeverSlips(trace, calls))
    requires forall d :: trace[|calls|].Held(d) ==> (now.Held(d) <==> !Slips(trace[|calls|], call, d))
    ensures AlwaysHeld(trace + [now]) <==> NeverSlips(trace + [now], calls + [call])
    ensures AlwaysHeld(trace + [now]) <==> AlwaysHeld(trace) && forall d :: now.Held(d)
  {
    var more, all := trace + [now], calls + [call];
    assert forall k :: 0 <= k < |trace| ==> more[k] == trace[k];
    assert forall k :: 0 <= k < |calls| ==> all[k] == calls[k];
    assert more[|trace|] == now && all[|calls|] == call;
    hide Slips;
    if AlwaysHeld(trace) && NeverSlips(trace, calls) {
      if NeverSlips(more, all) {
        forall k, d | 0 <= k < |more| ensures more[k].Held(d)
        {
          assert !Slips(more[|calls|], all[|calls|], d);
        }
      }
      if AlwaysHeld(more) {
        forall k, d | 0 <= k < |all| ensures !Slips(more[k], all[k], d)
        {
          assert more[|trace|].Held(d);
        }
      }
    } else {
      var k, d :| 0 <= k < |calls| && Slips(trace[k], calls[k], d);
      assert Slips(more[k], all[k], d);
      var k', d' :| 0 <= k' < |trace| && !trace[k'].Held(d');
      assert !more[k'].Held(d');
    }
  }

  lemma SharedHeld(g: Group)
    requires g.Valid() && g.shared
    ensures forall d :: g.Now().Held(d)
  {
  }

  /** With a minimal share of nothing a group that has spent its last token is let go
      again before it gets another. */
  method NoShareNoTokens() returns (g: Group)
    ensures fresh(g) && g.Valid() && g.read.limit == 0 && !g.read.suspended
  {
    g := new Group(Cfg(Rate(100, 100), Rate(100, 100)), 7);
    g.SetMinShare(0);
    g.Charge(Reading, 100, 0, {});
    assert g.Get(Reading) == g.read && g.Now().Awaited(Reading, 7) == 0;
    g.RefillCallback(7, 0, {});
    assert g.Get(Reading) == g.read;
  }
}
