/** Token buckets and the suspension of a bufferevent that has used up its bandwidth
    (bufferevent_ratelim.c, bufferevent.c). */
module RateLimit {
  import opened Common

  const TICKS := 0x1_0000_0000      // ev_uint32_t
  const INT_MAX := 0x7fff_ffff
  const WORD := 0x1_0000_0000_0000_0000   // size_t

  /** One direction of struct ev_token_bucket_cfg. */
  datatype Rate = Rate(rate: nat, maximum: nat)

  /** ev_token_bucket_cfg_new accepts these. */
  predicate RateOk(r: Rate)
  {
    1 <= r.rate <= r.maximum < WORD / 2
  }

  // ----- one bucket -----

  /** The ticks gone by, counted by a counter that wraps around. */
  function Elapsed(last: nat, tick: nat): nat
  {
    (tick - last) % TICKS
  }

  /** What ev_token_bucket_update makes of a limit after `n` ticks. The subtraction is
      one of unsigned words. */
  function Refilled(limit: int, r: Rate, n: nat): int
    requires n > 0
  {
    if ((r.maximum - limit) % WORD) / n < r.rate then r.maximum else limit + n * r.rate
  }

  /** What it is meant to be. */
  function Capped(limit: int, r: Rate, n: nat): int
  {
    if limit + n * r.rate > r.maximum then r.maximum else limit + n * r.rate
  }

  lemma QuotientLess(a: nat, n: nat, rate: nat)
    requires n > 0
    ensures a / n < rate <==> a < n * rate
  {
    var q := a / n;
    assert a == q * n + a % n;
    if q < rate {
      assert (q + 1) * n <= rate * n by { MulMono(q + 1, rate, n); }
    } else {
      assert rate * n <= q * n by { MulMono(rate, q, n); }
    }
  }

  lemma {:induction false} MulMono(a: nat, b: nat, n: nat)
    requires a <= b
    ensures a * n <= b * n
  {
    if n > 0 { MulMono(a, b, n - 1); }
  }

  /** Updating tops the bucket up to its maximum, exactly when the limit is not above that
      already, or by so much that the difference wraps around. */
  lemma RefillIsCapped(limit: int, r: Rate, n: nat)
    requires RateOk(r) && n > 0 && -(WORD / 2) <= limit && limit - r.maximum < WORD
    ensures Refilled(limit, r, n) == Capped(limit, r, n) <==> limit <= r.maximum || WORD - (limit - r.maximum) < n * r.rate
  {
    var d := r.maximum - limit;
    QuotientLess(d % WORD, n, r.rate);
    MulMono(1, r.rate, n);
    assert 1 * n == n && r.rate * n == n * r.rate;
    if limit <= r.maximum {
      assert d % WORD == d;
    } else {
      assert d % WORD == d + WORD;
    }
  }

  /** A limit that refunds have lifted above the maximum goes on growing. */
  lemma AboveMaximumGrows()
    ensures Refilled(1001, Rate(100, 1000), 1) == 1101 && Capped(1001, Rate(100, 1000), 1) == 1000
  {
    assert (1000 - 1001) % WORD == WORD - 1;
  }

  /** With the limit within its maximum nothing overflows a signed word. */
  lemma RefillInRange(limit: int, r: Rate, n: nat)
    requires RateOk(r) && n > 0 && -(WORD / 2) <= limit <= r.maximum
    ensures limit <= Refilled(limit, r, n) <= r.maximum && Refilled(limit, r, n) == Capped(limit, r, n)
    ensures limit <= 0 ==> 0 <= r.maximum - limit < WORD
  {
    RefillIsCapped(limit, r, n);
    MulMono(0, r.rate, n);
    assert 0 * n == 0 && r.rate * n == n * r.rate;
  }

  /** Two updates in a row are one, also across the wrap-around of the counter. */
  lemma UpdatesCompose(limit: int, r: Rate, last: nat, t1: nat, t2: nat)
    requires RateOk(r) && -(WORD / 2) <= limit <= r.maximum && last < TICKS && t1 < TICKS && t2 < TICKS
    requires 0 < Elapsed(last, t1) && 0 < Elapsed(t1, t2) && Elapsed(last, t1) + Elapsed(t1, t2) <= INT_MAX
    ensures Elapsed(last, t2) == Elapsed(last, t1) + Elapsed(t1, t2)
    ensures Refilled(Refilled(limit, r, Elapsed(last, t1)), r, Elapsed(t1, t2)) == Refilled(limit, r, Elapsed(last, t2))
  {
    hide Refilled, Elapsed, Capped;
    var a, b := Elapsed(last, t1), Elapsed(t1, t2);
    WrapAdds(last, t1, t2);
    RefillInRange(limit, r, a);
    RefillInRange(Refilled(limit, r, a), r, b);
    RefillInRange(limit, r, a + b);
    CappedComposes(limit, r, a, b);
  }

  lemma CappedComposes(limit: int, r: Rate, a: nat, b: nat)
    ensures Capped(Capped(limit, r, a), r, b) == Capped(limit, r, a + b)
  {
    Distribute(a, b, r.rate);
  }

  lemma Distribute(a: nat, b: nat, x: nat)
    ensures (a + b) * x == a * x + b * x && b * x >= 0
  {
  }

  lemma WrapAdds(last: nat, t1: nat, t2: nat)
    requires last < TICKS && t1 < TICKS && t2 < TICKS && Elapsed(last, t1) + Elapsed(t1, t2) < TICKS
    ensures Elapsed(last, t2) == Elapsed(last, t1) + Elapsed(t1, t2)
  {
  }

  // ----- what a bucket lets through -----

  /** The counter is read, or bytes are charged. */
  datatype Use = Tick(tick: nat) | Charge(bytes: nat)

  datatype Bucket = Bucket(limit: int, last: nat)

  /** ev_token_bucket_update, one direction. */
  function Update(b: Bucket, r: Rate, tick: nat): Bucket
  {
    var n := Elapsed(b.last, tick);
    if n == 0 || n > INT_MAX then b else Bucket(Refilled(b.limit, r, n), tick)
  }

  function Step(b: Bucket, r: Rate, u: Use): Bucket
  {
    match u
    case Tick(t) => Update(b, r, t)
    case Charge(k) => b.(limit := b.limit - k)
  }

  function After(b: Bucket, r: Rate, uses: seq<Use>): Bucket
  {
    if uses == [] then b else Step(After(b, r, uses[..|uses| - 1]), r, uses[|uses| - 1])
  }

  function Charged(uses: seq<Use>): nat
  {
    if uses == [] then 0
    else Charged(uses[..|uses| - 1]) + (if uses[|uses| - 1].Charge? then uses[|uses| - 1].bytes else 0)
  }

  /** The ticks that counted. */
  function Ticked(b: Bucket, r: Rate, uses: seq<Use>): nat
  {
    if uses == [] then 0
    else
      var n := if uses[|uses| - 1].Tick? then Elapsed(After(b, r, uses[..|uses| - 1]).last, uses[|uses| - 1].tick) else 0;
      Ticked(b, r, uses[..|uses| - 1]) + (if n > INT_MAX then 0 else n)
  }

  /** Over any run of updates and charges no more is charged than was there at first and
      came in at the given rate, less what is left; and the limit stays within its
      maximum. */
  lemma {:induction false} BandwidthBound(b: Bucket, r: Rate, uses: seq<Use>)
    requires RateOk(r) && b.limit <= r.maximum
    requires forall k :: 0 <= k <= |uses| ==> After(b, r, uses[..k]).limit >= -(WORD / 2)
    ensures After(b, r, uses).limit <= r.maximum
    ensures Charged(uses) <= b.limit + r.rate * Ticked(b, r, uses) - After(b, r, uses).limit
  {
    hide Refilled, Elapsed;
    if uses == [] {
      assert uses[..0] == [] && r.rate * 0 == 0;
    } else {
      var init, u := uses[..|uses| - 1], uses[|uses| - 1];
      forall k | 0 <= k <= |init| ensures After(b, r, init[..k]).limit >= -(WORD / 2) { assert init[..k] == uses[..k]; }
      BandwidthBound(b, r, init);
      assert init == uses[..|init|];
      UpdateBound(After(b, r, init), r, if u.Tick? then u.tick else 0, Ticked(b, r, init));
    }
  }

  /** What one update adds. */
  lemma UpdateBound(c: Bucket, r: Rate, tick: nat, before: nat)
    requires RateOk(r) && -(WORD / 2) <= c.limit <= r.maximum
    ensures var n := Elapsed(c.last, tick); var counted := if n > INT_MAX then 0 else n;
            Update(c, r, tick).limit <= r.maximum
            && Update(c, r, tick).limit - c.limit <= r.rate * (before + counted) - r.rate * before
  {
    hide Refilled;
    var n := Elapsed(c.last, tick);
    if 0 < n <= INT_MAX {
      RefillInRange(c.limit, r, n);
      Distribute(before, n, r.rate);
      assert (before + n) * r.rate == r.rate * (before + n) && before * r.rate == r.rate * before;
    }
  }

  // ----- one bufferevent -----

  datatype Dir = Reading | Writing

  /** BEV_SUSPEND_* */
  datatype Flag = Watermark | Bw | BwGroup | Lookup | FiltRead

  /** struct ev_token_bucket_cfg */
  datatype Cfg = Cfg(read: Rate, write: Rate)

  /** A bucket's limit after an update `n` ticks on, if that many count. */
  function Updated(limit: int, r: Rate, n: nat): int
  {
    if n == 0 || n > INT_MAX then limit else Refilled(limit, r, n)
  }

  /** What a (re)initialization leaves in a bucket. */
  function Clipped(limit: int, r: Rate, reinitialize: bool): int
  {
    if !reinitialize then r.rate else if limit > r.maximum then r.maximum else limit
  }

  /** One direction of a bufferevent: how much it may still transfer, why it is
      suspended, whether the program enabled it and whether the transport has it on. */
  datatype Side = Side(limit: int, suspended: set<Flag>, enabled: bool, on: bool)

  class Bufferevent {
    var read: Side
    var write: Side
    var lastUpdated: nat
    var cfg: Option<Cfg>
    /** Whether refill_bucket_event is pending. */
    var armed: bool

    function Get(d: Dir): Side
      reads this
    {
      if d.Reading? then read else write
    }

    function Other(d: Dir): Side
      reads this
    {
      if d.Reading? then write else read
    }

    /** A direction out of tokens is suspended for it, and while one is suspended for
        that the refill timer is pending; the transport is on just where the program
        wants it and nothing is in the way. */
    ghost predicate Valid()
      reads this
    {
      && (cfg.Some? ==> RateOk(cfg.value.read) && RateOk(cfg.value.write))
      && (cfg.Some? && read.limit <= 0 ==> Bw in read.suspended)
      && (cfg.Some? && write.limit <= 0 ==> Bw in write.suspended)
      && (Bw in read.suspended || Bw in write.suspended ==> cfg.Some? && armed)
      && read.on == (read.enabled && read.suspended == {})
      && write.on == (write.enabled && write.suspended == {})
      && lastUpdated < TICKS
    }

    constructor ()
      ensures Valid() && cfg.None?
    {
      read, write := Side(0, {}, false, false), Side(0, {}, false, false);
      lastUpdated, cfg, armed := 0, None, false;
    }

    method Put(d: Dir, s: Side)
      modifies this`read, this`write
      ensures Get(d) == s && Other(d) == old(Other(d))
    {
      if d.Reading? { read := s; } else { write := s; }
    }

    // ----- bufferevent.c -----

    /** bufferevent_suspend_read, bufferevent_suspend_write */
    method Suspend(d: Dir, what: Flag)
      modifies this`read, this`write
      ensures Other(d) == old(Other(d))
      ensures Get(d) == old(Get(d)).(suspended := old(Get(d)).suspended + {what},
                                      on := old(Get(d)).on && old(Get(d)).suspended != {})
    {
      var s := Get(d);
      if s.suspended == {} { s := s.(on := false); }
      Put(d, s.(suspended := s.suspended + {what}));
    }

    /** bufferevent_unsuspend_read, bufferevent_unsuspend_write */
    method Unsuspend(d: Dir, what: Flag)
      modifies this`read, this`write
      ensures Other(d) == old(Other(d))
      ensures var s := old(Get(d)); var left := s.suspended - {what};
              Get(d) == s.(suspended := left, on := s.on || (left == {} && s.enabled))
    {
      var s := Get(d);
      s := s.(suspended := s.suspended - {what});
      if s.suspended == {} && s.enabled { s := s.(on := true); }
      Put(d, s);
    }

    /** bufferevent_enable for one direction. */
    method Enable(d: Dir)
      requires Valid()
      modifies this`read, this`write
      ensures Valid() && Get(d).enabled && Other(d) == old(Other(d))
    {
      var s := Get(d);
      var impl := s.suspended == {};
      s := s.(enabled := true);
      if impl { s := s.(on := true); }
      Put(d, s);
    }

    /** bufferevent_disable for one direction. */
    method Disable(d: Dir)
      requires Valid()
      modifies this`read, this`write
      ensures Valid() && !Get(d).enabled && Other(d) == old(Other(d))
    {
      Put(d, Get(d).(enabled := false, on := false));
    }

    // ----- bufferevent_ratelim.c -----

    /** ev_token_bucket_update for both directions. */
    method UpdateBucket(tick: nat) returns (updated: bool)
      requires cfg.Some? && tick < TICKS && lastUpdated < TICKS
      modifies this`read, this`write, this`lastUpdated
      ensures var n := Elapsed(old(lastUpdated), tick);
              && updated == (0 < n <= INT_MAX)
              && (!updated ==> read == old(read) && write == old(write) && lastUpdated == old(lastUpdated))
              && (updated ==>
                    && lastUpdated == tick
                    && read == old(read).(limit := Refilled(old(read).limit, cfg.value.read, n))
                    && write == old(write).(limit := Refilled(old(write).limit, cfg.value.write, n)))
    {
      var n := Elapsed(lastUpdated, tick);
      if n == 0 || n > INT_MAX { return false; }
      read := read.(limit := Refilled(read.limit, cfg.value.read, n));
      write := write.(limit := Refilled(write.limit, cfg.value.write, n));
      lastUpdated := tick;
      updated := true;
    }

    /** _bufferevent_decrement_read_buckets and its twin: charge `bytes`, or refund them
        when negative. */
    method DecrementBuckets(d: Dir, bytes: int)
      requires Valid()
      modifies this`read, this`write, this`armed
      ensures Valid() && Other(d) == old(Other(d))
      ensures Get(d).limit == old(Get(d)).limit - (if cfg.Some? then bytes else 0)
      ensures cfg.Some? ==> (Bw in Get(d).suspended <==> Get(d).limit <= 0)
      ensures Get(d).suspended - {Bw} == old(Get(d)).suspended - {Bw} && Get(d).enabled == old(Get(d)).enabled
    {
      if cfg.None? { return; }
      Put(d, Get(d).(limit := Get(d).limit - bytes));
      if Get(d).limit <= 0 {
        Suspend(d, Bw);
        armed := true;
      } else if Bw in Get(d).suspended {
        if Bw !in Other(d).suspended { armed := false; }
        Unsuspend(d, Bw);
      }
    }

    /** bufferevent_decrement_read_limit and its twin, for the program's own use. */
    method DecrementLimit(d: Dir, decr: int)
      requires Valid() && cfg.Some?
      modifies this`read, this`write, this`armed
      ensures Valid() && Other(d) == old(Other(d)) && Get(d).limit == old(Get(d)).limit - decr
      ensures var was, now := old(Get(d)).limit, Get(d).limit;
              && (Get(d).suspended == if was > 0 >= now then old(Get(d)).suspended + {Bw}
                                      else if was <= 0 < now then old(Get(d)).suspended - {Bw} else old(Get(d)).suspended)
              && (armed <==> if was > 0 >= now then true
                             else if was <= 0 < now then old(armed) && Bw in old(Other(d)).suspended else old(armed))
      ensures Get(d).enabled == old(Get(d)).enabled
    {
      var oldLimit := Get(d).limit;
      var newLimit := oldLimit - decr;
      Put(d, Get(d).(limit := newLimit));
      if oldLimit > 0 && newLimit <= 0 {
        Suspend(d, Bw);
        armed := true;
      } else if oldLimit <= 0 && newLimit > 0 {
        if Bw !in Other(d).suspended { armed := false; }
        Unsuspend(d, Bw);
      }
    }

    /** _bufferevent_get_rlim_max without a group: no more than the tokens there are. */
    method GetMax(d: Dir, tick: nat) returns (max: int)
      requires Valid() && tick < TICKS
      modifies this`read, this`write, this`lastUpdated
      ensures Valid() && armed == old(armed)
      ensures Get(d).suspended == old(Get(d)).suspended && Other(d).suspended == old(Other(d)).suspended
      ensures if cfg.None? then max == 16384 else max == if Get(d).limit < 0 then 0 else Get(d).limit
      ensures cfg.Some? ==>
                read.limit == Updated(old(read).limit, cfg.value.read, Elapsed(old(lastUpdated), tick))
                && write.limit == Updated(old(write).limit, cfg.value.write, Elapsed(old(lastUpdated), tick))
    {
      max := 16384;
      if cfg.None? { return; }
      if tick != lastUpdated {
        RefillNotLess(read.limit, cfg.value.read, Elapsed(lastUpdated, tick));
        RefillNotLess(write.limit, cfg.value.write, Elapsed(lastUpdated, tick));
        var updated := UpdateBucket(tick);
      }
      max := Get(d).limit;
      if max < 0 { max := 0; }
    }

    /** _bev_refill_callback, which ran because the timer expired. */
    method RefillCallback(tick: nat)
      requires Valid() && tick < TICKS && armed
      modifies this
      ensures Valid() && cfg == old(cfg)
      ensures cfg.Some? ==> (forall d :: Bw in Get(d).suspended ==> Get(d).limit <= 0)
      ensures forall d :: Get(d).suspended - {Bw} == old(Get(d)).suspended - {Bw} && Get(d).enabled == old(Get(d)).enabled
      ensures cfg.Some? ==>
                read.limit == Updated(old(read).limit, cfg.value.read, Elapsed(old(lastUpdated), tick))
                && write.limit == Updated(old(write).limit, cfg.value.write, Elapsed(old(lastUpdated), tick))
      ensures armed ==> Bw in read.suspended || Bw in write.suspended
    {
      hide Refilled, Elapsed, RateOk;
      armed := false;
      if cfg.None? { return; }
      RefillNotLess(read.limit, cfg.value.read, Elapsed(lastUpdated, tick));
      RefillNotLess(write.limit, cfg.value.write, Elapsed(lastUpdated, tick));
      var updated := UpdateBucket(tick);
      var again := Resume(Reading);
      var more := Resume(Writing);
      if again || more { armed := true; }
    }

    /** Lift the suspension of a direction that has tokens again; true if it has none. */
    method Resume(d: Dir) returns (again: bool)
      modifies this`read, this`write
      ensures Other(d) == old(Other(d))
      ensures again == (Bw in old(Get(d)).suspended && old(Get(d)).limit <= 0)
      ensures var s := old(Get(d));
              if Bw in s.suspended && s.limit > 0 then
                var left := s.suspended - {Bw};
                Get(d) == s.(suspended := left, on := s.on || (left == {} && s.enabled))
              else Get(d) == s
    {
      again := false;
      if Bw in Get(d).suspended {
        if Get(d).limit > 0 { Unsuspend(d, Bw); } else { again := true; }
      }
    }

    /** bufferevent_set_rate_limit; `same` tells whether `cfg'` is the one in use. */
    method SetRateLimit(cfg': Option<Cfg>, same: bool, tick: nat)
      requires Valid() && tick < TICKS
      requires cfg'.Some? ==> RateOk(cfg'.value.read) && RateOk(cfg'.value.write)
      requires same ==> cfg' == cfg
      modifies this
      ensures Valid() && cfg == cfg'
      ensures !same && cfg.Some? ==>
                && read.limit == Clipped(old(read).limit, cfg.value.read, old(cfg).Some?)
                && write.limit == Clipped(old(write).limit, cfg.value.write, old(cfg).Some?)
                && forall d :: Bw in Get(d).suspended <==> Get(d).limit <= 0
    {
      if cfg'.None? {
        cfg := None;
        Unsuspend(Reading, Bw);
        Unsuspend(Writing, Bw);
        armed := false;
        assert Bw !in read.suspended && Bw !in write.suspended;
        return;
      }
      if same { return; }
      var reinit := cfg.Some?;
      cfg := cfg';
      InitBucket(tick, reinit);
      armed := false;
      var suspended := Settle(Reading);
      var too := Settle(Writing);
      if suspended || too { armed := true; }
    }

    /** Suspend a direction or not, as its tokens demand. */
    method Settle(d: Dir) returns (suspended: bool)
      requires Get(d).on == (Get(d).enabled && Get(d).suspended == {})
      modifies this`read, this`write
      ensures Other(d) == old(Other(d)) && suspended == (Get(d).limit <= 0)
      ensures Get(d).limit == old(Get(d)).limit && (Bw in Get(d).suspended <==> suspended)
      ensures Get(d).on == (Get(d).enabled && Get(d).suspended == {})
    {
      suspended := Get(d).limit <= 0;
      if suspended { Suspend(d, Bw); } else { Unsuspend(d, Bw); }
    }

    /** ev_token_bucket_init: a fresh bucket holds one tick's worth, one in use is only
        clipped. */
    method InitBucket(tick: nat, reinitialize: bool)
      requires cfg.Some?
      modifies this`read, this`write, this`lastUpdated
      ensures lastUpdated == if reinitialize then old(lastUpdated) else tick
      ensures read == old(read).(limit := Clipped(old(read).limit, cfg.value.read, reinitialize))
      ensures write == old(write).(limit := Clipped(old(write).limit, cfg.value.write, reinitialize))
    {
      var c := cfg.value;
      if reinitialize {
        if read.limit > c.read.maximum { read := read.(limit := c.read.maximum); }
        if write.limit > c.write.maximum { write := write.(limit := c.write.maximum); }
      } else {
        read := read.(limit := c.read.rate);
        write := write.(limit := c.write.rate);
        lastUpdated := tick;
      }
    }
  }

  /** A refill never takes tokens away that were there, nor drains a full bucket. */
  lemma RefillNotLess(limit: int, r: Rate, n: nat)
    requires RateOk(r)
    ensures n > 0 && limit > 0 ==> Refilled(limit, r, n) > 0
  {
    if n > 0 { MulMono(0, r.rate, n); }
  }

  // ----- runs of one bufferevent -----

  datatype Call =
    | DoCharge(d: Dir, bytes: int)
    | DoDecrement(d: Dir, decr: int)
    | DoGetMax(d: Dir, tick: nat)
    | DoRefill(tick: nat)
    | DoSetRate(cfg: Option<Cfg>, same: bool, tick: nat)
    | DoEnable(d: Dir, enable: bool)
    | DoOther(d: Dir, what: Flag, suspend: bool)

  /** No run leaves a bufferevent stuck: whenever a direction has no tokens the timer that
      will refill it is pending, and whatever else suspends it is left alone. */
  method Run(calls: seq<Call>) returns (bev: Bufferevent)
    ensures bev.Valid()
  {
    bev := new Bufferevent();
    for k := 0 to |calls|
      invariant bev.Valid() && fresh(bev)
    {
      Perform(bev, calls[k]);
    }
  }

  method Perform(bev: Bufferevent, call: Call)
    requires bev.Valid()
    modifies bev
    ensures bev.Valid()
  {
    match call {
      case DoCharge(d, bytes) => bev.DecrementBuckets(d, bytes);
      case DoDecrement(d, decr) => if bev.cfg.Some? { bev.DecrementLimit(d, decr); }
      case DoGetMax(d, tick) => var max := bev.GetMax(d, tick % TICKS);
      case DoRefill(tick) => if bev.armed { bev.RefillCallback(tick % TICKS); }
      case DoSetRate(cfg, same, tick) =>
        if cfg.Some? ==> RateOk(cfg.value.read) && RateOk(cfg.value.write) {
          bev.SetRateLimit(cfg, same && cfg == bev.cfg, tick % TICKS);
        }
      case DoEnable(d, enable) => if enable { bev.Enable(d); } else { bev.Disable(d); }
      case DoOther(d, what, suspend) =>
        if what != Bw {
          if suspend { bev.Suspend(d, what); } else { bev.Unsuspend(d, what); }
        }
    }
  }
}
