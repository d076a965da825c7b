/** The bookkeeping of DNS requests (evdns.c): those in flight, in rings hashed by
    transaction id, and those waiting for one of the others to end. */
module DnsRequests {
  import opened Common
  import opened Bags
  import opened DnsRings

  const NO_ID := 0xffff

  /** struct request, as far as the lists go: its transaction id and its nameserver. */
  datatype Req = Req(transId: nat, ns: Option<nat>)

  type Reqs = map<nat, Req>

  // ----- properties of the lists -----

  /** A request in bucket `b` of `n` has a nameserver, and an id that leads there. */
  predicate Flies(reqs: Reqs, n: nat, b: nat, r: nat)
    requires n > 0
  {
    r in reqs && reqs[r].ns.Some? && reqs[r].transId < NO_ID && reqs[r].transId % n == b
  }

  ghost predicate AllFly(reqs: Reqs, rings: seq<seq<nat>>)
  {
    |rings| > 0 && forall b, r :: 0 <= b < |rings| && r in rings[b] ==> Flies(reqs, |rings|, b, r)
  }

  /** No two requests in flight share a transaction id. */
  ghost predicate IdsDiffer(reqs: Reqs, rings: seq<seq<nat>>)
  {
    forall r, q :: r in Bag(rings) && q in Bag(rings) && r in reqs && q in reqs && reqs[r].transId == reqs[q].transId ==> r == q
  }

  /** The id `v` is not 0xffff, and no request in flight has it. */
  ghost predicate IdFree(reqs: Reqs, rings: seq<seq<nat>>, v: nat)
  {
    v < NO_ID && forall q :: q in Bag(rings) && q in reqs ==> reqs[q].transId != v
  }

  ghost predicate AllWait(reqs: Reqs, waiting: seq<nat>)
  {
    forall r :: r in waiting ==> r in reqs && reqs[r].ns.None?
  }

  /** Each request is in exactly one ring, and fits there. */
  ghost predicate Lists(next: Links, prev: Links, heads: seq<Option<nat>>, waitingHead: Option<nat>, rings: seq<seq<nat>>,
                        waiting: seq<nat>, reqs: Reqs)
  {
    && |heads| == |rings| > 0 && Rings(next, prev, heads + [waitingHead], rings + [waiting])
    && Single(Bag(rings + [waiting]))
    && AllFly(reqs, rings) && IdsDiffer(reqs, rings) && AllWait(reqs, waiting)
    && forall r :: r in reqs <==> r in Bag(rings + [waiting])
  }

  class Base {
    var heads: seq<Option<nat>>
    var waitingHead: Option<nat>
    var next: Links
    var prev: Links
    var reqs: Reqs
    var inflight: nat
    var waitingCount: nat
    var maxInflight: nat
    var servers: seq<nat>
    var created: nat
    ghost var rings: seq<seq<nat>>
    ghost var waiting: seq<nat>

    /** Each request is in exactly one ring, the counters count them, and those in flight
        can be told apart by their ids. */
    ghost predicate Valid()
      reads this
    {
      && Lists(next, prev, heads, waitingHead, rings, waiting, reqs)
      && inflight == |Bag(rings)| && waitingCount == |waiting|
      && maxInflight >= 1 && forall r :: r in reqs ==> r < created
    }

    constructor ()
      ensures Valid() && reqs == map[] && servers == [] && maxInflight == 64 && inflight == 0
    {
      heads := seq(13, _ => None);
      waitingHead, next, prev, reqs := None, map[], map[], map[];
      inflight, waitingCount, maxInflight, servers, created := 0, 0, 64, [], 0;
      rings, waiting := seq(13, _ => []), [];
      new;
      NoRings(heads, rings);
    }

    // ----- lookup -----

    /** request_find_from_trans_id: once round the ring of the id's bucket. */
    method Find(transId: nat) returns (r: Option<nat>)
      requires Valid()
      ensures r.Some? ==> r.value in Bag(rings) && r.value in reqs && reqs[r.value].transId == transId
      ensures r.None? ==> forall q :: q in Bag(rings) && q in reqs ==> reqs[q].transId != transId
    {
      hide Rings, Bag, Single, IdsDiffer, AllWait;
      var b := transId % |heads|;
      ghost var l := rings[b];
      RingAt(next, prev, heads, waitingHead, rings, waiting, b);
      var at := heads[b];
      if at == None {
        Missed(reqs, rings, transId);
        return None;
      }
      assert forall j :: 0 <= j < |l| ==> l[j] in rings[b];
      assert forall j :: 0 <= j < |l| ==> Flies(reqs, |rings|, b, l[j]);
      var startedAt := at.value;
      var req := startedAt;
      ghost var k := 0;
      while true
        invariant k < |l| && req == l[k] && forall j :: 0 <= j < k ==> reqs[l[j]].transId != transId
        decreases |l| - k
      {
        assert Flies(reqs, |rings|, b, req);
        if reqs[req].transId == transId {
          BagSource(rings, req);
          return Some(req);
        }
        assert DnsRings.LinkedAt(next, prev, l, k);
        req := next[req];
        if req == startedAt { break; }
        k := k + 1;
      }
      Missed(reqs, rings, transId);
      r := None;
    }

    /** transaction_id_pick: draw random ids until one is neither 0xffff nor in flight. None
        stands for a loop that never ends, as no draw can end it: exactly with 65535 requests
        in flight. */
    method TransactionIdPick(rng: nat -> nat) returns (pick: Option<nat>)
      requires Valid() && Fair(rng)
      ensures inflight <= NO_ID && (pick.None? <==> inflight == NO_ID)
      ensures pick.Some? ==> IdFree(reqs, rings, pick.value)
      ensures pick.None? ==> forall v: nat :: !IdFree(reqs, rings, v)
    {
      hide Rings, Bag, Single, AllFly, IdsDiffer, AllWait;
      FreeIdLeft(next, prev, heads, waitingHead, rings, waiting, reqs);
      if inflight == NO_ID { return None; }
      ghost var free :| IdFree(reqs, rings, free);
      assert Draws(rng, free);
      ghost var bound: nat :| rng(bound) % 0x10000 == free;
      var k := 0;
      while true
        invariant k <= bound
        decreases bound - k
      {
        var id := rng(k) % 0x10000;
        if id != NO_ID {
          var r := Find(id);
          if r == None { return Some(id); }
        }
        k := k + 1;
      }
    }

    /** nameserver_pick: some nameserver, whenever there is one. */
    method NameserverPick(choice: nat) returns (ns: Option<nat>)
      ensures ns.None? <==> servers == []
      ensures ns.Some? ==> ns.value in servers
    {
      ns := if servers == [] then None else Some(servers[choice % |servers|]);
    }

    // ----- the lists -----

    /** evdns_request_insert: at the tail of the ring at `head`. */
    method RequestInsert(head: Option<nat>, r: nat) returns (head': Option<nat>)
      requires head.Some? ==> head.value in prev
      modifies this`next, this`prev
      ensures next == InsertNext(old(next), old(prev), head, r) && prev == InsertPrev(old(prev), head, r)
      ensures head' == if head.None? then Some(r) else head
    {
      if head.None? {
        next, prev := next[r := r], prev[r := r];
        return Some(r);
      }
      prev := prev[r := prev[head.value]];
      next := next[prev[r] := r];
      next := next[r := head.value];
      prev := prev[head.value := r];
      head' := head;
    }

    /** evdns_request_remove */
    method RequestRemove(head: Option<nat>, r: nat) returns (head': Option<nat>)
      requires r in next && r in prev
      modifies this`next, this`prev
      ensures next == RemoveNext(old(next), old(prev), r) && prev == RemovePrev(old(next), old(prev), r)
      ensures head' == RemoveHead(old(next), head, r)
    {
      head' := head;
      if next[r] == r {
        head' := None;
      } else {
        var n, p := next[r], prev[r];
        prev := prev[n := p];
        next := next[p := n];
        if head == Some(r) { head' := Some(n); }
      }
      next, prev := next - {r}, prev - {r};
    }

    /** Put a request that is in no list into flight if it has a nameserver, else into the
        queue. */
    method Enter(r: nat, req: Req)
      requires Valid() && r !in reqs && r < created
      requires req.ns.Some? ==> req.transId < NO_ID && forall q :: q in Bag(rings) && q in reqs ==> reqs[q].transId != req.transId
      modifies this`heads, this`waitingHead, this`next, this`prev, this`rings, this`waiting, this`inflight, this`waitingCount, this`reqs
      ensures Valid() && reqs == old(reqs)[r := req]
      ensures inflight == old(inflight) + (if req.ns.Some? then 1 else 0)
      ensures waitingCount == old(waitingCount) + (if req.ns.Some? then 0 else 1)
      ensures waiting == old(waiting) + if req.ns.Some? then [] else [r]
    {
      hide Lists, Bag, InsertNext, InsertPrev;
      SomeBuckets(next, prev, heads, waitingHead, rings, waiting, reqs);
      var b := if req.ns.Some? then req.transId % |heads| else |heads|;
      SubmitKeeps(next, prev, heads, waitingHead, rings, waiting, reqs, r, req, b);
      if req.ns.Some? {
        var head := RequestInsert(heads[b], r);
        heads := heads[b := head];
        rings := rings[b := rings[b] + [r]];
        inflight := inflight + 1;
      } else {
        waitingHead := RequestInsert(waitingHead, r);
        waiting := waiting + [r];
        waitingCount := waitingCount + 1;
      }
      reqs := reqs[r := req];
    }

    /** request_submit of a new request. */
    method Submit(req: Req) returns (r: nat)
      requires Valid()
      requires req.ns.Some? ==> req.transId < NO_ID && forall q :: q in Bag(rings) && q in reqs ==> reqs[q].transId != req.transId
      modifies this
      ensures Valid() && r !in old(reqs) && reqs == old(reqs)[r := req]
      ensures inflight == old(inflight) + (if req.ns.Some? then 1 else 0)
      ensures waitingCount == old(waitingCount) + (if req.ns.Some? then 0 else 1)
      ensures maxInflight == old(maxInflight) && servers == old(servers)
      ensures waiting == old(waiting) + if req.ns.Some? then [] else [r]
    {
      hide Lists, Bag;
      r := created;
      created := created + 1;
      Enter(r, req);
    }

    /** Take a request out of its list. */
    method Detach(r: nat)
      requires Valid() && r in reqs
      modifies this`heads, this`waitingHead, this`next, this`prev, this`rings, this`waiting, this`inflight, this`waitingCount, this`reqs
      ensures Valid() && reqs == old(reqs) - {r}
      ensures inflight == old(inflight) - (if old(reqs)[r].ns.Some? then 1 else 0)
      ensures waitingCount == old(waitingCount) - (if old(reqs)[r].ns.Some? then 0 else 1)
      ensures waiting == if old(reqs)[r].ns.Some? then old(waiting) else Removed(old(waiting), r)
    {
      hide Lists, Bag, RemoveNext, RemovePrev, RemoveHead, Without, Removed;
      SomeBuckets(next, prev, heads, waitingHead, rings, waiting, reqs);
      var b := if reqs[r].ns.Some? then reqs[r].transId % |heads| else |heads|;
      ghost var k := RemoveKeeps(next, prev, heads, waitingHead, rings, waiting, reqs, r, b);
      if reqs[r].ns.Some? {
        var head := RequestRemove(heads[b], r);
        heads := heads[b := head];
        rings := rings[b := Without(rings[b], k)];
        inflight := inflight - 1;
      } else {
        waitingHead := RequestRemove(waitingHead, r);
        waiting := Without(waiting, k);
        waitingCount := waitingCount - 1;
      }
      reqs := reqs - {r};
    }

    // ----- operations -----

    /** The first request of the queue gets an id and the nameserver `ns`, and goes into
        flight, unless picking an id never ends. */
    method Promote(rng: nat -> nat, ns: Option<nat>) returns (ends: bool)
      requires Valid() && Fair(rng) && waitingCount > 0 && ns.Some?
      modifies this`heads, this`waitingHead, this`next, this`prev, this`rings, this`waiting, this`inflight, this`waitingCount, this`reqs
      ensures Valid() && (ends <==> old(inflight) < NO_ID) && old(waiting) != []
      ensures old(waiting)[0] in old(reqs) && old(reqs)[old(waiting)[0]].ns.None?
      ensures ends ==>
                && inflight == old(inflight) + 1 && waitingCount == old(waitingCount) - 1 && waiting == old(waiting)[1..]
                && exists id: nat :: id < NO_ID && reqs == old(reqs)[old(waiting)[0] := Req(id, ns)]
      ensures !ends ==> inflight == old(inflight) && waitingCount == old(waitingCount) && waiting == old(waiting) && reqs == old(reqs)
    {
      hide Lists, Bag, Fair, Removed;
      FirstWaiting(next, prev, heads, waitingHead, rings, waiting, reqs);
      RemovedFirst(waiting);
      var req := waitingHead.value;
      ends := inflight < NO_ID;
      if !ends {
        var never := TransactionIdPick(rng);
        return;
      }
      Detach(req);
      var id := TransactionIdPick(rng);
      Enter(req, Req(id.value, ns));
      assert reqs == old(reqs)[req := Req(id.value, ns)];
    }

    /** evdns_requests_pump_waiting_queue: requests move from the queue into flight, and
        never past the limit. It ends unless ids run out first. */
    method Pump(rng: nat -> nat, choice: nat -> nat) returns (ends: bool)
      requires Valid() && Fair(rng)
      modifies this`heads, this`waitingHead, this`next, this`prev, this`rings, this`waiting, this`inflight, this`waitingCount, this`reqs
      ensures Valid() && reqs.Keys == old(reqs).Keys && inflight + waitingCount == old(inflight) + old(waitingCount)
      ensures inflight >= old(inflight) && (inflight == old(inflight) || inflight <= maxInflight)
      ensures ends ==> inflight >= maxInflight || waitingCount == 0 || servers == []
      ensures !ends <==> servers != [] && maxInflight > NO_ID && old(inflight) + old(waitingCount) > NO_ID
      ensures !ends ==> inflight == NO_ID
      ensures inflight - old(inflight) <= |old(waiting)| && waiting == old(waiting)[inflight - old(inflight)..]
    {
      hide Lists, Bag, Fair, Removed;
      assert waiting[0..] == waiting;
      IdsBound(this);
      while inflight < maxInflight && waitingCount > 0
        invariant Valid() && reqs.Keys == old(reqs).Keys && inflight + waitingCount == old(inflight) + old(waitingCount)
        invariant inflight >= old(inflight) && (inflight == old(inflight) || inflight <= maxInflight) && inflight <= NO_ID
        invariant inflight - old(inflight) <= |old(waiting)| && waiting == old(waiting)[inflight - old(inflight)..]
        decreases waitingCount
      {
        var ns := NameserverPick(choice(waitingCount));
        if ns.None? { return true; }
        ends := Promote(rng, ns);
        if !ends { return; }
      }
      ends := true;
    }

    /** request_finished: the request is gone, and others may take its place. */
    method Finish(r: nat, rng: nat -> nat, choice: nat -> nat) returns (ends: bool)
      requires Valid() && r in reqs && Fair(rng)
      modifies this`heads, this`waitingHead, this`next, this`prev, this`rings, this`waiting, this`inflight, this`waitingCount, this`reqs
      ensures Valid() && reqs.Keys == old(reqs).Keys - {r}
      ensures inflight + waitingCount == old(inflight) + old(waitingCount) - 1
      ensures ends ==> inflight >= maxInflight || waitingCount == 0 || servers == []
      ensures !ends <==> servers != [] && maxInflight > NO_ID && old(inflight) + old(waitingCount) - 1 > NO_ID
      ensures !ends ==> inflight == NO_ID
    {
      hide Lists, Bag, Fair;
      Detach(r);
      ends := Pump(rng, choice);
    }

    /** request_new and request_submit, as evdns_base_resolve_ipv4 does without a search;
        None when picking an id never ends. */
    method Resolve(rng: nat -> nat, choice: nat) returns (r: Option<nat>)
      requires Valid() && Fair(rng)
      modifies this
      ensures Valid() && servers == old(servers) && maxInflight == old(maxInflight)
      ensures r.None? <==> old(inflight) == NO_ID < maxInflight
      ensures r.None? ==> reqs == old(reqs) && waiting == old(waiting) && inflight == old(inflight)
      ensures r.Some? ==>
                && r.value !in old(reqs) && reqs.Keys == old(reqs).Keys + {r.value}
                && (reqs[r.value].ns.Some? <==> old(inflight) < maxInflight && servers != [])
                && waiting == old(waiting) + if reqs[r.value].ns.Some? then [] else [r.value]
    {
      hide Lists, Bag, Fair;
      IdsBound(this);
      var issuingNow := inflight < maxInflight;
      var id, ns := NO_ID, None;
      if issuingNow {
        var pick := TransactionIdPick(rng);
        if pick.None? { return None; }
        id := pick.value;
        ns := NameserverPick(choice);
      }
      var req := Submit(Req(id, ns));
      r := Some(req);
    }

    /** nameserver_send_probe: into flight no matter how many are, if picking an id ends. */
    method Probe(ns: nat, rng: nat -> nat) returns (r: Option<nat>)
      requires Valid() && Fair(rng)
      modifies this
      ensures Valid() && servers == old(servers) && maxInflight == old(maxInflight)
      ensures r.None? <==> old(inflight) == NO_ID
      ensures r.None? ==> reqs == old(reqs) && waiting == old(waiting) && inflight == old(inflight)
      ensures r.Some? ==>
                && r.value !in old(reqs) && reqs.Keys == old(reqs).Keys + {r.value}
                && reqs[r.value].ns == Some(ns) && inflight == old(inflight) + 1
    {
      hide Lists, Bag, Fair;
      var pick := TransactionIdPick(rng);
      if pick.None? { return None; }
      var req := Submit(Req(pick.value, Some(ns)));
      r := Some(req);
    }

    /** The retransmission of a request in flight, or its move to another nameserver. */
    method Reassign(r: nat, choice: nat)
      requires Valid() && r in reqs && reqs[r].ns.Some?
      modifies this`reqs
      ensures Valid() && reqs.Keys == old(reqs).Keys && reqs[r].transId == old(reqs)[r].transId
      ensures if servers == [] then reqs == old(reqs) else reqs[r].ns.Some? && reqs[r].ns.value in servers
    {
      hide Lists, Bag;
      var ns := NameserverPick(choice);
      if ns.Some? {
        ServerKeeps(next, prev, heads, waitingHead, rings, waiting, reqs, r, ns);
        reqs := reqs[r := reqs[r].(ns := ns)];
      }
    }

    /** evdns_base_set_max_requests_inflight: new buckets, and every request in flight into
        the one its id leads to now. */
    method SetMaxInflight(max: int)
      requires Valid()
      modifies this`heads, this`next, this`prev, this`rings, this`maxInflight
      ensures Valid() && maxInflight == (if max < 1 then 1 else max) && |heads| == (maxInflight + 4) / 5
      ensures Bag(rings) == old(Bag(rings))
    {
      hide Lists, Bag, Moving;
      var maxinflight := if max < 1 then 1 else max;
      var nHeads := (maxinflight + 4) / 5;
      ghost var next0, prev0 := next, prev;
      var oldHeads, newHeads := heads, seq(nHeads, _ => None);
      ghost var cur, nrings: seq<seq<nat>> := rings, seq(nHeads, _ => []);
      MoveStarts(next, prev, heads, waitingHead, rings, waiting, reqs, newHeads, nrings);
      for i := 0 to |heads|
        modifies this`next, this`prev
        invariant Moving(next, prev, oldHeads, newHeads, waitingHead, cur, nrings, waiting, reqs, Bag(rings))
        invariant |oldHeads| == |cur| == |heads| && |newHeads| == |nrings| == nHeads
        invariant forall c :: 0 <= c < i ==> cur[c] == []
      {
        ghost var cur0 := cur;
        HeadOf(next, prev, oldHeads, newHeads, waitingHead, cur, nrings, waiting, reqs, Bag(rings), i);
        while oldHeads[i] != None
          modifies this`next, this`prev
          invariant Moving(next, prev, oldHeads, newHeads, waitingHead, cur, nrings, waiting, reqs, Bag(rings))
          invariant |oldHeads| == |cur| == |heads| && |newHeads| == |nrings| == nHeads
          invariant forall c :: 0 <= c < i ==> cur[c] == []
          invariant oldHeads[i] == if cur[i] == [] then None else Some(cur[i][0])
          invariant cur[i] != [] ==> cur[i][0] in reqs
          decreases |cur[i]|
        {
          var req := oldHeads[i].value;
          var b2 := reqs[req].transId % nHeads;
          MoveKeeps(next, prev, oldHeads, newHeads, waitingHead, cur, nrings, waiting, reqs, Bag(rings), i, b2);
          var from := RequestRemove(oldHeads[i], req);
          var to := RequestInsert(newHeads[b2], req);
          oldHeads := oldHeads[i := from];
          newHeads := newHeads[b2 := to];
          cur, nrings := cur[i := Without(cur[i], 0)], nrings[b2 := nrings[b2] + [req]];
          HeadOf(next, prev, oldHeads, newHeads, waitingHead, cur, nrings, waiting, reqs, Bag(rings), i);
        }
      }
      MoveEnds(next, prev, oldHeads, newHeads, waitingHead, cur, nrings, waiting, reqs, rings, next0, prev0, heads);
      heads, maxInflight, rings := newHeads, maxinflight, nrings;
    }
  }

  /** Requests are on the move from the lists `cur` to the lists `nrings`. */
  ghost predicate Moving(next: Links, prev: Links, oldHeads: seq<Option<nat>>, newHeads: seq<Option<nat>>, waitingHead: Option<nat>,
                         cur: seq<seq<nat>>, nrings: seq<seq<nat>>, waiting: seq<nat>, reqs: Reqs, bag: multiset<nat>)
  {
    && |oldHeads| == |cur| && |newHeads| == |nrings| > 0
    && Rings(next, prev, oldHeads + newHeads + [waitingHead], cur + nrings + [waiting])
    && Single(Bag(cur + nrings + [waiting])) && Bag(cur) + Bag(nrings) == bag
    && AllFly(reqs, nrings) && forall r :: r in bag ==> r in reqs && reqs[r].ns.Some? && reqs[r].transId < NO_ID
  }

  lemma ThreeBags(a: seq<seq<nat>>, b: seq<seq<nat>>, w: seq<nat>)
    ensures Bag(a + b + [w]) == Bag(a) + Bag(b) + multiset(w) && Bag(a + [w]) == Bag(a) + multiset(w)
  {
    BagConcat(a + b, [w]);
    BagConcat(a, b);
    BagConcat(a, [w]);
    assert [w][1..] == [];
    assert Bag([w]) == multiset(w) + Bag([w][1..]);
  }

  lemma MoveStarts(next: Links, prev: Links, heads: seq<Option<nat>>, waitingHead: Option<nat>, rings: seq<seq<nat>>,
                   waiting: seq<nat>, reqs: Reqs, newHeads: seq<Option<nat>>, nrings: seq<seq<nat>>)
    requires Lists(next, prev, heads, waitingHead, rings, waiting, reqs) && |newHeads| == |nrings| > 0
    requires forall b :: 0 <= b < |nrings| ==> newHeads[b] == None && nrings[b] == []
    ensures Moving(next, prev, heads, newHeads, waitingHead, rings, nrings, waiting, reqs, Bag(rings))
    ensures |heads| == |rings|
  {
    hide Ring, Bag;
    ThreeBags(rings, nrings, waiting);
    BagEmpty(nrings);
    var hs, ls := heads + newHeads + [waitingHead], rings + nrings + [waiting];
    forall b | 0 <= b < |ls| ensures Ring(next, prev, hs[b], ls[b]) {
      if b < |rings| {
        assert ls[b] == (rings + [waiting])[b] && hs[b] == (heads + [waitingHead])[b];
      } else if b < |rings| + |nrings| {
        EmptyRing(next, prev);
      } else {
        assert ls[b] == (rings + [waiting])[|rings|] && hs[b] == (heads + [waitingHead])[|rings|];
      }
    }
    assert Bag(ls) == Bag(rings + [waiting]);
    forall r | r in Bag(rings) ensures r in reqs && reqs[r].ns.Some? && reqs[r].transId < NO_ID {
      BagSource(rings, r);
      var b :| 0 <= b < |rings| && r in rings[b];
      assert Flies(reqs, |rings|, b, r);
    }
  }

  lemma EmptyRing(next: Links, prev: Links)
    ensures Ring(next, prev, None, [])
  {
  }

  lemma HeadOf(next: Links, prev: Links, oldHeads: seq<Option<nat>>, newHeads: seq<Option<nat>>, waitingHead: Option<nat>,
               cur: seq<seq<nat>>, nrings: seq<seq<nat>>, waiting: seq<nat>, reqs: Reqs, bag: multiset<nat>, i: nat)
    requires Moving(next, prev, oldHeads, newHeads, waitingHead, cur, nrings, waiting, reqs, bag) && i < |cur|
    ensures i < |oldHeads| && oldHeads[i] == if cur[i] == [] then None else Some(cur[i][0])
    ensures cur[i] != [] ==> cur[i][0] in reqs
  {
    hide Bag, Single, AllFly;
    assert (oldHeads + newHeads + [waitingHead])[i] == oldHeads[i] && (cur + nrings + [waiting])[i] == cur[i];
    if cur[i] != [] { BagSource(cur, cur[i][0]); }
  }

  lemma MoveKeeps(next: Links, prev: Links, oldHeads: seq<Option<nat>>, newHeads: seq<Option<nat>>, waitingHead: Option<nat>,
                  cur: seq<seq<nat>>, nrings: seq<seq<nat>>, waiting: seq<nat>, reqs: Reqs, bag: multiset<nat>, i: nat, b2: nat)
    requires Moving(next, prev, oldHeads, newHeads, waitingHead, cur, nrings, waiting, reqs, bag) && i < |cur| && cur[i] != []
    requires cur[i][0] in reqs && |nrings| > 0 && b2 == reqs[cur[i][0]].transId % |nrings|
    ensures var r := cur[i][0];
            && |oldHeads| == |cur| && |newHeads| == |nrings| && r in next && r in prev
            && var next1, prev1 := RemoveNext(next, prev, r), RemovePrev(next, prev, r);
               && (newHeads[b2].Some? ==> newHeads[b2].value in prev1)
               && Moving(InsertNext(next1, prev1, newHeads[b2], r), InsertPrev(prev1, newHeads[b2], r),
                         oldHeads[i := RemoveHead(next, oldHeads[i], r)],
                         newHeads[b2 := if newHeads[b2].None? then Some(r) else newHeads[b2]], waitingHead,
                         cur[i := Without(cur[i], 0)], nrings[b2 := nrings[b2] + [r]], waiting, reqs, bag)
  {
    hide Rings, Bag, Single, AllFly, RemoveNext, RemovePrev, RemoveHead, InsertNext, InsertPrev, Without;
    var r := cur[i][0];
    var hs, ls := oldHeads + newHeads + [waitingHead], cur + nrings + [waiting];
    var p := |cur| + b2;
    BagSource(cur, r);
    RingsRemove(next, prev, hs, ls, i, 0);
    var cur', nrings' := cur[i := Without(cur[i], 0)], nrings[b2 := nrings[b2] + [r]];
    var hs1, ls1 := hs[i := RemoveHead(next, hs[i], r)], ls[i := Without(ls[i], 0)];
    SingleDrops(Bag(ls), Bag(ls1), r);
    RingsInsert(RemoveNext(next, prev, r), RemovePrev(next, prev, r), hs1, ls1, p, r);
    assert ls1[p := ls1[p] + [r]] == cur' + nrings' + [waiting];
    assert hs1[p := if hs1[p].None? then Some(r) else hs1[p]]
        == oldHeads[i := RemoveHead(next, oldHeads[i], r)]
           + newHeads[b2 := if newHeads[b2].None? then Some(r) else newHeads[b2]] + [waitingHead];
    UnlinkBag(cur, i, 0);
    BagUpdate(nrings, b2, nrings[b2] + [r]);
    AddedOne(Bag(nrings'), Bag(nrings), nrings[b2], r);
    assert Bag(cur') + Bag(nrings') == bag;
    ArrivesWell(reqs, nrings, r, b2);
  }

  lemma ArrivesWell(reqs: Reqs, nrings: seq<seq<nat>>, r: nat, b2: nat)
    requires AllFly(reqs, nrings) && r in reqs && reqs[r].ns.Some? && reqs[r].transId < NO_ID
    requires b2 == reqs[r].transId % |nrings|
    ensures AllFly(reqs, nrings[b2 := nrings[b2] + [r]])
  {
    var n' := nrings[b2 := nrings[b2] + [r]];
    forall c, q | 0 <= c < |n'| && q in n'[c] ensures Flies(reqs, |n'|, c, q) {
      if q in nrings[c] { assert Flies(reqs, |nrings|, c, q); }
    }
  }

  lemma MoveEnds(next: Links, prev: Links, oldHeads: seq<Option<nat>>, newHeads: seq<Option<nat>>, waitingHead: Option<nat>,
                 cur: seq<seq<nat>>, nrings: seq<seq<nat>>, waiting: seq<nat>, reqs: Reqs, rings: seq<seq<nat>>,
                 next0: Links, prev0: Links, heads0: seq<Option<nat>>)
    requires Moving(next, prev, oldHeads, newHeads, waitingHead, cur, nrings, waiting, reqs, Bag(rings))
    requires forall c :: 0 <= c < |cur| ==> cur[c] == []
    requires Lists(next0, prev0, heads0, waitingHead, rings, waiting, reqs)
    ensures Lists(next, prev, newHeads, waitingHead, nrings, waiting, reqs) && Bag(nrings) == Bag(rings)
  {
    hide Ring, Bag, Single, AllFly;
    BagsEnd(cur, nrings, waiting, rings);
    var hs, ls := oldHeads + newHeads + [waitingHead], cur + nrings + [waiting];
    forall b | 0 <= b < |nrings| + 1 ensures Ring(next, prev, (newHeads + [waitingHead])[b], (nrings + [waiting])[b]) {
      assert hs[|cur| + b] == (newHeads + [waitingHead])[b] && ls[|cur| + b] == (nrings + [waiting])[b];
    }
  }

  lemma BagsEnd(cur: seq<seq<nat>>, nrings: seq<seq<nat>>, waiting: seq<nat>, rings: seq<seq<nat>>)
    requires Bag(cur) + Bag(nrings) == Bag(rings) && forall c :: 0 <= c < |cur| ==> cur[c] == []
    ensures Bag(nrings) == Bag(rings)
    ensures Bag(nrings + [waiting]) == Bag(cur + nrings + [waiting]) == Bag(rings + [waiting])
  {
    hide Bag;
    BagEmpty(cur);
    assert Bag(cur) + Bag(nrings) == Bag(nrings);
    ThreeBags(cur, nrings, waiting);
    ThreeBags(nrings, nrings, waiting);
    ThreeBags(rings, nrings, waiting);
  }

  lemma ServerKeeps(next: Links, prev: Links, heads: seq<Option<nat>>, waitingHead: Option<nat>, rings: seq<seq<nat>>,
                    waiting: seq<nat>, reqs: Reqs, r: nat, ns: Option<nat>)
    requires Lists(next, prev, heads, waitingHead, rings, waiting, reqs) && r in reqs && reqs[r].ns.Some? && ns.Some?
    ensures Lists(next, prev, heads, waitingHead, rings, waiting, reqs[r := reqs[r].(ns := ns)])
  {
    hide Rings, Bag, Single;
    var reqs' := reqs[r := reqs[r].(ns := ns)];
    forall b, q | 0 <= b < |rings| && q in rings[b] ensures Flies(reqs', |rings|, b, q) {
      assert Flies(reqs, |rings|, b, q);
    }
  }

  /** The random ids cover all of 16 bits. */
  ghost predicate Fair(rng: nat -> nat)
  {
    forall v :: 0 <= v < 0x10000 ==> Draws(rng, v)
  }

  ghost predicate Draws(rng: nat -> nat, v: nat)
  {
    exists k :: rng(k) % 0x10000 == v
  }

  lemma NoRings(heads: seq<Option<nat>>, rings: seq<seq<nat>>)
    requires |heads| == |rings| > 0 && forall b :: 0 <= b < |rings| ==> heads[b] == None && rings[b] == []
    ensures Rings(map[], map[], heads + [None], rings + [[]])
    ensures Bag(rings + [[]]) == multiset{} == Bag(rings) && Single(Bag(rings + [[]]))
    ensures AllFly(map[], rings) && IdsDiffer(map[], rings)
  {
    BagEmpty(rings + [[]]);
    BagEmpty(rings);
  }

  /** What submitting does to the lists. */
  lemma SubmitKeeps(next: Links, prev: Links, heads: seq<Option<nat>>, waitingHead: Option<nat>, rings: seq<seq<nat>>,
                    waiting: seq<nat>, reqs: Reqs, r: nat, req: Req, b: nat)
    requires Lists(next, prev, heads, waitingHead, rings, waiting, reqs) && r !in reqs
    requires req.ns.Some? ==> req.transId < NO_ID && forall q :: q in Bag(rings) && q in reqs ==> reqs[q].transId != req.transId
    requires |rings| > 0 && b == if req.ns.Some? then req.transId % |rings| else |rings|
    ensures |heads| == |rings|
    ensures req.ns.Some? ==>
              var head, rings' := heads[b], rings[b := rings[b] + [r]];
              && (head.Some? ==> head.value in prev) && |Bag(rings')| == |Bag(rings)| + 1
              && Lists(InsertNext(next, prev, head, r), InsertPrev(prev, head, r),
                       heads[b := if head.None? then Some(r) else head], waitingHead, rings', waiting, reqs[r := req])
    ensures req.ns.None? ==>
              && (waitingHead.Some? ==> waitingHead.value in prev)
              && Lists(InsertNext(next, prev, waitingHead, r), InsertPrev(prev, waitingHead, r), heads,
                       if waitingHead.None? then Some(r) else waitingHead, rings, waiting + [r], reqs[r := req])
  {
    hide Rings, Bag, Single, AllFly, IdsDiffer, AllWait, InsertNext, InsertPrev;
    var all, ls := heads + [waitingHead], rings + [waiting];
    BagConcat(rings, [waiting]);
    RingsInsert(next, prev, all, ls, b, r);
    SingleAdds(Bag(ls), r);
    if req.ns.Some? {
      assert all[b := if all[b].None? then Some(r) else all[b]]
          == heads[b := if heads[b].None? then Some(r) else heads[b]] + [waitingHead];
      assert ls[b := ls[b] + [r]] == rings[b := rings[b] + [r]] + [waiting];
      BagConcat(rings[b := rings[b] + [r]], [waiting]);
      BagUpdate(rings, b, rings[b] + [r]);
      AddedOne(Bag(rings[b := rings[b] + [r]]), Bag(rings), rings[b], r);
      FlyingAdds(reqs, rings, r, req, b);
    } else {
      assert all[b := if all[b].None? then Some(r) else all[b]]
          == heads + [if waitingHead.None? then Some(r) else waitingHead];
      assert ls[b := ls[b] + [r]] == rings + [waiting + [r]];
    }
    InfoKeeps(reqs, rings, waiting, r, req);
  }

  /** Where a live request is. */
  lemma Whereabouts(reqs: Reqs, rings: seq<seq<nat>>, waiting: seq<nat>, r: nat) returns (k: nat)
    requires AllFly(reqs, rings) && AllWait(reqs, waiting) && r in reqs && r in Bag(rings + [waiting])
    ensures if reqs[r].ns.Some? then k < |rings[reqs[r].transId % |rings|]| && rings[reqs[r].transId % |rings|][k] == r
            else k < |waiting| && waiting[k] == r
  {
    hide Bag;
    var ls := rings + [waiting];
    BagSource(ls, r);
    var b :| 0 <= b < |ls| && r in ls[b];
    if b < |rings| { assert Flies(reqs, |rings|, b, r); }
    k :| 0 <= k < |ls[b]| && ls[b][k] == r;
  }

  /** What taking a request out does to the lists. */
  lemma RemoveKeeps(next: Links, prev: Links, heads: seq<Option<nat>>, waitingHead: Option<nat>, rings: seq<seq<nat>>,
                    waiting: seq<nat>, reqs: Reqs, r: nat, b: nat) returns (k: nat)
    requires Lists(next, prev, heads, waitingHead, rings, waiting, reqs) && r in reqs
    requires |rings| > 0 && b == if reqs[r].ns.Some? then reqs[r].transId % |rings| else |rings|
    ensures |heads| == |rings| && r in next && r in prev
    ensures reqs[r].ns.Some? ==>
              && k < |rings[b]| && |Bag(rings)| == |Bag(rings[b := Without(rings[b], k)])| + 1
              && Lists(RemoveNext(next, prev, r), RemovePrev(next, prev, r), heads[b := RemoveHead(next, heads[b], r)], waitingHead,
                       rings[b := Without(rings[b], k)], waiting, reqs - {r})
    ensures reqs[r].ns.None? ==>
              && k < |waiting| && |Without(waiting, k)| == |waiting| - 1 && Removed(waiting, r) == Without(waiting, k)
              && Lists(RemoveNext(next, prev, r), RemovePrev(next, prev, r), heads, RemoveHead(next, waitingHead, r),
                       rings, Without(waiting, k), reqs - {r})
  {
    hide Rings, Bag, Single, AllFly, IdsDiffer, AllWait, RemoveNext, RemovePrev, RemoveHead, Without;
    var all, ls := heads + [waitingHead], rings + [waiting];
    k := Whereabouts(reqs, rings, waiting, r);
    RingsRemove(next, prev, all, ls, b, k);
    SingleDrops(Bag(ls), Bag(ls[b := Without(ls[b], k)]), r);
    if reqs[r].ns.Some? {
      assert all[b := RemoveHead(next, all[b], r)] == heads[b := RemoveHead(next, heads[b], r)] + [waitingHead];
      assert ls[b := Without(ls[b], k)] == rings[b := Without(rings[b], k)] + [waiting];
      UnlinkBag(rings, b, k);
      WithoutMembers(rings[b], k);
      InfoLess(reqs, rings, waiting, r, rings[b := Without(rings[b], k)], waiting);
    } else {
      assert all[b := RemoveHead(next, all[b], r)] == heads + [RemoveHead(next, waitingHead, r)];
      assert ls[b := Without(ls[b], k)] == rings + [Without(waiting, k)];
      WithoutMembers(waiting, k);
      SingleDistinct(ls, |rings|);
      assert ls[|rings|] == waiting;
      RemovedIsWithout(waiting, k);
      InfoLess(reqs, rings, waiting, r, rings, Without(waiting, k));
    }
  }

  lemma WithoutMembers(l: seq<nat>, k: nat)
    requires k < |l|
    ensures |Without(l, k)| == |l| - 1 && forall q :: q in Without(l, k) ==> q in l
  {
  }

  /** Fewer requests in the lists, and nothing known of the one that left. */
  lemma InfoLess(reqs: Reqs, rings: seq<seq<nat>>, waiting: seq<nat>, r: nat, rings': seq<seq<nat>>, waiting': seq<nat>)
    requires AllFly(reqs, rings) && IdsDiffer(reqs, rings) && AllWait(reqs, waiting) && |rings'| == |rings|
    requires forall q :: q in Bag(rings' + [waiting']) ==> q in Bag(rings + [waiting]) && q != r
    requires Single(Bag(rings + [waiting])) && forall b, q :: 0 <= b < |rings| && q in rings'[b] ==> q in rings[b]
    requires forall q :: q in waiting' ==> q in waiting
    ensures AllFly(reqs - {r}, rings') && IdsDiffer(reqs - {r}, rings') && AllWait(reqs - {r}, waiting')
  {
    hide Bag, Single;
    var ls' := rings' + [waiting'];
    forall b, q | 0 <= b < |rings'| && q in rings'[b] ensures Flies(reqs - {r}, |rings'|, b, q) {
      BagSource(ls', q);
      assert q in ls'[b] && q in rings[b] && Flies(reqs, |rings|, b, q);
    }
    forall q | q in Bag(rings') ensures q in Bag(rings) {
      BagSource(rings', q);
      BagSource(rings, q);
    }
    forall q | q in waiting' ensures q != r {
      BagSource(ls', q);
      assert ls'[|rings'|] == waiting';
    }
  }

  lemma FirstWaiting(next: Links, prev: Links, heads: seq<Option<nat>>, waitingHead: Option<nat>, rings: seq<seq<nat>>,
                     waiting: seq<nat>, reqs: Reqs)
    requires Lists(next, prev, heads, waitingHead, rings, waiting, reqs) && waiting != []
    ensures waitingHead == Some(waiting[0]) && waiting[0] in reqs && reqs[waiting[0]].ns.None?
  {
    hide Bag, Single;
    assert (rings + [waiting])[|rings|] == waiting && (heads + [waitingHead])[|rings|] == waitingHead;
    assert waiting[0] in waiting;
  }

  lemma SomeBuckets(next: Links, prev: Links, heads: seq<Option<nat>>, waitingHead: Option<nat>, rings: seq<seq<nat>>,
                    waiting: seq<nat>, reqs: Reqs)
    requires Lists(next, prev, heads, waitingHead, rings, waiting, reqs)
    ensures |heads| == |rings| > 0
  {
  }

  lemma SingleAdds(bag: multiset<nat>, r: nat)
    requires Single(bag) && r !in bag
    ensures Single(bag + multiset{r})
  {
  }

  /** A request in no ring may change, and then join those it fits. */
  lemma InfoKeeps(reqs: Reqs, rings: seq<seq<nat>>, waiting: seq<nat>, r: nat, req: Req)
    requires AllFly(reqs, rings) && IdsDiffer(reqs, rings) && AllWait(reqs, waiting) && r !in Bag(rings + [waiting])
    ensures AllFly(reqs[r := req], rings) && IdsDiffer(reqs[r := req], rings) && AllWait(reqs[r := req], waiting)
    ensures req.ns.None? ==> AllWait(reqs[r := req], waiting + [r])
  {
    hide Bag;
    NotIn(rings + [waiting], r);
    assert r !in (rings + [waiting])[|rings|];
    forall b | 0 <= b < |rings| ensures r !in rings[b] { assert (rings + [waiting])[b] == rings[b]; }
    BagSource(rings, r);
    forall b, q | 0 <= b < |rings| && q in rings[b] ensures Flies(reqs[r := req], |rings|, b, q) {
      assert Flies(reqs, |rings|, b, q);
    }
  }

  lemma FlyingAdds(reqs: Reqs, rings: seq<seq<nat>>, r: nat, req: Req, b: nat)
    requires AllFly(reqs, rings) && IdsDiffer(reqs, rings) && r !in Bag(rings) && b < |rings|
    requires req.ns.Some? && req.transId < NO_ID && b == req.transId % |rings|
    requires forall q :: q in Bag(rings) && q in reqs ==> reqs[q].transId != req.transId
    ensures AllFly(reqs[r := req], rings[b := rings[b] + [r]]) && IdsDiffer(reqs[r := req], rings[b := rings[b] + [r]])
  {
    hide Bag;
    var rings', reqs' := rings[b := rings[b] + [r]], reqs[r := req];
    BagUpdate(rings, b, rings[b] + [r]);
    AddedOne(Bag(rings'), Bag(rings), rings[b], r);
    NotIn(rings, r);
    forall c, q | 0 <= c < |rings'| && q in rings'[c] ensures Flies(reqs', |rings'|, c, q) {
      if q != r { assert q in rings[c] && Flies(reqs, |rings|, c, q); }
    }
  }

  lemma RingAt(next: Links, prev: Links, heads: seq<Option<nat>>, waitingHead: Option<nat>, rings: seq<seq<nat>>,
               waiting: seq<nat>, b: nat)
    requires |heads| == |rings| && Rings(next, prev, heads + [waitingHead], rings + [waiting]) && b < |rings|
    requires Single(Bag(rings + [waiting]))
    ensures Ring(next, prev, heads[b], rings[b]) && Distinct(rings[b])
  {
    hide Bag;
    assert (heads + [waitingHead])[b] == heads[b] && (rings + [waiting])[b] == rings[b];
    SingleDistinct(rings + [waiting], b);
  }

  /** A request is nowhere in flight if it is not in the bucket of its id. */
  lemma Missed(reqs: Reqs, rings: seq<seq<nat>>, transId: nat)
    requires AllFly(reqs, rings)
    requires forall j :: 0 <= j < |rings[transId % |rings|]| && rings[transId % |rings|][j] in reqs ==>
               reqs[rings[transId % |rings|][j]].transId != transId
    ensures forall q :: q in Bag(rings) && q in reqs ==> reqs[q].transId != transId
  {
    hide Bag;
    forall q | q in Bag(rings) && q in reqs ensures reqs[q].transId != transId {
      BagSource(rings, q);
      var b :| 0 <= b < |rings| && q in rings[b];
      assert Flies(reqs, |rings|, b, q);
    }
  }

  // ----- counting ids -----

  ghost function SetOf(bag: multiset<nat>): set<nat>
  {
    set r | r in bag
  }

  lemma {:induction false} SetOfBag(bag: multiset<nat>)
    ensures |SetOf(bag)| <= |bag|
  {
    if bag != multiset{} {
      var x :| x in bag;
      var rest := bag - multiset{x};
      SetOfBag(rest);
      assert bag == rest + multiset{x};
      assert SetOf(bag) <= SetOf(rest) + {x};
      SubsetSize(SetOf(bag), SetOf(rest) + {x});
    }
  }

  lemma {:induction false} SubsetSize(a: set<nat>, b: set<nat>)
    requires a <= b
    ensures |a| <= |b|
  {
    if a != {} {
      var x :| x in a;
      SubsetSize(a - {x}, b - {x});
    }
  }

  function Image(reqs: Reqs, s: set<nat>): set<nat>
  {
    set r | r in s && r in reqs :: reqs[r].transId
  }

  lemma {:induction false} ImageSize(reqs: Reqs, s: set<nat>)
    ensures |Image(reqs, s)| <= |s|
  {
    if s != {} {
      var x :| x in s;
      ImageSize(reqs, s - {x});
      var i, j := Image(reqs, s), Image(reqs, s - {x});
      if x in reqs {
        assert i == j + {reqs[x].transId};
      } else {
        assert i == j;
      }
    }
  }

  lemma {:induction false} RangeSize(n: nat) returns (s: set<nat>)
    ensures |s| == n && forall k :: k in s <==> 0 <= k < n
  {
    if n == 0 {
      s := {};
    } else {
      var t := RangeSize(n - 1);
      s := t + {n - 1};
    }
  }

  lemma {:induction false} ImageExact(reqs: Reqs, s: set<nat>)
    requires forall x :: x in s ==> x in reqs
    requires forall x, y :: x in s && y in s && reqs[x].transId == reqs[y].transId ==> x == y
    ensures |Image(reqs, s)| == |s|
  {
    if s != {} {
      var x :| x in s;
      ImageExact(reqs, s - {x});
      assert Image(reqs, s) == Image(reqs, s - {x}) + {reqs[x].transId};
    }
  }

  /** With fewer requests in flight than ids, one is free. */
  lemma FreeId(reqs: Reqs, rings: seq<seq<nat>>)
    requires |Bag(rings)| < NO_ID
    ensures exists id: nat :: IdFree(reqs, rings, id)
  {
    hide Bag;
    var s := SetOf(Bag(rings));
    SetOfBag(Bag(rings));
    ImageSize(reqs, s);
    var all := RangeSize(NO_ID);
    if all <= Image(reqs, s) {
      SubsetSize(all, Image(reqs, s));
      assert false;
    }
    var id :| id in all && id !in Image(reqs, s);
    assert IdFree(reqs, rings, id);
  }

  /** Exactly with fewer requests in flight than ids there is a free one; there never are
      more. */
  lemma FreeIdLeft(next: Links, prev: Links, heads: seq<Option<nat>>, waitingHead: Option<nat>, rings: seq<seq<nat>>,
                   waiting: seq<nat>, reqs: Reqs)
    requires Lists(next, prev, heads, waitingHead, rings, waiting, reqs)
    ensures |Bag(rings)| <= NO_ID
    ensures (exists id: nat :: IdFree(reqs, rings, id)) <==> |Bag(rings)| < NO_ID
  {
    hide Rings, Bag, AllWait;
    if |Bag(rings)| < NO_ID {
      FreeId(reqs, rings);
    } else {
      AllTaken(reqs, rings, waiting);
    }
  }

  /** As ids differ, the requests in flight take as many ids as they are. */
  lemma AllTaken(reqs: Reqs, rings: seq<seq<nat>>, waiting: seq<nat>)
    requires AllFly(reqs, rings) && IdsDiffer(reqs, rings) && Single(Bag(rings + [waiting])) && |Bag(rings)| >= NO_ID
    ensures |Bag(rings)| == NO_ID && forall id: nat :: !IdFree(reqs, rings, id)
  {
    hide Bag;
    BagConcat(rings, [waiting]);
    var s := SetOf(Bag(rings));
    var all := RangeSize(NO_ID);
    forall r ensures Bag(rings)[r] <= 1 { assert Bag(rings + [waiting])[r] <= 1; }
    SingleSize(Bag(rings));
    forall r | r in s ensures r in reqs && reqs[r].transId in all {
      BagSource(rings, r);
      var b :| 0 <= b < |rings| && r in rings[b];
      assert Flies(reqs, |rings|, b, r);
    }
    ImageExact(reqs, s);
    SubsetSize(Image(reqs, s), all);
    SubsetEqual(Image(reqs, s), all);
    forall id: nat | id < NO_ID ensures !IdFree(reqs, rings, id) {
      assert id in Image(reqs, s);
    }
  }

  lemma {:induction false} SubsetEqual(a: set<nat>, b: set<nat>)
    requires a <= b && |a| >= |b|
    ensures a == b
  {
    if a != b {
      var x :| x in b && x !in a;
      SubsetSize(a, b - {x});
    }
  }

  lemma IdsBound(base: Base)
    requires base.Valid()
    ensures base.inflight <= NO_ID
  {
    FreeIdLeft(base.next, base.prev, base.heads, base.waitingHead, base.rings, base.waiting, base.reqs);
  }

  // ----- runs -----

  datatype Op =
    | DoResolve(rng: nat -> nat, choice: nat)
    | DoProbe(ns: nat, rng: nat -> nat)
    | DoFinish(r: nat, rng: nat -> nat, choices: nat -> nat)
    | DoReassign(r: nat, choice: nat)
    | DoSetMax(max: int)
    | DoAddServer(ns: nat)

  /** The random numbers used are fair. */
  ghost predicate Sane(op: Op)
  {
    op.DoResolve? || op.DoProbe? || op.DoFinish? ==> Fair(op.rng)
  }

  /** One operation; it fails to end only with all ids taken. */
  method Perform(base: Base, op: Op) returns (ends: bool)
    requires base.Valid() && Sane(op)
    modifies base
    ensures base.Valid()
    ensures !ends ==> base.inflight == NO_ID
    ensures !ends ==> op.DoProbe? || base.maxInflight > NO_ID
  {
    hide Lists, Bag, Fair;
    ends := true;
    match op {
      case DoResolve(rng, choice) =>
        var r := base.Resolve(rng, choice);
        ends := r.Some?;
      case DoProbe(ns, rng) =>
        var r := base.Probe(ns, rng);
        ends := r.Some?;
      case DoFinish(r, rng, choices) =>
        if r in base.reqs { ends := base.Finish(r, rng, choices); }
      case DoReassign(r, choice) => if r in base.reqs && base.reqs[r].ns.Some? { base.Reassign(r, choice); }
      case DoSetMax(max) => base.SetMaxInflight(max);
      case DoAddServer(ns) => base.servers := base.servers + [ns];
    }
  }

  /** In every run, up to an operation that may not end for want of an id, each live request is
      in exactly one ring, the counters count, and the id of a request in flight leads to it
      and to no other. */
  method Run(ops: seq<Op>) returns (base: Base, ends: bool)
    requires forall k :: 0 <= k < |ops| ==> Sane(ops[k])
    ensures base.Valid() && base.inflight <= NO_ID
    ensures base.inflight + base.waitingCount == |base.reqs.Keys|
    ensures !ends ==> base.inflight == NO_ID
  {
    hide Lists, Bag, Sane;
    base := new Base();
    ends := true;
    var k := 0;
    while k < |ops| && ends
      invariant k <= |ops| && base.Valid() && fresh(base)
      invariant !ends ==> base.inflight == NO_ID
    {
      ends := Perform(base, ops[k]);
      k := k + 1;
    }
    CountsTell(base);
    IdsBound(base);
  }

  /** Probes alone can take every id: then the next one never gets its own. */
  method AllIdsTaken(rng: nat -> nat) returns (base: Base)
    requires Fair(rng)
    ensures base.Valid() && base.inflight == NO_ID && forall id: nat :: !IdFree(base.reqs, base.rings, id)
  {
    hide Lists, Bag, Fair;
    base := new Base();
    while base.inflight < NO_ID
      invariant base.Valid() && fresh(base) && base.inflight <= NO_ID
      decreases NO_ID - base.inflight
    {
      var r := base.Probe(0, rng);
    }
    var never := base.TransactionIdPick(rng);
  }

  /** The counters together count the live requests. */
  lemma CountsTell(base: Base)
    requires base.Valid()
    ensures base.inflight + base.waitingCount == |base.reqs.Keys|
  {
    hide Rings, Bag, AllFly, IdsDiffer, AllWait;
    ThreeBags(base.rings, [], base.waiting);
    SingleSize(Bag(base.rings + [base.waiting]));
    assert base.reqs.Keys == SetOf(Bag(base.rings + [base.waiting]));
  }

  lemma {:induction false} SingleSize(bag: multiset<nat>)
    requires Single(bag)
    ensures |SetOf(bag)| == |bag|
  {
    if bag != multiset{} {
      var x :| x in bag;
      var rest := bag - multiset{x};
      assert bag == rest + multiset{x};
      SingleDrops(bag, rest, x);
      SingleSize(rest);
      assert SetOf(bag) == SetOf(rest) + {x};
    }
  }

  /** In any state a request in flight is the one its id finds. */
  method FindsIt(base: Base, r: nat) returns (found: Option<nat>)
    requires base.Valid() && r in base.reqs && base.reqs[r].ns.Some?
    ensures found == Some(r)
  {
    hide Rings, Bag, Single;
    found := base.Find(base.reqs[r].transId);
    InFlight(base.reqs, base.rings, base.waiting, r);
  }

  lemma InFlight(reqs: Reqs, rings: seq<seq<nat>>, waiting: seq<nat>, r: nat)
    requires AllFly(reqs, rings) && AllWait(reqs, waiting) && r in reqs && r in Bag(rings + [waiting]) && reqs[r].ns.Some?
    ensures r in Bag(rings)
  {
    hide Bag;
    var k := Whereabouts(reqs, rings, waiting, r);
    BagSource(rings, r);
  }
}
