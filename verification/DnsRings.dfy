/** The circular doubly linked lists of DNS requests (evdns.c). The links of a request
    are kept in `next` and `prev`. */
module DnsRings {
  import opened Common
  import opened Bags

  type Links = map<nat, nat>

  function Succ(l: seq<nat>, i: nat): nat
    requires i < |l|
  {
    if i + 1 < |l| then l[i + 1] else l[0]
  }

  function Pred(l: seq<nat>, i: nat): nat
    requires i < |l|
  {
    if i > 0 then l[i - 1] else l[|l| - 1]
  }

  predicate LinkedAt(next: Links, prev: Links, l: seq<nat>, i: nat)
    requires i < |l|
  {
    l[i] in next && next[l[i]] == Succ(l, i) && l[i] in prev && prev[l[i]] == Pred(l, i)
  }

  /** `head` leads round the ring of the requests `l`. */
  ghost predicate Ring(next: Links, prev: Links, head: Option<nat>, l: seq<nat>)
  {
    && head == (if l == [] then None else Some(l[0]))
    && forall i :: 0 <= i < |l| ==> LinkedAt(next, prev, l, i)
  }

  lemma RingFrame(next: Links, prev: Links, next': Links, prev': Links, head: Option<nat>, l: seq<nat>)
    requires Ring(next, prev, head, l)
    requires forall r :: r in l && r in next ==> r in next' && next'[r] == next[r]
    requires forall r :: r in l && r in prev ==> r in prev' && prev'[r] == prev[r]
    ensures Ring(next', prev', head, l)
  {
    forall i | 0 <= i < |l| ensures LinkedAt(next', prev', l, i) {
      assert LinkedAt(next, prev, l, i) && l[i] in l;
    }
  }

  /** What evdns_request_insert does to the links. */
  function InsertNext(next: Links, prev: Links, head: Option<nat>, r: nat): Links
    requires head.Some? ==> head.value in prev
  {
    if head.None? then next[r := r] else next[prev[head.value] := r][r := head.value]
  }

  function InsertPrev(prev: Links, head: Option<nat>, r: nat): Links
    requires head.Some? ==> head.value in prev
  {
    if head.None? then prev[r := r] else prev[r := prev[head.value]][head.value := r]
  }

  lemma RingInsert(next: Links, prev: Links, head: Option<nat>, l: seq<nat>, r: nat)
    requires Ring(next, prev, head, l) && Distinct(l) && r !in l
    ensures head.Some? ==> head.value in prev && prev[head.value] in l
    ensures Ring(InsertNext(next, prev, head, r), InsertPrev(prev, head, r), if head.None? then Some(r) else head, l + [r])
  {
    if l != [] { assert LinkedAt(next, prev, l, 0); }
    var l', next', prev' := l + [r], InsertNext(next, prev, head, r), InsertPrev(prev, head, r);
    forall i | 0 <= i < |l'| ensures LinkedAt(next', prev', l', i) {
      if i < |l| { assert LinkedAt(next, prev, l, i); }
    }
  }

  /** What evdns_request_remove does to them. */
  function RemoveNext(next: Links, prev: Links, r: nat): Links
    requires r in next && r in prev
  {
    if next[r] == r then next - {r} else next[prev[r] := next[r]] - {r}
  }

  function RemovePrev(next: Links, prev: Links, r: nat): Links
    requires r in next && r in prev
  {
    if next[r] == r then prev - {r} else prev[next[r] := prev[r]] - {r}
  }

  function RemoveHead(next: Links, head: Option<nat>, r: nat): Option<nat>
    requires r in next
  {
    if next[r] == r then None else if head == Some(r) then Some(next[r]) else head
  }

  lemma RingRemove(next: Links, prev: Links, head: Option<nat>, l: seq<nat>, k: nat)
    requires Ring(next, prev, head, l) && Distinct(l) && k < |l|
    ensures l[k] in next && l[k] in prev && next[l[k]] in l && prev[l[k]] in l
    ensures Ring(RemoveNext(next, prev, l[k]), RemovePrev(next, prev, l[k]), RemoveHead(next, head, l[k]), Without(l, k))
  {
    var r := l[k];
    assert LinkedAt(next, prev, l, k);
    var l', next', prev' := Without(l, k), RemoveNext(next, prev, r), RemovePrev(next, prev, r);
    if |l| == 1 {
      assert l' == [];
    } else {
      forall i | 0 <= i < |l'| ensures LinkedAt(next', prev', l', i) {
        var j := if i < k then i else i + 1;
        assert l'[i] == l[j] && LinkedAt(next, prev, l, j);
        WithoutNeighbours(l, k, i);
      }
    }
  }

  lemma WithoutNeighbours(l: seq<nat>, k: nat, i: nat)
    requires k < |l| && i < |l| - 1 && Distinct(l)
    ensures var j := if i < k then i else i + 1;
            && Without(l, k)[i] == l[j]
            && Succ(Without(l, k), i) == (if Succ(l, j) == l[k] then Succ(l, k) else Succ(l, j))
            && Pred(Without(l, k), i) == (if Pred(l, j) == l[k] then Pred(l, k) else Pred(l, j))
  {
  }

  // ----- several rings -----

  ghost predicate Rings(next: Links, prev: Links, heads: seq<Option<nat>>, ls: seq<seq<nat>>)
  {
    |heads| == |ls| && forall b :: 0 <= b < |ls| ==> Ring(next, prev, heads[b], ls[b])
  }

  /** Insert a request that is in none of the rings into ring `b`. */
  lemma RingsInsert(next: Links, prev: Links, heads: seq<Option<nat>>, ls: seq<seq<nat>>, b: nat, r: nat)
    requires Rings(next, prev, heads, ls) && Single(Bag(ls)) && b < |ls| && r !in Bag(ls)
    ensures heads[b].Some? ==> heads[b].value in prev
    ensures Rings(InsertNext(next, prev, heads[b], r), InsertPrev(prev, heads[b], r),
                  heads[b := if heads[b].None? then Some(r) else heads[b]], ls[b := ls[b] + [r]])
    ensures Bag(ls[b := ls[b] + [r]]) == Bag(ls) + multiset{r}
  {
    hide Ring, Bag, Single, InsertNext, InsertPrev, Distinct;
    SingleDistinct(ls, b);
    NotIn(ls, r);
    RingInsert(next, prev, heads[b], ls[b], r);
    var next', prev' := InsertNext(next, prev, heads[b], r), InsertPrev(prev, heads[b], r);
    forall c | 0 <= c < |ls| && c != b ensures Ring(next', prev', heads[c], ls[c]) {
      InsertApart(next, prev, heads[b], ls[b], r, ls[c]);
      RingFrame(next, prev, next', prev', heads[c], ls[c]);
    }
    BagUpdate(ls, b, ls[b] + [r]);
    AddedOne(Bag(ls[b := ls[b] + [r]]), Bag(ls), ls[b], r);
  }

  lemma AddedOne(x: multiset<nat>, y: multiset<nat>, l: seq<nat>, r: nat)
    requires x + multiset(l) == y + multiset(l + [r])
    ensures x == y + multiset{r}
  {
    assert multiset(l + [r]) == multiset{r} + multiset(l);
    BagCancel(x, y, multiset(l), r);
  }

  lemma NotIn(ls: seq<seq<nat>>, r: nat)
    requires r !in Bag(ls)
    ensures forall b :: 0 <= b < |ls| ==> r !in ls[b]
  {
    BagSource(ls, r);
  }

  lemma InsertApart(next: Links, prev: Links, head: Option<nat>, l: seq<nat>, r: nat, m: seq<nat>)
    requires Ring(next, prev, head, l) && r !in m && forall e :: e in l ==> e !in m
    ensures head.Some? ==> head.value in prev
    ensures forall e :: e in m && e in next ==> e in InsertNext(next, prev, head, r) && InsertNext(next, prev, head, r)[e] == next[e]
    ensures forall e :: e in m && e in prev ==> e in InsertPrev(prev, head, r) && InsertPrev(prev, head, r)[e] == prev[e]
  {
    if l != [] { assert LinkedAt(next, prev, l, 0); }
  }

  /** Remove the `k`th request of ring `b`. */
  lemma RingsRemove(next: Links, prev: Links, heads: seq<Option<nat>>, ls: seq<seq<nat>>, b: nat, k: nat)
    requires Rings(next, prev, heads, ls) && Single(Bag(ls)) && b < |ls| && k < |ls[b]|
    ensures var r := ls[b][k];
            && r in next && r in prev
            && Rings(RemoveNext(next, prev, r), RemovePrev(next, prev, r), heads[b := RemoveHead(next, heads[b], r)],
                     ls[b := Without(ls[b], k)])
    ensures Bag(ls) == Bag(ls[b := Without(ls[b], k)]) + multiset{ls[b][k]}
  {
    hide Ring, Bag, Single, RemoveNext, RemovePrev, RemoveHead, Distinct, Without;
    var r := ls[b][k];
    SingleDistinct(ls, b);
    RingRemove(next, prev, heads[b], ls[b], k);
    UnlinkBag(ls, b, k);
    var next', prev' := RemoveNext(next, prev, r), RemovePrev(next, prev, r);
    forall c | 0 <= c < |ls| && c != b ensures Ring(next', prev', heads[c], ls[c]) {
      RemoveApart(next, prev, ls[b], k, ls[c]);
      RingFrame(next, prev, next', prev', heads[c], ls[c]);
    }
  }

  lemma RemoveApart(next: Links, prev: Links, l: seq<nat>, k: nat, m: seq<nat>)
    requires k < |l| && l[k] in next && l[k] in prev && next[l[k]] in l && prev[l[k]] in l
    requires forall e :: e in l ==> e !in m
    ensures var r := l[k];
            && (forall e :: e in m && e in next ==> e in RemoveNext(next, prev, r) && RemoveNext(next, prev, r)[e] == next[e])
            && (forall e :: e in m && e in prev ==> e in RemovePrev(next, prev, r) && RemovePrev(next, prev, r)[e] == prev[e])
  {
  }
}
