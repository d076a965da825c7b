/** The intrusive chained hash table of ht-internal.h. The link of an entry is kept in
    `next`, the chains as sequences of entries in `ls`. */
module HashTable {
  import opened Common
  import opened Bags

  /** A node of the table, at some address. */
  datatype Entry = Entry(addr: nat, key: nat)

  /** A `struct type **`: a bucket, or the link of an entry. */
  datatype Slot = Bucket(b: nat) | NextOf(e: Entry)

  type Links = map<Entry, Option<Entry>>

  type Chains = seq<seq<Entry>>

  const PRIMES: seq<nat> := [
    53, 97, 193, 389, 769, 1543, 3079, 6151, 12289, 24593, 49157, 98317, 196613, 393241, 786433, 1572869,
    3145739, 6291469, 12582917, 25165843, 50331653, 100663319, 201326611, 402653189, 805306457, 1610612741
  ]

  /** (unsigned)(load * len), for the load factor 0.5. */
  function LoadLimit(len: nat): nat { len / 2 }

  /** What the last prime is enough for. */
  const LAST_LIMIT: nat := LoadLimit(PRIMES[|PRIMES| - 1])

  // ----- chains -----

  function HeadOr(l: seq<Entry>, tail: Option<Entry>): Option<Entry>
  {
    if l == [] then tail else Some(l[0])
  }

  /** From `h` the links lead through `l` to `tail`. */
  predicate Seg(next: Links, h: Option<Entry>, l: seq<Entry>, tail: Option<Entry>)
    decreases |l|
  {
    if l == [] then h == tail
    else h == Some(l[0]) && l[0] in next && Seg(next, next[l[0]], l[1..], tail)
  }

  lemma {:induction false} SegConcat(next: Links, h: Option<Entry>, a: seq<Entry>, b: seq<Entry>, tail: Option<Entry>)
    ensures Seg(next, h, a + b, tail) <==> Seg(next, h, a, HeadOr(b, tail)) && Seg(next, HeadOr(b, tail), b, tail)
    decreases |a|
  {
    if a == [] {
      assert a + b == b;
    } else {
      assert (a + b)[1..] == a[1..] + b;
      if a[0] in next { SegConcat(next, next[a[0]], a[1..], b, tail); }
    }
  }

  lemma {:induction false} SegFrame(next: Links, next': Links, h: Option<Entry>, l: seq<Entry>, tail: Option<Entry>)
    requires Seg(next, h, l, tail)
    requires forall e :: e in l && e in next ==> e in next' && next'[e] == next[e]
    ensures Seg(next', h, l, tail)
    decreases |l|
  {
    if l != [] { SegFrame(next, next', next[l[0]], l[1..], tail); }
  }

  /** Redirecting the last link of a chain. */
  lemma SegRetarget(next: Links, h: Option<Entry>, l: seq<Entry>, tail: Option<Entry>, tail': Option<Entry>)
    requires Seg(next, h, l, tail) && Distinct(l) && l != []
    ensures Seg(next[l[|l| - 1] := tail'], h, l, tail')
  {
    var a, z := l[..|l| - 1], l[|l| - 1];
    var next' := next[z := tail'];
    assert l == a + [z];
    SegConcat(next, h, a, [z], tail);
    SegFrame(next, next', h, a, Some(z));
    assert [z][1..] == [];
    SegConcat(next', h, a, [z], tail');
  }

  // ----- tables -----

  /** Bucket `b` leads through `ls[b]`, for every bucket. */
  ghost predicate Linked(next: Links, table: seq<Option<Entry>>, ls: Chains)
  {
    |table| == |ls| && forall b :: 0 <= b < |ls| ==> Seg(next, table[b], ls[b], None)
  }

  /** Put an entry that is nowhere in the table at the front of a bucket. */
  lemma Push(next: Links, table: seq<Option<Entry>>, ls: Chains, b: nat, e: Entry)
    requires Linked(next, table, ls) && b < |ls| && e !in Bag(ls)
    ensures Linked(next[e := table[b]], table[b := Some(e)], ls[b := [e] + ls[b]])
    ensures Bag(ls[b := [e] + ls[b]]) == Bag(ls) + multiset{e}
  {
    hide Seg, Bag;
    var next', table', ls' := next[e := table[b]], table[b := Some(e)], ls[b := [e] + ls[b]];
    forall i | 0 <= i < |ls| ensures Seg(next', table'[i], ls'[i], None) {
      assert e !in ls[i] by { if e in ls[i] { BagHas(ls, i, e); } }
      SegFrame(next, next', table[i], ls[i], None);
      if i == b { SegCons(next', e, ls[b]); }
    }
    BagUpdate(ls, b, [e] + ls[b]);
    BagCancel(Bag(ls'), Bag(ls), multiset(ls[b]), e);
  }

  lemma SegCons(next: Links, e: Entry, l: seq<Entry>)
    requires e in next && Seg(next, next[e], l, None)
    ensures Seg(next, Some(e), [e] + l, None)
  {
    assert ([e] + l)[1..] == l;
  }

  function Slot0(ls: Chains, b: nat, k: nat): Slot
    requires b < |ls| && k <= |ls[b]|
  {
    if k == 0 then Bucket(b) else NextOf(ls[b][k - 1])
  }

  /** What the slots in a chain hold. */
  lemma SegAt(next: Links, h: Option<Entry>, l: seq<Entry>, k: nat)
    requires Seg(next, h, l, None) && k < |l|
    ensures l[k] in next && next[l[k]] == HeadOr(l[k + 1..], None)
    ensures k == 0 ==> h == Some(l[0])
    ensures k > 0 ==> l[k - 1] in next && next[l[k - 1]] == Some(l[k])
  {
    assert l == l[..k] + l[k..];
    SegConcat(next, h, l[..k], l[k..], None);
    assert l[k..][1..] == l[k + 1..];
    if k + 1 < |l| { assert l[k..][1..][0] == l[k + 1]; }
    if k > 0 {
      assert l == l[..k - 1] + l[k - 1..];
      SegConcat(next, h, l[..k - 1], l[k - 1..], None);
      assert l[k - 1..][1..] == l[k..];
    }
  }

  /** Take the `k`th entry out of a chain by redirecting the slot that leads to it. */
  lemma Unlink(next: Links, table: seq<Option<Entry>>, ls: Chains, b: nat, k: nat)
    requires Linked(next, table, ls) && Single(Bag(ls)) && b < |ls| && k < |ls[b]|
    ensures var e, ls' := ls[b][k], ls[b := Without(ls[b], k)];
            && e in next && Bag(ls) == Bag(ls') + multiset{e}
            && (if k == 0 then Linked(next, table[b := next[e]], ls') else Linked(next[ls[b][k - 1] := next[e]], table, ls'))
  {
    hide Seg, Bag, Distinct, Single, Without;
    var l, e := ls[b], ls[b][k];
    var ls' := ls[b := Without(l, k)];
    SegAt(next, table[b], l, k);
    SingleDistinct(ls, b);
    SegWithout(next, table[b], l, k);
    UnlinkBag(ls, b, k);
    var next' := if k == 0 then next else next[l[k - 1] := next[e]];
    var table' := if k == 0 then table[b := next[e]] else table;
    forall i | 0 <= i < |ls| && i != b ensures Seg(next', table'[i], ls'[i], None) {
      if k > 0 { assert l[k - 1] in ls[b] && l[k - 1] !in ls[i]; }
      SegFrame(next, next', table[i], ls[i], None);
    }
  }

  lemma SegWithout(next: Links, h: Option<Entry>, l: seq<Entry>, k: nat)
    requires Seg(next, h, l, None) && Distinct(l) && k < |l|
    ensures l[k] in next
    ensures if k == 0 then Seg(next, next[l[0]], Without(l, 0), None)
            else Seg(next[l[k - 1] := next[l[k]]], h, Without(l, k), None)
  {
    hide Seg;
    SegAt(next, h, l, k);
    assert l == l[..k] + l[k..] && l[k..] == [l[k]] + l[k + 1..];
    SegConcat(next, h, l[..k], l[k..], None);
    SegTail(next, l[k..]);
    var t := HeadOr(l[k + 1..], None);
    if k == 0 {
      assert Without(l, 0) == l[1..];
    } else {
      SegRetarget(next, h, l[..k], Some(l[k]), t);
      SegFrame(next, next[l[k - 1] := t], t, l[k + 1..], None);
      SegConcat(next[l[k - 1] := t], h, l[..k], l[k + 1..], None);
    }
  }

  lemma SegTail(next: Links, l: seq<Entry>)
    requires l != [] && Seg(next, Some(l[0]), l, None)
    ensures l[0] in next && Seg(next, next[l[0]], l[1..], None) && next[l[0]] == HeadOr(l[1..], None)
  {
  }

  /** The entries of every bucket below `b`, and from `old` on, belong there. */
  ghost predicate Homed(hashfn: nat -> nat, ls: Chains, b: nat, from: nat)
  {
    forall c, e :: 0 <= c < |ls| && (c < b || c >= from) && e in ls[c] ==> hashfn(e.key) % |ls| == c
  }

  lemma PushHomed(hashfn: nat -> nat, ls: Chains, b: nat, from: nat, e: Entry, c: nat)
    requires Homed(hashfn, ls, b, from) && c < |ls| && hashfn(e.key) % |ls| == c
    ensures Homed(hashfn, ls[c := [e] + ls[c]], b, from)
  {
  }

  lemma UnlinkHomed(hashfn: nat -> nat, ls: Chains, b: nat, from: nat, c: nat, k: nat)
    requires Homed(hashfn, ls, b, from) && c < |ls| && k < |ls[c]|
    ensures Homed(hashfn, ls[c := Without(ls[c], k)], b, from)
  {
  }

  /** A longer table with empty buckets added. */
  function Padded(table: seq<Option<Entry>>, n: nat): seq<Option<Entry>>
    requires n >= |table|
  {
    table + seq(n - |table|, _ => None)
  }

  function PaddedChains(ls: Chains, n: nat): Chains
    requires n >= |ls|
  {
    ls + seq(n - |ls|, _ => [])
  }

  lemma PaddedLinked(next: Links, table: seq<Option<Entry>>, ls: Chains, n: nat)
    requires Linked(next, table, ls) && n >= |ls|
    ensures Linked(next, Padded(table, n), PaddedChains(ls, n)) && Bag(PaddedChains(ls, n)) == Bag(ls)
  {
    hide Bag, Seg;
    var more := seq(n - |ls|, _ => []);
    BagConcat(ls, more);
    BagEmpty(more);
    assert Bag(ls) + multiset{} == Bag(ls);
    forall b | 0 <= b < n ensures Seg(next, Padded(table, n)[b], PaddedChains(ls, n)[b], None) {
      if b >= |ls| { EmptySeg(next); }
    }
  }

  lemma EmptySeg(next: Links)
    ensures Seg(next, None, [], None)
  {
  }

  class Table {
    const hashfn: nat -> nat
    var table: seq<Option<Entry>>
    var next: Links
    var nEntries: nat
    var loadLimit: nat
    var primeIdx: int
    ghost var ls: Chains

    /** What HT_REP_IS_BAD looks for is not there, and no key occurs twice. */
    ghost predicate Valid()
      reads this
    {
      && Linked(next, table, ls) && Single(Bag(ls)) && Homed(hashfn, ls, |ls|, |ls|) && KeysUnique(Bag(ls))
      && nEntries == |Bag(ls)| && Sized()
    }

    ghost predicate Sized()
      reads this
    {
      && (if table == [] then primeIdx == -1 && loadLimit == 0 && nEntries == 0
          else 0 <= primeIdx < |PRIMES| && |table| == PRIMES[primeIdx] && loadLimit == LoadLimit(|table|))
      && (primeIdx < |PRIMES| - 1 ==> nEntries <= loadLimit)
    }

    /** The entries in the table. */
    ghost function Contents(): set<Entry>
      reads this
    {
      set e | e in Bag(ls)
    }

    constructor (hashfn: nat -> nat)
      ensures Valid() && Contents() == {} && this.hashfn == hashfn && primeIdx == -1 && loadLimit == 0
    {
      this.hashfn := hashfn;
      table, next, nEntries, loadLimit, primeIdx, ls := [], map[], 0, 0, -1, [];
    }

    /** HT_GROW: room for more than `size` entries, in fresh memory or, when `mallocOk`
        is false, in what realloc gives; afterwards every key is found as before. Not `ok`
        stands for a search that leaves the table of primes: exactly for a size that no
        prime is enough for, unless the last one is in use or there is room already. */
    method Grow(size: nat, mallocOk: bool) returns (ok: bool)
      requires Valid()
      modifies this`table, this`next, this`loadLimit, this`primeIdx, this`ls
      ensures Valid() && Bag(ls) == old(Bag(ls))
      ensures !ok <==> old(primeIdx) < |PRIMES| - 1 && old(loadLimit) <= size && LAST_LIMIT <= size
      ensures ok ==> table != [] && (primeIdx == |PRIMES| - 1 || loadLimit > size)
      ensures !ok ==> table == old(table) && next == old(next) && loadLimit == old(loadLimit) && primeIdx == old(primeIdx)
    {
      hide Linked, Bag, Single, Homed, KeysUnique;
      ok := true;
      if primeIdx == |PRIMES| - 1 { return; }
      if loadLimit > size { return; }
      var found := NextPrime(size);
      if found.None? { return false; }
      var idx := found.value;
      var newLen, newLimit := PRIMES[idx], LoadLimit(PRIMES[idx]);
      PrimesGrow(primeIdx, idx);
      var newTable;
      ghost var nls;
      if mallocOk {
        newTable, nls := RehashFresh(newLen);
      } else {
        newTable, nls := RehashInPlace(newLen);
      }
      LinkedLength(next, newTable, nls);
      table, primeIdx, loadLimit, ls := newTable, idx, newLimit, nls;
    }

    /** The search in the table of primes: the first one after the one in use that is enough,
        or None for reading past the last. */
    method NextPrime(size: nat) returns (found: Option<nat>)
      requires Sized() && primeIdx < |PRIMES| - 1
      ensures found.None? <==> LAST_LIMIT <= size
      ensures found.Some? ==> primeIdx < found.value < |PRIMES| && LoadLimit(PRIMES[found.value]) > size
      ensures found.Some? ==> forall i :: primeIdx < i < found.value ==> LoadLimit(PRIMES[i]) <= size
    {
      var idx := primeIdx + 1;
      var newLimit := LoadLimit(PRIMES[idx]);
      while newLimit <= size && idx < |PRIMES|
        invariant primeIdx < idx < |PRIMES| && newLimit == LoadLimit(PRIMES[idx])
        invariant forall i :: primeIdx < i < idx ==> LoadLimit(PRIMES[i]) <= size
        decreases |PRIMES| - idx
      {
        idx := idx + 1;
        if idx == |PRIMES| { return None; }
        newLimit := LoadLimit(PRIMES[idx]);
      }
      LimitsGrow(idx);
      found := Some(idx);
    }

    lemma LimitsGrow(i: nat)
      requires i < |PRIMES|
      ensures LoadLimit(PRIMES[i]) <= LAST_LIMIT
    {
    }

    lemma PrimesGrow(i: int, j: int)
      requires Sized() && i == primeIdx < j < |PRIMES|
      ensures |table| < PRIMES[j] && LoadLimit(PRIMES[j]) >= loadLimit
    {
    }

    /** HT_FIND_P: the slot that leads to the entry with `key`, or the last one of its
        bucket. */
    method FindP(key: nat) returns (p: Option<Slot>, ghost b: nat, ghost k: nat)
      requires Linked(next, table, ls)
      ensures p.None? <==> table == []
      ensures p.Some? ==>
                && b == hashfn(key) % |table| && b < |ls| && k <= |ls[b]| && p.value == Slot0(ls, b, k)
                && (p.value.NextOf? ==> p.value.e in next) && Deref(p.value) == HeadOr(ls[b][k..], None)
                && (forall j :: 0 <= j < k ==> ls[b][j].key != key) && (k < |ls[b]| ==> ls[b][k].key == key)
    {
      hide Linked, Seg;
      if table == [] { return None, 0, 0; }
      LinkedLength(next, table, ls);
      b, k := hashfn(key) % |table|, 0;
      var at := Bucket(hashfn(key) % |table|);
      LinkedAt(next, table, ls, b, k);
      var e := table[hashfn(key) % |table|];
      while e != None
        invariant k <= |ls[b]| && at == Slot0(ls, b, k) && e == HeadOr(ls[b][k..], None)
        invariant (at.NextOf? ==> at.e in next) && e == Deref(at)
        invariant forall j :: 0 <= j < k ==> ls[b][j].key != key
        decreases |ls[b]| - k
      {
        assert e.value == ls[b][k];
        if e.value.key == key { return Some(at), b, k; }
        at := NextOf(e.value);
        k := k + 1;
        LinkedAt(next, table, ls, b, k);
        e := next[e.value];
      }
      p := Some(at);
    }

    /** What a slot holds. */
    function Deref(p: Slot): Option<Entry>
      requires if p.Bucket? then p.b < |table| else p.e in next
      reads this`table, this`next
    {
      if p.Bucket? then table[p.b] else next[p.e]
    }

    /** HT_FIND */
    method Find(key: nat) returns (r: Option<Entry>)
      requires Valid()
      ensures r.Some? ==> r.value in Contents() && r.value.key == key
      ensures r.None? ==> forall e :: e in Contents() ==> e.key != key
    {
      hide Linked, Bag, Homed, Single, KeysUnique;
      ghost var b, k;
      var p;
      p, b, k := FindP(key);
      LinkedLength(next, table, ls);
      r := if p.None? then None else Deref(p.value);
      FoundOrNot(key, b, k);
    }

    /** Looking through the bucket of a key up to the first match tells all. */
    lemma FoundOrNot(key: nat, b: nat, k: nat)
      requires Valid()
      requires ls != [] ==> b == hashfn(key) % |ls| && k <= |ls[b]| && forall j :: 0 <= j < k ==> ls[b][j].key != key
      ensures ls == [] || k == |ls[b]| ==> forall e :: e in Contents() ==> e.key != key
      ensures ls != [] && k < |ls[b]| ==> ls[b][k] in Contents()
    {
      hide Linked, Bag, Single, KeysUnique;
      if ls == [] { BagEmpty(ls); return; }
      forall e | e in Contents() && k == |ls[b]| ensures e.key != key {
        BagSource(ls, e);
        var c :| 0 <= c < |ls| && e in ls[c];
      }
      if k < |ls[b]| { BagSource(ls, ls[b][k]); }
    }

    /** HT_INSERT of an entry whose key is not in the table yet. */
    method Insert(elm: Entry, mallocOk: bool)
      requires Valid() && forall e :: e in Contents() ==> e.key != elm.key
      modifies this`table, this`next, this`nEntries, this`loadLimit, this`primeIdx, this`ls
      ensures Valid() && Contents() == old(Contents()) + {elm} && nEntries == old(nEntries) + 1
    {
      hide Linked, Bag, Homed, Single, KeysUnique;
      if table == [] || nEntries >= loadLimit {
        SizeFits();
        var grown := Grow(nEntries + 1, mallocOk);
      }
      LinkedLength(next, table, ls);
      var b := hashfn(elm.key) % |table|;
      assert elm !in Bag(ls) by { assert elm in Bag(ls) ==> elm in Contents(); }
      Push(next, table, ls, b, elm);
      PushHomed(hashfn, ls, |ls|, |ls|, elm, b);
      AddedUnique(Bag(ls), elm);
      nEntries := nEntries + 1;
      next := next[elm := table[b]];
      table := table[b := Some(elm)];
      ls := ls[b := [elm] + ls[b]];
    }

    lemma SizeFits()
      requires Sized()
      ensures primeIdx < |PRIMES| - 1 ==> nEntries + 1 < LAST_LIMIT
    {
    }

    /** HT_REMOVE */
    method Remove(key: nat) returns (r: Option<Entry>)
      requires Valid()
      modifies this`table, this`next, this`nEntries, this`ls
      ensures Valid()
      ensures r.Some? ==> r.value in old(Contents()) && r.value.key == key && Contents() == old(Contents()) - {r.value}
      ensures r.None? ==> Contents() == old(Contents()) && forall e :: e in Contents() ==> e.key != key
      ensures nEntries == old(nEntries) - (if r.Some? then 1 else 0)
    {
      hide Linked, Bag, Homed, Single, KeysUnique;
      ghost var b, k;
      var p;
      p, b, k := FindP(key);
      LinkedLength(next, table, ls);
      FoundOrNot(key, b, k);
      if p.None? || Deref(p.value).None? { return None; }
      var e := Deref(p.value).value;
      Detach(p.value, e, b, k);
      LinkFree(next, table, ls, e, None);
      next := next[e := None];
      r := Some(e);
    }

    /** *p = e->next; --n_entries */
    method Detach(p: Slot, e: Entry, ghost b: nat, ghost k: nat)
      requires Valid() && b < |ls| && k < |ls[b]| && p == Slot0(ls, b, k) && e == ls[b][k]
      modifies this`table, this`next, this`nEntries, this`ls
      ensures Valid() && Contents() == old(Contents()) - {e} && nEntries == old(nEntries) - 1
      ensures e !in Bag(ls) && ls == old(ls)[b := Without(old(ls[b]), k)]
    {
      hide Linked, Bag, Homed, Single, KeysUnique, Without;
      ghost var ls' := ls[b := Without(ls[b], k)];
      Unlink(next, table, ls, b, k);
      UnlinkHomed(hashfn, ls, |ls|, |ls|, b, k);
      DroppedUnique(Bag(ls), Bag(ls'), e);
      SlotInside(next, table, ls, b);
      if p.Bucket? {
        table := table[p.b := next[e]];
      } else {
        next := next[p.e := next[e]];
      }
      nEntries := nEntries - 1;
      ls := ls';
    }

    // ----- iteration -----

    /** The next bucket from `from` on that holds something (the loops of HT_START,
        HT_NEXT and HT_NEXT_RMV). */
    method NextBucket(from: nat) returns (p: Option<Slot>)
      requires Linked(next, table, ls)
      ensures |ls| == |table|
      ensures p.None? ==> forall c :: from <= c < |ls| ==> ls[c] == []
      ensures p.Some? ==>
                && p.value.Bucket? && from <= p.value.b < |ls| && ls[p.value.b] != []
                && forall c :: from <= c < p.value.b ==> ls[c] == []
    {
      hide Linked, Seg;
      LinkedLength(next, table, ls);
      var b := from;
      while b < |table|
        invariant forall c :: from <= c < b && c < |ls| ==> ls[c] == []
      {
        LinkedAt(next, table, ls, b, 0);
        if table[b] != None { return Some(Bucket(b)); }
        b := b + 1;
      }
      p := None;
    }

    /** HT_NEXT_RMV: take the entry at `p` out; gives the slot of the one after it. */
    method NextRmv(p: Slot, ghost b: nat, ghost k: nat) returns (q: Option<Slot>, ghost c: nat, ghost m: nat)
      requires Valid() && b < |ls| && k < |ls[b]| && p == Slot0(ls, b, k)
      modifies this`table, this`next, this`nEntries, this`ls
      ensures Valid() && ls == old(ls)[b := Without(old(ls[b]), k)] && nEntries == old(nEntries) - 1
      ensures q.Some? ==> c < |ls| && m < |ls[c]| && q.value == Slot0(ls, c, m)
      ensures q.Some? ==> (c == b && m == k) || (c > b && m == 0 && k == |ls[b]| && forall i :: b < i < c ==> ls[i] == [])
      ensures q.None? ==> k == |ls[b]| && forall i :: b < i < |ls| ==> ls[i] == []
    {
      hide Linked, Bag, Homed, Single, KeysUnique, Seg;
      LinkedAt(next, table, ls, b, k);
      ghost var e0 := ls[b][k];
      var e := Deref(p).value;
      HomeOf(b, k);
      var h := hashfn(e.key);
      Detach(p, e, b, k);
      LinkedAt(next, table, ls, b, k);
      c, m := b, k;
      if Deref(p) != None { return Some(p), b, k; }
      q := NextBucket(h % |table| + 1);
      if q.Some? { c, m := q.value.b, 0; }
    }

    lemma HomeOf(b: nat, k: nat)
      requires Linked(next, table, ls) && Homed(hashfn, ls, |ls|, |ls|) && b < |ls| && k < |ls[b]|
      ensures |table| == |ls| && hashfn(ls[b][k].key) % |table| == b
    {
    }

    /** Take out everything, as evmap_io_clear does, and free the table (HT_CLEAR): each
        entry is met exactly once. */
    method Clear() returns (visited: seq<Entry>)
      requires Valid()
      modifies this`table, this`next, this`nEntries, this`ls, this`loadLimit, this`primeIdx
      ensures Valid() && Contents() == {} && multiset(visited) == old(Bag(ls))
    {
      hide Linked, Bag, Homed, Single, KeysUnique;
      visited := [];
      assert multiset([]) + Bag(ls) == Bag(ls);
      var ent := NextBucket(0);
      while ent.Some?
        invariant Valid() && multiset(visited) + Bag(ls) == old(Bag(ls))
        invariant if ent.Some? then ent.value.Bucket? && ent.value.b < |ls| && ls[ent.value.b] != []
                                    && forall i :: 0 <= i < ent.value.b ==> ls[i] == []
                  else forall i :: 0 <= i < |ls| ==> ls[i] == []
        decreases nEntries
      {
        var e;
        e, ent := TakeFirst(ent.value.b);
        visited := visited + [e];
      }
      BagEmpty(ls);
      table, next, nEntries, loadLimit, primeIdx, ls := [], map[], 0, 0, -1, [];
      NothingThere(hashfn);
    }

    /** Take the first entry out of a bucket when those before are empty; `ent` is the
        first entry left. */
    method TakeFirst(b: nat) returns (e: Entry, ent: Option<Slot>)
      requires Valid() && b < |ls| && ls[b] != [] && forall i :: 0 <= i < b ==> ls[i] == []
      modifies this`table, this`next, this`nEntries, this`ls
      ensures Valid() && nEntries == old(nEntries) - 1 && Bag(ls) + multiset{e} == old(Bag(ls))
      ensures if ent.Some? then ent.value.Bucket? && ent.value.b < |ls| && ls[ent.value.b] != []
                                && forall i :: 0 <= i < ent.value.b ==> ls[i] == []
              else forall i :: 0 <= i < |ls| ==> ls[i] == []
    {
      hide Linked, Bag, Homed, Single, KeysUnique, Without;
      LinkedAt(next, table, ls, b, 0);
      UnlinkBag(ls, b, 0);
      WithoutFirst(ls[b]);
      e := table[b].value;
      ghost var c, m;
      ent, c, m := NextRmv(Bucket(b), b, 0);
    }

    /** Step `e` of bucket `b` to the bucket where it belongs: *pE = e->next;
        e->next = new_table[b2]; new_table[b2] = e. */
    method Rehome(newTable: seq<Option<Entry>>, ghost nls: Chains, pE: Slot, e: Entry, b2: nat, ghost b: nat, ghost k: nat)
      returns (newTable': seq<Option<Entry>>, ghost nls': Chains)
      requires Linked(next, newTable, nls) && Single(Bag(nls)) && b < |nls| && k < |nls[b]| && e == nls[b][k]
      requires pE == Slot0(nls, b, k) && b2 < |nls| && b2 != b && hashfn(e.key) % |nls| == b2
      modifies this`next
      ensures Linked(next, newTable', nls') && Bag(nls') == Bag(nls)
      ensures nls' == nls[b := Without(nls[b], k)][b2 := [e] + nls[b2]]
    {
      hide Linked, Bag, Single, Without, Seg;
      ghost var mid := nls[b := Without(nls[b], k)];
      Unlink(next, newTable, nls, b, k);
      SlotInside(next, newTable, nls, b);
      assert e !in Bag(mid) by { SingleDrops(Bag(nls), Bag(mid), e); }
      newTable' := newTable;
      if pE.Bucket? {
        newTable' := newTable'[pE.b := next[e]];
      } else {
        next := next[pE.e := next[e]];
      }
      SlotInside(next, newTable', mid, b2);
      Push(next, newTable', mid, b2, e);
      next := next[e := newTable'[b2]];
      newTable' := newTable'[b2 := Some(e)];
      nls' := mid[b2 := [e] + mid[b2]];
    }

    /** The rehash of HT_GROW within the memory of the old table, made longer. */
    method RehashInPlace(newLen: nat) returns (newTable: seq<Option<Entry>>, ghost nls: Chains)
      requires Linked(next, table, ls) && Single(Bag(ls)) && newLen > |table|
      modifies this`next
      ensures Linked(next, newTable, nls) && |nls| == newLen && Bag(nls) == Bag(ls) && Homed(hashfn, nls, newLen, newLen)
    {
      hide Linked, Bag, Single, Homed, Without;
      LinkedLength(next, table, ls);
      newTable, nls := Padded(table, newLen), PaddedChains(ls, newLen);
      PaddedLinked(next, table, ls, newLen);
      PaddedHomed(ls, newLen);
      for b := 0 to |table|
        invariant |nls| == newLen && Linked(next, newTable, nls) && Bag(nls) == Bag(ls)
        invariant Homed(hashfn, nls, b, |table|)
      {
        newTable, nls := RehashBucket(newTable, nls, b);
      }
      AllHomed(nls, |table|);
    }

    /** Its inner loop, which walks bucket `b` and sends away what does not belong. */
    method RehashBucket(table0: seq<Option<Entry>>, ghost nls0: Chains, b: nat)
      returns (newTable: seq<Option<Entry>>, ghost nls: Chains)
      requires b < |table| <= |nls0| && Linked(next, table0, nls0) && Single(Bag(nls0))
      requires Homed(hashfn, nls0, b, |table|)
      modifies this`next
      ensures |nls| == |nls0| && Linked(next, newTable, nls) && Bag(nls) == Bag(nls0)
      ensures Homed(hashfn, nls, b + 1, |table|)
    {
      hide Linked, Bag, Single, Homed, Seg;
      newTable, nls := table0, nls0;
      LinkedLength(next, table0, nls0);
      var newLen := |newTable|;
      var pE := Bucket(b);
      ghost var k := 0;
      LinkedAt(next, newTable, nls, b, k);
      var e := newTable[b];
      while e != None
        invariant |nls| == newLen == |newTable| && Linked(next, newTable, nls) && Bag(nls) == Bag(nls0)
        invariant Homed(hashfn, nls, b, |table|)
        invariant k <= |nls[b]| && pE == Slot0(nls, b, k) && e == HeadOr(nls[b][k..], None)
        invariant forall j :: 0 <= j < k ==> hashfn(nls[b][j].key) % newLen == b
        decreases |nls[b]| - k
      {
        var b2 := hashfn(e.value.key) % newLen;
        assert e.value == nls[b][k];
        if b2 == b {
          pE := NextOf(e.value);
          k := k + 1;
        } else {
          ghost var was := nls;
          UnlinkHomed(hashfn, nls, b, |table|, b, k);
          PushHomed(hashfn, nls[b := Without(nls[b], k)], b, |table|, e.value, b2);
          newTable, nls := Rehome(newTable, nls, pE, e.value, b2, b, k);
          LinkedLength(next, newTable, nls);
          assert nls[b] == Without(was[b], k);
          assert nls[b][..k] == was[b][..k];
        }
        LinkedAt(next, newTable, nls, b, k);
        e := if pE.Bucket? then newTable[pE.b] else next[pE.e];
      }
      OneMoreHomed(nls, b, |table|);
    }

    /** The rehash of HT_GROW into new memory. */
    method RehashFresh(newLen: nat) returns (newTable: seq<Option<Entry>>, ghost nls: Chains)
      requires Linked(next, table, ls) && Single(Bag(ls)) && newLen > 0
      modifies this`next
      ensures Linked(next, newTable, nls) && |nls| == newLen && Bag(nls) == Bag(ls) && Homed(hashfn, nls, newLen, newLen)
    {
      hide Linked, Bag, Single, Homed;
      newTable, nls := seq(newLen, _ => None), seq(newLen, _ => []);
      LinkedLength(next, table, ls);
      StartFresh(newLen);
      assert table[0..] == table && ls[0..] == ls;
      for b := 0 to |table|
        invariant |newTable| == |nls| == newLen && |ls| == |table|
        invariant Linked(next, table[b..] + newTable, ls[b..] + nls) && Bag(ls[b..] + nls) == Bag(ls)
        invariant Homed(hashfn, nls, newLen, newLen)
      {
        newTable, nls := EmptyBucket(newTable, nls, b);
      }
      assert table[|table|..] + newTable == newTable && ls[|table|..] + nls == nls;
    }

    /** Its inner loop, which moves the entries of bucket `b` over one by one. */
    method EmptyBucket(table0: seq<Option<Entry>>, ghost nls0: Chains, b: nat)
      returns (newTable: seq<Option<Entry>>, ghost nls: Chains)
      requires b < |table| == |ls| && |table0| == |nls0| > 0 && Single(Bag(ls))
      requires Linked(next, table[b..] + table0, ls[b..] + nls0) && Bag(ls[b..] + nls0) == Bag(ls)
      requires Homed(hashfn, nls0, |nls0|, |nls0|)
      modifies this`next
      ensures |newTable| == |nls| == |nls0| && Homed(hashfn, nls, |nls|, |nls|)
      ensures Linked(next, table[b + 1..] + newTable, ls[b + 1..] + nls) && Bag(ls[b + 1..] + nls) == Bag(ls)
    {
      hide Linked, Bag, Single, Homed, Seg;
      newTable, nls := table0, nls0;
      ghost var front, rest, r := table[b + 1..], ls[b + 1..], ls[b];
      var elm := table[b];
      assert table[b..] + newTable == [elm] + front + newTable && ls[b..] + nls == [r] + rest + nls;
      while elm != None
        invariant |newTable| == |nls| == |nls0| && Homed(hashfn, nls, |nls|, |nls|)
        invariant Linked(next, [elm] + front + newTable, [r] + rest + nls) && Bag([r] + rest + nls) == Bag(ls)
        decreases |r|
      {
        FirstOf(next, [elm] + front + newTable, [r] + rest + nls);
        var e := elm.value;
        var nxt := next[e];
        var b2 := hashfn(e.key) % |newTable|;
        MoveFirst(next, elm, front, newTable, r, rest, nls, b2);
        PushHomed(hashfn, nls, |nls|, |nls|, e, b2);
        next := next[e := newTable[b2]];
        newTable := newTable[b2 := Some(e)];
        nls := nls[b2 := [e] + nls[b2]];
        r := r[1..];
        elm := nxt;
      }
      assert [elm] + front + newTable == [None] + (front + newTable) && [r] + rest + nls == [r] + (rest + nls);
      DropEmpty(next, front + newTable, r, rest + nls);
    }

    lemma StartFresh(newLen: nat)
      requires Linked(next, table, ls) && newLen > 0
      ensures var nt, nl := seq(newLen, _ => None), seq(newLen, _ => []);
              Linked(next, table + nt, ls + nl) && Bag(ls + nl) == Bag(ls) && Homed(hashfn, nl, newLen, newLen)
    {
      hide Bag;
      var none: Chains := seq(newLen, _ => []);
      BagConcat(ls, none);
      BagEmpty(none);
      assert Bag(ls) + multiset{} == Bag(ls);
    }

    lemma PaddedHomed(ls: Chains, n: nat)
      requires n > |ls|
      ensures Homed(hashfn, PaddedChains(ls, n), 0, |ls|)
    {
    }

    lemma AllHomed(nls: Chains, from: nat)
      requires Homed(hashfn, nls, from, from)
      ensures Homed(hashfn, nls, |nls|, |nls|)
    {
    }

    lemma OneMoreHomed(nls: Chains, b: nat, from: nat)
      requires Homed(hashfn, nls, b, from) && b < |nls|
      requires forall j :: 0 <= j < |nls[b]| ==> hashfn(nls[b][j].key) % |nls| == b
      ensures Homed(hashfn, nls, b + 1, from)
    {
    }
  }

  lemma SlotInside(next: Links, table: seq<Option<Entry>>, ls: Chains, b: nat)
    requires Linked(next, table, ls) && b < |ls|
    ensures b < |table| && Seg(next, table[b], ls[b], None)
  {
  }

  lemma LinkedLength(next: Links, table: seq<Option<Entry>>, ls: Chains)
    requires Linked(next, table, ls)
    ensures |table| == |ls|
  {
  }

  /** What the slot before place `k` of bucket `b` holds. */
  lemma LinkedAt(next: Links, table: seq<Option<Entry>>, ls: Chains, b: nat, k: nat)
    requires Linked(next, table, ls) && b < |ls| && k <= |ls[b]|
    ensures |table| == |ls|
    ensures if k == 0 then table[b] == HeadOr(ls[b], None)
            else ls[b][k - 1] in next && next[ls[b][k - 1]] == HeadOr(ls[b][k..], None)
    ensures ls[b][0..] == ls[b]
  {
    if k > 0 { SegAt(next, table[b], ls[b], k - 1); }
  }

  lemma FirstOf(next: Links, table: seq<Option<Entry>>, ls: Chains)
    requires Linked(next, table, ls) && table != []
    ensures ls != [] && table[0] == HeadOr(ls[0], None)
    ensures ls[0] != [] ==> ls[0][0] in next
  {
    assert Seg(next, table[0], ls[0], None);
  }

  /** Moving the first of what is left of a bucket into a new bucket. */
  lemma MoveFirst(next: Links, elm: Option<Entry>, front: seq<Option<Entry>>, newTable: seq<Option<Entry>>,
                  r: seq<Entry>, rest: Chains, nls: Chains, b2: nat)
    requires Linked(next, [elm] + front + newTable, [r] + rest + nls) && Single(Bag([r] + rest + nls))
    requires r != [] && |newTable| == |nls| && |front| == |rest| && b2 < |nls|
    ensures var e := r[0];
            && elm == Some(e) && e in next
            && Linked(next[e := newTable[b2]], [next[e]] + front + newTable[b2 := Some(e)],
                      [r[1..]] + rest + nls[b2 := [e] + nls[b2]])
            && Bag([r[1..]] + rest + nls[b2 := [e] + nls[b2]]) == Bag([r] + rest + nls)
  {
    hide Linked, Bag, Single, Seg;
    var t, l, p := [elm] + front + newTable, [r] + rest + nls, 1 + |rest| + b2;
    var e := r[0];
    FirstOf(next, t, l);
    Unlink(next, t, l, 0, 0);
    assert Without(r, 0) == r[1..];
    var l' := l[0 := r[1..]];
    assert e !in Bag(l') by { SingleDrops(Bag(l), Bag(l'), e); }
    Push(next, t[0 := next[e]], l', p, e);
    assert t[0 := next[e]][p := Some(e)] == [next[e]] + front + newTable[b2 := Some(e)];
    assert l'[p := [e] + l'[p]] == [r[1..]] + rest + nls[b2 := [e] + nls[b2]];
  }

  lemma DropEmpty(next: Links, table: seq<Option<Entry>>, r: seq<Entry>, ls: Chains)
    requires Linked(next, [None] + table, [r] + ls)
    ensures r == [] && Linked(next, table, ls) && Bag([r] + ls) == Bag(ls)
  {
    hide Seg, Bag;
    FirstOf(next, [None] + table, [r] + ls);
    forall b | 0 <= b < |ls| ensures Seg(next, table[b], ls[b], None) {
      assert ([None] + table)[b + 1] == table[b] && ([r] + ls)[b + 1] == ls[b];
    }
    BagFirst(ls);
  }

  ghost predicate KeysUnique(bag: multiset<Entry>)
  {
    forall e, f :: e in bag && f in bag && e.key == f.key ==> e == f
  }

  lemma AddedUnique(bag: multiset<Entry>, e: Entry)
    requires Single(bag) && KeysUnique(bag) && forall f :: f in bag ==> f.key != e.key
    ensures Single(bag + multiset{e}) && KeysUnique(bag + multiset{e}) && |bag + multiset{e}| == |bag| + 1
    ensures (set f | f in bag + multiset{e}) == (set f | f in bag) + {e}
  {
  }

  lemma DroppedUnique(bag: multiset<Entry>, rest: multiset<Entry>, e: Entry)
    requires Single(bag) && KeysUnique(bag) && bag == rest + multiset{e}
    ensures Single(rest) && KeysUnique(rest) && |bag| == |rest| + 1 && e !in rest
    ensures (set f | f in rest) == (set f | f in bag) - {e}
  {
    forall f ensures f in rest <==> f in bag && f != e {
      assert bag[f] == (rest + multiset{e})[f];
    }
  }

  /** The link of an entry outside the table is free. */
  lemma LinkFree(next: Links, table: seq<Option<Entry>>, ls: Chains, e: Entry, l: Option<Entry>)
    requires Linked(next, table, ls) && e !in Bag(ls)
    ensures Linked(next[e := l], table, ls)
  {
    hide Seg, Bag;
    forall b | 0 <= b < |ls| ensures Seg(next[e := l], table[b], ls[b], None) {
      if e in ls[b] { BagHas(ls, b, e); }
      SegFrame(next, next[e := l], table[b], ls[b], None);
    }
  }

  lemma WithoutFirst(l: seq<Entry>)
    requires l != []
    ensures Without(l, 0) == l[1..]
  {
  }

  lemma NothingThere(hashfn: nat -> nat)
    ensures Linked(map[], [], []) && Bag<Entry>([]) == multiset{} && Homed(hashfn, [], 0, 0)
            && KeysUnique(Bag([])) && Single(Bag<Entry>([]))
  {
  }

  // ----- runs -----

  datatype Op = Put(e: Entry, mallocOk: bool) | Take(key: nat) | Resize(size: nat, mallocOk: bool)

  /** The finite map that a table with these operations is for. */
  function Apply(op: Op, m: map<nat, Entry>): map<nat, Entry>
  {
    match op
    case Put(e, _) => if e.key in m then m else m[e.key := e]
    case Take(key) => m - {key}
    case Resize(_, _) => m
  }

  function After(ops: seq<Op>): map<nat, Entry>
  {
    if ops == [] then map[] else Apply(ops[|ops| - 1], After(ops[..|ops| - 1]))
  }

  /** Every lookup answers as the map does. */
  ghost predicate Stands(t: Table, m: map<nat, Entry>)
    reads t
  {
    (forall e :: e in t.Contents() <==> e.key in m && m[e.key] == e) && forall k :: k in m ==> m[k].key == k
  }

  lemma Unknown(t: Table, m: map<nat, Entry>, key: nat)
    requires Stands(t, m) && forall e :: e in t.Contents() ==> e.key != key
    ensures key !in m
  {
    hide Bag;
    assert forall k :: k in m ==> m[k] in t.Contents() && m[k].key == k;
  }

  method Perform(t: Table, op: Op, ghost m: map<nat, Entry>)
    requires t.Valid() && Stands(t, m)
    modifies t
    ensures t.Valid() && Stands(t, Apply(op, m))
  {
    hide Linked, Bag, Homed, Single, KeysUnique, Table.Sized;
    ghost var before := t.Contents();
    match op {
      case Put(e, mallocOk) =>
        var r := t.Find(e.key);
        if r == None {
          Unknown(t, m, e.key);
          t.Insert(e, mallocOk);
        }
      case Take(key) => var r := t.Remove(key);
      case Resize(size, mallocOk) => var ok := t.Grow(size, mallocOk);
    }
  }

  /** Any run of insertions, removals and rehashes of either kind refines a finite map. */
  method Run(hashfn: nat -> nat, ops: seq<Op>) returns (t: Table)
    ensures t.Valid() && Stands(t, After(ops))
  {
    hide Linked, Bag, Homed, Single, KeysUnique, Table.Sized, Stands, Apply;
    t := new Table(hashfn);
    assert Stands(t, After([])) by { EmptyStands(t); }
    for k := 0 to |ops|
      invariant t.Valid() && fresh(t) && Stands(t, After(ops[..k]))
    {
      assert ops[..k + 1][..k] == ops[..k];
      Perform(t, ops[k], After(ops[..k]));
    }
    assert ops[..|ops|] == ops;
  }

  /** An empty table asked for room for 805306370 entries looks for a prime past the last. */
  method PastThePrimes(hashfn: nat -> nat) returns (t: Table, ok: bool)
    ensures fresh(t) && t.Valid() && !ok
  {
    hide Linked, Bag, Homed, Single, KeysUnique, Table.Sized;
    t := new Table(hashfn);
    ok := t.Grow(805306370, true);
  }

  lemma EmptyStands(t: Table)
    requires t.Contents() == {}
    ensures Stands(t, map[])
  {
  }
}
