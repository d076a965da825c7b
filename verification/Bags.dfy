/** Lists that share no element, by way of how often each element occurs in them. */
module Bags {
  import opened Common

  predicate Distinct<T(==)>(l: seq<T>)
  {
    forall i, j :: 0 <= i < j < |l| ==> l[i] != l[j]
  }

  /** The list without its `k`th element. */
  function Without<T>(l: seq<T>, k: nat): seq<T>
    requires k < |l|
  {
    l[..k] + l[k + 1..]
  }

  /** How often an element occurs in the lists. */
  ghost function Bag<T(!new)>(ls: seq<seq<T>>): multiset<T>
  {
    if ls == [] then multiset{} else multiset(ls[0]) + Bag(ls[1..])
  }

  lemma {:induction false} BagUpdate<T(!new)>(ls: seq<seq<T>>, i: nat, l: seq<T>)
    requires i < |ls|
    ensures Bag(ls[i := l]) + multiset(ls[i]) == Bag(ls) + multiset(l)
  {
    if i == 0 {
      assert ls[0 := l][1..] == ls[1..];
    } else {
      assert ls[i := l][1..] == ls[1..][i - 1 := l];
      BagUpdate(ls[1..], i - 1, l);
      var h, t, t' := multiset(ls[0]), Bag(ls[1..]), Bag(ls[1..][i - 1 := l]);
      assert (h + t') + multiset(ls[i]) == h + (t' + multiset(ls[i])) == h + (t + multiset(l)) == (h + t) + multiset(l);
    }
  }

  lemma {:induction false} BagConcat<T(!new)>(a: seq<seq<T>>, b: seq<seq<T>>)
    ensures Bag(a + b) == Bag(a) + Bag(b)
  {
    if a == [] {
      assert a + b == b;
    } else {
      assert (a + b)[1..] == a[1..] + b;
      BagConcat(a[1..], b);
    }
  }

  lemma {:induction false} BagEmpty<T(!new)>(ls: seq<seq<T>>)
    requires forall i :: 0 <= i < |ls| ==> ls[i] == []
    ensures Bag(ls) == multiset{}
  {
    if ls != [] { BagEmpty(ls[1..]); }
  }

  ghost predicate Single<T(!new)>(bag: multiset<T>)
  {
    forall e :: bag[e] <= 1
  }

  lemma {:induction false} BagHas<T(!new)>(ls: seq<seq<T>>, i: nat, e: T)
    requires i < |ls|
    ensures Bag(ls)[e] >= multiset(ls[i])[e]
  {
    if i > 0 { BagHas(ls[1..], i - 1, e); }
  }

  lemma {:induction false} BagSource<T(!new)>(ls: seq<seq<T>>, e: T)
    ensures e in Bag(ls) <==> exists i :: 0 <= i < |ls| && e in ls[i]
  {
    if ls != [] {
      BagSource(ls[1..], e);
      assert forall i :: 0 < i < |ls| ==> ls[i] == ls[1..][i - 1];
      assert forall i :: 0 <= i < |ls| - 1 ==> ls[1..][i] == ls[i + 1];
    }
  }

  lemma {:induction false} CountedTwice<T(!new)>(l: seq<T>, j: nat, k: nat)
    requires j < k < |l| && l[j] == l[k]
    ensures multiset(l)[l[j]] >= 2
  {
    assert l == [l[0]] + l[1..];
    if j > 0 {
      CountedTwice(l[1..], j - 1, k - 1);
    } else {
      assert l[1..][k - 1] == l[j];
    }
  }

  lemma {:induction false} BagHasTwo<T(!new)>(ls: seq<seq<T>>, i: nat, j: nat, e: T)
    requires i < j < |ls|
    ensures Bag(ls)[e] >= multiset(ls[i])[e] + multiset(ls[j])[e]
  {
    if i > 0 {
      BagHasTwo(ls[1..], i - 1, j - 1, e);
    } else {
      BagHas(ls[1..], j - 1, e);
    }
  }

  /** No element is twice in a list or in two lists. */
  lemma SingleDistinct<T(!new)>(ls: seq<seq<T>>, i: nat)
    requires Single(Bag(ls)) && i < |ls|
    ensures Distinct(ls[i])
    ensures forall j, e :: 0 <= j < |ls| && j != i && e in ls[i] ==> e !in ls[j]
  {
    hide Bag;
    var l := ls[i];
    forall j, k | 0 <= j < k < |l| ensures l[j] != l[k] {
      BagHas(ls, i, l[j]);
      if l[j] == l[k] { CountedTwice(l, j, k); }
    }
    forall j, e | 0 <= j < |ls| && j != i && e in ls[i] ensures e !in ls[j] {
      BagHasTwo(ls, if i < j then i else j, if i < j then j else i, e);
    }
  }

  lemma BagCancel<T(!new)>(x: multiset<T>, y: multiset<T>, l: multiset<T>, e: T)
    requires x + l == y + (multiset{e} + l)
    ensures x == y + multiset{e}
  {
    forall z ensures x[z] == (y + multiset{e})[z] {
      assert (x + l)[z] == (y + (multiset{e} + l))[z];
    }
  }

  lemma UnlinkBag<T(!new)>(ls: seq<seq<T>>, b: nat, k: nat)
    requires b < |ls| && k < |ls[b]|
    ensures Bag(ls) == Bag(ls[b := Without(ls[b], k)]) + multiset{ls[b][k]}
  {
    hide Bag;
    var l, e := ls[b], ls[b][k];
    BagUpdate(ls, b, Without(l, k));
    assert l == l[..k] + [e] + l[k + 1..];
    assert multiset(l) == multiset{e} + multiset(Without(l, k));
    BagCancel(Bag(ls), Bag(ls[b := Without(l, k)]), multiset(Without(l, k)), e);
  }

  lemma SingleDrops<T(!new)>(bag: multiset<T>, rest: multiset<T>, e: T)
    requires Single(bag) && bag == rest + multiset{e}
    ensures Single(rest) && e !in rest && forall x :: x in rest <==> x in bag && x != e
  {
    forall x ensures rest[x] <= 1 && (x in rest <==> x in bag && x != e) {
      assert bag[x] == (rest + multiset{e})[x] <= 1;
    }
  }

  lemma BagFirst<T(!new)>(ls: seq<seq<T>>)
    ensures Bag([[]] + ls) == Bag(ls)
  {
    assert ([[]] + ls)[1..] == ls;
  }

  /** In a list without repetition, taking an element out is taking its place out. */
  lemma {:induction false} RemovedIsWithout<T(!new)>(l: seq<T>, k: nat)
    requires Distinct(l) && k < |l|
    ensures Removed(l, l[k]) == Without(l, k)
  {
    if k > 0 {
      assert l[1..][k - 1] == l[k];
      RemovedIsWithout(l[1..], k - 1);
      assert [l[0]] + Without(l[1..], k - 1) == Without(l, k);
    } else {
      assert l[1..] == Without(l, 0);
    }
  }
}
