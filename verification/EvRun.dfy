/** Linked runs of evbuffer chains, the parts of data they hold, and where the
    cached slots of an evbuffer lead (evbuffer-internal.h). */
module EvRun {
  import opened Common
  import opened Bags
  import opened EvChain

  // ----- parts of data -----

  function Flatten(parts: seq<seq<byte>>): seq<byte>
  {
    if parts == [] then [] else parts[0] + Flatten(parts[1..])
  }

  lemma {:induction false} FlattenConcat(a: seq<seq<byte>>, b: seq<seq<byte>>)
    ensures Flatten(a + b) == Flatten(a) + Flatten(b)
  {
    if a == [] {
      assert a + b == b;
    } else {
      assert (a + b)[1..] == a[1..] + b;
      FlattenConcat(a[1..], b);
    }
  }

  lemma FlattenOne(p: seq<byte>)
    ensures Flatten([p]) == p
  {
    assert [p][1..] == [];
  }

  lemma FlattenSplit(parts: seq<seq<byte>>, i: nat)
    requires i <= |parts|
    ensures Flatten(parts) == Flatten(parts[..i]) + Flatten(parts[i..])
  {
    hide Flatten;
    assert parts == parts[..i] + parts[i..];
    FlattenConcat(parts[..i], parts[i..]);
  }

  lemma FlattenHead(parts: seq<seq<byte>>, i: nat)
    requires i < |parts|
    ensures Flatten(parts[i..]) == parts[i] + Flatten(parts[i + 1..])
  {
    assert parts[i..][1..] == parts[i + 1..];
  }

  lemma FlattenTake(parts: seq<seq<byte>>, i: nat)
    requires i < |parts|
    ensures Flatten(parts[..i + 1]) == Flatten(parts[..i]) + parts[i]
  {
    hide Flatten;
    assert parts[..i + 1] == parts[..i] + [parts[i]];
    FlattenConcat(parts[..i], [parts[i]]);
    FlattenOne(parts[i]);
  }

  lemma FlattenAt(parts: seq<seq<byte>>, i: nat)
    requires i < |parts|
    ensures Flatten(parts) == Flatten(parts[..i]) + parts[i] + Flatten(parts[i + 1..])
  {
    hide Flatten;
    FlattenSplit(parts, i);
    FlattenHead(parts, i);
  }

  lemma FlattenUpdate(parts: seq<seq<byte>>, i: nat, p: seq<byte>)
    requires i < |parts|
    ensures Flatten(parts[i := p]) == Flatten(parts[..i]) + p + Flatten(parts[i + 1..])
  {
    hide Flatten;
    FlattenAt(parts[i := p], i);
    assert parts[i := p][..i] == parts[..i] && parts[i := p][i + 1..] == parts[i + 1..];
  }

  lemma {:induction false} AllEmpty(parts: seq<seq<byte>>)
    requires forall i :: 0 <= i < |parts| ==> parts[i] == []
    ensures Flatten(parts) == []
  {
    if parts != [] { AllEmpty(parts[1..]); }
  }

  /** The chain that `last_with_datap` leads to: the last one with data, or the
      first when all are empty. */
  function LastWithData(parts: seq<seq<byte>>): (k: nat)
    ensures k == 0 || (k < |parts| && parts[k] != [])
    ensures forall i :: k < i < |parts| ==> parts[i] == []
  {
    if |parts| <= 1 then 0
    else if parts[|parts| - 1] != [] then |parts| - 1
    else LastWithData(parts[..|parts| - 1])
  }

  /** What determines the last chain with data. */
  lemma LastIs(parts: seq<seq<byte>>, k: nat)
    requires k == 0 || (k < |parts| && parts[k] != [])
    requires forall i :: k < i < |parts| ==> parts[i] == []
    ensures LastWithData(parts) == k
  {
  }

  lemma LastFacts(parts: seq<seq<byte>>)
    ensures var k := LastWithData(parts);
            (k == 0 || (k < |parts| && parts[k] != [])) && forall i :: k < i < |parts| ==> parts[i] == []
    ensures parts != [] ==> LastWithData(parts) < |parts|
  {
  }

  /** An empty chain occurs only on its own. */
  ghost predicate TightParts(parts: seq<seq<byte>>)
  {
    |parts| > 1 ==> forall i :: 0 <= i < |parts| ==> parts[i] != []
  }

  lemma TightLast(parts: seq<seq<byte>>)
    requires TightParts(parts)
    ensures LastWithData(parts) == if parts == [] then 0 else |parts| - 1
  {
  }

  /** A tight buffer with data has no empty chain at all. */
  lemma TightData(parts: seq<seq<byte>>, i: nat)
    requires TightParts(parts) && Flatten(parts) != [] && i < |parts|
    ensures parts[i] != []
  {
    if |parts| == 1 { FlattenOne(parts[0]); assert parts == [parts[0]]; }
  }

  // ----- runs of chains -----

  /** A `struct evbuffer_chain **`: the buffer's `first` field, or the `next` field
      of a chain. */
  datatype Slot = AtFirst | After(c: Chain)

  function SlotOf(cs: seq<Chain>, k: nat): Slot
    requires k <= |cs|
  {
    if k == 0 then AtFirst else After(cs[k - 1])
  }

  function ChainAt(cs: seq<Chain>, i: nat): Chain?
  {
    if i < |cs| then cs[i] else null
  }

  function LastOf(cs: seq<Chain>): Chain?
  {
    if cs == [] then null else cs[|cs| - 1]
  }

  function HeadOr(cs: seq<Chain>, tail: Chain?): Chain?
  {
    if cs == [] then tail else cs[0]
  }

  function NextIn(cs: seq<Chain>, i: nat, tail: Chain?): Chain?
  {
    if i + 1 < |cs| then cs[i + 1] else tail
  }

  /** The chains `cs`, all among `cells`, are linked in this order, hold `parts`,
      and lead to `tail`. */
  ghost predicate Run(cs: seq<Chain>, parts: seq<seq<byte>>, tail: Chain?, cells: set<Chain>)
    reads cells
  {
    && |cs| == |parts| && Distinct(cs)
    && forall i {:trigger cs[i]} :: 0 <= i < |cs| ==>
         cs[i] in cells && cs[i].Holds(parts[i]) && cs[i].next == NextIn(cs, i, tail)
  }

  ghost function CellsOf(cs: seq<Chain>): set<Chain>
  {
    set c | c in cs
  }

  lemma RunEmpty(tail: Chain?, cells: set<Chain>)
    ensures Run([], [], tail, cells)
  {
  }

  lemma RunOne(c: Chain, p: seq<byte>)
    requires c.Holds(p)
    ensures Run([c], [p], c.next, CellsOf([c])) && CellsOf([c]) == {c} && c.off == |p|
  {
  }

  lemma RunAt(cs: seq<Chain>, parts: seq<seq<byte>>, tail: Chain?, cells: set<Chain>, i: nat)
    requires Run(cs, parts, tail, cells) && i < |cs|
    ensures |parts| == |cs| && cs[i] in cells && cs[i].Holds(parts[i]) && cs[i].off == |parts[i]|
    ensures cs[i].next == NextIn(cs, i, tail)
    ensures forall j :: 0 <= j < |cs| && j != i ==> cs[j] != cs[i]
  {
  }

  /** A run falls into the part before its `m`th chain and the rest. */
  lemma RunSplit(cs: seq<Chain>, parts: seq<seq<byte>>, tail: Chain?, cells: set<Chain>, m: nat)
    requires Run(cs, parts, tail, cells) && m <= |cs|
    ensures |parts| == |cs|
    ensures Run(cs[..m], parts[..m], HeadOr(cs[m..], tail), CellsOf(cs[..m])) && CellsOf(cs[..m]) <= cells
    ensures Run(cs[m..], parts[m..], tail, CellsOf(cs[m..])) && CellsOf(cs[m..]) <= cells
    ensures CellsOf(cs[..m]) !! CellsOf(cs[m..])
  {
    hide Chain.Holds;
    var b, pb := cs[m..], parts[m..];
    forall i | 0 <= i < |b|
      ensures b[i] in CellsOf(b) && b[i].Holds(pb[i]) && b[i].next == NextIn(b, i, tail)
    {
      assert b[i] == cs[m + i] && pb[i] == parts[m + i];
      assert i + 1 < |b| ==> b[i + 1] == cs[m + i + 1];
    }
  }

  lemma RunJoin(a: seq<Chain>, pa: seq<seq<byte>>, ca: set<Chain>, b: seq<Chain>, pb: seq<seq<byte>>, cb: set<Chain>,
                tail: Chain?)
    requires Run(a, pa, HeadOr(b, tail), ca) && Run(b, pb, tail, cb) && ca !! cb
    ensures Run(a + b, pa + pb, tail, ca + cb)
  {
    hide Chain.Holds;
    var cs, ps := a + b, pa + pb;
    forall i | 0 <= i < |cs|
      ensures cs[i] in ca + cb && cs[i].Holds(ps[i]) && cs[i].next == NextIn(cs, i, tail)
    {
      if i < |a| {
        assert cs[i] == a[i] && ps[i] == pa[i];
        assert i + 1 < |cs| ==> cs[i + 1] == if i + 1 < |a| then a[i + 1] else b[0];
      } else {
        assert cs[i] == b[i - |a|] && ps[i] == pb[i - |a|];
        assert i + 1 < |cs| ==> cs[i + 1] == b[i + 1 - |a|];
      }
    }
    forall i, j | 0 <= i < j < |cs|
      ensures cs[i] != cs[j]
    {
      if i < |a| <= j { assert a[i] in ca && b[j - |a|] in cb; }
    }
  }

  /** A run seen with more cells is still a run. */
  lemma RunWiden(cs: seq<Chain>, parts: seq<seq<byte>>, tail: Chain?, cells: set<Chain>, wider: set<Chain>)
    requires Run(cs, parts, tail, cells) && cells <= wider
    ensures Run(cs, parts, tail, wider)
  {
  }

  /** Around its `i`th chain a run falls into two others. */
  lemma RunAround(cs: seq<Chain>, parts: seq<seq<byte>>, tail: Chain?, cells: set<Chain>, i: nat)
    requires Run(cs, parts, tail, cells) && i < |cs|
    ensures |parts| == |cs| && cs[i] in cells && cs[i].Holds(parts[i]) && cs[i].off == |parts[i]|
    ensures cs[i].next == HeadOr(cs[i + 1..], tail) == NextIn(cs, i, tail)
    ensures Run(cs[..i], parts[..i], cs[i], CellsOf(cs[..i])) && CellsOf(cs[..i]) <= cells
    ensures Run(cs[i + 1..], parts[i + 1..], tail, CellsOf(cs[i + 1..])) && CellsOf(cs[i + 1..]) <= cells
    ensures cs[i] !in CellsOf(cs[..i]) && cs[i] !in CellsOf(cs[i + 1..])
    ensures CellsOf(cs[..i]) !! CellsOf(cs[i + 1..])
  {
    hide Chain.Holds, Run;
    RunAt(cs, parts, tail, cells, i);
    RunSplit(cs, parts, tail, cells, i);
    RunSplit(cs, parts, tail, cells, i + 1);
    assert cs[i..][0] == cs[i];
  }

  /** And back, when that chain may hold something else by now. */
  lemma RunMend(cs: seq<Chain>, parts: seq<seq<byte>>, tail: Chain?, cells: set<Chain>, i: nat, p: seq<byte>)
    requires i < |cs| == |parts| && cs[i] in cells && cs[i].Holds(p) && cs[i].next == HeadOr(cs[i + 1..], tail)
    requires Run(cs[..i], parts[..i], cs[i], CellsOf(cs[..i])) && CellsOf(cs[..i]) <= cells
    requires Run(cs[i + 1..], parts[i + 1..], tail, CellsOf(cs[i + 1..])) && CellsOf(cs[i + 1..]) <= cells
    requires cs[i] !in CellsOf(cs[..i]) && cs[i] !in CellsOf(cs[i + 1..])
    requires CellsOf(cs[..i]) !! CellsOf(cs[i + 1..])
    ensures Run(cs, parts[i := p], tail, cells)
  {
    hide Chain.Holds, Run;
    var a, b, pa, pb := cs[..i], cs[i + 1..], parts[..i], parts[i + 1..];
    RunOne(cs[i], p);
    RunJoin([cs[i]], [p], {cs[i]}, b, pb, CellsOf(b), tail);
    RunJoin(a, pa, CellsOf(a), [cs[i]] + b, [p] + pb, {cs[i]} + CellsOf(b), tail);
    assert a + ([cs[i]] + b) == cs && pa + ([p] + pb) == parts[i := p];
    RunWiden(cs, parts[i := p], tail, CellsOf(a) + ({cs[i]} + CellsOf(b)), cells);
  }

  /** Point the last chain of a run at another one. */
  method Relink(ghost cs: seq<Chain>, ghost parts: seq<seq<byte>>, last: Chain, tail: Chain?, ghost cells: set<Chain>)
    requires cs != [] && last == cs[|cs| - 1] && Run(cs, parts, last.next, cells)
    modifies last`next
    ensures Run(cs, parts, tail, cells) && last.next == tail
  {
    hide Chain.Holds;
    last.next := tail;
  }

  // ----- an evbuffer's fields -----

  /** What an evbuffer's list is made of: its chains in order, the data of each, and
      the set they belong to. */
  datatype View = View(chains: seq<Chain>, parts: seq<seq<byte>>, cells: set<Chain>)

  /** The fields of an evbuffer and its chains agree, as documented with the struct. */
  ghost predicate Rep(v: View, first: Chain?, last: Chain?, lastWithDatap: Slot, totalLen: nat)
    reads v.cells
  {
    && Run(v.chains, v.parts, null, v.cells) && |v.parts| == |v.chains|
    && first == ChainAt(v.chains, 0) && last == LastOf(v.chains)
    && lastWithDatap == SlotOf(v.chains, LastWithData(v.parts))
    && totalLen == |Flatten(v.parts)|
  }

  lemma RepRun(v: View, first: Chain?, last: Chain?, slot: Slot, total: nat)
    requires Rep(v, first, last, slot, total)
    ensures Run(v.chains, v.parts, null, v.cells) && |v.parts| == |v.chains|
    ensures first == ChainAt(v.chains, 0) && last == LastOf(v.chains)
    ensures LastWithData(v.parts) <= |v.chains| && slot == SlotOf(v.chains, LastWithData(v.parts))
    ensures total == |Flatten(v.parts)|
    ensures v.chains != [] ==> first in v.cells && last in v.cells
    ensures TightParts(v.parts) ==> LastWithData(v.parts) == if v.chains == [] then 0 else |v.chains| - 1
  {
    if TightParts(v.parts) { TightLast(v.parts); }
  }

  // ----- adding a chain at the end -----

  /** Where a new chain goes: in place of the trailing empty ones. */
  function InsertAt(parts: seq<seq<byte>>): (m: nat)
    ensures m <= |parts|
  {
    var k := LastWithData(parts);
    if parts == [] || parts[k] == [] then 0 else k + 1
  }

  function Inserted(parts: seq<seq<byte>>, p: seq<byte>): seq<seq<byte>>
  {
    parts[..InsertAt(parts)] + [p]
  }

  lemma InsertFacts(parts: seq<seq<byte>>)
    ensures var m := InsertAt(parts);
            && (forall i :: m <= i < |parts| ==> parts[i] == [])
            && (if m > 0 then m == LastWithData(parts) + 1 && parts[m - 1] != [] else LastWithData(parts) == 0)
            && (TightParts(parts) && m < |parts| ==> m == 0 && parts == [[]])
  {
    if TightParts(parts) && |parts| > 1 {
      assert parts[|parts| - 1] != [];
    }
  }

  lemma InsertParts(parts: seq<seq<byte>>, p: seq<byte>)
    ensures Flatten(Inserted(parts, p)) == Flatten(parts) + p
    ensures LastWithData(Inserted(parts, p)) ==
            if InsertAt(parts) == 0 || p != [] then InsertAt(parts) else LastWithData(parts)
  {
    hide Flatten, LastWithData, TightParts, InsertAt;
    var m := InsertAt(parts);
    InsertFacts(parts);
    InsertFlatten(parts, m, p);
    InsertLast(parts, m, p);
  }

  lemma InsertFlatten(parts: seq<seq<byte>>, m: nat, p: seq<byte>)
    requires m <= |parts| && forall i :: m <= i < |parts| ==> parts[i] == []
    ensures Flatten(parts[..m] + [p]) == Flatten(parts) + p
  {
    hide Flatten;
    FlattenSplit(parts, m);
    AllEmpty(parts[m..]);
    FlattenConcat(parts[..m], [p]);
    FlattenOne(p);
  }

  lemma InsertLast(parts: seq<seq<byte>>, m: nat, p: seq<byte>)
    requires m <= |parts| && (m > 0 ==> parts[m - 1] != [])
    ensures LastWithData(parts[..m] + [p]) == (if m == 0 || p != [] then m else m - 1)
  {
    LastIs(parts[..m] + [p], if m == 0 || p != [] then m else m - 1);
  }

  /** None of the chains from `a` up to `b` is empty. */
  ghost predicate Solid(parts: seq<seq<byte>>, a: nat, b: nat)
  {
    forall i :: a <= i < b && i < |parts| ==> parts[i] != []
  }

  /** All chains from `m` on are empty. */
  ghost predicate EmptyFrom(parts: seq<seq<byte>>, m: nat)
  {
    forall i :: m <= i < |parts| ==> parts[i] == []
  }

  /** From chain `k` on, chain `m` is the first empty one, or the end of the list. */
  ghost predicate Stops(parts: seq<seq<byte>>, k: nat, m: nat)
  {
    k <= m <= |parts| && Solid(parts, k, m) && (m < |parts| ==> parts[m] == [])
  }

  /** The slot once a chain that holds `p` has been put at `m`. */
  function SlotAfter(k: nat, m: nat, n: nat, p: seq<byte>): nat
  {
    if m == n && p != [] then m else k
  }

  lemma InsertedSlot(v: View, chain: Chain, p: seq<byte>, k: nat, m: nat)
    requires |v.chains| == |v.parts| && Stops(v.parts, k, m)
    ensures var cs, k' := v.chains[..m] + [chain], SlotAfter(k, m, |v.parts|, p);
            && m <= |v.chains| && |v.parts[..m] + [p]| == |cs| && LastOf(cs) == chain && k' < |cs|
            && SlotOf(cs, k') == if m == |v.chains| && p != [] then SlotOf(v.chains, m) else SlotOf(v.chains, k)
    ensures ChainAt(v.chains, m) == null ==> m == |v.chains| && EmptyFrom(v.parts, m)
    ensures ChainAt(v.chains, m) != null ==> m < |v.chains|
  {
  }

  /** From the last chain with data on, that is where a new chain goes. */
  lemma StopsThere(parts: seq<seq<byte>>, m: nat)
    requires Stops(parts, LastWithData(parts), m)
    ensures m == InsertAt(parts) && EmptyFrom(parts, m)
  {
    hide LastWithData;
    LastFacts(parts);
    var k := LastWithData(parts);
    if m > k { assert parts[k] != []; }
    if k + 1 < |parts| { assert parts[k + 1] == []; }
  }

  /** From the last chain with data on, the slot is right afterwards unless data has come in
      place of empty chains behind other data. */
  lemma InsertedRight(parts: seq<seq<byte>>, m: nat, p: seq<byte>)
    requires Stops(parts, LastWithData(parts), m)
    ensures EmptyFrom(parts, m) && parts[..m] + [p] == Inserted(parts, p)
    ensures SlotAfter(LastWithData(parts), m, |parts|, p) == LastWithData(parts[..m] + [p]) <==>
            p == [] || InsertAt(parts) == 0 || InsertAt(parts) == |parts|
  {
    hide Stops, LastWithData, InsertAt;
    StopsThere(parts, m);
    InsertFacts(parts);
    InsertParts(parts, p);
  }

  /** Where the walk ends, and whether data lies behind an empty chain there; the slot is
      right afterwards if it ends at the end or where it began. */
  lemma WalkCases(parts: seq<seq<byte>>, k: nat, m: nat)
    requires k < |parts| && Stops(parts, k, m)
    ensures EmptyFrom(parts, m) <==> Flatten(parts) == [] || Solid(parts, k, LastWithData(parts) + 1)
    ensures EmptyFrom(parts, m) ==> (m == |parts| || m == k <==> Solid(parts, k, |parts|) || parts[k] == [])
  {
    hide Flatten, LastWithData;
    var t := LastWithData(parts);
    LastFacts(parts);
    if Flatten(parts) == [] {
      NoParts(parts);
    } else {
      if parts[t] == [] { AllEmpty(parts); }
      if m <= t { assert parts[m] == []; }
    }
    if k < m { assert parts[k] != []; }
  }

  /** The same once the last chain has grown. */
  lemma GrownCases(parts: seq<seq<byte>>, k: nat, d: seq<byte>, m: nat)
    requires k < |parts| && d != [] && Stops(parts[|parts| - 1 := parts[|parts| - 1] + d], k, m)
    ensures EmptyFrom(parts[|parts| - 1 := parts[|parts| - 1] + d], m) <==> Solid(parts, k, |parts| - 1)
    ensures EmptyFrom(parts[|parts| - 1 := parts[|parts| - 1] + d], m) <==> m == |parts|
  {
    var L := |parts| - 1;
    var parts' := parts[L := parts[L] + d];
    assert parts'[L] != [];
    assert forall i :: 0 <= i < L ==> parts'[i] == parts[i];
  }

  /** Without data every chain is empty. */
  lemma NoParts(parts: seq<seq<byte>>)
    requires Flatten(parts) == []
    ensures EmptyFrom(parts, 0)
  {
    hide Flatten;
    forall i | 0 <= i < |parts| ensures parts[i] == [] { FlattenAt(parts, i); }
  }
}
