/** evbuffer_pullup (buffer.c): making the first bytes of an evbuffer contiguous. */
module EvbufferPullup {
  import opened Bags
  import opened Common
  import opened EvChain
  import opened EvRun
  import opened Evbuffer
  import opened EvbufferMove

  /** Copy the chains that `size` bytes cover whole behind the data of `tmp`; gives the
      chain reached, the bytes still wanted, and whether the last chain with data or the
      owner of the cached slot was among those copied. */
  method Gather(tmp: Chain, from: Chain?, size: nat, lastWithData: Chain?, slot: Slot,
                ghost p: seq<byte>, ghost cs: seq<Chain>, ghost ps: seq<seq<byte>>)
    returns (chain: Chain?, left: nat, removedLast: bool, removedSlot: bool, ghost i: nat)
    requires |cs| == |ps| && Run(cs, ps, null, CellsOf(cs)) && tmp !in CellsOf(cs) && from == ChainAt(cs, 0)
    requires tmp.Holds(p) && size <= tmp.SpaceLen() && size <= |Flatten(ps)|
    modifies tmp`off, tmp`buffer
    ensures Run(cs, ps, null, CellsOf(cs))
    ensures i <= |cs| && chain == ChainAt(cs, i) && |Flatten(ps[..i])| + left == size
    ensures tmp.Holds(p + Flatten(ps[..i])) && left <= tmp.SpaceLen()
    ensures if i < |cs| then left < |ps[i]| else left == 0
    ensures removedLast <==> exists k :: 0 <= k < i && cs[k] == lastWithData
    ensures removedSlot <==> exists k :: 0 <= k < i && After(cs[k]) == slot
  {
    hide Run, Chain.Holds, Chain.Peek, Flatten;
    FlattenEnds(ps);
    assert p + [] == p;
    chain, left, removedLast, removedSlot, i := from, size, false, false, 0;
    if |cs| > 0 { RunAt(cs, ps, null, CellsOf(cs), 0); }
    while chain != null && left >= chain.off
      modifies tmp`off, tmp`buffer
      invariant Run(cs, ps, null, CellsOf(cs))
      invariant i <= |cs| && chain == ChainAt(cs, i) && |Flatten(ps[..i])| + left == size
      invariant tmp.Holds(p + Flatten(ps[..i])) && left <= tmp.SpaceLen()
      invariant i < |cs| ==> cs[i].off == |ps[i]|
      invariant removedLast <==> exists k :: 0 <= k < i && cs[k] == lastWithData
      invariant removedSlot <==> exists k :: 0 <= k < i && After(cs[k]) == slot
      decreases |cs| - i
    {
      RunAt(cs, ps, null, CellsOf(cs), i);
      FlattenTake(ps, i);
      assert p + Flatten(ps[..i]) + ps[i] == p + Flatten(ps[..i + 1]);
      TakeWhole(tmp, chain, p + Flatten(ps[..i]), ps[i]);
      left := left - chain.off;
      if chain == lastWithData { removedLast := true; }
      if After(chain) == slot { removedSlot := true; }
      chain := chain.next;
      i := i + 1;
      if i < |cs| { RunAt(cs, ps, null, CellsOf(cs), i); }
    }
  }

  method TakeWhole(tmp: Chain, chain: Chain, ghost p: seq<byte>, ghost q: seq<byte>)
    requires tmp != chain && tmp.Holds(p) && chain.Holds(q) && chain.off <= tmp.SpaceLen()
    modifies tmp`off, tmp`buffer
    ensures tmp.Holds(p + q) && tmp.SpaceLen() == old(tmp.SpaceLen()) - chain.off
  {
    hide Chain.Peek;
    chain.HoldsFits(q);
    var data := chain.Peek(chain.off, q);
    tmp.Append(data, p);
    tmp.HoldsFits(p + q);
  }

  /** Pull the next `size` bytes, held by the chains `cs`, into `tmp`, which is the
      first chain already and holds what precedes them. */
  method PullInto(buf: Evbuffer, tmp: Chain, from: Chain?, size: nat,
                  ghost p: seq<byte>, ghost cs: seq<Chain>, ghost ps: seq<seq<byte>>)
    requires |cs| == |ps| > 0 && Run(cs, ps, null, CellsOf(cs)) && tmp !in CellsOf(cs) && from == cs[0]
    requires tmp.Holds(p) && size <= tmp.SpaceLen() && 0 < size <= |Flatten(ps)|
    requires buf.first == tmp && buf.last == LastOf(cs) && buf.totalLen == |p + Flatten(ps)|
    requires LastWithData(ps) < |cs| && buf.lastWithDatap == After(if LastWithData(ps) == 0 then tmp else cs[LastWithData(ps) - 1])
    requires LastWithData(ps) == 0 ==> tmp.next == cs[0]
    modifies buf`last, buf`lastWithDatap, buf`v, tmp`off, tmp`buffer, tmp`next, CellsOf(cs)`off, CellsOf(cs)`misalign
    ensures buf.Valid() && buf.v.cells <= CellsOf(cs) + {tmp}
    ensures (forall k :: 0 <= k < |ps| ==> ps[k] != []) ==> buf.Ready()
    ensures buf.Content() == p + Flatten(ps)
    ensures buf.v.chains != [] && buf.v.chains[0] == tmp && |buf.v.parts| > 0 && |buf.v.parts[0]| == |p| + size
  {
    hide Run, CellsOf, Chain.Holds, Chain.Peek, Flatten, TightParts, LastWithData, Rep, Distinct;
    RunDistinct(cs, ps, tmp);
    ghost var last := LastWithData(ps);
    RunAt(cs, ps, null, CellsOf(cs), last);
    if last > 0 { RunAt(cs, ps, null, CellsOf(cs), last - 1); }
    var lastWithData := buf.Deref(buf.lastWithDatap);
    var chain, left, removedLast, removedSlot, i := Gather(tmp, from, size, lastWithData, buf.lastWithDatap, p, cs, ps);
    ghost var rest, q, pr := PulledParts(p, cs, ps, i, left);
    FinishPull(tmp, chain, left, p + Flatten(ps[..i]), cs, ps, i);
    Settle(buf, tmp, chain, removedLast, removedSlot, cs, i, last, [q] + pr, CellsOf(rest) + {tmp});
  }

  /** The fields, once the chains are `tmp` and what is left of `cs`. */
  method Settle(buf: Evbuffer, tmp: Chain, chain: Chain?, removedLast: bool, removedSlot: bool,
                ghost cs: seq<Chain>, ghost i: nat, ghost last: nat, ghost parts: seq<seq<byte>>, ghost cells: set<Chain>)
    requires last < |cs| && i <= |cs| && Distinct(cs) && tmp !in cs && (last < i ==> i == |cs|) && chain == ChainAt(cs, i)
    requires Run([tmp] + cs[i..], parts, null, cells) && |parts| == 1 + |cs[i..]|
    requires LastWithData(parts) == if last < i then 0 else 1 + last - i
    requires LastWithData(parts) > 0 ==> parts[LastWithData(parts)] != []
    requires buf.first == tmp && buf.last == LastOf(cs) && buf.totalLen == |Flatten(parts)|
    requires buf.lastWithDatap == After(if last == 0 then tmp else cs[last - 1])
    requires removedLast <==> exists k :: 0 <= k < i && cs[k] == cs[last]
    requires removedSlot <==> exists k :: 0 <= k < i && After(cs[k]) == buf.lastWithDatap
    modifies buf`last, buf`lastWithDatap, buf`v
    ensures buf.Valid() && buf.v == View([tmp] + cs[i..], parts, cells)
  {
    hide Run, CellsOf, Chain.Holds, Flatten, LastWithData, Rep, Distinct;
    if i < |cs| {
      RunAt([tmp] + cs[i..], parts, null, cells, 0);
      RunAt([tmp] + cs[i..], parts, null, cells, 1);
    }
    MendSlot(buf, tmp, removedLast, removedSlot, cs, i, last);
    buf.last := if chain == null then tmp else buf.last;
    buf.v := View([tmp] + cs[i..], parts, cells);
    PulledSlot(cs, tmp, i, last);
    buf.ValidFrom();
  }

  lemma RunDistinct(cs: seq<Chain>, ps: seq<seq<byte>>, tmp: Chain)
    requires Run(cs, ps, null, CellsOf(cs)) && tmp !in CellsOf(cs)
    ensures Distinct(cs) && tmp !in cs
  {
  }

  /** The cached slot, once `tmp` leads to the `i`th of the chains. */
  method MendSlot(buf: Evbuffer, tmp: Chain, removedLast: bool, removedSlot: bool, ghost cs: seq<Chain>, ghost i: nat,
                  ghost last: nat)
    requires last < |cs| && i <= |cs| && Distinct(cs) && tmp !in cs && (last < i ==> i == |cs|)
    requires buf.lastWithDatap == After(if last == 0 then tmp else cs[last - 1])
    requires removedLast <==> exists k :: 0 <= k < i && cs[k] == cs[last]
    requires removedSlot <==> exists k :: 0 <= k < i && After(cs[k]) == buf.lastWithDatap
    requires i == last ==> tmp.next != null && tmp.next.off != 0
    modifies buf`lastWithDatap
    ensures buf.lastWithDatap == SlotOf([tmp] + cs[i..], if last < i then 0 else 1 + last - i)
  {
    PulledSlot(cs, tmp, i, last);
    if removedLast {
      assert last < i;
      buf.lastWithDatap := AtFirst;
    } else if removedSlot {
      assert last >= i;
      assert i == last;
      buf.lastWithDatap := if tmp.next != null && tmp.next.off != 0 then After(tmp) else AtFirst;
    }
  }

  /** What becomes of the parts: the first `size` bytes join `p`. */
  lemma PulledParts(p: seq<byte>, cs: seq<Chain>, ps: seq<seq<byte>>, i: nat, left: nat)
    returns (rest: seq<Chain>, q: seq<byte>, pr: seq<seq<byte>>)
    requires i <= |cs| == |ps| && (if i < |ps| then left < |ps[i]| else left == 0)
    requires |Flatten(ps[..i])| + left > 0
    ensures rest == cs[i..] && |pr| == |rest|
    ensures q == p + Flatten(ps[..i]) + if i < |ps| then ps[i][..left] else []
    ensures pr == if i < |ps| then ps[i..][0 := ps[i][left..]] else []
    ensures Flatten([q] + pr) == p + Flatten(ps) && |q| == |p| + |Flatten(ps[..i])| + left
    ensures var last := LastWithData(ps);
            && last < |ps| && ps[last] != [] && (last < i ==> i == |ps|)
            && LastWithData([q] + pr) == if last < i then 0 else 1 + last - i
    ensures (forall k :: 0 <= k < |ps| ==> ps[k] != []) ==> TightParts([q] + pr)
  {
    hide Flatten, LastWithData;
    rest := cs[i..];
    q := p + Flatten(ps[..i]) + if i < |ps| then ps[i][..left] else [];
    pr := if i < |ps| then ps[i..][0 := ps[i][left..]] else [];
    FlattenConcat([q], pr);
    FlattenOne(q);
    FlattenSplit(ps, i);
    FlattenEnds(ps);
    if i < |ps| {
      FlattenHead(ps, i);
      FlattenUpdate(ps[i..], 0, ps[i][left..]);
      FlattenEnds(ps[i..]);
      assert ps[i..][0 + 1..] == ps[i + 1..];
      assert ps[i][..left] + ps[i][left..] == ps[i];
    } else {
      FlattenEnds([]);
    }
    DataEnds(ps);
    LastIs([q] + pr, if LastWithData(ps) < i then 0 else 1 + LastWithData(ps) - i);
  }

  /** Copy the bytes wanted from the chain reached, and lead from `tmp` to it. */
  method FinishPull(tmp: Chain, chain: Chain?, left: nat, ghost p: seq<byte>,
                    ghost cs: seq<Chain>, ghost ps: seq<seq<byte>>, ghost i: nat)
    requires i <= |cs| == |ps| && Run(cs, ps, null, CellsOf(cs)) && tmp !in CellsOf(cs) && chain == ChainAt(cs, i)
    requires tmp.Holds(p) && left <= tmp.SpaceLen() && (if i < |ps| then left < |ps[i]| else left == 0)
    modifies tmp`off, tmp`buffer, tmp`next, CellsOf(cs)`off, CellsOf(cs)`misalign
    ensures var rest, q, pr := cs[i..], p + (if i < |ps| then ps[i][..left] else []),
                               if i < |ps| then ps[i..][0 := ps[i][left..]] else [];
            Run([tmp] + rest, [q] + pr, null, CellsOf(rest) + {tmp})
    ensures tmp.next == chain && CellsOf(cs[i..]) <= CellsOf(cs)
  {
    hide Run, CellsOf, Chain.Holds, Chain.Peek;
    ghost var rest, pr := cs[i..], ps[i..];
    RunSplit(cs, ps, null, CellsOf(cs), i);
    ghost var q := p;
    if chain != null {
      assert rest[0] == chain && pr[0] == ps[i];
      RunAround(rest, pr, null, CellsOf(rest), 0);
      assert tmp !in CellsOf(rest) && tmp !in CellsOf(rest[0 + 1..]);
      var data := chain.Peek(left, ps[i]);
      assert Run(rest[0 + 1..], pr[0 + 1..], null, CellsOf(rest[0 + 1..]));
      tmp.Append(data, p);
      assert Run(rest[0 + 1..], pr[0 + 1..], null, CellsOf(rest[0 + 1..]));
      chain.Consume(left, ps[i]);
      RunEmpty(chain, CellsOf(rest[..0]));
      assert rest[..0] == [] && pr[..0] == [];
      RunMend(rest, pr, null, CellsOf(rest), 0, ps[i][left..]);
      pr := pr[0 := ps[i][left..]];
      q := p + data;
    }
    tmp.next := chain;
    assert q == p + (if i < |ps| then ps[i][..left] else []);
    assert pr == if i < |ps| then ps[i..][0 := ps[i][left..]] else [];
    RunOne(tmp, q);
    RunJoin([tmp], [q], {tmp}, rest, pr, CellsOf(rest), null);
    assert {tmp} + CellsOf(rest) == CellsOf(rest) + {tmp};
  }

  /** Where chains of the new list are among the old ones. */
  lemma PulledSlot(cs: seq<Chain>, tmp: Chain, i: nat, last: nat)
    requires last < |cs| && i <= |cs|
    ensures i <= last ==> SlotOf([tmp] + cs[i..], 1 + last - i) == if i == last then After(tmp) else After(cs[last - 1])
    ensures SlotOf([tmp] + cs[i..], 0) == AtFirst
    ensures LastOf([tmp] + cs[i..]) == if i == |cs| then tmp else LastOf(cs)
  {
  }

  /** The first `size` bytes of the buffer lie one after the other in `chain`. */
  ghost predicate Contiguous(buf: Evbuffer, chain: Chain, size: nat)
    reads buf, chain
  {
    && chain == buf.first && chain.misalign + size <= |chain.buffer| && size <= chain.off
    && size <= |buf.Content()| && chain.buffer[chain.misalign..chain.misalign + size] == buf.Content()[..size]
  }

  lemma SliceStart(s: seq<byte>, at: nat, n: nat, k: nat)
    requires k <= n && at + n <= |s|
    ensures s[at..at + n][..k] == s[at..at + k]
  {
  }

  lemma FirstContiguous(buf: Evbuffer, size: nat)
    requires buf.Valid() && buf.v.chains != [] && |buf.v.parts| > 0 && size <= |buf.v.parts[0]|
    ensures buf.first != null && Contiguous(buf, buf.first, size)
  {
    hide Rep, Run, Chain.Holds, Flatten, TightParts, LastWithData;
    RepRun(buf.v, buf.first, buf.last, buf.lastWithDatap, buf.totalLen);
    RunAt(buf.v.chains, buf.v.parts, null, buf.v.cells, 0);
    var p := buf.v.parts[0];
    buf.first.HoldsFits(p);
    FlattenAt(buf.v.parts, 0);
    FlattenEnds(buf.v.parts);
    assert Flatten(buf.v.parts)[..size] == p[..size];
    SliceStart(buf.first.buffer, buf.first.misalign, buf.first.off, size);
  }

  /** evbuffer_pullup: make the first `size` bytes (all when negative) contiguous and
      give the chain that starts with them. */
  method Pullup(buf: Evbuffer, size: int) returns (result: Chain?)
    requires buf.Valid()
    modifies buf, buf.v.cells
    ensures buf.Valid() && fresh(buf.v.cells - old(buf.v.cells)) && buf.Content() == old(buf.Content())
    ensures old(TightParts(buf.v.parts)) ==> buf.Ready()
    ensures var k := if size < 0 then |buf.Content()| else size;
            if 0 < k <= |buf.Content()| then result != null && Contiguous(buf, result, k) else result == null
    ensures buf.freezeStart == old(buf.freezeStart) && buf.freezeEnd == old(buf.freezeEnd)
  {
    hide Rep, Run, Chain.Holds, Flatten, TightParts, LastWithData, Contiguous;
    RepRun(buf.v, buf.first, buf.last, buf.lastWithDatap, buf.totalLen);
    var want: nat := if size < 0 then buf.totalLen else size;
    if want == 0 || want > buf.totalLen { return null; }
    FlattenEnds(buf.v.parts);
    RunAt(buf.v.chains, buf.v.parts, null, buf.v.cells, 0);
    if buf.first.off < want {
      if |buf.first.buffer| - buf.first.misalign >= want {
        PullToFirst(buf, want);
      } else {
        PullToNew(buf, want);
      }
    }
    FirstContiguous(buf, want);
    result := buf.first;
  }

  /** There is room behind the first chain's data. */
  method PullToFirst(buf: Evbuffer, size: nat)
    requires buf.Valid() && buf.first != null && buf.first.off < size <= buf.totalLen
    requires |buf.first.buffer| - buf.first.misalign >= size
    modifies buf`last, buf`lastWithDatap, buf`v, buf.v.cells
    ensures buf.Valid() && buf.v.cells <= old(buf.v.cells) && buf.Content() == old(buf.Content())
    ensures old(TightParts(buf.v.parts)) ==> buf.Ready()
    ensures buf.v.chains != [] && |buf.v.parts| > 0 && size <= |buf.v.parts[0]|
  {
    hide Rep, Run, CellsOf, Chain.Holds, Flatten, TightParts, LastWithData;
    RepRun(buf.v, buf.first, buf.last, buf.lastWithDatap, buf.totalLen);
    ghost var cs, ps := buf.v.chains, buf.v.parts;
    RunAround(cs, ps, null, buf.v.cells, 0);
    FirstAndRest(cs, ps);
    var tmp := buf.first;
    PullInto(buf, tmp, tmp.next, size - tmp.off, ps[0], cs[1..], ps[1..]);
  }

  lemma FirstAndRest(cs: seq<Chain>, ps: seq<seq<byte>>)
    requires |cs| == |ps| > 0 && |ps[0]| < |Flatten(ps)|
    ensures ps[0] + Flatten(ps[1..]) == Flatten(ps) && |cs| > 1
    ensures TightParts(ps) ==> forall k :: 0 <= k < |ps| ==> ps[k] != []
    ensures 0 < LastWithData(ps) < |ps| && LastWithData(ps[1..]) == LastWithData(ps) - 1
    ensures LastOf(cs) == LastOf(cs[1..]) && cs[0 + 1..] == cs[1..] && ps[0 + 1..] == ps[1..]
  {
    hide Flatten, LastWithData;
    FlattenHead(ps, 0);
    FlattenEnds(ps[1..]);
    assert ps[0..] == ps;
    if TightParts(ps) { NonEmptyParts(ps); }
    DataEnds(ps);
    if LastWithData(ps) == 0 { AllEmpty(ps[1..]); }
    LastFrom(ps, 1);
  }

  /** There is not: collect the bytes in a new first chain. */
  method PullToNew(buf: Evbuffer, size: nat)
    requires buf.Valid() && buf.first != null && buf.first.off < size <= buf.totalLen
    modifies buf`first, buf`last, buf`lastWithDatap, buf`v, buf.v.cells
    ensures buf.Valid() && fresh(buf.v.cells - old(buf.v.cells)) && buf.Content() == old(buf.Content())
    ensures old(TightParts(buf.v.parts)) ==> buf.Ready()
    ensures buf.v.chains != [] && |buf.v.parts| > 0 && size <= |buf.v.parts[0]|
  {
    hide Rep, Run, Chain.Holds, Flatten, TightParts, LastWithData;
    RepRun(buf.v, buf.first, buf.last, buf.lastWithDatap, buf.totalLen);
    ghost var cs, ps := buf.v.chains, buf.v.parts;
    RunSplit(cs, ps, null, buf.v.cells, 0);
    RunAt(cs, ps, null, buf.v.cells, 0);
    assert cs[0..] == cs && ps[0..] == ps && [] + Flatten(ps) == Flatten(ps);
    FirstAndRest(cs, ps);
    var chain := buf.first;
    var tmp := new Chain(size);
    buf.first := tmp;
    PullInto(buf, tmp, chain, size, [], cs, ps);
  }
}
