/** An evbuffer (struct evbuffer, buffer.c): a linked list of chains that behaves
    as one sequence of bytes. */
module Evbuffer {
  import opened Common
  import opened EvChain
  import opened EvRun

  const MAX_AUTO_SIZE := 4096

  class Evbuffer {
    var first: Chain?
    var last: Chain?
    var lastWithDatap: Slot
    var totalLen: nat
    var freezeStart: bool
    var freezeEnd: bool
    ghost var v: View

    /** The representation invariant documented with the struct. */
    ghost predicate Valid()
      reads this, v.cells
    {
      Rep(v, first, last, lastWithDatap, totalLen)
    }

    /** The invariant of every run of the operations that do not reserve space. */
    ghost predicate Ready()
      reads this, v.cells
    {
      Valid() && TightParts(v.parts)
    }

    /** The cached slot leads to the last chain. */
    ghost predicate Settled()
      reads this
    {
      v.chains == [] || LastWithData(v.parts) == |v.chains| - 1
    }

    /** The last chain has room for `n` bytes, or would once its data is moved to the front. */
    predicate RoomAtLast(n: nat)
      reads this, if last != null then {last} else {}
    {
      last != null && last.Takes(n)
    }

    /** The last chain cannot take `n` bytes. */
    predicate Overfull(n: nat)
      reads this, if last != null then {last} else {}
    {
      last != null && !RoomAtLast(n)
    }

    ghost function Content(): seq<byte>
      reads this
    {
      Flatten(v.parts)
    }

    constructor ()
      ensures Ready() && Content() == [] && v == View([], [], {})
      ensures !freezeStart && !freezeEnd
    {
      first, last, lastWithDatap, totalLen := null, null, AtFirst, 0;
      freezeStart, freezeEnd := false, false;
      v := View([], [], {});
    }

    /** What a slot points at. */
    function Deref(s: Slot): Chain?
      reads this, if s.After? then {s.c} else {}
    {
      if s.AtFirst? then first else s.c.next
    }

    // ----- adding at the end -----

    /** All is as documented, except that the cached slot leads to chain `k`. */
    ghost predicate Slotted(k: nat)
      reads this, v.cells
    {
      && Run(v.chains, v.parts, null, v.cells) && |v.parts| == |v.chains|
      && first == ChainAt(v.chains, 0) && last == LastOf(v.chains) && totalLen == |Flatten(v.parts)|
      && (k < |v.chains| || (v.chains == [] && k == 0)) && lastWithDatap == SlotOf(v.chains, k)
    }

    /** All is as documented, except perhaps where the cached slot leads. */
    ghost predicate Linked()
      reads this, v.cells
    {
      exists k :: Slotted(k)
    }

    lemma SlottedRun(k: nat)
      requires Slotted(k)
      ensures Run(v.chains, v.parts, null, v.cells) && |v.parts| == |v.chains| && totalLen == |Flatten(v.parts)|
      ensures first == ChainAt(v.chains, 0) && last == LastOf(v.chains) && lastWithDatap == SlotOf(v.chains, k)
      ensures k <= |v.chains| && (v.chains != [] ==> k < |v.chains| && first in v.cells && last in v.cells)
      ensures Linked() && (v.chains == [] ==> k == 0)
    {
    }

    lemma SlottedFrom(k: nat)
      requires Run(v.chains, v.parts, null, v.cells) && |v.parts| == |v.chains| && totalLen == |Flatten(v.parts)|
      requires first == ChainAt(v.chains, 0) && last == LastOf(v.chains)
      requires (k < |v.chains| || (v.chains == [] && k == 0)) && lastWithDatap == SlotOf(v.chains, k)
      ensures Slotted(k) && (Valid() <==> k == LastWithData(v.parts))
    {
      hide Flatten, LastWithData, Chain.Holds;
      LastFacts(v.parts);
    }

    /** The invariant holds just when the cached slot leads to the last chain with data. */
    lemma SlottedValid(k: nat)
      requires Slotted(k)
      ensures Valid() <==> k == LastWithData(v.parts)
    {
      hide Run, Flatten, LastWithData;
      SlottedFrom(k);
    }

    lemma ValidSlotted()
      requires Valid()
      ensures Slotted(LastWithData(v.parts))
    {
      hide Run, Flatten, LastWithData, Chain.Holds;
      RepRun(v, first, last, lastWithDatap, totalLen);
      LastFacts(v.parts);
    }

    /** The first empty chain from the cached slot on, or the end of the list, where a new
        chain goes (the loop of evbuffer_chain_insert and
        evbuffer_free_trailing_empty_chains). */
    method FindTail(ghost k: nat) returns (ch: Slot, ghost m: nat)
      requires Slotted(k)
      ensures |v.chains| == |v.parts| && Stops(v.parts, k, m)
      ensures ch == SlotOf(v.chains, m) && (ch.After? ==> ch.c in v.cells) && Deref(ch) == ChainAt(v.chains, m)
    {
      hide Run, Flatten, Chain.Holds;
      SlottedRun(k);
      m := k;
      ch := lastWithDatap;
      if m > 0 { RunAt(v.chains, v.parts, null, v.cells, m - 1); }
      while Deref(ch) != null && Deref(ch).off != 0
        invariant k <= m <= |v.chains| && ch == SlotOf(v.chains, m) && Solid(v.parts, k, m)
        invariant m > 0 ==> ch.c in v.cells && ch.c.next == NextIn(v.chains, m - 1, null)
        decreases |v.chains| - m
      {
        RunAt(v.chains, v.parts, null, v.cells, m);
        ch := After(Deref(ch));
        m := m + 1;
      }
      if m < |v.chains| { RunAt(v.chains, v.parts, null, v.cells, m); }
    }

    /** evbuffer_chains_all_empty */
    method ChainsAllEmpty(from: Chain?, ghost m: nat) returns (all: bool)
      requires Run(v.chains, v.parts, null, v.cells) && |v.parts| == |v.chains| && from == ChainAt(v.chains, m)
      ensures all <==> EmptyFrom(v.parts, m)
    {
      hide Run, Chain.Holds;
      ghost var i := m;
      var chain := from;
      if i < |v.chains| { RunAt(v.chains, v.parts, null, v.cells, i); }
      while chain != null
        invariant m <= i && chain == ChainAt(v.chains, i) && (chain != null ==> chain in v.cells)
        invariant forall j :: m <= j < i && j < |v.parts| ==> v.parts[j] == []
        decreases |v.chains| - i
      {
        RunAt(v.chains, v.parts, null, v.cells, i);
        if chain.off != 0 {
          assert v.parts[i] != [];
          return false;
        }
        chain := chain.next;
        i := i + 1;
        if i < |v.chains| { RunAt(v.chains, v.parts, null, v.cells, i); }
      }
      all := true;
    }

    /** Make `ch`, the slot of chain `m`, point to `chain`. */
    method LinkAt(ch: Slot, chain: Chain, ghost p: seq<byte>, ghost m: nat)
      requires Run(v.chains, v.parts, null, v.cells) && first == ChainAt(v.chains, 0)
      requires m <= |v.chains| == |v.parts| && ch == SlotOf(v.chains, m)
      requires chain !in v.cells && chain.Holds(p) && chain.next == null
      modifies this`first, v.cells`next
      ensures Run(v.chains[..m] + [chain], v.parts[..m] + [p], null, v.cells + {chain})
      ensures first == ChainAt(v.chains[..m] + [chain], 0)
    {
      hide Run, CellsOf, Chain.Holds;
      RunSplit(v.chains, v.parts, null, v.cells, m);
      if m > 0 { RunAt(v.chains, v.parts, null, v.cells, m - 1); }
      RunOne(chain, p);
      if ch.AtFirst? {
        first := chain;
        assert v.chains[..m] + [chain] == [chain] && v.parts[..m] + [p] == [p];
        RunWiden([chain], [p], null, {chain}, v.cells + {chain});
      } else {
        ghost var a, pa := v.chains[..m], v.parts[..m];
        Relink(a, pa, ch.c, chain, CellsOf(a));
        RunJoin(a, pa, CellsOf(a), [chain], [p], {chain}, null);
        RunWiden(a + [chain], pa + [p], null, CellsOf(a) + {chain}, v.cells + {chain});
      }
    }

    /** Add a chain at the end, in place of any trailing empty chains, and from whatever
        chain the cached slot leads to (evbuffer_chain_insert); aborts where the source's
        assertion that these chains are empty fails. */
    method ChainInsert(chain: Chain, ghost p: seq<byte>, ghost k: nat) returns (aborts: bool, ghost m: nat)
      requires Slotted(k) && chain !in v.cells && chain.Holds(p) && chain.next == null
      modifies this`first, this`last, this`lastWithDatap, this`totalLen, this`v, v.cells`next
      ensures Stops(old(v.parts), k, m) && (aborts <==> !EmptyFrom(old(v.parts), m))
      ensures !aborts ==> Slotted(SlotAfter(k, m, |old(v.parts)|, p)) && Content() == old(Content()) + p
      ensures !aborts ==> v.parts == old(v.parts)[..m] + [p] && v.chains == old(v.chains)[..m] + [chain]
      ensures !aborts ==> last == chain && v.cells == old(v.cells) + {chain}
      ensures old(Valid()) ==> !aborts && v.parts == Inserted(old(v.parts), p)
      ensures old(Valid()) ==>
                (Valid() <==> p == [] || old(InsertAt(v.parts)) == 0 || old(InsertAt(v.parts) == |v.parts|))
    {
      hide Run, CellsOf, Chain.Holds, Flatten, LastWithData, InsertAt, Inserted, Stops, SlotAfter;
      hide Slotted, Valid, LastOf, ChainAt, SlotOf;
      SlottedRun(k);
      SlottedValid(k);
      RunOne(chain, p);
      var ch;
      ch, m := FindTail(k);
      var victim := Deref(ch);
      aborts := false;
      if victim != null {
        var all := ChainsAllEmpty(victim, m);
        aborts := !all;
      }
      if Valid() { InsertedRight(v.parts, m, p); }
      InsertedSlot(v, chain, p, k, m);
      if aborts { return; }
      InsertFlatten(v.parts, m, p);
      LinkAt(ch, chain, p, m);
      lastWithDatap := if victim == null && chain.off != 0 then ch else lastWithDatap;
      last := chain;
      totalLen := totalLen + chain.off;
      v := View(v.chains[..m] + [chain], v.parts[..m] + [p], v.cells + {chain});
      SlottedFrom(SlotAfter(k, m, |old(v.parts)|, p));
    }

    /** The last chain grows by `data`; the cached slot stays. */
    method AppendToLast(chain: Chain, data: seq<byte>, ghost k: nat)
      requires Slotted(k) && v.chains != [] && chain == last && |data| <= chain.SpaceLen()
      modifies this`totalLen, this`v, chain`off, chain`buffer
      ensures Slotted(k) && Content() == old(Content()) + data && v.chains == old(v.chains) && v.cells == old(v.cells)
      ensures Valid() <==> if data == [] then old(Valid()) else k == |v.chains| - 1
      ensures LastFilled(v.parts, old(v.parts), data)
      ensures old(TightParts(v.parts)) ==> TightParts(v.parts)
      ensures LastWithData(v.parts) == if data == [] then old(LastWithData(v.parts)) else |v.chains| - 1
    {
      hide Run, CellsOf, Chain.Holds, Flatten, LastWithData, TightParts;
      SlottedRun(k);
      SlottedValid(k);
      ghost var n := |v.chains| - 1;
      RunAround(v.chains, v.parts, null, v.cells, n);
      chain.Append(data, v.parts[n]);
      RunMend(v.chains, v.parts, null, v.cells, n, v.parts[n] + data);
      GrowLast(v.parts, data);
      totalLen := totalLen + |data|;
      v := v.(parts := v.parts[n := v.parts[n] + data]);
      SlottedFrom(k);
    }

    /** The first chain of an empty list. */
    method AddFirst(size: nat)
      requires Ready() && v.chains == []
      modifies this, v.cells
      ensures Ready() && Content() == old(Content()) == [] && v.chains != [] && fresh(v.cells - old(v.cells))
      ensures v.chains == [last] && v.parts == [[]] && last.SpaceLen() >= size
      ensures freezeStart == old(freezeStart) && freezeEnd == old(freezeEnd)
    {
      hide Rep, Run, Chain.Holds, LastWithData;
      RepRun(v, first, last, lastWithDatap, totalLen);
      ValidSlotted();
      var chain := new Chain(size);
      chain.HoldsFits([]);
      ghost var m;
      var aborts;
      aborts, m := ChainInsert(chain, [], 0);
      RepRun(v, first, last, lastWithDatap, totalLen);
      assert v.parts == [[]];
      FlattenOne([]);
    }

    /** Move the last chain's data to the start of its memory. */
    method AlignLast(chain: Chain, ghost k: nat)
      requires Slotted(k) && v.chains != [] && chain == last
      modifies chain`misalign, chain`buffer
      ensures Slotted(k) && chain.misalign == 0 && |chain.buffer| == old(|chain.buffer|)
    {
      hide Run, CellsOf, Chain.Holds, Flatten, LastWithData, TightParts;
      SlottedRun(k);
      ghost var n := |v.chains| - 1;
      RunAround(v.chains, v.parts, null, v.cells, n);
      chain.Align(v.parts[n]);
      RunMend(v.chains, v.parts, null, v.cells, n, v.parts[n]);
      assert v.parts[n := v.parts[n]] == v.parts;
      SlottedFrom(k);
    }

    /** Fill what room the last chain has and put the rest into a further chain. */
    method AddChain(chain: Chain, data: seq<byte>, ghost k: nat) returns (aborts: bool)
      requires Slotted(k) && v.chains != [] && chain == last && 0 <= chain.SpaceLen() < |data|
      modifies this, v.cells
      ensures aborts <==> old(Fails(k, chain.SpaceLen()))
      ensures !aborts ==> Linked() && fresh(v.cells - old(v.cells)) && Content() == old(Content()) + data
      ensures !aborts ==> v.chains != [] && LastWithData(v.parts) == |v.chains| - 1
      ensures !aborts ==> (Valid() <==> old(chain.SpaceLen() > 0 || Solid(v.parts, k, |v.parts|) || v.parts[k] == []))
      ensures !aborts && old(TightParts(v.parts)) ==> TightParts(v.parts)
      ensures freezeStart == old(freezeStart) && freezeEnd == old(freezeEnd)
    {
      hide Run, CellsOf, Chain.Holds, Flatten, LastWithData, TightParts, Solid, Stops, EmptyFrom;
      hide Slotted, Linked, Valid, LastOf, ChainAt, SlotOf;
      SlottedRun(k);
      var remain := chain.SpaceLen();
      var toAlloc := |chain.buffer|;
      if toAlloc <= MAX_AUTO_SIZE / 2 { toAlloc := 2 * toAlloc; }
      if |data| > toAlloc { toAlloc := |data|; }
      var tmp := new Chain(toAlloc);
      if remain > 0 {
        AppendToLast(chain, data[..remain], k);
      }
      assert data == data[..remain] + data[remain..] && Content() == old(Content()) + data[..remain];
      ghost var m;
      aborts, m := AddFilled(tmp, data[remain..], k);
      if remain > 0 {
        GrownCases(old(v.parts), k, data[..remain], m);
      } else {
        WalkCases(old(v.parts), k, m);
      }
    }

    /** Behind the cached slot, which leads to chain `k`, data follows an empty chain, once the
        last chain has taken what it has room for. */
    ghost predicate Fails(k: nat, room: int)
      reads this
    {
      if room > 0 then v.parts != [] && !Solid(v.parts, k, |v.parts| - 1)
      else Content() != [] && !Solid(v.parts, k, LastWithData(v.parts) + 1)
    }

    /** Fill a new chain and add it. */
    method AddFilled(tmp: Chain, rest: seq<byte>, ghost k: nat) returns (aborts: bool, ghost m: nat)
      requires Slotted(k) && v.chains != [] && rest != []
      requires tmp !in v.cells && tmp.Holds([]) && tmp.next == null && |rest| <= tmp.SpaceLen()
      modifies this, v.cells`next, tmp`off, tmp`buffer
      ensures Stops(old(v.parts), k, m) && (aborts <==> !EmptyFrom(old(v.parts), m))
      ensures !aborts ==> Linked() && v.cells == old(v.cells) + {tmp} && Content() == old(Content()) + rest
      ensures !aborts ==> v.chains != [] && LastWithData(v.parts) == |v.chains| - 1
      ensures !aborts ==> (Valid() <==> m == |old(v.parts)| || m == k)
      ensures !aborts && old(TightParts(v.parts)) ==> TightParts(v.parts)
      ensures freezeStart == old(freezeStart) && freezeEnd == old(freezeEnd)
    {
      hide Run, Chain.Holds, Flatten, LastWithData, TightParts, Stops, EmptyFrom;
      tmp.Append(rest, []);
      assert [] + rest == rest;
      SlottedRun(k);
      aborts, m := ChainInsert(tmp, rest, k);
      if aborts { return; }
      ghost var k' := SlotAfter(k, m, |old(v.parts)|, rest);
      SlottedValid(k');
      SlottedRun(k');
      FilledFacts(old(v.parts), k, m, rest);
    }

    /** More data than the last chain has room for, and then `Fails`. */
    ghost predicate AddFails(k: nat, n: nat)
      reads this, if last != null then {last} else {}
    {
      Overfull(n) && Fails(k, last.SpaceLen())
    }

    /** Whether evbuffer_add of `n` bytes leaves the cached slot, which leads to chain `k`, at
        the last chain with data. */
    ghost predicate AddKeeps(k: nat, n: nat)
      reads this, if last != null then {last} else {}
    {
      if last == null then true
      else if n == 0 then k == LastWithData(v.parts)
      else if RoomAtLast(n) then k == |v.chains| - 1
      else last.SpaceLen() > 0 || Solid(v.parts, k, |v.parts|) || (k < |v.parts| && v.parts[k] == [])
    }

    /** evbuffer_add from any chain the cached slot may lead to: append bytes, in the room left
        behind the last chain, by moving its data to the front, or in a further chain. Where the
        source's assertion fails, it aborts. */
    method AddAt(data: seq<byte>, ghost k: nat) returns (ok: bool, aborts: bool)
      requires Slotted(k)
      modifies this, v.cells
      ensures ok == !old(freezeEnd) && (aborts <==> ok && old(AddFails(k, |data|)))
      ensures !aborts ==> Linked() && fresh(v.cells - old(v.cells))
      ensures !aborts ==> Content() == if ok then old(Content()) + data else old(Content())
      ensures !aborts ==> (Valid() <==> if ok then old(AddKeeps(k, |data|)) else old(Valid()))
      ensures !aborts && old(TightParts(v.parts)) ==> TightParts(v.parts)
      ensures !aborts && old(Settled()) ==> Settled()
      ensures freezeStart == old(freezeStart) && freezeEnd == old(freezeEnd)
    {
      hide Rep, Run, Chain.Holds, Flatten, LastWithData, TightParts, Solid;
      SlottedRun(k);
      ok, aborts := false, false;
      if freezeEnd { return; }
      if last == null {
        EmptyList(v.parts);
        SlottedValid(k);
        AddFirst(|data|);
        ValidSlotted();
        SlottedRun(0);
      }
      aborts := AddToLast(data, k);
      ok := true;
    }

    method AddToLast(data: seq<byte>, ghost k: nat) returns (aborts: bool)
      requires Slotted(k) && v.chains != []
      modifies this, v.cells
      ensures aborts <==> old(AddFails(k, |data|))
      ensures !aborts ==> Linked() && fresh(v.cells - old(v.cells)) && Content() == old(Content()) + data
      ensures !aborts ==> (Valid() <==> old(AddKeeps(k, |data|)))
      ensures !aborts && old(TightParts(v.parts)) ==> TightParts(v.parts)
      ensures !aborts && old(Settled()) ==> Settled()
      ensures freezeStart == old(freezeStart) && freezeEnd == old(freezeEnd)
    {
      hide Rep, Run, Chain.Holds, Flatten, LastWithData, TightParts, Solid;
      SlottedRun(k);
      SlottedValid(k);
      RunAt(v.chains, v.parts, null, v.cells, |v.chains| - 1);
      var chain := last;
      chain.HoldsFits(v.parts[|v.chains| - 1]);
      aborts := false;
      if chain.SpaceLen() >= |data| {
        AppendToLast(chain, data, k);
        SlottedRun(k);
      } else if chain.ShouldRealign(|data|) {
        AlignLast(chain, k);
        SlottedValid(k);
        AppendToLast(chain, data, k);
        SlottedRun(k);
      } else {
        aborts := AddChain(chain, data, k);
      }
    }

    /** evbuffer_add. From a state that meets the documented invariant it appends exactly
        `data`, unless there is more of it than the last chain takes, that chain has some room,
        and it lies neither at the last data nor directly behind it: then an assertion of the
        source fails. The invariant holds afterwards just when the last chain was the one with
        the last data, or `data` did not fit there while it had some room or there was no data
        at all. */
    method Add(data: seq<byte>) returns (ok: bool, aborts: bool)
      requires Valid()
      modifies this, v.cells
      ensures ok == !old(freezeEnd)
      ensures aborts <==> ok && old(!Settled() && Overfull(|data|) && last.SpaceLen() > 0 && !NextToLast())
      ensures !aborts ==> Linked() && fresh(v.cells - old(v.cells))
      ensures !aborts ==> Content() == if ok then old(Content()) + data else old(Content())
      ensures !aborts ==>
                (Valid() <==> !ok || data == []
                              || old(Settled() || (Overfull(|data|) && (last.SpaceLen() > 0 || Content() == []))))
      ensures !aborts && old(Settled()) ==> Settled()
      ensures old(TightParts(v.parts)) ==> !aborts && Ready()
      ensures freezeStart == old(freezeStart) && freezeEnd == old(freezeEnd)
    {
      hide Rep, Run, Chain.Holds, Flatten, LastWithData, TightParts, Solid;
      ghost var k := LastWithData(v.parts);
      ValidSlotted();
      SlottedRun(k);
      LastFacts(v.parts);
      AddCases(|data|);
      TightLastOf(v.parts);
      ok, aborts := AddAt(data, k);
    }

    /** The last chain is directly behind the one with the last data. */
    ghost predicate NextToLast()
      reads this
    {
      LastWithData(v.parts) + 2 == |v.parts| && v.parts[LastWithData(v.parts)] != []
    }

    /** What the general conditions come to when the cached slot is right. */
    lemma AddCases(n: nat)
      requires Valid()
      ensures var k := LastWithData(v.parts);
              && (AddFails(k, n) <==> !Settled() && Overfull(n) && last.SpaceLen() > 0 && !NextToLast())
              && (!AddFails(k, n) ==>
                    (AddKeeps(k, n) <==> n == 0 || Settled() || (Overfull(n) && (last.SpaceLen() > 0 || Content() == []))))
    {
      hide Rep, Run, Chain.Holds, Flatten, LastWithData, Solid;
      RepRun(v, first, last, lastWithDatap, totalLen);
      if v.parts != [] { SolidEnd(v.parts); }
    }

    // ----- adding at the front -----

    /** The first chain grows by `data` in front. */
    method PrependToFirst(chain: Chain, data: seq<byte>)
      requires Valid() && v.chains != [] && chain == first && |data| <= chain.misalign
      modifies this`totalLen, this`v, chain`off, chain`buffer, chain`misalign
      ensures Valid() && Content() == data + old(Content()) && (old(TightParts(v.parts)) ==> Ready())
      ensures v.chains == old(v.chains) && v.cells == old(v.cells)
      ensures v.parts == old(v.parts)[0 := data + old(v.parts)[0]] && chain.misalign == old(chain.misalign) - |data|
    {
      hide Rep, Run, CellsOf, Chain.Holds, Flatten, LastWithData, TightParts;
      RepRun(v, first, last, lastWithDatap, totalLen);
      RunAround(v.chains, v.parts, null, v.cells, 0);
      chain.Prepend(data, v.parts[0]);
      RunMend(v.chains, v.parts, null, v.cells, 0, data + v.parts[0]);
      GrowFirst(v.parts, data);
      totalLen := totalLen + |data|;
      v := v.(parts := v.parts[0 := data + v.parts[0]]);
      ValidFrom();
    }

    /** An empty first chain is taken as free from its end backwards. */
    method FreeFromEnd(chain: Chain)
      requires Valid() && v.chains != [] && chain == first && chain.off == 0
      modifies chain`misalign
      ensures Valid() && chain.misalign == |chain.buffer|
    {
      hide Rep, Run, CellsOf, Chain.Holds, Flatten, LastWithData, TightParts;
      RepRun(v, first, last, lastWithDatap, totalLen);
      RunAround(v.chains, v.parts, null, v.cells, 0);
      chain.HoldsFits(v.parts[0]);
      chain.misalign := |chain.buffer|;
      chain.HoldsNothing();
      RunMend(v.chains, v.parts, null, v.cells, 0, []);
      assert v.parts[0 := []] == v.parts;
      ValidFrom();
    }

    /** A new first chain that holds `data` at its end. */
    method PrependChain(data: seq<byte>)
      requires Valid() && v.chains != [] && data != [] && Content() != []
      modifies this
      ensures Valid() && fresh(v.cells - old(v.cells)) && Content() == data + old(Content())
      ensures old(TightParts(v.parts)) ==> Ready()
      ensures freezeStart == old(freezeStart) && freezeEnd == old(freezeEnd)
    {
      hide Rep, Run, Chain.Holds, Flatten, LastWithData, TightParts;
      RepRun(v, first, last, lastWithDatap, totalLen);
      var tmp := ChainBefore(first, data);
      RunOne(tmp, data);
      RunJoin([tmp], [data], {tmp}, v.chains, v.parts, v.cells, null);
      ConsParts(data, v.parts);
      ghost var v' := View([tmp] + v.chains, [data] + v.parts, {tmp} + v.cells);
      first := tmp;
      if lastWithDatap == AtFirst {
        lastWithDatap := After(tmp);
      }
      totalLen := totalLen + |data|;
      v := v';
      ValidFrom();
    }

    /** evbuffer_prepend: put bytes in front, in the slack before the first chain's
        data and in a new first chain. */
    method Prepend(data: seq<byte>) returns (ok: bool)
      requires Valid()
      modifies this, v.cells
      ensures Valid() && fresh(v.cells - old(v.cells)) && (old(TightParts(v.parts)) ==> Ready())
      ensures ok == !old(freezeStart)
      ensures Content() == if ok then data + old(Content()) else old(Content())
      ensures freezeStart == old(freezeStart) && freezeEnd == old(freezeEnd)
    {
      hide Rep, Run, Chain.Holds, Flatten, LastWithData, TightParts;
      if freezeStart { return false; }
      RepRun(v, first, last, lastWithDatap, totalLen);
      EmptyTight(v.parts);
      if first == null {
        AddFirst(|data|);
      }
      PrependToList(data);
      ok := true;
    }

    method PrependToList(data: seq<byte>)
      requires Valid() && v.chains != []
      modifies this, v.cells
      ensures Valid() && fresh(v.cells - old(v.cells)) && Content() == data + old(Content())
      ensures old(TightParts(v.parts)) ==> Ready()
      ensures freezeStart == old(freezeStart) && freezeEnd == old(freezeEnd)
    {
      hide Rep, Run, Chain.Holds, Flatten, LastWithData, TightParts;
      RepRun(v, first, last, lastWithDatap, totalLen);
      RunAt(v.chains, v.parts, null, v.cells, 0);
      var chain := first;
      chain.HoldsFits(v.parts[0]);
      if chain.off == 0 {
        FreeFromEnd(chain);
      }
      if chain.misalign >= |data| {
        PrependToFirst(chain, data);
        return;
      }
      var rest := data;
      if chain.misalign > 0 {
        var k := |data| - chain.misalign;
        PrependToFirst(chain, data[k..]);
        rest := data[..k];
        assert data == rest + data[k..];
      }
      assert Content() != [] by {
        if chain.misalign == old(chain.misalign) { FlattenAt(v.parts, 0); }
      }
      PrependChain(rest);
    }

    // ----- removing from the front -----

    /** Drop every chain (ZERO_CHAIN). */
    method ZeroChain()
      modifies this`first, this`last, this`lastWithDatap, this`totalLen, this`v
      ensures Ready() && v == View([], [], {}) && Content() == []
    {
      first, last, lastWithDatap, totalLen := null, null, AtFirst, 0;
      v := View([], [], {});
    }

    /** Walk past the chains that `len` bytes use up, keeping the cached slot off
        them; gives the chain reached and the bytes still to drop from it. */
    method SkipChains(len: nat) returns (chain: Chain, remaining: nat, ghost i: nat)
      requires Valid() && len < totalLen
      modifies this`lastWithDatap
      ensures i < |v.chains| == |v.parts| && chain == v.chains[i] && chain in v.cells
      ensures Run(v.chains, v.parts, null, v.cells)
      ensures |Flatten(v.parts[..i])| + remaining == len && remaining < |v.parts[i]|
      ensures i <= LastWithData(v.parts) && lastWithDatap == SlotOf(v.chains[i..], LastWithData(v.parts) - i)
    {
      hide Rep, Run, Chain.Holds, Flatten, LastWithData, TightParts;
      RepRun(v, first, last, lastWithDatap, totalLen);
      ghost var n, k := |v.chains|, LastWithData(v.parts);
      DataEnds(v.parts);
      FlattenEnds(v.parts);
      i, remaining, chain := 0, len, first;
      RunAt(v.chains, v.parts, null, v.cells, 0);
      while remaining >= chain.off
        modifies this`lastWithDatap
        invariant i <= k < n && chain == v.chains[i] && chain in v.cells
        invariant |Flatten(v.parts[..i])| + remaining == len
        invariant lastWithDatap == if i >= k then AtFirst else SlotOf(v.chains, k)
        invariant chain.off == |v.parts[i]| && chain.next == NextIn(v.chains, i, null)
        decreases n - i
      {
        FlattenTake(v.parts, i);
        assert i < k;
        RunAt(v.chains, v.parts, null, v.cells, i + 1);
        RunAt(v.chains, v.parts, null, v.cells, k);
        RunAt(v.chains, v.parts, null, v.cells, k - 1);
        var next := chain.next;
        remaining := remaining - chain.off;
        lastWithDatap := if chain == Deref(lastWithDatap) then AtFirst else lastWithDatap;
        lastWithDatap := if lastWithDatap == After(chain) then AtFirst else lastWithDatap;
        chain := next;
        i := i + 1;
      }
    }

    lemma ValidFrom()
      requires Run(v.chains, v.parts, null, v.cells) && |v.parts| == |v.chains| && LastWithData(v.parts) <= |v.chains|
      requires first == ChainAt(v.chains, 0) && last == LastOf(v.chains)
      requires lastWithDatap == SlotOf(v.chains, LastWithData(v.parts)) && totalLen == |Flatten(v.parts)|
      ensures Valid()
    {
    }

    /** Drop the first `left` bytes of chain `j`, where the data starts. */
    method Trim(chain: Chain, left: nat, ghost j: nat, ghost k: nat)
      requires j < |v.chains| == |v.parts| && chain == v.chains[j] && first == v.chains[0] && last == LastOf(v.chains)
      requires Run(v.chains, v.parts, null, v.cells) && Flatten(v.parts[..j]) == []
      requires left < |v.parts[j]| && totalLen == |Content()| - left
      requires k < |v.chains| && lastWithDatap == SlotOf(v.chains, k)
      modifies this`v, chain`off, chain`misalign
      ensures Slotted(k) && Content() == old(Content())[left..] && v.cells == old(v.cells)
      ensures Valid() <==> k == old(LastWithData(v.parts))
      ensures old(TightParts(v.parts)) ==> TightParts(v.parts)
    {
      hide Rep, Run, CellsOf, Chain.Holds, Flatten, LastWithData, TightParts;
      LastKept(v.parts, j, left);
      DropAt(v.parts, j, left);
      ConsumeAt(v.chains, v.parts, chain, left, v.cells, j);
      v := v.(parts := v.parts[j := v.parts[j][left..]]);
      SlottedFrom(k);
    }

    /** Drop `len` bytes, fewer than there are. */
    method DrainSome(len: nat)
      requires Valid() && len < totalLen
      modifies this, v.cells
      ensures Valid() && v.cells <= old(v.cells) && Content() == old(Content())[len..]
      ensures old(TightParts(v.parts)) ==> Ready()
      ensures freezeStart == old(freezeStart) && freezeEnd == old(freezeEnd)
    {
      hide Rep, Run, CellsOf, Chain.Holds, Flatten, LastWithData, TightParts;
      RepRun(v, first, last, lastWithDatap, totalLen);
      var chain, remaining, i := SkipChains(len);
      RunSplit(v.chains, v.parts, null, v.cells, i);
      SplitAtPart(v.parts, i, remaining);
      LastFrom(v.parts, i);
      FlattenEnds(v.parts[i..]);
      assert v.chains[i..][0] == chain && v.parts[i..][0] == v.parts[i];
      totalLen := totalLen - len;
      first := chain;
      v := View(v.chains[i..], v.parts[i..], CellsOf(v.chains[i..]));
      Trim(chain, remaining, 0, LastWithData(v.parts));
    }

    /** evbuffer_drain: drop the first `len` bytes, or all of them. */
    method Drain(len: nat) returns (ok: bool)
      requires Valid()
      modifies this, v.cells
      ensures Valid() && v.cells <= old(v.cells) && (old(TightParts(v.parts)) ==> Ready())
      ensures ok == (old(Content()) == [] || !old(freezeStart))
      ensures Content() == if !ok then old(Content())
                           else if len >= |old(Content())| then [] else old(Content())[len..]
      ensures freezeStart == old(freezeStart) && freezeEnd == old(freezeEnd)
    {
      hide Rep, Run, Flatten, LastWithData, TightParts;
      RepRun(v, first, last, lastWithDatap, totalLen);
      if totalLen == 0 { return true; }
      if freezeStart { return false; }
      if len >= totalLen {
        ZeroChain();
      } else {
        DrainSome(len);
      }
      ok := true;
    }

    /** evbuffer_copyout: the first `datlen` bytes, or all of them, left in place. */
    method Copyout(datlen: nat) returns (n: int, data: seq<byte>)
      requires Valid()
      ensures var k := if datlen >= |Content()| then |Content()| else datlen;
              if k > 0 && freezeStart then n == -1 else n == k && data == Content()[..k]
    {
      hide Rep, Run, Chain.Holds, Chain.Peek, Flatten, LastWithData, TightParts;
      RepRun(v, first, last, lastWithDatap, totalLen);
      FlattenEnds(v.parts);
      var left: nat := if datlen >= totalLen then totalLen else datlen;
      data := [];
      assert Content()[..0] == [];
      if left == 0 { return 0, data; }
      if freezeStart { return -1, data; }
      n := left;
      var chain := first;
      ghost var i := 0;
      RunAt(v.chains, v.parts, null, v.cells, 0);
      while left > 0 && left >= chain.off
        invariant i <= |v.chains| && chain == ChainAt(v.chains, i) && (left > 0 ==> i < |v.chains|)
        invariant chain != null ==> chain in v.cells && chain.Holds(v.parts[i]) && chain.off == |v.parts[i]|
        invariant chain != null ==> chain.next == NextIn(v.chains, i, null)
        invariant data == Flatten(v.parts[..i]) && |data| + left == n
        decreases |v.chains| - i
      {
        FlattenTake(v.parts, i);
        data := data + chain.Peek(chain.off, v.parts[i]);
        left := left - chain.off;
        chain := chain.next;
        i := i + 1;
        if i < |v.chains| {
          RunAt(v.chains, v.parts, null, v.cells, i);
        } else {
          assert v.parts[..i] == v.parts;
        }
      }
      FlattenSplit(v.parts, i);
      if left > 0 {
        FlattenHead(v.parts, i);
        data := data + chain.Peek(left, v.parts[i]);
      }
      assert data <= Content();
    }

    /** evbuffer_remove: copy out and drop. */
    method Remove(datlen: nat) returns (n: int, data: seq<byte>)
      requires Valid()
      modifies this, v.cells
      ensures Valid() && v.cells <= old(v.cells) && (old(TightParts(v.parts)) ==> Ready())
      ensures var k := if datlen >= |old(Content())| then |old(Content())| else datlen;
              if k > 0 && old(freezeStart) then n == -1 && Content() == old(Content())
              else n == k == |data| && data + Content() == old(Content())
      ensures freezeStart == old(freezeStart) && freezeEnd == old(freezeEnd)
    {
      hide Rep, Run, Flatten, TightParts;
      n, data := Copyout(datlen);
      if n > 0 {
        var ok := Drain(n);
      }
    }
  }

  lemma NonEmptyParts(parts: seq<seq<byte>>)
    requires TightParts(parts) && Flatten(parts) != []
    ensures parts != [] && forall i :: 0 <= i < |parts| ==> parts[i] != []
  {
    forall i | 0 <= i < |parts| ensures parts[i] != [] { TightData(parts, i); }
  }

  lemma EmptyTight(parts: seq<seq<byte>>)
    ensures parts == [] ==> TightParts(parts)
  {
  }

  lemma FilledFacts(parts: seq<seq<byte>>, k: nat, m: nat, rest: seq<byte>)
    requires k < |parts| && Stops(parts, k, m) && rest != []
    ensures m <= |parts| && LastWithData(parts[..m] + [rest]) == m
    ensures TightParts(parts) ==> TightParts(parts[..m] + [rest])
  {
    hide LastWithData;
    LastIs(parts[..m] + [rest], m);
  }

  /** The chains from the last one with data on. */
  lemma SolidEnd(parts: seq<seq<byte>>)
    requires parts != []
    ensures var k, L := LastWithData(parts), |parts| - 1;
            && k <= L && (Solid(parts, k, L) <==> k == L || (k + 1 == L && parts[k] != []))
            && (Flatten(parts) == [] <==> parts[k] == []) && (parts[k] == [] || Solid(parts, k, k + 1))
            && (Solid(parts, k, |parts|) <==> k == L && parts[k] != [])
  {
    hide LastWithData, Flatten;
    var k, L := LastWithData(parts), |parts| - 1;
    LastFacts(parts);
    if Flatten(parts) == [] { NoParts(parts); } else if parts[k] == [] { AllEmpty(parts); }
    if k < L { assert parts[k + 1] == []; }
  }

  lemma EmptyList(parts: seq<seq<byte>>)
    ensures parts == [] ==> Flatten(parts) == [] && TightParts(parts) && LastWithData(parts) == 0
  {
  }

  /** Without empty chains besides others, the last chain is the last one with data. */
  lemma TightLastOf(parts: seq<seq<byte>>)
    ensures TightParts(parts) && parts != [] ==> LastWithData(parts) == |parts| - 1
  {
    if TightParts(parts) { TightLast(parts); }
  }

  /** Only the last part has changed, by `data`. */
  ghost predicate LastFilled(parts: seq<seq<byte>>, was: seq<seq<byte>>, data: seq<byte>)
  {
    |parts| == |was| > 0 && parts == was[|was| - 1 := was[|was| - 1] + data]
  }

  lemma TailEmpty(parts: seq<seq<byte>>, m: nat)
    requires m <= |parts| && forall i :: m <= i < |parts| ==> parts[i] == []
    ensures Flatten(parts[..m]) == Flatten(parts)
  {
    hide Flatten;
    FlattenSplit(parts, m);
    AllEmpty(parts[m..]);
  }

  /** All the data is in the chains up to the last one with data. */
  lemma DataEnds(parts: seq<seq<byte>>)
    requires Flatten(parts) != []
    ensures var k := LastWithData(parts); k < |parts| && parts[k] != [] && Flatten(parts[..k + 1]) == Flatten(parts)
  {
    hide Flatten, LastWithData;
    var k := LastWithData(parts);
    if k == 0 && (parts == [] || parts[0] == []) { AllEmpty(parts); }
    TailEmpty(parts, k + 1);
  }

  lemma LastFrom(parts: seq<seq<byte>>, i: nat)
    requires i <= LastWithData(parts) < |parts| && parts[LastWithData(parts)] != []
    ensures LastWithData(parts[i..]) == LastWithData(parts) - i
  {
    hide LastWithData;
    LastIs(parts[i..], LastWithData(parts) - i);
  }

  /** Some data of the chain stays. */
  lemma LastKept(parts: seq<seq<byte>>, j: nat, left: nat)
    requires j < |parts| && left < |parts[j]|
    ensures LastWithData(parts[j := parts[j][left..]]) == LastWithData(parts)
    ensures TightParts(parts) ==> TightParts(parts[j := parts[j][left..]])
  {
    hide LastWithData;
    LastFacts(parts);
    LastIs(parts[j := parts[j][left..]], LastWithData(parts));
  }

  lemma FlattenEnds(parts: seq<seq<byte>>)
    ensures Flatten(parts[..0]) == [] && Flatten(parts[|parts|..]) == [] && parts[..|parts|] == parts
    ensures parts == [] ==> Flatten(parts) == []
    ensures Flatten(parts) != [] ==> parts != []
  {
  }

  /** Where byte `|Flatten(parts[..i])| + k` lies. */
  lemma SplitAtPart(parts: seq<seq<byte>>, i: nat, k: nat)
    requires i < |parts| && k < |parts[i]|
    ensures var m := |Flatten(parts[..i])| + k;
            && m < |Flatten(parts)| && Flatten(parts)[..m] == Flatten(parts[..i]) + parts[i][..k]
            && Flatten(parts[i..])[k..] == Flatten(parts)[m..] && (TightParts(parts) ==> TightParts(parts[i..]))
            && |Flatten(parts)| == |Flatten(parts[..i])| + |Flatten(parts[i..])|
  {
    hide Flatten;
    FlattenSplit(parts, i);
    FlattenHead(parts, i);
  }

  /** Drop the first `left` bytes of chain `j` of a run. */
  method ConsumeAt(ghost cs: seq<Chain>, ghost ps: seq<seq<byte>>, chain: Chain, left: nat, ghost cells: set<Chain>, ghost j: nat)
    requires j < |cs| == |ps| && chain == cs[j] && left < |ps[j]| && Run(cs, ps, null, cells)
    modifies chain`off, chain`misalign
    ensures Run(cs, ps[j := ps[j][left..]], null, cells)
  {
    hide Run, CellsOf, Chain.Holds;
    RunAround(cs, ps, null, cells, j);
    chain.Consume(left, ps[j]);
    RunMend(cs, ps, null, cells, j, ps[j][left..]);
  }

  /** Dropping the start of the chain in which the data starts. */
  lemma DropAt(parts: seq<seq<byte>>, j: nat, left: nat)
    requires j < |parts| && left < |parts[j]| && Flatten(parts[..j]) == []
    ensures left <= |Flatten(parts)| && Flatten(parts[j := parts[j][left..]]) == Flatten(parts)[left..]
  {
    hide Flatten;
    FlattenAt(parts, j);
    FlattenUpdate(parts, j, parts[j][left..]);
    assert [] + parts[j] == parts[j] && [] + parts[j][left..] == parts[j][left..];
  }

  /** A new chain, full to its end with `data`, that leads to `next`. */
  method ChainBefore(next: Chain?, data: seq<byte>) returns (tmp: Chain)
    ensures fresh(tmp) && tmp.next == next && tmp.Holds(data)
  {
    tmp := new Chain(|data|);
    tmp.next := next;
    tmp.misalign := |tmp.buffer|;
    tmp.HoldsNothing();
    tmp.Prepend(data, []);
    assert data + [] == data;
  }

  lemma GrowFirst(parts: seq<seq<byte>>, data: seq<byte>)
    requires parts != []
    ensures var parts' := parts[0 := data + parts[0]];
            && Flatten(parts') == data + Flatten(parts) && LastWithData(parts') == LastWithData(parts)
            && (TightParts(parts) ==> TightParts(parts'))
  {
    hide Flatten, LastWithData;
    LastIs(parts[0 := data + parts[0]], LastWithData(parts));
    FlattenAt(parts, 0);
    FlattenUpdate(parts, 0, data + parts[0]);
    assert parts[..0] == [];
    AllEmpty([]);
  }

  lemma ConsParts(data: seq<byte>, parts: seq<seq<byte>>)
    requires data != [] && Flatten(parts) != []
    ensures Flatten([data] + parts) == data + Flatten(parts) && LastWithData([data] + parts) == LastWithData(parts) + 1
    ensures TightParts(parts) ==> TightParts([data] + parts)
  {
    hide Flatten, LastWithData;
    FlattenConcat([data], parts);
    FlattenOne(data);
    DataEnds(parts);
    LastIs([data] + parts, LastWithData(parts) + 1);
    if TightParts(parts) {
      forall i | 0 <= i < |parts| ensures parts[i] != [] { TightData(parts, i); }
    }
  }

  lemma GrowLast(parts: seq<seq<byte>>, data: seq<byte>)
    requires parts != []
    ensures var parts' := parts[|parts| - 1 := parts[|parts| - 1] + data];
            && Flatten(parts') == Flatten(parts) + data && (TightParts(parts) ==> TightParts(parts'))
            && (LastWithData(parts) == |parts| - 1 || data == [] ==> LastWithData(parts') == LastWithData(parts))
            && (data != [] ==> LastWithData(parts') == |parts| - 1)
  {
    hide Flatten, LastWithData;
    var n := |parts| - 1;
    LastIs(parts[n := parts[n] + data], if data == [] then LastWithData(parts) else n);
    FlattenAt(parts, n);
    FlattenUpdate(parts, n, parts[n] + data);
    assert parts[n + 1..] == [];
    AllEmpty([]);
  }
}
