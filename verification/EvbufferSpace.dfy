/** Reserving room at the end of an evbuffer and committing what was written there
    (buffer.c), from any state that meets the documented invariant. */
module EvbufferSpace {
  import opened Common
  import opened EvChain
  import opened EvRun
  import opened Evbuffer
  import opened EvbufferMove

  /** struct evbuffer_iovec: `len` bytes of a chain's memory from `base` on. */
  datatype Vec = Vec(chain: Chain, base: nat, len: nat)

  function Sum(lens: seq<nat>): nat
  {
    if lens == [] then 0 else Sum(lens[..|lens| - 1]) + lens[|lens| - 1]
  }

  /** An empty chain is taken as free from its start. */
  method ResetEmpty(buf: Evbuffer, chain: Chain, ghost j: nat)
    requires buf.Valid() && j < |buf.v.chains| == |buf.v.parts| && chain == buf.v.chains[j] && buf.v.parts[j] == []
    modifies chain`misalign
    ensures buf.Valid() && chain.misalign == 0 && chain.off == 0 && |chain.buffer| > 0
  {
    hide Rep, Run, CellsOf, Chain.Holds, Flatten, LastWithData;
    RepRun(buf.v, buf.first, buf.last, buf.lastWithDatap, buf.totalLen);
    RunAround(buf.v.chains, buf.v.parts, null, buf.v.cells, j);
    chain.HoldsFits([]);
    chain.misalign := 0;
    chain.HoldsNothing();
    RunMend(buf.v.chains, buf.v.parts, null, buf.v.cells, j, []);
    assert buf.v.parts[j := []] == buf.v.parts;
    buf.ValidFrom();
  }

  /** Keep the first `m` chains, which hold all data, and put an empty one behind them. */
  method KeepAndAppend(buf: Evbuffer, prev: Chain?, tmp: Chain, ghost m: nat)
    requires buf.Valid() && tmp !in buf.v.cells && tmp.Holds([]) && tmp.next == null
    requires m <= |buf.v.chains| == |buf.v.parts| && prev == if m == 0 then null else buf.v.chains[m - 1]
    requires forall i :: m <= i < |buf.v.parts| ==> buf.v.parts[i] == []
    requires LastWithData(buf.v.parts) < m || (m == 0 == LastWithData(buf.v.parts))
    modifies buf`first, buf`last, buf`lastWithDatap, buf`v, buf.v.cells`next
    ensures buf.Valid() && buf.Content() == old(buf.Content()) && buf.v.cells == old(buf.v.cells) + {tmp}
    ensures buf.v.chains == old(buf.v.chains)[..m] + [tmp] && buf.v.parts == old(buf.v.parts)[..m] + [[]]
    ensures LastWithData(buf.v.parts) == LastWithData(old(buf.v.parts)) && buf.totalLen == old(buf.totalLen)
  {
    hide Rep, Run, CellsOf, Chain.Holds, Flatten, LastWithData, SlotOf, LastOf, ChainAt;
    ghost var cs, ps, k := buf.v.chains, buf.v.parts, LastWithData(buf.v.parts);
    RepRun(buf.v, buf.first, buf.last, buf.lastWithDatap, buf.totalLen);
    LastFacts(ps);
    InsertFlatten(ps, m, []);
    KeptSlot(cs, m, tmp, k);
    assert Flatten(ps) + [] == Flatten(ps);
    LinkEmpty(buf, prev, tmp, m);
    buf.last := tmp;
    buf.v := View(cs[..m] + [tmp], ps[..m] + [[]], buf.v.cells + {tmp});
    LastIs(buf.v.parts, k);
    buf.ValidFrom();
  }

  /** Lead from the first `m` chains to a new one. */
  method LinkEmpty(buf: Evbuffer, prev: Chain?, tmp: Chain, ghost m: nat)
    requires Run(buf.v.chains, buf.v.parts, null, buf.v.cells) && m <= |buf.v.chains| == |buf.v.parts|
    requires tmp !in buf.v.cells && tmp.Holds([]) && tmp.next == null
    requires prev == if m == 0 then null else buf.v.chains[m - 1]
    modifies buf`first, buf`lastWithDatap, buf.v.cells`next
    ensures Run(buf.v.chains[..m] + [tmp], buf.v.parts[..m] + [[]], null, buf.v.cells + {tmp})
    ensures if m == 0 then buf.first == tmp && buf.lastWithDatap == AtFirst
            else buf.first == old(buf.first) && buf.lastWithDatap == old(buf.lastWithDatap)
  {
    hide Run, CellsOf, Chain.Holds;
    ghost var cs, ps := buf.v.chains, buf.v.parts;
    RunSplit(cs, ps, null, buf.v.cells, m);
    RunOne(tmp, []);
    if prev == null {
      assert cs[..m] + [tmp] == [tmp] && ps[..m] + [[]] == [[]];
      RunWiden([tmp], [[]], null, {tmp}, buf.v.cells + {tmp});
      buf.first := tmp;
      buf.lastWithDatap := AtFirst;
    } else {
      RunAt(cs[..m], ps[..m], HeadOr(cs[m..], null), CellsOf(cs[..m]), m - 1);
      Relink(cs[..m], ps[..m], prev, tmp, CellsOf(cs[..m]));
      RunJoin(cs[..m], ps[..m], CellsOf(cs[..m]), [tmp], [[]], {tmp}, null);
      RunWiden(cs[..m] + [tmp], ps[..m] + [[]], null, CellsOf(cs[..m]) + {tmp}, buf.v.cells + {tmp});
    }
  }

  lemma KeptSlot(cs: seq<Chain>, m: nat, tmp: Chain, k: nat)
    requires m <= |cs| && (k < m || (m == 0 == k))
    ensures var cs' := cs[..m] + [tmp];
            && SlotOf(cs', k) == SlotOf(cs, k) && LastOf(cs') == tmp && (m == 0 ==> SlotOf(cs', k) == AtFirst)
            && ChainAt(cs', 0) == if m == 0 then tmp else ChainAt(cs, 0)
  {
  }

  // ----- making room -----

  /** Where the chains with room start: at the last chain with data unless it is full. */
  function FirstSpace(cs: seq<Chain>, k: nat): nat
    requires k < |cs|
    reads {cs[k]}`buffer, {cs[k]}`misalign, {cs[k]}`off
  {
    if cs[k].SpaceLen() == 0 then k + 1 else k
  }

  /** The chains `ch` have `lens` bytes of room. */
  ghost predicate Spaces(ch: seq<Chain>, lens: seq<nat>)
    reads ch`buffer, ch`misalign, ch`off
  {
    |ch| == |lens| && forall i :: 0 <= i < |lens| ==> ch[i].SpaceLen() == lens[i]
  }

  /** The chains from the first with room on have `lens` bytes of it. */
  ghost predicate Room(cs: seq<Chain>, k: nat, lens: seq<nat>)
    reads cs`buffer, cs`misalign, cs`off
  {
    k < |cs| && FirstSpace(cs, k) + |lens| <= |cs| && Spaces(cs[FirstSpace(cs, k)..FirstSpace(cs, k) + |lens|], lens)
  }

  lemma SpacesSnoc(ch: seq<Chain>, lens: seq<nat>, c: Chain, n: nat)
    requires Spaces(ch, lens) && c.SpaceLen() == n
    ensures Spaces(ch + [c], lens + [n]) && Sum(lens + [n]) == Sum(lens) + n
  {
  }

  /** The chains from `k` up to `j` have been looked at, and have `lens` bytes of room
      from chain `f` on. */
  ghost predicate Walked(cs: seq<Chain>, k: nat, f: nat, j: nat, lens: seq<nat>)
    reads cs`buffer, cs`misalign, cs`off
  {
    && k <= j <= |cs|
    && if j == k then lens == [] && f == k
       else f == FirstSpace(cs, k) && f + |lens| == j && Spaces(cs[f..j], lens)
  }

  /** The memory of some chains. */
  function Memory(cs: seq<Chain>): nat
    reads cs`buffer
  {
    if cs == [] then 0 else Memory(cs[..|cs| - 1]) + |cs[|cs| - 1].buffer|
  }

  lemma MemorySnoc(cs: seq<Chain>, j: nat)
    requires j < |cs|
    ensures Memory(cs[..j + 1]) == Memory(cs[..j]) + |cs[j].buffer|
  {
    assert cs[..j + 1][..j] == cs[..j];
  }

  lemma {:induction false} MemoryGrows(cs: seq<Chain>, j: nat)
    requires j <= |cs|
    ensures Memory(cs[..j]) <= Memory(cs)
  {
    assert cs[..|cs|] == cs;
    if j < |cs| {
      MemorySnoc(cs, |cs| - 1);
      MemoryGrows(cs[..|cs| - 1], j);
      assert cs[..|cs| - 1][..j] == cs[..j];
    }
  }

  /** One turn of the loop of _evbuffer_expand_fast over the chains at the end. */
  method WalkOne(buf: Evbuffer, chain: Chain, ghost f: nat, ghost j: nat, ghost lens: seq<nat>)
    returns (room: nat, next: Chain?, ghost f': nat, ghost lens': seq<nat>)
    requires buf.Valid() && buf.v.chains != [] && LastWithData(buf.v.parts) < |buf.v.chains|
    requires j < |buf.v.chains| && chain == buf.v.chains[j] && Walked(buf.v.chains, LastWithData(buf.v.parts), f, j, lens)
    modifies {chain}`misalign
    ensures chain.misalign <= old(chain.misalign)
    ensures buf.Valid() && next == ChainAt(buf.v.chains, j + 1) && (next != null ==> next in buf.v.cells)
    ensures Walked(buf.v.chains, LastWithData(buf.v.parts), f', j + 1, lens')
    ensures lens' == (if room > 0 then lens + [room] else lens) && Sum(lens') == Sum(lens) + room
  {
    hide Rep, Run, CellsOf, Chain.Holds, Flatten, LastWithData, Evbuffer.Valid;
    ghost var cs, k := buf.v.chains, LastWithData(buf.v.parts);
    var same := LastDataChain(buf);
    OnlyOnce(buf, j);
    ghost var ch := cs[f..j];
    room, next := RoomIn(buf, chain, j);
    NoSpaces();
    assert j > k ==> Spaces(ch, lens);
    f', lens' := f, lens;
    if room > 0 {
      lens' := Extend(cs, f, j, lens, room);
    } else {
      f' := k + 1;
    }
  }

  lemma OnlyOnce(buf: Evbuffer, j: nat)
    requires buf.Valid() && j < |buf.v.chains|
    ensures buf.v.chains[j] in buf.v.cells
    ensures forall i :: 0 <= i < |buf.v.chains| && i != j ==> buf.v.chains[i] != buf.v.chains[j]
  {
    RunAt(buf.v.chains, buf.v.parts, null, buf.v.cells, j);
  }

  /** The whole loop. */
  method Survey(buf: Evbuffer, datlen: nat, n: nat) returns (enough: bool, used: nat, avail: nat, ghost lens: seq<nat>)
    requires buf.Valid() && buf.v.chains != [] && n >= 2
    modifies buf.v.cells`misalign
    ensures buf.Valid() && |lens| == used <= n && Sum(lens) == avail && (enough <==> avail >= datlen)
    ensures Room(buf.v.chains, LastWithData(buf.v.parts), lens)
    ensures !enough && used < n ==> FirstSpace(buf.v.chains, LastWithData(buf.v.parts)) + |lens| == |buf.v.chains|
    ensures !enough ==> lens == [] || lens[0] < datlen
    ensures forall c :: c in buf.v.cells ==> c.misalign <= old(c.misalign)
  {
    hide Rep, Run, CellsOf, Chain.Holds, Flatten, LastWithData, Spaces, Room, Evbuffer.Valid, SlotOf, LastOf, FirstSpace, Walked;
    ghost var cs, k := buf.v.chains, LastWithData(buf.v.parts);
    var chain := LastDataChain(buf);
    ghost var f: nat, j: nat := k, k;
    used, avail, lens := 0, 0, [];
    NotWalked(cs, k);
    while chain != null
      modifies buf.v.cells`misalign
      invariant buf.Valid() && k <= j <= |cs| && chain == ChainAt(cs, j) && (chain != null ==> chain in buf.v.cells)
      invariant |lens| == used < n && Sum(lens) == avail && (avail < datlen || j == k)
      invariant Walked(cs, k, f, j, lens)
      invariant used > 0 ==> lens[0] <= avail
      invariant forall c :: c in buf.v.cells ==> c.misalign <= old(c.misalign)
      decreases |cs| - j
    {
      var room;
      room, chain, f, lens := WalkOne(buf, chain, f, j, lens);
      avail := avail + room;
      used := if room > 0 then used + 1 else used;
      j := j + 1;
      if avail >= datlen {
        WalkedRoom(cs, k, f, j, lens);
        return true, used, avail, lens;
      }
      if used == n {
        WalkedRoom(cs, k, f, j, lens);
        return false, used, avail, lens;
      }
    }
    WalkedRoom(cs, k, f, j, lens);
    enough := false;
  }

  lemma NotWalked(cs: seq<Chain>, k: nat)
    requires k < |cs|
    ensures Walked(cs, k, k, k, []) && Sum([]) == 0
  {
  }

  lemma WalkedRoom(cs: seq<Chain>, k: nat, f: nat, j: nat, lens: seq<nat>)
    requires k < j && Walked(cs, k, f, j, lens)
    ensures Room(cs, k, lens) && FirstSpace(cs, k) + |lens| == j
  {
  }

  /** The room in a chain, all of it when it is empty. */
  method RoomIn(buf: Evbuffer, chain: Chain, ghost j: nat) returns (room: nat, next: Chain?)
    requires buf.Valid() && j < |buf.v.chains| == |buf.v.parts| && chain == buf.v.chains[j]
    modifies chain`misalign
    ensures chain.misalign <= old(chain.misalign)
    ensures buf.Valid() && room == chain.SpaceLen() && next == NextIn(buf.v.chains, j, null)
    ensures chain in buf.v.cells && forall i :: 0 <= i < |buf.v.chains| && i != j ==> buf.v.chains[i] != chain
    ensures room == 0 ==> buf.v.parts[j] != []
    ensures next != null ==> next in buf.v.cells
  {
    hide Rep, Run, CellsOf, Chain.Holds, Flatten, LastWithData;
    RepRun(buf.v, buf.first, buf.last, buf.lastWithDatap, buf.totalLen);
    if j + 1 < |buf.v.chains| { RunAt(buf.v.chains, buf.v.parts, null, buf.v.cells, j + 1); }
    RunAt(buf.v.chains, buf.v.parts, null, buf.v.cells, j);
    chain.HoldsFits(buf.v.parts[j]);
    next := chain.next;
    if chain.off != 0 {
      room := chain.SpaceLen();
    } else {
      ResetEmpty(buf, chain, j);
      room := |chain.buffer|;
    }
  }

  /** *buf->last_with_datap */
  method LastDataChain(buf: Evbuffer) returns (chain: Chain?)
    requires buf.Valid()
    ensures |buf.v.chains| == |buf.v.parts| && chain == ChainAt(buf.v.chains, LastWithData(buf.v.parts))
    ensures buf.v.chains != [] ==> LastWithData(buf.v.parts) < |buf.v.chains| && chain in buf.v.cells
    ensures forall i :: LastWithData(buf.v.parts) < i < |buf.v.parts| ==> buf.v.parts[i] == []
    ensures buf.first == ChainAt(buf.v.chains, 0) && buf.last == LastOf(buf.v.chains)
    ensures buf.lastWithDatap == SlotOf(buf.v.chains, LastWithData(buf.v.parts))
    ensures chain != null ==> chain.Holds(buf.v.parts[LastWithData(buf.v.parts)])
  {
    hide Rep, Run, Chain.Holds, Flatten, LastWithData;
    RepRun(buf.v, buf.first, buf.last, buf.lastWithDatap, buf.totalLen);
    LastFacts(buf.v.parts);
    ghost var k := LastWithData(buf.v.parts);
    if k > 0 { RunAt(buf.v.chains, buf.v.parts, null, buf.v.cells, k - 1); }
    if k < |buf.v.chains| { RunAt(buf.v.chains, buf.v.parts, null, buf.v.cells, k); }
    chain := buf.Deref(buf.lastWithDatap);
  }

  lemma FirstSpaceIs(cs: seq<Chain>, k: nat)
    requires k < |cs|
    ensures FirstSpace(cs, k) == if cs[k].SpaceLen() == 0 then k + 1 else k
  {
  }

  lemma MakeRoom(cs: seq<Chain>, k: nat, f: nat, j: nat, lens: seq<nat>)
    requires k < |cs| && f == FirstSpace(cs, k) && f + |lens| == j <= |cs| && Spaces(cs[f..j], lens)
    ensures Room(cs, k, lens)
  {
  }

  lemma NoSpaces()
    ensures Spaces([], []) && Sum([]) == 0
  {
  }

  lemma Extend(cs: seq<Chain>, f: nat, j: nat, lens: seq<nat>, n: nat) returns (lens': seq<nat>)
    requires f <= j < |cs| && Spaces(cs[f..j], lens) && cs[j].SpaceLen() == n
    ensures lens' == lens + [n] && Spaces(cs[f..j + 1], lens') && Sum(lens') == Sum(lens) + n
  {
    lens' := lens + [n];
    SpacesSnoc(cs[f..j], lens, cs[j], n);
    assert cs[f..j] + [cs[j]] == cs[f..j + 1];
  }

  /** _evbuffer_expand_fast: room for `datlen` bytes in at most `n` chains, without moving
      data. */
  method ExpandFast(buf: Evbuffer, datlen: nat, n: nat) returns (ghost lens: seq<nat>)
    requires buf.Valid() && n >= 2
    modifies buf`first, buf`last, buf`lastWithDatap, buf`totalLen, buf`v, buf.v.cells`misalign, buf.v.cells`next
    ensures buf.Valid() && fresh(buf.v.cells - old(buf.v.cells)) && buf.Content() == old(buf.Content())
    ensures Room(buf.v.chains, LastWithData(buf.v.parts), lens) && |lens| <= n && Sum(lens) >= datlen
    ensures old(|buf.v.chains| < n && datlen > Memory(buf.v.chains)) ==> OneMore(buf, old(buf.v))
    ensures forall c :: c in old(buf.v.cells) ==> c.misalign <= old(c.misalign)
  {
    hide Rep, Run, CellsOf, Chain.Holds, Flatten, LastWithData, Spaces, Room, Evbuffer.Valid, Memory;
    var at := LastDataChain(buf);
    if buf.last == null {
      lens := ExpandEmpty(buf, datlen);
      return;
    }
    var enough, used, avail;
    enough, used, avail, lens := Survey(buf, datlen, n);
    RoomFits(buf.v.chains, LastWithData(buf.v.parts), lens);
    if enough { return; }
    ghost var k := LastWithData(buf.v.parts);
    if used < n {
      var tmp := new Chain(datlen - avail);
      lens := AddRoom(buf, tmp, lens);
    } else {
      lens := ReplaceEmpty(buf, at, datlen, lens);
    }
  }

  lemma RoomFits(cs: seq<Chain>, k: nat, lens: seq<nat>)
    requires Room(cs, k, lens)
    ensures |lens| <= |cs| && Sum(lens) <= Memory(cs)
  {
    hide Spaces;
    SpacesMemory(cs, FirstSpace(cs, k), lens);
    MemoryGrows(cs, FirstSpace(cs, k) + |lens|);
  }

  lemma {:induction false} SpacesMemory(cs: seq<Chain>, f: nat, lens: seq<nat>)
    requires f + |lens| <= |cs| && Spaces(cs[f..f + |lens|], lens)
    ensures Sum(lens) <= Memory(cs[..f + |lens|])
    decreases |lens|
  {
    if lens != [] {
      var n := |lens| - 1;
      assert cs[f..f + n] == cs[f..f + |lens|][..n] && cs[f + n] == cs[f..f + |lens|][n];
      SpacesMemory(cs, f, lens[..n]);
      MemorySnoc(cs, f + n);
    }
  }

  /** The buffer has got one more chain, which is empty and has room. */
  ghost predicate OneMore(buf: Evbuffer, was: View)
    reads buf, buf.v.cells
  {
    && buf.last != null && buf.v.chains == was.chains + [buf.last] && buf.v.parts == was.parts + [[]]
    && buf.last in buf.v.cells && buf.last.misalign == 0 && buf.last.SpaceLen() >= LEAST_ROOM
  }

  /** A buffer without chains gets one. */
  method ExpandEmpty(buf: Evbuffer, datlen: nat) returns (ghost lens: seq<nat>)
    requires buf.Valid() && buf.v.chains == []
    modifies buf`first, buf`last, buf`lastWithDatap, buf`v, buf.v.cells`next
    ensures buf.Valid() && fresh(buf.v.cells - old(buf.v.cells)) && buf.Content() == old(buf.Content())
    ensures Room(buf.v.chains, LastWithData(buf.v.parts), lens) && |lens| == 1 && Sum(lens) >= datlen
    ensures OneMore(buf, old(buf.v))
  {
    hide Rep, Run, Flatten, LastWithData, Evbuffer.Valid;
    var at := LastDataChain(buf);
    var chain := new Chain(datlen);
    chain.HoldsFits([]);
    LastFacts(buf.v.parts);
    AppendEmpty(buf, null, chain);
    lens := [chain.SpaceLen()];
    LastFacts(buf.v.parts);
    assert Sum(lens[..0]) == 0;
    MakeRoom(buf.v.chains, 0, 0, 1, lens);
  }

  /** An empty chain behind all others. */
  method AppendEmpty(buf: Evbuffer, last: Chain?, tmp: Chain)
    requires buf.Valid() && tmp !in buf.v.cells && tmp.Holds([]) && tmp.next == null && last == buf.last
    modifies buf`first, buf`last, buf`lastWithDatap, buf`v, buf.v.cells`next
    ensures buf.Valid() && buf.Content() == old(buf.Content()) && buf.v.cells == old(buf.v.cells) + {tmp}
    ensures buf.last == tmp && buf.v.chains == old(buf.v.chains) + [tmp] && buf.v.parts == old(buf.v.parts) + [[]]
    ensures LastWithData(buf.v.parts) == LastWithData(old(buf.v.parts))
  {
    hide Rep, Run, Flatten, LastWithData, Evbuffer.Valid, Chain.Holds;
    var at := LastDataChain(buf);
    ghost var m := |buf.v.chains|;
    LastFacts(buf.v.parts);
    assert buf.v.chains[..m] == buf.v.chains && buf.v.parts[..m] == buf.v.parts;
    KeepAndAppend(buf, last, tmp, m);
    at := LastDataChain(buf);
  }

  /** A further chain behind all others. */
  method AddRoom(buf: Evbuffer, tmp: Chain, ghost lens0: seq<nat>) returns (ghost lens: seq<nat>)
    requires buf.Valid() && buf.v.chains != [] && tmp !in buf.v.cells && tmp.Holds([]) && tmp.next == null
    requires Room(buf.v.chains, LastWithData(buf.v.parts), lens0)
    requires FirstSpace(buf.v.chains, LastWithData(buf.v.parts)) + |lens0| == |buf.v.chains|
    modifies buf`first, buf`last, buf`lastWithDatap, buf`v, buf.v.cells`next
    ensures buf.Valid() && buf.Content() == old(buf.Content()) && buf.v.cells == old(buf.v.cells) + {tmp}
    ensures Room(buf.v.chains, LastWithData(buf.v.parts), lens)
    ensures tmp.SpaceLen() >= 0 && lens == lens0 + [tmp.SpaceLen()] && Sum(lens) == Sum(lens0) + tmp.SpaceLen()
    ensures buf.last == tmp && buf.v.chains == old(buf.v.chains) + [tmp] && buf.v.parts == old(buf.v.parts) + [[]]
  {
    hide Rep, Run, Flatten, LastWithData, Evbuffer.Valid, Chain.Holds, Spaces, LastOf, ChainAt, SlotOf;
    var at := LastDataChain(buf);
    ghost var cs, k := buf.v.chains, LastWithData(buf.v.parts);
    ghost var f := FirstSpace(cs, k);
    tmp.HoldsFits([]);
    AllKept(cs, tmp);
    lens := MoreSpaces(cs, k, lens0, tmp);
    ghost var cs', ch := cs + [tmp], (cs + [tmp])[f..|cs| + 1];
    assert Spaces(ch, lens);
    AppendEmpty(buf, buf.last, tmp);
    assert Spaces(ch, lens);
    MakeRoom(cs', k, f, |cs| + 1, lens);
  }

  lemma MoreSpaces(cs: seq<Chain>, k: nat, lens0: seq<nat>, tmp: Chain) returns (lens: seq<nat>)
    requires Room(cs, k, lens0) && FirstSpace(cs, k) + |lens0| == |cs| && tmp.SpaceLen() >= 0
    ensures lens == lens0 + [tmp.SpaceLen()] && Sum(lens) == Sum(lens0) + tmp.SpaceLen()
    ensures Spaces((cs + [tmp])[FirstSpace(cs, k)..|cs| + 1], lens)
  {
    hide Spaces;
    var f := FirstSpace(cs, k);
    assert (cs + [tmp])[f..|cs|] == cs[f..f + |lens0|];
    lens := Extend(cs + [tmp], f, |cs|, lens0, tmp.SpaceLen());
  }

  lemma AllKept(cs: seq<Chain>, tmp: Chain)
    requires cs != []
    ensures cs[..|cs|] == cs && LastOf(cs) == cs[|cs| - 1]
  {
  }

  /** One chain in place of all empty ones. */
  method ReplaceEmpty(buf: Evbuffer, at: Chain, datlen: nat, ghost lens0: seq<nat>) returns (ghost lens: seq<nat>)
    requires buf.Valid() && buf.v.chains != []
    requires LastWithData(buf.v.parts) < |buf.v.chains| && at == buf.v.chains[LastWithData(buf.v.parts)]
    requires Room(buf.v.chains, LastWithData(buf.v.parts), lens0) && |lens0| > 0 && lens0[0] < datlen
    modifies buf`first, buf`last, buf`lastWithDatap, buf`v, buf.v.cells`next
    ensures buf.Valid() && fresh(buf.v.cells - old(buf.v.cells)) && buf.Content() == old(buf.Content())
    ensures Room(buf.v.chains, LastWithData(buf.v.parts), lens) && |lens| <= 2 && Sum(lens) >= datlen
  {
    hide Rep, Run, Flatten, LastWithData, Evbuffer.Valid, Chain.Holds, Spaces;
    var same := LastDataChain(buf);
    at.HoldsFits(buf.v.parts[LastWithData(buf.v.parts)]);
    if at.off == 0 {
      lens := ReplaceAll(buf, datlen);
    } else {
      assert at.SpaceLen() < datlen by { FirstRoom(buf.v.chains, LastWithData(buf.v.parts), lens0); }
      lens := ReplaceTail(buf, at, datlen);
    }
  }

  lemma FirstRoom(cs: seq<Chain>, k: nat, lens: seq<nat>)
    requires Room(cs, k, lens) && |lens| > 0
    ensures cs[k].SpaceLen() != 0 ==> cs[k].SpaceLen() == lens[0]
  {
    assert cs[FirstSpace(cs, k)..FirstSpace(cs, k) + |lens|][0] == cs[FirstSpace(cs, k)];
  }

  method ReplaceAll(buf: Evbuffer, datlen: nat) returns (ghost lens: seq<nat>)
    requires buf.Valid() && buf.v.chains != []
    requires LastWithData(buf.v.parts) < |buf.v.chains| && buf.v.chains[LastWithData(buf.v.parts)].off == 0
    modifies buf`first, buf`last, buf`lastWithDatap, buf`v, buf.v.cells`next
    ensures buf.Valid() && fresh(buf.v.cells - old(buf.v.cells)) && buf.Content() == old(buf.Content())
    ensures Room(buf.v.chains, LastWithData(buf.v.parts), lens) && |lens| <= 2 && Sum(lens) >= datlen
  {
    hide Rep, Run, Flatten, LastWithData, Evbuffer.Valid, Spaces;
    var at := LastDataChain(buf);
    LastFacts(buf.v.parts);
    var tmp := new Chain(datlen);
    tmp.HoldsFits([]);
    NoSpaces();
    KeepAndAppend(buf, null, tmp, 0);
    SpacesSnoc([], [], tmp, tmp.SpaceLen());
    lens := [] + [tmp.SpaceLen()];
    assert [] + [tmp] == [tmp] == buf.v.chains && [tmp][0..1] == [tmp];
    MakeRoom([tmp], 0, 0, 1, lens);
  }

  method ReplaceTail(buf: Evbuffer, at: Chain, datlen: nat) returns (ghost lens: seq<nat>)
    requires buf.Valid() && buf.v.chains != [] && LastWithData(buf.v.parts) < |buf.v.chains|
    requires at == buf.v.chains[LastWithData(buf.v.parts)] && 0 <= at.SpaceLen() < datlen
    modifies buf`first, buf`last, buf`lastWithDatap, buf`v, buf.v.cells`next
    ensures buf.Valid() && fresh(buf.v.cells - old(buf.v.cells)) && buf.Content() == old(buf.Content())
    ensures Room(buf.v.chains, LastWithData(buf.v.parts), lens) && |lens| <= 2 && Sum(lens) >= datlen
  {
    hide Rep, Run, Flatten, LastWithData, Evbuffer.Valid, Chain.Holds, LastOf, ChainAt, SlotOf;
    var same := LastDataChain(buf);
    ghost var cs, k := buf.v.chains, LastWithData(buf.v.parts);
    var avail := at.SpaceLen();
    var tmp := new Chain(datlen - avail);
    tmp.HoldsFits([]);
    lens := TwoSpaces(cs, k, tmp);
    ghost var f := FirstSpace(cs, k);
    ghost var ch := (cs[..k + 1] + [tmp])[f..k + 2];
    KeepAndAppend(buf, at, tmp, k + 1);
    assert Spaces(ch, lens);
    MakeRoom(cs[..k + 1] + [tmp], k, f, k + 2, lens);
  }

  lemma TwoSpaces(cs: seq<Chain>, k: nat, tmp: Chain) returns (lens: seq<nat>)
    requires k < |cs| && cs[k].SpaceLen() >= 0 && tmp.SpaceLen() >= 0
    ensures var f := FirstSpace(cs, k); f + |lens| == k + 2 && Spaces((cs[..k + 1] + [tmp])[f..k + 2], lens)
    ensures Sum(lens) == cs[k].SpaceLen() + tmp.SpaceLen()
  {
    hide Spaces;
    NoSpaces();
    var cs', f := cs[..k + 1] + [tmp], FirstSpace(cs, k);
    if f == k {
      lens := Extend(cs', k, k, [], cs[k].SpaceLen()) by { assert cs'[k..k] == []; }
    } else {
      lens := [];
      assert cs'[f..k + 1] == [];
    }
    lens := Extend(cs', f, k + 1, lens, tmp.SpaceLen());
  }

  // ----- reserving -----

  /** The extent is the free space of chain `j`, or the start of it. */
  ghost predicate Extent(cs: seq<Chain>, j: nat, vec: Vec)
    reads cs`buffer, cs`misalign, cs`off
  {
    j < |cs| && vec.chain == cs[j] && vec.base == cs[j].misalign + cs[j].off && vec.len <= cs[j].SpaceLen()
  }

  /** The extents are those of successive chains from `f` on. */
  ghost predicate Extents(cs: seq<Chain>, f: nat, vecs: seq<Vec>)
    reads cs`buffer, cs`misalign, cs`off
  {
    forall i {:trigger vecs[i]} :: 0 <= i < |vecs| ==> Extent(cs, f + i, vecs[i])
  }

  function Total(vecs: seq<Vec>): nat
  {
    if vecs == [] then 0 else Total(vecs[..|vecs| - 1]) + vecs[|vecs| - 1].len
  }

  lemma {:induction false} SumPrefix(lens: seq<nat>, i: nat)
    requires i <= |lens|
    ensures Sum(lens[..i]) <= Sum(lens)
  {
    if i < |lens| {
      assert lens[..|lens| - 1][..i] == lens[..i];
      SumPrefix(lens[..|lens| - 1], i);
    } else {
      assert lens[..i] == lens;
    }
  }

  lemma SumTake(lens: seq<nat>, i: nat)
    requires i < |lens|
    ensures Sum(lens[..i + 1]) == Sum(lens[..i]) + lens[i] && Sum(lens[..i + 1]) <= Sum(lens)
  {
    SumPrefix(lens, i + 1);
    assert lens[..i + 1][..i] == lens[..i];
  }

  lemma WholeSum(lens: seq<nat>, i: nat)
    requires i <= |lens|
    ensures i == |lens| ==> Sum(lens[..i]) == Sum(lens)
  {
    if i == |lens| { assert lens[..i] == lens; }
  }

  lemma TotalSnoc(vecs: seq<Vec>, v: Vec)
    ensures Total(vecs + [v]) == Total(vecs) + v.len
  {
    assert (vecs + [v])[..|vecs|] == vecs;
  }

  /** _evbuffer_read_setup_vecs: describe the room to a reader, no more than it wants when
      `exact`. */
  method ReadSetupVecs(buf: Evbuffer, howmuch: int, nVecs: nat, exact: bool, ghost lens: seq<nat>)
    returns (n: int, vecs: seq<Vec>, ghost f: nat)
    requires buf.Valid() && buf.v.chains != []
    requires Room(buf.v.chains, LastWithData(buf.v.parts), lens) && |lens| <= nVecs && Sum(lens) >= howmuch
    ensures howmuch < 0 ==> n == -1
    ensures f == FirstSpace(buf.v.chains, LastWithData(buf.v.parts))
    ensures howmuch >= 0 ==>
              && n == |vecs| <= nVecs && Extents(buf.v.chains, f, vecs)
              && (if exact then Total(vecs) == howmuch else Total(vecs) >= howmuch)
  {
    hide Rep, Run, Chain.Holds, Flatten, LastWithData, Spaces, Evbuffer.Valid, Room, SlotOf, LastOf, Sum, Total, Extents, FirstSpace;
    ghost var cs, k := buf.v.chains, LastWithData(buf.v.parts);
    var chain := LastDataChain(buf);
    FirstSpaceIs(cs, k);
    RoomOpen(cs, k, lens);
    f := FirstSpace(cs, k);
    vecs, n := [], -1;
    if howmuch < 0 { return; }
    NextOf(buf, k);
    if chain.SpaceLen() == 0 { chain := chain.next; }
    var soFar := 0;
    NoExtents(cs, f, lens);
    while |vecs| < nVecs && soFar < howmuch
      invariant |vecs| <= |lens| && chain == ChainAt(cs, f + |vecs|) && Extents(cs, f, vecs)
      invariant soFar == Total(vecs) && (soFar == Sum(lens[..|vecs|]) || (exact && soFar == howmuch))
      invariant exact ==> soFar <= howmuch
      decreases |lens| - |vecs|
    {
      WholeSum(lens, |vecs|);
      SumTake(lens, |vecs|);
      var vec;
      vec, chain := SetupOne(buf, chain, howmuch - soFar, exact, vecs, f, lens);
      vecs := vecs + [vec];
      soFar := soFar + vec.len;
    }
    SumPrefix(lens, |vecs|);
    n := |vecs|;
  }

  lemma RoomOpen(cs: seq<Chain>, k: nat, lens: seq<nat>)
    requires Room(cs, k, lens)
    ensures k < |cs| && FirstSpace(cs, k) + |lens| <= |cs|
    ensures Spaces(cs[FirstSpace(cs, k)..FirstSpace(cs, k) + |lens|], lens)
  {
  }

  /** The extent of one chain. */
  method SetupOne(buf: Evbuffer, chain: Chain?, want: nat, exact: bool, vecs: seq<Vec>, ghost f: nat, ghost lens: seq<nat>)
    returns (vec: Vec, next: Chain?)
    requires buf.Valid() && f + |lens| <= |buf.v.chains| && Spaces(buf.v.chains[f..f + |lens|], lens)
    requires |vecs| < |lens| && chain == ChainAt(buf.v.chains, f + |vecs|) && Extents(buf.v.chains, f, vecs)
    ensures Extents(buf.v.chains, f, vecs + [vec]) && Total(vecs + [vec]) == Total(vecs) + vec.len
    ensures vec.len == if lens[|vecs|] > want && exact then want else lens[|vecs|]
    ensures next == ChainAt(buf.v.chains, f + |vecs| + 1)
  {
    hide Rep, Run, Chain.Holds, Flatten, LastWithData, Spaces, Evbuffer.Valid, Total, Extents;
    SpaceAt(buf.v.chains, f, lens, |vecs|);
    NextOf(buf, f + |vecs|);
    var avail := chain.SpaceLen();
    if avail > want && exact { avail := want; }
    vec := Vec(chain, chain.misalign + chain.off, avail);
    OneMoreExtent(buf.v.chains, f, vecs, vec);
    next := chain.next;
  }

  lemma NoExtents(cs: seq<Chain>, f: nat, lens: seq<nat>)
    ensures Extents(cs, f, []) && Total([]) == 0 == Sum(lens[..0]) && lens[..|lens|] == lens
  {
  }

  lemma OneMoreExtent(cs: seq<Chain>, f: nat, vecs: seq<Vec>, vec: Vec)
    requires Extents(cs, f, vecs) && Extent(cs, f + |vecs|, vec)
    ensures Extents(cs, f, vecs + [vec]) && Total(vecs + [vec]) == Total(vecs) + vec.len
  {
    hide Extent, Total;
    TotalSnoc(vecs, vec);
  }

  lemma NextOf(buf: Evbuffer, j: nat)
    requires buf.Valid() && j < |buf.v.chains|
    ensures buf.v.chains[j].next == ChainAt(buf.v.chains, j + 1) && buf.v.chains[j] in buf.v.cells
  {
    RunAt(buf.v.chains, buf.v.parts, null, buf.v.cells, j);
  }

  lemma SpaceAt(cs: seq<Chain>, f: nat, lens: seq<nat>, i: nat)
    requires f + |lens| <= |cs| && Spaces(cs[f..f + |lens|], lens) && i < |lens|
    ensures cs[f + i].SpaceLen() == lens[i]
  {
    assert cs[f..f + |lens|][i] == cs[f + i];
  }

  // ----- reserving in one chain -----

  /** The chain with the last data has room, though not for `datlen` bytes even if they are moved
      to its front; the empty one behind it has, and is not the last one. */
  ghost predicate PassedOver(buf: Evbuffer, datlen: nat)
    reads buf, buf.v.chains
  {
    var cs, k := buf.v.chains, LastWithData(buf.v.parts);
    && k + 2 < |cs| && |buf.v.parts| == |cs| && buf.v.parts[k] != []
    && 0 < cs[k].SpaceLen() && !cs[k].Takes(datlen) && cs[k + 1].SpaceLen() >= datlen
  }

  /** Chain `j` is the first with room, or the one behind it when that has the last data. */
  ghost predicate NearFirst(buf: Evbuffer, j: nat)
    reads buf, buf.v.chains
  {
    var k := LastWithData(buf.v.parts);
    k < |buf.v.chains| && (j == FirstSpace(buf.v.chains, k) || (j == k + 1 < |buf.v.chains| && buf.v.chains[k].SpaceLen() != 0))
  }

  /** Chain `j` is neither the first with room nor the last. */
  ghost predicate MissesFirst(buf: Evbuffer, j: nat)
    reads buf, buf.v.chains
  {
    var k := LastWithData(buf.v.parts);
    k < |buf.v.chains| && j + 1 < |buf.v.chains| && j != FirstSpace(buf.v.chains, k)
  }

  lemma AtFirstRoom(buf: Evbuffer, j: nat)
    requires LastWithData(buf.v.parts) < |buf.v.chains| && j < |buf.v.chains|
    ensures j == FirstSpace(buf.v.chains, LastWithData(buf.v.parts)) ==> NearFirst(buf, j) && !MissesFirst(buf, j)
    ensures buf.v.chains[j].SpaceLen() > 0 && j == LastWithData(buf.v.parts) ==> NearFirst(buf, j) && !MissesFirst(buf, j)
  {
    hide LastWithData;
  }

  lemma BehindFirst(buf: Evbuffer, j: nat)
    requires j < |buf.v.chains| && j == LastWithData(buf.v.parts) + 1 && buf.v.chains[j - 1].SpaceLen() != 0
    ensures NearFirst(buf, j) && (MissesFirst(buf, j) <==> j + 1 < |buf.v.chains|)
  {
    hide LastWithData;
  }

  lemma AtTheEnd(buf: Evbuffer, j: nat)
    requires j + 1 == |buf.v.chains|
    ensures !MissesFirst(buf, j)
  {
    hide LastWithData;
  }

  /** What it means for the first chain with room that another is used. */
  lemma PassedIs(buf: Evbuffer, datlen: nat)
    requires buf.Valid() && LastWithData(buf.v.parts) < |buf.v.chains|
    ensures var cs, k := buf.v.chains, LastWithData(buf.v.parts); var f := FirstSpace(cs, k);
            && (f < |cs| ==> cs[f] in buf.v.cells && cs[f].SpaceLen() >= 0 && (cs[f].off != 0 ==> f == k && cs[k].SpaceLen() != 0))
            && (PassedOver(buf, datlen) <==>
                  f + 2 < |cs| && cs[f].off != 0 && !cs[f].Takes(datlen) && cs[f + 1].SpaceLen() >= datlen)
  {
    hide Rep, Run, Chain.Holds, Flatten, LastWithData;
    var cs, k := buf.v.chains, LastWithData(buf.v.parts);
    var f := FirstSpace(cs, k);
    LastFacts(buf.v.parts);
    PartAt(buf, k);
    if f < |cs| { PartAt(buf, f); }
  }

  /** An empty chain in place of all empty ones behind the data. */
  method InsertNew(buf: Evbuffer, datlen: nat) returns (chain: Chain, ghost j: nat)
    requires buf.Valid()
    modifies buf`first, buf`last, buf`lastWithDatap, buf`totalLen, buf`v, buf.v.cells`next
    ensures buf.Valid() && fresh(buf.v.cells - old(buf.v.cells)) && buf.Content() == old(buf.Content())
    ensures j + 1 == |buf.v.chains| && chain == buf.v.chains[j] && chain.SpaceLen() >= datlen && NearFirst(buf, j) && !MissesFirst(buf, j)
  {
    hide Rep, Run, Chain.Holds, Flatten, LastWithData, Evbuffer.Valid, Evbuffer.Slotted, InsertAt, Solid, NearFirst, MissesFirst;
    ghost var cs, ps, k := buf.v.chains, buf.v.parts, LastWithData(buf.v.parts);
    var at := LastDataChain(buf);
    buf.ValidSlotted();
    chain := new Chain(datlen);
    chain.HoldsFits([]);
    var aborts;
    InsertFacts(ps);
    InsertParts(ps, []);
    aborts, j := buf.ChainInsert(chain, [], k);
    at := LastDataChain(buf);
    assert Flatten(ps) + [] == Flatten(ps);
    NearEnd(buf, j);
    AtTheEnd(buf, j);
  }

  lemma NearEnd(buf: Evbuffer, j: nat)
    requires j + 1 == |buf.v.chains| && buf.v.chains[j].SpaceLen() > 0
    requires j == LastWithData(buf.v.parts) || j == LastWithData(buf.v.parts) + 1
    ensures NearFirst(buf, j)
  {
    hide LastWithData;
  }

  /** Move the data of chain `j` to its front. */
  method AlignAt(buf: Evbuffer, chain: Chain, ghost j: nat)
    requires buf.Valid() && j < |buf.v.chains| && chain == buf.v.chains[j]
    modifies chain`misalign, chain`buffer
    ensures buf.Valid() && chain.misalign == 0 && |chain.buffer| == old(|chain.buffer|)
  {
    hide Rep, Run, CellsOf, Chain.Holds, Flatten, LastWithData;
    ghost var ps := buf.v.parts;
    RepRun(buf.v, buf.first, buf.last, buf.lastWithDatap, buf.totalLen);
    RunAround(buf.v.chains, ps, null, buf.v.cells, j);
    chain.Align(ps[j]);
    RunMend(buf.v.chains, ps, null, buf.v.cells, j, ps[j]);
    assert ps[j := ps[j]] == ps;
    buf.ValidFrom();
  }

  /** evbuffer_expand_singlechain: room for `datlen` bytes in one chain. No chain is made larger,
      as long as the bytes it would hold are fewer than the most a chain can. */
  method ExpandSingle(buf: Evbuffer, datlen: nat) returns (chain: Chain, ghost j: nat)
    requires buf.Valid()
    modifies buf`first, buf`last, buf`lastWithDatap, buf`totalLen, buf`v
    modifies buf.v.cells`misalign, buf.v.cells`buffer, buf.v.cells`next
    ensures buf.Valid() && fresh(buf.v.cells - old(buf.v.cells)) && buf.Content() == old(buf.Content())
    ensures j < |buf.v.chains| && chain == buf.v.chains[j] && chain.SpaceLen() >= datlen && NearFirst(buf, j)
    ensures old(PassedOver(buf, datlen)) <==> MissesFirst(buf, j)
  {
    hide Rep, Run, Chain.Holds, Flatten, LastWithData, Evbuffer.Valid, NearFirst, MissesFirst;
    var at := LastDataChain(buf);
    if at == null {
      chain, j := InsertNew(buf, datlen);
      return;
    }
    j := FirstSpace(buf.v.chains, LastWithData(buf.v.parts));
    var slot, room := FirstSlot(buf, at);
    if room == null {
      chain, j := InsertNew(buf, datlen);
    } else {
      chain, j := ExpandFrom(buf, room, datlen, j);
    }
  }

  /** The same from the first chain with room. */
  method ExpandFrom(buf: Evbuffer, room: Chain, datlen: nat, ghost f: nat) returns (chain: Chain, ghost j: nat)
    requires buf.Valid() && LastWithData(buf.v.parts) < |buf.v.chains| && f == FirstSpace(buf.v.chains, LastWithData(buf.v.parts))
    requires f < |buf.v.chains| && room == buf.v.chains[f]
    modifies buf`first, buf`last, buf`lastWithDatap, buf`totalLen, buf`v
    modifies buf.v.cells`misalign, buf.v.cells`buffer, buf.v.cells`next
    ensures buf.Valid() && fresh(buf.v.cells - old(buf.v.cells)) && buf.Content() == old(buf.Content())
    ensures j < |buf.v.chains| && chain == buf.v.chains[j] && chain.SpaceLen() >= datlen && NearFirst(buf, j)
    ensures old(PassedOver(buf, datlen)) <==> MissesFirst(buf, j)
  {
    hide Rep, Run, Chain.Holds, Flatten, LastWithData, Evbuffer.Valid, PassedOver, NearFirst, MissesFirst;
    chain, j := room, f;
    PassedIs(buf, datlen);
    AtFirstRoom(buf, j);
    if chain.SpaceLen() >= datlen { return; }
    if chain.off == 0 {
      chain, j := InsertNew(buf, datlen);
      return;
    }
    if chain.ShouldRealign(datlen) {
      AlignAt(buf, chain, j);
      AtFirstRoom(buf, j);
      return;
    }
    NextOf(buf, j);
    if chain.next != null && chain.next.SpaceLen() >= datlen {
      chain, j := chain.next, j + 1;
      BehindFirst(buf, j);
    } else {
      chain, j := InsertNew(buf, datlen);
    }
  }

  lemma PartAt(buf: Evbuffer, j: nat)
    requires buf.Valid() && j < |buf.v.chains|
    ensures |buf.v.parts| == |buf.v.chains| && buf.v.chains[j].off == |buf.v.parts[j]|
    ensures buf.v.chains[j] in buf.v.cells && buf.v.chains[j].SpaceLen() >= 0
  {
    hide Chain.Holds, Flatten, LastWithData;
    RunAt(buf.v.chains, buf.v.parts, null, buf.v.cells, j);
    buf.v.chains[j].HoldsFits(buf.v.parts[j]);
  }

  /** The start of the free space, and all of it. */
  method OneVec(buf: Evbuffer, chain: Chain, ghost j: nat) returns (vecs: seq<Vec>)
    requires j < |buf.v.chains| && chain == buf.v.chains[j] && chain.SpaceLen() >= 0
    ensures vecs == [Vec(chain, chain.misalign + chain.off, chain.SpaceLen())]
    ensures Extents(buf.v.chains, j, vecs) && Total(vecs) == chain.SpaceLen()
  {
    vecs := [Vec(chain, chain.misalign + chain.off, chain.SpaceLen())];
    assert Total(vecs[..0]) == 0;
  }

  /** evbuffer_reserve_space: room for `size` bytes or more in at most `nVecs` extents, in order,
      and the content as it was. The extents are those from chain `j` on: the first with room,
      unless one extent is wanted and that chain is passed over. */
  method ReserveSpace(buf: Evbuffer, size: nat, nVecs: int) returns (n: int, vecs: seq<Vec>, ghost j: nat)
    requires buf.Valid()
    modifies buf`first, buf`last, buf`lastWithDatap, buf`totalLen, buf`v
    modifies buf.v.cells`misalign, buf.v.cells`buffer, buf.v.cells`next
    ensures buf.Valid() && fresh(buf.v.cells - old(buf.v.cells)) && buf.Content() == old(buf.Content())
    ensures if buf.freezeEnd || nVecs < 1 then n == -1 && buf.v == old(buf.v)
            else n == |vecs| <= nVecs && Total(vecs) >= size && Extents(buf.v.chains, j, vecs) && NearFirst(buf, j)
    ensures !buf.freezeEnd && nVecs == 1 ==> n == 1 && (old(PassedOver(buf, size)) <==> MissesFirst(buf, j))
    ensures !buf.freezeEnd && nVecs >= 2 ==> j == FirstSpace(buf.v.chains, LastWithData(buf.v.parts))
    ensures old(!buf.freezeEnd && 2 <= nVecs && |buf.v.chains| < nVecs && size > Memory(buf.v.chains)) ==> OneMore(buf, old(buf.v))
    ensures nVecs >= 2 ==> forall c :: c in old(buf.v.cells) ==> c.misalign <= old(c.misalign) && c.buffer == old(c.buffer)
  {
    hide Rep, Run, Chain.Holds, Flatten, LastWithData, Spaces, Evbuffer.Valid, Extents, Memory, NearFirst, MissesFirst, PassedOver, FirstSpace;
    n, vecs, j := -1, [], 0;
    if buf.freezeEnd || nVecs < 1 { return; }
    if nVecs == 1 {
      var chain;
      chain, j := ExpandSingle(buf, size);
      vecs := OneVec(buf, chain, j);
      return 1, vecs, j;
    }
    ghost var lens := ExpandFast(buf, size, nVecs);
    n, vecs, j := ReadSetupVecs(buf, size, nVecs, false, lens);
    RoomStarts(buf, j, lens);
  }

  lemma RoomStarts(buf: Evbuffer, f: nat, lens: seq<nat>)
    requires Room(buf.v.chains, LastWithData(buf.v.parts), lens) && f == FirstSpace(buf.v.chains, LastWithData(buf.v.parts))
    ensures NearFirst(buf, f)
  {
    hide LastWithData;
  }

  // ----- committing -----

  lemma GrowPart(parts: seq<seq<byte>>, j: nat, d: seq<byte>)
    requires j < |parts| && LastWithData(parts) <= j
    ensures var parts' := parts[j := parts[j] + d];
            && Flatten(parts') == Flatten(parts) + d
            && LastWithData(parts') == if d == [] then LastWithData(parts) else j
  {
    hide Flatten, LastWithData;
    LastFacts(parts);
    FlattenAt(parts, j);
    FlattenUpdate(parts, j, parts[j] + d);
    AllEmpty(parts[j + 1..]);
    if d == [] {
      assert parts[j] + d == parts[j] && parts[j := parts[j]] == parts;
    } else {
      LastIs(parts[j := parts[j] + d], j);
    }
  }

  /** The parts once `data` has come to those of the chains from `f` on. */
  function Committed(parts: seq<seq<byte>>, f: nat, data: seq<seq<byte>>): (r: seq<seq<byte>>)
    ensures |r| == |parts|
  {
    seq(|parts|, j requires 0 <= j < |parts| => if f <= j < f + |data| then parts[j] + data[j - f] else parts[j])
  }

  lemma CommittedNone(parts: seq<seq<byte>>, f: nat)
    ensures Committed(parts, f, []) == parts
  {
  }

  lemma CommittedSnoc(parts: seq<seq<byte>>, f: nat, data: seq<seq<byte>>, d: seq<byte>)
    requires f + |data| < |parts|
    ensures var ps, j := Committed(parts, f, data), f + |data|;
            |ps| == |parts| && Committed(parts, f, data + [d]) == ps[j := ps[j] + d]
  {
  }

  /** What lies in an extent. */
  function Mem(vec: Vec): seq<byte>
    requires vec.base + vec.len <= |vec.chain.buffer|
    reads {vec.chain}`buffer
  {
    vec.chain.buffer[vec.base..vec.base + vec.len]
  }

  /** A buffer whose count of bytes lags behind by `added`. */
  ghost predicate Behind(buf: Evbuffer, added: nat)
    reads buf, buf.v.cells
  {
    Rep(buf.v, buf.first, buf.last, buf.lastWithDatap, buf.totalLen + added)
  }

  /** One turn of the second pass of evbuffer_commit_space. */
  method CommitOne(buf: Evbuffer, chainp: Slot, vec: Vec, ghost j: nat, ghost added: nat)
    requires Behind(buf, added) && Extent(buf.v.chains, j, vec) && chainp == SlotOf(buf.v.chains, j)
    requires LastWithData(buf.v.parts) <= j
    modifies {vec.chain}`off, buf`lastWithDatap, buf`v
    ensures Behind(buf, added + vec.len) && buf.v.chains == old(buf.v.chains) && buf.v.cells == old(buf.v.cells)
    ensures vec.base + vec.len <= |vec.chain.buffer| && Flatten(buf.v.parts) == Flatten(old(buf.v.parts)) + Mem(vec)
    ensures LastWithData(buf.v.parts) == if vec.len > 0 then j else LastWithData(old(buf.v.parts))
    ensures j < |old(buf.v.parts)| && buf.v.parts == old(buf.v.parts)[j := old(buf.v.parts)[j] + Mem(vec)]
  {
    hide Rep, Run, CellsOf, Chain.Holds, Flatten, LastWithData;
    ghost var cs, ps := buf.v.chains, buf.v.parts;
    RepRun(buf.v, buf.first, buf.last, buf.lastWithDatap, buf.totalLen + added);
    RunAround(cs, ps, null, buf.v.cells, j);
    var chain := vec.chain;
    chain.HoldsFits(ps[j]);
    ghost var d := Mem(vec);
    chain.Extend(vec.len, ps[j]);
    RunMend(cs, ps, null, buf.v.cells, j, ps[j] + d);
    GrowPart(ps, j, d);
    buf.lastWithDatap := if vec.len > 0 then chainp else buf.lastWithDatap;
    buf.v := buf.v.(parts := ps[j := ps[j] + d]);
    LastFacts(buf.v.parts);
    RepFrom(buf.v, LastWithData(buf.v.parts));
  }

  lemma RepFrom(v: View, k: nat)
    requires Run(v.chains, v.parts, null, v.cells) && |v.parts| == |v.chains| && k <= |v.chains| && k == LastWithData(v.parts)
    ensures Rep(v, ChainAt(v.chains, 0), LastOf(v.chains), SlotOf(v.chains, k), |Flatten(v.parts)|)
  {
  }

  /** The first pass: each extent is where the next free space starts, and not longer. */
  method InBounds(buf: Evbuffer, from: Chain?, vecs: seq<Vec>, ghost f: nat) returns (ok: bool)
    requires buf.Valid() && from == ChainAt(buf.v.chains, f)
    ensures ok <==> Extents(buf.v.chains, f, vecs)
  {
    hide Rep, Run, Chain.Holds, Flatten, LastWithData, Evbuffer.Valid;
    var chain := from;
    for i := 0 to |vecs|
      invariant chain == ChainAt(buf.v.chains, f + i)
      invariant forall m {:trigger vecs[m]} :: 0 <= m < i ==> Extent(buf.v.chains, f + m, vecs[m])
    {
      if chain == null {
        assert !Extent(buf.v.chains, f + i, vecs[i]);
        return false;
      }
      if vecs[i].chain != chain || vecs[i].base != chain.misalign + chain.off || vecs[i].len > chain.SpaceLen() {
        assert !Extent(buf.v.chains, f + i, vecs[i]);
        return false;
      }
      NextOf(buf, f + i);
      chain := chain.next;
    }
    ok := true;
  }

  /** The second pass: take each extent for data, in order. */
  method CommitAll(buf: Evbuffer, firstchainp: Slot, vecs: seq<Vec>, ghost f: nat) returns (added: nat, ghost data: seq<seq<byte>>)
    requires buf.Valid() && Extents(buf.v.chains, f, vecs) && (vecs != [] ==> f < |buf.v.chains| && firstchainp == SlotOf(buf.v.chains, f))
    requires f == LastWithData(buf.v.parts) || f == LastWithData(buf.v.parts) + 1
    modifies buf.v.cells`off, buf`lastWithDatap, buf`v
    ensures Behind(buf, added) && buf.v.chains == old(buf.v.chains) && buf.v.cells == old(buf.v.cells)
    ensures Flatten(buf.v.parts) == Flatten(old(buf.v.parts)) + Flatten(data) && added == |Flatten(data)|
    ensures Are(vecs, data) && buf.v.parts == Committed(old(buf.v.parts), f, data)
  {
    hide Rep, Run, CellsOf, Chain.Holds, Flatten, LastWithData, Mem, SlotOf, Behind, Committed;
    AllCommitted(buf);
    CommittedNone(buf.v.parts, f);
    added, data := 0, [];
    ghost var cs, chainp := buf.v.chains, firstchainp;
    FlattenEnds([]);
    assert Flatten(buf.v.parts) + [] == Flatten(buf.v.parts);
    var at := firstchainp;
    for i := 0 to |vecs|
      modifies buf.v.cells`off, buf`lastWithDatap, buf`v
      invariant Behind(buf, added) && buf.v.chains == cs && buf.v.cells == old(buf.v.cells)
      invariant forall m {:trigger vecs[m]} :: i <= m < |vecs| ==> Extent(cs, f + m, vecs[m])
      invariant i < |vecs| ==> f + i < |cs| && at == SlotOf(cs, f + i)
      invariant LastWithData(buf.v.parts) <= f + i
      invariant |data| == i && Are(vecs[..i], data) && added == |Flatten(data)|
      invariant Flatten(buf.v.parts) == Flatten(old(buf.v.parts)) + Flatten(data)
      invariant buf.v.parts == Committed(old(buf.v.parts), f, data)
    {
      BehindAt(buf, added, f + i);
      assert Extent(cs, f + i, vecs[i]) && (i + 1 < |vecs| ==> Extent(cs, f + (i + 1), vecs[i + 1]));
      CommitOne(buf, at, vecs[i], f + i, added);
      CommittedSnoc(old(buf.v.parts), f, data, Mem(vecs[i]));
      data := SnocData(vecs, i, data);
      added := added + vecs[i].len;
      SlotNext(cs, f + i);
      at := After(vecs[i].chain);
    }
    assert vecs[..|vecs|] == vecs;
  }

  lemma AllCommitted(buf: Evbuffer)
    requires buf.Valid()
    ensures Behind(buf, 0)
  {
    hide Rep;
  }

  lemma SlotNext(cs: seq<Chain>, k: nat)
    requires k < |cs|
    ensures SlotOf(cs, k + 1) == After(cs[k])
  {
  }

  lemma BehindAt(buf: Evbuffer, added: nat, j: nat)
    requires Behind(buf, added) && j < |buf.v.chains|
    ensures buf.v.chains[j] in buf.v.cells
    ensures forall i :: 0 <= i < |buf.v.chains| && i != j ==> buf.v.chains[i] != buf.v.chains[j]
  {
    RunAt(buf.v.chains, buf.v.parts, null, buf.v.cells, j);
  }

  /** `data` is what lies in the extents. */
  ghost predicate Are(vecs: seq<Vec>, data: seq<seq<byte>>)
    reads (set i | 0 <= i < |vecs| :: vecs[i].chain)`buffer
  {
    |data| == |vecs|
    && forall i :: 0 <= i < |vecs| ==> vecs[i].base + vecs[i].len <= |vecs[i].chain.buffer| && data[i] == Mem(vecs[i])
  }

  lemma SnocData(vecs: seq<Vec>, i: nat, data: seq<seq<byte>>) returns (data': seq<seq<byte>>)
    requires i < |vecs| && Are(vecs[..i], data) && vecs[i].base + vecs[i].len <= |vecs[i].chain.buffer|
    ensures data' == data + [Mem(vecs[i])] && Are(vecs[..i + 1], data')
    ensures Flatten(data') == Flatten(data) + Mem(vecs[i]) && |Flatten(data')| == |Flatten(data)| + vecs[i].len
  {
    hide Flatten;
    data' := data + [Mem(vecs[i])];
    FlattenConcat(data, [Mem(vecs[i])]);
    FlattenOne(Mem(vecs[i]));
  }

  /** Commit into the last chain alone (the short way of evbuffer_commit_space). The
      invariant survives exactly when no chain that stays empty precedes it. */
  method CommitLast(buf: Evbuffer, chain: Chain, n: nat)
    requires buf.Valid() && buf.v.chains != [] && chain == buf.last
    requires 0 <= n <= chain.SpaceLen() && chain in buf.v.cells
    modifies chain`off, buf`lastWithDatap, buf`v, buf`totalLen
    ensures buf.v.chains == old(buf.v.chains) && buf.v.cells == old(buf.v.cells) && |buf.v.parts| == |buf.v.chains|
    ensures buf.Valid() <==> n == 0 || |buf.v.chains| <= LastWithData(old(buf.v.parts)) + 2
    ensures chain.misalign + old(chain.off) + n <= |chain.buffer|
    ensures buf.Content() == old(buf.Content()) + chain.buffer[chain.misalign + old(chain.off)..][..n]
    ensures buf.totalLen == old(buf.totalLen) + n
    ensures buf.v.parts == Committed(old(buf.v.parts), |buf.v.chains| - 1, [chain.buffer[chain.misalign + old(chain.off)..][..n]])
    ensures var k, L := LastWithData(old(buf.v.parts)), |buf.v.chains| - 1;
            k <= L && buf.lastWithDatap == SlotOf(buf.v.chains, if n == 0 || L > k + 1 then k else L)
  {
    hide Rep, Run, CellsOf, Chain.Holds, Flatten, LastWithData, Committed, Evbuffer.Slotted;
    ghost var cs, ps, k, L := buf.v.chains, buf.v.parts, LastWithData(buf.v.parts), |buf.v.chains| - 1;
    RepRun(buf.v, buf.first, buf.last, buf.lastWithDatap, buf.totalLen);
    LastFacts(ps);
    RunAround(cs, ps, null, buf.v.cells, L);
    chain.HoldsFits(ps[L]);
    ghost var d := chain.buffer[chain.misalign + chain.off..chain.misalign + chain.off + n];
    assert d == chain.buffer[chain.misalign + chain.off..][..n];
    chain.Extend(n, ps[L]);
    RunMend(cs, ps, null, buf.v.cells, L, ps[L] + d);
    GrowPart(ps, L, d);
    CommittedNone(ps, L);
    CommittedSnoc(ps, L, [], d);
    assert [] + [d] == [d];
    buf.v := buf.v.(parts := ps[L := ps[L] + d]);
    if n > 0 {
      ghost var k' := AdvanceLastWithData(buf, k);
      Reached(cs, ps, d, k, k');
    }
    buf.totalLen := buf.totalLen + n;
    buf.SlottedFrom(if n == 0 then k else if L <= k + 1 then L else k);
  }

  /** How far advance_last_with_data gets when only the last part grew. */
  lemma Reached(cs: seq<Chain>, ps: seq<seq<byte>>, d: seq<byte>, k: nat, k': nat)
    requires |cs| == |ps| > 0 && k < |cs| && d != [] && forall i :: k < i < |ps| ==> ps[i] == []
    requires var ps' := ps[|ps| - 1 := ps[|ps| - 1] + d];
             && k <= k' < |cs| && (forall i :: k < i <= k' ==> ps'[i] != []) && (k' + 1 == |cs| || ps'[k' + 1] == [])
    ensures k' == if |cs| <= k + 2 then |cs| - 1 else k
  {
    var ps' := ps[|ps| - 1 := ps[|ps| - 1] + d];
    if |cs| > k + 2 { assert ps'[k + 1] == []; }
  }

  /** evbuffer_commit_space: append what was written into extents that are in bounds. */
  method CommitSpace(buf: Evbuffer, vecs: seq<Vec>, ghost f: nat) returns (ok: bool, ghost data: seq<seq<byte>>)
    requires buf.Valid() && (buf.v.chains != [] ==> f == FirstSpace(buf.v.chains, LastWithData(buf.v.parts)))
    modifies buf`totalLen, buf`lastWithDatap, buf`v, buf.v.cells`off
    ensures buf.v.chains == old(buf.v.chains) && buf.v.cells == old(buf.v.cells)
    ensures !ok ==> buf.Valid() && buf.v == old(buf.v)
    ensures ok <==> !buf.freezeEnd && (vecs == [] || old(AtLast(buf, vecs)) || old(Extents(buf.v.chains, f, vecs)))
    ensures ok && !old(Skips(buf, vecs)) ==> buf.Valid()
    ensures ok && old(Skips(buf, vecs)) ==> !buf.Valid() && buf.lastWithDatap == old(buf.lastWithDatap)
    ensures ok ==> Are(vecs, data) && buf.Content() == old(buf.Content()) + Flatten(data)
    ensures ok ==> buf.v.parts == Committed(old(buf.v.parts), old(if AtLast(buf, vecs) then |buf.v.chains| - 1 else f), data)
  {
    hide Rep, Run, CellsOf, Chain.Holds, Flatten, LastWithData, Evbuffer.Valid, Extent, Mem, Committed;
    CommittedNone(buf.v.parts, f);
    ok, data := false, [];
    FlattenEnds([]);
    assert buf.Content() + [] == buf.Content();
    if buf.freezeEnd { return; }
    if vecs == [] { return true, []; }
    var at := LastDataChain(buf);
    if |vecs| == 1 && buf.last != null && vecs[0].chain == buf.last && vecs[0].base == buf.last.misalign + buf.last.off {
      TooLong(buf, vecs, f);
      ok, data := CommitTail(buf, buf.last, vecs);
      return;
    }
    NotTail(buf, vecs);
    if at == null { NoneIn(vecs, f); return; }
    ok, data := CommitGeneral(buf, at, vecs, f);
  }

  lemma TooLong(buf: Evbuffer, vecs: seq<Vec>, f: nat)
    requires buf.v.chains != [] && |vecs| == 1 && vecs[0].chain == buf.v.chains[|buf.v.chains| - 1]
    ensures vecs[0].len > vecs[0].chain.SpaceLen() ==> !AtLast(buf, vecs) && !Extents(buf.v.chains, f, vecs)
    ensures vecs[0].len <= vecs[0].chain.SpaceLen() && vecs[0].base == vecs[0].chain.misalign + vecs[0].chain.off ==>
              AtLast(buf, vecs)
  {
    if vecs[0].len > vecs[0].chain.SpaceLen() { assert !Extent(buf.v.chains, f + 0, vecs[0]); }
  }

  lemma NotTail(buf: Evbuffer, vecs: seq<Vec>)
    requires |vecs| == 1 && buf.v.chains != [] ==>
               var last := buf.v.chains[|buf.v.chains| - 1];
               vecs[0].chain != last || vecs[0].base != last.misalign + last.off
    ensures !AtLast(buf, vecs) && !Skips(buf, vecs)
  {
  }

  lemma ExtentsStart(cs: seq<Chain>, f: nat, vecs: seq<Vec>)
    requires Extents(cs, f, vecs) && vecs != []
    ensures f < |cs|
  {
    assert Extent(cs, f + 0, vecs[0]);
  }

  /** The long way: check all extents, then take them all. */
  method CommitGeneral(buf: Evbuffer, at: Chain, vecs: seq<Vec>, ghost f: nat) returns (ok: bool, ghost data: seq<seq<byte>>)
    requires buf.Valid() && LastWithData(buf.v.parts) < |buf.v.chains| && at == buf.v.chains[LastWithData(buf.v.parts)]
    requires vecs != [] && f == FirstSpace(buf.v.chains, LastWithData(buf.v.parts))
    modifies buf`totalLen, buf`lastWithDatap, buf`v, buf.v.cells`off
    ensures buf.v.chains == old(buf.v.chains) && buf.v.cells == old(buf.v.cells)
    ensures buf.Valid() && (ok <==> old(Extents(buf.v.chains, f, vecs))) && (!ok ==> buf.v == old(buf.v))
    ensures ok ==> Are(vecs, data) && buf.Content() == old(buf.Content()) + Flatten(data)
    ensures ok ==> buf.v.parts == Committed(old(buf.v.parts), f, data)
  {
    hide Rep, Run, CellsOf, Chain.Holds, Flatten, LastWithData, Extent, Mem, Committed;
    data := [];
    var firstchainp, from := FirstSlot(buf, at);
    ok := InBounds(buf, from, vecs, f);
    if !ok { return; }
    ExtentsStart(buf.v.chains, f, vecs);
    var added;
    added, data := CommitAll(buf, firstchainp, vecs, f);
    buf.totalLen := buf.totalLen + added;
  }

  /** One extent, and it is where the free space of the last chain starts. */
  ghost predicate AtLast(buf: Evbuffer, vecs: seq<Vec>)
    reads buf, buf.v.chains
  {
    |vecs| == 1 && buf.v.chains != [] && Extent(buf.v.chains, |buf.v.chains| - 1, vecs[0])
  }

  /** ... while a chain that stays empty precedes it. */
  ghost predicate Skips(buf: Evbuffer, vecs: seq<Vec>)
    reads buf, buf.v.chains
  {
    AtLast(buf, vecs) && vecs[0].len > 0 && |buf.v.chains| > LastWithData(buf.v.parts) + 2
  }

  /** firstchainp, and what it points at. */
  method FirstSlot(buf: Evbuffer, at: Chain) returns (slot: Slot, chain: Chain?)
    requires buf.Valid() && LastWithData(buf.v.parts) < |buf.v.chains| && at == buf.v.chains[LastWithData(buf.v.parts)]
    ensures var f := FirstSpace(buf.v.chains, LastWithData(buf.v.parts));
            f <= |buf.v.chains| && slot == SlotOf(buf.v.chains, f) && chain == ChainAt(buf.v.chains, f)
  {
    hide Rep, Run, Chain.Holds, Flatten, LastWithData, Evbuffer.Valid;
    var same := LastDataChain(buf);
    NextOf(buf, LastWithData(buf.v.parts));
    slot, chain := buf.lastWithDatap, at;
    if at.SpaceLen() == 0 { slot, chain := After(at), at.next; }
  }

  /** The short way, with its check. */
  method CommitTail(buf: Evbuffer, chain: Chain, vecs: seq<Vec>) returns (ok: bool, ghost data: seq<seq<byte>>)
    requires buf.Valid() && buf.v.chains != [] && chain == buf.last && |vecs| == 1
    requires vecs[0].chain == chain && vecs[0].base == chain.misalign + chain.off
    modifies buf`totalLen, buf`lastWithDatap, buf`v, buf.v.cells`off
    ensures buf.v.chains == old(buf.v.chains) && buf.v.cells == old(buf.v.cells)
    ensures ok <==> old(AtLast(buf, vecs))
    ensures !ok ==> buf.Valid() && buf.v == old(buf.v)
    ensures ok ==> (buf.Valid() <==> !old(Skips(buf, vecs)))
    ensures ok && old(Skips(buf, vecs)) ==> buf.lastWithDatap == old(buf.lastWithDatap)
    ensures ok ==> Are(vecs, data) && buf.Content() == old(buf.Content()) + Flatten(data)
    ensures ok ==> buf.v.parts == Committed(old(buf.v.parts), |buf.v.chains| - 1, data)
  {
    hide Rep, Run, CellsOf, Chain.Holds, Flatten, LastWithData, Evbuffer.Valid, Committed;
    var at := LastDataChain(buf);
    NextOf(buf, |buf.v.chains| - 1);
    data := [];
    if vecs[0].len > chain.SpaceLen() { return false, []; }
    CommitLast(buf, chain, vecs[0].len);
    assert chain.buffer[vecs[0].base..][..vecs[0].len] == Mem(vecs[0]);
    data := [Mem(vecs[0])];
    FlattenOne(Mem(vecs[0]));
    ok := true;
  }

  lemma NoneIn(vecs: seq<Vec>, f: nat)
    requires vecs != []
    ensures !Extents([], f, vecs)
  {
    assert !Extent([], f + 0, vecs[0]);
  }

  // ----- both together -----

  /** Write into the free space of a chain. */
  method FillOne(buf: Evbuffer, vec: Vec, chunk: seq<byte>, ghost j: nat)
    requires buf.Valid() && Extent(buf.v.chains, j, vec) && |chunk| <= vec.len
    modifies {vec.chain}`buffer
    ensures buf.Valid() && |vec.chain.buffer| == |old(vec.chain.buffer)| && vec.base + |chunk| <= |vec.chain.buffer|
    ensures vec.chain.buffer[vec.base..vec.base + |chunk|] == chunk
    ensures vec.chain in buf.v.cells && forall i :: 0 <= i < |buf.v.chains| && i != j ==> buf.v.chains[i] != vec.chain
  {
    hide Rep, Run, CellsOf, Chain.Holds, Flatten, LastWithData;
    ghost var ps := buf.v.parts;
    OnlyOnce(buf, j);
    RepRun(buf.v, buf.first, buf.last, buf.lastWithDatap, buf.totalLen);
    RunAround(buf.v.chains, ps, null, buf.v.cells, j);
    FillChain(vec.chain, vec.base, chunk, ps[j]);
    RunMend(buf.v.chains, ps, null, buf.v.cells, j, ps[j]);
    assert ps[j := ps[j]] == ps;
    buf.ValidFrom();
  }

  method FillChain(chain: Chain, base: nat, chunk: seq<byte>, ghost p: seq<byte>)
    requires chain.Holds(p) && base == chain.misalign + chain.off && |chunk| <= chain.SpaceLen()
    modifies chain`buffer
    ensures chain.Holds(p) && |chain.buffer| == |old(chain.buffer)| && base + |chunk| <= |chain.buffer|
    ensures chain.buffer[base..base + |chunk|] == chunk
  {
    ghost var was := chain.buffer;
    chain.Write(base, chunk);
    assert chain.buffer[chain.misalign..base] == was[chain.misalign..base];
  }

  /** Write a chunk into the next extent, and leave the others as they are. */
  method FillNext(buf: Evbuffer, vecs: seq<Vec>, used: seq<Vec>, chunk: seq<byte>, ghost f: nat, ghost chunks: seq<seq<byte>>)
    requires buf.Valid() && Extents(buf.v.chains, f, vecs) && Extents(buf.v.chains, f, used) && Are(used, chunks)
    requires |used| < |vecs| && |chunk| <= vecs[|used|].len
    modifies buf.v.cells`buffer
    ensures buf.Valid() && Extents(buf.v.chains, f, vecs)
    ensures var used' := used + [Vec(vecs[|used|].chain, vecs[|used|].base, |chunk|)];
            Extents(buf.v.chains, f, used') && Are(used', chunks + [chunk])
    ensures forall c :: c in buf.v.cells ==> |c.buffer| == old(|c.buffer|)
  {
    hide Rep, Run, CellsOf, Chain.Holds, Flatten, LastWithData, Evbuffer.Valid;
    var vec := vecs[|used|];
    assert Extent(buf.v.chains, f + |used|, vec);
    OnlyOnce(buf, f + |used|);
    FillOne(buf, vec, chunk, f + |used|);
    ghost var used' := used + [Vec(vec.chain, vec.base, |chunk|)];
    forall m | 0 <= m < |used'| ensures Extent(buf.v.chains, f + m, used'[m]) {
      if m < |used| { assert Extent(buf.v.chains, f + m, used[m]); }
    }
  }

  /** Put `data` into the extents from the first on, and say how far each was used. */
  method Fill(buf: Evbuffer, vecs: seq<Vec>, data: seq<byte>, ghost f: nat) returns (used: seq<Vec>, ghost chunks: seq<seq<byte>>)
    requires buf.Valid() && Extents(buf.v.chains, f, vecs) && Total(vecs) >= |data|
    modifies buf.v.cells`buffer
    ensures buf.Valid() && |used| <= |vecs| && Extents(buf.v.chains, f, used)
    ensures Are(used, chunks) && Flatten(chunks) == data && (used == [] <==> data == [])
    ensures forall c :: c in buf.v.cells ==> |c.buffer| == old(|c.buffer|)
  {
    hide Rep, Run, CellsOf, Chain.Holds, Flatten, LastWithData, Evbuffer.Valid, Total, Extents, Are, Extent;
    ghost var cs := buf.v.chains;
    var pos: nat := 0;
    used, chunks := [], [];
    FlattenEnds([]);
    TotalEnds(vecs);
    NothingUsed(cs, f);
    while pos < |data|
      modifies buf.v.cells`buffer
      invariant buf.Valid() && |used| <= |vecs| && pos <= |data| && (pos == |data| || pos == Total(vecs[..|used|]))
      invariant if used == [] then pos == 0 else data != []
      invariant Extents(cs, f, vecs) && Extents(cs, f, used) && Are(used, chunks) && Flatten(chunks) == data[..pos]
      invariant forall c :: c in buf.v.cells ==> |c.buffer| == old(|c.buffer|)
      decreases |vecs| - |used|
    {
      TotalTake(vecs, |used|);
      var vec := vecs[|used|];
      var n := if vec.len <= |data| - pos then vec.len else |data| - pos;
      var chunk := data[pos..pos + n];
      FillNext(buf, vecs, used, chunk, f, chunks);
      FlattenConcat(chunks, [chunk]);
      FlattenOne(chunk);
      assert data[..pos] + chunk == data[..pos + n];
      used := used + [Vec(vec.chain, vec.base, n)];
      chunks := chunks + [chunk];
      pos := pos + n;
    }
    assert data[..pos] == data;
  }

  lemma NothingUsed(cs: seq<Chain>, f: nat)
    ensures Extents(cs, f, []) && Are([], [])
  {
  }

  lemma TotalEnds(vecs: seq<Vec>)
    ensures Total(vecs[..0]) == 0 && vecs[..|vecs|] == vecs
  {
  }

  lemma {:induction false} TotalTake(vecs: seq<Vec>, i: nat)
    requires i <= |vecs|
    ensures i < |vecs| ==> Total(vecs[..i + 1]) == Total(vecs[..i]) + vecs[i].len
    ensures i == |vecs| ==> Total(vecs[..i]) == Total(vecs)
  {
    if i < |vecs| { assert vecs[..i + 1][..i] == vecs[..i]; } else { assert vecs[..i] == vecs; }
  }

  /** Reserving room, writing `data` there and committing what was used appends exactly
      `data`, from any state that meets the documented invariant, unless just one extent was wanted
      and the first chain with room passed over: then the source refuses what it gave out. */
  method ReserveThenCommit(buf: Evbuffer, data: seq<byte>, nVecs: int) returns (ok: bool)
    requires buf.Valid()
    modifies buf, buf.v.cells
    ensures buf.Valid() && fresh(buf.v.cells - old(buf.v.cells))
    ensures ok <==> !old(buf.freezeEnd) && nVecs >= 1 && !(nVecs == 1 && data != [] && old(PassedOver(buf, |data|)))
    ensures buf.Content() == if ok then old(buf.Content()) + data else old(buf.Content())
    ensures buf.freezeStart == old(buf.freezeStart) && buf.freezeEnd == old(buf.freezeEnd)
  {
    hide Rep, Run, CellsOf, Chain.Holds, Flatten, LastWithData, Evbuffer.Valid, Total, Extents, PassedOver;
    var n, vecs;
    ghost var j;
    n, vecs, j := ReserveSpace(buf, |data|, nVecs);
    if n < 0 { return false; }
    ghost var f := FirstSpace(buf.v.chains, LastWithData(buf.v.parts));
    var used;
    ghost var chunks;
    used, chunks := Fill(buf, vecs, data, j);
    Committable(buf, used, j, f);
    ghost var written;
    ok, written := CommitSpace(buf, used, f);
    if ok { SameMem(used, chunks, written); }
  }

  /** Extents from chain `j` on are taken for data just when that is the first chain with room,
      or the last one. */
  lemma Committable(buf: Evbuffer, used: seq<Vec>, j: nat, f: nat)
    requires buf.Valid() && NearFirst(buf, j) && f == FirstSpace(buf.v.chains, LastWithData(buf.v.parts))
    requires Extents(buf.v.chains, j, used) && (|used| <= 1 || j == f)
    ensures !Skips(buf, used)
    ensures used == [] || AtLast(buf, used) || Extents(buf.v.chains, f, used) <==> used == [] || !MissesFirst(buf, j)
  {
    hide Rep, LastWithData;
    OnlyOnce(buf, |buf.v.chains| - 1);
    if used != [] {
      assert Extent(buf.v.chains, j + 0, used[0]);
      OnlyOnce(buf, j);
      if j != f { assert !Extent(buf.v.chains, f + 0, used[0]); }
    }
  }

  lemma SameMem(used: seq<Vec>, a: seq<seq<byte>>, b: seq<seq<byte>>)
    requires Are(used, a) && Are(used, b)
    ensures a == b
  {
  }
}
