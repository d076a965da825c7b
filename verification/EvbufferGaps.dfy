/** Buffers with empty chains in front of data or between, which reserving and committing
    make (buffer.c), and what goes wrong with them. */
module EvbufferGaps {
  import opened Common
  import opened EvChain
  import opened EvRun
  import opened Evbuffer
  import opened EvbufferMove
  import opened EvbufferSpace

  ghost predicate Roomy(cs: seq<Chain>)
    reads cs`buffer, cs`misalign, cs`off
  {
    forall i :: 0 <= i < |cs| ==> cs[i].misalign == 0 && cs[i].SpaceLen() >= LEAST_ROOM
  }

  /** A buffer without data whose chains all have room. */
  ghost predicate AllFree(buf: Evbuffer, n: nat)
    reads buf, buf.v.cells, buf.v.chains
  {
    && buf.Valid() && buf.Content() == [] && !buf.freezeStart && !buf.freezeEnd
    && |buf.v.chains| == |buf.v.parts| == n && Roomy(buf.v.chains)
  }

  /** Reserve more than there is room for. */
  method OneMoreFree(buf: Evbuffer, n: nat, memory: nat)
    requires AllFree(buf, n) && memory == Memory(buf.v.chains)
    modifies buf`first, buf`last, buf`lastWithDatap, buf`totalLen, buf`v
    modifies buf.v.cells`misalign, buf.v.cells`buffer, buf.v.cells`next
    ensures AllFree(buf, n + 1) && fresh(buf.v.cells - old(buf.v.cells)) && buf.last != null
    ensures memory + |buf.last.buffer| == Memory(buf.v.chains)
  {
    hide Rep, Run, CellsOf, Chain.Holds, LastWithData, Flatten, TightParts, Memory, Extents, Evbuffer.Valid;
    ghost var was, cells := buf.v.chains, buf.v.cells;
    forall i | 0 <= i < n ensures was[i] in cells { OnlyOnce(buf, i); }
    var k, vecs;
    ghost var f;
    k, vecs, f := ReserveSpace(buf, memory + 1, n + 2);
    assert buf.v.chains[..n] == was && buf.v.chains[..n + 1] == buf.v.chains;
    MemorySnoc(buf.v.chains, n);
  }

  /** Make a new buffer and reserve ever more in it: it gets `n` chains, all empty and all with
      room. */
  method EmptyChains(n: nat) returns (buf: Evbuffer)
    requires n > 0
    ensures fresh(buf) && fresh(buf.v.cells) && AllFree(buf, n)
    ensures forall i :: 0 <= i < n ==> buf.v.parts[i] == []
    ensures LastWithData(buf.v.parts) == FirstSpace(buf.v.chains, 0) == 0
    ensures buf.first == ChainAt(buf.v.chains, 0) && buf.last == LastOf(buf.v.chains) && buf.last in buf.v.cells
    ensures buf.lastWithDatap == AtFirst
  {
    hide Rep, Run, LastWithData, Evbuffer.Ready, Evbuffer.Valid, Flatten, TightParts, Memory, AllFree, FirstSpace, LastOf, ChainAt;
    buf := new Evbuffer();
    assert AllFree(buf, 0) && Memory(buf.v.chains) == 0 by { NothingYet(buf); }
    var memory := 0;
    for i := 0 to n
      invariant fresh(buf) && fresh(buf.v.cells) && AllFree(buf, i) && memory == Memory(buf.v.chains)
    {
      OneMoreFree(buf, i, memory);
      memory := memory + |buf.last.buffer|;
    }
    FreeChains(buf, n);
  }

  lemma FreeChains(buf: Evbuffer, n: nat)
    requires AllFree(buf, n) && n > 0
    ensures |buf.v.chains| == |buf.v.parts| == n && forall i :: 0 <= i < n ==> buf.v.parts[i] == []
    ensures LastWithData(buf.v.parts) == FirstSpace(buf.v.chains, 0) == 0
    ensures buf.first == ChainAt(buf.v.chains, 0) && buf.last == LastOf(buf.v.chains) && buf.last in buf.v.cells
    ensures buf.lastWithDatap == AtFirst
  {
    hide Rep, Run, Chain.Holds, LastWithData, Flatten;
    RepRun(buf.v, buf.first, buf.last, buf.lastWithDatap, buf.totalLen);
    NoParts(buf.v.parts);
    LastFacts(buf.v.parts);
  }

  lemma NothingYet(buf: Evbuffer)
    requires buf.Ready() && buf.v == View([], [], {}) && !buf.freezeStart && !buf.freezeEnd
    ensures AllFree(buf, 0) && Memory(buf.v.chains) == 0
  {
  }

  /** The start of the free space of each chain, `lens` bytes of it. */
  method Starts(buf: Evbuffer, lens: seq<nat>) returns (vecs: seq<Vec>)
    requires AllFree(buf, |lens|) && buf.first == ChainAt(buf.v.chains, 0)
    requires forall j :: 0 <= j < |lens| ==> lens[j] <= LEAST_ROOM
    ensures |vecs| == |lens| && Extents(buf.v.chains, 0, vecs)
    ensures forall j :: 0 <= j < |lens| ==> vecs[j].len == lens[j]
  {
    hide Rep, Run, CellsOf, Chain.Holds, Flatten, Evbuffer.Valid;
    var chain := buf.first;
    vecs := [];
    for j := 0 to |lens|
      invariant chain == ChainAt(buf.v.chains, j) && |vecs| == j
      invariant forall i {:trigger vecs[i]} :: 0 <= i < j ==> Extent(buf.v.chains, i, vecs[i]) && vecs[i].len == lens[i]
    {
      vecs := vecs + [Vec(chain, chain.misalign + chain.off, lens[j])];
      NextOf(buf, j);
      chain := chain.next;
    }
  }

  /** Commit to all of its chains at once: reserving and committing make buffers whose chains hold
      any given numbers of bytes, so long as a chain has the room, and meet the documented
      invariant. */
  method Built(lens: seq<nat>) returns (buf: Evbuffer)
    requires lens != [] && forall j :: 0 <= j < |lens| ==> lens[j] <= LEAST_ROOM
    ensures fresh(buf) && fresh(buf.v.cells) && buf.Valid() && !buf.freezeStart && !buf.freezeEnd
    ensures |buf.v.parts| == |lens| && forall j :: 0 <= j < |lens| ==> |buf.v.parts[j]| == lens[j]
  {
    hide Rep, Run, LastWithData, Evbuffer.Valid, Flatten, FirstSpace, Extents, AtLast, Skips, Committed, Are, Mem, LastOf, ChainAt;
    buf := EmptyChains(|lens|);
    var vecs := Starts(buf, lens);
    Committable(buf, vecs, 0, 0);
    OneAtLast(buf, vecs);
    ghost var was := buf.v.parts;
    var ok;
    ghost var data;
    ok, data := CommitSpace(buf, vecs, 0);
    Lengths(was, vecs, data, lens);
  }

  lemma Lengths(was: seq<seq<byte>>, vecs: seq<Vec>, data: seq<seq<byte>>, lens: seq<nat>)
    requires |was| == |vecs| == |lens| && Are(vecs, data) && forall j :: 0 <= j < |lens| ==> was[j] == []
    requires forall j :: 0 <= j < |lens| ==> vecs[j].len == lens[j]
    ensures forall j :: 0 <= j < |lens| ==> |Committed(was, 0, data)[j]| == lens[j]
  {
  }

  lemma OneAtLast(buf: Evbuffer, vecs: seq<Vec>)
    ensures AtLast(buf, vecs) && |vecs| == |buf.v.chains| ==> |buf.v.chains| == 1
  {
  }

  /** An extent in the first of empty chains. */
  lemma OneExtent(buf: Evbuffer, vecs: seq<Vec>)
    requires buf.Valid() && |buf.v.chains| > 1 && |vecs| == 1 && Extent(buf.v.chains, 0, vecs[0])
    ensures Extents(buf.v.chains, 0, vecs) && !AtLast(buf, vecs) && !Skips(buf, vecs)
    ensures buf.v.chains[0] in buf.v.cells
  {
    hide Rep, LastWithData;
    OnlyOnce(buf, 0);
  }

  // ----- what goes wrong -----

  /** With three empty chains, a byte committed to the last of them alone leaves the cached slot
      at the first. */
  method SkippedChain() returns (buf: Evbuffer)
    ensures |buf.v.chains| == 3 && |buf.Content()| == 1 && buf.lastWithDatap == AtFirst && !buf.Valid()
  {
    hide Rep, Run, CellsOf, Chain.Holds, LastWithData, Evbuffer.Valid, Flatten, TightParts, Extents;
    buf := EmptyChains(3);
    var vecs := [Vec(buf.last, buf.last.misalign + buf.last.off, 1)];
    var ok;
    ghost var data;
    ok, data := CommitSpace(buf, vecs, 0);
    assert data == [Mem(vecs[0])];
    FlattenOne(Mem(vecs[0]));
    assert |buf.Content()| == |Mem(vecs[0])| == 1;
  }

  /** Nor is the data of evbuffer_add in the right place for the cached slot when a chain that
      was reserved lies behind the data. */
  method AddedBehind() returns (buf: Evbuffer)
    ensures fresh(buf) && buf.Content() == [7] && !buf.Valid()
  {
    hide Rep, Run, CellsOf, Chain.Holds, LastWithData, Evbuffer.Valid, Flatten, TightParts;
    buf := EmptyChains(2);
    var ok, aborts := buf.Add([7]);
    assert buf.Content() == [] + [7] == [7];
  }

  /** Three chains, the first with data and room for one more byte, the others empty. */
  method OneLeft() returns (buf: Evbuffer)
    ensures fresh(buf) && fresh(buf.v.cells) && buf.Valid() && !buf.freezeEnd && PassedOver(buf, 2)
  {
    hide Rep, Run, CellsOf, Chain.Holds, LastWithData, Evbuffer.Valid, Flatten, TightParts, Extents, PassedOver, Skips, AtLast;
    buf := EmptyChains(3);
    OnlyOnce(buf, 0);
    PartAt(buf, 0);
    var chain := buf.first;
    var vecs := [Vec(chain, chain.misalign + chain.off, chain.SpaceLen() - 1)];
    OneExtent(buf, vecs);
    ghost var room := chain.SpaceLen();
    var ok;
    ghost var data;
    ok, data := CommitSpace(buf, vecs, 0);
    assert data == [Mem(vecs[0])] && |data[0]| == room - 1;
    PartAt(buf, 0);
    PartAt(buf, 1);
    OneByteLeft(buf);
  }

  lemma OneByteLeft(buf: Evbuffer)
    requires |buf.v.chains| == |buf.v.parts| == 3 && buf.v.parts[0] != [] && buf.v.parts[1] == buf.v.parts[2] == []
    requires |buf.v.chains[0].buffer| == buf.v.chains[0].off + 1 && buf.v.chains[0].SpaceLen() == 1
    requires buf.v.chains[1].SpaceLen() >= 2
    ensures PassedOver(buf, 2)
  {
    hide LastWithData;
    LastIs(buf.v.parts, 0);
  }

  /** Two bytes wanted in one extent, where the chain with the last data has room for one and two
      empty chains follow: what evbuffer_reserve_space gives out, evbuffer_commit_space refuses. */
  method ReservedInVain() returns (buf: Evbuffer, ok: bool)
    ensures buf.Valid() && !buf.freezeEnd && !ok
  {
    hide Rep, Run, Evbuffer.Valid, PassedOver;
    buf := OneLeft();
    var data: seq<byte> := [7, 7];
    assert |data| == 2;
    ok := ReserveThenCommit(buf, data, 1);
  }

  /** More bytes than such a chain has room for: an assertion of evbuffer_chain_insert fails. */
  method AddAborts() returns (aborts: bool)
    ensures aborts
  {
    hide Rep, Run, CellsOf, Chain.Holds, LastWithData, Evbuffer.Valid, Flatten, TightParts;
    var buf := EmptyChains(2);
    var n := |buf.last.buffer| + 1;
    var data: seq<byte> := seq(n, _ => 7);
    var ok;
    ok, aborts := buf.Add(data);
  }

  /** A chain with a byte put in place of an empty one behind a byte: evbuffer_chain_insert leaves
      the cached slot where it was. */
  method InsertedBehind() returns (buf: Evbuffer)
    ensures |buf.Content()| == 2 && buf.lastWithDatap == AtFirst && !buf.Valid()
  {
    hide Rep, Run, CellsOf, Chain.Holds, LastWithData, Flatten, Evbuffer.Slotted, Evbuffer.Valid;
    buf := Built([1, 0]);
    var chain := new Chain(1);
    chain.HoldsFits([]);
    var data: seq<byte> := [7];
    chain.Append(data, []);
    assert [] + data == data;
    OneThenEmpty(buf.v.parts);
    buf.ValidSlotted();
    var aborts;
    ghost var m;
    aborts, m := buf.ChainInsert(chain, data, 0);
    buf.SlottedRun(0);
  }

  lemma OneThenEmpty(parts: seq<seq<byte>>)
    requires |parts| == 2 && |parts[0]| == 1 && parts[1] == []
    ensures |Flatten(parts)| == 1 && LastWithData(parts) == 0 && InsertAt(parts) == 1
    ensures forall m, p :: Stops(parts, 0, m) ==> SlotAfter(0, m, 2, p) == 0
  {
    hide LastWithData, Flatten;
    LastIs(parts, 0);
    FlattenTake(parts, 0);
    FlattenTake(parts, 1);
    FlattenEnds(parts);
  }

  /** A byte of two that lie behind an empty chain: evbuffer_remove_buffer takes the cached slot
      of the source off the empty chain, and leaves that chain in its list. */
  method MovedBehindEmpty() returns (src: Evbuffer, dst: Evbuffer)
    ensures |src.Content()| == |dst.Content()| == 1 && dst.Valid() && !src.Valid()
  {
    hide Rep, Run, CellsOf, Chain.Holds, LastWithData, Flatten, Whole, Evbuffer.Linked, Alone, Solid;
    src := Built([0, 2]);
    dst := new Evbuffer();
    RepRun(dst.v, dst.first, dst.last, dst.lastWithDatap, dst.totalLen);
    EmptyAndTwo(src.v.parts);
    var n, aborts := RemoveBuffer(src, dst, 1);
  }

  lemma EmptyAndTwo(parts: seq<seq<byte>>)
    requires |parts| == 2 && parts[0] == [] && |parts[1]| == 2
    ensures |Flatten(parts)| == 2 && Alone(parts) && Whole(parts, 1) == 1 && Flatten(parts[..1]) == []
  {
    hide LastWithData, Flatten, Whole;
    LastIs(parts, 1);
    FlattenTake(parts, 0);
    FlattenTake(parts, 1);
    FlattenEnds(parts);
    WholeIs(parts, 1, 1);
  }

  lemma EmptyBetween(parts: seq<seq<byte>>)
    requires |parts| == 4 && |parts[0]| == |parts[2]| == |parts[3]| == 1 && parts[1] == []
    ensures |Flatten(parts)| == 3 && !Alone(parts) && Whole(parts, 2) == 3
    ensures |Flatten(parts[..3])| == 2 && LastWithData(parts[..3]) == 2 && !Solid(parts[..3], 1, 3)
  {
    hide LastWithData, Flatten, Whole;
    FlattenTake(parts, 0);
    FlattenTake(parts, 1);
    FlattenTake(parts, 2);
    FlattenTake(parts, 3);
    FlattenEnds(parts);
    WholeIs(parts, 2, 3);
    LastIs(parts, 3);
    LastIs(parts[..3], 2);
    assert parts[..3][1] == [];
  }

  /** Chains of 1, 0, 1 and 1 bytes, of which two bytes are moved: the cached slot of the
      destination stops before the empty chain that is handed over. */
  method MovedWithEmpty() returns (src: Evbuffer, dst: Evbuffer)
    ensures |src.Content()| == 1 && |dst.Content()| == 2 && src.Valid() && !dst.Valid()
  {
    hide Rep, Run, CellsOf, Chain.Holds, LastWithData, Flatten, Whole, Evbuffer.Valid, Evbuffer.Linked, Alone, Solid;
    src := Built([1, 0, 1, 1]);
    dst := new Evbuffer();
    EmptyBetween(src.v.parts);
    var n, aborts := RemoveBuffer(src, dst, 2);
  }
}
