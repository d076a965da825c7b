/** Moving data between evbuffers by handing over chains (buffer.c). */
module EvbufferMove {
  import opened Common
  import opened EvChain
  import opened EvRun
  import opened Evbuffer

  /** No chain belongs to both. */
  ghost predicate Apart(a: Evbuffer, b: Evbuffer)
    reads a`v, b`v
  {
    a == b || a.v.cells !! b.v.cells
  }

  lemma JoinParts(a: seq<seq<byte>>, b: seq<seq<byte>>)
    requires Flatten(a) != [] && Flatten(b) != []
    ensures Flatten(a + b) == Flatten(a) + Flatten(b) && a != [] && b != []
    ensures LastWithData(a + b) == |a| + LastWithData(b) && LastWithData(a) < |a| && LastWithData(b) < |b|
    ensures TightParts(a) && TightParts(b) ==> TightParts(a + b)
  {
    hide Flatten, LastWithData, TightParts;
    FlattenConcat(a, b);
    DataEnds(a);
    DataEnds(b);
    JoinLast(a, b, LastWithData(b));
    if TightParts(a) && TightParts(b) { JoinTight(a, b); }
  }

  lemma JoinLast(a: seq<seq<byte>>, b: seq<seq<byte>>, k: nat)
    requires k < |b| && b[k] != [] && forall i :: k < i < |b| ==> b[i] == []
    ensures LastWithData(a + b) == |a| + k
  {
    hide LastWithData;
    LastIs(a + b, |a| + k);
  }

  lemma JoinTight(a: seq<seq<byte>>, b: seq<seq<byte>>)
    requires TightParts(a) && TightParts(b) && Flatten(a) != [] && Flatten(b) != []
    ensures TightParts(a + b)
  {
    hide Flatten;
    NonEmptyParts(a);
    NonEmptyParts(b);
  }

  /** Where a slot of the second list is in both. */
  lemma JoinSlot(a: seq<Chain>, b: seq<Chain>, k: nat)
    requires a != [] && k <= |b|
    ensures SlotOf(a + b, |a| + k) == if k == 0 then After(a[|a| - 1]) else SlotOf(b, k)
    ensures LastOf(a + b) == if b == [] then LastOf(a) else LastOf(b)
    ensures ChainAt(a + b, 0) == a[0]
  {
  }

  /** COPY_CHAIN */
  method CopyChain(dst: Evbuffer, src: Evbuffer)
    requires dst != src && src.Valid()
    modifies dst`first, dst`last, dst`lastWithDatap, dst`totalLen, dst`v
    ensures dst.Valid() && dst.v == src.v
  {
    hide Rep, Run, Flatten, LastWithData, TightParts;
    RepRun(src.v, src.first, src.last, src.lastWithDatap, src.totalLen);
    dst.first := src.first;
    dst.lastWithDatap := if src.lastWithDatap == AtFirst then AtFirst else src.lastWithDatap;
    dst.last := src.last;
    dst.totalLen := src.totalLen;
    dst.v := src.v;
    dst.ValidFrom();
  }

  /** APPEND_CHAIN */
  method AppendChain(dst: Evbuffer, src: Evbuffer)
    requires dst != src && dst.Valid() && src.Valid() && Apart(dst, src)
    requires dst.Content() != [] && src.Content() != []
    modifies dst`last, dst`lastWithDatap, dst`totalLen, dst`v, dst.v.cells`next
    ensures dst.Valid() && dst.Content() == old(dst.Content()) + old(src.Content())
    ensures old(TightParts(dst.v.parts) && TightParts(src.v.parts)) ==> dst.Ready()
    ensures dst.v.cells == old(dst.v.cells) + src.v.cells
  {
    hide Rep, Run, Chain.Holds, Flatten, LastWithData, TightParts, SlotOf;
    RepRun(dst.v, dst.first, dst.last, dst.lastWithDatap, dst.totalLen);
    RepRun(src.v, src.first, src.last, src.lastWithDatap, src.totalLen);
    JoinParts(dst.v.parts, src.v.parts);
    ghost var v' := View(dst.v.chains + src.v.chains, dst.v.parts + src.v.parts, dst.v.cells + src.v.cells);
    RunAt(dst.v.chains, dst.v.parts, null, dst.v.cells, |dst.v.chains| - 1);
    var dlast := dst.last;
    Relink(dst.v.chains, dst.v.parts, dlast, src.first, dst.v.cells);
    RunJoin(dst.v.chains, dst.v.parts, dst.v.cells, src.v.chains, src.v.parts, src.v.cells, null);
    JoinSlot(dst.v.chains, src.v.chains, LastWithData(src.v.parts));
    SlotCases(src.v.chains, LastWithData(src.v.parts));
    dst.lastWithDatap := if src.lastWithDatap == AtFirst then After(dlast) else src.lastWithDatap;
    dst.last := src.last;
    dst.totalLen := dst.totalLen + src.totalLen;
    dst.v := v';
    dst.ValidFrom();
  }

  lemma SlotCases(cs: seq<Chain>, k: nat)
    requires k <= |cs|
    ensures SlotOf(cs, k) == AtFirst <==> k == 0
  {
  }

  /** PREPEND_CHAIN */
  method PrependChain(dst: Evbuffer, src: Evbuffer)
    requires dst != src && dst.Valid() && src.Valid() && Apart(dst, src)
    requires dst.Content() != [] && src.Content() != []
    modifies dst`first, dst`lastWithDatap, dst`totalLen, dst`v, src.v.cells`next
    ensures dst.Valid() && dst.Content() == old(src.Content()) + old(dst.Content())
    ensures old(TightParts(dst.v.parts) && TightParts(src.v.parts)) ==> dst.Ready()
    ensures dst.v.cells == src.v.cells + old(dst.v.cells)
  {
    hide Rep, Run, Chain.Holds, Flatten, LastWithData, TightParts, SlotOf;
    RepRun(dst.v, dst.first, dst.last, dst.lastWithDatap, dst.totalLen);
    RepRun(src.v, src.first, src.last, src.lastWithDatap, src.totalLen);
    JoinParts(src.v.parts, dst.v.parts);
    ghost var v', k := View(src.v.chains + dst.v.chains, src.v.parts + dst.v.parts, src.v.cells + dst.v.cells), LastWithData(dst.v.parts);
    RunAt(src.v.chains, src.v.parts, null, src.v.cells, |src.v.chains| - 1);
    CachedLeads(dst.v, k);
    var slast, sslot := src.last, src.lastWithDatap;
    Relink(src.v.chains, src.v.parts, slast, dst.first, src.v.cells);
    RunJoin(src.v.chains, src.v.parts, src.v.cells, dst.v.chains, dst.v.parts, dst.v.cells, null);
    JoinSlot(src.v.chains, dst.v.chains, k);
    SlotCases(dst.v.chains, k);
    dst.first := src.first;
    dst.totalLen := dst.totalLen + src.totalLen;
    dst.lastWithDatap := if dst.Deref(dst.lastWithDatap) == null then sslot
    else if dst.lastWithDatap == AtFirst then After(slast) else dst.lastWithDatap;
    dst.v := v';
    dst.ValidFrom();
  }

  /** The slot of the `k`th chain leads there. */
  lemma CachedLeads(v: View, k: nat)
    requires Run(v.chains, v.parts, null, v.cells) && k < |v.chains|
    ensures SlotOf(v.chains, k).After? ==> SlotOf(v.chains, k).c in v.cells && SlotOf(v.chains, k).c.next == v.chains[k]
  {
    hide Run;
    if k > 0 { RunAt(v.chains, v.parts, null, v.cells, k - 1); }
  }

  /** evbuffer_add_buffer: move all of `inbuf` to the end of `outbuf`. */
  method AddBuffer(outbuf: Evbuffer, inbuf: Evbuffer) returns (ok: bool)
    requires outbuf.Valid() && inbuf.Valid() && Apart(outbuf, inbuf)
    modifies outbuf, inbuf, outbuf.v.cells`next
    ensures outbuf.Valid() && inbuf.Valid() && Apart(outbuf, inbuf)
    ensures old(TightParts(outbuf.v.parts) && TightParts(inbuf.v.parts)) ==> outbuf.Ready() && inbuf.Ready()
    ensures outbuf.v.cells + inbuf.v.cells <= old(outbuf.v.cells + inbuf.v.cells)
    ensures ok == (old(inbuf.Content()) == [] || outbuf == inbuf || !(old(outbuf.freezeEnd) || old(inbuf.freezeStart)))
    ensures if outbuf == inbuf || !ok then
              outbuf.Content() == old(outbuf.Content()) && inbuf.Content() == old(inbuf.Content())
            else
              outbuf.Content() == old(outbuf.Content()) + old(inbuf.Content()) && inbuf.Content() == []
    ensures outbuf.freezeStart == old(outbuf.freezeStart) && outbuf.freezeEnd == old(outbuf.freezeEnd)
    ensures inbuf.freezeStart == old(inbuf.freezeStart) && inbuf.freezeEnd == old(inbuf.freezeEnd)
  {
    hide Rep, Run, Flatten, LastWithData, TightParts;
    RepRun(outbuf.v, outbuf.first, outbuf.last, outbuf.lastWithDatap, outbuf.totalLen);
    RepRun(inbuf.v, inbuf.first, inbuf.last, inbuf.lastWithDatap, inbuf.totalLen);
    if inbuf.totalLen == 0 || outbuf == inbuf { return true; }
    if outbuf.freezeEnd || inbuf.freezeStart { return false; }
    if outbuf.totalLen == 0 {
      CopyChain(outbuf, inbuf);
    } else {
      AppendChain(outbuf, inbuf);
    }
    inbuf.ZeroChain();
    ok := true;
  }

  /** evbuffer_prepend_buffer: move all of `inbuf` to the front of `outbuf`. */
  method PrependBuffer(outbuf: Evbuffer, inbuf: Evbuffer) returns (ok: bool)
    requires outbuf.Valid() && inbuf.Valid() && Apart(outbuf, inbuf)
    modifies outbuf, inbuf, inbuf.v.cells`next
    ensures outbuf.Valid() && inbuf.Valid() && Apart(outbuf, inbuf)
    ensures old(TightParts(outbuf.v.parts) && TightParts(inbuf.v.parts)) ==> outbuf.Ready() && inbuf.Ready()
    ensures outbuf.v.cells + inbuf.v.cells <= old(outbuf.v.cells + inbuf.v.cells)
    ensures ok == (old(inbuf.Content()) == [] || outbuf == inbuf || !(old(outbuf.freezeStart) || old(inbuf.freezeStart)))
    ensures if outbuf == inbuf || !ok then
              outbuf.Content() == old(outbuf.Content()) && inbuf.Content() == old(inbuf.Content())
            else
              outbuf.Content() == old(inbuf.Content()) + old(outbuf.Content()) && inbuf.Content() == []
    ensures outbuf.freezeStart == old(outbuf.freezeStart) && outbuf.freezeEnd == old(outbuf.freezeEnd)
    ensures inbuf.freezeStart == old(inbuf.freezeStart) && inbuf.freezeEnd == old(inbuf.freezeEnd)
  {
    hide Rep, Run, Flatten, LastWithData, TightParts;
    RepRun(outbuf.v, outbuf.first, outbuf.last, outbuf.lastWithDatap, outbuf.totalLen);
    RepRun(inbuf.v, inbuf.first, inbuf.last, inbuf.lastWithDatap, inbuf.totalLen);
    if inbuf.totalLen == 0 || inbuf == outbuf { return true; }
    if outbuf.freezeStart || inbuf.freezeStart { return false; }
    if outbuf.totalLen == 0 {
      CopyChain(outbuf, inbuf);
    } else {
      PrependChain(outbuf, inbuf);
    }
    inbuf.ZeroChain();
    ok := true;
  }

  // ----- moving a prefix -----

  /** How many chains `n` bytes cover whole, from the front. */
  function Whole(parts: seq<seq<byte>>, n: nat): (i: nat)
    ensures i <= |parts| && |Flatten(parts[..i])| <= n
  {
    if parts == [] || |parts[0]| > n then 0
    else
      var i' := Whole(parts[1..], n - |parts[0]|);
      assert parts[..1 + i'][1..] == parts[1..][..i'];
      1 + i'
  }

  lemma {:induction false} WholeIs(parts: seq<seq<byte>>, n: nat, i: nat)
    requires i < |parts| && |Flatten(parts[..i])| <= n < |Flatten(parts[..i])| + |parts[i]|
    ensures Whole(parts, n) == i
  {
    if i > 0 {
      assert parts[..i][1..] == parts[1..][..i - 1];
      WholeIs(parts[1..], n - |parts[0]|, i - 1);
    }
  }

  /** All data is in one chain, with empty ones in front of it. */
  ghost predicate Alone(parts: seq<seq<byte>>)
  {
    LastWithData(parts) > 0 && Flatten(parts[..LastWithData(parts)]) == []
  }

  /** The chains that evbuffer_remove_buffer hands over for `n` bytes. */
  ghost function Handed(src: Evbuffer, n: nat): (b: seq<seq<byte>>)
    reads src
    ensures |b| <= |src.v.parts| && |Flatten(b)| <= n
  {
    src.v.parts[..Whole(src.v.parts, n)]
  }

  /** The first of the chains handed over that must not be empty: the one behind the place
      where the cached slot of `dst` starts. */
  ghost function Start(dst: Evbuffer): nat
    reads dst
  {
    if dst.Content() == [] then 1 else 0
  }

  /** Chains `b`, the last of which is `c`, are handed over and `left` more bytes, which `c`
      cannot take, are copied; the slot stops before an empty one of them that has more data
      behind it. */
  ghost predicate HandFails(c: Chain, b: seq<seq<byte>>, e: nat, left: nat)
    reads c`buffer, c`misalign, c`off
  {
    left > 0 && b != [] && !c.Takes(left) && !Solid(b, e, if c.SpaceLen() > 0 then |b| - 1 else LastWithData(b) + 1)
  }

  /** The slot gets to the last chain with data. */
  ghost predicate HandKeeps(c: Chain, b: seq<seq<byte>>, e: nat, left: nat)
    reads c`buffer, c`misalign, c`off
  {
    if left == 0 then Solid(b, e, LastWithData(b) + 1)
    else (c.SpaceLen() > 0 && !c.Takes(left)) || Solid(b, e, |b|)
  }

  /** Whether moving `n` bytes, not all there are, runs into the assertion of evbuffer_add. */
  ghost predicate MoveFails(src: Evbuffer, dst: Evbuffer, n: nat)
    requires |src.v.chains| == |src.v.parts|
    reads src, dst, src.v.chains, if dst.last != null then {dst.last} else {}
  {
    var b := Handed(src, n);
    if Flatten(b) == [] then dst.AddFails(LastWithData(dst.v.parts), n)
    else HandFails(src.v.chains[|b| - 1], b, Start(dst), n - |Flatten(b)|)
  }

  /** Whether the cached slot of `dst` is right afterwards. */
  ghost predicate MoveKeeps(src: Evbuffer, dst: Evbuffer, n: nat)
    requires |src.v.chains| == |src.v.parts|
    reads src, dst, src.v.chains, if dst.last != null then {dst.last} else {}
  {
    var b := Handed(src, n);
    if Flatten(b) == [] then dst.AddKeeps(LastWithData(dst.v.parts), n)
    else HandKeeps(src.v.chains[|b| - 1], b, Start(dst), n - |Flatten(b)|)
  }

  /** Walk over the chains of `src` that fit into `datlen` whole, keeping the cached
      slot off them. */
  method TakeChains(src: Evbuffer, datlen: nat) returns (chain: Chain, previous: Chain, nread: nat, left: nat, ghost i: nat)
    requires src.Valid() && datlen < src.totalLen
    modifies src`lastWithDatap
    ensures |src.v.chains| == |src.v.parts| && i == Whole(src.v.parts, datlen) <= LastWithData(src.v.parts) < |src.v.parts|
    ensures chain == src.v.chains[i] && chain in src.v.cells && (i > 0 ==> previous == src.v.chains[i - 1])
    ensures Run(src.v.chains, src.v.parts, null, src.v.cells)
    ensures |Flatten(src.v.parts[..i])| == nread && nread + left == datlen && left < |src.v.parts[i]|
    ensures src.lastWithDatap == SlotOf(src.v.chains, if i == LastWithData(src.v.parts) then 0 else LastWithData(src.v.parts))
  {
    hide Rep, Run, Chain.Holds, Flatten, LastWithData, TightParts, Whole;
    RepRun(src.v, src.first, src.last, src.lastWithDatap, src.totalLen);
    ghost var k := LastWithData(src.v.parts);
    DataEnds(src.v.parts);
    FlattenEnds(src.v.parts);
    RunAt(src.v.chains, src.v.parts, null, src.v.cells, 0);
    i, nread, left, chain, previous := 0, 0, datlen, src.first, src.first;
    while chain.off <= left
      modifies src`lastWithDatap
      invariant i <= k < |src.v.chains| && chain == src.v.chains[i] && chain in src.v.cells
      invariant i > 0 ==> previous == src.v.chains[i - 1]
      invariant |Flatten(src.v.parts[..i])| == nread && nread + left == datlen
      invariant src.lastWithDatap == SlotOf(src.v.chains, if i == k then 0 else k)
      invariant chain.off == |src.v.parts[i]| && chain.next == NextIn(src.v.chains, i, null)
      decreases k - i
    {
      FlattenTake(src.v.parts, i);
      assert i < k;
      NotTheLast(src, chain, i, k);
      nread := nread + chain.off;
      left := left - chain.off;
      previous := chain;
      src.lastWithDatap := if src.lastWithDatap == After(chain) then AtFirst else src.lastWithDatap;
      chain := chain.next;
      i := i + 1;
    }
    WholeIs(src.v.parts, datlen, i);
  }

  /** A chain before the one with the last data is not what the cached slot leads to, as the
      source asserts, and just one chain holds the slot. */
  lemma NotTheLast(src: Evbuffer, chain: Chain, i: nat, k: nat)
    requires Run(src.v.chains, src.v.parts, null, src.v.cells) && i < k < |src.v.chains| == |src.v.parts|
    requires chain == src.v.chains[i]
    ensures src.v.chains[k] != chain && (SlotOf(src.v.chains, k) == After(chain) <==> i + 1 == k)
    ensures src.v.chains[i + 1] in src.v.cells && src.v.chains[i + 1].off == |src.v.parts[i + 1]|
    ensures src.v.chains[i + 1].next == NextIn(src.v.chains, i + 1, null)
  {
    hide Chain.Holds;
    RunAt(src.v.chains, src.v.parts, null, src.v.cells, i);
    RunAt(src.v.chains, src.v.parts, null, src.v.cells, i + 1);
  }

  /** From chain `k` on there is data up to chain `k'`, and not in the one behind it. */
  ghost predicate Advanced(parts: seq<seq<byte>>, k: nat, k': nat)
  {
    k <= k' < |parts| && Solid(parts, k + 1, k' + 1) && (k' + 1 == |parts| || parts[k' + 1] == [])
  }

  /** Move the cached slot forward over chains with data (advance_last_with_data). */
  method AdvanceLastWithData(buf: Evbuffer, ghost k: nat) returns (ghost k': nat)
    requires Run(buf.v.chains, buf.v.parts, null, buf.v.cells) && buf.first == ChainAt(buf.v.chains, 0)
    requires k <= |buf.v.chains| == |buf.v.parts| && buf.lastWithDatap == SlotOf(buf.v.chains, k)
    modifies buf`lastWithDatap
    ensures k <= k' <= |buf.v.chains| && buf.lastWithDatap == SlotOf(buf.v.chains, k')
    ensures if k == |buf.v.chains| then k' == k else Advanced(buf.v.parts, k, k')
  {
    hide Run, Chain.Holds;
    ghost var cs, ps := buf.v.chains, buf.v.parts;
    k' := k;
    if k > 0 { RunAt(cs, ps, null, buf.v.cells, k - 1); }
    var at := buf.Deref(buf.lastWithDatap);
    if at == null { return; }
    RunAt(cs, ps, null, buf.v.cells, k);
    if k + 1 < |cs| { RunAt(cs, ps, null, buf.v.cells, k + 1); }
    while at.next != null && at.next.off != 0
      modifies buf`lastWithDatap
      invariant k <= k' < |cs| && buf.lastWithDatap == SlotOf(cs, k')
      invariant at == cs[k'] && at.next == NextIn(cs, k', null)
      invariant k' + 1 < |cs| ==> cs[k' + 1].off == |ps[k' + 1]|
      invariant forall i :: k < i <= k' && i < |cs| ==> ps[i] != []
      decreases |cs| - k'
    {
      buf.lastWithDatap := After(at);
      at := at.next;
      k' := k' + 1;
      RunAt(cs, ps, null, buf.v.cells, k');
      if k' + 1 < |cs| { RunAt(cs, ps, null, buf.v.cells, k' + 1); }
    }
  }

  lemma AdvancedIn(parts: seq<seq<byte>>, k: nat, k': nat)
    requires Advanced(parts, k, k')
    ensures k' < |parts| && (k' + 1 < |parts| ==> parts[k' + 1] == [])
  {
  }

  /** Where the cached slot of a buffer starts when chains come behind the first `m`. */
  function From(m: nat): nat
  {
    if m > 0 then m - 1 else 0
  }

  /** How far the slot has got in terms of the chains `b` put behind `a`. */
  lemma JoinReach(a: seq<seq<byte>>, b: seq<seq<byte>>, k: nat, x: nat)
    requires Advanced(a + b, From(|a|), k) && x <= |b|
    ensures Solid(b, if a == [] then 1 else 0, x) <==> k + 1 >= |a| + x
  {
    var e := if a == [] then 1 else 0;
    if k + 1 < |a| + x {
      assert (a + b)[k + 1] == b[k + 1 - |a|] == [];
    } else {
      forall i | e <= i < x ensures b[i] != [] {
        assert b[i] == (a + b)[|a| + i];
      }
    }
  }

  /** The chain that the slot leads to is empty only at the start of a list without data in
      its first two chains. */
  lemma JoinHere(a: seq<seq<byte>>, b: seq<seq<byte>>, k: nat)
    requires Advanced(a + b, From(|a|), k) && (a != [] ==> a[|a| - 1] != [])
    ensures (a + b)[k] == [] ==> a == [] && k == 0 && b[0] == [] && (|b| > 1 ==> b[1] == [])
  {
    if k > From(|a|) {
      assert (a + b)[k] != [];
    } else if a != [] {
      assert (a + b)[k] == a[|a| - 1];
    } else {
      assert a + b == b;
    }
  }

  /** What the last chains `b` of `parts` mean for the slot that has been moved on to `k`. */
  ghost predicate Joined(parts: seq<seq<byte>>, b: seq<seq<byte>>, e: nat, k: nat)
  {
    b != [] && |b| <= |parts| && k < |parts|
    && var t, T, L := LastWithData(b), LastWithData(parts), |parts| - 1;
    && Flatten(parts) != []
    && (Solid(parts, k, L) <==> Solid(b, e, |b| - 1))
    && (Solid(parts, k, T + 1) <==> Solid(b, e, t + 1))
    && (k == T <==> Solid(b, e, t + 1))
    && (k == L <==> Solid(b, e, |b|))
    && (Solid(b, e, t + 1) ==> (Solid(parts, k, L + 1) || parts[k] == [] <==> Solid(b, e, |b|)))
  }

  lemma JoinCases(a: seq<seq<byte>>, b: seq<seq<byte>>, k: nat)
    requires Flatten(b) != [] && (a != [] ==> a[|a| - 1] != []) && Advanced(a + b, From(|a|), k)
    ensures Joined(a + b, b, if a == [] then 1 else 0, k)
  {
    hide Flatten, LastWithData, Solid, Advanced;
    var t, L := LastWithData(b), |a + b| - 1;
    DataEnds(b);
    FlattenConcat(a, b);
    LastFacts(b);
    JoinLast(a, b, t);
    JoinReach(a, b, k, |b| - 1);
    JoinReach(a, b, k, t + 1);
    JoinReach(a, b, k, |b|);
    JoinHere(a, b, k);
    AdvancedIn(a + b, From(|a|), k);
    SolidHere(a + b, k, L);
    SolidHere(a + b, k, |a| + t + 1);
    SolidHere(a + b, k, L + 1);
    assert (a + b)[|a| + t] == b[t] != [];
    NotBeyond(a + b, From(|a|), k, |a| + t);
  }

  lemma SolidHere(parts: seq<seq<byte>>, k: nat, x: nat)
    requires k < |parts| && x <= |parts| && (k + 1 < |parts| ==> parts[k + 1] == [])
    ensures Solid(parts, k, x) <==> x <= k || (x == k + 1 && parts[k] != [])
  {
  }

  lemma NotBeyond(parts: seq<seq<byte>>, k0: nat, k: nat, t: nat)
    requires Advanced(parts, k0, k) && k0 <= t + 1 && t < |parts| && parts[t] != []
    requires forall i :: t < i < |parts| ==> parts[i] == []
    ensures k <= t || k == k0
  {
    if k > k0 { assert parts[k] != []; }
  }

  /** Point the slot `chp`, behind the chains `a` of `dst`, at the chains `b`, and cut
      these off after the last of them. */
  method LinkRun(dst: Evbuffer, chp: Slot, head: Chain, previous: Chain, ghost a: seq<Chain>, ghost pa: seq<seq<byte>>,
                 ghost b: seq<Chain>, ghost pb: seq<seq<byte>>)
    requires chp == SlotOf(a, |a|) && |pa| == |a| && b != [] && head == b[0] && previous == b[|b| - 1]
    requires a != [] ==> dst.first == a[0] && Run(a, pa, a[|a| - 1].next, CellsOf(a))
    requires Run(b, pb, previous.next, CellsOf(b)) && CellsOf(a) !! CellsOf(b)
    modifies dst`first, CellsOf(a)`next, CellsOf(b)`next
    ensures Run(a + b, pa + pb, null, CellsOf(a) + CellsOf(b))
    ensures dst.first == if a == [] then head else a[0]
  {
    hide Run, Chain.Holds;
    if chp.AtFirst? {
      dst.first := head;
      RunEmpty(head, CellsOf(a));
    } else {
      Relink(a, pa, chp.c, head, CellsOf(a));
    }
    Relink(b, pb, previous, null, CellsOf(b));
    RunJoin(a, pa, CellsOf(a), b, pb, CellsOf(b), null);
  }

  /** The slot behind the data, where trailing empty chains are freed; they are all empty, as
      the source asserts (evbuffer_free_trailing_empty_chains). */
  method FreeTail(dst: Evbuffer) returns (chp: Slot)
    requires dst.Valid()
    ensures |dst.v.parts| == |dst.v.chains| && chp == SlotOf(dst.v.chains, InsertAt(dst.v.parts))
  {
    hide Rep, Run, Chain.Holds, Flatten, LastWithData, InsertAt, EmptyFrom, Evbuffer.Slotted;
    ghost var m;
    dst.ValidSlotted();
    dst.SlottedRun(LastWithData(dst.v.parts));
    chp, m := dst.FindTail(LastWithData(dst.v.parts));
    StopsThere(dst.v.parts, m);
    var victim := dst.Deref(chp);
    if victim != null {
      var all := dst.ChainsAllEmpty(victim, m);
      assert all;
    }
  }

  /** Hand the first `i` chains of `src` over to `dst`. */
  method SpliceChains(src: Evbuffer, dst: Evbuffer, chain: Chain, previous: Chain, nread: nat, ghost i: nat)
    returns (ghost k: nat)
    requires src != dst && dst.Valid() && dst.v.cells !! src.v.cells
    requires 0 < i < |src.v.chains| == |src.v.parts| && chain == src.v.chains[i] && previous == src.v.chains[i - 1]
    requires Run(src.v.chains, src.v.parts, null, src.v.cells)
    requires src.first == src.v.chains[0] && nread == |Flatten(src.v.parts[..i])|
    modifies src`first, src`v, dst`first, dst`last, dst`lastWithDatap, dst`totalLen, dst`v
    modifies src.v.cells`next, dst.v.cells`next
    ensures dst.Slotted(k) && dst.last == previous && dst.Content() == old(dst.Content()) + Flatten(old(src.v.parts)[..i])
    ensures dst.v.parts == old(dst.v.parts)[..InsertAt(old(dst.v.parts))] + old(src.v.parts)[..i]
    ensures Advanced(dst.v.parts, From(InsertAt(old(dst.v.parts))), k)
    ensures src.v.chains == old(src.v.chains)[i..] && src.v.parts == old(src.v.parts)[i..] && src.v.cells <= old(src.v.cells)
    ensures src.first == chain && Run(src.v.chains, src.v.parts, null, src.v.cells)
    ensures dst.v.cells <= old(dst.v.cells) + old(src.v.cells) && dst.v.cells !! src.v.cells
  {
    hide Rep, Run, CellsOf, Chain.Holds, Flatten, LastWithData, InsertAt, Advanced;
    hide SlotOf, LastOf, ChainAt, Evbuffer.Slotted, Evbuffer.Linked;
    RepRun(dst.v, dst.first, dst.last, dst.lastWithDatap, dst.totalLen);
    ghost var a, pa, b, pb, c, pc := SplitBoth(dst.v, src.v, i);
    JoinedEnds(dst.v.chains, a, b);
    var chp := FreeTail(dst);
    LinkRun(dst, chp, src.first, previous, a, pa, b, pb);
    dst.last := previous;
    src.first := chain;
    src.v := View(c, pc, CellsOf(c));
    dst.v := View(a + b, pa + pb, CellsOf(a) + CellsOf(b));
    k := AdvanceLastWithData(dst, From(|a|));
    assert k < |dst.v.parts| by { AdvancedIn(dst.v.parts, From(|a|), k); }
    dst.totalLen := dst.totalLen + nread;
    dst.SlottedFrom(k);
  }

  lemma JoinedEnds(w: seq<Chain>, a: seq<Chain>, b: seq<Chain>)
    requires b != [] && a <= w
    ensures ChainAt(a + b, 0) == (if a == [] then b[0] else a[0]) && LastOf(a + b) == b[|b| - 1]
    ensures ChainAt(w, 0) == if w == [] then null else w[0]
    ensures SlotOf(w, |a|) == SlotOf(a, |a|)
    ensures SlotOf(w, From(|a|)) == SlotOf(a + b, From(|a|))
  {
  }

  lemma SplitBoth(w: View, v: View, i: nat)
    returns (a: seq<Chain>, pa: seq<seq<byte>>, b: seq<Chain>, pb: seq<seq<byte>>, c: seq<Chain>, pc: seq<seq<byte>>)
    requires Run(w.chains, w.parts, null, w.cells) && Run(v.chains, v.parts, null, v.cells) && v.cells !! w.cells
    requires |w.chains| == |w.parts| && 0 < i < |v.chains| == |v.parts|
    ensures a == w.chains[..InsertAt(w.parts)] && pa == w.parts[..InsertAt(w.parts)] && |pa| == |a| == InsertAt(w.parts)
    ensures a != [] ==> a[0] == w.chains[0] && Run(a, pa, a[|a| - 1].next, CellsOf(a))
    ensures pb == v.parts[..i] && |b| == |pb| == i && b[0] == v.chains[0] && b[|b| - 1] == v.chains[i - 1]
    ensures Run(b, pb, b[|b| - 1].next, CellsOf(b))
    ensures c == v.chains[i..] && pc == v.parts[i..] && Run(c, pc, null, CellsOf(c))
    ensures CellsOf(a) <= w.cells && CellsOf(b) <= v.cells && CellsOf(c) <= v.cells && CellsOf(b) !! CellsOf(c)
    ensures Flatten(pa + pb) == Flatten(w.parts) + Flatten(v.parts[..i]) && LastWithData(w.parts) == From(|a|)
  {
    hide Run, CellsOf, Chain.Holds, Flatten, LastWithData, InsertAt;
    var m := InsertAt(w.parts);
    a, pa, b, pb, c, pc := w.chains[..m], w.parts[..m], v.chains[..i], v.parts[..i], v.chains[i..], v.parts[i..];
    InsertFacts(w.parts);
    TailEmpty(w.parts, m);
    FlattenConcat(pa, pb);
    RunSplit(v.chains, v.parts, null, v.cells, i);
    RunSplit(w.chains, w.parts, null, w.cells, m);
    if m > 0 { RunAt(a, pa, HeadOr(w.chains[m..], null), CellsOf(a), m - 1); }
    RunAt(b, pb, HeadOr(c, null), CellsOf(b), i - 1);
  }

  /** Fewer bytes than there are, from one buffer to another, and neither frozen. */
  ghost predicate Partial(src: Evbuffer, dst: Evbuffer, n: nat)
    reads src, dst
  {
    src != dst && 0 < n < |src.Content()| && !dst.freezeEnd && !src.freezeStart
  }

  /** evbuffer_remove_buffer: move a prefix of `src` to the end of `dst`, whole
      chains first, then a copy of what is left. From any states that meet the documented
      invariant the bytes move as they should, unless evbuffer_add runs into its assertion;
      the cached slots are right afterwards just under the conditions given. */
  method RemoveBuffer(src: Evbuffer, dst: Evbuffer, datlen: nat) returns (n: int, aborts: bool)
    requires src.Valid() && dst.Valid() && Apart(src, dst)
    modifies src, dst, src.v.cells, dst.v.cells
    ensures aborts <==> old(Partial(src, dst, datlen) && MoveFails(src, dst, datlen))
    ensures !aborts ==> src.Linked() && dst.Linked() && Apart(src, dst)
    ensures !aborts ==> (src.Valid() <==> !old(Partial(src, dst, datlen) && Alone(src.v.parts)))
    ensures !aborts ==> (dst.Valid() <==> !old(Partial(src, dst, datlen)) || old(MoveKeeps(src, dst, datlen)))
    ensures old(TightParts(src.v.parts) && TightParts(dst.v.parts)) ==> !aborts && src.Ready() && dst.Ready()
    ensures !aborts ==> fresh(src.v.cells + dst.v.cells - old(src.v.cells + dst.v.cells))
    ensures !aborts ==>
              var k := if datlen >= |old(src.Content())| then |old(src.Content())| else datlen;
              if datlen == 0 || dst == src then
                n == 0 && src.Content() == old(src.Content()) && dst.Content() == old(dst.Content())
              else if k > 0 && (old(dst.freezeEnd) || old(src.freezeStart)) then
                n == -1 && src.Content() == old(src.Content()) && dst.Content() == old(dst.Content())
              else
                n == (if old(dst.freezeEnd) || old(src.freezeStart) then -1 else k)
                && dst.Content() == old(dst.Content()) + old(src.Content())[..k] && src.Content() == old(src.Content())[k..]
    ensures src.freezeStart == old(src.freezeStart) && src.freezeEnd == old(src.freezeEnd)
    ensures dst.freezeStart == old(dst.freezeStart) && dst.freezeEnd == old(dst.freezeEnd)
  {
    hide Rep, Run, Flatten, LastWithData, TightParts, MoveFails, MoveKeeps, Alone, Evbuffer.Slotted;
    RepRun(src.v, src.first, src.last, src.lastWithDatap, src.totalLen);
    src.ValidSlotted();
    dst.ValidSlotted();
    aborts := false;
    if datlen == 0 || dst == src { return 0, false; }
    if dst.freezeEnd || src.freezeStart { return -1, false; }
    if datlen >= src.totalLen {
      n := src.totalLen;
      var ok := AddBuffer(dst, src);
      src.ValidSlotted();
      dst.ValidSlotted();
      return;
    }
    if TightParts(src.v.parts) && TightParts(dst.v.parts) { TightMoves(src, dst, datlen); }
    aborts := MovePrefix(src, dst, datlen);
    n := datlen;
  }

  /** Where no chain is empty, nothing of this happens. */
  lemma TightMoves(src: Evbuffer, dst: Evbuffer, n: nat)
    requires src.Valid() && dst.Valid() && Partial(src, dst, n) && TightParts(src.v.parts) && TightParts(dst.v.parts)
    ensures !Alone(src.v.parts) && !MoveFails(src, dst, n) && MoveKeeps(src, dst, n)
  {
    hide Rep, Run, Flatten, LastWithData, MoveFails, MoveKeeps, Evbuffer.AddFails, Evbuffer.AddKeeps;
    RepRun(src.v, src.first, src.last, src.lastWithDatap, src.totalLen);
    NonEmptyParts(src.v.parts);
    RepRun(dst.v, dst.first, dst.last, dst.lastWithDatap, dst.totalLen);
    TightLastOf(dst.v.parts);
    dst.AddCases(n);
    MoveIs(src, dst, n);
    if LastWithData(src.v.parts) > 0 { DataAt(src.v.parts[..LastWithData(src.v.parts)], 0); }
    var b := Handed(src, n);
    if b == [] {
      FlattenEnds(b);
    } else {
      DataAt(b, 0);
      AllSolid(b);
    }
  }

  lemma AllSolid(parts: seq<seq<byte>>)
    requires forall i :: 0 <= i < |parts| ==> parts[i] != []
    ensures forall a: nat, b: nat :: Solid(parts, a, b)
  {
  }

  /** Move fewer bytes than there are. */
  method MovePrefix(src: Evbuffer, dst: Evbuffer, datlen: nat) returns (aborts: bool)
    requires src.Valid() && dst.Valid() && Apart(src, dst) && Partial(src, dst, datlen)
    modifies src, dst, src.v.cells, dst.v.cells
    ensures aborts <==> old(MoveFails(src, dst, datlen))
    ensures !aborts ==> src.Linked() && dst.Linked() && Apart(src, dst)
    ensures !aborts ==> (src.Valid() <==> !old(Alone(src.v.parts))) && (dst.Valid() <==> old(MoveKeeps(src, dst, datlen)))
    ensures !aborts && old(TightParts(src.v.parts) && TightParts(dst.v.parts)) ==>
              TightParts(src.v.parts) && TightParts(dst.v.parts)
    ensures !aborts ==> fresh(src.v.cells + dst.v.cells - old(src.v.cells + dst.v.cells))
    ensures !aborts ==> datlen <= |old(src.Content())| && dst.Content() == old(dst.Content()) + old(src.Content())[..datlen]
    ensures !aborts ==> src.Content() == old(src.Content())[datlen..]
    ensures src.freezeStart == old(src.freezeStart) && src.freezeEnd == old(src.freezeEnd)
    ensures dst.freezeStart == old(dst.freezeStart) && dst.freezeEnd == old(dst.freezeEnd)
  {
    hide Rep, Run, CellsOf, Chain.Holds, Flatten, LastWithData, TightParts, MoveFails, MoveKeeps, Alone;
    hide Evbuffer.Slotted, Evbuffer.Linked, Evbuffer.Valid, Evbuffer.AddFails, Evbuffer.AddKeeps, SlotOf, LastOf;
    var chain, nread, left;
    ghost var j, ks, kd;
    chain, nread, left, j, ks, kd := MoveChains(src, dst, datlen);
    var data := FirstBytes(src, chain, left, j);
    var ok;
    ok, aborts := dst.AddAt(data, kd);
    if aborts { return; }
    assert chain !in dst.v.cells;
    src.totalLen := src.totalLen - (nread + left);
    src.Trim(chain, left, j, ks);
    src.SlottedRun(ks);
  }

  /** Move the chains that `datlen` covers whole; `left` more bytes are wanted. */
  method MoveChains(src: Evbuffer, dst: Evbuffer, datlen: nat)
    returns (chain: Chain, nread: nat, left: nat, ghost j: nat, ghost ks: nat, ghost kd: nat)
    requires src.Valid() && dst.Valid() && Apart(src, dst) && Partial(src, dst, datlen)
    modifies src`first, src`v, src`lastWithDatap, dst`first, dst`last, dst`lastWithDatap, dst`totalLen, dst`v
    modifies src.v.cells`next, dst.v.cells`next
    ensures dst.Slotted(kd) && dst.v.cells !! src.v.cells && nread + left == datlen <= |old(src.Content())|
    ensures src.v.cells + dst.v.cells <= old(src.v.cells + dst.v.cells)
    ensures j < |src.v.chains| == |src.v.parts| && chain == src.v.chains[j] && chain in src.v.cells
    ensures src.first == src.v.chains[0] && src.last == LastOf(src.v.chains)
    ensures ks < |src.v.chains| && src.lastWithDatap == SlotOf(src.v.chains, ks)
    ensures Run(src.v.chains, src.v.parts, null, src.v.cells) && Flatten(src.v.parts[..j]) == []
    ensures left < |src.v.parts[j]| && src.totalLen == |src.Content()| + nread
    ensures ks == LastWithData(src.v.parts) <==> !old(Alone(src.v.parts))
    ensures dst.AddFails(kd, left) <==> old(MoveFails(src, dst, datlen))
    ensures !dst.AddFails(kd, left) ==> (dst.AddKeeps(kd, left) <==> old(MoveKeeps(src, dst, datlen)))
    ensures old(TightParts(src.v.parts) && TightParts(dst.v.parts)) ==>
              TightParts(src.v.parts) && TightParts(dst.v.parts)
    ensures dst.Content() + src.v.parts[j][..left] == old(dst.Content()) + old(src.Content())[..datlen]
    ensures left <= |src.Content()| && src.Content()[left..] == old(src.Content())[datlen..]
  {
    hide Rep, Run, CellsOf, Chain.Holds, Flatten, LastWithData, TightParts, MoveFails, MoveKeeps, HandFails, HandKeeps, Alone;
    hide Evbuffer.Slotted, Evbuffer.AddFails, Evbuffer.AddKeeps, Handed, InsertAt, Advanced, Whole, SlotOf, LastOf, ChainAt;
    ghost var parts, chains, k, w := src.v.parts, src.v.chains, LastWithData(src.v.parts), dst.v.parts;
    RepRun(src.v, src.first, src.last, src.lastWithDatap, src.totalLen);
    kd := LastWithData(dst.v.parts);
    dst.ValidSlotted();
    MoveIs(src, dst, datlen);
    var previous: Chain;
    ghost var i: nat;
    chain, previous, nread, left, i := TakeChains(src, datlen);
    SplitAtPart(parts, i, left);
    SuffixFacts(chains, parts, i);
    AloneCases(parts, i);
    j, ks := i, if i == k then 0 else k;
    if nread > 0 {
      ghost var e := Start(dst);
      kd := SpliceChains(src, dst, chain, previous, nread, i);
      Handing(dst, kd, left, previous, w, parts[..i], e);
      j, ks := 0, k - i;
      SlotFrom(chains, i, k);
      TightSplice(w, parts, i);
    }
    RunAt(src.v.chains, src.v.parts, null, src.v.cells, j);
  }

  lemma SuffixFacts(chains: seq<Chain>, parts: seq<seq<byte>>, i: nat)
    requires i < |chains| == |parts|
    ensures chains[0..] == chains && parts[0..] == parts && Flatten(parts[i..][..0]) == [] && chains[0] == ChainAt(chains, 0)
    ensures chains[i..][0] == chains[i] && parts[i..][0] == parts[i] && LastOf(chains[i..]) == LastOf(chains)
  {
  }

  /** Whether the cached slot, once it has been moved off the first `i` chains, which a request
      covers whole, is right for all chains; it is right for those behind the first `i`. */
  lemma AloneCases(parts: seq<seq<byte>>, i: nat)
    requires i <= LastWithData(parts) < |parts| && parts[i] != [] && parts[LastWithData(parts)] != []
    ensures Flatten(parts[..i]) == [] ==>
              ((if i == LastWithData(parts) then 0 else LastWithData(parts)) == LastWithData(parts) <==> !Alone(parts))
    ensures Flatten(parts[..i]) != [] ==> !Alone(parts)
    ensures LastWithData(parts[i..]) == LastWithData(parts) - i
  {
    hide Flatten, LastWithData;
    var k := LastWithData(parts);
    LastFrom(parts, i);
    FlattenSplit(parts[..k], i);
    assert parts[..k][..i] == parts[..i];
    if i < k {
      FlattenAt(parts[..k], i);
      assert parts[..k][i] == parts[i];
    }
  }

  lemma SlotFrom(chains: seq<Chain>, i: nat, k: nat)
    requires i <= k < |chains|
    ensures SlotOf(chains[i..], k - i) == if i == k then AtFirst else SlotOf(chains, k)
    ensures SlotOf(chains, 0) == AtFirst
  {
  }

  lemma TightSplice(a: seq<seq<byte>>, b: seq<seq<byte>>, i: nat)
    requires 0 < i < |b|
    ensures TightParts(a) && TightParts(b) ==> TightParts(a[..InsertAt(a)] + b[..i]) && TightParts(b[i..])
  {
    hide LastWithData;
    InsertFacts(a);
  }

  /** The conditions, in terms of the chains. */
  lemma MoveIs(src: Evbuffer, dst: Evbuffer, n: nat)
    requires |src.v.chains| == |src.v.parts|
    ensures var i := Whole(src.v.parts, n); var b := src.v.parts[..i]; var left := n - |Flatten(b)|;
            left >= 0 && if Flatten(b) == [] then
              && left == n && (MoveFails(src, dst, n) <==> dst.AddFails(LastWithData(dst.v.parts), n))
              && (MoveKeeps(src, dst, n) <==> dst.AddKeeps(LastWithData(dst.v.parts), n))
            else
              && i > 0 && (MoveFails(src, dst, n) <==> HandFails(src.v.chains[i - 1], b, Start(dst), left))
              && (MoveKeeps(src, dst, n) <==> HandKeeps(src.v.chains[i - 1], b, Start(dst), left))
  {
    hide LastWithData, Whole, HandFails, HandKeeps, Evbuffer.AddFails, Evbuffer.AddKeeps;
  }

  /** After the hand-over the conditions are those of evbuffer_add from where the slot is. */
  lemma Handing(dst: Evbuffer, k: nat, left: nat, c: Chain, w: seq<seq<byte>>, b: seq<seq<byte>>, e: nat)
    requires dst.Slotted(k) && dst.last == c && Flatten(b) != [] && e == if Flatten(w) == [] then 1 else 0
    requires dst.v.parts == w[..InsertAt(w)] + b && Advanced(dst.v.parts, From(InsertAt(w)), k)
    ensures dst.AddFails(k, left) <==> HandFails(c, b, e, left)
    ensures !dst.AddFails(k, left) ==> (dst.AddKeeps(k, left) <==> HandKeeps(c, b, e, left))
  {
    hide Flatten, LastWithData, InsertAt, Advanced, Joined, Evbuffer.Slotted;
    hide Evbuffer.AddFails, Evbuffer.AddKeeps, HandFails, HandKeeps;
    var a := w[..InsertAt(w)];
    InsertFacts(w);
    TailEmpty(w, |a|);
    if |a| > 0 { DataAt(a, |a| - 1); } else { FlattenEnds(w); }
    JoinCases(a, b, k);
    LastRoom(dst, k);
    SameFails(dst, k, left, c, b, e);
    SameKeeps(dst, k, left, c, b, e);
  }

  lemma SameFails(dst: Evbuffer, k: nat, left: nat, c: Chain, b: seq<seq<byte>>, e: nat)
    requires dst.last == c && c.SpaceLen() >= 0 && |dst.v.chains| == |dst.v.parts| && Joined(dst.v.parts, b, e, k)
    ensures dst.AddFails(k, left) <==> HandFails(c, b, e, left)
  {
    hide Flatten, LastWithData, Solid, Chain.ShouldRealign;
  }

  lemma SameKeeps(dst: Evbuffer, k: nat, left: nat, c: Chain, b: seq<seq<byte>>, e: nat)
    requires dst.last == c && c.SpaceLen() >= 0 && |dst.v.chains| == |dst.v.parts| && Joined(dst.v.parts, b, e, k)
    ensures !dst.AddFails(k, left) ==> (dst.AddKeeps(k, left) <==> HandKeeps(c, b, e, left))
  {
    hide Flatten, LastWithData, Solid, Chain.ShouldRealign;
  }

  lemma LastRoom(dst: Evbuffer, k: nat)
    requires dst.Slotted(k) && dst.last != null
    ensures dst.last.SpaceLen() >= 0 && |dst.v.chains| == |dst.v.parts| > 0
  {
    hide Run, Chain.Holds, Flatten;
    dst.SlottedRun(k);
    RunAt(dst.v.chains, dst.v.parts, null, dst.v.cells, |dst.v.chains| - 1);
    dst.last.HoldsFits(dst.v.parts[|dst.v.chains| - 1]);
  }

  lemma DataAt(parts: seq<seq<byte>>, i: nat)
    requires i < |parts| && parts[i] != []
    ensures Flatten(parts) != []
  {
    hide Flatten;
    FlattenAt(parts, i);
  }

  method FirstBytes(src: Evbuffer, chain: Chain, left: nat, ghost j: nat) returns (data: seq<byte>)
    requires j < |src.v.chains| == |src.v.parts| && chain == src.v.chains[j] && left <= |src.v.parts[j]|
    requires Run(src.v.chains, src.v.parts, null, src.v.cells)
    ensures data == src.v.parts[j][..left]
  {
    hide Run, Chain.Peek;
    RunAt(src.v.chains, src.v.parts, null, src.v.cells, j);
    data := chain.Peek(left, src.v.parts[j]);
  }
}
