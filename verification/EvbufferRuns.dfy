/** Every run of the evbuffer operations over any number of buffers computes what the
    same run over plain byte strings does. */
module EvbufferRuns {
  import opened Common
  import opened Bags
  import opened EvChain
  import opened EvRun
  import opened Evbuffer
  import opened EvbufferMove
  import opened EvbufferPullup

  /** What an evbuffer stands for. */
  datatype Bytes = Bytes(content: seq<byte>, freezeStart: bool, freezeEnd: bool)

  datatype Command =
    | Add(data: seq<byte>)
    | Prepend(data: seq<byte>)
    | Drain(len: nat)
    | Remove(datlen: nat)
    | Pullup(size: int)
    | Freeze(atFront: bool, frozen: bool)

  datatype Transfer = AddBuffer | PrependBuffer | RemoveBuffer(datlen: nat)

  /** A command on one buffer, a transfer from buffer `src` to `dst`, or a new buffer. */
  datatype Step = One(i: nat, cmd: Command) | Two(dst: nat, src: nat, how: Transfer) | New

  function Apply(cmd: Command, s: Bytes): Bytes
  {
    match cmd
    case Add(data) => if s.freezeEnd then s else s.(content := s.content + data)
    case Prepend(data) => if s.freezeStart then s else s.(content := data + s.content)
    case Drain(len) => if s.freezeStart then s else s.(content := s.content[Least(len, |s.content|)..])
    case Remove(len) => if s.freezeStart then s else s.(content := s.content[Least(len, |s.content|)..])
    case Pullup(_) => s
    case Freeze(atFront, frozen) => if atFront then s.(freezeStart := frozen) else s.(freezeEnd := frozen)
  }

  /** The new destination and source, two different buffers. */
  function Move(how: Transfer, dst: Bytes, src: Bytes): (Bytes, Bytes)
  {
    var k := if how.RemoveBuffer? then Least(how.datlen, |src.content|) else |src.content|;
    if src.freezeStart || (if how.PrependBuffer? then dst.freezeStart else dst.freezeEnd) then (dst, src)
    else if how.PrependBuffer? then (dst.(content := src.content + dst.content), src.(content := []))
    else (dst.(content := dst.content + src.content[..k]), src.(content := src.content[k..]))
  }

  function Next(step: Step, s: seq<Bytes>): (s': seq<Bytes>)
    ensures |s'| >= |s|
  {
    match step
    case One(i, cmd) => if i < |s| then s[i := Apply(cmd, s[i])] else s
    case Two(dst, src, how) =>
      if dst < |s| && src < |s| && dst != src then
        var (d, r) := Move(how, s[dst], s[src]);
        s[dst := d][src := r]
      else s
    case New => s + [Bytes([], false, false)]
  }

  function After(steps: seq<Step>, s: seq<Bytes>): seq<Bytes>
  {
    if steps == [] then s else Next(steps[|steps| - 1], After(steps[..|steps| - 1], s))
  }

  ghost function Abs(b: Evbuffer): Bytes
    reads b
  {
    Bytes(b.Content(), b.freezeStart, b.freezeEnd)
  }

  /** One command on one buffer. */
  method Perform(b: Evbuffer, cmd: Command)
    requires b.Ready()
    modifies b, b.v.cells
    ensures b.Ready() && fresh(b.v.cells - old(b.v.cells)) && Abs(b) == Apply(cmd, old(Abs(b)))
  {
    hide Rep, Run, Chain.Holds, Flatten, TightParts, LastWithData, Contiguous;
    ghost var content := b.Content();
    match cmd {
      case Add(data) => var ok, aborts := b.Add(data);
      case Prepend(data) => var ok := b.Prepend(data);
      case Drain(len) => var ok := b.Drain(len);
      case Remove(datlen) =>
        var n, data := b.Remove(datlen);
        assert n >= 0 ==> content[n..] == b.Content();
      case Pullup(size) => var chain := EvbufferPullup.Pullup(b, size);
      case Freeze(atFront, frozen) =>
        if atFront { b.freezeStart := frozen; } else { b.freezeEnd := frozen; }
    }
  }

  /** One transfer between two buffers. */
  method PerformMove(dst: Evbuffer, src: Evbuffer, how: Transfer)
    requires dst.Ready() && src.Ready() && Apart(dst, src) && dst != src
    modifies dst, src, dst.v.cells, src.v.cells
    ensures dst.Ready() && src.Ready() && Apart(dst, src)
    ensures fresh(dst.v.cells + src.v.cells - old(dst.v.cells + src.v.cells))
    ensures (Abs(dst), Abs(src)) == Move(how, old(Abs(dst)), old(Abs(src)))
  {
    hide Rep, Run, Chain.Holds, Flatten, TightParts, LastWithData;
    ghost var content := src.Content();
    assert content[..|content|] == content && content[|content|..] == [] && content[0..] == content;
    assert dst.Content() + [] == dst.Content() == [] + dst.Content();
    match how {
      case AddBuffer => var ok := EvbufferMove.AddBuffer(dst, src);
      case PrependBuffer => var ok := EvbufferMove.PrependBuffer(dst, src);
      case RemoveBuffer(datlen) => var n, aborts := EvbufferMove.RemoveBuffer(src, dst, datlen);
    }
  }

  // ----- any number of buffers -----

  /** Every buffer is well formed, no chain belongs to two of them, and all chains are
      in `heap`. */
  ghost predicate AllReady(bufs: seq<Evbuffer>, heap: set<Chain>)
    reads bufs, heap
  {
    && (forall i, j :: 0 <= i < j < |bufs| ==> bufs[i] != bufs[j] && Apart(bufs[i], bufs[j]))
    && (forall i :: 0 <= i < |bufs| ==> bufs[i].v.cells <= heap)
    && forall i :: 0 <= i < |bufs| ==> bufs[i].Ready()
  }

  ghost predicate Stands(bufs: seq<Evbuffer>, s: seq<Bytes>)
    reads bufs
  {
    |s| == |bufs| && forall i :: 0 <= i < |bufs| ==> Abs(bufs[i]) == s[i]
  }

  method TakeOne(bufs: seq<Evbuffer>, i: nat, cmd: Command, ghost s: seq<Bytes>, ghost heap: set<Chain>)
    returns (ghost heap': set<Chain>)
    requires AllReady(bufs, heap) && Stands(bufs, s) && i < |bufs|
    modifies bufs[i], heap
    ensures AllReady(bufs, heap') && Stands(bufs, s[i := Apply(cmd, s[i])]) && fresh(heap' - heap)
  {
    hide Evbuffer.Ready, Evbuffer.Content, Apply;
    ghost var b := bufs[i];
    Perform(bufs[i], cmd);
    heap' := heap + b.v.cells;
  }

  method TakeTwo(bufs: seq<Evbuffer>, dst: nat, src: nat, how: Transfer, ghost s: seq<Bytes>, ghost heap: set<Chain>)
    returns (ghost heap': set<Chain>)
    requires AllReady(bufs, heap) && Stands(bufs, s) && dst < |bufs| && src < |bufs| && dst != src
    modifies bufs[dst], bufs[src], heap
    ensures AllReady(bufs, heap') && fresh(heap' - heap)
    ensures Stands(bufs, Next(Two(dst, src, how), s))
  {
    hide Evbuffer.Ready, Evbuffer.Content, Move;
    assert Apart(bufs[dst], bufs[src]);
    PerformMove(bufs[dst], bufs[src], how);
    heap' := heap + bufs[dst].v.cells + bufs[src].v.cells;
  }

  /** Perform `steps` from no buffers at all: what is left stands for what the steps
      make of byte strings, and the structure is intact. */
  method PerformAll(steps: seq<Step>) returns (bufs: seq<Evbuffer>, ghost heap: set<Chain>)
    ensures AllReady(bufs, heap) && Stands(bufs, After(steps, []))
  {
    hide Evbuffer.Ready, Evbuffer.Content, Move, Apply, Next, After;
    bufs, heap := [], {};
    AfterNone([]);
    for n := 0 to |steps|
      invariant AllReady(bufs, heap) && Stands(bufs, After(steps[..n], [])) && fresh(heap) && fresh(bufs)
    {
      ghost var s := After(steps[..n], []);
      AfterOne(steps, n, []);
      NextIs(steps[n], s);
      match steps[n] {
        case One(i, cmd) => if i < |bufs| { heap := TakeOne(bufs, i, cmd, s, heap); }
        case Two(dst, src, how) =>
          if dst < |bufs| && src < |bufs| && dst != src { heap := TakeTwo(bufs, dst, src, how, s, heap); }
        case New =>
          var b := new Evbuffer();
          bufs := bufs + [b];
      }
    }
    assert steps[..|steps|] == steps;
  }

  lemma AfterNone(s: seq<Bytes>)
    ensures After([], s) == s
  {
  }

  lemma AfterOne(steps: seq<Step>, n: nat, s: seq<Bytes>)
    requires n < |steps|
    ensures After(steps[..n + 1], s) == Next(steps[n], After(steps[..n], s))
  {
    assert steps[..n + 1][..n] == steps[..n];
  }

  lemma NextIs(step: Step, s: seq<Bytes>)
    ensures step.New? ==> Next(step, s) == s + [Bytes([], false, false)]
    ensures step.One? ==> Next(step, s) == if step.i < |s| then s[step.i := Apply(step.cmd, s[step.i])] else s
    ensures step.Two? && !(step.dst < |s| && step.src < |s| && step.dst != step.src) ==> Next(step, s) == s
  {
  }

  // ----- what the byte strings keep -----

  function Contents(s: seq<Bytes>): seq<seq<byte>>
  {
    seq(|s|, i requires 0 <= i < |s| => s[i].content)
  }

  /** Changing the content of one buffer. */
  lemma ContentsUpdate(s: seq<Bytes>, i: nat, b: Bytes)
    requires i < |s|
    ensures Bag(Contents(s[i := b])) + multiset(s[i].content) == Bag(Contents(s)) + multiset(b.content)
  {
    hide Bag;
    assert Contents(s[i := b]) == Contents(s)[i := b.content];
    BagUpdate(Contents(s), i, b.content);
  }

  /** Steps that neither add bytes nor drop any. */
  predicate Moves(step: Step)
  {
    step.One? ==> step.cmd.Pullup? || step.cmd.Freeze?
  }

  /** No transfer loses or duplicates a byte, whatever is frozen and however often. */
  lemma {:induction false} BytesConserved(steps: seq<Step>, s: seq<Bytes>)
    requires forall k :: 0 <= k < |steps| ==> Moves(steps[k])
    ensures Bag(Contents(After(steps, s))) == Bag(Contents(s))
  {
    if steps != [] {
      var n := |steps| - 1;
      BytesConserved(steps[..n], s);
      StepConserves(steps[n], After(steps[..n], s));
    }
  }

  lemma StepConserves(step: Step, s: seq<Bytes>)
    requires Moves(step)
    ensures Bag(Contents(Next(step, s))) == Bag(Contents(s))
  {
    hide Bag;
    match step
    case One(i, cmd) =>
      if i < |s| {
        ContentsUpdate(s, i, Apply(cmd, s[i]));
        var s' := s[i := Apply(cmd, s[i])];
        Balance(Bag(Contents(s)), Bag(Contents(s')), Bag(Contents(s')), multiset(s[i].content), multiset{},
                multiset(s[i].content), multiset{});
      }
    case Two(dst, src, how) =>
      if dst < |s| && src < |s| && dst != src {
        var (d, r) := Move(how, s[dst], s[src]);
        ContentsUpdate(s, dst, d);
        ContentsUpdate(s[dst := d], src, r);
        var c := s[src].content;
        var k := if how.RemoveBuffer? then Least(how.datlen, |c|) else |c|;
        assert c[..k] + c[k..] == c;
        Balance(Bag(Contents(s)), Bag(Contents(s[dst := d])), Bag(Contents(s[dst := d][src := r])),
                multiset(s[dst].content), multiset(c), multiset(d.content), multiset(r.content));
      }
    case New =>
      assert Contents(s + [Bytes([], false, false)]) == Contents(s) + [[]];
      BagConcat(Contents(s), [[]]);
      var none: seq<seq<byte>> := [[]];
      BagEmpty(none);
  }

  lemma Balance(a: multiset<byte>, b: multiset<byte>, c: multiset<byte>, x: multiset<byte>, y: multiset<byte>,
                x': multiset<byte>, y': multiset<byte>)
    requires b + x == a + x' && c + y == b + y' && x' + y' == x + y
    ensures c == a
  {
    forall e: byte ensures c[e] == a[e] {
      assert (b + x)[e] == (a + x')[e] && (c + y)[e] == (b + y')[e] && (x' + y')[e] == (x + y)[e];
    }
  }
}
