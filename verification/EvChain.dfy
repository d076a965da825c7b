/** One chunk of an evbuffer (struct evbuffer_chain): a fixed block of memory with
    `misalign` unused bytes at the front and `off` bytes of data after them. */
module EvChain {
  import opened Common

  const MIN_BUFFER_SIZE := 1024
  const CHAIN_SIZE := 48
  const MAX_TO_REALIGN := 2048
  const CHAIN_MAX := 0x7FFF_FFFF_FFFF_FFFF

  /** The data that any chain of its own memory has room for. */
  const LEAST_ROOM := MIN_BUFFER_SIZE - CHAIN_SIZE

  /** The minimum block, doubled some times. */
  predicate Doubled(n: nat)
  {
    n == MIN_BUFFER_SIZE || (n > MIN_BUFFER_SIZE && n % 2 == 0 && Doubled(n / 2))
  }

  /** The block for a header and `size` bytes (evbuffer_chain_new): the least doubling of the
      minimum block that holds them, or just as much as they need once that is half of the most
      a chain may be long. */
  method AllocSize(size: nat) returns (n: nat)
    ensures n >= size + CHAIN_SIZE && n >= MIN_BUFFER_SIZE
    ensures if size + CHAIN_SIZE < CHAIN_MAX / 2 then Doubled(n) && forall m: nat :: Doubled(m) && m >= size + CHAIN_SIZE ==> n <= m
            else n == size + CHAIN_SIZE
  {
    n := MIN_BUFFER_SIZE;
    if size + CHAIN_SIZE >= CHAIN_MAX / 2 { return size + CHAIN_SIZE; }
    while n < size + CHAIN_SIZE
      invariant n >= MIN_BUFFER_SIZE && Doubled(n)
      invariant n == MIN_BUFFER_SIZE || (n % 2 == 0 && Doubled(n / 2) && n / 2 < size + CHAIN_SIZE)
    {
      n := 2 * n;
    }
    forall m: nat | Doubled(m) && m >= size + CHAIN_SIZE ensures n <= m {
      if n > MIN_BUFFER_SIZE { NextDoubled(n / 2, m); } else { AtLeastMin(m); }
    }
  }

  lemma AtLeastMin(m: nat)
    requires Doubled(m)
    ensures m >= MIN_BUFFER_SIZE
  {
  }

  /** A larger block is twice as large, or more. */
  lemma {:induction false} NextDoubled(a: nat, b: nat)
    requires Doubled(a) && Doubled(b) && a < b
    ensures 2 * a <= b
  {
    AtLeastMin(a);
    AtLeastMin(b / 2);
    if a > MIN_BUFFER_SIZE { NextDoubled(a / 2, b / 2); }
  }

  class Chain {
    var buffer: seq<byte>
    var misalign: nat
    var off: nat
    var next: Chain?

    /** The data in this chain is `p`. */
    ghost predicate Holds(p: seq<byte>)
      reads this`buffer, this`misalign, this`off
    {
      && 0 < |buffer| && misalign + off <= |buffer| && off == |p|
      && buffer[misalign..misalign + off] == p
    }

    constructor (size: nat)
      ensures |buffer| >= size && |buffer| >= LEAST_ROOM && Holds([])
      ensures misalign == off == 0 && next == null
    {
      var n := AllocSize(size);
      buffer := seq(n - CHAIN_SIZE, _ => 0);
      misalign, off, next := 0, 0, null;
    }

    lemma HoldsFits(p: seq<byte>)
      requires Holds(p)
      ensures 0 < |buffer| && misalign + off <= |buffer| && off == |p| && buffer[misalign..misalign + off] == p
    {
    }

    lemma HoldsNothing()
      requires 0 < |buffer| && misalign <= |buffer| && off == 0
      ensures Holds([])
    {
    }

    /** CHAIN_SPACE_LEN of a mutable chain. */
    function SpaceLen(): int
      reads this`buffer, this`misalign, this`off
    {
      |buffer| - (misalign + off)
    }

    /** memcpy into the chain's memory. */
    method Write(at: nat, data: seq<byte>)
      requires at + |data| <= |buffer|
      modifies this`buffer
      ensures buffer == old(buffer)[..at] + data + old(buffer)[at + |data|..]
    {
      buffer := buffer[..at] + data + buffer[at + |data|..];
    }

    /** Copy `data` behind what is there. */
    method Append(data: seq<byte>, ghost p: seq<byte>)
      requires Holds(p) && |data| <= SpaceLen()
      modifies this`off, this`buffer
      ensures Holds(p + data) && |buffer| == old(|buffer|)
    {
      Write(misalign + off, data);
      off := off + |data|;
      assert buffer[misalign..misalign + off] == p + data;
    }

    /** Copy `data` in front of what is there. */
    method Prepend(data: seq<byte>, ghost p: seq<byte>)
      requires Holds(p) && |data| <= misalign
      modifies this`off, this`misalign, this`buffer
      ensures Holds(data + p) && misalign == old(misalign) - |data| && |buffer| == old(|buffer|)
    {
      Write(misalign - |data|, data);
      off := off + |data|;
      misalign := misalign - |data|;
      assert buffer[misalign..misalign + off] == data + p;
    }

    /** The first `n` bytes of the data. */
    function Peek(n: nat, ghost p: seq<byte>): (d: seq<byte>)
      requires Holds(p) && n <= off
      reads this
      ensures d == p[..n]
    {
      assert buffer[misalign..misalign + n] == buffer[misalign..misalign + off][..n];
      buffer[misalign..misalign + n]
    }

    /** Drop `n` bytes from the front. */
    method Consume(n: nat, ghost p: seq<byte>)
      requires Holds(p) && n <= off
      modifies this`off, this`misalign
      ensures Holds(p[n..])
    {
      misalign := misalign + n;
      off := off - n;
      assert buffer[misalign..misalign + off] == p[n..];
    }

    /** Take `n` bytes of the free space, as they are, for data. */
    method Extend(n: nat, ghost p: seq<byte>)
      requires Holds(p) && n <= SpaceLen()
      modifies this`off
      ensures off == old(off) + n && Holds(p + buffer[misalign + old(off)..misalign + old(off) + n])
    {
      ghost var was := off;
      off := off + n;
      assert buffer[misalign..misalign + off] == p + buffer[misalign + was..misalign + was + n];
    }

    /** Move the data to the start of the block (evbuffer_chain_align). */
    method Align(ghost p: seq<byte>)
      requires Holds(p)
      modifies this`misalign, this`buffer
      ensures Holds(p) && misalign == 0 && |buffer| == old(|buffer|)
    {
      Write(0, buffer[misalign..misalign + off]);
      misalign := 0;
      assert buffer[0..off] == p;
    }

    /** Whether moving the data to the front makes room for `datlen` bytes at a
        reasonable price (evbuffer_chain_should_realign). */
    predicate ShouldRealign(datlen: nat)
      reads this`buffer, this`off
    {
      && |buffer| - off >= datlen
      && off < |buffer| / 2
      && off <= MAX_TO_REALIGN
    }

    /** There is room for `n` bytes behind the data, or would be with the data at the front. */
    predicate Takes(n: nat)
      reads this`buffer, this`misalign, this`off
    {
      SpaceLen() >= n || ShouldRealign(n)
    }
  }
}
