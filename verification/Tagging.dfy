/** Tagged data on an evbuffer (event_tagging.c): integers as nibbles, tags in groups of
    seven bits, and records made of tag, length and payload. */
module Tagging {
  import opened Common
  import opened EvChain
  import opened EvRun
  import opened Evbuffer
  import opened EvbufferMove
  import opened EvbufferPullup

  const WORD32 := 0x1_0000_0000
  const WORD64 := 0x1_0000_0000_0000_0000

  // ----- integers -----

  /** `n` without its last `k` nibbles. */
  function Shifted(n: nat, k: nat): nat
    decreases k
  {
    if k == 0 then n else Shifted(n, k - 1) / 16
  }

  /** How many nibbles `n` has. */
  function Nibbles(n: nat): nat
  {
    if n == 0 then 0 else 1 + Nibbles(n / 16)
  }

  /** The nibbles of an encoding: the upper half of the first byte is the 0th. */
  function NibbleAt(d: seq<byte>, k: nat): nat
    requires k / 2 < |d|
  {
    Half(d[k / 2], k)
  }

  /** The `k`th nibble of the encoding of `n`: first how many follow, less one, and then
      those of `n` from the last on, and perhaps one to fill up. */
  function CodeNibble(n: nat, k: nat): nat
  {
    if k > 0 then Shifted(n, k - 1) % 16 else if Nibbles(n) > 0 then (Nibbles(n) - 1) % 16 else 0
  }

  function IntBytes(n: nat): (d: seq<byte>)
    ensures |d| == (Nibbles(n) + 2) / 2
  {
    seq((Nibbles(n) + 2) / 2, j requires 0 <= j < (Nibbles(n) + 2) / 2 => CodeNibble(n, 2 * j) * 16 + CodeNibble(n, 2 * j + 1))
  }

  lemma {:induction false} ShiftedComposes(n: nat, k: nat)
    ensures Shifted(n / 16, k) == Shifted(n, k + 1)
  {
    if k > 0 { ShiftedComposes(n, k - 1); }
  }

  /** Just its nibbles, and no more, are left of a number when others are shifted out. */
  lemma {:induction false} NibblesLeft(n: nat, k: nat)
    ensures Shifted(n, k) == 0 <==> k >= Nibbles(n)
  {
    if n == 0 {
      ZeroShifted(k);
    } else if k > 0 {
      ShiftedComposes(n, k - 1);
      NibblesLeft(n / 16, k - 1);
    }
  }

  lemma {:induction false} ZeroShifted(k: nat)
    ensures Shifted(0, k) == 0
  {
    if k > 0 { ZeroShifted(k - 1); }
  }

  /** A number of 32 or 64 bits has at most 8 or 16 nibbles. */
  lemma NibblesFit(n: nat)
    ensures n < WORD32 ==> Nibbles(n) <= 8
    ensures n < WORD64 ==> Nibbles(n) <= 16
  {
    hide Nibbles;
    NibblesLeft(n, 8);
    NibblesLeft(n, 16);
    if n < WORD32 {
      assert Shifted(n, 2) < 0x100_0000 && Shifted(n, 4) < 0x1_0000 && Shifted(n, 6) < 0x100 && Shifted(n, 8) < 1;
    }
    if n < WORD64 {
      assert Shifted(n, 2) < 0x100_0000_0000_0000 && Shifted(n, 4) < 0x1_0000_0000_0000 && Shifted(n, 6) < 0x100_0000_0000;
      assert Shifted(n, 8) < 0x1_0000_0000 && Shifted(n, 10) < 0x100_0000 && Shifted(n, 12) < 0x1_0000;
      assert Shifted(n, 14) < 0x100 && Shifted(n, 16) < 1;
    }
  }

  /** What the nibbles of an encoding from `c` down to `k` make. */
  function Number(d: seq<byte>, c: nat, k: nat): nat
    requires c / 2 < |d|
    decreases c + 1 - k
  {
    if k > c then 0 else Number(d, c, k + 1) * 16 + NibbleAt(d, k)
  }

  lemma CodeNibbles(n: nat, rest: seq<byte>, k: nat)
    requires k / 2 < |IntBytes(n)|
    ensures NibbleAt(IntBytes(n) + rest, k) == CodeNibble(n, k)
  {
    hide CodeNibble;
    var j := k / 2;
    assert (IntBytes(n) + rest)[j] == CodeNibble(n, 2 * j) * 16 + CodeNibble(n, 2 * j + 1);
    CodeNibbleSmall(n, 2 * j);
    CodeNibbleSmall(n, 2 * j + 1);
  }

  lemma CodeNibbleSmall(n: nat, k: nat)
    ensures CodeNibble(n, k) < 16
  {
  }

  /** Read from the top, the nibbles of an encoding give the number back. */
  lemma {:induction false} NumberBack(n: nat, rest: seq<byte>, k: nat)
    requires 1 <= k <= Nibbles(n) + 1
    ensures Number(IntBytes(n) + rest, Nibbles(n), k) == Shifted(n, k - 1)
    decreases Nibbles(n) + 1 - k
  {
    NibblesLeft(n, k - 1);
    if k <= Nibbles(n) {
      NumberBack(n, rest, k + 1);
      CodeNibbles(n, rest, k);
    }
  }

  /** The upper or the lower half of a byte. */
  function Half(b: byte, k: nat): nat
  {
    if k % 2 == 1 then b % 16 else b / 16
  }

  /** ENCODE_INT_INTERNAL, into `data`, which has a byte more than the number. */
  method EncodeInt(data: array<byte>, n: nat) returns (len: nat)
    requires (data.Length == 5 && n < WORD32) || (data.Length == 9 && n < WORD64)
    modifies data
    ensures len <= data.Length && data[..len] == IntBytes(n)
  {
    hide Nibbles, CodeNibble, Shifted, Half;
    NibblesFit(n);
    var off := PutNibbles(data, n);
    var nibbles := 0;
    if off > 2 { nibbles := off - 2; }
    PutHalf(data, 0, nibbles % 16);
    len := (off + 1) / 2;
    forall j | 0 <= j < len ensures data[j] == IntBytes(n)[j] {
      var k := 2 * j;
      assert k / 2 == j && (k + 1) / 2 == j;
      TwoHalves(data[j], k);
      CodeIs(n, k);
      CodeIs(n, k + 1);
      assert Half(data[k / 2], k) == CodeNibble(n, k);
      assert Half(data[(k + 1) / 2], k + 1) == CodeNibble(n, k + 1);
    }
    assert data[..len] == IntBytes(n);
  }

  /** What the nibbles of a code are. */
  lemma CodeIs(n: nat, k: nat)
    ensures k == 0 ==> CodeNibble(n, k) == if Nibbles(n) > 0 then (Nibbles(n) - 1) % 16 else 0
    ensures 0 < k <= Nibbles(n) ==> CodeNibble(n, k) == Shifted(n, k - 1) % 16
    ensures k > Nibbles(n) && k > 0 ==> CodeNibble(n, k) == 0
  {
    if k > 0 { NibblesLeft(n, k - 1); }
  }

  lemma TwoHalves(b: byte, k: nat)
    requires k % 2 == 0
    ensures b == Half(b, k) * 16 + Half(b, k + 1)
  {
  }

  /** Set one half of a byte. */
  method PutHalf(data: array<byte>, k: nat, nibble: nat)
    requires k / 2 < data.Length && nibble < 16
    modifies data
    ensures Half(data[k / 2], k) == nibble
    ensures forall i :: 0 <= i < 2 * data.Length && i != k ==> Half(data[i / 2], i) == old(Half(data[i / 2], i))
    ensures k > 0 ==> Half(data[0], 0) == old(Half(data[0], 0))
  {
    if k % 2 == 1 {
      data[k / 2] := data[k / 2] / 16 * 16 + nibble;
    } else {
      data[k / 2] := data[k / 2] % 16 + nibble * 16;
    }
  }

  /** Its loop: the nibbles of the number, from the last to the first. */
  method PutNibbles(data: array<byte>, n: nat) returns (off: nat)
    requires Nibbles(n) + 1 < 2 * data.Length
    modifies data
    ensures off == Nibbles(n) + 1 && Half(data[0], 0) == 0
    ensures forall k :: 1 <= k < off ==> Half(data[k / 2], k) == Shifted(n, k - 1) % 16
    ensures forall k :: off <= k < 2 * data.Length ==> Half(data[k / 2], k) == 0
  {
    hide Nibbles, Half;
    var number := n;
    off := 1;
    NothingPut();
    for j := 0 to data.Length
      invariant forall i :: 0 <= i < j ==> data[i] == 0
    {
      data[j] := 0;
    }
    NibblesLeft(n, 0);
    while number != 0
      invariant 1 <= off <= Nibbles(n) + 1 && number == Shifted(n, off - 1)
      invariant forall k :: 1 <= k < off ==> Half(data[k / 2], k) == Shifted(n, k - 1) % 16
      invariant forall k :: off <= k < 2 * data.Length ==> Half(data[k / 2], k) == 0
      invariant Half(data[0], 0) == 0
      decreases Nibbles(n) + 1 - off
    {
      NibblesLeft(n, off - 1);
      PutHalf(data, off, number % 16);
      number := number / 16;
      off := off + 1;
    }
    NibblesLeft(n, off - 1);
  }

  lemma NothingPut()
    ensures forall k: nat :: Half(0, k) == 0
  {
  }

  /** The number at the start of `s`, if it has at most `max` nibbles and is complete, and
      how many bytes it takes. */
  function ReadInt(s: seq<byte>, max: nat): Option<(nat, nat)>
  {
    if s == [] then None
    else
      var nibbles := s[0] / 16 + 1;
      if nibbles > max || nibbles / 2 + 1 > |s| then None else Some((Number(s, nibbles, 1), nibbles / 2 + 1))
  }

  /** The first number that does not fit in `k` nibbles. */
  function Beyond(k: nat): nat
  {
    if k == 0 then 1 else 16 * Beyond(k - 1)
  }

  lemma {:induction false} NumberBound(d: seq<byte>, c: nat, k: nat)
    requires c / 2 < |d| && 1 <= k <= c + 1
    ensures Number(d, c, k) < Beyond(c + 1 - k)
    decreases c + 1 - k
  {
    if k <= c { NumberBound(d, c, k + 1); }
  }

  lemma {:induction false} BeyondGrows(j: nat, k: nat)
    requires j <= k
    ensures 0 < Beyond(j) <= Beyond(k)
    decreases k
  {
    if j < k { BeyondGrows(j, k - 1); } else if j > 0 { BeyondGrows(j - 1, j - 1); }
  }

  /** A number of at most eight nibbles is one of 32 bits. */
  lemma ReadIntFits(s: seq<byte>)
    requires ReadInt(s, 8).Some?
    ensures ReadInt(s, 8).value.0 < WORD32
  {
    hide Number;
    var nibbles := s[0] / 16 + 1;
    NumberBound(s, nibbles, 1);
    BeyondGrows(nibbles, 8);
    assert Beyond(4) == 0x1_0000 && Beyond(8) == WORD32 by {
      assert Beyond(2) == 0x100 && Beyond(6) == 0x100_0000;
    }
  }

  lemma CodeSplits(n: nat, rest: seq<byte>)
    ensures (IntBytes(n) + rest)[0] / 16 == NibbleAt(IntBytes(n) + rest, 0)
  {
  }

  /** A number is read back from its code, whatever follows. */
  lemma IntBack(n: nat, rest: seq<byte>, max: nat)
    requires (n < WORD32 && max == 8) || (n < WORD64 && max == 16)
    ensures ReadInt(IntBytes(n) + rest, max) == Some((n, |IntBytes(n)|))
  {
    hide CodeNibble, Nibbles, IntBytes, Number, NibbleAt;
    NibblesFit(n);
    CodeSplits(n, rest);
    CodeNibbles(n, rest, 0);
    CodeIs(n, 0);
    NumberIs(n, rest);
  }

  lemma NumberIs(n: nat, rest: seq<byte>)
    ensures var c := if Nibbles(n) == 0 then 1 else Nibbles(n);
            c / 2 < |IntBytes(n)| && Number(IntBytes(n) + rest, c, 1) == n
  {
    hide CodeNibble, IntBytes, NibbleAt;
    NibblesLeft(n, 0);
    if n == 0 {
      CodeNibbles(n, rest, 1);
      CodeIs(n, 1);
      assert Number(IntBytes(n) + rest, 1, 2) == 0;
    } else {
      NumberBack(n, rest, 1);
    }
  }

  // ----- tags -----

  function TagBytes(t: nat): seq<byte>
  {
    if t < 128 then [t] else [128 + t % 128] + TagBytes(t / 128)
  }

  /** The tag at the start of `s` and how many bytes it takes. */
  function ReadTag(s: seq<byte>): Option<(nat, nat)>
  {
    if s == [] then None
    else if s[0] < 128 then Some((s[0], 1))
    else
      var r := ReadTag(s[1..]);
      if r.None? then None else Some((s[0] - 128 + 128 * r.value.0, r.value.1 + 1))
  }

  /** A tag is read back from its code, whatever follows. */
  lemma {:induction false} TagBack(t: nat, rest: seq<byte>)
    ensures ReadTag(TagBytes(t) + rest) == Some((t, |TagBytes(t)|))
  {
    var s := TagBytes(t) + rest;
    if t >= 128 {
      TagBack(t / 128, rest);
      assert s[1..] == TagBytes(t / 128) + rest;
    }
  }

  lemma TagShort(t: nat)
    requires t < WORD32
    ensures |TagBytes(t)| <= 5
  {
    var a, b, c := t / 128, t / 0x4000, t / 0x20_0000;
    var d := c / 128;
    assert d < 16 && b / 128 == c && a / 128 == b;
    assert |TagBytes(d)| == 1 && |TagBytes(c)| <= 2 && |TagBytes(b)| <= 3 && |TagBytes(a)| <= 4;
  }

  // ----- on an evbuffer -----

  /** A buffer that takes what is added and gives what is drained. */
  ghost predicate Open(buf: Evbuffer)
    reads buf, buf.v.cells
  {
    buf.Ready() && !buf.freezeStart && !buf.freezeEnd
  }

  method Append(buf: Evbuffer, data: seq<byte>)
    requires Open(buf)
    modifies buf, buf.v.cells
    ensures Open(buf) && fresh(buf.v.cells - old(buf.v.cells)) && buf.Content() == old(buf.Content()) + data
  {
    hide Evbuffer.Valid, TightParts, Evbuffer.Content;
    var ok, aborts := buf.Add(data);
  }

  /** evtag_encode_int, evtag_encode_int64 */
  method AddInt(buf: Evbuffer, n: nat, wide: bool)
    requires Open(buf) && n < (if wide then WORD64 else WORD32)
    modifies buf, buf.v.cells
    ensures Open(buf) && fresh(buf.v.cells - old(buf.v.cells)) && buf.Content() == old(buf.Content()) + IntBytes(n)
  {
    hide Open, Evbuffer.Content, IntBytes;
    var data := new byte[if wide then 9 else 5](_ => 0);
    var len := EncodeInt(data, n);
    Append(buf, data[..len]);
  }

  /** evtag_encode_tag */
  method AddTag(buf: Evbuffer, t: nat)
    requires Open(buf) && t < WORD32
    modifies buf, buf.v.cells
    ensures Open(buf) && fresh(buf.v.cells - old(buf.v.cells)) && buf.Content() == old(buf.Content()) + TagBytes(t)
  {
    hide Open, Evbuffer.Content;
    var data := TagCode(t);
    Append(buf, data);
  }

  method TagCode(t: nat) returns (data: seq<byte>)
    ensures data == TagBytes(t)
  {
    var tag := t;
    data := [];
    while true
      invariant TagBytes(t) == data + TagBytes(tag)
      decreases tag
    {
      var lower := tag % 128;
      tag := tag / 128;
      if tag != 0 { lower := lower + 128; }
      data := data + [lower];
      if tag == 0 { return; }
    }
  }

  /** What a record becomes. */
  function RecordBytes(tag: nat, data: seq<byte>): seq<byte>
  {
    TagBytes(tag) + IntBytes(|data|) + data
  }

  /** evtag_marshal */
  method Marshal(buf: Evbuffer, tag: nat, data: seq<byte>)
    requires Open(buf) && tag < WORD32 && |data| < WORD32
    modifies buf, buf.v.cells
    ensures Open(buf) && fresh(buf.v.cells - old(buf.v.cells)) && buf.Content() == old(buf.Content()) + RecordBytes(tag, data)
  {
    hide Open, Evbuffer.Content, IntBytes, TagBytes;
    ghost var s := buf.Content();
    AddTag(buf, tag);
    AddInt(buf, |data|, false);
    Append(buf, data);
    assert s + TagBytes(tag) + IntBytes(|data|) + data == s + RecordBytes(tag, data);
  }

  /** evtag_marshal_int, evtag_marshal_int64 */
  method MarshalInt(buf: Evbuffer, tag: nat, n: nat, wide: bool)
    requires Open(buf) && tag < WORD32 && n < (if wide then WORD64 else WORD32)
    modifies buf, buf.v.cells
    ensures Open(buf) && fresh(buf.v.cells - old(buf.v.cells))
    ensures buf.Content() == old(buf.Content()) + RecordBytes(tag, IntBytes(n))
  {
    hide Open, Evbuffer.Content, IntBytes, TagBytes, Nibbles;
    NibblesFit(n);
    var data := new byte[if wide then 9 else 5](_ => 0);
    var len := EncodeInt(data, n);
    Marshal(buf, tag, data[..len]);
  }

  /** The first `k` bytes, pulled up. */
  method Front(buf: Evbuffer, k: nat) returns (d: seq<byte>)
    requires Open(buf) && k <= |buf.Content()|
    modifies buf, buf.v.cells
    ensures Open(buf) && fresh(buf.v.cells - old(buf.v.cells)) && buf.Content() == old(buf.Content())
    ensures d == buf.Content()[..k]
  {
    hide Evbuffer.Valid, TightParts, Evbuffer.Content;
    d := [];
    if k == 0 { return; }
    var chain := Pullup(buf, k);
    d := chain.buffer[chain.misalign..chain.misalign + k];
  }

  method Length(buf: Evbuffer) returns (n: nat)
    requires Open(buf)
    ensures n == |buf.Content()|
  {
    hide Rep, Run, Flatten, LastWithData, TightParts;
    RepRun(buf.v, buf.first, buf.last, buf.lastWithDatap, buf.totalLen);
    n := buf.totalLen;
  }

  /** decode_tag_internal: the tag at the front, if it ends within five bytes; -1 when it
      does not. `past` tells when the source reads on beyond the five bytes it has pulled up,
      which stands as -1 here. */
  method DecodeTag(buf: Evbuffer, doDrain: bool) returns (count: int, tag: nat, ghost past: bool)
    requires Open(buf)
    modifies buf, buf.v.cells
    ensures Open(buf) && fresh(buf.v.cells - old(buf.v.cells))
    ensures var r := ReadTag(FirstFive(old(buf.Content())));
            && count == (if r.None? then -1 else r.value.1) && (r.Some? ==> tag == r.value.0 % WORD32 && 0 < count <= |old(buf.Content())|)
            && buf.Content() == (if r.Some? && doDrain then old(buf.Content())[r.value.1..] else old(buf.Content()))
    ensures var s := old(buf.Content());
            && (past <==> |s| > 5 && Unfinished(s[..5]))
            && (count == -1 <==> past || (|s| <= 5 && Unfinished(s)))
  {
    hide Evbuffer.Valid, TightParts, Evbuffer.Content;
    var len := Length(buf);
    ghost var s := buf.Content();
    count, tag, past := -1, 0, |s| > 5 && Unfinished(FirstFive(s));
    UnfinishedTag(FirstFive(s));
    if len == 0 { return; }
    var data := Front(buf, if len < 5 then len else 5);
    assert data == FirstFive(s);
    var r := ScanTag(data);
    ReadTagFits(data);
    if r.None? { return; }
    count, tag := r.value.1, r.value.0 % WORD32;
    if doDrain { var ok := buf.Drain(r.value.1); }
  }

  /** Every byte says that there is another one. */
  predicate Unfinished(s: seq<byte>)
  {
    forall i :: 0 <= i < |s| ==> s[i] >= 128
  }

  lemma {:induction false} UnfinishedTag(s: seq<byte>)
    ensures ReadTag(s).None? <==> Unfinished(s)
  {
    if s != [] {
      UnfinishedTag(s[1..]);
      assert s == [s[0]] + s[1..];
    }
  }

  /** A tag of six bytes: the source's loop, which goes on as long as the buffer does, would
      find it, but not within what was pulled up. */
  lemma SixByteTag(s: seq<byte>)
    requires s == [128, 128, 128, 128, 128, 0]
    ensures ReadTag(s) == Some((0, 6)) && ReadTag(FirstFive(s)) == None
  {
    UnfinishedTag(FirstFive(s));
    assert ReadTag(s[5..]) == Some((0, 1));
    assert ReadTag(s[4..]) == Some((0, 2)) && ReadTag(s[3..]) == Some((0, 3));
    assert ReadTag(s[2..]) == Some((0, 4)) && ReadTag(s[1..]) == Some((0, 5));
  }

  /** Its loop. */
  method ScanTag(data: seq<byte>) returns (r: Option<(nat, nat)>)
    ensures r == ReadTag(data)
  {
    var number: nat, weight: nat, count: nat := 0, 1, 0;
    assert data[0..] == data;
    while count < |data|
      invariant count <= |data| && ReadTag(data) == Added(number, weight, count, ReadTag(data[count..]))
    {
      var lower: nat := data[count];
      assert data[count..][0] == lower && data[count..][1..] == data[count + 1..];
      TagStep(number, weight, count, lower, data[count..]);
      number := number + lower % 128 * weight;
      weight := weight * 128;
      count := count + 1;
      if lower < 128 { return Some((number, count)); }
    }
    r := None;
  }

  lemma {:induction false} ReadTagFits(s: seq<byte>)
    ensures ReadTag(s).Some? ==> 0 < ReadTag(s).value.1 <= |s|
  {
    if s != [] { ReadTagFits(s[1..]); }
  }

  function FirstFive(s: seq<byte>): seq<byte>
  {
    if |s| < 5 then s else s[..5]
  }

  /** A tag of which the first `count` bytes have given `n` so far. */
  function Added(n: nat, weight: nat, count: nat, r: Option<(nat, nat)>): Option<(nat, nat)>
  {
    if r.None? then None else Some((n + weight * r.value.0, count + r.value.1))
  }

  lemma TagStep(n: nat, weight: nat, count: nat, lower: nat, s: seq<byte>)
    requires s != [] && s[0] == lower
    ensures Added(n, weight, count, ReadTag(s)) ==
            if lower < 128 then Some((n + lower % 128 * weight, count + 1))
            else Added(n + lower % 128 * weight, weight * 128, count + 1, ReadTag(s[1..]))
  {
    var r := ReadTag(s[1..]);
    if lower >= 128 && r.Some? {
      Distributed(weight, lower - 128, r.value.0);
    } else if lower < 128 {
      assert weight * lower == lower % 128 * weight;
    }
  }

  lemma Distributed(w: nat, a: nat, b: nat)
    ensures w * (a + 128 * b) == a * w + w * 128 * b
  {
  }

  /** DECODE_INT_INTERNAL at `offset`: how many bytes the number takes, or -1. */
  method DecodeInt(buf: Evbuffer, offset: nat, max: nat) returns (len: int, number: nat)
    requires Open(buf) && offset <= |buf.Content()|
    modifies buf, buf.v.cells
    ensures Open(buf) && fresh(buf.v.cells - old(buf.v.cells)) && buf.Content() == old(buf.Content())
    ensures var r := ReadInt(buf.Content()[offset..], max);
            if r.None? then len == -1 else len == r.value.1 && number == r.value.0 && offset + len <= |buf.Content()|
  {
    hide Evbuffer.Valid, TightParts, Evbuffer.Content, Number;
    var total := Length(buf);
    ghost var s := buf.Content()[offset..];
    len, number := -1, 0;
    if total <= offset { return; }
    var data := Front(buf, offset + 1);
    var nibbles := data[offset] / 16 + 1;
    assert data[offset] == s[0];
    if nibbles > max || nibbles / 2 + 1 > total - offset { return; }
    len := nibbles / 2 + 1;
    data := Front(buf, offset + len);
    SlicesAgree(buf.Content(), offset, len);
    number := Gather(data[offset..], nibbles);
    NumberLocal(data[offset..], s, nibbles, 1);
  }

  lemma SlicesAgree(s: seq<byte>, offset: nat, len: nat)
    requires offset + len <= |s|
    ensures s[..offset + len][offset..] <= s[offset..] && |s[..offset + len][offset..]| == len
  {
  }

  /** The loop that puts the nibbles together. */
  method Gather(d: seq<byte>, c: nat) returns (number: nat)
    requires c / 2 < |d|
    ensures number == Number(d, c, 1)
  {
    hide Half;
    var nibbles: nat := c;
    number := 0;
    while nibbles > 0
      invariant nibbles <= c && number == Number(d, c, nibbles + 1)
    {
      number := number * 16 + Half(d[nibbles / 2], nibbles);
      nibbles := nibbles - 1;
    }
  }

  lemma {:induction false} NumberLocal(d: seq<byte>, s: seq<byte>, c: nat, k: nat)
    requires c / 2 < |d| && d <= s
    ensures Number(d, c, k) == Number(s, c, k)
    decreases c + 1 - k
  {
    hide Half;
    if k <= c {
      NumberLocal(d, s, c, k + 1);
      assert d[k / 2] == s[k / 2];
    }
  }

  lemma Onwards(s: seq<byte>, a: nat, b: nat)
    requires a + b <= |s|
    ensures s[a..][b..] == s[a + b..]
  {
  }

  /** What the front of a stream is. */
  datatype Header = NoHeader | Header(tag: nat, len: nat, size: nat)

  function ReadHeader(s: seq<byte>): Header
  {
    var t := ReadTag(FirstFive(s));
    if t.None? || t.value.1 > |s| then NoHeader
    else
      var l := ReadInt(s[t.value.1..], 8);
      if l.None? then NoHeader else Header(t.value.0 % WORD32, l.value.0, t.value.1 + l.value.1)
  }

  /** A 32-bit length returned as an int. */
  function AsInt(n: nat): int
  {
    if n < WORD32 / 2 then n else n - WORD32
  }

  /** A header at the front, with as many bytes behind it as it says. */
  predicate Whole(s: seq<byte>)
  {
    var h := ReadHeader(s);
    h.Header? && h.size <= |s| && h.len <= |s| - h.size
  }

  /** evtag_unmarshal_header: the tag and the length of the payload, or -1; a length of 2^31
      or more comes out negative. */
  method UnmarshalHeader(buf: Evbuffer) returns (len: int, tag: nat)
    requires Open(buf)
    modifies buf, buf.v.cells
    ensures Open(buf) && fresh(buf.v.cells - old(buf.v.cells))
    ensures var s := old(buf.Content()); var h := ReadHeader(s);
            if Whole(s) then len == AsInt(h.len) && tag == h.tag && buf.Content() == s[h.size..] else len == -1
  {
    hide Open, Evbuffer.Content, ReadInt, ReadTag, FirstFive;
    ghost var s := buf.Content();
    var count;
    ghost var past;
    count, tag, past := DecodeTag(buf, true);
    if count == -1 { return -1, tag; }
    var size, n := DecodeInt(buf, 0, 8);
    assert buf.Content()[0..] == buf.Content();
    if size == -1 { return -1, tag; }
    Discard(buf, size);
    Onwards(s, count, size);
    var total := Length(buf);
    len := if total < n then -1 else AsInt(n);
  }

  method Discard(buf: Evbuffer, n: nat)
    requires Open(buf) && n <= |buf.Content()|
    modifies buf, buf.v.cells
    ensures Open(buf) && buf.v.cells <= old(buf.v.cells) && buf.Content() == old(buf.Content())[n..]
  {
    hide Evbuffer.Valid, TightParts, Evbuffer.Content;
    var ok := buf.Drain(n);
  }

  /** evtag_unmarshal: the payload is added to `dst`. With a length that comes out negative
      evbuffer_add refuses to add as much as that is without its sign. */
  method Unmarshal(src: Evbuffer, dst: Evbuffer) returns (len: int, tag: nat)
    requires Open(src) && Open(dst) && src != dst && Apart(src, dst)
    modifies src, src.v.cells, dst, dst.v.cells
    ensures Open(src) && Open(dst) && Apart(src, dst)
    ensures fresh(src.v.cells - old(src.v.cells)) && fresh(dst.v.cells - old(dst.v.cells))
    ensures var s := old(src.Content()); var h := ReadHeader(s);
            if Whole(s) && h.len < WORD32 / 2 then
              && len == h.len && tag == h.tag && src.Content() == s[h.size + h.len..]
              && dst.Content() == old(dst.Content()) + s[h.size..h.size + h.len]
            else len == -1 && dst.Content() == old(dst.Content())
  {
    hide Open, Evbuffer.Content, ReadHeader, Whole;
    ghost var s := src.Content();
    len, tag := UnmarshalHeader(src);
    if Whole(s) { WholeFits(s); }
    if len < 0 { return -1, tag; }
    ghost var h := ReadHeader(s);
    var data := Front(src, len);
    Append(dst, data);
    Discard(src, len);
    Onwards(s, h.size, len);
    assert s[h.size..][..len] == s[h.size..h.size + len];
  }

  lemma WholeFits(s: seq<byte>)
    requires Whole(s)
    ensures ReadHeader(s).Header? && ReadHeader(s).size + ReadHeader(s).len <= |s| && ReadHeader(s).len < WORD32
  {
    hide ReadTag, ReadInt, FirstFive;
    ReadIntFits(s[ReadTag(FirstFive(s)).value.1..]);
  }

  /** A record is read back, whatever follows. */
  lemma RecordBack(tag: nat, data: seq<byte>, rest: seq<byte>)
    requires tag < WORD32 && |data| < WORD32
    ensures var s := RecordBytes(tag, data) + rest; var n := |RecordBytes(tag, data)|;
            && ReadHeader(s) == Header(tag, |data|, n - |data|)
            && n - |data| >= 0 && s[n - |data|..n] == data && s[n..] == rest
  {
    hide IntBytes, TagBytes, ReadInt, ReadTag;
    var t, l := TagBytes(tag), IntBytes(|data|);
    var s := RecordBytes(tag, data) + rest;
    TagShort(tag);
    assert s == t + (l + (data + rest));
    TagBack(tag, (l + (data + rest))[..if |s| < 5 then |l + (data + rest)| else 5 - |t|]);
    assert FirstFive(s) == t + (l + (data + rest))[..if |s| < 5 then |l + (data + rest)| else 5 - |t|];
    assert s[|t|..] == l + (data + rest);
    IntBack(|data|, data + rest, 8);
    assert s[|t| + |l|..|t| + |l| + |data|] == data;
  }

  // ----- streams -----

  datatype Record = Record(tag: nat, data: seq<byte>)

  predicate RecordOk(r: Record)
  {
    r.tag < WORD32 && |r.data| < WORD32 / 2
  }

  function Stream(rs: seq<Record>): seq<byte>
  {
    if rs == [] then [] else RecordBytes(rs[0].tag, rs[0].data) + Stream(rs[1..])
  }

  lemma {:induction false} StreamSnoc(rs: seq<Record>, r: Record)
    ensures Stream(rs + [r]) == Stream(rs) + RecordBytes(r.tag, r.data)
  {
    if rs == [] {
      assert [r][1..] == [] && [] + [r] == [r];
    } else {
      assert (rs + [r])[1..] == rs[1..] + [r];
      StreamSnoc(rs[1..], r);
    }
  }

  method MarshalAll(buf: Evbuffer, rs: seq<Record>)
    requires Open(buf) && forall k :: 0 <= k < |rs| ==> RecordOk(rs[k])
    modifies buf, buf.v.cells
    ensures Open(buf) && fresh(buf.v.cells - old(buf.v.cells)) && buf.Content() == old(buf.Content()) + Stream(rs)
  {
    hide Open, Evbuffer.Content, RecordBytes;
    ghost var s := buf.Content();
    assert rs[..0] == [] && s + [] == s;
    for k := 0 to |rs|
      invariant Open(buf) && fresh(buf.v.cells - old(buf.v.cells)) && buf.Content() == s + Stream(rs[..k])
    {
      StreamSnoc(rs[..k], rs[k]);
      assert rs[..k] + [rs[k]] == rs[..k + 1];
      Marshal(buf, rs[k].tag, rs[k].data);
      assert s + Stream(rs[..k]) + RecordBytes(rs[k].tag, rs[k].data) == s + Stream(rs[..k + 1]);
    }
    assert rs[..|rs|] == rs;
  }

  /** A record into a buffer of its own. */
  method UnmarshalOne(buf: Evbuffer, ghost was: Record, ghost rest: seq<byte>) returns (r: Record)
    requires Open(buf) && RecordOk(was) && buf.Content() == RecordBytes(was.tag, was.data) + rest
    modifies buf, buf.v.cells
    ensures Open(buf) && fresh(buf.v.cells - old(buf.v.cells)) && r == was && buf.Content() == rest
  {
    hide Open, Evbuffer.Content, RecordBytes, ReadHeader, Evbuffer.Valid;
    RecordBack(was.tag, was.data, rest);
    var dst := NewBuffer(buf);
    var len, tag := Unmarshal(buf, dst);
    assert [] + was.data == was.data;
    OpenValid(dst);
    var n, data := dst.Copyout(len);
    assert was.data[..len] == was.data;
    r := Record(tag, data);
  }

  method NewBuffer(other: Evbuffer) returns (buf: Evbuffer)
    ensures fresh(buf) && Open(buf) && buf.Content() == [] && buf.v.cells == {} && Apart(other, buf)
  {
    buf := new Evbuffer();
  }

  lemma OpenValid(buf: Evbuffer)
    requires Open(buf)
    ensures buf.Valid() && !buf.freezeStart
  {
  }

  method UnmarshalAll(buf: Evbuffer, ghost rs: seq<Record>, n: nat) returns (back: seq<Record>)
    requires Open(buf) && |rs| == n && (forall k :: 0 <= k < |rs| ==> RecordOk(rs[k])) && buf.Content() == Stream(rs)
    modifies buf, buf.v.cells
    ensures Open(buf) && fresh(buf.v.cells - old(buf.v.cells)) && back == rs && buf.Content() == []
  {
    hide Open, Evbuffer.Content, RecordBytes, ReadHeader;
    back := [];
    assert rs[0..] == rs;
    for k := 0 to n
      invariant Open(buf) && fresh(buf.v.cells - old(buf.v.cells)) && buf.Content() == Stream(rs[k..]) && back == rs[..k]
    {
      assert rs[k..][0] == rs[k] && rs[k..][1..] == rs[k + 1..];
      RecordBack(rs[k].tag, rs[k].data, Stream(rs[k + 1..]));
      var r := UnmarshalOne(buf, rs[k], Stream(rs[k + 1..]));
      back := back + [r];
    }
    assert rs[|rs|..] == [];
  }

  /** Records that are marshalled one after the other are unmarshalled as they were, with
      nothing left over. */
  method StreamRoundTrip(buf: Evbuffer, rs: seq<Record>) returns (back: seq<Record>)
    requires Open(buf) && buf.Content() == [] && forall k :: 0 <= k < |rs| ==> RecordOk(rs[k])
    modifies buf, buf.v.cells
    ensures Open(buf) && back == rs && buf.Content() == []
  {
    hide Open, Evbuffer.Content, Stream;
    MarshalAll(buf, rs);
    assert [] + Stream(rs) == Stream(rs);
    back := UnmarshalAll(buf, rs, |rs|);
  }

  /** evtag_unmarshal_int, evtag_unmarshal_int64 */
  method UnmarshalInt(buf: Evbuffer, needTag: nat, wide: bool) returns (result: int, n: nat)
    requires Open(buf)
    modifies buf, buf.v.cells
    ensures Open(buf) && fresh(buf.v.cells - old(buf.v.cells))
    ensures var s := old(buf.Content()); var h := ReadHeader(s);
            if h.Header? && h.tag == needTag && h.size <= |s| && h.len <= |s| - h.size then
              var r := ReadInt(s[h.size..], if wide then 16 else 8);
              && buf.Content() == s[h.size + h.len..]
              && if r.Some? && r.value.1 <= h.len then result == r.value.1 && n == r.value.0 else result == -1
            else result == -1
  {
    hide Open, Evbuffer.Content, ReadInt, ReadHeader;
    ghost var s := buf.Content();
    n := 0;
    var len := HeaderFor(buf, needTag);
    if len == -1 { return -1, n; }
    Onwards(s, ReadHeader(s).size, len);
    result, n := IntPayload(buf, len, if wide then 16 else 8);
  }

  /** The header of a record with the tag that is wanted: the length of the payload. */
  method HeaderFor(buf: Evbuffer, needTag: nat) returns (len: int)
    requires Open(buf)
    modifies buf, buf.v.cells
    ensures Open(buf) && fresh(buf.v.cells - old(buf.v.cells))
    ensures var s := old(buf.Content()); var h := ReadHeader(s);
            if h.Header? && h.tag == needTag && h.size <= |s| && h.len <= |s| - h.size then
              len == h.len && buf.Content() == s[h.size..]
            else len == -1
  {
    hide Open, Evbuffer.Content, ReadInt, ReadTag, FirstFive;
    ghost var s := buf.Content();
    var count, tag;
    ghost var past;
    count, tag, past := DecodeTag(buf, true);
    if count == -1 || tag != needTag { return -1; }
    var size, n := DecodeInt(buf, 0, 8);
    assert buf.Content()[0..] == buf.Content();
    if size == -1 { return -1; }
    Discard(buf, size);
    assert s[count..][size..] == s[count + size..];
    var total := Length(buf);
    len := if total < n then -1 else n;
  }

  /** The payload of an integer record: the integer in it, which may be shorter. */
  method IntPayload(buf: Evbuffer, len: nat, max: nat) returns (result: int, n: nat)
    requires Open(buf) && len <= |buf.Content()|
    modifies buf, buf.v.cells
    ensures Open(buf) && fresh(buf.v.cells - old(buf.v.cells)) && buf.Content() == old(buf.Content())[len..]
    ensures var r := ReadInt(old(buf.Content()), max);
            if r.Some? && r.value.1 <= len then result == r.value.1 && n == r.value.0 else result == -1
  {
    hide Open, Evbuffer.Content, ReadInt;
    assert buf.Content()[0..] == buf.Content();
    result, n := DecodeInt(buf, 0, max);
    Discard(buf, len);
    if result > len { result := -1; }
  }

  /** An integer comes back from its record, and nothing is left. */
  method IntRoundTrip(buf: Evbuffer, tag: nat, n: nat, wide: bool) returns (result: int, m: nat)
    requires Open(buf) && buf.Content() == [] && tag < WORD32 && n < (if wide then WORD64 else WORD32)
    modifies buf, buf.v.cells
    ensures Open(buf) && result == |IntBytes(n)| && m == n && buf.Content() == []
  {
    hide Open, Evbuffer.Content, RecordBytes, ReadHeader, ReadInt, IntBytes, Nibbles;
    MarshalInt(buf, tag, n, wide);
    NibblesFit(n);
    ghost var s := buf.Content();
    assert s == RecordBytes(tag, IntBytes(n)) + [];
    RecordBack(tag, IntBytes(n), []);
    ghost var h := ReadHeader(s);
    assert s[h.size..] == IntBytes(n) + [];
    IntBack(n, [], if wide then 16 else 8);
    result, m := UnmarshalInt(buf, tag, wide);
  }
}
