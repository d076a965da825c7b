/** Positions in an evbuffer and searching across its chains (buffer.c). */
module EvbufferSearch {
  import opened Common
  import opened EvChain
  import opened EvRun
  import opened Evbuffer

  const CR: byte := 13
  const LF: byte := 10
  const CHUNK_SZ := 128

  /** struct evbuffer_ptr */
  datatype Ptr = Ptr(pos: int, chain: Chain?, inChain: nat)

  const NOWHERE := Ptr(-1, null, 0)

  /** `p` stands for byte `p.pos` of the buffer, in chain `i`, or for the place behind
      that chain's last byte. */
  ghost predicate At(v: View, p: Ptr, i: nat)
  {
    && |v.chains| == |v.parts| && i <= |v.chains| && p.chain == ChainAt(v.chains, i)
    && p.pos == |Flatten(v.parts[..i])| + p.inChain
    && (if i < |v.chains| then p.inChain <= |v.parts[i]| else p.inChain == 0)
  }

  /** `p` stands for a byte of the buffer. */
  ghost predicate On(v: View, p: Ptr, i: nat)
  {
    At(v, p, i) && i < |v.chains| && p.inChain < |v.parts[i]|
  }

  /** Where the bytes of a part are in the whole. */
  lemma PartBytes(parts: seq<seq<byte>>, i: nat)
    requires i < |parts|
    ensures var n := |Flatten(parts[..i])|;
            && |Flatten(parts[..i + 1])| == n + |parts[i]| <= |Flatten(parts)|
            && forall m :: 0 <= m < |parts[i]| ==> Flatten(parts)[n + m] == parts[i][m]
  {
    hide Flatten;
    FlattenAt(parts, i);
    FlattenTake(parts, i);
  }

  lemma PartsEnd(parts: seq<seq<byte>>)
    ensures |Flatten(parts[..0])| == 0 && |Flatten(parts[..|parts|])| == |Flatten(parts)|
  {
    FlattenEnds(parts);
  }

  lemma {:induction false} PrefixGrows(parts: seq<seq<byte>>, i: nat, j: nat)
    requires i <= j <= |parts|
    ensures |Flatten(parts[..i])| <= |Flatten(parts[..j])| <= |Flatten(parts)|
    decreases j - i, |parts| - j
  {
    hide Flatten;
    if i < j {
      FlattenTake(parts, j - 1);
      PrefixGrows(parts, i, j - 1);
    }
    FlattenSplit(parts, j);
  }

  /** A byte has one pointer. */
  lemma OnePtr(v: View, p: Ptr, i: nat, q: Ptr, j: nat)
    requires On(v, p, i) && On(v, q, j) && p.pos == q.pos
    ensures p == q && i == j
  {
    hide Flatten;
    PartBytes(v.parts, i);
    PartBytes(v.parts, j);
    if i < j { PrefixGrows(v.parts, i + 1, j); }
    if j < i { PrefixGrows(v.parts, j + 1, i); }
  }

  lemma ChainFacts(buf: Evbuffer, i: nat)
    requires buf.Valid() && i < |buf.v.chains|
    ensures |buf.v.parts| == |buf.v.chains|
    ensures var c := buf.v.chains[i];
            c.Holds(buf.v.parts[i]) && c.off == |buf.v.parts[i]| && c.next == ChainAt(buf.v.chains, i + 1)
  {
    RunAt(buf.v.chains, buf.v.parts, null, buf.v.cells, i);
  }

  lemma BufFacts(buf: Evbuffer)
    requires buf.Valid()
    ensures |buf.v.chains| == |buf.v.parts| && buf.first == ChainAt(buf.v.chains, 0) && buf.totalLen == |buf.Content()|
    ensures At(buf.v, Ptr(0, buf.first, 0), 0)
  {
    PartsEnd(buf.v.parts);
  }

  lemma LastFact(buf: Evbuffer)
    requires buf.Valid()
    ensures buf.last == LastOf(buf.v.chains)
  {
  }

  // ----- positions -----

  datatype How = Set | Add

  /** evbuffer_ptr_set */
  method PtrSet(buf: Evbuffer, p: Ptr, position: nat, how: How, ghost i: nat) returns (q: Ptr, ok: bool, ghost j: nat)
    requires buf.Valid() && (how.Add? && p.pos >= 0 ==> On(buf.v, p, i))
    ensures var target := if how.Set? then position else p.pos + position;
            && (ok <==> (how.Set? || p.pos >= 0) && target < |buf.Content()|)
            && (ok ==> q.pos == target)
            && (!ok ==> q.pos < 0 && (q == p || q.chain == null))
    ensures ok ==> On(buf.v, q, j)
  {
    hide Rep, Run, Chain.Holds, Flatten, LastWithData, Evbuffer.Valid;
    BufFacts(buf);
    var left: nat, at: nat, chain, pos := position, 0, buf.first, position;
    j := 0;
    if how.Add? {
      if p.pos < 0 { return p, false, 0; }
      chain, pos, at, j := p.chain, p.pos + position, p.inChain, i;
    }
    while chain != null
      invariant j <= |buf.v.chains| && chain == ChainAt(buf.v.chains, j)
      invariant pos == |Flatten(buf.v.parts[..j])| + at + left
      invariant if j < |buf.v.chains| then at <= |buf.v.parts[j]| else at == 0
      decreases |buf.v.chains| - j
    {
      ChainFacts(buf, j);
      PartBytes(buf.v.parts, j);
      if at + left < chain.off { break; }
      left := left - (chain.off - at);
      chain := chain.next;
      at := 0;
      j := j + 1;
    }
    PartsEnd(buf.v.parts);
    if chain != null {
      q := Ptr(pos, chain, at + left);
    } else {
      q := Ptr(-1, null, p.inChain);
    }
    ok := chain != null;
  }

  /** Going to `a` and then `b` on is going to `a + b`, and fails when that does. */
  method SetThenAdd(buf: Evbuffer, p: Ptr, a: nat, b: nat) returns (q: Ptr, r: Ptr, okQ: bool, okR: bool)
    requires buf.Valid()
    ensures okQ == okR && (okQ ==> q == r)
  {
    hide Rep, Run, Chain.Holds, Flatten, LastWithData, Evbuffer.Valid, On;
    ghost var i, k;
    q, okQ, i := PtrSet(buf, p, a, Set, 0);
    if okQ { q, okQ, i := PtrSet(buf, q, b, Add, i); }
    r, okR, k := PtrSet(buf, p, a + b, Set, 0);
    if okQ && okR { OnePtr(buf.v, q, i, r, k); }
  }

  // ----- looking for one byte -----

  /** What to look for: a given byte, or an end of line of either kind. */
  datatype Target = Byte(b: byte) | AnyEol

  predicate Hit(t: Target, b: byte)
  {
    if t.Byte? then b == t.b else b == CR || b == LF
  }

  /** The first hit of `t` in `s` from `from` on, up to `to`. */
  predicate FirstHit(s: seq<byte>, t: Target, from: nat, to: nat, r: Option<nat>)
    requires to <= |s|
  {
    match r
    case Some(k) => from <= k < to && Hit(t, s[k]) && forall m :: from <= m < k ==> !Hit(t, s[m])
    case None => forall m :: from <= m < to ==> !Hit(t, s[m])
  }

  method MemChr(s: seq<byte>, from: nat, to: nat, b: byte) returns (r: Option<nat>)
    requires from <= to <= |s|
    ensures FirstHit(s, Byte(b), from, to, r)
  {
    for k := from to to
      invariant forall m :: from <= m < k ==> s[m] != b
    {
      if s[k] == b { return Some(k); }
    }
    r := None;
  }

  /** find_eol_char: in pieces of CHUNK_SZ bytes, each looked through twice, the first CR
      or LF as a plain scan would find it. */
  method FindEolChar(s: seq<byte>, from: nat) returns (r: Option<nat>)
    requires from <= |s|
    ensures FirstHit(s, AnyEol, from, |s|, r)
  {
    var at := from;
    while at < |s|
      invariant from <= at && forall m :: from <= m < at && m < |s| ==> !Hit(AnyEol, s[m])
    {
      var chunk := if at + CHUNK_SZ < |s| then CHUNK_SZ else |s| - at;
      var cr := MemChr(s, at, at + chunk, CR);
      var lf := MemChr(s, at, at + chunk, LF);
      if cr.Some? {
        if lf.Some? && lf.value < cr.value { return lf; }
        return cr;
      } else if lf.Some? {
        return lf;
      }
      at := at + CHUNK_SZ;
    }
    r := None;
  }

  /** The bytes of a chain. */
  method Data(buf: Evbuffer, chain: Chain, ghost i: nat) returns (data: seq<byte>)
    requires buf.Valid() && i < |buf.v.chains| && chain == buf.v.chains[i]
    ensures |buf.v.parts| == |buf.v.chains| && data == buf.v.parts[i] && chain.off == |data|
    ensures chain.next == ChainAt(buf.v.chains, i + 1)
  {
    hide Rep, Run, Chain.Peek, Flatten, Evbuffer.Valid;
    ChainFacts(buf, i);
    data := chain.Peek(chain.off, buf.v.parts[i]);
  }

  /** evbuffer_strchr and evbuffer_find_eol_char: the first hit at or after `it`. */
  method FindByte(buf: Evbuffer, it: Ptr, t: Target, ghost i: nat) returns (q: Ptr, ghost j: nat)
    requires buf.Valid() && At(buf.v, it, i)
    ensures it.pos <= |buf.Content()|
    ensures q.pos >= 0 ==> On(buf.v, q, j) && q.pos < |buf.Content()|
    ensures q.pos >= -1
    ensures FirstHit(buf.Content(), t, it.pos, |buf.Content()|, if q.pos >= 0 then Some(q.pos) else None)
  {
    hide Rep, Run, Chain.Holds, Flatten, LastWithData, Evbuffer.Valid, Hit, FirstHit;
    ghost var s := buf.Content();
    AtBound(buf.v, it, i);
    NoHitYet(s, t, it.pos);
    var chain, from, pos := it.chain, it.inChain, it.pos;
    j := i;
    while chain != null
      invariant j <= |buf.v.chains| && chain == ChainAt(buf.v.chains, j)
      invariant At(buf.v, Ptr(pos, chain, from), j) && it.pos <= pos <= |s|
      invariant FirstHit(s, t, it.pos, pos, None)
      decreases |buf.v.chains| - j
    {
      var data := Data(buf, chain, j);
      var cp;
      if t.Byte? { cp := MemChr(data, from, |data|, t.b); } else { cp := FindEolChar(data, from); }
      PartBytes(buf.v.parts, j);
      HitInPart(buf.v.parts, j, t, it.pos, from, cp);
      if cp.Some? {
        pos := pos + (cp.value - from);
        q := Ptr(pos, chain, cp.value);
        return;
      }
      pos := pos + (chain.off - from);
      from := 0;
      chain := chain.next;
      j := j + 1;
    }
    PartsEnd(buf.v.parts);
    q := NOWHERE;
  }

  lemma NoHitYet(s: seq<byte>, t: Target, from: nat)
    requires from <= |s|
    ensures FirstHit(s, t, from, from, None)
  {
  }

  /** The first hit in a part, after none before it, is the first hit in the whole. */
  lemma HitInPart(parts: seq<seq<byte>>, j: nat, t: Target, start: nat, from: nat, r: Option<nat>)
    requires j < |parts| && from <= |parts[j]| && FirstHit(parts[j], t, from, |parts[j]|, r)
    requires var n := |Flatten(parts[..j])|;
             start <= n + from <= |Flatten(parts)| && FirstHit(Flatten(parts), t, start, n + from, None)
    ensures var n := |Flatten(parts[..j])|;
            && n + |parts[j]| <= |Flatten(parts)|
            && (r.None? ==> FirstHit(Flatten(parts), t, start, n + |parts[j]|, None))
            && (r.Some? ==> FirstHit(Flatten(parts), t, start, |Flatten(parts)|, Some(n + r.value)))
  {
    hide Flatten, Hit;
    PartBytes(parts, j);
    var n, s := |Flatten(parts[..j])|, Flatten(parts);
    assert forall m :: n <= m < n + |parts[j]| ==> s[m] == parts[j][m - n];
  }

  lemma AtBound(v: View, p: Ptr, i: nat)
    requires At(v, p, i)
    ensures 0 <= p.pos <= |Flatten(v.parts)|
  {
    hide Flatten;
    if i < |v.parts| { PartBytes(v.parts, i); } else { PartsEnd(v.parts); }
  }

  // ----- runs of bytes, and comparing -----

  /** `n` is how many bytes from `from` on are in `set`. */
  predicate Span(s: seq<byte>, chrset: seq<byte>, from: nat, n: nat)
  {
    && from + n <= |s| && (forall m :: from <= m < from + n ==> s[m] in chrset)
    && (from + n < |s| ==> s[from + n] !in chrset)
  }

  /** evbuffer_strspn: how many of the bytes from `ptr` on are in `chrset`, and the pointer
      moved over them. At the end of the buffer that has the right position but stands at the
      start of the last chain. */
  method StrSpn(buf: Evbuffer, ptr: Ptr, chrset: seq<byte>, ghost i: nat) returns (count: int, q: Ptr, ghost j: nat)
    requires buf.Valid() && At(buf.v, ptr, i)
    ensures ptr.chain == null ==> count == -1 && q == ptr
    ensures ptr.chain != null ==> count >= 0 && ptr.pos >= 0 && Span(buf.Content(), chrset, ptr.pos, count)
    ensures ptr.chain != null ==> q.pos == ptr.pos + count
    ensures ptr.chain != null && q.pos < |buf.Content()| ==> On(buf.v, q, j)
    ensures ptr.chain != null && q.pos == |buf.Content()| ==> q.chain == buf.last && q.inChain == 0
  {
    hide Rep, Run, Chain.Holds, Flatten, LastWithData, Evbuffer.Valid;
    q, j := ptr, i;
    if ptr.chain == null { return -1, q, j; }
    ghost var s := buf.Content();
    LastFact(buf);
    AtBound(buf.v, ptr, i);
    count := 0;
    var chain, from: nat := ptr.chain, ptr.inChain;
    while true
      invariant j < |buf.v.chains| && chain == buf.v.chains[j] && count >= 0
      invariant At(buf.v, Ptr(ptr.pos + count, chain, from), j) && ptr.pos + count <= |s|
      invariant forall m :: ptr.pos <= m < ptr.pos + count ==> s[m] in chrset
      decreases |buf.v.chains| - j
    {
      var data := Data(buf, chain, j);
      PartBytes(buf.v.parts, j);
      ghost var n := |Flatten(buf.v.parts[..j])|;
      while from < chain.off
        invariant from <= |data| && count >= 0 && n + from == ptr.pos + count
        invariant forall m :: ptr.pos <= m < ptr.pos + count ==> s[m] in chrset
      {
        assert s[n + from] == data[from];
        if data[from] !in chrset {
          q := Ptr(ptr.pos + count, chain, from);
          return;
        }
        count := count + 1;
        from := from + 1;
      }
      PartsEnd(buf.v.parts);
      if chain.next == null {
        q := Ptr(ptr.pos + count, chain, 0);
        return;
      }
      chain, from, j := chain.next, 0, j + 1;
    }
  }

  /** `a` comes before `b` in the order of their first different byte. */
  predicate Before(a: seq<byte>, b: seq<byte>)
  {
    |a| == |b| && exists k :: 0 <= k < |a| && a[..k] == b[..k] && a[k] < b[k]
  }

  /** memcmp */
  method MemCmp(a: seq<byte>, b: seq<byte>) returns (r: int)
    requires |a| == |b|
    ensures r == 0 <==> a == b
    ensures r < 0 ==> Before(a, b)
    ensures r > 0 ==> Before(b, a)
  {
    for k := 0 to |a|
      invariant a[..k] == b[..k]
    {
      if a[k] != b[k] {
        var x: int, y: int := a[k], b[k];
        return x - y;
      }
    }
    assert a[..|a|] == a && b[..|b|] == b;
    r := 0;
  }

  /** The bytes `what` are at `k`. */
  predicate Matches(s: seq<byte>, what: seq<byte>, k: int)
  {
    0 <= k <= |s| - |what| && s[k..k + |what|] == what
  }

  /** evbuffer_ptr_memcmp: 0 just when the bytes from `p` on are `mem`; -1 when there are not so
      many, and otherwise the sign tells which comes first. */
  method PtrMemcmp(buf: Evbuffer, p: Ptr, mem: seq<byte>, ghost i: nat) returns (r: int)
    requires buf.Valid() && (p.pos >= 0 ==> At(buf.v, p, i))
    ensures r == 0 <==> Matches(buf.Content(), mem, p.pos)
    ensures if p.pos < 0 || p.pos + |mem| > |buf.Content()| then r == -1
            else
              && (r < 0 ==> Before(buf.Content()[p.pos..p.pos + |mem|], mem))
              && (r > 0 ==> Before(mem, buf.Content()[p.pos..p.pos + |mem|]))
  {
    hide Rep, Run, Chain.Holds, Flatten, LastWithData, Evbuffer.Valid, Matches, Agree, Before;
    BufFacts(buf);
    ShortOf(buf.Content(), mem, p.pos);
    if p.pos < 0 || p.pos + |mem| > buf.totalLen { return -1; }
    ghost var s, j, pos: nat := buf.Content(), i, p.pos;
    var chain, from: nat, done: nat := p.chain, p.inChain, 0;
    NothingYet(s, mem, pos);
    while done < |mem| && chain != null
      invariant done <= |mem| && Agree(s, pos, mem, 0, done) && j <= |buf.v.chains| && chain == ChainAt(buf.v.chains, j)
      invariant done < |mem| ==> At(buf.v, Ptr(pos + done, chain, from), j)
      decreases |buf.v.chains| - j
    {
      var data := Data(buf, chain, j);
      var n := if |mem| - done + from > chain.off then chain.off - from else |mem| - done;
      PartSlice(buf.v.parts, j, from, from + n);
      r := MemCmp(data[from..from + n], mem[done..done + n]);
      Compared(s, pos, mem, done, n, data[from..from + n]);
      Ordered(s, pos, mem, done, n, data[from..from + n]);
      if r != 0 { return; }
      PartBytes(buf.v.parts, j);
      done, from, chain, j := done + n, 0, chain.next, j + 1;
    }
    PartsEnd(buf.v.parts);
    r := 0;
    WholeAgrees(s, pos, mem);
  }

  /** `s` from `pos` on is like `mem`, from its byte `a` up to `b`. */
  predicate Agree(s: seq<byte>, pos: nat, mem: seq<byte>, a: nat, b: nat)
  {
    b <= |mem| && pos + b <= |s| && forall k :: a <= k < b ==> s[pos + k] == mem[k]
  }

  lemma ShortOf(s: seq<byte>, mem: seq<byte>, pos: int)
    ensures pos < 0 || pos + |mem| > |s| ==> !Matches(s, mem, pos)
  {
  }

  lemma NothingYet(s: seq<byte>, mem: seq<byte>, pos: nat)
    requires pos <= |s|
    ensures Agree(s, pos, mem, 0, 0)
  {
  }

  lemma Compared(s: seq<byte>, pos: nat, mem: seq<byte>, done: nat, n: nat, chunk: seq<byte>)
    requires Agree(s, pos, mem, 0, done) && done + n <= |mem| && pos + |mem| <= |s|
    requires chunk == s[pos + done..pos + done + n]
    ensures chunk == mem[done..done + n] ==> Agree(s, pos, mem, 0, done + n)
    ensures chunk != mem[done..done + n] ==> !Matches(s, mem, pos)
  {
    if Matches(s, mem, pos) {
      Within(s, pos, pos + |mem|, done, done + n);
    } else if chunk == mem[done..done + n] {
      forall k | 0 <= k < done + n ensures s[pos + k] == mem[k] {
        if k >= done { assert chunk[k - done] == mem[done..done + n][k - done]; }
      }
    }
  }

  /** Where equal bytes come first the order is that of the rest. */
  lemma BeforeBehind(a: seq<byte>, b: seq<byte>, d: nat, n: nat)
    requires |a| == |b| && d + n <= |a| && a[..d] == b[..d] && Before(a[d..d + n], b[d..d + n])
    ensures Before(a, b)
  {
    var x, y := a[d..d + n], b[d..d + n];
    var k :| 0 <= k < n && x[..k] == y[..k] && x[k] < y[k];
    assert a[..d + k] == a[..d] + x[..k] && b[..d + k] == b[..d] + y[..k];
    assert a[d + k] == x[k] && b[d + k] == y[k];
  }

  lemma Ordered(s: seq<byte>, pos: nat, mem: seq<byte>, done: nat, n: nat, chunk: seq<byte>)
    requires Agree(s, pos, mem, 0, done) && done + n <= |mem| && pos + |mem| <= |s|
    requires chunk == s[pos + done..pos + done + n]
    ensures Before(chunk, mem[done..done + n]) ==> Before(s[pos..pos + |mem|], mem)
    ensures Before(mem[done..done + n], chunk) ==> Before(mem, s[pos..pos + |mem|])
  {
    hide Before;
    var a := s[pos..pos + |mem|];
    Within(s, pos, pos + |mem|, done, done + n);
    assert a[..done] == mem[..done];
    if Before(chunk, mem[done..done + n]) { BeforeBehind(a, mem, done, n); }
    if Before(mem[done..done + n], chunk) { BeforeBehind(mem, a, done, n); }
  }

  lemma Within(s: seq<byte>, a: nat, b: nat, c: nat, d: nat)
    requires a <= b <= |s| && c <= d <= b - a
    ensures s[a..b][c..d] == s[a + c..a + d]
  {
    var x, y := s[a..b][c..d], s[a + c..a + d];
    assert |x| == |y|;
    forall k | 0 <= k < |x| ensures x[k] == y[k] { assert x[k] == s[a..b][c + k]; }
  }

  lemma WholeAgrees(s: seq<byte>, pos: nat, mem: seq<byte>)
    requires Agree(s, pos, mem, 0, |mem|)
    ensures Matches(s, mem, pos)
  {
  }

  lemma PartSlice(parts: seq<seq<byte>>, i: nat, a: nat, b: nat)
    requires i < |parts| && a <= b <= |parts[i]|
    ensures var n := |Flatten(parts[..i])|;
            n + b <= |Flatten(parts)| && Flatten(parts)[n + a..n + b] == parts[i][a..b]
  {
    hide Flatten;
    PartBytes(parts, i);
  }

  // ----- searching for a string -----

  /** The least match of `what` from `from` on that ends by `end`. */
  ghost predicate Found(s: seq<byte>, what: seq<byte>, from: int, end: Option<int>, r: int)
  {
    if r >= 0 then
      && from <= r && Matches(s, what, r) && (end.Some? ==> r + |what| <= end.value)
      && forall k :: from <= k < r ==> !Matches(s, what, k)
    else forall k :: from <= k && Matches(s, what, k) ==> end.Some? && k + |what| > end.value
  }

  /** evbuffer_search_range: the least match of a non-empty pattern at or after `start`
      that ends by `end`. */
  method SearchRange(buf: Evbuffer, what: seq<byte>, start: Option<Ptr>, end: Option<Ptr>, ghost i: nat, ghost e: nat)
    returns (pos: Ptr, ghost j: nat)
    requires buf.Valid() && (start.Some? ==> At(buf.v, start.value, i)) && (end.Some? ==> At(buf.v, end.value, e))
    ensures what == [] ==> pos == (if start.Some? then start.value else Ptr(0, buf.first, 0))
    ensures what != [] ==>
              Found(buf.Content(), what, if start.Some? then start.value.pos else 0,
                    if end.Some? then Some(end.value.pos) else None, pos.pos)
    ensures what != [] && pos.pos >= 0 ==> On(buf.v, pos, j)
  {
    hide Rep, Run, Chain.Holds, Flatten, LastWithData, Evbuffer.Valid, Matches;
    BufFacts(buf);
    ghost var s := buf.Content();
    pos, j := if start.Some? then start.value else Ptr(0, buf.first, 0), if start.Some? then i else 0;
    AtBound(buf.v, pos, j);
    ghost var from := pos.pos;
    if what == [] { return; }
    var lastChain := if end.Some? then end.value.chain else null;
    while pos.chain != null
      invariant At(buf.v, pos, j) && from <= pos.pos <= |s|
      invariant forall k :: from <= k < pos.pos ==> !Matches(s, what, k)
      decreases |buf.v.chains| - j, if j < |buf.v.parts| then |buf.v.parts[j]| - pos.inChain else 0
    {
      var data := Data(buf, pos.chain, j);
      var p := MemChr(data, pos.inChain, |data|, what[0]);
      NoMatchBefore(buf.v.parts, j, pos.inChain, what, p);
      PartBytes(buf.v.parts, j);
      if p.Some? {
        pos := Ptr(pos.pos + (p.value - pos.inChain), pos.chain, p.value);
        var r := PtrMemcmp(buf, pos, what, j);
        if r == 0 {
          if end.Some? && pos.pos + |what| > end.value.pos { return NOWHERE, j; }
          return;
        }
        pos := pos.(pos := pos.pos + 1, inChain := pos.inChain + 1);
        if pos.inChain == |data| {
          pos := Ptr(pos.pos, pos.chain.next, 0);
          j := j + 1;
        }
      } else {
        if pos.chain == lastChain {
          SameChain(buf, j, e);
          return NOWHERE, j;
        }
        pos := Ptr(pos.pos + (|data| - pos.inChain), pos.chain.next, 0);
        j := j + 1;
      }
    }
    PartsEnd(buf.v.parts);
    NoMatchAtEnd(s, what);
    pos := NOWHERE;
  }

  lemma MatchStart(s: seq<byte>, what: seq<byte>, k: int)
    requires what != []
    ensures Matches(s, what, k) ==> 0 <= k < |s| && s[k] == what[0]
  {
    if Matches(s, what, k) { assert s[k..k + |what|][0] == s[k]; }
  }

  lemma NoMatchAtEnd(s: seq<byte>, what: seq<byte>)
    requires what != []
    ensures forall k :: k >= |s| ==> !Matches(s, what, k)
  {
  }

  lemma SameChain(buf: Evbuffer, j: nat, e: nat)
    requires buf.Valid() && j < |buf.v.chains| && e <= |buf.v.chains| && buf.v.chains[j] == ChainAt(buf.v.chains, e)
    ensures j == e
  {
    RunAt(buf.v.chains, buf.v.parts, null, buf.v.cells, j);
  }

  /** A match starts with the pattern's first byte. */
  lemma NoMatchBefore(parts: seq<seq<byte>>, j: nat, from: nat, what: seq<byte>, p: Option<nat>)
    requires j < |parts| && from <= |parts[j]| && what != [] && FirstHit(parts[j], Byte(what[0]), from, |parts[j]|, p)
    ensures var n := |Flatten(parts[..j])|;
            forall k :: n + from <= k < n + (if p.Some? then p.value else |parts[j]|) ==> !Matches(Flatten(parts), what, k)
  {
    hide Flatten;
    PartBytes(parts, j);
    var n, s := |Flatten(parts[..j])|, Flatten(parts);
    forall k | n + from <= k < n + (if p.Some? then p.value else |parts[j]|)
      ensures !Matches(s, what, k)
    {
      assert s[n + (k - n)] == parts[j][k - n];
      MatchStart(s, what, k);
    }
  }

  // ----- lines -----

  datatype EolStyle = EolAny | EolCrlf | EolCrlfStrict | EolLf

  /** A line ends at `k`, and its terminator has `n` bytes. */
  predicate EndsAt(s: seq<byte>, style: EolStyle, k: int, n: int)
  {
    0 <= k < |s| && n >= 0 &&
    match style
    case EolAny => (s[k] == CR || s[k] == LF) && Span(s, [CR, LF], k, n)
    case EolCrlf => if s[k] == LF then n == 1 else n == 2 && Matches(s, [CR, LF], k)
    case EolCrlfStrict => n == 2 && Matches(s, [CR, LF], k)
    case EolLf => n == 1 && s[k] == LF
  }

  /** No line ends before `k`. */
  ghost predicate NoneBefore(s: seq<byte>, style: EolStyle, from: int, k: int)
  {
    forall m, n :: from <= m < k ==> !EndsAt(s, style, m, n)
  }

  /** evbuffer_search_eol: where the first line from `start` on ends, and how long its
      terminator is. */
  method SearchEol(buf: Evbuffer, start: Option<Ptr>, style: EolStyle, ghost i: nat)
    returns (it: Ptr, eolLen: int, ghost j: nat)
    requires buf.Valid() && (start.Some? ==> At(buf.v, start.value, i))
    ensures var from := if start.Some? then start.value.pos else 0;
            if it.pos >= 0 then
              from <= it.pos && EndsAt(buf.Content(), style, it.pos, eolLen) && NoneBefore(buf.Content(), style, from, it.pos)
            else NoneBefore(buf.Content(), style, from, |buf.Content()|)
    ensures it.pos >= 0 ==> On(buf.v, it, j)
  {
    hide Rep, Run, Chain.Holds, Flatten, LastWithData, Evbuffer.Valid, EndsAt, NoneBefore, At, On;
    BufFacts(buf);
    ghost var s := buf.Content();
    it, j := if start.Some? then start.value else Ptr(0, buf.first, 0), if start.Some? then i else 0;
    ghost var from := it.pos;
    AtBound(buf.v, it, j);
    eolLen := 0;
    match style {
      case EolAny =>
        it, j := FindByte(buf, it, AnyEol, j);
        EolsAreHits(s, style, from, it.pos);
        if it.pos < 0 { return; }
        OnAt(buf.v, it, j);
        var it2;
        ghost var j2;
        eolLen, it2, j2 := StrSpn(buf, it, [CR, LF], j);
        EndHere(s, style, it.pos, eolLen);
      case EolCrlfStrict =>
        it, j := SearchRange(buf, [CR, LF], Some(it), None, j, 0);
        StrictEnds(s, from, it.pos);
        if it.pos < 0 { return; }
        eolLen := 2;
      case EolCrlf =>
        it, eolLen, j := SearchCrlf(buf, it, j);
      case EolLf =>
        it, j := FindByte(buf, it, Byte(LF), j);
        EolsAreHits(s, style, from, it.pos);
        if it.pos < 0 { return; }
        eolLen := 1;
        EndHere(s, style, it.pos, eolLen);
    }
  }

  /** The loop for lines that end with LF or CR LF. */
  method SearchCrlf(buf: Evbuffer, start: Ptr, ghost i: nat) returns (it: Ptr, eolLen: int, ghost j: nat)
    requires buf.Valid() && At(buf.v, start, i)
    ensures if it.pos >= 0 then
              start.pos <= it.pos && EndsAt(buf.Content(), EolCrlf, it.pos, eolLen)
              && NoneBefore(buf.Content(), EolCrlf, start.pos, it.pos)
            else NoneBefore(buf.Content(), EolCrlf, start.pos, |buf.Content()|)
    ensures it.pos >= 0 ==> On(buf.v, it, j)
  {
    hide Rep, Run, Chain.Holds, Flatten, LastWithData, Evbuffer.Valid, EndsAt, NoneBefore, At, On;
    ghost var s := buf.Content();
    it, j, eolLen := start, i, 0;
    AtBound(buf.v, it, j);
    NoneYet(s, EolCrlf, start.pos);
    while true
      invariant At(buf.v, it, j) && start.pos <= it.pos <= |s| && NoneBefore(s, EolCrlf, start.pos, it.pos)
      decreases |s| - it.pos
    {
      ghost var from := it.pos;
      it, j := FindByte(buf, it, AnyEol, j);
      EolsAreHits(s, EolCrlf, from, it.pos);
      NoneChain(s, EolCrlf, start.pos, from, if it.pos < 0 then |s| else it.pos);
      if it.pos < 0 { return; }
      OnAt(buf.v, it, j);
      var c := GetChr(buf, it, j);
      if c == LF {
        eolLen := 1;
        CrlfEnd(s, it.pos, eolLen);
        return;
      }
      var r := PtrMemcmp(buf, it, [CR, LF], j);
      if r == 0 {
        eolLen := 2;
        CrlfEnd(s, it.pos, eolLen);
        return;
      }
      NotAnEnd(s, it.pos);
      NoneChain(s, EolCrlf, start.pos, it.pos, it.pos + 1);
      var ok;
      ghost var was := it.pos;
      it, ok, j := PtrSet(buf, it, 1, Add, j);
      if !ok { return; }
      OnAt(buf.v, it, j);
    }
  }

  /** evbuffer_getchr */
  method GetChr(buf: Evbuffer, it: Ptr, ghost i: nat) returns (c: byte)
    requires buf.Valid() && On(buf.v, it, i)
    ensures 0 <= it.pos < |buf.Content()| && c == buf.Content()[it.pos]
  {
    hide Rep, Run, Flatten, LastWithData, Evbuffer.Valid;
    ChainFacts(buf, i);
    PartBytes(buf.v.parts, i);
    c := it.chain.buffer[it.chain.misalign + it.inChain];
    assert buf.Content()[it.pos] == buf.v.parts[i][it.inChain];
    assert it.chain.buffer[it.chain.misalign..it.chain.misalign + it.chain.off][it.inChain] == c;
  }

  lemma OnAt(v: View, p: Ptr, i: nat)
    requires On(v, p, i)
    ensures At(v, p, i) && p.chain != null && 0 <= p.pos < |Flatten(v.parts)|
  {
    hide Flatten;
    PartBytes(v.parts, i);
  }

  /** Lines end with hits only. */
  lemma EolsAreHits(s: seq<byte>, style: EolStyle, from: int, to: int)
    requires 0 <= from <= |s|
    requires !style.EolCrlfStrict?
    requires FirstHit(s, if style.EolLf? then Byte(LF) else AnyEol, from, |s|, if to >= 0 then Some(to) else None)
    ensures NoneBefore(s, style, from, if to >= 0 then to else |s|)
  {
    forall m, n | from <= m < (if to >= 0 then to else |s|) ensures !EndsAt(s, style, m, n) {
      if Matches(s, [CR, LF], m) { MatchStart(s, [CR, LF], m); }
    }
  }

  lemma EndHere(s: seq<byte>, style: EolStyle, k: int, n: int)
    requires 0 <= k < |s| && n >= 0
    requires (style.EolAny? && Hit(AnyEol, s[k]) && Span(s, [CR, LF], k, n)) || (style.EolLf? && n == 1 && s[k] == LF)
    ensures EndsAt(s, style, k, n)
  {
  }

  lemma StrictEnds(s: seq<byte>, from: int, r: int)
    requires Found(s, [CR, LF], from, None, r) && 0 <= from
    ensures NoneBefore(s, EolCrlfStrict, from, if r >= 0 then r else |s|)
    ensures r >= 0 ==> from <= r && EndsAt(s, EolCrlfStrict, r, 2)
  {
    hide Matches;
    if r >= 0 { MatchStart(s, [CR, LF], r); }
  }

  lemma NoneYet(s: seq<byte>, style: EolStyle, from: int)
    ensures NoneBefore(s, style, from, from)
  {
  }

  lemma NoneChain(s: seq<byte>, style: EolStyle, a: int, b: int, c: int)
    requires a <= b <= c && NoneBefore(s, style, a, b) && NoneBefore(s, style, b, c)
    ensures NoneBefore(s, style, a, c)
  {
    hide EndsAt;
  }

  lemma CrlfEnd(s: seq<byte>, k: int, n: int)
    requires 0 <= k < |s| && ((n == 1 && s[k] == LF) || (n == 2 && s[k] != LF && Matches(s, [CR, LF], k)))
    ensures EndsAt(s, EolCrlf, k, n)
  {
  }

  lemma NotAnEnd(s: seq<byte>, k: int)
    requires 0 <= k < |s| && s[k] != LF && !Matches(s, [CR, LF], k)
    ensures NoneBefore(s, EolCrlf, k, k + 1)
  {
  }

  /** evbuffer_readln: split off the first line and its terminator. */
  method Readln(buf: Evbuffer, style: EolStyle) returns (line: Option<seq<byte>>)
    requires buf.Valid()
    modifies buf, buf.v.cells
    ensures buf.Valid() && buf.v.cells <= old(buf.v.cells) && (old(TightParts(buf.v.parts)) ==> buf.Ready())
    ensures var s := old(buf.Content());
            if line.None? then
              buf.Content() == s && (old(buf.freezeStart) || NoneBefore(s, style, 0, |s|))
            else
              exists n: nat ::
                && !old(buf.freezeStart) && EndsAt(s, style, |line.value|, n) && NoneBefore(s, style, 0, |line.value|)
                && |line.value| + n <= |s| && s[..|line.value|] == line.value && s[|line.value| + n..] == buf.Content()
  {
    hide Rep, Run, Chain.Holds, Flatten, LastWithData, TightParts, EndsAt, NoneBefore;
    if buf.freezeStart { return None; }
    ghost var s := buf.Content();
    ghost var j;
    var it, eolLen;
    it, eolLen, j := SearchEol(buf, None, style, 0);
    if it.pos < 0 { return None; }
    EndFits(s, style, it.pos, eolLen);
    var n, data := buf.Remove(it.pos);
    var ok := buf.Drain(eolLen);
    line := Some(data);
    assert s == data + s[it.pos..];
    assert s[it.pos..][eolLen..] == s[it.pos + eolLen..];
  }

  lemma EndFits(s: seq<byte>, style: EolStyle, k: int, n: int)
    requires EndsAt(s, style, k, n)
    ensures 0 <= k < |s| && 0 <= n && k + n <= |s|
  {
  }
}
