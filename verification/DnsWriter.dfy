/** dnsname_to_labels and its compression table (evdns.c). */
module DnsWriter {
  import opened Common
  import opened DnsNames

  const MAX_TABLE := 128
  const MAX_NAME := 255

  /** One remembered suffix: the text of a name and the offset it was written at. */
  datatype Entry = Entry(name: seq<byte>, pos: nat)

  /** Index of the first entry for `name`, or the length when there is none. */
  function IndexOf(entries: seq<Entry>, name: seq<byte>): (i: nat)
    ensures i <= |entries|
    ensures i < |entries| ==> entries[i].name == name
    ensures forall k :: 0 <= k < i ==> entries[k].name != name
  {
    if entries == [] || entries[0].name == name then 0 else 1 + IndexOf(entries[1..], name)
  }

  /** struct dnslabel_table */
  class LabelTable {
    var entries: seq<Entry>

    constructor ()
      ensures entries == []
    {
      entries := [];
    }

    /** The offset recorded for `name`, or -1 (dnslabel_table_get_pos). */
    method GetPos(name: seq<byte>) returns (pos: int)
      ensures var i := IndexOf(entries, name);
              pos == if i < |entries| then entries[i].pos else -1
    {
      var i := 0;
      while i < |entries|
        invariant 0 <= i <= |entries|
        invariant forall k :: 0 <= k < i ==> entries[k].name != name
      {
        if entries[i].name == name { return entries[i].pos; }
        i := i + 1;
      }
      return -1;
    }

    /** Remember `name` at `pos`, unless the table is full (dnslabel_table_add). */
    method Add(name: seq<byte>, pos: nat)
      modifies this
      ensures entries == Remember(old(entries), name, pos)
    {
      if |entries| != MAX_TABLE {
        entries := entries + [Entry(name, pos)];
      }
    }
  }

  function Remember(entries: seq<Entry>, name: seq<byte>, pos: nat): seq<Entry>
  {
    if |entries| == MAX_TABLE then entries else entries + [Entry(name, pos)]
  }

  predicate Has(entries: seq<Entry>, name: seq<byte>)
  {
    IndexOf(entries, name) < |entries|
  }

  // ----- where a name ends -----

  /** The text of `name` from its label `i` on. */
  function Suffix(name: seq<byte>, i: nat): seq<byte>
    requires i < |Split(name)|
  {
    Join(Split(name)[i..])
  }

  /** The offset after `name` when it is written at `j` with a table of `entries`, or the
      error code. */
  function Ended(entries: seq<Entry>, name: seq<byte>, j: nat, bufLen: nat): int
    decreases |name|
  {
    var d := DotAt(name);
    if Has(entries, name) then if j + 2 > bufLen then -2 else j + 2
    else if d > MAX_LABEL then -1
    else if j + d + 1 > bufLen then -2
    else if d < |name| then Ended(entries, name[d + 1..], j + d + 1, bufLen)
    else if name == [] then j + 1 else j + d + 2
  }

  /** What the table knows once `name` has been written at `j`. */
  function Learned(entries: seq<Entry>, name: seq<byte>, j: nat): seq<Entry>
    decreases |name|
  {
    var d := DotAt(name);
    if Has(entries, name) then entries
    else if d == |name| then Remember(entries, name, j)
    else Learned(Remember(entries, name, j), name[d + 1..], j + d + 1)
  }

  /** The table knows the suffix from label `m` on and no longer one; with `m` the number of
      labels it knows none. */
  predicate StopsAt(entries: seq<Entry>, name: seq<byte>, m: nat)
  {
    && m <= |Split(name)|
    && (m < |Split(name)| ==> Has(entries, Suffix(name, m)))
    && forall i :: 0 <= i < m ==> !Has(entries, Suffix(name, i))
  }

  /** The offset of the length byte of label `i`. */
  function Offset(name: seq<byte>, j: nat, i: nat): int
    requires i < |Split(name)|
  {
    j + |name| - |Suffix(name, i)|
  }

  /** Among the first `m` labels there is one that is too long, at an offset where there is
      still room. */
  ghost predicate LongBefore(name: seq<byte>, j: nat, bufLen: nat, m: nat)
    requires m <= |Split(name)|
  {
    exists i :: 0 <= i < m && |Split(name)[i]| > MAX_LABEL && (i == 0 || Offset(name, j, i) <= bufLen)
  }

  /** The suffixes after the first label are those of the rest. */
  lemma SuffixStep(name: seq<byte>, j: nat, i: nat)
    requires 0 < i < |Split(name)|
    ensures DotAt(name) < |name| && |Split(name[DotAt(name) + 1..])| == |Split(name)| - 1
    ensures Suffix(name, i) == Suffix(name[DotAt(name) + 1..], i - 1)
    ensures Split(name)[i] == Split(name[DotAt(name) + 1..])[i - 1]
    ensures Offset(name, j, i) == Offset(name[DotAt(name) + 1..], j + DotAt(name) + 1, i - 1)
  {
    hide Join, DotAt, Split;
    SplitStep(name);
    var tail := name[DotAt(name) + 1..];
    assert Split(name)[i..] == Split(tail)[i - 1..];
  }

  lemma SplitStep(name: seq<byte>)
    ensures DotAt(name) < |name| ==> Split(name) == [name[..DotAt(name)]] + Split(name[DotAt(name) + 1..])
    ensures DotAt(name) == |name| ==> Split(name) == [name]
  {
    hide DotAt;
  }

  lemma SuffixStart(name: seq<byte>)
    ensures Suffix(name, 0) == name && Split(name)[0] == name[..DotAt(name)]
  {
    JoinSplit(name);
    assert Split(name)[0..] == Split(name);
  }

  /** Where a name ends, label by label: it is refused for a label over 63 bytes at an offset
      where there is room; otherwise it fits exactly when what is written does, save for the
      final zero byte. */
  lemma {:induction false} EndedMeans(entries: seq<Entry>, name: seq<byte>, j: nat, bufLen: nat, m: nat)
    requires StopsAt(entries, name, m)
    ensures var r, n := Ended(entries, name, j, bufLen), |Split(name)|;
            && (r == -1 <==> LongBefore(name, j, bufLen, m))
            && (r >= 0 <==> (forall i :: 0 <= i < m ==> |Split(name)[i]| <= MAX_LABEL)
                            && (if m < n then Offset(name, j, m) + 2 else j + |name| + 1) <= bufLen)
            && (r < 0 ==> r == -1 || r == -2)
            && (r >= 0 ==> r == if m < n then Offset(name, j, m) + 2
                               else if Split(name)[n - 1] == [] then j + |name| + 1 else j + |name| + 2)
    decreases |name|
  {
    hide Suffix, DotAt, Split, LongBefore, Offset, IndexOf;
    SuffixStart(name);
    OffsetStart(name, j);
    SplitStep(name);
    LongCases(name, j, bufLen, m);
    var d := DotAt(name);
    if !Has(entries, name) && d < |name| {
      FarSuffixes(name, j);
      if d <= MAX_LABEL && j + d + 1 <= bufLen {
        StopsFirst(entries, name, m);
        StopsStep(entries, name, name[d + 1..], m);
        EndedMeans(entries, name[d + 1..], j + d + 1, bufLen, m - 1);
        LongStep(name, j, bufLen, m);
        if m < |Split(name)| { SuffixStep(name, j, m); }
      }
    }
  }

  lemma LongCases(name: seq<byte>, j: nat, bufLen: nat, m: nat)
    requires m <= |Split(name)|
    ensures m == 0 ==> !LongBefore(name, j, bufLen, m)
    ensures m > 0 && DotAt(name) > MAX_LABEL ==> LongBefore(name, j, bufLen, m)
    ensures DotAt(name) <= MAX_LABEL && (DotAt(name) == |name| || j + DotAt(name) + 1 > bufLen) ==> !LongBefore(name, j, bufLen, m)
  {
    hide Suffix, DotAt, Split, Offset;
    SplitStep(name);
    if DotAt(name) < |name| { FarSuffixes(name, j); }
    if m > 0 { assert |Split(name)[0]| == DotAt(name); }
  }

  /** Suffixes get shorter, so offsets grow. */
  lemma FarSuffixes(name: seq<byte>, j: nat)
    requires DotAt(name) < |name|
    ensures forall i :: 0 < i < |Split(name)| ==> Offset(name, j, i) >= j + DotAt(name) + 1
  {
    forall i | 0 < i < |Split(name)| ensures Offset(name, j, i) >= j + DotAt(name) + 1
    {
      SuffixStep(name, j, i);
      ShortSuffix(name[DotAt(name) + 1..], i - 1);
    }
  }

  lemma {:induction false} ShortSuffix(name: seq<byte>, i: nat)
    requires i < |Split(name)|
    ensures |Suffix(name, i)| <= |name|
    decreases |name|
  {
    SuffixStart(name);
    if i > 0 {
      SuffixStep(name, 0, i);
      ShortSuffix(name[DotAt(name) + 1..], i - 1);
    }
  }

  lemma OffsetStart(name: seq<byte>, j: nat)
    ensures Split(name) != [] && Offset(name, j, 0) == j
  {
    SuffixStart(name);
  }

  lemma SplitCount(name: seq<byte>)
    requires DotAt(name) < |name|
    ensures |Split(name)| == 1 + |Split(name[DotAt(name) + 1..])|
  {
    hide DotAt;
  }

  lemma StopsFirst(entries: seq<Entry>, name: seq<byte>, m: nat)
    requires StopsAt(entries, name, m)
    ensures m == 0 <==> Has(entries, name)
  {
    hide Suffix, DotAt, Split, Has;
    SuffixStart(name);
    if m > 0 { assert !Has(entries, Suffix(name, 0)); }
  }

  lemma StopsStep(entries: seq<Entry>, name: seq<byte>, tail: seq<byte>, m: nat)
    requires StopsAt(entries, name, m) && 0 < m && DotAt(name) < |name| && tail == name[DotAt(name) + 1..]
    ensures StopsAt(entries, tail, m - 1)
  {
    hide Suffix, DotAt, Split, Has, Offset;
    SplitCount(name);
    if m < |Split(name)| { SuffixStep(name, 0, m); }
    forall i | 0 <= i < m - 1 ensures !Has(entries, Suffix(tail, i))
    {
      StopsNext(entries, name, tail, m, i);
    }
  }

  lemma StopsNext(entries: seq<Entry>, name: seq<byte>, tail: seq<byte>, m: nat, i: nat)
    requires StopsAt(entries, name, m) && i + 1 < m && DotAt(name) < |name| && tail == name[DotAt(name) + 1..]
    ensures i < |Split(tail)| && !Has(entries, Suffix(tail, i))
  {
    hide Suffix, DotAt, Split, Has, Offset;
    SuffixStep(name, 0, i + 1);
    assert !Has(entries, Suffix(name, i + 1));
  }

  /** A label that is too long is the first one or one of the others. */
  lemma LongStep(name: seq<byte>, j: nat, bufLen: nat, m: nat)
    requires 0 < m <= |Split(name)| && DotAt(name) < |name| && DotAt(name) <= MAX_LABEL && j + DotAt(name) + 1 <= bufLen
    ensures var tail := name[DotAt(name) + 1..];
            && |Split(tail)| == |Split(name)| - 1
            && (LongBefore(name, j, bufLen, m) <==> LongBefore(tail, j + DotAt(name) + 1, bufLen, m - 1))
            && ((forall i :: 0 <= i < m ==> |Split(name)[i]| <= MAX_LABEL)
                <==> forall i :: 0 <= i < m - 1 ==> |Split(tail)[i]| <= MAX_LABEL)
  {
    hide Suffix, DotAt, Split, Offset;
    var tail, j' := name[DotAt(name) + 1..], j + DotAt(name) + 1;
    SplitStep(name);
    OffsetStart(tail, j');
    forall i | 0 < i < m
      ensures Split(name)[i] == Split(tail)[i - 1] && Offset(name, j, i) == Offset(tail, j', i - 1)
    {
      SuffixStep(name, j, i);
    }
    if LongBefore(name, j, bufLen, m) {
      var i :| 0 <= i < m && |Split(name)[i]| > MAX_LABEL && (i == 0 || Offset(name, j, i) <= bufLen);
      assert |Split(tail)[i - 1]| > MAX_LABEL && Offset(tail, j', i - 1) <= bufLen;
    }
    if LongBefore(tail, j', bufLen, m - 1) {
      var i :| 0 <= i < m - 1 && |Split(tail)[i]| > MAX_LABEL && (i == 0 || Offset(tail, j', i) <= bufLen);
      assert |Split(name)[i + 1]| > MAX_LABEL && Offset(name, j, i + 1) <= bufLen;
    }
    if forall i :: 0 <= i < m ==> |Split(name)[i]| <= MAX_LABEL {
      forall i | 0 <= i < m - 1 ensures |Split(tail)[i]| <= MAX_LABEL { assert Split(name)[i + 1] == Split(tail)[i]; }
    }
  }

  /** Exactly when the final zero byte lands one past the end of the buffer: no suffix of the
      name is known, no label is too long, and everything else just fits. */
  lemma ZeroOneTooFar(entries: seq<Entry>, name: seq<byte>, j: nat, bufLen: nat)
    ensures Ended(entries, name, j, bufLen) <= bufLen + 1
    ensures Ended(entries, name, j, bufLen) == bufLen + 1 <==>
              && (forall i :: 0 <= i < |Split(name)| ==> !Has(entries, Suffix(name, i)))
              && ShortLabels(name) && Split(name)[|Split(name)| - 1] != [] && j + |name| + 1 == bufLen
  {
    var m := FirstKnown(entries, name, |Split(name)|);
    EndedMeans(entries, name, j, bufLen, m);
  }

  /** The first label from which on the table knows the name. */
  ghost function FirstKnown(entries: seq<Entry>, name: seq<byte>, n: nat): (m: nat)
    requires n <= |Split(name)|
    ensures m <= n && (m < n ==> Has(entries, Suffix(name, m)))
    ensures forall i :: 0 <= i < m ==> !Has(entries, Suffix(name, i))
  {
    if n == 0 then 0
    else
      var m := FirstKnown(entries, name, n - 1);
      if m < n - 1 || Has(entries, Suffix(name, n - 1)) then m else n
  }

  /** Offsets from `a` up to `b`. */
  ghost function Span(a: int, b: int): iset<int>
  {
    iset k: int | Within(a, k, b)
  }

  ghost predicate Within(a: int, k: int, b: int) { a <= k < b }

  /** Every remembered offset fits in a 14-bit pointer. */
  predicate PointersFit(entries: seq<Entry>)
  {
    forall i :: 0 <= i < |entries| ==> entries[i].pos < POINTER_BASE
  }

  /** Each remembered suffix can be read back at its offset, from the offsets in
      `used`, following fewer pointers than the offset's own value. */
  ghost predicate TableOk(msg: seq<byte>, entries: seq<Entry>, used: iset<int>, j: nat)
  {
    && (forall k :: k in used ==> k < j)
    && forall i :: 0 <= i < |entries| ==>
         entries[i].pos < j && Spells(msg, entries[i].pos, Labels(entries[i].name), entries[i].pos, used)
  }

  // ----- labels already laid out -----

  /** The labels `ls` lie in `msg` from `a` up to `j`, each behind its length byte. */
  ghost predicate Laid(msg: seq<byte>, a: nat, ls: seq<seq<byte>>, j: nat)
    decreases |ls|
  {
    if ls == [] then a == j
    else
      Put(msg, a, ls[0]) && a + 1 + |ls[0]| <= j && Laid(msg, a + 1 + |ls[0]|, ls[1..], j)
  }

  /** The label `l` lies at `a`, behind its length byte. */
  ghost predicate Put(msg: seq<byte>, a: nat, l: seq<byte>)
  {
    && |l| <= MAX_LABEL && a + 1 + |l| <= |msg|
    && msg[a] == |l| && msg[a + 1..a + 1 + |l|] == l
  }

  /** Layout up to `j` depends only on what is before `j`. */
  lemma {:induction false} LaidStable(msg: seq<byte>, msg': seq<byte>, a: nat, ls: seq<seq<byte>>, j: nat)
    requires Laid(msg, a, ls, j) && Same(msg, msg', 0, j)
    ensures Laid(msg', a, ls, j)
    decreases |ls|
  {
    if ls != [] {
      LaidStable(msg, msg', a + 1 + |ls[0]|, ls[1..], j);
    }
  }

  /** Laying out one more label. */
  lemma {:induction false} LaidSnoc(msg: seq<byte>, a: nat, ls: seq<seq<byte>>, j: nat, l: seq<byte>)
    requires Laid(msg, a, ls, j) && Put(msg, j, l)
    ensures Laid(msg, a, ls + [l], j + 1 + |l|)
    decreases |ls|
  {
    if ls == [] {
      assert ls + [l] == [l];
    } else {
      assert (ls + [l])[1..] == ls[1..] + [l];
      LaidExtend(msg, a + 1 + |ls[0]|, ls[1..], j);
      LaidSnoc(msg, a + 1 + |ls[0]|, ls[1..], j, l);
    }
  }

  lemma {:induction false} LaidExtend(msg: seq<byte>, a: nat, ls: seq<seq<byte>>, j: nat)
    requires Laid(msg, a, ls, j)
    ensures a <= j
    decreases |ls|
  {
    if ls != [] { LaidExtend(msg, a + 1 + |ls[0]|, ls[1..], j); }
  }

  /** What is laid out up to `j` followed by a spelled suffix spells the whole. */
  lemma {:induction false} LaidSpells(msg: seq<byte>, a: nat, ls: seq<seq<byte>>, j: nat,
                                      rest: seq<seq<byte>>, hops: nat, used: iset<int>)
    requires Laid(msg, a, ls, j) && Span(a, j) <= used
    requires Spells(msg, j, Cut(rest), hops, used)
    ensures Spells(msg, a, Cut(ls + rest), hops, used)
    decreases |ls|
  {
    if ls == [] {
      assert ls + rest == rest;
    } else {
      var n := |ls[0]|;
      LaidExtend(msg, a + 1 + n, ls[1..], j);
      assert a in Span(a, j);
      if n > 0 {
        assert LabelAt(msg, a, n, used) by {
          forall k | a <= k <= a + n ensures k in used { assert k in Span(a, j); }
        }
        LaidSpells(msg, a + 1 + n, ls[1..], j, rest, hops, used);
        assert (ls + rest)[1..] == ls[1..] + rest;
        assert Cut(ls + rest) == [ls[0]] + Cut(ls[1..] + rest);
        assert Cut(ls + rest)[1..] == Cut(ls[1..] + rest);
      }
    }
  }

  /** The name laid out ends where its suffix ends, unless a label is empty. */
  lemma {:induction false} LaidEnd(msg: seq<byte>, a: nat, ls: seq<seq<byte>>, j: nat)
    requires Laid(msg, a, ls, j)
    ensures NoneEmpty(ls) ==> NameEnd(msg, a) == NameEnd(msg, j)
    ensures !NoneEmpty(ls) ==> NameEnd(msg, a) <= j
    decreases |ls|
  {
    if ls != [] {
      LaidExtend(msg, a + 1 + |ls[0]|, ls[1..], j);
      LaidEnd(msg, a + 1 + |ls[0]|, ls[1..], j);
      assert ls == [ls[0]] + ls[1..];
      if ls[0] != [] && !NoneEmpty(ls) {
        var i :| 0 <= i < |ls| && ls[i] == [];
        assert ls[1..][i - 1] == [];
      }
    }
  }

  // ----- the writer's loop -----

  /** An entry added while writing `ls`, of which the first `n` labels are laid
      out up to `j`: a suffix of `ls` from some label before the `n`th. */
  ghost predicate NewEntry(msg: seq<byte>, e: Entry, ls: seq<seq<byte>>, n: nat, j0: nat, j: nat)
    requires n <= |ls|
  {
    && j0 <= e.pos < j
    && |ls| - n < |Split(e.name)| <= |ls|
    && Split(e.name) == ls[|ls| - |Split(e.name)|..]
    && Laid(msg, e.pos, ls[|ls| - |Split(e.name)|..n], j)
  }

  /** Invariant of the writer: the first `n` labels are laid out from `j0` to `j`. */
  ghost predicate Writing(msg: seq<byte>, was: seq<Entry>, entries: seq<Entry>,
                          ls: seq<seq<byte>>, n: nat, j0: nat, j: nat)
  {
    && n <= |ls| && j0 <= j && Laid(msg, j0, ls[..n], j)
    && was <= entries
    && forall i :: |was| <= i < |entries| ==> NewEntry(msg, entries[i], ls, n, j0, j)
  }

  /** An entry made before stays one as the next label is laid out. */
  lemma EntryStep(msg: seq<byte>, msg': seq<byte>, e: Entry, ls: seq<seq<byte>>, n: nat, j0: nat, j: nat)
    requires n < |ls| && NewEntry(msg, e, ls, n, j0, j)
    requires Put(msg', j, ls[n]) && Same(msg, msg', 0, j)
    ensures NewEntry(msg', e, ls, n + 1, j0, j + 1 + |ls[n]|)
  {
    var m := |ls| - |Split(e.name)|;
    LaidStable(msg, msg', e.pos, ls[m..n], j);
    LaidSnoc(msg', e.pos, ls[m..n], j, ls[n]);
    assert ls[m..n] + [ls[n]] == ls[m..n + 1];
  }

  /** So is the entry made for the suffix that starts with that label. */
  lemma EntryMade(msg: seq<byte>, name: seq<byte>, ls: seq<seq<byte>>, n: nat, j0: nat, j: nat)
    requires n < |ls| && Split(name) == ls[n..] && j0 <= j
    requires Put(msg, j, ls[n])
    ensures NewEntry(msg, Entry(name, j), ls, n + 1, j0, j + 1 + |ls[n]|)
  {
    LaidSnoc(msg, j, [], j, ls[n]);
    assert [] + [ls[n]] == ls[n..n + 1];
  }

  lemma WritingStep(msg: seq<byte>, msg': seq<byte>, was: seq<Entry>, entries: seq<Entry>, entries': seq<Entry>,
                    ls: seq<seq<byte>>, n: nat, j0: nat, j: nat, name: seq<byte>)
    requires Writing(msg, was, entries, ls, n, j0, j) && n < |ls|
    requires Split(name) == ls[n..] && Put(msg', j, ls[n]) && Same(msg, msg', 0, j)
    requires entries' == entries || entries' == entries + [Entry(name, j)]
    ensures Writing(msg', was, entries', ls, n + 1, j0, j + 1 + |ls[n]|)
  {
    LaidStable(msg, msg', j0, ls[..n], j);
    LaidSnoc(msg', j0, ls[..n], j, ls[n]);
    assert ls[..n] + [ls[n]] == ls[..n + 1];
    assert was <= entries';
    forall i | |was| <= i < |entries'|
      ensures NewEntry(msg', entries'[i], ls, n + 1, j0, j + 1 + |ls[n]|)
    {
      if i < |entries| {
        EntryStep(msg, msg', entries[i], ls, n, j0, j);
      } else {
        EntryMade(msg', name, ls, n, j0, j);
      }
    }
  }

  /** With the missing labels spelled at `j`, labels `m` on are spelled at `a`. */
  lemma SuffixSpelled(msg: seq<byte>, msg': seq<byte>, a: nat, ls: seq<seq<byte>>, m: nat, n: nat,
                      j: nat, hops: nat, hops': nat, used: iset<int>)
    requires m <= n <= |ls| && Laid(msg, a, ls[m..n], j)
    requires Same(msg, msg', 0, j)
    requires Spells(msg', j, Cut(ls[n..]), hops, used) && hops <= hops' && Span(a, j) <= used
    ensures Spells(msg', a, Cut(ls[m..]), hops', used)
  {
    LaidStable(msg, msg', a, ls[m..n], j);
    LaidSpells(msg', a, ls[m..n], j, ls[n..], hops, used);
    assert ls[m..n] + ls[n..] == ls[m..];
    SpellsStable(msg', msg', a, Cut(ls[m..]), hops, hops', used, used);
  }

  /** Once the labels still missing are spelled at `j`, the whole name is spelled
      and every remembered suffix, old or new, can be read back. */
  lemma WritingDone(msg: seq<byte>, msg': seq<byte>, was: seq<Entry>, entries: seq<Entry>,
                    ls: seq<seq<byte>>, n: nat, j0: nat, j: nat, hops: nat,
                    used: iset<int>, used': iset<int>, r: nat)
    requires Writing(msg, was, entries, ls, n, j0, j) && Same(msg, msg', 0, j)
    requires TableOk(msg, was, used, j0)
    requires used' == used + Span(j0, r) && j < r
    requires Spells(msg', j, Cut(ls[n..]), hops, used') && hops <= j0
    ensures Spells(msg', j0, Cut(ls), j0, used')
    ensures TableOk(msg', entries, used', r)
  {
    assert ls[0..n] == ls[..n] && ls[0..] == ls;
    SuffixSpelled(msg, msg', j0, ls, 0, n, j, hops, j0, used');
    forall i | 0 <= i < |entries|
      ensures entries[i].pos < r && Spells(msg', entries[i].pos, Labels(entries[i].name), entries[i].pos, used')
    {
      var e := entries[i];
      if i < |was| {
        assert e == was[i];
        SpellsStable(msg, msg', e.pos, Labels(e.name), e.pos, e.pos, used, used');
      } else {
        SuffixSpelled(msg, msg', e.pos, ls, |ls| - |Split(e.name)|, n, j, hops, e.pos, used');
      }
    }
  }

  /** The last label, ended by a zero byte of its own unless it is empty. */
  lemma LastLabel(msg: seq<byte>, j: nat, l: seq<byte>, used: iset<int>, r: nat)
    requires Put(msg, j, l) && r == j + 1 + |l| + (if l == [] then 0 else 1) && r <= |msg| && msg[r - 1] == 0
    requires Span(j, r) <= used
    ensures Spells(msg, j, Cut([l]), 0, used) && NameEnd(msg, j) == r
  {
    assert j in Span(j, r) && r - 1 in Span(j, r);
    if l != [] {
      assert LabelAt(msg, j, |l|, used) by {
        forall k | j <= k <= j + |l| ensures k in used { assert k in Span(j, r); }
      }
      assert Cut([l]) == [l];
      assert [l][1..] == [];
      assert Spells(msg, r - 1, [], 0, used);
      assert NameEnd(msg, r - 1) == r;
    }
  }

  /** A pointer to a remembered offset that fits in 14 bits spells that suffix. */
  lemma PointerSpelled(msg: seq<byte>, j: nat, labels: seq<seq<byte>>, pos: nat, used: iset<int>)
    requires j + 2 <= |msg| && pos < POINTER_BASE
    requires msg[j] == (0xc000 + pos % POINTER_BASE) / 256 && msg[j + 1] == (0xc000 + pos % POINTER_BASE) % 256
    requires j in used && j + 1 in used
    requires Spells(msg, pos, labels, pos, used)
    ensures Spells(msg, j, labels, pos + 1, used) && NameEnd(msg, j) == j + 2
  {
    PointerFits(pos);
  }

  /** A name written at `j0` up to `r`: read back exactly, together with every
      suffix remembered so far, provided every remembered offset fits a pointer. */
  ghost predicate Written(msg: seq<byte>, msg': seq<byte>, was: seq<Entry>, entries: seq<Entry>,
                          name: seq<byte>, j0: nat, r: nat, used: iset<int>)
  {
    var used' := used + Span(j0, r);
    TableOk(msg, was, used, j0) && PointersFit(entries) ==>
      && Spells(msg', j0, Labels(name), j0, used')
      && TableOk(msg', entries, used', r)
      && (NoInnerEmptyLabel(name) ==> NameEnd(msg', j0) == r)
  }

  /** The writer stopped at a remembered suffix and wrote a pointer to it. */
  lemma StoppedAtPointer(msg0: seq<byte>, msg: seq<byte>, msg': seq<byte>, was: seq<Entry>, entries: seq<Entry>,
                         name: seq<byte>, n: nat, j0: nat, j: nat, i: nat, used: iset<int>)
    requires Writing(msg, was, entries, Split(name), n, j0, j) && n < |Split(name)|
    requires j + 2 <= |msg'| && Same(msg, msg', 0, j) && Same(msg0, msg, 0, j0)
    requires i < |entries| && Split(entries[i].name) == Split(name)[n..]
    requires var v := 0xc000 + entries[i].pos % POINTER_BASE; msg'[j] == v / 256 && msg'[j + 1] == v % 256
    ensures Written(msg0, msg', was, entries, name, j0, j + 2, used)
  {
    var ls := Split(name);
    var used' := used + Span(j0, j + 2);
    if TableOk(msg0, was, used, j0) && PointersFit(entries) {
      assert i < |was|;
      assert entries[i] == was[i];
      var e := was[i];
      TableMoves(msg0, msg, was, used, j0);
      SpellsStable(msg, msg', e.pos, Labels(e.name), e.pos, e.pos, used, used');
      assert j in Span(j0, j + 2) && j + 1 in Span(j0, j + 2);
      PointerSpelled(msg', j, Labels(e.name), e.pos, used');
      WritingDone(msg, msg', was, entries, ls, n, j0, j, e.pos + 1, used, used', j + 2);
      PrefixEnd(msg, msg', name, n, j0, j);
    }
  }

  /** The table stays right as long as the bytes its names use do. */
  lemma TableMoves(msg: seq<byte>, msg': seq<byte>, entries: seq<Entry>, used: iset<int>, j: nat)
    requires TableOk(msg, entries, used, j)
    requires forall k :: 0 <= k < |msg| && k in used ==> k < |msg'| && msg'[k] == msg[k]
    ensures TableOk(msg', entries, used, j)
  {
    forall i | 0 <= i < |entries|
      ensures Spells(msg', entries[i].pos, Labels(entries[i].name), entries[i].pos, used)
    {
      var e := entries[i];
      SpellsStable(msg, msg', e.pos, Labels(e.name), e.pos, e.pos, used, used);
    }
  }

  lemma TableGrows(msg: seq<byte>, entries: seq<Entry>, entries': seq<Entry>, e: Entry, used: iset<int>, r: nat)
    requires TableOk(msg, entries, used, r) && e.pos < r && Spells(msg, e.pos, Labels(e.name), e.pos, used)
    requires entries' == entries || entries' == entries + [e]
    ensures TableOk(msg, entries', used, r)
  {
  }

  lemma PrefixEnd(msg: seq<byte>, msg': seq<byte>, name: seq<byte>, n: nat, j0: nat, j: nat)
    requires n < |Split(name)| && Laid(msg, j0, Split(name)[..n], j)
    requires Same(msg, msg', 0, j)
    ensures NoInnerEmptyLabel(name) ==> NameEnd(msg', j0) == NameEnd(msg', j)
    ensures n == |Split(name)| - 1 && !NoInnerEmptyLabel(name) ==> NameEnd(msg', j0) <= j
  {
    LaidStable(msg, msg', j0, Split(name)[..n], j);
    LaidEnd(msg', j0, Split(name)[..n], j);
    if NoInnerEmptyLabel(name) {
      var inner := Split(name)[..|Split(name)| - 1];
      assert forall i :: 0 <= i < n ==> Split(name)[..n][i] == inner[i];
    }
  }

  /** The writer reached the last label and ended the name with a zero byte. */
  lemma StoppedAtZero(msg0: seq<byte>, msg: seq<byte>, msg': seq<byte>, was: seq<Entry>, entries: seq<Entry>,
                      entries': seq<Entry>, name: seq<byte>, rest: seq<byte>, j0: nat, j: nat, r: nat, used: iset<int>)
    requires Writing(msg, was, entries, Split(name), |Split(name)| - 1, j0, j)
    requires Split(rest) == [rest] == Split(name)[|Split(name)| - 1..]
    requires Same(msg, msg', 0, j) && Same(msg0, msg, 0, j0)
    requires Put(msg', j, rest) && r == j + 1 + |rest| + (if rest == [] then 0 else 1)
    requires r <= |msg'| && msg'[r - 1] == 0
    requires entries' == entries || entries' == entries + [Entry(rest, j)]
    ensures Written(msg0, msg', was, entries', name, j0, r, used)
    ensures NameEnd(msg', j0) == r <==> NoInnerEmptyLabel(name)
  {
    var ls := Split(name);
    var used' := used + Span(j0, r);
    assert Span(j, r) <= used';
    LastLabel(msg', j, rest, used', r);
    PrefixEnd(msg, msg', name, |ls| - 1, j0, j);
    if TableOk(msg0, was, used, j0) && PointersFit(entries') {
      TableMoves(msg0, msg, was, used, j0);
      WritingDone(msg, msg', was, entries, ls, |ls| - 1, j0, j, 0, used, used', r);
      SpellsStable(msg', msg', j, Labels(rest), 0, j, used', used');
      TableGrows(msg', entries, entries', Entry(rest, j), used', r);
    }
  }

  // ----- the method -----

  /** What success means: the name is written from `j0` up to `r` and reads back,
      nothing outside is touched, and without a table the name ends exactly at `r`
      unless a label before the last is empty. */
  ghost predicate Success(msg: seq<byte>, msg': seq<byte>, was: seq<Entry>, entries: seq<Entry>, name: seq<byte>,
                          j0: nat, r: int, bufLen: nat, used: iset<int>)
  {
    && j0 < r <= bufLen + 1 && r <= j0 + |name| + 2 && r <= |msg| == |msg'|
    && Same(msg, msg', 0, j0) && Same(msg, msg', r, |msg|)
    && was <= entries && (forall i :: |was| <= i < |entries| ==> entries[i].pos < r)
    && Written(msg, msg', was, entries, name, j0, r, used)
    && (entries == [] ==> (NameEnd(msg', j0) == r <==> NoInnerEmptyLabel(name)))
  }

  /** Between two labels: `rest`, the labels of `name` from the `n`th on, is still
      to be written at `j`. */
  ghost predicate Between(msg0: seq<byte>, msg: seq<byte>, was: seq<Entry>, entries: seq<Entry>, name: seq<byte>,
                          rest: seq<byte>, n: nat, j0: nat, j: nat)
  {
    && j0 <= |msg0| == |msg|
    && |rest| <= |name| && j == j0 + |name| - |rest| && j <= |msg|
    && 0 !in rest && n < |Split(name)| && Split(rest) == Split(name)[n..]
    && Writing(msg, was, entries, Split(name), n, j0, j)
    && Same(msg0, msg, 0, j0) && Same(msg0, msg, j, |msg|)
  }

  /** `msg'` is `msg` with a label written at `j`. */
  ghost predicate LabelPut(msg: seq<byte>, msg': seq<byte>, j: nat, l: seq<byte>)
  {
    && |msg| == |msg'| && Put(msg', j, l)
    && Same(msg, msg', 0, j) && Same(msg, msg', j + 1 + |l|, |msg|)
  }

  lemma LabelStep(msg0: seq<byte>, msg: seq<byte>, msg': seq<byte>, was: seq<Entry>, entries: seq<Entry>,
                  entries': seq<Entry>, name: seq<byte>, rest: seq<byte>, n: nat, j0: nat, j: nat, d: nat)
    requires Between(msg0, msg, was, entries, name, rest, n, j0, j)
    requires d == DotAt(rest) && d < |rest| && d <= MAX_LABEL
    requires LabelPut(msg, msg', j, rest[..d])
    requires entries' == entries || entries' == entries + [Entry(rest, j)]
    ensures Between(msg0, msg', was, entries', name, rest[d + 1..], n + 1, j0, j + 1 + d)
  {
    hide Writing, Laid, NewEntry;
    var ls, rest' := Split(name), rest[d + 1..];
    assert Split(rest)[1..] == Split(rest');
    assert ls[n] == rest[..d];
    assert ls[n + 1..] == ls[n..][1..] == Split(rest');
    WritingStep(msg, msg', was, entries, entries', ls, n, j0, j, rest);
    forall k | 0 <= k < |rest'|
      ensures rest'[k] != 0
    {
      assert rest'[k] == rest[d + 1 + k];
    }
  }

  lemma PointerEnd(msg0: seq<byte>, msg: seq<byte>, msg': seq<byte>, was: seq<Entry>, entries: seq<Entry>,
                   name: seq<byte>, rest: seq<byte>, n: nat, j0: nat, j: nat, i: nat, bufLen: nat, used: iset<int>)
    requires Between(msg0, msg, was, entries, name, rest, n, j0, j)
    requires i < |entries| && entries[i].name == rest
    requires j + 2 <= bufLen < |msg| && |msg'| == |msg|
    requires Same(msg, msg', 0, j) && Same(msg, msg', j + 2, |msg|)
    requires var v := 0xc000 + entries[i].pos % POINTER_BASE; msg'[j] == v / 256 && msg'[j + 1] == v % 256
    ensures Success(msg0, msg', was, entries, name, j0, j + 2, bufLen, used)
  {
    StoppedAtPointer(msg0, msg, msg', was, entries, name, n, j0, j, i, used);
  }

  lemma ZeroPut(msg: seq<byte>, msg1: seq<byte>, msg': seq<byte>, j: nat, rest: seq<byte>, r: nat)
    requires LabelPut(msg, msg1, j, rest) && r <= |msg|
    requires if rest == [] then r == j + 1 && msg' == msg1 else r == j + |rest| + 2 && msg' == msg1[r - 1 := 0]
    ensures |msg'| == |msg| && Put(msg', j, rest) && msg'[r - 1] == 0
    ensures Same(msg, msg', 0, j) && Same(msg, msg', r, |msg|)
  {
    assert msg'[j + 1..j + 1 + |rest|] == msg1[j + 1..j + 1 + |rest|];
  }

  lemma ZeroEnd(msg0: seq<byte>, msg: seq<byte>, msg1: seq<byte>, msg': seq<byte>, was: seq<Entry>,
                entries: seq<Entry>, entries': seq<Entry>, name: seq<byte>, rest: seq<byte>, n: nat,
                j0: nat, j: nat, r: nat, bufLen: nat, used: iset<int>)
    requires Between(msg0, msg, was, entries, name, rest, n, j0, j)
    requires DotAt(rest) == |rest| && |rest| <= MAX_LABEL && j + |rest| + 1 <= bufLen < |msg|
    requires LabelPut(msg, msg1, j, rest)
    requires if rest == [] then r == j + 1 && msg' == msg1 else r == j + |rest| + 2 && msg' == msg1[r - 1 := 0]
    requires entries' == entries || entries' == entries + [Entry(rest, j)]
    ensures Success(msg0, msg', was, entries', name, j0, r, bufLen, used)
  {
    hide Laid, Written, NameEnd, NoInnerEmptyLabel, LabelPut, Put, Split, DotAt;
    SplitStep(rest);
    assert n == |Split(name)| - 1;
    ZeroPut(msg, msg1, msg', j, rest, r);
    StoppedAtZero(msg0, msg, msg', was, entries, entries', name, rest, j0, j, r, used);
  }

  method WriteLabel(buf: array<byte>, j: nat, l: seq<byte>)
    requires |l| <= MAX_LABEL && j + 1 + |l| <= buf.Length
    modifies buf
    ensures LabelPut(old(buf[..]), buf[..], j, l)
  {
    ghost var msg := buf[..];
    buf[j] := |l|;
    CopyBytes(l, buf, j + 1);
  }

  /** Point to an earlier copy of `rest`, if the table has one: 0 when it has not,
      -2 when the pointer does not fit, else the offset after it. */
  method TryPointer(buf: array<byte>, bufLen: nat, j: nat, rest: seq<byte>, table: LabelTable) returns (r: int)
    requires bufLen < buf.Length
    modifies buf
    ensures var i := IndexOf(table.entries, rest);
            if r == 0 then i == |table.entries| && buf[..] == old(buf[..])
            else if r < 0 then r == -2 && i < |table.entries| && j + 2 > bufLen && buf[..] == old(buf[..])
            else
              && r == j + 2 <= bufLen && i < |table.entries|
              && Same(old(buf[..]), buf[..], 0, j) && Same(old(buf[..]), buf[..], j + 2, buf.Length)
              && var v := 0xc000 + table.entries[i].pos % POINTER_BASE;
                 buf[j] == v / 256 && buf[j + 1] == v % 256
  {
    var ref := table.GetPos(rest);
    if ref < 0 { return 0; }
    if j + 2 > bufLen { return -2; }
    var v := 0xc000 + ref % POINTER_BASE;
    buf[j], buf[j + 1] := v / 256, v % 256;
    return j + 2;
  }

  /** What the table remembers; nothing when no table is used. */
  function Known(table: LabelTable?): seq<Entry>
    reads table
  {
    if table == null then [] else table.entries
  }

  /** Remember and write the next label, and the final zero byte if it is the
      last one: gives the offset after the name then, and 0 otherwise. */
  method PutNext(buf: array<byte>, bufLen: nat, j: nat, rest: seq<byte>, table: LabelTable?, d: nat,
                 ghost msg0: seq<byte>, ghost was: seq<Entry>, ghost name: seq<byte>, ghost n: nat,
                 ghost j0: nat, ghost used: iset<int>) returns (r: nat)
    requires Between(msg0, buf[..], was, Known(table), name, rest, n, j0, j)
    requires d == DotAt(rest) <= MAX_LABEL && j + d + 1 <= bufLen < buf.Length
    modifies buf, table
    ensures d == |rest| ==> Success(msg0, buf[..], was, Known(table), name, j0, r, bufLen, used)
    ensures d == |rest| ==> r == j + d + (if d == 0 then 1 else 2) && buf[r - 1] == 0
    ensures d < |rest| ==> Between(msg0, buf[..], was, Known(table), name, rest[d + 1..], n + 1, j0, j + 1 + d)
    ensures Known(table) == if table == null then old(Known(table)) else Remember(old(Known(table)), rest, j)
  {
    hide Between, Success, Split, DotAt, Same;
    ghost var msg, entries := buf[..], Known(table);
    if table != null { table.Add(rest, j); }
    WriteLabel(buf, j, rest[..d]);
    if d == |rest| {
      ghost var msg1 := buf[..];
      assert rest[..d] == rest;
      BetweenFacts(msg0, msg, was, entries, name, rest, n, j0, j);
      assert rest != [] ==> msg1[j + d] == msg1[j + 1..j + 1 + d][d - 1] == rest[d - 1];
      r := j + 1 + d;
      if buf[r - 1] != 0 {
        buf[r] := 0;
        r := r + 1;
      }
      ZeroEnd(msg0, msg, msg1, buf[..], was, entries, Known(table), name, rest, n, j0, j, r, bufLen, used);
    } else {
      LabelStep(msg0, msg, buf[..], was, entries, Known(table), name, rest, n, j0, j, d);
      r := 0;
    }
  }

  lemma BetweenStart(msg: seq<byte>, was: seq<Entry>, name: seq<byte>, j0: nat)
    requires j0 <= |msg| && 0 !in name
    ensures Between(msg, msg, was, was, name, name, 0, j0, j0)
  {
    assert Split(name)[..0] == [];
  }

  lemma BetweenFacts(msg0: seq<byte>, msg: seq<byte>, was: seq<Entry>, entries: seq<Entry>, name: seq<byte>,
                     rest: seq<byte>, n: nat, j0: nat, j: nat)
    requires Between(msg0, msg, was, entries, name, rest, n, j0, j)
    ensures |rest| <= |name| && j == j0 + |name| - |rest|
    ensures 0 !in rest
    ensures DotAt(rest) > MAX_LABEL ==> !ShortLabels(name)
  {
    assert Split(name)[n] == Split(rest)[0];
  }

  /** Entries longer than `name` are not `name`. */
  lemma {:induction false} LongerEntries(was: seq<Entry>, entries: seq<Entry>, name: seq<byte>)
    requires was <= entries && forall i :: |was| <= i < |entries| ==> |entries[i].name| > |name|
    ensures Has(was, name) <==> Has(entries, name)
  {
    var i := IndexOf(entries, name);
    if i < |entries| {
      assert i < |was|;
      assert entries[i] == was[i];
    }
    var k := IndexOf(was, name);
    if k < |was| {
      assert was[k] == entries[k];
    }
  }

  /** Where writing stands: the rest of the name ends where the name does, and the table
      will have learned the same. */
  ghost predicate OnCourse(was: seq<Entry>, entries: seq<Entry>, keeps: bool, name: seq<byte>, rest: seq<byte>, j0: nat,
                           j: nat, bufLen: nat)
  {
    && was <= entries && (forall i :: |was| <= i < |entries| ==> |entries[i].name| > |rest|)
    && Ended(was, name, j0, bufLen) == Ended(was, rest, j, bufLen) && (j == j0 || j <= bufLen)
    && (keeps ==> Learned(was, name, j0) == Learned(entries, rest, j))
  }

  lemma CourseStep(was: seq<Entry>, entries: seq<Entry>, entries': seq<Entry>, keeps: bool, name: seq<byte>,
                   rest: seq<byte>, d: nat, rest': seq<byte>, j0: nat, j: nat, bufLen: nat)
    requires OnCourse(was, entries, keeps, name, rest, j0, j, bufLen) && !Has(entries, rest)
    requires d == DotAt(rest) < |rest| && rest' == rest[d + 1..] && d <= MAX_LABEL && j + d + 1 <= bufLen
    requires entries' == if keeps then Remember(entries, rest, j) else entries
    ensures OnCourse(was, entries', keeps, name, rest', j0, j + 1 + d, bufLen)
  {
    hide DotAt, Has, Ended, Learned;
    LongerEntries(was, entries, rest);
    LabelEnded(was, entries, rest, d, rest', j, bufLen);
  }

  lemma LabelEnded(was: seq<Entry>, entries: seq<Entry>, rest: seq<byte>, d: nat, rest': seq<byte>, j: nat, bufLen: nat)
    requires !Has(was, rest) && !Has(entries, rest)
    requires d == DotAt(rest) < |rest| && rest' == rest[d + 1..] && d <= MAX_LABEL && j + d + 1 <= bufLen
    ensures Ended(was, rest, j, bufLen) == Ended(was, rest', j + 1 + d, bufLen)
    ensures Learned(entries, rest, j) == Learned(Remember(entries, rest, j), rest', j + 1 + d)
  {
    hide DotAt, Has, Remember;
  }

  lemma CourseEnds(was: seq<Entry>, entries: seq<Entry>, keeps: bool, name: seq<byte>, rest: seq<byte>, j0: nat, j: nat,
                   bufLen: nat)
    requires OnCourse(was, entries, keeps, name, rest, j0, j, bufLen)
    ensures Has(entries, rest) && j + 2 > bufLen ==> Ended(was, name, j0, bufLen) == -2
    ensures Has(entries, rest) && j + 2 <= bufLen ==> Ended(was, name, j0, bufLen) == j + 2
    ensures Has(entries, rest) && keeps ==> Learned(was, name, j0) == entries
    ensures !Has(entries, rest) && DotAt(rest) > MAX_LABEL ==> Ended(was, name, j0, bufLen) == -1
    ensures !Has(entries, rest) && DotAt(rest) <= MAX_LABEL && j + DotAt(rest) + 1 > bufLen ==> Ended(was, name, j0, bufLen) == -2
    ensures !Has(entries, rest) && DotAt(rest) == |rest| <= MAX_LABEL && j + |rest| + 1 <= bufLen ==>
              && Ended(was, name, j0, bufLen) == j + |rest| + (if rest == [] then 1 else 2)
              && (keeps ==> Learned(was, name, j0) == Remember(entries, rest, j))
  {
    hide DotAt, Has;
    LongerEntries(was, entries, rest);
  }

  lemma SameSelf(msg: seq<byte>, j: nat)
    requires j <= |msg|
    ensures Same(msg, msg, 0, j)
  {
  }

  lemma CourseStart(was: seq<Entry>, keeps: bool, name: seq<byte>, j0: nat, bufLen: nat)
    ensures OnCourse(was, was, keeps, name, name, j0, j0, bufLen)
  {
  }

  lemma HasMeans(entries: seq<Entry>, name: seq<byte>)
    ensures Has(entries, name) <==> IndexOf(entries, name) < |entries|
    ensures Has([], name) == false
  {
  }

  /** Nothing lies past the end of the buffer yet. */
  lemma BetweenKeeps(msg0: seq<byte>, msg: seq<byte>, was: seq<Entry>, entries: seq<Entry>, keeps: bool, name: seq<byte>,
                     rest: seq<byte>, n: nat, j0: nat, j: nat, bufLen: nat)
    requires Between(msg0, msg, was, entries, name, rest, n, j0, j) && bufLen < |msg|
    requires OnCourse(was, entries, keeps, name, rest, j0, j, bufLen)
    ensures |msg0| == |msg| && msg[bufLen] == msg0[bufLen] && Same(msg0, msg, 0, j0)
  {
    hide Writing, Split, Ended, Learned;
  }

  lemma SuccessKeeps(msg: seq<byte>, msg': seq<byte>, was: seq<Entry>, entries: seq<Entry>, name: seq<byte>, j0: nat, r: int,
                     bufLen: nat, used: iset<int>)
    requires Success(msg, msg', was, entries, name, j0, r, bufLen, used) && bufLen < |msg|
    ensures |msg| == |msg'| && 0 <= r <= bufLen + 1 && (r <= bufLen ==> msg'[bufLen] == msg[bufLen])
    ensures Same(msg, msg', 0, j0)
  {
    hide Written, NameEnd;
  }

  /** dnsname_to_labels: write `name` at `j0` as labels, pointing to an earlier
      suffix when the table knows one.  Gives the offset after the name, -1 for a
      label over 63 bytes or -2 when the name is too long or does not fit.  The
      final zero byte is written without a bounds check and may lie at `bufLen`. */
  method DnsnameToLabels(buf: array<byte>, bufLen: nat, j0: nat, name: seq<byte>, table: LabelTable?,
                         ghost used: iset<int>) returns (r: int)
    requires bufLen < buf.Length && j0 <= buf.Length
    requires 0 !in name
    modifies buf, table
    ensures r >= 0 ==> Success(old(buf[..]), buf[..], old(Known(table)), Known(table), name, j0, r, bufLen, used)
    ensures r >= 0 ==> |name| <= MAX_NAME
    ensures r < 0 ==> r == -1 || r == -2
    ensures r == -1 ==> !ShortLabels(name)
    ensures r == -2 ==> |name| > MAX_NAME || j0 + |name| + 2 > bufLen
    ensures r == if |name| > MAX_NAME then -2 else Ended(old(Known(table)), name, j0, bufLen)
    ensures r >= 0 && table != null ==> table.entries == Learned(old(Known(table)), name, j0)
    ensures buf[bufLen] == if r == bufLen + 1 then 0 else old(buf[bufLen])
    ensures Same(old(buf[..]), buf[..], 0, j0)
  {
    hide Between, Success, Split, DotAt, IndexOf, Same, ShortLabels, OnCourse, Ended, Learned, Has;
    if |name| > MAX_NAME {
      SameSelf(buf[..], j0);
      return -2;
    }
    ghost var msg0, was := buf[..], Known(table);
    ghost var n := 0;
    var j: nat, rest := j0, name;
    BetweenStart(msg0, was, name, j0);
    ghost var keeps := table != null;
    CourseStart(was, keeps, name, j0, bufLen);
    while true
      invariant Between(msg0, buf[..], was, Known(table), name, rest, n, j0, j)
      invariant OnCourse(was, Known(table), keeps, name, rest, j0, j, bufLen)
      decreases |rest|
    {
      BetweenFacts(msg0, buf[..], was, Known(table), name, rest, n, j0, j);
      BetweenKeeps(msg0, buf[..], was, Known(table), keeps, name, rest, n, j0, j, bufLen);
      CourseEnds(was, Known(table), keeps, name, rest, j0, j, bufLen);
      HasMeans(Known(table), rest);
      ghost var before := Known(table);
      if table != null {
        ghost var msg, entries := buf[..], table.entries;
        r := TryPointer(buf, bufLen, j, rest, table);
        if r > 0 {
          PointerEnd(msg0, msg, buf[..], was, entries, name, rest, n, j0, j, IndexOf(entries, rest), bufLen, used);
          SuccessKeeps(msg0, buf[..], was, Known(table), name, j0, r, bufLen, used);
        }
        if r != 0 { return; }
      }
      var d := DotAt(rest);
      if d > MAX_LABEL { return -1; }
      if j + d + 1 > bufLen { return -2; }
      r := PutNext(buf, bufLen, j, rest, table, d, msg0, was, name, n, j0, used);
      if d == |rest| {
        SuccessKeeps(msg0, buf[..], was, Known(table), name, j0, r, bufLen, used);
        return;
      }
      CourseStep(was, before, Known(table), keeps, name, rest, d, rest[d + 1..], j0, j, bufLen);
      n := n + 1;
      j, rest := j + 1 + d, rest[d + 1..];
    }
  }

  /** A name for which that happens: "a" in a buffer of two bytes, of which a third is
      written. */
  method ZeroPastTheEnd() returns (r: int, buf: array<byte>)
    ensures r == 3 && fresh(buf) && buf[..] == [1, 97, 0]
  {
    buf := new byte[3](_ => 255);
    r := DnsnameToLabels(buf, 2, 0, [97], null, iset{});
    ShortName();
  }

  lemma ShortName()
    ensures Ended([], [97], 0, 2) == 3
  {
  }
}
