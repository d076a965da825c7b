/** name_parse (evdns.c): reading a possibly compressed name out of a packet. */
module DnsReader {
  import opened Common
  import opened DnsNames

  /** The labels at offset `j`, following at most `hops` pointers; none when the
      walk leaves the message or runs out of hops. */
  function Walk(msg: seq<byte>, j: nat, hops: nat): Option<seq<seq<byte>>>
    decreases hops, |msg| - j
  {
    if j >= |msg| then None
    else if msg[j] == 0 then Some([])
    else if msg[j] >= 64 then
      if j + 1 >= |msg| || hops == 0 then None
      else Walk(msg, Target(msg[j], msg[j + 1]), hops - 1)
    else if j + 1 + msg[j] > |msg| then None
    else Prefixed([msg[j + 1..j + 1 + msg[j]]], Walk(msg, j + 1 + msg[j], hops))
  }

  function Prefixed(seen: seq<seq<byte>>, rest: Option<seq<seq<byte>>>): Option<seq<seq<byte>>>
  {
    match rest
    case None => None
    case Some(ls) => Some(seen + ls)
  }

  /** What a reader with room for `cap` bytes gets at offset `j`: the dotted name
      and the offset after it. */
  function DecodeName(msg: seq<byte>, j: nat, cap: nat): Option<(seq<byte>, int)>
  {
    Finish([], Walk(msg, j, |msg|), NameEnd(msg, j), cap)
  }

  /** The reader's answer after `seen`, when the walk ahead gives `rest`. */
  function Finish(seen: seq<seq<byte>>, rest: Option<seq<seq<byte>>>, end: int, cap: nat): Option<(seq<byte>, int)>
  {
    match rest
    case None => None
    case Some(ls) => if |Join(seen + ls)| < cap then Some((Join(seen + ls), end)) else None
  }

  /** The walk finds a name exactly when the message spells one. */
  lemma {:induction false} WalkIsSpells(msg: seq<byte>, j: nat, labels: seq<seq<byte>>, hops: nat)
    ensures Walk(msg, j, hops) == Some(labels) <==> Spells(msg, j, labels, hops, Everywhere)
    decreases hops, |msg| - j
  {
    if j < |msg| && msg[j] != 0 {
      if msg[j] >= 64 {
        if j + 1 < |msg| && hops > 0 {
          WalkIsSpells(msg, Target(msg[j], msg[j + 1]), labels, hops - 1);
        }
      } else if j + 1 + msg[j] <= |msg| {
        var next := j + 1 + msg[j];
        var here := msg[j + 1..next];
        if labels != [] {
          WalkIsSpells(msg, next, labels[1..], hops);
          assert labels == [labels[0]] + labels[1..];
        }
        match Walk(msg, next, hops) {
          case None =>
          case Some(r) => assert ([here] + r)[1..] == r && ([here] + r)[0] == here;
        }
      }
    }
  }

  /** A message that spells `labels` in few enough hops decodes to them, for any
      reader with enough room. */
  lemma SpelledDecodes(msg: seq<byte>, j: nat, labels: seq<seq<byte>>, hops: nat, used: iset<int>, cap: nat)
    requires Spells(msg, j, labels, hops, used) && hops <= |msg| && |Join(labels)| < cap
    ensures DecodeName(msg, j, cap) == Some((Join(labels), NameEnd(msg, j)))
  {
    SpellsStable(msg, msg, j, labels, hops, |msg|, used, Everywhere);
    WalkIsSpells(msg, j, labels, |msg|);
    assert [] + labels == labels;
  }

  /** `text` extended by one more label. */
  function Dotted(text: seq<byte>, l: seq<byte>): seq<byte>
  {
    if text == [] then l else text + [DOT] + l
  }

  lemma {:induction false} JoinSnoc(seen: seq<seq<byte>>, l: seq<byte>)
    ensures Join(seen + [l]) == if seen == [] then l else Join(seen) + [DOT] + l
  {
    if seen == [] {
      assert seen + [l] == [l];
    } else {
      assert (seen + [l])[1..] == seen[1..] + [l];
      JoinSnoc(seen[1..], l);
      if |seen| > 1 {
        assert Join(seen + [l]) == seen[0] + [DOT] + (Join(seen[1..]) + [DOT] + l);
        assert Join(seen) == seen[0] + [DOT] + Join(seen[1..]);
      }
    }
  }

  /** Joining more labels never gives a shorter text. */
  lemma {:induction false} JoinGrows(seen: seq<seq<byte>>, rest: seq<seq<byte>>)
    ensures |Join(seen + rest)| >= |Join(seen)|
    decreases |rest|
  {
    if rest == [] {
      assert seen + rest == seen;
    } else {
      JoinSnoc(seen, rest[0]);
      assert seen + rest == (seen + [rest[0]]) + rest[1..];
      JoinGrows(seen + [rest[0]], rest[1..]);
    }
  }

  /** Append one label to the output, after a dot unless it is the first; fails
      when it would not leave room for the terminating NUL. */
  method AppendLabel(packet: seq<byte>, j: nat, n: nat, nameOut: array<byte>, cp: nat, cap: nat)
    returns (ok: bool, cp': nat)
    requires j + n <= |packet| && cp <= cap <= nameOut.Length
    modifies nameOut
    ensures ok <==> cp + (if cp == 0 then 0 else 1) + n < cap
    ensures ok ==> cp' == cp + (if cp == 0 then 0 else 1) + n
    ensures ok ==> nameOut[..cp'] == Dotted(old(nameOut[..cp]), packet[j..j + n])
    ensures nameOut[cap..] == old(nameOut[cap..])
  {
    cp' := cp;
    ghost var start := nameOut[..cp];
    if cp' != 0 {
      if cp' + 1 >= cap { return false, cp'; }
      nameOut[cp'] := DOT;
      cp' := cp' + 1;
    }
    if cp' + n >= cap { return false, cp'; }
    ghost var mid := nameOut[..];
    CopyBytes(packet[j..j + n], nameOut, cp');
    assert nameOut[..cp' + n] == nameOut[..cp'] + nameOut[cp'..cp' + n];
    assert nameOut[cap..] == nameOut[cp' + n..][cap - cp' - n..] == mid[cp' + n..][cap - cp' - n..] == mid[cap..];
    cp' := cp' + n;
    ok := true;
  }

  /** The reader one step at a time: `text` is what has been written so far and
      `end` the offset after the first pointer, or -1 before any. */
  function Parse(msg: seq<byte>, j: nat, hops: nat, text: seq<byte>, end: int, cap: nat): Option<(seq<byte>, int)>
    decreases hops, |msg| - j
  {
    if j >= |msg| then None
    else if msg[j] == 0 then
      if |text| >= cap then None else Some((text, if end < 0 then j + 1 else end))
    else if msg[j] >= 64 then
      if j + 1 >= |msg| || hops == 0 then None
      else Parse(msg, Target(msg[j], msg[j + 1]), hops - 1, text, if end < 0 then j + 2 else end, cap)
    else if j + 1 + msg[j] > |msg| then None
    else
      var text' := Dotted(text, msg[j + 1..j + 1 + msg[j]]);
      if |text'| >= cap then None else Parse(msg, j + 1 + msg[j], hops, text', end, cap)
  }

  /** The stepwise reader gives what the walk gives. */
  lemma {:induction false} ParseIsWalk(msg: seq<byte>, j: nat, hops: nat, seen: seq<seq<byte>>, end: int, cap: nat)
    requires seen == [] <==> Join(seen) == []
    ensures Parse(msg, j, hops, Join(seen), end, cap) ==
            Finish(seen, Walk(msg, j, hops), if end < 0 then NameEnd(msg, j) else end, cap)
    decreases hops, |msg| - j
  {
    if j >= |msg| {
    } else if msg[j] == 0 {
      assert seen + [] == seen;
    } else if msg[j] >= 64 {
      if j + 1 < |msg| && hops > 0 {
        ParseIsWalk(msg, Target(msg[j], msg[j + 1]), hops - 1, seen, if end < 0 then j + 2 else end, cap);
      }
    } else if j + 1 + msg[j] <= |msg| {
      var l, next := msg[j + 1..j + 1 + msg[j]], j + 1 + msg[j];
      JoinSnoc(seen, l);
      assert Join(seen + [l]) == Dotted(Join(seen), l);
      FinishStep(seen, l, Walk(msg, next, hops), if end < 0 then NameEnd(msg, j) else end, cap);
      ParseIsWalk(msg, next, hops, seen + [l], end, cap);
    }
  }

  lemma FinishStep(seen: seq<seq<byte>>, l: seq<byte>, rest: Option<seq<seq<byte>>>, end: int, cap: nat)
    ensures Finish(seen, Prefixed([l], rest), end, cap) == Finish(seen + [l], rest, end, cap)
    ensures |Join(seen + [l])| >= cap ==> Finish(seen + [l], rest, end, cap) == None
  {
    match rest {
      case None =>
      case Some(r) =>
        assert seen + ([l] + r) == (seen + [l]) + r;
        JoinGrows(seen + [l], r);
    }
  }

  /** Following one pointer. */
  lemma ParsePointer(msg: seq<byte>, c: Cursor, c': Cursor, text: seq<byte>, cap: nat)
    requires c.j + 1 < |msg| && msg[c.j] >= 64 && c.ptrCount <= |msg|
    requires c' == Cursor(Target(msg[c.j], msg[c.j + 1]), c.ptrCount + 1, c.cp,
                          if c.nameEnd < 0 then c.j + 2 else c.nameEnd)
    ensures Remaining(msg, c, text, cap) == if c.ptrCount == |msg| then None else Remaining(msg, c', text, cap)
    ensures c'.j >= |msg| ==> Remaining(msg, c, text, cap) == None
  {
  }

  /** Reading one label, whose bytes are `lab` if it lies inside the message. */
  lemma ParseLabel(msg: seq<byte>, j: nat, hops: nat, text: seq<byte>, end: int, cap: nat, lab: seq<byte>)
    requires j < |msg| && 0 < msg[j] < 64
    requires j + 1 + msg[j] <= |msg| ==> lab == msg[j + 1..j + 1 + msg[j]]
    ensures Parse(msg, j, hops, text, end, cap) ==
            if |Dotted(text, lab)| < cap then Parse(msg, j + 1 + msg[j], hops, Dotted(text, lab), end, cap) else None
  {
  }

  /** Where the reader stands between two turns of its loop: next offset, pointers
      followed, bytes written, and the offset after the first pointer (or -1). */
  datatype Cursor = Cursor(j: nat, ptrCount: nat, cp: nat, nameEnd: int)

  datatype Turn = Fail | Finished | Again

  /** What is left to read from `c`, with `text` written so far. */
  function Remaining(msg: seq<byte>, c: Cursor, text: seq<byte>, cap: nat): Option<(seq<byte>, int)>
    requires c.ptrCount <= |msg|
  {
    Parse(msg, c.j, |msg| - c.ptrCount, text, c.nameEnd, cap)
  }

  /** A turn that reads a label. */
  method LabelTurn(packet: seq<byte>, length: nat, c: Cursor, nameOut: array<byte>, cap: nat)
    returns (fits: bool, c': Cursor)
    requires length + MAX_LABEL <= |packet| && cap <= nameOut.Length
    requires c.ptrCount <= length && c.cp <= cap && c.j < length && 0 < packet[c.j] < 64
    modifies nameOut
    ensures nameOut[cap..] == old(nameOut[cap..])
    ensures c' == c.(j := c.j + 1 + packet[c.j], cp := c'.cp) && c'.cp <= cap
    ensures Remaining(packet[..length], c, old(nameOut[..c.cp]), cap) ==
            if fits then Remaining(packet[..length], c', nameOut[..c'.cp], cap) else None
  {
    var labelLen := packet[c.j];
    ghost var msg, text, lab := packet[..length], nameOut[..c.cp], packet[c.j + 1..c.j + 1 + labelLen];
    assert c.j + 1 + labelLen <= length ==> lab == msg[c.j + 1..c.j + 1 + labelLen];
    ParseLabel(msg, c.j, length - c.ptrCount, text, c.nameEnd, cap, lab);
    var cp;
    fits, cp := AppendLabel(packet, c.j + 1, labelLen, nameOut, c.cp, cap);
    assert fits <==> |Dotted(text, lab)| < cap;
    c' := c.(j := c.j + 1 + labelLen, cp := if fits then cp else c.cp);
  }

  /** One turn of the reader's loop. */
  method ParseTurn(packet: seq<byte>, length: nat, c: Cursor, nameOut: array<byte>, cap: nat)
    returns (t: Turn, c': Cursor)
    requires length + MAX_LABEL <= |packet| && cap <= nameOut.Length
    requires c.ptrCount <= length && c.cp <= cap && -1 <= c.nameEnd
    modifies nameOut
    ensures nameOut[cap..] == old(nameOut[cap..])
    ensures c'.ptrCount <= length && c'.cp <= cap && -1 <= c'.nameEnd
    ensures var before := Remaining(packet[..length], c, old(nameOut[..c.cp]), cap);
            match t
            case Fail => before == None
            case Finished =>
              && nameOut[..c'.cp] == old(nameOut[..c.cp])
              && before == if c'.cp >= cap then None
                           else Some((nameOut[..c'.cp], if c'.nameEnd < 0 then c'.j else c'.nameEnd))
            case Again =>
              && before == Remaining(packet[..length], c', nameOut[..c'.cp], cap)
              && (c'.ptrCount > c.ptrCount || (c'.ptrCount == c.ptrCount && c'.j > c.j && c.j < length))
  {
    ghost var msg, text := packet[..length], nameOut[..c.cp];
    if c.j >= length { return Fail, c; }
    var labelLen := packet[c.j];
    assert labelLen == msg[c.j];
    if labelLen == 0 { return Finished, c.(j := c.j + 1); }
    if labelLen >= 64 {
      if c.j + 1 >= length { return Fail, c; }
      var ptrLow := packet[c.j + 1];
      assert ptrLow == msg[c.j + 1];
      c' := Cursor(Target(labelLen, ptrLow), c.ptrCount + 1, c.cp, if c.nameEnd < 0 then c.j + 2 else c.nameEnd);
      ParsePointer(msg, c, c', text, cap);
      if c'.j >= length { return Fail, c; }
      if c'.ptrCount > length { return Fail, c; }
      return Again, c';
    }
    var fits;
    fits, c' := LabelTurn(packet, length, c, nameOut, cap);
    return if fits then Again else Fail, c';
  }

  /** The source checks no label against the packet's end, so up to 63 bytes
      past `length` are read; the contract shows that no answer depends on them. */
  method NameParse(packet: seq<byte>, length: nat, idx: nat, nameOut: array<byte>, cap: nat)
    returns (ok: bool, next: int)
    requires length + MAX_LABEL <= |packet| && cap <= nameOut.Length
    modifies nameOut
    ensures ok <==> DecodeName(packet[..length], idx, cap).Some?
    ensures ok ==>
              var (name, end) := DecodeName(packet[..length], idx, cap).value;
              next == end && nameOut[..|name| + 1] == name + [0]
    ensures nameOut[cap..] == old(nameOut[cap..])
  {
    ghost var msg := packet[..length];
    ParseIsWalk(msg, idx, length, [], -1, cap);
    var c, t := Cursor(idx, 0, 0, -1), Again;
    while t == Again
      invariant c.ptrCount <= length && c.cp <= cap && -1 <= c.nameEnd
      invariant nameOut[cap..] == old(nameOut[cap..])
      invariant t == Again ==> DecodeName(msg, idx, cap) == Remaining(msg, c, nameOut[..c.cp], cap)
      invariant t == Fail ==> DecodeName(msg, idx, cap) == None
      invariant t == Finished ==>
                  DecodeName(msg, idx, cap) ==
                  if c.cp >= cap then None else Some((nameOut[..c.cp], if c.nameEnd < 0 then c.j else c.nameEnd))
      decreases t == Again, length - c.ptrCount, length - c.j
    {
      t, c := ParseTurn(packet, length, c, nameOut, cap);
    }
    if t == Fail || c.cp >= cap { return false, idx; }
    nameOut[c.cp] := 0;
    next := if c.nameEnd < 0 then c.j else c.nameEnd;
    ok := true;
  }
}
