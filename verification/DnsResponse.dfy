/** evdns_server_request_format_response (evdns.c): a whole reply message whose
    names share one compression table. */
module DnsResponse {
  import opened Common
  import opened DnsNames
  import opened DnsReader
  import opened DnsWriter

  const BUF_LEN := 1500
  const UDP_MAX := 512

  type u16 = x: int | 0 <= x < 0x1_0000
  type u32 = x: int | 0 <= x < 0x1_0000_0000
  type CString = s: seq<byte> | 0 !in s
  type RecordData = s: seq<byte> | |s| < 0x1_0000

  datatype Question = Question(name: CString, qtype: u16, qclass: u16)
  datatype Data = NameData(name: CString) | Bytes(bytes: RecordData)
  datatype Item = Item(name: CString, rtype: u16, rclass: u16, ttl: u32, data: Data)

  /** The reply: an error code, or the message with its truncation flag. */
  datatype Response = Failed(code: int) | Sent(bytes: seq<byte>, truncated: bool)

  function Bytes16(x: u16): (b: seq<byte>)
    ensures |b| == 2
  {
    [x / 256, x % 256]
  }

  function Bytes32(x: u32): (b: seq<byte>)
    ensures |b| == 4
  {
    Bytes16(x / 0x1_0000) + Bytes16(x % 0x1_0000)
  }

  // ----- where a reply ends -----

  /** How far writing has got, and what the compression table knows there. */
  datatype Point = Point(j: nat, known: seq<Entry>)

  /** The code that refuses the reply, or no more room, or where writing stands. */
  datatype Outcome = Refused(code: int) | Overflow | Reached(p: Point)

  function AfterName(p: Point, name: CString): Outcome
  {
    var r := if |name| > MAX_NAME then -2 else Ended(p.known, name, p.j, BUF_LEN);
    if r < 0 then Refused(r) else Reached(Point(r, Learned(p.known, name, p.j)))
  }

  function AfterBytes(p: Point, n: nat): Outcome
  {
    if p.j + n > BUF_LEN then Overflow else Reached(p.(j := p.j + n))
  }

  function AfterQuestion(p: Point, q: Question): Outcome
  {
    var o := AfterName(p, q.name);
    if o.Reached? then AfterBytes(o.p, 4) else o
  }

  /** After the data of a record, its length included. */
  function AfterData(p: Point, data: Data): Outcome
  {
    match data {
      case NameData(name) => AfterName(p.(j := p.j + 2), name)
      case Bytes(bytes) => AfterBytes(p, 2 + |bytes|)
    }
  }

  /** In a record a name that cannot be written counts as no more room. */
  function AfterItem(p: Point, item: Item): Outcome
  {
    var named := AfterName(p, item.name);
    if !named.Reached? then Overflow
    else
      var fixed := AfterBytes(named.p, 8);
      if !fixed.Reached? then Overflow
      else
        var o := AfterData(fixed.p, item.data);
        if o.Reached? then o else Overflow
  }

  /** A question or a record of the reply. */
  datatype Part = Asked(q: Question) | Record(item: Item)

  function AfterPart(p: Point, part: Part): Outcome
  {
    match part {
      case Asked(q) => AfterQuestion(p, q)
      case Record(item) => AfterItem(p, item)
    }
  }

  function AfterParts(o: Outcome, parts: seq<Part>): Outcome
  {
    if parts == [] then o
    else
      var before := AfterParts(o, parts[..|parts| - 1]);
      if before.Reached? then AfterPart(before.p, parts[|parts| - 1]) else before
  }

  function Questions(qs: seq<Question>): (parts: seq<Part>)
    ensures |parts| == |qs| && forall k :: 0 <= k < |qs| ==> parts[k] == Asked(qs[k])
  {
    seq(|qs|, k requires 0 <= k < |qs| => Asked(qs[k]))
  }

  function Records(items: seq<Item>): (parts: seq<Part>)
    ensures |parts| == |items| && forall k :: 0 <= k < |items| ==> parts[k] == Record(items[k])
  {
    seq(|items|, k requires 0 <= k < |items| => Record(items[k]))
  }

  /** The parts of a reply in the order they are written. */
  function Parts(qs: seq<Question>, answer: seq<Item>, authority: seq<Item>, additional: seq<Item>): seq<Part>
  {
    Questions(qs) + Records(answer) + Records(authority) + Records(additional)
  }

  const AFTER_HEADER := Reached(Point(12, []))

  lemma {:induction false} AfterMore(o: Outcome, a: seq<Part>, b: seq<Part>)
    ensures AfterParts(o, a + b) == AfterParts(AfterParts(o, a), b)
  {
    if b == [] {
      assert a + b == a;
    } else {
      AfterMore(o, a, b[..|b| - 1]);
      assert (a + b)[..|a + b| - 1] == a + b[..|b| - 1];
    }
  }

  // ----- how big a reply can get -----

  /** The length of a part whose names are not compressed. */
  function PlainSize(part: Part): nat
  {
    match part {
      case Asked(q) => |q.name| + 2 + 4
      case Record(item) => |item.name| + 2 + 10 + match item.data { case NameData(n) => |n| + 2 case Bytes(b) => |b| }
    }
  }

  function PlainSizes(parts: seq<Part>): nat
  {
    if parts == [] then 0 else PlainSizes(parts[..|parts| - 1]) + PlainSize(parts[|parts| - 1])
  }

  predicate Wellnamed(part: Part)
  {
    match part {
      case Asked(q) => Namely(q.name)
      case Record(item) => Namely(item.name) && (item.data.NameData? ==> Namely(item.data.name))
    }
  }

  /** A name of at most 255 bytes with labels of at most 63. */
  predicate Namely(name: seq<byte>)
  {
    |name| <= MAX_NAME && ShortLabels(name)
  }

  /** Compression only makes a name shorter. */
  lemma NameFits(p: Point, name: CString)
    requires Namely(name) && p.j + |name| + 2 <= BUF_LEN
    ensures AfterName(p, name).Reached? && AfterName(p, name).p.j <= p.j + |name| + 2
  {
    var m := FirstKnown(p.known, name, |Split(name)|);
    EndedMeans(p.known, name, p.j, BUF_LEN, m);
    if m < |Split(name)| { ShortSuffix(name, m); }
  }

  lemma PartFits(p: Point, part: Part)
    requires Wellnamed(part) && p.j + PlainSize(part) <= BUF_LEN
    ensures AfterPart(p, part).Reached? && AfterPart(p, part).p.j <= p.j + PlainSize(part)
  {
    hide AfterName, Namely;
    match part {
      case Asked(q) => NameFits(p, q.name);
      case Record(item) =>
        NameFits(p, item.name);
        if item.data.NameData? {
          var fixed := AfterBytes(AfterName(p, item.name).p, 8);
          NameFits(fixed.p.(j := fixed.p.j + 2), item.data.name);
        }
    }
  }

  /** A reply that fits without compression is not truncated. */
  lemma {:induction false} PartsFit(p: Point, parts: seq<Part>)
    requires forall k :: 0 <= k < |parts| ==> Wellnamed(parts[k])
    requires p.j + PlainSizes(parts) <= BUF_LEN
    ensures AfterParts(Reached(p), parts).Reached? && AfterParts(Reached(p), parts).p.j <= p.j + PlainSizes(parts)
  {
    if parts != [] {
      var init := parts[..|parts| - 1];
      PartsFit(p, init);
      PartFits(AfterParts(Reached(p), init).p, parts[|parts| - 1]);
    }
  }

  // ----- what has been written -----

  /** A name, where it starts and where the writer stopped after it. */
  datatype Named = Named(spot: nat, end: nat, name: CString)

  /** The offsets names use, and the names. */
  datatype Log = Log(used: iset<int>, named: seq<Named>)

  /** Up to `j`, the message spells each logged name at its spot, and the table
      knows only suffixes that can be read back. */
  ghost predicate Message(msg: seq<byte>, entries: seq<Entry>, log: Log, j: nat)
  {
    && j <= BUF_LEN + 2 <= |msg|
    && TableOk(msg, entries, log.used, j) && PointersFit(entries)
    && forall n :: n in log.named ==> SpelledAt(msg, n, log.used, j)
  }

  lemma EmptyMessage(msg: seq<byte>)
    requires BUF_LEN + 2 <= |msg|
    ensures Message(msg, [], Log(iset{}, []), 0)
  {
  }

  ghost predicate SpelledAt(msg: seq<byte>, n: Named, used: iset<int>, j: nat)
  {
    && |n.name| <= MAX_NAME && n.spot < j && Spells(msg, n.spot, Labels(n.name), n.spot, used)
    && (NoInnerEmptyLabel(n.name) ==> NameEnd(msg, n.spot) == n.end)
  }

  lemma SpelledMoves(msg: seq<byte>, msg': seq<byte>, n: Named, used: iset<int>, used': iset<int>, j: nat, j': nat)
    requires SpelledAt(msg, n, used, j) && j <= j' && used <= used'
    requires forall k :: 0 <= k < |msg| && k in used ==> k < |msg'| && msg'[k] == msg[k]
    ensures SpelledAt(msg', n, used', j')
  {
    SpellsStable(msg, msg', n.spot, Labels(n.name), n.spot, n.spot, used, used');
    EndStable(msg, msg', n.spot, Labels(n.name), n.spot, used);
  }

  /** Bytes no name uses can be written at will. */
  lemma MessageMoves(msg: seq<byte>, msg': seq<byte>, entries: seq<Entry>, log: Log, j: nat, j': nat)
    requires Message(msg, entries, log, j) && j <= j' <= BUF_LEN + 2 && |msg| == |msg'|
    requires forall k :: 0 <= k < |msg| && k in log.used ==> msg'[k] == msg[k]
    ensures Message(msg', entries, log, j')
  {
    TableMoves(msg, msg', entries, log.used, j);
    forall n | n in log.named
      ensures SpelledAt(msg', n, log.used, j')
    {
      SpelledMoves(msg, msg', n, log.used, log.used, j, j');
    }
  }

  ghost function Logged(log: Log, j: nat, name: CString, r: nat): Log
  {
    Log(log.used + Span(j, r), log.named + [Named(j, r, name)])
  }

  /** A name has been added at `j`. */
  lemma MessageName(msg: seq<byte>, msg': seq<byte>, entries: seq<Entry>, entries': seq<Entry>, log: Log,
                    j: nat, name: CString, r: nat)
    requires Message(msg, entries, log, j)
    requires |name| <= MAX_NAME && Success(msg, msg', entries, entries', name, j, r, BUF_LEN, log.used)
    ensures Message(msg', entries', Logged(log, j, name, r), r)
  {
    var log' := Logged(log, j, name, r);
    assert PointersFit(entries') by {
      forall i | 0 <= i < |entries'| ensures entries'[i].pos < POINTER_BASE {
        if i < |entries| { assert entries'[i] == entries[i]; }
      }
    }
    forall n | n in log'.named
      ensures SpelledAt(msg', n, log'.used, r)
    {
      if n in log.named {
        SpelledMoves(msg, msg', n, log.used, log'.used, j, r);
      }
    }
  }

  // ----- how the parts lie -----

  /** A part runs from `start` to `end`, its name up to `mid`. */
  datatype Place = Place(start: nat, mid: nat, end: nat)

  function PartName(part: Part): CString
  {
    match part { case Asked(q) => q.name case Record(item) => item.name }
  }

  /** The bytes of a part behind its name: type and class of a question; of a record also
      the time to live, a length that leads exactly to its end, and the data. */
  ghost predicate BytesAt(msg: seq<byte>, part: Part, place: Place)
  {
    && place.start < place.mid <= place.end <= |msg|
    && match part {
         case Asked(q) =>
           && place.end == place.mid + 4
           && msg[place.mid..place.end] == Bytes16(q.qtype) + Bytes16(q.qclass)
         case Record(item) => RecordAt(msg, place.mid, item, place.end)
       }
  }

  /** The parts lie one behind the other from `from` up to `to`, and their names are
      logged. */
  ghost predicate LaidOut(msg: seq<byte>, named: seq<Named>, parts: seq<Part>, places: seq<Place>, from: nat, to: nat)
  {
    && |parts| == |places|
    && if parts == [] then from == to
       else
         var part, place := parts[|parts| - 1], places[|places| - 1];
         && LaidOut(msg, named, parts[..|parts| - 1], places[..|places| - 1], from, place.start)
         && PartAt(msg, named, part, place) && place.end == to
  }

  ghost predicate PartAt(msg: seq<byte>, named: seq<Named>, part: Part, place: Place)
  {
    && BytesAt(msg, part, place) && Named(place.start, place.mid, PartName(part)) in named
    && (part.Record? && part.item.data.NameData? ==> Named(place.mid + 10, place.end, part.item.data.name) in named)
  }

  /** Nothing behind `to` matters to it. */
  lemma {:induction false} LaidOutMoves(msg: seq<byte>, msg': seq<byte>, named: seq<Named>, named': seq<Named>,
                                        parts: seq<Part>, places: seq<Place>, from: nat, to: nat, hi: nat)
    requires LaidOut(msg, named, parts, places, from, to) && to <= hi && Same(msg, msg', 0, hi)
    requires forall n :: n in named ==> n in named'
    ensures LaidOut(msg', named', parts, places, from, to)
    decreases |parts|
  {
    if parts != [] {
      var part, place := parts[|parts| - 1], places[|places| - 1];
      LaidOutMoves(msg, msg', named, named', parts[..|parts| - 1], places[..|places| - 1], from, place.start, hi);
      BytesMove(msg, msg', part, place, hi);
    }
  }

  lemma BytesMove(msg: seq<byte>, msg': seq<byte>, part: Part, place: Place, hi: nat)
    requires BytesAt(msg, part, place) && place.end <= hi && Same(msg, msg', 0, hi)
    ensures BytesAt(msg', part, place)
  {
    hide Fixed, Bytes16;
    Slices(msg, msg', hi);
  }

  lemma Slices(msg: seq<byte>, msg': seq<byte>, hi: nat)
    requires Same(msg, msg', 0, hi)
    ensures forall a, b {:trigger msg'[a..b]} :: 0 <= a <= b <= hi ==> msg[a..b] == msg'[a..b]
  {
  }

  lemma LaidOutMore(msg: seq<byte>, msg': seq<byte>, named: seq<Named>, named': seq<Named>, parts: seq<Part>,
                    places: seq<Place>, from: nat, to: nat, part: Part, place: Place)
    requires LaidOut(msg, named, parts, places, from, to) && Same(msg, msg', 0, to)
    requires forall n :: n in named ==> n in named'
    requires PartAt(msg', named', part, place) && place.start == to
    ensures LaidOut(msg', named', parts + [part], places + [place], from, place.end)
  {
    LaidOutMoves(msg, msg', named, named', parts, places, from, to, to);
    assert (parts + [part])[..|parts|] == parts && (places + [place])[..|places|] == places;
  }

  /** APPEND16, APPEND32 and memcpy of record data: nothing is written when it
      does not fit. */
  method Append(buf: array<byte>, j: nat, data: seq<byte>, ghost entries: seq<Entry>, ghost log: Log)
    returns (ok: bool, j': nat)
    requires Message(buf[..], entries, log, j)
    modifies buf
    ensures ok <==> j + |data| <= BUF_LEN
    ensures j' == if ok then j + |data| else j
    ensures Message(buf[..], entries, log, j')
    ensures Same(old(buf[..]), buf[..], 0, j)
    ensures ok ==> buf[j..j'] == data
  {
    if j + |data| > BUF_LEN { return false, j; }
    ghost var msg := buf[..];
    CopyBytes(data, buf, j);
    MessageMoves(msg, buf[..], entries, log, j, j + |data|);
    return true, j + |data|;
  }

  /** A name at offset `j`. */
  method AppendName(buf: array<byte>, j: nat, name: CString, table: LabelTable, ghost log: Log)
    returns (r: int, ghost log': Log)
    requires Message(buf[..], table.entries, log, j)
    modifies buf, table
    ensures r >= 0 ==> r > j && log' == Logged(log, j, name, r) && Message(buf[..], table.entries, log', r)
    ensures AfterName(Point(j, old(table.entries)), name) == if r < 0 then Refused(r) else Reached(Point(r, table.entries))
    ensures Same(old(buf[..]), buf[..], 0, j)
    ensures r < 0 ==> r == -1 || r == -2
  {
    ghost var msg, entries := buf[..], table.entries;
    r := DnsnameToLabels(buf, BUF_LEN, j, name, table, log.used);
    log' := log;
    if r >= 0 {
      MessageName(msg, buf[..], entries, table.entries, log, j, name, r);
      log' := Logged(log, j, name, r);
    }
  }

  /** The fixed part of a record, between its name and its data length. */
  function Fixed(item: Item): (b: seq<byte>)
    ensures |b| == 8
  {
    Bytes16(item.rtype) + Bytes16(item.rclass) + Bytes32(item.ttl)
  }

  /** The record whose name ends at `mid` runs to `j`: type, class, time to live, a
      length that leads exactly to `j`, and the data. */
  ghost predicate RecordAt(msg: seq<byte>, mid: nat, item: Item, j: nat)
  {
    && mid + 10 <= j <= |msg| && j - mid - 10 < 0x1_0000
    && msg[mid..mid + 8] == Fixed(item)
    && msg[mid + 8..mid + 10] == Bytes16(j - mid - 10)
    && (item.data.Bytes? ==> msg[mid + 10..j] == item.data.bytes)
  }

  /** Record data held as bytes. */
  method AppendBytes(buf: array<byte>, mid: nat, item: Item, ghost entries: seq<Entry>, ghost log: Log)
    returns (ok: bool, j: nat)
    requires Message(buf[..], entries, log, mid) && item.data.Bytes?
    modifies buf
    ensures Message(buf[..], entries, log, j) && (ok ==> j == mid + 10 + |item.data.bytes|)
    ensures ok <==> mid + 10 + |item.data.bytes| <= BUF_LEN
    ensures ok ==> RecordAt(buf[..], mid, item, j)
    ensures Same(old(buf[..]), buf[..], 0, mid)
  {
    var bytes := item.data.bytes;
    ok, j := Append(buf, mid, Fixed(item), entries, log);
    if !ok { return; }
    ok, j := Append(buf, j, Bytes16(|bytes|), entries, log);
    if !ok { return; }
    assert buf[mid..mid + 8] == Fixed(item);
    ok, j := Append(buf, j, bytes, entries, log);
    if ok {
      assert buf[mid..mid + 8] == Fixed(item) && buf[mid + 8..mid + 10] == Bytes16(|bytes|);
    }
  }

  /** A name as record data: its length is filled in after it has been written. */
  method AppendNameData(buf: array<byte>, mid: nat, item: Item, table: LabelTable, ghost log: Log)
    returns (ok: bool, j: nat, ghost log': Log)
    requires Message(buf[..], table.entries, log, mid) && item.data.NameData?
    modifies buf, table
    ensures ok ==> j > mid && Message(buf[..], table.entries, log', j) && RecordAt(buf[..], mid, item, j)
    ensures ok ==> log'.named == log.named + [Named(mid + 10, j, item.data.name)]
    ensures ok <==> mid + 8 <= BUF_LEN && AfterName(Point(mid + 10, old(table.entries)), item.data.name).Reached?
    ensures ok ==> AfterName(Point(mid + 10, old(table.entries)), item.data.name) == Reached(Point(j, table.entries))
    ensures Same(old(buf[..]), buf[..], 0, mid)
  {
    hide AfterName;
    log' := log;
    ok, j := Append(buf, mid, Fixed(item), table.entries, log);
    if !ok { return; }
    var lenIdx, nameStart := j, j + 2;
    MessageMoves(buf[..], buf[..], table.entries, log, j, nameStart);
    ghost var msg0 := buf[..];
    var r;
    r, log' := AppendName(buf, nameStart, item.data.name, table, log);
    if r < 0 { return false, j, log'; }
    assert buf[mid..mid + 8] == msg0[mid..mid + 8];
    j := r;
    ghost var msg := buf[..];
    var n := Bytes16((j - nameStart) % 0x1_0000);
    buf[lenIdx], buf[lenIdx + 1] := n[0], n[1];
    MessageMoves(msg, buf[..], table.entries, log', j, j);
    assert buf[mid..mid + 8] == msg[mid..mid + 8];
    assert buf[mid + 8..mid + 10] == n;
  }

  /** One resource record. */
  method AppendItem(buf: array<byte>, j0: nat, item: Item, table: LabelTable, ghost log: Log)
    returns (ok: bool, j: nat, ghost log': Log, ghost mid: nat)
    requires Message(buf[..], table.entries, log, j0)
    modifies buf, table
    ensures ok ==> j0 < mid <= j && Message(buf[..], table.entries, log', j)
    ensures ok ==> PartAt(buf[..], log'.named, Record(item), Place(j0, mid, j)) && forall n :: n in log.named ==> n in log'.named
    ensures AfterItem(Point(j0, old(table.entries)), item) == if ok then Reached(Point(j, table.entries)) else Overflow
    ensures Same(old(buf[..]), buf[..], 0, j0)
  {
    hide AfterName, Message;
    var r;
    r, log' := AppendName(buf, j0, item.name, table, log);
    mid, j := j0, j0;
    if r < 0 { return false, j, log', mid; }
    mid := r;
    if item.data.Bytes? {
      ok, j := AppendBytes(buf, r, item, table.entries, log');
    } else {
      ok, j, log' := AppendNameData(buf, r, item, table, log');
    }
  }

  /** A question: its name, type and class. */
  method AppendQuestion(buf: array<byte>, j0: nat, q: Question, table: LabelTable, ghost log: Log)
    returns (r: int, overflow: bool, ghost log': Log, ghost mid: nat)
    requires Message(buf[..], table.entries, log, j0)
    modifies buf, table
    ensures r >= 0 && !overflow ==> j0 < mid <= r && Message(buf[..], table.entries, log', r)
    ensures r >= 0 && !overflow ==> PartAt(buf[..], log'.named, Asked(q), Place(j0, mid, r))
    ensures r >= 0 && !overflow ==> forall n :: n in log.named ==> n in log'.named
    ensures AfterQuestion(Point(j0, old(table.entries)), q) == Left(r, overflow, table.entries)
    ensures Same(old(buf[..]), buf[..], 0, j0)
    ensures r < 0 ==> r == -1 || r == -2
  {
    hide AfterName, Message;
    overflow, mid := false, j0;
    r, log' := AppendName(buf, j0, q.name, table, log);
    if r < 0 { return; }
    mid := r;
    var ok;
    ok, r := Append(buf, r, Bytes16(q.qtype) + Bytes16(q.qclass), table.entries, log');
    overflow := !ok;
  }

  /** A result of writing: an error code, no more room, or the offset reached. */
  function Left(r: int, overflow: bool, entries: seq<Entry>): Outcome
  {
    if r < 0 then Refused(r) else if overflow then Overflow else Reached(Point(r, entries))
  }

  /** The parts `parts` have been written behind the header. */
  ghost predicate Wrote(msg: seq<byte>, entries: seq<Entry>, log: Log, parts: seq<Part>, places: seq<Place>, j: nat)
  {
    && 12 <= j && Message(msg, entries, log, j) && LaidOut(msg, log.named, parts, places, 12, j)
    && AfterParts(AFTER_HEADER, parts) == Reached(Point(j, entries))
  }

  lemma WroteMore(msg: seq<byte>, msg': seq<byte>, entries: seq<Entry>, entries': seq<Entry>, log: Log, log': Log,
                  parts: seq<Part>, places: seq<Place>, j: nat, part: Part, place: Place)
    requires Wrote(msg, entries, log, parts, places, j) && Message(msg', entries', log', place.end)
    requires Same(msg, msg', 0, j) && forall n :: n in log.named ==> n in log'.named
    requires PartAt(msg', log'.named, part, place) && place.start == j
    requires AfterPart(Point(j, entries), part) == Reached(Point(place.end, entries'))
    ensures Wrote(msg', entries', log', parts + [part], places + [place], place.end)
    ensures Same(msg, msg', 0, 12)
  {
    hide Message, AfterPart, PartAt;
    assert place.start < place.end by { PartRuns(msg', log'.named, part, place); }
    LaidOutMore(msg, msg', log.named, log'.named, parts, places, 12, j, part, place);
    AfterOne(AFTER_HEADER, parts, part);
  }

  lemma PartRuns(msg: seq<byte>, named: seq<Named>, part: Part, place: Place)
    requires PartAt(msg, named, part, place)
    ensures place.start < place.mid <= place.end
  {
  }

  lemma AfterOne(o: Outcome, parts: seq<Part>, part: Part)
    ensures AfterParts(o, parts + [part]) ==
            var before := AfterParts(o, parts); if before.Reached? then AfterPart(before.p, part) else before
  {
    assert (parts + [part])[..|parts|] == parts;
  }

  /** Once writing has stopped, no further part changes why. */
  lemma {:induction false} AfterStopped(o: Outcome, parts: seq<Part>)
    requires !o.Reached?
    ensures AfterParts(o, parts) == o
  {
    if parts != [] { AfterStopped(o, parts[..|parts| - 1]); }
  }

  lemma StaysStopped(parts: seq<Part>, more: seq<Part>)
    requires !AfterParts(AFTER_HEADER, parts).Reached?
    ensures AfterParts(AFTER_HEADER, parts + more) == AfterParts(AFTER_HEADER, parts)
  {
    AfterMore(AFTER_HEADER, parts, more);
    AfterStopped(AfterParts(AFTER_HEADER, parts), more);
  }

  /** One more question. */
  method AddQuestion(buf: array<byte>, j0: nat, q: Question, table: LabelTable, ghost log: Log, ghost parts: seq<Part>,
                     ghost places: seq<Place>)
    returns (r: int, overflow: bool, ghost log': Log, ghost places': seq<Place>)
    requires Wrote(buf[..], table.entries, log, parts, places, j0)
    modifies buf, table
    ensures r >= 0 && !overflow ==> Wrote(buf[..], table.entries, log', parts + [Asked(q)], places', r)
    ensures AfterParts(AFTER_HEADER, parts + [Asked(q)]) == Left(r, overflow, table.entries)
    ensures Same(old(buf[..]), buf[..], 0, 12)
    ensures r < 0 ==> r == -1 || r == -2
  {
    hide AfterQuestion, AfterParts, Message, LaidOut, PartAt, Wrote;
    ghost var msg, entries, mid := buf[..], table.entries, 0;
    WroteFacts(msg, entries, log, parts, places, j0);
    AfterOne(AFTER_HEADER, parts, Asked(q));
    r, overflow, log', mid := AppendQuestion(buf, j0, q, table, log);
    places' := places;
    if r >= 0 && !overflow {
      places' := places + [Place(j0, mid, r)];
      WroteMore(msg, buf[..], entries, table.entries, log, log', parts, places, j0, Asked(q), Place(j0, mid, r));
    }
  }

  lemma QuestionsSnoc(qs: seq<Question>, i: nat)
    requires i < |qs|
    ensures Questions(qs[..i]) + [Asked(qs[i])] == Questions(qs[..i + 1])
    ensures Questions(qs[..i + 1]) + Questions(qs[i + 1..]) == Questions(qs)
  {
  }

  /** The question section. */
  method AppendQuestions(buf: array<byte>, j0: nat, qs: seq<Question>, table: LabelTable, ghost log: Log)
    returns (r: int, overflow: bool, ghost log': Log, ghost places: seq<Place>)
    requires Wrote(buf[..], table.entries, log, [], [], j0)
    modifies buf, table
    ensures r >= 0 && !overflow ==> Wrote(buf[..], table.entries, log', Questions(qs), places, r)
    ensures AfterParts(AFTER_HEADER, Questions(qs)) == Left(r, overflow, table.entries)
    ensures Same(old(buf[..]), buf[..], 0, 12)
    ensures r < 0 ==> r == -1 || r == -2
  {
    r, overflow, log', places := j0, false, log, [];
    ghost var was := buf[..];
    hide AfterParts, Same, Wrote, Questions;
    WroteFacts(was, table.entries, log, [], [], j0);
    assert Questions(qs[..0]) == [];
    for i := 0 to |qs|
      invariant r >= 0 && !overflow && Wrote(buf[..], table.entries, log', Questions(qs[..i]), places, r)
      invariant Same(was, buf[..], 0, 12)
    {
      ghost var msg := buf[..];
      r, overflow, log', places := AddQuestion(buf, r, qs[i], table, log', Questions(qs[..i]), places);
      SameTrans(was, msg, buf[..], 12, 12);
      QuestionsSnoc(qs, i);
      if r < 0 || overflow {
        StaysStopped(Questions(qs[..i + 1]), Questions(qs[i + 1..]));
        return;
      }
    }
    assert qs[..|qs|] == qs;
    WroteFacts(buf[..], table.entries, log', Questions(qs), places, r);
  }

  lemma WroteFacts(msg: seq<byte>, entries: seq<Entry>, log: Log, parts: seq<Part>, places: seq<Place>, j: nat)
    requires Wrote(msg, entries, log, parts, places, j)
    ensures 12 <= j <= |msg| && Message(msg, entries, log, j)
    ensures AfterParts(AFTER_HEADER, parts) == Reached(Point(j, entries))
    ensures Same(msg, msg, 0, 12)
  {
  }

  lemma SameTrans(a: seq<byte>, b: seq<byte>, c: seq<byte>, lo: nat, hi: nat)
    requires Same(a, b, 0, lo) && Same(b, c, 0, hi) && lo <= hi
    ensures Same(a, c, 0, lo)
  {
  }

  /** One more record. */
  method AddItem(buf: array<byte>, j0: nat, item: Item, table: LabelTable, ghost log: Log, ghost parts: seq<Part>,
                 ghost places: seq<Place>)
    returns (ok: bool, j: nat, ghost log': Log, ghost places': seq<Place>)
    requires Wrote(buf[..], table.entries, log, parts, places, j0)
    modifies buf, table
    ensures ok ==> Wrote(buf[..], table.entries, log', parts + [Record(item)], places', j)
    ensures !ok ==> AfterParts(AFTER_HEADER, parts + [Record(item)]) == Overflow
    ensures Same(old(buf[..]), buf[..], 0, 12)
  {
    hide AfterItem, AfterParts, Message, LaidOut, PartAt, Wrote;
    ghost var msg, entries, mid := buf[..], table.entries, 0;
    WroteFacts(msg, entries, log, parts, places, j0);
    AfterOne(AFTER_HEADER, parts, Record(item));
    ok, j, log', mid := AppendItem(buf, j0, item, table, log);
    places' := places + [Place(j0, mid, j)];
    if ok {
      WroteMore(msg, buf[..], entries, table.entries, log, log', parts, places, j0, Record(item), Place(j0, mid, j));
    }
  }

  /** One of the answer, authority and additional sections, behind `parts`. */
  method AppendItems(buf: array<byte>, j0: nat, items: seq<Item>, table: LabelTable, ghost log: Log, ghost parts: seq<Part>,
                     ghost places: seq<Place>)
    returns (ok: bool, j: nat, ghost log': Log, ghost places': seq<Place>)
    requires Wrote(buf[..], table.entries, log, parts, places, j0)
    modifies buf, table
    ensures ok ==> Wrote(buf[..], table.entries, log', parts + Records(items), places', j)
    ensures !ok ==> AfterParts(AFTER_HEADER, parts + Records(items)) == Overflow
    ensures Same(old(buf[..]), buf[..], 0, 12)
  {
    ok, j, log', places' := true, j0, log, places;
    ghost var was := buf[..];
    hide AfterParts, Same, Wrote, Records;
    WroteFacts(was, table.entries, log, parts, places, j0);
    assert parts + Records(items[..0]) == parts;
    for i := 0 to |items|
      invariant ok && Wrote(buf[..], table.entries, log', parts + Records(items[..i]), places', j)
      invariant Same(was, buf[..], 0, 12)
    {
      ghost var msg := buf[..];
      ok, j, log', places' := AddItem(buf, j, items[i], table, log', parts + Records(items[..i]), places');
      SameTrans(was, msg, buf[..], 12, 12);
      RecordsSnoc(parts, items, i);
      if !ok {
        StaysStopped(parts + Records(items[..i + 1]), Records(items[i + 1..]));
        return;
      }
    }
    assert items[..|items|] == items;
  }

  lemma RecordsSnoc(parts: seq<Part>, items: seq<Item>, i: nat)
    requires i < |items|
    ensures parts + Records(items[..i]) + [Record(items[i])] == parts + Records(items[..i + 1])
    ensures parts + Records(items[..i + 1]) + Records(items[i + 1..]) == parts + Records(items)
  {
  }

  /** The three record sections, one after the other. */
  method AppendSections(buf: array<byte>, j0: nat, answer: seq<Item>, authority: seq<Item>, additional: seq<Item>,
                        table: LabelTable, ghost log: Log, ghost parts: seq<Part>, ghost places: seq<Place>)
    returns (ok: bool, j: nat, ghost log': Log, ghost places': seq<Place>)
    requires Wrote(buf[..], table.entries, log, parts, places, j0)
    modifies buf, table
    ensures ok ==> Wrote(buf[..], table.entries, log', parts + Records(answer) + Records(authority) + Records(additional), places', j)
    ensures !ok ==> AfterParts(AFTER_HEADER, parts + Records(answer) + Records(authority) + Records(additional)) == Overflow
    ensures Same(old(buf[..]), buf[..], 0, 12)
  {
    hide Wrote, AfterParts, Same;
    ghost var was, two := buf[..], parts + Records(answer) + Records(authority);
    WroteFacts(was, table.entries, log, parts, places, j0);
    ok, j, log', places' := AppendItems(buf, j0, answer, table, log, parts, places);
    ghost var msg := buf[..];
    if ok {
      ok, j, log', places' := AppendItems(buf, j, authority, table, log', parts + Records(answer), places');
      SameTrans(was, msg, buf[..], 12, 12);
    } else {
      StaysStopped(parts + Records(answer), Records(authority));
    }
    msg := buf[..];
    if ok {
      ok, j, log', places' := AppendItems(buf, j, additional, table, log', two, places');
      SameTrans(was, msg, buf[..], 12, 12);
    } else {
      StaysStopped(two, Records(additional));
    }
  }

  /** The 12-byte header. */
  function Header(transId: u16, flags: u16, qs: seq<Question>, answer: seq<Item>, authority: seq<Item>,
                  additional: seq<Item>): (h: seq<byte>)
    ensures |h| == 12
  {
    Bytes16(transId) + Bytes16(flags) + Bytes16(|qs| % 0x1_0000) + Bytes16(|answer| % 0x1_0000)
    + Bytes16(|authority| % 0x1_0000) + Bytes16(|additional| % 0x1_0000)
  }

  // ----- the reply as it is read -----

  /** The name is read from its start, wherever it was written and however it was
      compressed, and reading it leaves the index where the writer stopped unless an inner
      label is empty. */
  ghost predicate ReadableAt(msg: seq<byte>, start: nat, end: nat, name: seq<byte>)
  {
    && DecodeName(msg, start, MAX_NAME + 1) == Some((Join(Labels(name)), NameEnd(msg, start)))
    && (NoInnerEmptyLabel(name) ==> NameEnd(msg, start) == end)
  }

  /** A part can be read: its name, what follows it, and the name it may have as data. */
  ghost predicate PartRead(msg: seq<byte>, part: Part, place: Place)
  {
    && BytesAt(msg, part, place) && ReadableAt(msg, place.start, place.mid, PartName(part))
    && (part.Record? && part.item.data.NameData? ==> ReadableAt(msg, place.mid + 10, place.end, part.item.data.name))
  }

  /** The parts of a reply can be read one after the other, from behind the header to the
      end. */
  ghost predicate Reads(msg: seq<byte>, parts: seq<Part>, places: seq<Place>, end: nat)
  {
    && |parts| == |places|
    && if parts == [] then end == 12
       else
         var part, place := parts[|parts| - 1], places[|places| - 1];
         place.end == end && PartRead(msg, part, place) && Reads(msg, parts[..|parts| - 1], places[..|places| - 1], place.start)
  }

  lemma NamedReadable(msg: seq<byte>, entries: seq<Entry>, log: Log, j: nat, n: Named)
    requires Message(msg, entries, log, j) && n in log.named
    ensures j <= |msg| && ReadableAt(msg[..j], n.spot, n.end, n.name)
  {
    assert SpelledAt(msg, n, log.used, j);
    SpellsStable(msg, msg[..j], n.spot, Labels(n.name), n.spot, n.spot, log.used, log.used);
    EndStable(msg, msg[..j], n.spot, Labels(n.name), n.spot, log.used);
    JoinLabels(n.name);
    SpelledDecodes(msg[..j], n.spot, Labels(n.name), n.spot, log.used, MAX_NAME + 1);
  }

  lemma {:induction false} WroteReads(msg: seq<byte>, entries: seq<Entry>, log: Log, j: nat, parts: seq<Part>,
                                      places: seq<Place>, to: nat)
    requires Message(msg, entries, log, j) && LaidOut(msg, log.named, parts, places, 12, to) && to <= j
    ensures j <= |msg| && Reads(msg[..j], parts, places, to)
    decreases |parts|
  {
    hide Message, BytesAt, ReadableAt;
    assert j <= |msg| by { MessageRoom(msg, entries, log, j); }
    if parts != [] {
      var part, place := parts[|parts| - 1], places[|places| - 1];
      PartRuns(msg, log.named, part, place);
      WroteReads(msg, entries, log, j, parts[..|parts| - 1], places[..|places| - 1], place.start);
      BytesMove(msg, msg[..j], part, place, j);
      NamedReadable(msg, entries, log, j, Named(place.start, place.mid, PartName(part)));
      if part.Record? && part.item.data.NameData? {
        NamedReadable(msg, entries, log, j, Named(place.mid + 10, place.end, part.item.data.name));
      }
    }
  }

  lemma MessageRoom(msg: seq<byte>, entries: seq<Entry>, log: Log, j: nat)
    requires Message(msg, entries, log, j)
    ensures j <= |msg|
  {
  }

  /** Everything in order; fails with an error code, or overflows, or ends at `r`. */
  method Build(buf: array<byte>, header: seq<byte>, qs: seq<Question>, answer: seq<Item>, authority: seq<Item>,
               additional: seq<Item>)
    returns (r: int, overflow: bool, ghost places: seq<Place>)
    requires buf.Length == BUF_LEN + 2 && |header| == 12
    modifies buf
    ensures buf[..12] == header
    ensures r < 0 ==> r == -1 || r == -2
    ensures var o := AfterParts(AFTER_HEADER, Parts(qs, answer, authority, additional));
            if r < 0 then o == Refused(r) else if overflow then o == Overflow else o.Reached? && o.p.j == r
    ensures r >= 0 && !overflow ==>
              12 <= r <= buf.Length && Reads(buf[..r], Parts(qs, answer, authority, additional), places, r)
  {
    hide Message, AfterParts, LaidOut, Same, Reads;
    var table := new LabelTable();
    ghost var log := Log(iset{}, []);
    EmptyMessage(buf[..]);
    var ok, j := Append(buf, 0, header, table.entries, log);
    ghost var msg := buf[..];
    assert msg[..12] == buf[0..j] == header;
    WroteNothing(msg, log);
    r, overflow, log, places := AppendQuestions(buf, j, qs, table, log);
    SamePrefix(msg, buf[..], 12, 12);
    if r < 0 || overflow {
      Stopped(qs, answer, authority, additional);
      return;
    }
    ghost var msg1 := buf[..];
    ok, j, log, places := AppendSections(buf, r, answer, authority, additional, table, log, Questions(qs), places);
    SamePrefix(msg1, buf[..], 12, 12);
    if ok {
      ghost var parts := Parts(qs, answer, authority, additional);
      WroteFacts(buf[..], table.entries, log, parts, places, j);
      WroteReads(buf[..], table.entries, log, j, parts, places, j);
      assert buf[..][..j] == buf[..j];
    }
    r, overflow := j, !ok;
  }

  lemma WroteNothing(msg: seq<byte>, log: Log)
    requires Message(msg, [], log, 12)
    ensures Wrote(msg, [], log, [], [], 12)
  {
  }

  lemma Stopped(qs: seq<Question>, answer: seq<Item>, authority: seq<Item>, additional: seq<Item>)
    requires !AfterParts(AFTER_HEADER, Questions(qs)).Reached?
    ensures AfterParts(AFTER_HEADER, Parts(qs, answer, authority, additional)) == AfterParts(AFTER_HEADER, Questions(qs))
  {
    hide AfterParts;
    var more := Records(answer) + Records(authority) + Records(additional);
    assert Parts(qs, answer, authority, additional) == Questions(qs) + more;
    AfterMore(AFTER_HEADER, Questions(qs), more);
    AfterStopped(AfterParts(AFTER_HEADER, Questions(qs)), more);
  }

  /** Build the reply.  It is refused for a bad error code or a question whose name cannot be
      written; it is cut to 512 bytes exactly when not all is written or more than that is;
      otherwise the header comes first and each question and record, in order, starts where
      the one before ends and can be read. */
  method FormatResponse(transId: u16, reqFlags: bv16, err: int, qs: seq<Question>, answer: seq<Item>,
                        authority: seq<Item>, additional: seq<Item>)
    returns (res: Response, ghost places: seq<Place>)
    ensures var o := AfterParts(AFTER_HEADER, Parts(qs, answer, authority, additional));
            if !(0 <= err <= 15) then res == Failed(-1)
            else
              && var header := Header(transId, (reqFlags | 0x8000 | (err as bv16)) as int, qs, answer, authority, additional);
                 match o
                 case Refused(code) => res == Failed(code) && (code == -1 || code == -2)
                 case Overflow => res.Sent? && res.truncated && Truncated(res.bytes, header)
                 case Reached(p) =>
                   && res.Sent? && (res.truncated <==> p.j > UDP_MAX)
                   && if res.truncated then Truncated(res.bytes, header)
                      else |res.bytes| == p.j >= 12 && res.bytes[..12] == header
    ensures res.Sent? && !res.truncated ==>
              Reads(res.bytes, Parts(qs, answer, authority, additional), places, |res.bytes|)
  {
    hide Reads, Header, Parts, AfterParts;
    places := [];
    if err < 0 || err > 15 { return Failed(-1), places; }
    var flags := reqFlags | 0x8000 | (err as bv16);
    var header := Header(transId, flags as int, qs, answer, authority, additional);
    var buf := new byte[BUF_LEN + 2];
    var r, overflow;
    r, overflow, places := Build(buf, header, qs, answer, authority, additional);
    if r < 0 { return Failed(r), places; }
    if !overflow && r <= UDP_MAX {
      assert buf[..r][..12] == buf[..12];
      return Sent(buf[..r], false), places;
    }
    assert forall k :: 0 <= k < 12 ==> buf[k] == buf[..12][k];
    buf[2] := if buf[2] / 2 % 2 == 1 then buf[2] else buf[2] + 2;
    res := Sent(buf[..UDP_MAX], true);
  }

  /** A reply of 512 bytes whose header is the one given, with the truncation bit set. */
  predicate Truncated(bytes: seq<byte>, header: seq<byte>)
    requires |header| == 12
  {
    && |bytes| == UDP_MAX && bytes[2] / 2 % 2 == 1
    && (bytes[2] == header[2] || bytes[2] - 2 == header[2])
    && forall k :: 0 <= k < 12 && k != 2 ==> bytes[k] == header[k]
  }

  /** A reply whose names can be written and whose uncompressed form fits in 512 bytes is
      sent whole. */
  lemma SmallReplies(qs: seq<Question>, answer: seq<Item>, authority: seq<Item>, additional: seq<Item>)
    requires var parts := Parts(qs, answer, authority, additional);
             (forall k :: 0 <= k < |parts| ==> Wellnamed(parts[k])) && 12 + PlainSizes(parts) <= UDP_MAX
    ensures var o := AfterParts(AFTER_HEADER, Parts(qs, answer, authority, additional));
            o.Reached? && o.p.j <= 12 + PlainSizes(Parts(qs, answer, authority, additional))
  {
    hide Parts, PlainSizes, Wellnamed, AfterParts;
    PartsFit(Point(12, []), Parts(qs, answer, authority, additional));
  }

  // ----- one name, there and back -----

  /** Write a name at the start of a message with room for it, and read it there: the text that
      comes back is made of the labels up to the first empty one, with dots between. */
  method WriteThenRead(name: CString) returns (ok: bool, text: array<byte>)
    ensures ok <== |name| <= MAX_NAME && ShortLabels(name)
    ensures var back := Join(Labels(name)); ok ==> |back| < text.Length && text[..|back| + 1] == back + [0]
  {
    hide Split, Labels, ShortLabels, Spells, Join, DecodeName, NameEnd, Ended;
    text := new byte[|name| + 2];
    var buf := new byte[|name| + 3](_ => 0);
    var r := DnsnameToLabels(buf, |name| + 2, 0, name, null, iset{});
    if r < 0 { return false, text; }
    JoinLabels(name);
    SpelledDecodes(buf[..], 0, Labels(name), 0, iset{} + Span(0, r), |name| + 1);
    var packet := buf[..] + seq(MAX_LABEL, _ => 0);
    assert packet[..|name| + 3] == buf[..];
    var next;
    ok, next := NameParse(packet, |name| + 3, 0, text, |name| + 1);
  }

  /** A name with a trailing dot, which is written and read back without it. */
  method TrailingDot() returns (ok: bool, text: array<byte>)
    ensures ok && text.Length > 1 && text[..2] == [97, 0]
  {
    DotIsLost([97, DOT]);
    DotShort([97, DOT]);
    ok, text := WriteThenRead([97, DOT]);
  }
}
