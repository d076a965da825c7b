/** Domain names inside a DNS message (evdns.c): what it means for a message to
    spell a name at an offset, and how dotted text splits into labels. */
module DnsNames {
  import opened Common

  const DOT: byte := 46
  const MAX_LABEL := 63
  const POINTER_BASE := 0x4000

  // ----- dotted text -----

  /** Index of the first '.', or the length when there is none (strchr). */
  function DotAt(name: seq<byte>): (d: nat)
    ensures d <= |name|
    ensures d < |name| ==> name[d] == DOT
    ensures DOT !in name[..d]
  {
    if name == [] || name[0] == DOT then 0
    else
      assert name == [name[0]] + name[1..];
      assert name[..1 + DotAt(name[1..])] == [name[0]] + name[1..][..DotAt(name[1..])];
      1 + DotAt(name[1..])
  }

  /** All labels of dotted text, empty ones included. */
  function Split(name: seq<byte>): (ls: seq<seq<byte>>)
    ensures ls != []
    decreases |name|
  {
    var d := DotAt(name);
    if d == |name| then [name] else [name[..d]] + Split(name[d + 1..])
  }

  /** The labels up to the first empty one: on the wire an empty label is the
      terminating zero byte. */
  function Cut(ls: seq<seq<byte>>): seq<seq<byte>>
  {
    if ls == [] || ls[0] == [] then [] else [ls[0]] + Cut(ls[1..])
  }

  /** The labels a reader gets for dotted text. */
  function Labels(name: seq<byte>): seq<seq<byte>> { Cut(Split(name)) }

  /** Labels written with dots in between. */
  function Join(labels: seq<seq<byte>>): seq<byte>
  {
    if labels == [] then []
    else if |labels| == 1 then labels[0]
    else labels[0] + [DOT] + Join(labels[1..])
  }

  predicate NoneEmpty(ls: seq<seq<byte>>)
  {
    forall i :: 0 <= i < |ls| ==> ls[i] != []
  }

  /** No label of `name`, except possibly the last one, is empty. */
  predicate NoInnerEmptyLabel(name: seq<byte>)
  {
    NoneEmpty(Split(name)[..|Split(name)| - 1])
  }

  /** Every label is at most 63 bytes long. */
  predicate ShortLabels(name: seq<byte>)
  {
    forall i :: 0 <= i < |Split(name)| ==> |Split(name)[i]| <= MAX_LABEL
  }

  lemma {:induction false} JoinSplit(name: seq<byte>)
    ensures Join(Split(name)) == name
    decreases |name|
  {
    var d := DotAt(name);
    if d < |name| {
      var tail := name[d + 1..];
      JoinSplit(tail);
      assert Split(name)[1..] == Split(tail);
      assert name == name[..d] + [DOT] + tail;
    }
  }

  /** Cutting loses text unless nothing is empty. */
  lemma {:induction false} JoinCut(ls: seq<seq<byte>>)
    ensures |Join(Cut(ls))| <= |Join(ls)|
    ensures NoneEmpty(ls) ==> Cut(ls) == ls
    ensures |ls| > 1 && !NoneEmpty(ls) ==> |Join(Cut(ls))| < |Join(ls)|
  {
    if ls != [] && ls[0] != [] {
      var rest := ls[1..];
      JoinCut(rest);
      assert ls == [ls[0]] + rest;
      assert Cut(ls)[1..] == Cut(rest);
      if !NoneEmpty(ls) {
        var i :| 0 <= i < |ls| && ls[i] == [];
        assert rest[i - 1] == [];
      } else {
        assert NoneEmpty(rest) by {
          forall i | 0 <= i < |rest| ensures rest[i] != [] { assert ls[i + 1] != []; }
        }
      }
    }
  }

  /** Exactly when a name survives being written and read: it is empty or has no
      empty label (in particular, no trailing dot). */
  lemma JoinLabels(name: seq<byte>)
    ensures Join(Labels(name)) == name <==> name == [] || NoneEmpty(Split(name))
    ensures |Join(Labels(name))| <= |name|
  {
    JoinSplit(name);
    JoinCut(Split(name));
    if name != [] && !NoneEmpty(Split(name)) && |Split(name)| == 1 {
      assert false;
    }
  }

  lemma DotIsLost(name: seq<byte>)
    requires name == [97, DOT]
    ensures Join(Labels(name)) == [97]
  {
    assert name[2..] == [] && DotAt(name) == 1;
    assert Split([]) == [[]] && name[..1] == [97];
    assert Split(name) == [name[..1]] + Split(name[2..]);
    assert Cut([[97], []]) == [[97]] by {
      assert [[97], []][1..] == [[]] && Cut([[]]) == [];
    }
  }

  lemma DotShort(name: seq<byte>)
    requires name == [97, DOT]
    ensures ShortLabels(name)
  {
    assert name[2..] == [] && DotAt(name) == 1;
    assert Split([]) == [[]] && name[..1] == [97];
    assert Split(name) == [name[..1]] + Split(name[2..]);
  }

  // ----- names on the wire (sections 3.1 and 4.1.4 of RFC 1035) -----

  /** Offset a two-byte pointer names. */
  function Target(hi: byte, lo: byte): nat { hi % 64 * 256 + lo }

  /** `msg` spells `labels` at offset `j`, following at most `hops` pointers and
      reading only the offsets in `used`.  A length byte of 64 or more is taken
      as a pointer, as the reader does. */
  ghost predicate Spells(msg: seq<byte>, j: nat, labels: seq<seq<byte>>, hops: nat, used: iset<int>)
    decreases hops, |labels|
  {
    && j < |msg| && j in used
    && if msg[j] >= 64 then
         && hops > 0 && j + 1 < |msg| && j + 1 in used
         && Spells(msg, Target(msg[j], msg[j + 1]), labels, hops - 1, used)
       else if msg[j] == 0 then labels == []
       else
         && labels != [] && |labels[0]| == msg[j]
         && LabelAt(msg, j, msg[j], used) && labels[0] == msg[j + 1..j + 1 + msg[j]]
         && Spells(msg, j + 1 + msg[j], labels[1..], hops, used)
  }

  ghost predicate LabelAt(msg: seq<byte>, j: nat, len: nat, used: iset<int>)
  {
    j + 1 + len <= |msg| && forall k :: j <= k <= j + len ==> k in used
  }

  /** First offset after the name at `j`: past its zero byte or first pointer. */
  function NameEnd(msg: seq<byte>, j: nat): nat
    decreases |msg| - j
  {
    if j >= |msg| then j
    else if msg[j] >= 64 then j + 2
    else if msg[j] == 0 then j + 1
    else NameEnd(msg, j + 1 + msg[j])
  }

  ghost const Everywhere: iset<int> := iset k: int | true

  /** A message spells at most one name at an offset. */
  lemma {:induction false} SpellsUnique(msg: seq<byte>, j: nat, a: seq<seq<byte>>, b: seq<seq<byte>>,
                     h: nat, g: nat, u: iset<int>, v: iset<int>)
    requires Spells(msg, j, a, h, u) && Spells(msg, j, b, g, v)
    ensures a == b
    decreases h, |a|
  {
    if msg[j] >= 64 {
      SpellsUnique(msg, Target(msg[j], msg[j + 1]), a, b, h - 1, g - 1, u, v);
    } else if msg[j] != 0 {
      SpellsUnique(msg, j + 1 + msg[j], a[1..], b[1..], h, g, u, v);
      assert a == [a[0]] + a[1..] && b == [b[0]] + b[1..];
    }
  }

  /** Writes outside the offsets a name uses, and longer messages, leave the
      name as it was; so do a larger hop allowance and a larger footprint. */
  lemma {:induction false} SpellsStable(msg: seq<byte>, msg': seq<byte>, j: nat, labels: seq<seq<byte>>,
                     h: nat, h': nat, u: iset<int>, u': iset<int>)
    requires Spells(msg, j, labels, h, u)
    requires h <= h' && u <= u'
    requires forall k :: 0 <= k < |msg| && k in u ==> k < |msg'| && msg'[k] == msg[k]
    ensures Spells(msg', j, labels, h', u')
    decreases h, |labels|
  {
    if msg[j] >= 64 {
      SpellsStable(msg, msg', Target(msg[j], msg[j + 1]), labels, h - 1, h' - 1, u, u');
    } else if msg[j] != 0 {
      var n := msg[j];
      assert j + n in u;
      assert msg'[j + 1..j + 1 + n] == msg[j + 1..j + 1 + n];
      SpellsStable(msg, msg', j + 1 + n, labels[1..], h, h', u, u');
    }
  }

  /** Nor do such writes move the end of a name. */
  lemma {:induction false} EndStable(msg: seq<byte>, msg': seq<byte>, j: nat, labels: seq<seq<byte>>, h: nat, u: iset<int>)
    requires Spells(msg, j, labels, h, u)
    requires forall k :: 0 <= k < |msg| && k in u ==> k < |msg'| && msg'[k] == msg[k]
    ensures NameEnd(msg', j) == NameEnd(msg, j)
    decreases |labels|
  {
    if 0 < msg[j] < 64 {
      EndStable(msg, msg', j + 1 + msg[j], labels[1..], h, u);
    }
  }

  /** The two bytes the writer emits for offset `pos` name `pos` exactly when
      `pos` fits in 14 bits. */
  lemma PointerFits(pos: nat)
    ensures Target((0xc000 + pos % POINTER_BASE) / 256, (0xc000 + pos % POINTER_BASE) % 256) == pos
            <==> pos < POINTER_BASE
  {
    var v := 0xc000 + pos % POINTER_BASE;
    assert v / 256 % 64 == v / 256 - 192;
    assert Target(v / 256, v % 256) == pos % POINTER_BASE;
  }
}
