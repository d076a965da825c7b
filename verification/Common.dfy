/** Byte strings and the option type shared by all modules. */
module Common {
  /** An unsigned 8-bit value (`u8`, `ev_uint8_t`). */
  type byte = b: int | 0 <= b < 256

  datatype Option<+T> = None | Some(value: T)

  /** memcpy of `data` into `dst`. */
  method CopyBytes(data: seq<byte>, dst: array<byte>, at: nat)
    requires at + |data| <= dst.Length
    modifies dst
    ensures dst[at..at + |data|] == data
    ensures forall i :: 0 <= i < at || at + |data| <= i < dst.Length ==> dst[i] == old(dst[i])
  {
    for k := 0 to |data|
      invariant forall i :: 0 <= i < at || at + k <= i < dst.Length ==> dst[i] == old(dst[i])
      invariant forall i :: at <= i < at + k ==> dst[i] == data[i - at]
    {
      dst[at + k] := data[k];
    }
  }

  /** Two sequences agree from `lo` up to `hi`. */
  ghost predicate Same<T>(s: seq<T>, t: seq<T>, lo: nat, hi: nat)
  {
    hi <= |s| && hi <= |t| && forall k {:trigger s[k]} {:trigger t[k]} :: lo <= k < hi ==> s[k] == t[k]
  }

  lemma SamePrefix<T>(s: seq<T>, t: seq<T>, lo: nat, hi: nat)
    requires Same(s, t, 0, hi) && lo <= hi
    ensures s[..lo] == t[..lo]
  {
  }

  /** A list without the first occurrence of an element (TAILQ_REMOVE). */
  function Removed<T(==)>(l: seq<T>, x: T): seq<T>
  {
    if l == [] then [] else if l[0] == x then l[1..] else [l[0]] + Removed(l[1..], x)
  }

  lemma RemovedFirst<T>(l: seq<T>)
    requires l != []
    ensures Removed(l, l[0]) == l[1..]
  {
  }

  lemma {:induction false} RemovedFacts<T(!new)>(l: seq<T>, x: T)
    requires forall j, k :: 0 <= j < k < |l| ==> l[j] != l[k]
    ensures forall y :: y in Removed(l, x) <==> y in l && y != x
    ensures |Removed(l, x)| == |l| - if x in l then 1 else 0
    ensures forall j, k :: 0 <= j < k < |Removed(l, x)| ==> Removed(l, x)[j] != Removed(l, x)[k]
  {
    if l != [] {
      assert l == [l[0]] + l[1..];
      if l[0] == x {
        assert x !in l[1..];
      } else {
        RemovedFacts(l[1..], x);
        var r := Removed(l[1..], x);
        forall k | 0 <= k < |r| ensures r[k] != l[0] { assert r[k] in l[1..]; }
      }
    }
  }

  lemma {:induction false} RemovedSubset<T(!new)>(l: seq<T>, x: T)
    ensures forall y :: y in Removed(l, x) ==> y in l
    ensures |Removed(l, x)| == |l| - if x in l then 1 else 0
  {
    if l != [] && l[0] != x { RemovedSubset(l[1..], x); }
  }

  function Least(a: nat, b: nat): nat { if a <= b then a else b }
}
