/** IPv6 addresses as text (evutil.c): what section 2.2 of RFC 4291 describes, and all else that
    is read as an address. */
module Ipv6 {
  import opened Common

  // ----- numerals -----

  predicate IsDigit(c: char) { '0' <= c <= '9' }

  predicate IsXDigit(c: char) { IsDigit(c) || 'a' <= c <= 'f' || 'A' <= c <= 'F' }

  function DigitValue(c: char): (d: nat)
    ensures d < 16
  {
    if IsDigit(c) then (c - '0') as nat
    else if 'a' <= c <= 'f' then (c - 'a') as nat + 10
    else if 'A' <= c <= 'F' then (c - 'A') as nat + 10
    else 0
  }

  predicate AllXDigits(s: string)
  {
    forall i :: 0 <= i < |s| ==> IsXDigit(s[i])
  }

  /** An 0x and a digit. */
  predicate HexPrefix(s: string, from: nat)
  {
    from + 2 < |s| && s[from] == '0' && (s[from + 1] == 'x' || s[from + 1] == 'X') && IsXDigit(s[from + 2])
  }

  /** A number in base 16 without its 0x. */
  function HexDigits(s: string): string
  {
    if HexPrefix(s, 0) then s[2..] else s
  }

  /** A group of an address, as it is read: hexadecimal digits, perhaps behind an 0x, four
      characters at most in all. */
  predicate IsGroup(s: string)
  {
    1 <= |s| <= 4 && AllXDigits(HexDigits(s))
  }

  predicate AllDigits(s: string)
  {
    forall i :: 0 <= i < |s| ==> IsDigit(s[i])
  }

  function Value(s: string, base: nat): nat
  {
    if s == "" then 0 else Value(s[..|s| - 1], base) * base + DigitValue(s[|s| - 1])
  }

  /** The value of a group. */
  function Word(s: string): nat
  {
    Value(HexDigits(s), 16)
  }

  /** Digits without 0x are a group as RFC 4291 has it. */
  lemma PlainGroup(s: string)
    requires 1 <= |s| <= 4 && AllXDigits(s)
    ensures IsGroup(s) && Word(s) == Value(s, 16)
  {
    if |s| > 1 { assert IsXDigit(s[1]); }
  }

  predicate IsBlank(c: char) { c == ' ' || '\t' <= c <= '\r' }

  function Blanks(s: string): (n: nat)
    ensures n <= |s| && (n < |s| ==> !IsBlank(s[n])) && forall i :: 0 <= i < n ==> IsBlank(s[i])
  {
    if s == "" || !IsBlank(s[0]) then 0 else 1 + Blanks(s[1..])
  }

  /** Blanks and a sign. */
  function Signed(s: string): (n: nat)
    ensures n <= |s|
  {
    var n := Blanks(s);
    if n < |s| && (s[n] == '-' || s[n] == '+') then n + 1 else n
  }

  predicate Negative(s: string)
  {
    var n := Blanks(s);
    n < |s| && s[n] == '-'
  }

  /** What "%d" of sscanf takes: digits behind blanks and a sign. */
  predicate IsNumber(s: string)
  {
    Signed(s) < |s| && AllDigits(s[Signed(s)..])
  }

  function Size(s: string): nat
  {
    Value(s[Signed(s)..], 10)
  }

  function Number(s: string): int
  {
    if Negative(s) then -(Size(s) as int) else Size(s)
  }

  /** A byte in decimal, as it is read. */
  predicate IsDecimal(s: string)
  {
    IsNumber(s) && Size(s) <= 255 && (Negative(s) ==> Size(s) == 0)
  }

  lemma DecimalIs(s: string)
    ensures IsDecimal(s) <==> IsNumber(s) && 0 <= Number(s) <= 255
    ensures IsDecimal(s) ==> Size(s) == Number(s)
  {
    hide IsNumber, Size, Negative;
  }

  /** Digits alone are a byte as RFC 4291 has it. */
  lemma PlainByte(s: string)
    requires s != "" && AllDigits(s)
    ensures Signed(s) == 0 && IsNumber(s) && !Negative(s) && Size(s) == Value(s, 10)
  {
    assert IsDigit(s[0]) && s[0..] == s;
  }

  /** What follows does not change where blanks and sign end. */
  lemma {:induction false} BlanksPrefix(g: string, rest: string)
    ensures Blanks(g) < |g| || Blanks(g + rest) < |g| ==> Blanks(g) == Blanks(g + rest)
  {
    if g != "" && IsBlank(g[0]) {
      assert (g + rest)[1..] == g[1..] + rest;
      BlanksPrefix(g[1..], rest);
    }
  }

  lemma GroupValue(s: string)
    requires |s| <= 4
    ensures Value(s, 16) < 0x10000
  {
    var a := s[..if |s| > 0 then |s| - 1 else 0];
    var b := a[..if |a| > 0 then |a| - 1 else 0];
    var c := b[..if |b| > 0 then |b| - 1 else 0];
    assert Value(c, 16) < 16 && Value(b, 16) < 0x100 && Value(a, 16) < 0x1000;
  }

  /** The value of a stretch of digits with the next one. */
  lemma ValueSnoc(s: string, from: nat, n: nat, base: nat)
    requires from <= n < |s|
    ensures Value(s[from..n + 1], base) == Value(s[from..n], base) * base + DigitValue(s[n])
  {
    assert s[from..n + 1][..n - from] == s[from..n];
  }

  lemma ValueStart(s: string, from: nat, base: nat)
    requires from <= |s|
    ensures Value(s[from..from], base) == 0
  {
  }

  // ----- the text of an address -----

  /** The groups before and after a double colon, if there is one, and an IPv4 address
      in place of the last two. */
  datatype Text = Text(front: seq<string>, gap: bool, back: seq<string>, quad: Option<seq<string>>)

  function Tail(t: Text): nat
  {
    if t.quad.Some? then 2 else 0
  }

  /** The bytes of an IPv4 address, the first without blanks or sign; the last one may be
      missing. */
  predicate IsQuad(q: seq<string>)
  {
    && |q| == 4 && (forall i :: 0 <= i < 3 ==> IsDecimal(q[i])) && AllDigits(q[0])
    && (q[3] == "" || IsDecimal(q[3]))
  }

  predicate WellFormed(t: Text)
  {
    && (forall i :: 0 <= i < |t.front| ==> IsGroup(t.front[i])) && (forall i :: 0 <= i < |t.back| ==> IsGroup(t.back[i]))
    && (t.quad.Some? ==> IsQuad(t.quad.value) && IsDecimal(t.quad.value[3]))
    && (if t.gap then |t.front| + |t.back| + Tail(t) < 8 else t.back == [] && |t.front| + Tail(t) == 8)
  }

  /** A text in which groups may be missing, and the last byte of an IPv4 address. */
  predicate Shaped(t: Text)
  {
    && (forall i :: 0 <= i < |t.front| ==> IsGroup(t.front[i])) && (forall i :: 0 <= i < |t.back| ==> IsGroup(t.back[i]))
    && (t.quad.Some? ==> IsQuad(t.quad.value))
    && (if t.gap then |t.front| + |t.back| + Tail(t) < 8 else t.back == [] && |t.front| + Tail(t) <= 8)
  }

  lemma ShapedWell(t: Text)
    ensures WellFormed(t) <==>
              Shaped(t) && (t.quad.Some? ==> t.quad.value[3] != "") && (t.gap || |t.front| + Tail(t) == 8)
  {
    if WellFormed(t) || Shaped(t) {
      if t.quad.Some? { assert IsDecimal(t.quad.value[3]) ==> t.quad.value[3] != ""; }
    }
  }

  /** Groups with a colon after each. */
  function Colons(l: seq<string>): string
  {
    if l == [] then "" else l[0] + ":" + Colons(l[1..])
  }

  /** The text before an IPv4 address, or all of it with a colon more when it ends in a
      group. */
  function Groups(t: Text): string
  {
    Colons(t.front) + (if !t.gap then "" else if t.front == [] then "::" else ":") + Colons(t.back)
  }

  predicate EndsInGroup(t: Text)
  {
    t.quad.None? && (t.back != [] || !t.gap)
  }

  /** A dotted quad from before its `k`th byte on, the dot there included. */
  function DottedFrom(q: seq<string>, k: nat): string
    requires |q| == 4 && k <= 4
    decreases 4 - k
  {
    if k == 4 then "" else (if k > 0 then "." else "") + q[k] + DottedFrom(q, k + 1)
  }

  function Dotted(q: seq<string>): string
    requires |q| == 4
  {
    DottedFrom(q, 0)
  }

  function Render(t: Text): string
    requires WellFormed(t)
  {
    if t.quad.Some? then Groups(t) + Dotted(t.quad.value)
    else if EndsInGroup(t) then Groups(t)[..|Groups(t)| - 1]
    else Groups(t)
  }

  /** `s` is the text; when it ends in a group, with a colon more unless `bare`. */
  predicate Spelled(s: string, t: Text, bare: bool)
    requires t.quad.Some? ==> |t.quad.value| == 4
  {
    if t.quad.Some? then !bare && s == Groups(t) + Dotted(t.quad.value)
    else if bare then EndsInGroup(t) && s + ":" == Groups(t)
    else s == Groups(t)
  }

  lemma RenderSpelled(t: Text)
    requires WellFormed(t)
    ensures Spelled(Render(t), t, EndsInGroup(t))
  {
    hide Colons, DottedFrom;
    GroupsPlain(t);
    if EndsInGroup(t) {
      var g := Groups(t);
      assert g == g[..|g| - 1] + ":";
    }
  }

  /** The values of the groups. */
  function Values(l: seq<string>): seq<nat>
    requires forall i :: 0 <= i < |l| ==> IsGroup(l[i])
  {
    seq(|l|, i requires 0 <= i < |l| => Word(l[i]))
  }

  function WordsOfQuad(q: seq<string>): (w: seq<nat>)
    requires |q| == 4
    ensures |w| == 2
  {
    [Size(q[0]) * 256 + Size(q[1]), Size(q[2]) * 256 + Size(q[3])]
  }

  function QuadWords(q: Option<seq<string>>): (w: seq<nat>)
    requires q.Some? ==> |q.value| == 4 && forall i :: 0 <= i < 4 ==> IsDecimal(q.value[i])
    ensures |w| == if q.Some? then 2 else 0
  {
    if q.None? then [] else WordsOfQuad(q.value)
  }

  /** The eight words of the address that the text stands for. */
  function Words(t: Text): (w: seq<nat>)
    requires WellFormed(t)
    ensures |w| == 8
  {
    Values(t.front) + seq(8 - |t.front| - |t.back| - Tail(t), _ => 0) + Values(t.back) + QuadWords(t.quad)
  }

  // ----- scanning -----

  /** strtol with base 16 at a hexadecimal digit: over all the digits there are, which may
      follow an 0x. */
  method StrToL(s: string, from: nat) returns (r: nat, next: nat)
    requires from < |s| && IsXDigit(s[from])
    ensures var start := if HexPrefix(s, from) then from + 2 else from;
            && start < next <= |s| && r == Value(s[start..next], 16)
            && (forall k :: start <= k < next ==> IsXDigit(s[k])) && (next == |s| || !IsXDigit(s[next]))
  {
    hide Value;
    var start := if HexPrefix(s, from) then from + 2 else from;
    r, next := 0, start;
    ValueStart(s, start, 16);
    while next < |s| && IsXDigit(s[next])
      invariant start <= next <= |s| && r == Value(s[start..next], 16)
      invariant forall k :: start <= k < next ==> IsXDigit(s[k])
    {
      ValueSnoc(s, start, next, 16);
      r := r * 16 + DigitValue(s[next]);
      next := next + 1;
    }
  }

  /** At `from` there is the number `g`, and no digit behind it. */
  predicate NumberAt(s: string, from: nat, g: string)
  {
    from + |g| <= |s| && s[from..from + |g|] == g && IsNumber(g) && (from + |g| == |s| || !IsDigit(s[from + |g|]))
  }

  /** A "%d" of sscanf: the number that is there, found if and only if there is one. */
  method ScanInt(s: string, from: nat, ghost g: string) returns (r: Option<int>, next: nat)
    requires from <= |s|
    ensures from <= next <= |s| && (from == |s| ==> r == None)
    ensures r.Some? ==> NumberAt(s, from, s[from..next]) && r.value == Number(s[from..next])
    ensures NumberAt(s, from, g) ==> r.Some? && next == from + |g|
  {
    hide Value, Blanks, Signed, Negative, IsNumber, Size, NumberAt;
    next := from;
    ghost var u := s[from..];
    NotEmpty(s, from, g);
    while next < |s| && IsBlank(s[next])
      invariant from <= next <= |s| && Blanks(u) == next - from + Blanks(s[next..])
    {
      BlankStep(s, next);
      next := next + 1;
    }
    BlankStep(s, next);
    ghost var b := next;
    var negative := false;
    if next < |s| && (s[next] == '-' || s[next] == '+') {
      negative := s[next] == '-';
      next := next + 1;
    }
    SignedIs(s, from, b, next);
    if NumberAt(s, from, g) { NumberThere(s, from, g, next); }
    if next == |s| || !IsDigit(s[next]) { return None, next; }
    var start, v := next, 0;
    ValueStart(s, start, 10);
    while next < |s| && IsDigit(s[next])
      invariant start <= next <= |s| && v == Value(s[start..next], 10)
      invariant forall k :: start <= k < next ==> IsDigit(s[k])
    {
      ValueSnoc(s, start, next, 10);
      v := v * 10 + DigitValue(s[next]);
      next := next + 1;
    }
    NumberRead(s, from, start, next);
    r := Some(if negative then -v else v);
  }

  lemma NotEmpty(s: string, from: nat, g: string)
    ensures NumberAt(s, from, g) ==> from < |s|
  {
  }

  lemma BlankStep(s: string, at: nat)
    requires at <= |s|
    ensures Blanks(s[at..]) == if at < |s| && IsBlank(s[at]) then 1 + Blanks(s[at + 1..]) else 0
  {
    if at < |s| { assert s[at..][1..] == s[at + 1..]; }
  }

  lemma SignedIs(s: string, from: nat, b: nat, next: nat)
    requires from <= b <= |s| && Blanks(s[from..]) == b - from
    requires next == if b < |s| && (s[b] == '-' || s[b] == '+') then b + 1 else b
    ensures Signed(s[from..]) == next - from && (Negative(s[from..]) <==> b < |s| && s[b] == '-')
  {
    hide Blanks;
  }

  lemma NumberThere(s: string, from: nat, g: string, start: nat)
    requires NumberAt(s, from, g) && from <= |s| && start == from + Signed(s[from..])
    ensures start < from + |g| <= |s| && (forall k :: start <= k < from + |g| ==> IsDigit(s[k]))
    ensures from + |g| == |s| || !IsDigit(s[from + |g|])
  {
    hide Blanks, Value;
    var n := |g|;
    assert s[from..] == g + s[from + n..];
    BlanksPrefix(g, s[from + n..]);
    forall k | start <= k < from + n ensures IsDigit(s[k]) {
      assert g[k - from] == s[k] && g[Signed(g)..][k - start] == g[k - from];
    }
  }

  lemma NumberRead(s: string, from: nat, start: nat, next: nat)
    requires from <= start < next <= |s| && start == from + Signed(s[from..])
    requires (forall k :: start <= k < next ==> IsDigit(s[k])) && (next == |s| || !IsDigit(s[next]))
    ensures NumberAt(s, from, s[from..next]) && Size(s[from..next]) == Value(s[start..next], 10)
    ensures Negative(s[from..next]) == Negative(s[from..])
  {
    hide Value, Blanks, AllDigits;
    var g := s[from..next];
    SamePlace(s, from, start, next);
    assert g[start - from..] == s[start..next];
    assert AllDigits(s[start..next]) by { DigitsThere(s, start, next); }
  }

  lemma DigitsThere(s: string, start: nat, next: nat)
    requires start <= next <= |s| && forall k :: start <= k < next ==> IsDigit(s[k])
    ensures AllDigits(s[start..next])
  {
  }

  lemma SamePlace(s: string, from: nat, start: nat, next: nat)
    requires from <= start < next <= |s| && start == from + Signed(s[from..])
    ensures Signed(s[from..next]) == start - from && Negative(s[from..next]) == Negative(s[from..])
  {
    hide Blanks;
    var g := s[from..next];
    assert s[from..] == g + s[next..];
    BlanksPrefix(g, s[next..]);
  }

  /** A dotted quad up to its last byte so far. */
  function DottedTo(q: seq<string>): string
  {
    if q == [] then "" else DottedTo(q[..|q| - 1]) + (if |q| > 1 then "." else "") + q[|q| - 1]
  }

  /** sscanf(s, "%d.%d.%d.%d%c") that finds four numbers, each a byte, and nothing more:
      succeeds if and only if they are there, and gives the two words they make. */
  method ScanQuad(s: string, from: nat, ghost q: Option<seq<string>>) returns (r: Option<(nat, nat)>, ghost found: seq<string>)
    requires from <= |s|
    requires q.Some? ==> IsQuad(q.value) && s[from..] == Dotted(q.value)
    ensures q.Some? ==> if q.value[3] == "" then r == None else r.Some? && [r.value.0, r.value.1] == WordsOfQuad(q.value)
    ensures r.Some? ==> r.value.0 < 0x10000 && r.value.1 < 0x10000 && |found| == 4 && s[from..] == Dotted(found)
    ensures r.Some? ==> (forall i :: 0 <= i < 4 ==> IsDecimal(found[i])) && [r.value.0, r.value.1] == WordsOfQuad(found)
  {
    hide Value, IsDecimal, Size, DottedFrom, DottedTo, IsDigit;
    NoBlanks();
    var at: nat := from;
    var bytes: seq<nat> := [];
    found := [];
    NoneYet(s, from);
    for k := 0 to 4
      invariant from <= at <= |s| && |bytes| == k && forall i :: 0 <= i < k ==> bytes[i] <= 255
      invariant q.Some? ==> s[at..] == DottedFrom(q.value, k) && (k == 4 ==> q.value[3] != "")
      invariant q.Some? ==> forall i :: 0 <= i < k ==> bytes[i] == Size(q.value[i])
      invariant |found| == k && s[from..at] == DottedTo(found)
      invariant forall i :: 0 <= i < k ==> IsDecimal(found[i]) && bytes[i] == Size(found[i])
    {
      var v, next := ScanByte(s, at, k, q);
      if v == None { return None, found; }
      found := OneMoreByte(s, from, at, next, found);
      bytes := bytes + [v.value];
      at := next;
    }
    if q.Some? { QuadEnd(q.value); }
    if at != |s| { return None, found; }
    assert s[from..at] == s[from..];
    DottedWhole(found);
    r := Some((bytes[0] * 256 + bytes[1], bytes[2] * 256 + bytes[3]));
  }

  lemma NoneYet(s: string, from: nat)
    requires from <= |s|
    ensures s[from..from] == DottedTo([])
  {
  }

  lemma OneMoreByte(s: string, from: nat, at: nat, next: nat, found: seq<string>) returns (found': seq<string>)
    requires from <= at <= next <= |s| && s[from..at] == DottedTo(found)
    requires found != [] ==> at < next && s[at] == '.'
    ensures found' == found + [s[(if found == [] then at else at + 1)..next]] && s[from..next] == DottedTo(found')
  {
    var g := s[(if found == [] then at else at + 1)..next];
    found' := found + [g];
    assert found'[..|found|] == found;
    assert s[from..next] == s[from..at] + s[at..next];
    assert s[at..next] == (if found == [] then "" else ".") + g;
  }

  lemma DottedWhole(q: seq<string>)
    requires |q| == 4
    ensures DottedTo(q) == Dotted(q)
  {
    assert q[..3][..2] == q[..2] && q[..3][..2][..1] == q[..1] && q[..1][..0] == [];
    assert DottedTo(q[..1]) == q[0] && DottedTo(q[..2]) == q[0] + "." + q[1];
    assert DottedTo(q[..3]) == q[0] + "." + q[1] + "." + q[2];
    assert DottedFrom(q, 3) == "." + q[3] && DottedFrom(q, 2) == "." + q[2] + ("." + q[3]);
    assert DottedFrom(q, 1) == "." + q[1] + ("." + q[2] + ("." + q[3]));
    assert q[0] + ("." + q[1] + ("." + q[2] + ("." + q[3]))) == q[0] + "." + q[1] + "." + q[2] + "." + q[3];
  }

  lemma NoBlanks()
    ensures !IsDecimal("")
  {
  }

  lemma QuadEnd(q: seq<string>)
    requires |q| == 4
    ensures DottedFrom(q, 4) == ""
  {
  }

  /** One byte of it, and the dot before. */
  method ScanByte(s: string, from: nat, k: nat, ghost q: Option<seq<string>>) returns (r: Option<nat>, next: nat)
    requires from <= |s| && k < 4
    requires q.Some? ==> |q.value| == 4 && s[from..] == DottedFrom(q.value, k)
    requires q.Some? ==> IsDecimal(q.value[k]) || (k == 3 && q.value[k] == "")
    ensures from <= next <= |s| && (r.Some? ==> r.value <= 255)
    ensures q.Some? && q.value[k] != "" ==> r == Some(Size(q.value[k])) && s[next..] == DottedFrom(q.value, k + 1)
    ensures q.Some? && q.value[k] == "" ==> r == None
    ensures r.Some? && k > 0 ==> from < next && s[from] == '.'
    ensures r.Some? ==> var g := s[(if k > 0 then from + 1 else from)..next]; IsDecimal(g) && r.value == Size(g)
  {
    hide Value, IsDecimal, IsNumber, Size, Number, DottedFrom, NumberAt;
    NoBlanks();
    var at := from;
    next := from;
    if q.Some? && k > 0 {
      DottedStep(q.value, k);
      Ahead(s, at, ".", q.value[k] + DottedFrom(q.value, k + 1));
    }
    if q.Some? && k == 0 { DottedStep(q.value, 0); }
    if k > 0 {
      if at == |s| || s[at] != '.' { return None, at; }
      at := at + 1;
    }
    ghost var g := if q.Some? then q.value[k] else "";
    if g != "" { QuadByte(s, at, q.value, k); }
    var v;
    v, next := ScanInt(s, at, g);
    if q.Some? && g == "" { NothingThere(s, at, q.value); }
    NumberIs(s, at, s[at..next]);
    NumberIs(s, at, g);
    DecimalIs(s[at..next]);
    DecimalIs(g);
    r := if v == None || v.value < 0 || v.value > 255 then None else Some(v.value);
  }

  lemma DottedStep(q: seq<string>, k: nat)
    requires |q| == 4 && k < 4
    ensures DottedFrom(q, k) == if k == 0 then q[0] + DottedFrom(q, 1) else "." + (q[k] + DottedFrom(q, k + 1))
  {
  }

  lemma NumberIs(s: string, at: nat, g: string)
    ensures NumberAt(s, at, g) ==> IsNumber(g) && at + |g| <= |s| && s[at..at + |g|] == g
  {
  }

  lemma NothingThere(s: string, at: nat, q: seq<string>)
    requires |q| == 4 && at <= |s| && s[at..] == q[3] + DottedFrom(q, 4) && q[3] == ""
    ensures at == |s|
  {
  }

  /** The place where `g` starts, with the rest behind it. */
  lemma Ahead(s: string, at: nat, g: string, rest: string)
    requires at <= |s| && s[at..] == g + rest
    ensures at + |g| <= |s| && s[at..at + |g|] == g && s[at + |g|..] == rest
    ensures forall j :: 0 <= j < |g| ==> s[at + j] == g[j]
    ensures rest != "" ==> at + |g| < |s| && s[at + |g|] == rest[0]
  {
    var u := s[at..];
    assert |u| == |s| - at;
    assert forall j :: 0 <= j < |u| ==> u[j] == s[at + j];
    assert u[..|g|] == g && u[|g|..] == rest;
    assert s[at..at + |g|] == u[..|g|] && s[at + |g|..] == u[|g|..];
  }

  lemma QuadByte(s: string, at: nat, q: seq<string>, k: nat)
    requires |q| == 4 && k < 4 && at <= |s| && s[at..] == q[k] + DottedFrom(q, k + 1) && IsDecimal(q[k])
    ensures NumberAt(s, at, q[k]) && s[at + |q[k]|..] == DottedFrom(q, k + 1)
  {
    hide Value;
    var rest := DottedFrom(q, k + 1);
    assert rest == "" || rest[0] == '.';
    Ahead(s, at, q[k], rest);
    assert s[at + |q[k]|..] == rest;
    if rest == "" { assert |s[at + |q[k]|..]| == 0; }
  }

  // ----- groups -----

  /** What is left to read of the groups of a text: from the `i`th group on, the double
      colon still to come unless `past`. */
  function Left(t: Text, i: nat, past: bool): string
  {
    if past then (if |t.front| <= i <= |t.front| + |t.back| then Colons(t.back[i - |t.front|..]) else "")
    else (if i <= |t.front| then Colons(t.front[i..]) else "")
         + (if !t.gap then "" else if t.front == [] then "::" else ":") + Colons(t.back)
  }

  function GroupAt(t: Text, i: nat): string
    requires i < |t.front| + |t.back|
  {
    if i < |t.front| then t.front[i] else t.back[i - |t.front|]
  }

  /** Where reading stands: `rest` of the groups, with a colon behind the last. */
  predicate Reading(t: Text, rest: string, i: nat, gapPos: int)
  {
    && rest == Left(t, i, gapPos >= 0)
    && (if gapPos < 0 then i <= |t.front| else gapPos == |t.front| <= i <= |t.front| + |t.back| && t.gap)
  }

  /** What comes next. */
  lemma NextIs(t: Text, rest: string, i: nat, gapPos: int)
    requires Shaped(t) && Reading(t, rest, i, gapPos)
    ensures (gapPos < 0 && i < |t.front|) || (gapPos >= 0 && i < |t.front| + |t.back|) ==>
              && IsGroup(GroupAt(t, i))
              && rest == GroupAt(t, i) + ":" + Left(t, i + 1, gapPos >= 0) && Reading(t, Left(t, i + 1, gapPos >= 0), i + 1, gapPos)
    ensures gapPos < 0 && i == |t.front| && t.gap ==>
              && rest == (if i == 0 then "::" else ":") + Left(t, i, true) && Reading(t, Left(t, i, true), i, i)
    ensures gapPos < 0 && i == |t.front| && !t.gap ==> rest == ""
    ensures gapPos >= 0 && i == |t.front| + |t.back| ==> rest == ""
  {
    if gapPos < 0 && i < |t.front| {
      assert t.front[i..][0] == t.front[i] && t.front[i..][1..] == t.front[i + 1..];
    } else if gapPos >= 0 && i < |t.front| + |t.back| {
      var k := i - |t.front|;
      assert t.back[k..][0] == t.back[k] && t.back[k..][1..] == t.back[k + 1..];
    } else if gapPos < 0 {
      assert t.front[i..] == [] && t.back[0..] == t.back;
    } else {
      assert t.back[i - |t.front|..] == [];
    }
  }

  /** `rest` lies between `pos` and `eow`, with a colon more when `virtual`. */
  predicate Between(s: string, pos: nat, eow: nat, virtual: bool, rest: string)
  {
    && eow <= |s| && (virtual ==> eow == |s|)
    && if pos <= eow then s[pos..eow] + (if virtual then ":" else "") == rest else virtual && pos == eow + 1 && rest == ""
  }

  lemma GroupAhead(s: string, pos: nat, eow: nat, virtual: bool, g: string, rest: string)
    requires Between(s, pos, eow, virtual, g + ":" + rest) && IsGroup(g)
    ensures pos < eow && pos + |g| <= eow && s[pos..pos + |g|] == g && IsXDigit(s[pos])
    ensures pos + |g| == eow == |s| || (pos + |g| < eow && s[pos + |g|] == ':')
    ensures Between(s, pos + |g| + 1, eow, virtual, rest)
  {
    hide IsGroup, IsXDigit;
    GroupStarts(g);
    var u := s[pos..eow] + (if virtual then ":" else "");
    var n := |g|;
    assert pos <= eow && u == g + ":" + rest;
    assert |u| == n + 1 + |rest| && u[n] == ':' && u[n + 1..] == rest && u[..n] == g;
    assert |u| <= eow - pos + 1 && n <= eow - pos;
    assert s[pos..eow] == u[..eow - pos];
    assert u[..n] == s[pos..eow][..n] == s[pos..pos + n];
    forall k | pos <= k < pos + n ensures s[k] == g[k - pos] { assert s[pos..pos + n][k - pos] == s[k]; }
    if pos + n < eow {
      assert s[pos + n] == s[pos..eow][n] == u[n];
      assert s[pos..eow][n + 1..] == s[pos + n + 1..eow];
    }
  }

  lemma GapAhead(s: string, pos: nat, eow: nat, virtual: bool, g: string, rest: string)
    requires Between(s, pos, eow, virtual, g + rest) && (g == ":" || g == "::") && (virtual ==> rest != "")
    ensures pos + |g| <= eow && forall k :: pos <= k < pos + |g| ==> s[k] == ':'
    ensures Between(s, pos + |g|, eow, virtual, rest)
  {
    var u := s[pos..eow] + (if virtual then ":" else "");
    assert pos <= eow && u == g + rest && u[|g|..] == rest;
    forall k | pos <= k < pos + |g| ensures s[k] == ':' { assert s[k] == u[k - pos]; }
    assert s[pos..eow][|g|..] == s[pos + |g|..eow];
  }

  /** The place of a group, and of what follows it. */
  predicate AtGroup(s: string, pos: nat, eow: nat, g: string)
  {
    && IsGroup(g) && pos + |g| <= eow <= |s| && s[pos..pos + |g|] == g
    && (pos + |g| == eow == |s| || (pos + |g| < eow && s[pos + |g|] == ':'))
  }

  lemma GroupStarts(g: string)
    requires IsGroup(g)
    ensures g != "" && IsXDigit(g[0])
  {
  }

  /** Where the groups end: at the end, or at the digits of an IPv4 address, up to its first
      dot. */
  predicate Edge(s: string, eow: nat, dot: nat)
  {
    eow == |s| || (eow < dot < |s| && s[dot] == '.' && forall k :: eow <= k < dot ==> IsDigit(s[k]))
  }

  /** One group, and the colon behind it: it is read if and only if there is one. */
  method ReadGroup(s: string, from: nat, eow: nat, ghost dot: nat, ghost g: string) returns (ok: bool, w: nat, pos: nat)
    requires from < eow <= |s| && IsXDigit(s[from]) && Edge(s, eow, dot)
    ensures ok ==> from < pos - 1 <= eow && AtGroup(s, from, eow, s[from..pos - 1]) && w == Word(s[from..pos - 1]) < 0x10000
    ensures AtGroup(s, from, eow, g) ==> ok && w == Word(g) && pos == from + |g| + 1
  {
    hide Value;
    var next;
    w, next := StrToL(s, from);
    ok, pos := false, next;
    if AtGroup(s, from, eow, g) { RunOfDigits(s, from, eow, g, next); }
    if next > 4 + from || w > 65536 { return; }
    if next <= |s| && (next == eow || (next < |s| && s[next] == ':')) { GroupFound(s, from, eow, dot, next, w); }
    w := w % 0x10000;
    if pos != eow && (pos == |s| || s[pos] != ':') { return; }
    ok, pos := true, pos + 1;
  }

  /** Where strtol has read to. */
  predicate RunTo(s: string, from: nat, next: nat)
  {
    var start := if HexPrefix(s, from) then from + 2 else from;
    && start < next <= |s| && (forall k :: start <= k < next ==> IsXDigit(s[k])) && (next == |s| || !IsXDigit(s[next]))
  }

  lemma RunOfDigits(s: string, from: nat, eow: nat, g: string, next: nat)
    requires AtGroup(s, from, eow, g) && from < |s| && RunTo(s, from, next)
    ensures next == from + |g| && s[(if HexPrefix(s, from) then from + 2 else from)..next] == HexDigits(g) && Word(g) < 0x10000
  {
    hide Value;
    var n := |g|;
    forall k | 0 <= k < n ensures s[from + k] == g[k] { assert s[from..from + n][k] == s[from + k]; }
    GroupValue(HexDigits(g));
    assert HexPrefix(s, from) <==> HexPrefix(g, 0) by { SamePrefix(s, from, eow, g); }
    var d := if HexPrefix(g, 0) then 2 else 0;
    forall k | from + d <= k < from + n ensures IsXDigit(s[k]) { assert HexDigits(g)[k - from - d] == g[k - from] == s[k]; }
    assert s[from..from + n][d..] == s[from + d..from + n];
  }

  lemma SamePrefix(s: string, from: nat, eow: nat, g: string)
    requires AtGroup(s, from, eow, g) && forall k :: 0 <= k < |g| ==> s[from + k] == g[k]
    ensures HexPrefix(s, from) <==> HexPrefix(g, 0)
  {
    if |g| > 1 {
      assert g[1] == s[from + 1];
      if !HexPrefix(g, 0) { assert IsXDigit(HexDigits(g)[1]); }
    }
  }

  lemma GroupFound(s: string, from: nat, eow: nat, dot: nat, next: nat, w: nat)
    requires from < eow <= |s| && Edge(s, eow, dot) && RunTo(s, from, next) && next <= 4 + from
    requires next == eow || (next < |s| && s[next] == ':')
    requires w == Value(s[(if HexPrefix(s, from) then from + 2 else from)..next], 16)
    ensures AtGroup(s, from, eow, s[from..next]) && w == Word(s[from..next]) < 0x10000
  {
    hide Value;
    var g := s[from..next];
    var start := if HexPrefix(s, from) then from + 2 else from;
    if eow < |s| {
      assert IsDigit(s[eow]) && IsXDigit(s[eow]);
      if next > eow { NotBehind(s, from, eow, dot, next); }
    }
    assert HexPrefix(g, 0) <==> HexPrefix(s, from);
    assert HexDigits(g) == s[start..next];
    GroupValue(HexDigits(g));
  }

  /** Digits that run into an IPv4 address end at its dot. */
  lemma NotBehind(s: string, from: nat, eow: nat, dot: nat, next: nat)
    requires from < eow < next && Edge(s, eow, dot) && RunTo(s, from, next) && eow < |s|
    ensures next == dot
  {
    assert IsDigit(s[eow]) && !IsXDigit(s[dot]);
    forall k | eow <= k < dot ensures IsXDigit(s[k]) { assert IsDigit(s[k]); }
  }

  /** What the next turn of the loop finds. */
  lemma AheadIs(s: string, pos: nat, eow: nat, t: Text, rest: string, i: nat, gapPos: int, bare: bool) returns (rest': string)
    requires Shaped(t) && (bare ==> EndsInGroup(t)) && Between(s, pos, eow, bare, rest) && Reading(t, rest, i, gapPos) && pos < eow
    ensures i < 8 && pos < |s|
    ensures if gapPos < 0 && i == |t.front| then
              && t.gap && s[pos] == ':' && (i == 0 ==> pos + 1 < |s| && s[pos + 1] == ':')
              && Between(s, pos + (if i == 0 then 2 else 1), eow, bare, rest') && Reading(t, rest', i, i)
            else
              && i < |t.front| + |t.back| && AtGroup(s, pos, eow, GroupAt(t, i)) && IsXDigit(s[pos])
              && Between(s, pos + |GroupAt(t, i)| + 1, eow, bare, rest') && Reading(t, rest', i + 1, gapPos)
  {
    hide Left, Value;
    NextIs(t, rest, i, gapPos);
    SomethingLeft(s, pos, eow, bare, rest);
    if gapPos < 0 && i == |t.front| {
      rest' := Left(t, i, true);
      BackLeft(t, i);
      GapAhead(s, pos, eow, bare, if i == 0 then "::" else ":", rest');
    } else {
      rest' := Left(t, i + 1, gapPos >= 0);
      GroupAhead(s, pos, eow, bare, GroupAt(t, i), rest');
    }
  }

  lemma SomethingLeft(s: string, pos: nat, eow: nat, virtual: bool, rest: string)
    requires Between(s, pos, eow, virtual, rest) && pos < eow
    ensures rest != ""
  {
  }

  /** Behind the double colon a group is left when the text ends in one. */
  lemma BackLeft(t: Text, i: nat)
    requires i == |t.front|
    ensures t.gap && EndsInGroup(t) ==> Left(t, i, true) != ""
  {
    assert t.back[0..] == t.back;
  }

  lemma StartReading(t: Text)
    ensures Reading(t, Groups(t), 0, -1)
  {
    assert t.front[0..] == t.front;
  }

  /** The first `i` words are those of the groups, the others as they were. */
  ghost predicate WordsRead(t: Text, words: seq<nat>, words0: seq<nat>, i: nat)
    requires Shaped(t)
  {
    && i <= |t.front| + |t.back| <= 8 == |words| == |words0|
    && words[..i] == (Values(t.front) + Values(t.back))[..i] && words[i..] == words0[i..]
  }

  lemma NoWords(t: Text, words0: seq<nat>)
    requires Shaped(t) && |words0| == 8
    ensures WordsRead(t, words0, words0, 0)
  {
  }

  lemma WordRead(t: Text, words: seq<nat>, words0: seq<nat>, i: nat, w: nat)
    requires Shaped(t) && WordsRead(t, words, words0, i) && i < |t.front| + |t.back| && w == Word(GroupAt(t, i))
    ensures WordsRead(t, words[i := w], words0, i + 1)
  {
    hide Value;
    var all := Values(t.front) + Values(t.back);
    assert all[i] == w;
    assert words[i := w][..i + 1] == words[..i] + [w] && all[..i + 1] == all[..i] + [w];
    assert words[i := w][i + 1..] == words[i..][1..];
    assert words0[i + 1..] == words0[i..][1..];
  }

  /** When nothing is left all groups have been read. */
  lemma AllRead(s: string, pos: nat, eow: nat, t: Text, rest: string, i: nat, gapPos: int, words: seq<nat>, words0: seq<nat>, bare: bool)
    requires Shaped(t) && (bare ==> EndsInGroup(t)) && Between(s, pos, eow, bare, rest) && Reading(t, rest, i, gapPos) && pos >= eow
    requires WordsRead(t, words, words0, i) && -1 <= gapPos
    ensures i == |t.front| + |t.back| && gapPos == (if t.gap then |t.front| else -1)
    ensures words[..i] == Values(t.front) + Values(t.back) && words[i..] == words0[i..]
  {
    hide Value;
    var all := Values(t.front) + Values(t.back);
    assert all[..|all|] == all;
    NextIs(t, rest, i, gapPos);
    BackLeft(t, |t.front|);
  }

  /** What has been read up to `pos`. */
  predicate SoFar(s: string, pos: nat, eow: nat, u: Text, i: nat, gapPos: int)
  {
    && eow <= |s| && u.quad.None? && AllGroups(u)
    && (if u.gap then gapPos == |u.front| else gapPos == -1 && u.back == []) && i == |u.front| + |u.back|
    && if pos <= eow then s[..pos] == Groups(u) else pos == eow + 1 && eow == |s| && s + ":" == Groups(u) && EndsInGroup(u)
  }

  lemma NothingRead(s: string, eow: nat)
    requires eow <= |s|
    ensures SoFar(s, 0, eow, Text([], false, [], None), 0, -1)
  {
  }

  predicate AllGroups(u: Text)
  {
    (forall k :: 0 <= k < |u.front| ==> IsGroup(u.front[k])) && forall k :: 0 <= k < |u.back| ==> IsGroup(u.back[k])
  }

  /** The words are those of the groups read, and then as they were. */
  predicate WordsSoFar(u: Text, words: seq<nat>, words0: seq<nat>)
  {
    var i := |u.front| + |u.back|;
    && AllGroups(u) && i <= |words| == |words0|
    && words[..i] == Values(u.front) + Values(u.back) && words[i..] == words0[i..]
  }

  lemma NoWordsYet(words0: seq<nat>)
    ensures WordsSoFar(Text([], false, [], None), words0, words0)
  {
  }

  lemma GroupRead(s: string, pos: nat, eow: nat, u: Text, i: nat, gapPos: int, pos': nat) returns (u': Text)
    requires SoFar(s, pos, eow, u, i, gapPos) && pos < pos' - 1 <= eow && AtGroup(s, pos, eow, s[pos..pos' - 1])
    ensures SoFar(s, pos', eow, u', i + 1, gapPos)
    ensures IsGroup(s[pos..pos' - 1]) && (u.gap || u.back == []) && i == |u.front| + |u.back|
    ensures var g := [s[pos..pos' - 1]]; u' == if u.gap then u.(back := u.back + g) else u.(front := u.front + g)
  {
    hide Colons, IsGroup;
    var g := s[pos..pos' - 1];
    u' := if u.gap then u.(back := u.back + [g]) else u.(front := u.front + [g]);
    ColonsSnoc(if u.gap then u.back else u.front, g);
    NoColons();
    assert Groups(u') == Groups(u) + g + ":";
    assert s[..pos] + g == s[..pos' - 1];
    if pos' <= eow {
      assert s[..pos'] == s[..pos' - 1] + ":";
    } else {
      assert s[..pos' - 1] == s;
    }
  }

  lemma WordKept(u: Text, u': Text, words: seq<nat>, words0: seq<nat>, g: string)
    requires IsGroup(g) && (u.gap || u.back == []) && WordsSoFar(u, words, words0) && |u.front| + |u.back| < |words|
    requires u' == if u.gap then u.(back := u.back + [g]) else u.(front := u.front + [g])
    ensures WordsSoFar(u', words[|u.front| + |u.back| := Word(g)], words0)
  {
    hide IsGroup, Word;
    var i := |u.front| + |u.back|;
    var words' := words[i := Word(g)];
    assert Values(u'.front) + Values(u'.back) == Values(u.front) + Values(u.back) + [Word(g)];
    assert words'[..i + 1] == words[..i] + [Word(g)];
    assert words'[i + 1..] == words[i..][1..] && words0[i + 1..] == words0[i..][1..];
  }

  lemma WordsAtGap(u: Text, words: seq<nat>, words0: seq<nat>)
    requires WordsSoFar(u, words, words0)
    ensures WordsSoFar(u.(gap := true), words, words0)
  {
    hide Values;
  }

  lemma GapRead(s: string, pos: nat, eow: nat, u: Text, i: nat, pos': nat) returns (u': Text)
    requires SoFar(s, pos, eow, u, i, -1) && pos' == (if i > 0 then pos + 1 else pos + 2) <= eow
    requires forall k :: pos <= k < pos' ==> s[k] == ':'
    ensures u' == u.(gap := true) && SoFar(s, pos', eow, u', i, i)
  {
    hide Colons, IsGroup;
    NoColons();
    u' := u.(gap := true);
    assert s[..pos'] == s[..pos] + if i > 0 then ":" else "::";
  }

  /** The loop of evutil_inet_pton over the groups up to `eow`. Given the groups of
      a text it reads just those, and what it reads are the groups of one. */
  method ParseGroups(s: string, eow: nat, words0: seq<nat>, ghost dot: nat, ghost t: Option<Text>, ghost bare: bool)
    returns (ok: bool, words: seq<nat>, i: nat, gapPos: int, ghost u: Text, ghost pos': nat)
    requires eow <= |s| && |words0| == 8 && forall k :: 0 <= k < 8 ==> words0[k] < 0x10000
    requires Edge(s, eow, dot)
    requires t.Some? ==> Shaped(t.value) && (bare ==> EndsInGroup(t.value)) && Between(s, 0, eow, bare, Groups(t.value))
    ensures s == ":" && eow == 1 ==> !ok
    ensures |words| == 8 && i <= 8 && -1 <= gapPos <= i && forall k :: 0 <= k < 8 ==> words[k] < 0x10000
    ensures t.Some? ==>
              && ok && gapPos == (if t.value.gap then |t.value.front| else -1) && i == |t.value.front| + |t.value.back|
              && words[..i] == Values(t.value.front) + Values(t.value.back) && words[i..] == words0[i..]
    ensures ok ==> pos' >= eow && SoFar(s, pos', eow, u, i, gapPos) && WordsSoFar(u, words, words0)
  {
    hide Between, Reading, Left, IsGroup, Value, HexPrefix, AtGroup, WordsRead, Groups, Values, Word, SoFar, WordsSoFar;
    var pos: nat := 0;
    ok, words, i, gapPos := true, words0, 0, -1;
    ghost var rest := "";
    if t.Some? {
      rest := Groups(t.value);
      StartReading(t.value);
      NoWords(t.value, words0);
    }
    u, pos' := Text([], false, [], None), 0;
    NothingRead(s, eow);
    NoWordsYet(words0);
    while pos < eow
      invariant |words| == 8 && i <= 8 && -1 <= gapPos <= i && forall k :: 0 <= k < 8 ==> words[k] < 0x10000
      invariant t.Some? ==> Between(s, pos, eow, bare, rest) && Reading(t.value, rest, i, gapPos)
      invariant t.Some? ==> WordsRead(t.value, words, words0, i)
      invariant s == ":" && eow == 1 ==> pos == 0 && i == 0
      invariant SoFar(s, pos, eow, u, i, gapPos) && WordsSoFar(u, words, words0)
      decreases eow - pos
    {
      if t.Some? { rest := AheadIs(s, pos, eow, t.value, rest, i, gapPos, bare); }
      if i > 7 { return false, words, i, gapPos, u, pos; }
      if IsXDigit(s[pos]) {
        var w, next;
        ok, w, next := ReadGroup(s, pos, eow, dot, if t.Some? then GroupAt(t.value, i) else "");
        if !ok { return; }
        if t.Some? { WordRead(t.value, words, words0, i, w); }
        ghost var was := u;
        u := GroupRead(s, pos, eow, u, i, gapPos, next);
        WordKept(was, u, words, words0, s[pos..next - 1]);
        words := words[i := w];
        i := i + 1;
        pos := next;
      } else if s[pos] == ':' && i > 0 && gapPos == -1 {
        WordsAtGap(u, words, words0);
        u := GapRead(s, pos, eow, u, i, pos + 1);
        gapPos := i;
        pos := pos + 1;
      } else if s[pos] == ':' && i == 0 && pos + 1 < |s| && s[pos + 1] == ':' && gapPos == -1 {
        WordsAtGap(u, words, words0);
        u := GapRead(s, pos, eow, u, i, pos + 2);
        gapPos := i;
        pos := pos + 2;
      } else {
        return false, words, i, gapPos, u, pos;
      }
    }
    pos' := pos;
    if t.Some? { AllRead(s, pos, eow, t.value, rest, i, gapPos, words, words0, bare); }
  }

  // ----- the address -----

  /** Where the groups end: at an IPv4 address, whose first byte the digits before the
      first dot are, or at the end. Gives the two words of that address too. */
  method FindQuad(s: string, ghost t: Option<Text>, ghost bare: bool) 
    returns (ok: bool, eow: nat, quad: Option<(nat, nat)>, ghost dot: nat, ghost q: Option<seq<string>>)
    requires t.Some? ==> Shaped(t.value) && Spelled(s, t.value, bare)
    ensures ok ==> eow <= |s| && (quad.Some? ==> quad.value.0 < 0x10000 && quad.value.1 < 0x10000)
    ensures ok ==> Edge(s, eow, dot) && (quad.Some? <==> q.Some?) && (q.None? ==> eow == |s|)
    ensures ok && q.Some? ==>
              && eow < |s| && IsQuad(q.value) && IsDecimal(q.value[3]) && s[eow..] == Dotted(q.value)
              && [quad.value.0, quad.value.1] == WordsOfQuad(q.value)
    ensures t.Some? ==>
              && (ok <==> t.value.quad.Some? ==> t.value.quad.value[3] != "")
              && (ok ==> Between(s, 0, eow, bare, Groups(t.value)))
              && (ok && t.value.quad.None? ==> quad == None)
              && (ok && t.value.quad.Some? ==> quad.Some? && [quad.value.0, quad.value.1] == WordsOfQuad(t.value.quad.value))
    ensures s == ":" ==> ok && eow == 1 && quad == None
  {
    hide Value, Colons, DottedFrom, IsDecimal, IsGroup, Between, Groups;
    dot := 0;
    q := None;
    var at: nat := 0;
    while at < |s| && s[at] != '.'
      invariant at <= |s| && forall k :: 0 <= k < at ==> s[k] != '.'
    {
      at := at + 1;
    }
    dot := at;
    if t.Some? { Dots(t.value, s, at, bare); }
    quad := None;
    if at == |s| { return true, |s|, None, dot, None; }
    if at == 0 { return false, 0, None, dot, None; }
    eow := at;
    while eow > 0 && IsDigit(s[eow - 1])
      invariant eow <= at && forall k :: eow <= k < at ==> IsDigit(s[k])
    {
      eow := eow - 1;
    }
    if t.Some? { QuadStarts(t.value, s, at, eow); }
    ghost var found;
    quad, found := ScanQuad(s, eow, if t.Some? then t.value.quad else None);
    ok := quad.Some?;
    if ok {
      q := Some(found);
      FirstByte(s, eow, dot, found);
    }
  }

  /** What starts at the digits before a dot starts with digits. */
  lemma FirstByte(s: string, eow: nat, dot: nat, q: seq<string>)
    requires |q| == 4 && eow <= dot < |s| && s[dot] == '.' && s[eow..] == Dotted(q) && IsDecimal(q[0])
    requires forall k :: eow <= k < dot ==> IsDigit(s[k])
    ensures AllDigits(q[0]) && eow < dot
  {
    hide Value, IsNumber, Size, Negative, AllDigits, DottedFrom;
    NoBlanks();
    DottedStep(q, 0);
    Ahead(s, eow, q[0], DottedFrom(q, 1));
    assert s[eow + 0] == q[0][0];
    assert !IsBlank(s[eow]) && s[eow] != '-' && s[eow] != '+' by { if eow < dot { assert IsDigit(s[eow]); } }
    PlainStart(q[0]);
  }

  lemma PlainStart(g: string)
    requires IsNumber(g) && g != "" && !IsBlank(g[0]) && g[0] != '-' && g[0] != '+'
    ensures AllDigits(g) && IsDigit(g[0])
  {
    assert Signed(g) == 0 && g[0..] == g;
  }

  /** Groups have no dots, and end in a colon before an IPv4 address. */
  lemma {:induction false} ColonsPlain(l: seq<string>)
    requires forall i :: 0 <= i < |l| ==> IsGroup(l[i])
    ensures forall k :: 0 <= k < |Colons(l)| ==> Colons(l)[k] != '.'
    ensures l != [] ==> |Colons(l)| >= 2 && Colons(l)[|Colons(l)| - 1] == ':'
  {
    if l != [] {
      ColonsPlain(l[1..]);
      NoDot(l[0]);
    }
  }

  lemma NoDot(g: string)
    requires IsGroup(g)
    ensures forall k :: 0 <= k < |g| ==> g[k] != '.'
  {
    forall k | 0 <= k < |g| ensures g[k] != '.' {
      if HexPrefix(g, 0) { assert k >= 2 ==> HexDigits(g)[k - 2] == g[k]; }
    }
  }

  lemma GroupsPlain(t: Text)
    requires Shaped(t)
    ensures forall k :: 0 <= k < |Groups(t)| ==> Groups(t)[k] != '.'
    ensures Groups(t) == "" || Groups(t)[|Groups(t)| - 1] == ':'
    ensures Groups(t) == "" <==> !t.gap && t.front == []
  {
    hide Colons;
    ColonsPlain(t.front);
    ColonsPlain(t.back);
    if t.front == [] { NoColons(); }
    if t.back == [] { NoColons(); }
  }

  lemma NoColons()
    ensures Colons([]) == ""
  {
  }

  lemma QuadPlain(q: seq<string>)
    requires |q| == 4
    ensures exists rest :: Dotted(q) == q[0] + ("." + rest)
  {
    assert DottedFrom(q, 0) == "" + q[0] + DottedFrom(q, 1);
    assert DottedFrom(q, 1) == "." + (q[1] + DottedFrom(q, 2));
    assert Dotted(q) == q[0] + ("." + (q[1] + DottedFrom(q, 2)));
  }

  lemma Dots(t: Text, s: string, dot: nat, bare: bool)
    requires Shaped(t) && Spelled(s, t, bare) && dot <= |s|
    requires (forall k :: 0 <= k < dot ==> s[k] != '.') && (dot == |s| || s[dot] == '.')
    ensures t.quad.None? ==> dot == |s| && Between(s, 0, |s|, bare, Groups(t))
    ensures t.quad.Some? ==> 0 < dot < |s| && dot == |Groups(t)| + |t.quad.value[0]|
  {
    hide Groups, DottedFrom, Value;
    GroupsPlain(t);
    var g := Groups(t);
    if t.quad.None? {
      assert forall k :: 0 <= k < |s| ==> s[k] == g[k];
      assert s[0..|s|] == s;
    } else {
      var q := t.quad.value;
      QuadPlain(q);
      var rest :| Dotted(q) == q[0] + ("." + rest);
      assert s == g + q[0] + ("." + rest);
      assert s[|g| + |q[0]|] == '.';
      forall k | 0 <= k < |g| + |q[0]| ensures s[k] != '.' {
        assert s[k] == (g + q[0])[k];
        if k >= |g| { assert s[k] == q[0][k - |g|]; }
      }
    }
  }

  lemma QuadStarts(t: Text, s: string, dot: nat, eow: nat)
    requires Shaped(t) && t.quad.Some? && Spelled(s, t, false) && dot == |Groups(t)| + |t.quad.value[0]| && eow <= dot < |s|
    requires (forall k :: eow <= k < dot ==> IsDigit(s[k])) && (eow == 0 || !IsDigit(s[eow - 1]))
    ensures eow == |Groups(t)| && s[eow..] == Dotted(t.quad.value) && Between(s, 0, eow, false, Groups(t))
  {
    hide Groups, DottedFrom, Value;
    GroupsPlain(t);
    var g, q := Groups(t), t.quad.value;
    QuadPlain(q);
    var rest :| Dotted(q) == q[0] + ("." + rest);
    assert s == g + q[0] + ("." + rest);
    if g != "" { assert s[|g| - 1] == g[|g| - 1] == ':'; }
    forall k | |g| <= k < dot ensures IsDigit(s[k]) { assert s[k] == q[0][k - |g|]; }
    assert s[0..|g|] == g && s[|g|..] == Dotted(q);
  }

  /** The memmove that opens the gap, and the memset that clears it. */
  function Spread(words: seq<nat>, gapPos: nat, gapLen: nat, nToMove: nat): seq<nat>
    requires gapPos + gapLen + nToMove <= |words|
  {
    words[..gapPos] + seq(gapLen, _ => 0) + words[gapPos..gapPos + nToMove] + words[gapPos + gapLen + nToMove..]
  }

  lemma SpreadSmall(words: seq<nat>, gapPos: nat, gapLen: nat, nToMove: nat)
    requires gapPos + gapLen + nToMove <= |words| && forall k :: 0 <= k < |words| ==> words[k] < 0x10000
    ensures var w := Spread(words, gapPos, gapLen, nToMove); |w| == |words| && forall k :: 0 <= k < |w| ==> w[k] < 0x10000
  {
  }

  /** What has been read makes up the words of the text. */
  lemma Assembled(t: Text, words0: seq<nat>, words: seq<nat>, i: nat, gapPos: int, quad: Option<(nat, nat)>)
    requires WellFormed(t) && |words0| == |words| == 8 && i == |t.front| + |t.back|
    requires gapPos == (if t.gap then |t.front| else -1)
    requires words[..i] == Values(t.front) + Values(t.back) && words[i..] == words0[i..]
    requires QuadWords(t.quad) == (if quad.Some? then [quad.value.0, quad.value.1] else [])
    requires quad.Some? ==> words0[6..] == [quad.value.0, quad.value.1]
    ensures var tail := if quad.Some? then 2 else 0;
            && i + tail <= 8 && (gapPos >= 0 <==> i + tail < 8)
            && (gapPos < 0 ==> words == Words(t))
            && (gapPos >= 0 ==> gapPos <= i && Spread(words, gapPos, 8 - i - tail, i - gapPos) == Words(t))
  {
    hide Value, IsGroup, IsDecimal, WordsOfQuad, QuadWords, Values, Spread;
    var f, b, q := Values(t.front), Values(t.back), QuadWords(t.quad);
    ValuesLength(t.front);
    ValuesLength(t.back);
    QuadEnds(words0, words, i, q);
    if gapPos >= 0 {
      SpreadIs(f, b, q, words);
    } else {
      assert words == words[..8 - |q|] + words[8 - |q|..];
    }
  }

  lemma ValuesLength(l: seq<string>)
    requires forall i :: 0 <= i < |l| ==> IsGroup(l[i])
    ensures |Values(l)| == |l|
  {
  }

  lemma QuadEnds(words0: seq<nat>, words: seq<nat>, i: nat, q: seq<nat>)
    requires |words0| == |words| == 8 && i + |q| <= 8 && words[i..] == words0[i..] && (q != [] ==> words0[8 - |q|..] == q)
    ensures words[8 - |q|..] == q
  {
    assert words[8 - |q|..] == words[i..][8 - |q| - i..] == words0[i..][8 - |q| - i..] == words0[8 - |q|..];
  }

  lemma SpreadIs(f: seq<nat>, b: seq<nat>, q: seq<nat>, words: seq<nat>)
    requires |words| == 8 && |f| + |b| + |q| < 8 && words[..|f| + |b|] == f + b && words[8 - |q|..] == q
    ensures Spread(words, |f|, 8 - |f| - |b| - |q|, |b|) == f + seq(8 - |f| - |b| - |q|, _ => 0) + b + q
  {
    var i := |f| + |b|;
    assert words[..|f|] == words[..i][..|f|] == f;
    assert words[|f|..i] == words[..i][|f|..] == b;
  }

  /** evutil_inet_pton for IPv6: a text is read if and only if it is one of groups, gap and
      quad, with a colon more or less behind its last group, and then as the address that text
      stands for. The lemma RfcText has those of section 2.2 of RFC 4291; beyond them a group
      may have an 0x and a byte blanks and a sign in front. A text in which groups are missing,
      or the last byte of an IPv4 address, is refused. */
  method Pton6(s: string, ghost t: Option<Text>, ghost bare: bool) returns (r: Option<seq<nat>>, ghost u: Text, ghost bare': bool)
    requires t.Some? ==> Shaped(t.value) && Spelled(s, t.value, bare)
    ensures r.Some? ==> |r.value| == 16 && forall k :: 0 <= k < 16 ==> r.value[k] < 256
    ensures t.Some? ==> r == if WellFormed(t.value) then Some(Bytes(Words(t.value))) else None
    ensures r.Some? ==> WellFormed(u) && Spelled(s, u, bare') && r.value == Bytes(Words(u))
    ensures s == ":" ==> r == None
  {
    hide WellFormed, Shaped, Spelled, Between, Groups, Values, Words, EndsInGroup, WordsOfQuad, SoFar, WordsSoFar, Edge;
    hide IsDecimal, AllDigits, Dotted, Bytes, Opened;
    u, bare' := Text([], true, [], None), false;
    if t.Some? {
      ShapedWell(t.value);
      BareEnds(s, t.value, bare);
    }
    ghost var dot, q;
    var ok, eow, quad;
    ok, eow, quad, dot, q := FindQuad(s, t, bare);
    if !ok { return None, u, bare'; }
    var words := [0, 0, 0, 0, 0, 0, 0, 0];
    if quad.Some? { words := words[6 := quad.value.0][7 := quad.value.1]; }
    ghost var words0, pos := words, 0;
    var i, gapPos;
    ok, words, i, gapPos, u, pos := ParseGroups(s, eow, words, dot, t, bare);
    if !ok { return None, u, bare'; }
    var tail := if quad.Some? then 2 else 0;
    var setWords := i + tail;
    if t.Some? { Expected(t.value, words0, words, i, gapPos, quad); }
    if setWords > 8 || (setWords == 8 && gapPos != -1) || (setWords < 8 && gapPos == -1) { return None, u, bare'; }
    bare' := pos > eow;
    u := FoundText(s, pos, eow, u, i, gapPos, q, words, words0, quad);
    var b := Filled(words, i, gapPos, tail);
    r := Some(b);
  }

  /** The words with the gap, if there is one, open. */
  function Opened(words: seq<nat>, i: nat, gapPos: int, tail: nat): seq<nat>
    requires i + tail <= 8 == |words| && -1 <= gapPos <= i
  {
    if gapPos >= 0 then Spread(words, gapPos, 8 - i - tail, i - gapPos) else words
  }

  /** What comes of the groups and the quad of a text. */
  lemma Expected(t: Text, words0: seq<nat>, words: seq<nat>, i: nat, gapPos: int, quad: Option<(nat, nat)>)
    requires Shaped(t) && |words0| == |words| == 8 && i == |t.front| + |t.back| && gapPos == (if t.gap then |t.front| else -1)
    requires words[..i] == Values(t.front) + Values(t.back) && words[i..] == words0[i..]
    requires quad.Some? <==> t.quad.Some?
    requires t.quad.Some? ==> t.quad.value[3] != "" && WordsOfQuad(t.quad.value) == [quad.value.0, quad.value.1]
    requires quad.Some? ==> words0[6..] == [quad.value.0, quad.value.1]
    ensures var tail := if quad.Some? then 2 else 0;
            if WellFormed(t) then
              i + tail <= 8 && (gapPos >= 0 <==> i + tail < 8) && gapPos <= i && Opened(words, i, gapPos, tail) == Words(t)
            else i + tail < 8 && gapPos == -1
  {
    hide WellFormed, Shaped, Values, Words, WordsOfQuad, Spread;
    ShapedWell(t);
    Counted(t, i, gapPos, quad.Some?);
    if WellFormed(t) { Assembled(t, words0, words, i, gapPos, quad); }
  }

  /** Open the gap, if there is one, and give the bytes of the words. */
  method Filled(words: seq<nat>, i: nat, gapPos: int, tail: nat) returns (b: seq<nat>)
    requires |words| == 8 && i + tail <= 8 && -1 <= gapPos <= i && forall k :: 0 <= k < 8 ==> words[k] < 0x10000
    ensures b == Bytes(Opened(words, i, gapPos, tail))
    ensures |b| == 16 && forall k :: 0 <= k < 16 ==> b[k] < 256
  {
    hide Bytes, Spread;
    var all := words;
    if gapPos >= 0 {
      var nToMove, gapLen := i - gapPos, 8 - i - tail;
      SpreadSmall(words, gapPos, gapLen, nToMove);
      all := Spread(words, gapPos, gapLen, nToMove);
    }
    BytesSmall(all);
    b := Bytes(all);
  }

  lemma BytesSmall(words: seq<nat>)
    requires forall k :: 0 <= k < |words| ==> words[k] < 0x10000
    ensures forall k :: 0 <= k < |Bytes(words)| ==> Bytes(words)[k] < 256
  {
  }

  /** What has been read is the text of an address. */
  lemma FoundText(s: string, pos: nat, eow: nat, u: Text, i: nat, gapPos: int, q: Option<seq<string>>, words: seq<nat>,
                  words0: seq<nat>, quad: Option<(nat, nat)>) returns (u': Text)
    requires |words0| == |words| == 8 && (quad.Some? ==> words0[6..] == [quad.value.0, quad.value.1])
    requires (quad.Some? <==> q.Some?) && (q.Some? ==> |q.value| == 4 && [quad.value.0, quad.value.1] == WordsOfQuad(q.value))
    requires pos >= eow && SoFar(s, pos, eow, u, i, gapPos) && WordsSoFar(u, words, words0)
    requires q.Some? ==> eow < |s| && IsQuad(q.value) && IsDecimal(q.value[3]) && s[eow..] == Dotted(q.value)
    requires q.None? ==> eow == |s|
    requires var setWords := i + if q.Some? then 2 else 0;
             setWords <= 8 && (setWords == 8 ==> gapPos == -1) && (setWords < 8 ==> gapPos != -1)
    ensures u' == u.(quad := q) && WellFormed(u') && Spelled(s, u', pos > eow)
    ensures var tail := if quad.Some? then 2 else 0;
            i + tail <= 8 && -1 <= gapPos <= i && Opened(words, i, gapPos, tail) == Words(u')
  {
    hide IsGroup, IsDecimal, Colons, DottedFrom, Values, WordsOfQuad;
    u' := u.(quad := q);
    SameGroups(u, u');
    if pos <= eow { assert s == s[..eow] + s[eow..]; }
    ReadWords(u', words, words0, i, gapPos, quad);
  }

  lemma ReadWords(u: Text, words: seq<nat>, words0: seq<nat>, i: nat, gapPos: int, quad: Option<(nat, nat)>)
    requires WellFormed(u) && |words0| == |words| == 8 && i == |u.front| + |u.back| && gapPos == (if u.gap then |u.front| else -1)
    requires words[..i] == Values(u.front) + Values(u.back) && words[i..] == words0[i..]
    requires quad.Some? <==> u.quad.Some?
    requires u.quad.Some? ==> WordsOfQuad(u.quad.value) == [quad.value.0, quad.value.1]
    requires quad.Some? ==> words0[6..] == [quad.value.0, quad.value.1]
    ensures var tail := if quad.Some? then 2 else 0;
            i + tail <= 8 && -1 <= gapPos <= i && Opened(words, i, gapPos, tail) == Words(u)
  {
    hide Values, Words, WordsOfQuad, Spread, IsGroup, IsDecimal;
    Assembled(u, words0, words, i, gapPos, quad);
  }

  /** A text as section 2.2 of RFC 4291 has it: groups are one to four digits, bytes digits. */
  predicate IsRfc(t: Text)
  {
    && (forall i :: 0 <= i < |t.front| ==> 1 <= |t.front[i]| <= 4 && AllXDigits(t.front[i]))
    && (forall i :: 0 <= i < |t.back| ==> 1 <= |t.back[i]| <= 4 && AllXDigits(t.back[i]))
    && (t.quad.Some? ==>
          |t.quad.value| == 4
          && forall i :: 0 <= i < 4 ==> t.quad.value[i] != "" && AllDigits(t.quad.value[i]) && Value(t.quad.value[i], 10) <= 255)
    && (if t.gap then |t.front| + |t.back| + Tail(t) < 8 else t.back == [] && |t.front| + Tail(t) == 8)
  }

  /** Such a text is well formed, and its numbers have the values of their digits. */
  lemma RfcText(t: Text)
    requires IsRfc(t)
    ensures WellFormed(t)
    ensures forall i :: 0 <= i < |t.front| ==> Word(t.front[i]) == Value(t.front[i], 16)
    ensures forall i :: 0 <= i < |t.back| ==> Word(t.back[i]) == Value(t.back[i], 16)
    ensures t.quad.Some? ==> forall i :: 0 <= i < 4 ==> Size(t.quad.value[i]) == Value(t.quad.value[i], 10)
  {
    hide Value, Word, IsGroup, IsNumber, Size, Negative;
    forall i | 0 <= i < |t.front| ensures IsGroup(t.front[i]) && Word(t.front[i]) == Value(t.front[i], 16) { PlainGroup(t.front[i]); }
    forall i | 0 <= i < |t.back| ensures IsGroup(t.back[i]) && Word(t.back[i]) == Value(t.back[i], 16) { PlainGroup(t.back[i]); }
    if t.quad.Some? {
      forall i | 0 <= i < 4 ensures IsDecimal(t.quad.value[i]) && Size(t.quad.value[i]) == Value(t.quad.value[i], 10) {
        PlainByte(t.quad.value[i]);
      }
    }
  }

  lemma BareEnds(s: string, t: Text, bare: bool)
    requires Shaped(t) && Spelled(s, t, bare)
    ensures bare ==> EndsInGroup(t)
  {
  }

  /** Too few groups and no gap are told by the count. */
  lemma Counted(t: Text, i: nat, gapPos: int, quad: bool)
    requires Shaped(t) && i == |t.front| + |t.back| && gapPos == (if t.gap then |t.front| else -1)
    requires quad <==> t.quad.Some?
    requires t.quad.Some? ==> t.quad.value[3] != ""
    ensures var setWords := i + if quad then 2 else 0; !WellFormed(t) ==> setWords < 8 && gapPos == -1
  {
    ShapedWell(t);
  }

  function Bytes(w: seq<nat>): (b: seq<nat>)
    ensures |b| == 2 * |w|
  {
    seq(2 * |w|, k requires 0 <= k < 2 * |w| => if k % 2 == 0 then w[k / 2] / 256 else w[k / 2] % 256)
  }

  // ----- writing -----

  function DigitOf(d: nat): char
    requires d < 16
  {
    if d < 10 then '0' + d as char else 'a' + (d - 10) as char
  }

  /** "%x" and "%d" of a natural number. */
  function Numeral(n: nat, base: nat): string
    requires 2 <= base <= 16
    decreases n
  {
    if n < base then [DigitOf(n)] else Numeral(n / base, base) + [DigitOf(n % base)]
  }

  lemma DigitBack(d: nat)
    requires d < 16
    ensures IsXDigit(DigitOf(d)) && DigitValue(DigitOf(d)) == d && (d < 10 ==> IsDigit(DigitOf(d)))
  {
  }

  lemma {:induction false} NumeralBack(n: nat, base: nat)
    requires 2 <= base <= 16
    ensures Value(Numeral(n, base), base) == n && |Numeral(n, base)| > 0
    ensures forall i :: 0 <= i < |Numeral(n, base)| ==> IsXDigit(Numeral(n, base)[i])
    ensures base <= 10 ==> AllDigits(Numeral(n, base))
    decreases n
  {
    hide DigitOf, IsXDigit, DigitValue, IsDigit, Value, Numeral;
    NumeralIs(n, base);
    if n < base {
      DigitBack(n);
      ValueAppend("", DigitOf(n), base);
      NoValue(base);
      assert "" + [DigitOf(n)] == [DigitOf(n)];
    } else {
      DivMod(n, base);
      DigitBack(n % base);
      NumeralBack(n / base, base);
      ValueAppend(Numeral(n / base, base), DigitOf(n % base), base);
    }
  }

  lemma NumeralIs(n: nat, base: nat)
    requires 2 <= base <= 16
    ensures n < base ==> Numeral(n, base) == [DigitOf(n)]
    ensures n >= base ==> n % base < 16 && Numeral(n, base) == Numeral(n / base, base) + [DigitOf(n % base)]
  {
  }

  lemma NoValue(base: nat)
    ensures Value("", base) * base == 0
  {
  }

  lemma ValueAppend(t: string, c: char, base: nat)
    ensures Value(t + [c], base) == Value(t, base) * base + DigitValue(c)
  {
    assert (t + [c])[..|t|] == t;
  }

  lemma DivMod(n: nat, base: nat)
    requires 2 <= base <= n
    ensures n / base * base + n % base == n && n % base < base && n / base < n
  {
  }

  function Hex(w: nat): string
  {
    Numeral(w, 16)
  }

  lemma HexGroup(w: nat)
    requires w < 0x10000
    ensures IsGroup(Hex(w)) && Word(Hex(w)) == w
  {
    NumeralBack(w, 16);
    HexShort(w);
    PlainGroup(Hex(w));
  }

  lemma HexShort(w: nat)
    requires w < 0x10000
    ensures |Hex(w)| <= 4
  {
    var a, b, c := w / 16, w / 16 / 16, w / 16 / 16 / 16;
    assert c < 16;
    assert |Numeral(c, 16)| == 1 && |Numeral(b, 16)| <= 2 && |Numeral(a, 16)| <= 3;
  }

  lemma DecByte(b: nat)
    requires b < 256
    ensures IsDecimal(Numeral(b, 10)) && Size(Numeral(b, 10)) == b && AllDigits(Numeral(b, 10))
  {
    NumeralBack(b, 10);
    PlainByte(Numeral(b, 10));
  }

  function Hexes(w: seq<nat>): seq<string>
  {
    seq(|w|, i requires 0 <= i < |w| => Hex(w[i]))
  }

  lemma {:induction false} ColonsSnoc(l: seq<string>, x: string)
    ensures Colons(l + [x]) == Colons(l) + x + ":"
  {
    if l != [] {
      assert (l + [x])[1..] == l[1..] + [x];
      ColonsSnoc(l[1..], x);
    } else {
      assert [x][1..] == [];
    }
  }

  /** `words[p..p + n]` are zeros. */
  predicate ZeroRun(words: seq<nat>, p: nat, n: nat)
  {
    p + n <= |words| && forall i :: p <= i < p + n ==> words[i] == 0
  }

  lemma RunStops(words: seq<nat>, p: nat, n: nat, i: nat)
    requires ZeroRun(words, p, n) && p <= i <= |words| && (i < |words| ==> words[i] != 0)
    ensures p + n <= i
  {
  }

  /** The first of the longest runs of zeros, if that is longer than one. */
  method LongestGap(words: seq<nat>) returns (pos: int, len: nat)
    requires |words| == 8
    ensures pos == -1 || (0 <= pos && len >= 2 && pos + len <= 8 && ZeroRun(words, pos, len) && (pos + len == 8 || words[pos + len] != 0))
    ensures pos == -1 ==> forall p: nat, n: nat :: ZeroRun(words, p, n) ==> n <= 1
    ensures pos >= 0 ==> forall p: nat, n: nat :: ZeroRun(words, p, n) ==> n < len || (n == len && pos <= p)
  {
    pos, len := -1, 0;
    var i := 0;
    while i < 8
      invariant i <= 8 && (pos == -1 <==> len == 0)
      invariant pos >= 0 ==> len >= 1 && ZeroRun(words, pos, len) && pos + len <= i && (pos + len == 8 || words[pos + len] != 0)
      invariant i == 8 || i == 0 || words[i] != 0 || words[i - 1] != 0
      invariant forall p: nat, n: nat :: p < i && ZeroRun(words, p, n) ==> n == 0 || n < len || (n == len && pos <= p)
    {
      if words[i] == 0 {
        var curPos, curLen := i, 1;
        i := i + 1;
        while i < 8 && words[i] == 0
          invariant curPos < i <= 8 && curLen == i - curPos && ZeroRun(words, curPos, curLen)
        {
          i, curLen := i + 1, curLen + 1;
        }
        forall p: nat, n: nat | p < i && ZeroRun(words, p, n) ensures p + n <= i { RunStops(words, p, n, i); }
        if curLen > len { pos, len := curPos, curLen; }
      } else {
        i := i + 1;
      }
    }
    if len <= 1 { pos := -1; }
  }

  /** The words as groups of an address with a gap of `n` zeros at `g`, or without. */
  function TextOf(words: seq<nat>, g: int, n: int): Text
    requires |words| == 8 && (g == -1 || (0 <= g && 0 <= n && g + n <= 8))
  {
    if g == -1 then Text(Hexes(words), false, [], None)
    else Text(Hexes(words[..g]), true, Hexes(words[g + n..]), None)
  }

  lemma HexesAre(words: seq<nat>)
    requires forall i :: 0 <= i < |words| ==> words[i] < 0x10000
    ensures forall i :: 0 <= i < |words| ==> IsGroup(Hexes(words)[i])
    ensures Values(Hexes(words)) == words
  {
    hide Hex, Value;
    forall i | 0 <= i < |words| ensures IsGroup(Hexes(words)[i]) && Word(Hexes(words)[i]) == words[i] {
      HexGroup(words[i]);
    }
  }

  lemma TextIs(words: seq<nat>, g: int, n: int)
    requires |words| == 8 && forall i :: 0 <= i < |words| ==> words[i] < 0x10000
    requires g == -1 || (0 <= g && 2 <= n && ZeroRun(words, g, n))
    ensures WellFormed(TextOf(words, g, n)) && Words(TextOf(words, g, n)) == words
  {
    hide Hex, Value, Hexes, Values, IsGroup;
    HexesAre(words);
    if g == -1 {
      HexesAre([]);
      NoHexes();
    } else {
      HexesAre(words[..g]);
      HexesAre(words[g + n..]);
      HexesLength(words[..g]);
      HexesLength(words[g + n..]);
      assert words == words[..g] + words[g..g + n] + words[g + n..];
      assert words[g..g + n] == seq(n, _ => 0);
    }
    HexesLength(words);
  }

  lemma NoHexes()
    ensures Hexes([]) == [] && Values([]) == []
  {
  }

  lemma HexesLength(words: seq<nat>)
    ensures |Hexes(words)| == |words|
  {
  }

  /** What has been printed before word `i`, with a colon behind each group. */
  function Printed(words: seq<nat>, g: int, n: int, i: nat): string
    requires |words| == 8 && i <= 8 && (g == -1 || (0 <= g && 0 <= n && g + n <= 8))
  {
    if g == -1 || i <= g then Colons(Hexes(words[..i]))
    else Colons(Hexes(words[..g])) + (if g == 0 then "::" else ":") + (if g + n <= i then Colons(Hexes(words[g + n..i])) else "")
  }

  lemma PrintedWord(words: seq<nat>, g: int, n: int, i: nat)
    requires |words| == 8 && i < 8 && (g == -1 || (0 <= g && 0 <= n && g + n <= 8 && (i < g || (g + n <= i && g < i))))
    ensures Printed(words, g, n, i + 1) == Printed(words, g, n, i) + Hex(words[i]) + ":"
  {
    hide Hex, Colons;
    if g == -1 || i < g {
      assert Hexes(words[..i + 1]) == Hexes(words[..i]) + [Hex(words[i])];
      ColonsSnoc(Hexes(words[..i]), Hex(words[i]));
    } else {
      assert Hexes(words[g + n..i + 1]) == Hexes(words[g + n..i]) + [Hex(words[i])];
      ColonsSnoc(Hexes(words[g + n..i]), Hex(words[i]));
    }
  }

  lemma PrintedGap(words: seq<nat>, g: int, n: int)
    requires |words| == 8 && 0 <= g && 2 <= n && g + n <= 8
    ensures Printed(words, g, n, g + n) == Printed(words, g, n, g) + (if g == 0 then "::" else ":")
  {
    hide Hex;
    assert Hexes(words[g + n..g + n]) == [];
  }

  lemma PrintedAll(words: seq<nat>, g: int, n: int)
    requires |words| == 8 && (g == -1 || (0 <= g && 2 <= n && g + n <= 8))
    ensures Printed(words, g, n, 8) == Groups(TextOf(words, g, n))
    ensures EndsInGroup(TextOf(words, g, n)) <==> g == -1 || g + n < 8
  {
    hide Hex, Colons;
    assert words[..8] == words;
    if g >= 0 {
      assert words[g + n..8] == words[g + n..];
    } else {
      NoColons();
    }
  }

  /** The loop that prints the groups. */
  method PrintGroups(words: seq<nat>, gap: int, ghost n: int) returns (buf: string)
    requires |words| == 8 && forall i :: 0 <= i < |words| ==> words[i] < 0x10000
    requires gap == -1 || (0 <= gap && 2 <= n && ZeroRun(words, gap, n) && (gap + n == 8 || words[gap + n] != 0))
    ensures WellFormed(TextOf(words, gap, n)) && buf == Render(TextOf(words, gap, n))
  {
    hide Hex, Colons, Hexes, Printed, Groups, WellFormed, EndsInGroup;
    TextIs(words, gap, n);
    PrintedAll(words, gap, n);
    buf := "";
    NothingPrinted(words, gap, n);
    var i := 0;
    while i < 8
      invariant i <= 8 && (gap == -1 || i <= gap || gap + n <= i)
      invariant if i == 8 && (gap == -1 || gap + n < 8) then buf + ":" == Printed(words, gap, n, i)
                else buf == Printed(words, gap, n, i)
    {
      if words[i] == 0 && gap == i {
        PrintedGap(words, gap, n);
        if i == 0 { buf := buf + ":"; }
        buf := buf + ":";
        while i < 8 && words[i] == 0
          invariant gap <= i <= gap + n
        {
          i := i + 1;
        }
      } else {
        PrintedWord(words, gap, n, i);
        buf := buf + Hex(words[i]);
        if i != 7 { buf := buf + ":"; }
        i := i + 1;
      }
    }
    if gap == -1 || gap + n < 8 { assert (buf + ":")[..|buf|] == buf; }
  }

  lemma NothingPrinted(words: seq<nat>, g: int, n: int)
    requires |words| == 8 && (g == -1 || (0 <= g && 0 <= n && g + n <= 8))
    ensures Printed(words, g, n, 0) == ""
  {
    hide Hex;
    assert Hexes(words[..0]) == [];
  }

  /** The words of 16 bytes. */
  function WordsOf(a: seq<nat>): (w: seq<nat>)
    requires |a| == 16 && forall i :: 0 <= i < 16 ==> a[i] < 256
    ensures |w| == 8 && forall i :: 0 <= i < 8 ==> w[i] < 0x10000
  {
    seq(8, i requires 0 <= i < 8 => a[2 * i] * 256 + a[2 * i + 1])
  }

  lemma BytesBack(a: seq<nat>)
    requires |a| == 16 && forall i :: 0 <= i < 16 ==> a[i] < 256
    ensures Bytes(WordsOf(a)) == a
  {
    forall k | 0 <= k < 16 ensures Bytes(WordsOf(a))[k] == a[k] {
      assert k == 2 * (k / 2) + k % 2;
    }
  }

  /** The text with an IPv4 address at its end. */
  function QuadText(a: seq<nat>): Text
    requires |a| == 16 && forall i :: 0 <= i < 16 ==> a[i] < 256
  {
    var w := WordsOf(a)[5];
    Text([], true, if w == 0 then [] else [Hex(w)],
         Some([Numeral(a[12], 10), Numeral(a[13], 10), Numeral(a[14], 10), Numeral(a[15], 10)]))
  }

  lemma QuadTextIs(a: seq<nat>)
    requires |a| == 16 && (forall i :: 0 <= i < 16 ==> a[i] < 256) && forall i :: 0 <= i < 5 ==> WordsOf(a)[i] == 0
    ensures WellFormed(QuadText(a)) && Words(QuadText(a)) == WordsOf(a)
    ensures Render(QuadText(a)) ==
            "::" + (if WordsOf(a)[5] == 0 then "" else Hex(WordsOf(a)[5]) + ":") + Dotted(QuadText(a).quad.value)
  {
    hide Value, Size, Word, Numeral, IsGroup, IsDecimal, AllDigits, Dotted, Values;
    var w, t := WordsOf(a)[5], QuadText(a);
    HexGroup(w);
    DecByte(a[12]);
    DecByte(a[13]);
    DecByte(a[14]);
    DecByte(a[15]);
    assert t.back != [] ==> t.back[1..] == [];
    assert Words(t) == WordsOf(a) by {
      FewHexes(w);
      assert WordsOf(a)[6] == a[12] * 256 + a[13] && WordsOf(a)[7] == a[14] * 256 + a[15];
    }
  }

  lemma FewHexes(w: nat)
    requires w < 0x10000
    ensures Values([]) == [] && IsGroup(Hex(w)) && Values([Hex(w)]) == [w]
  {
    hide IsGroup, Word;
    HexGroup(w);
  }

  /** What evutil_inet_ntop takes for an IPv4 address. */
  predicate QuadForm(w: seq<nat>)
    requires |w| == 8
  {
    w[0] == 0 && w[1] == 0 && w[2] == 0 && w[3] == 0 && w[4] == 0 && ((w[5] == 0 && w[6] != 0 && w[7] != 0) || w[5] == 0xffff)
  }

  /** A gap of `n` zeros at `g` that goes on as far as it can, or none. */
  predicate GapAt(words: seq<nat>, g: int, n: int)
    requires |words| == 8
  {
    g == -1 || (0 <= g && 2 <= n && ZeroRun(words, g, n) && (g + n == 8 || words[g + n] != 0))
  }

  /** The text printed for an address. */
  ghost predicate Canonical(a: seq<nat>, t: Text)
    requires |a| == 16 && forall i :: 0 <= i < 16 ==> a[i] < 256
  {
    var words := WordsOf(a);
    if QuadForm(words) then t == QuadText(a)
    else exists g: int, n: int :: GapAt(words, g, n) && t == TextOf(words, g, n)
  }

  /** evutil_inet_ntop for IPv6, into `len` bytes: a text of the address, with an IPv4
      address in it or the first longest run of zeros left out; cut short by its last
      character when there is room for all but the final zero. */
  method Ntop6(a: seq<nat>, len: nat) returns (r: Option<string>, ghost t: Text)
    requires |a| == 16 && forall i :: 0 <= i < 16 ==> a[i] < 256
    ensures WellFormed(t) && Words(t) == WordsOf(a) && Bytes(Words(t)) == a && |Render(t)| <= 39 && Canonical(a, t)
    ensures var s := Render(t);
            r == if |s| > len then None else if |s| == len > 0 then Some(s[..len - 1]) else Some(s)
    ensures len >= 40 ==> r.Some? && |r.value| <= 39
    ensures t.quad.None? && t.gap ==>
              forall p: nat, n: nat :: ZeroRun(WordsOf(a), p, n) ==>
                n < 8 - |t.front| - |t.back| || (n == 8 - |t.front| - |t.back| && |t.front| <= p)
    ensures t.quad.None? && !t.gap ==> forall p: nat, n: nat :: ZeroRun(WordsOf(a), p, n) ==> n <= 1
  {
    hide Render, Words, WellFormed, Hex, Numeral, Bytes, ZeroRun, Dotted;
    var words := WordsOf(a);
    BytesBack(a);
    var buf;
    if QuadForm(words) {
      t := QuadText(a);
      QuadTextIs(a);
      QuadShort(a);
      var quad := Dotted([Numeral(a[12], 10), Numeral(a[13], 10), Numeral(a[14], 10), Numeral(a[15], 10)]);
      buf := if words[5] == 0 then "::" + quad else "::" + Hex(words[5]) + ":" + quad;
      assert "::" + Hex(words[5]) + ":" + quad == "::" + (Hex(words[5]) + ":") + quad;
      assert "::" + "" + quad == "::" + quad;
    } else {
      var pos, n := LongestGap(words);
      t := TextOf(words, pos, n);
      assert GapAt(words, pos, n);
      TextIs(words, pos, n);
      buf := PrintGroups(words, pos, n);
      GroupsShort(t);
    }
    if |buf| > len { return None, t; }
    r := Some(if |buf| == len > 0 then buf[..len - 1] else buf);
  }

  lemma {:induction false} ColonsShort(l: seq<string>)
    requires forall i :: 0 <= i < |l| ==> IsGroup(l[i])
    ensures |Colons(l)| <= 5 * |l|
  {
    if l != [] { ColonsShort(l[1..]); }
  }

  lemma GroupsShort(t: Text)
    requires WellFormed(t) && t.quad.None?
    ensures |Render(t)| <= 39
  {
    ColonsShort(t.front);
    ColonsShort(t.back);
    if t.back == [] { NoColons(); }
  }

  lemma QuadShort(a: seq<nat>)
    requires |a| == 16 && (forall i :: 0 <= i < 16 ==> a[i] < 256) && forall i :: 0 <= i < 5 ==> WordsOf(a)[i] == 0
    ensures WellFormed(QuadText(a)) && |Render(QuadText(a))| <= 39
  {
    hide Value, Numeral, IsGroup, IsDecimal, Render;
    QuadTextIs(a);
    HexShort(WordsOf(a)[5]);
    DecShort(a[12]);
    DecShort(a[13]);
    DecShort(a[14]);
    DecShort(a[15]);
    DottedShort(QuadText(a).quad.value);
  }

  lemma DecShort(b: nat)
    requires b < 256
    ensures |Numeral(b, 10)| <= 3
  {
    assert |Numeral(b / 10 / 10, 10)| == 1 && |Numeral(b / 10, 10)| <= 2;
  }

  lemma DottedShort(q: seq<string>)
    requires |q| == 4 && forall i :: 0 <= i < 4 ==> |q[i]| <= 3
    ensures |Dotted(q)| <= 15
  {
    assert |DottedFrom(q, 3)| <= 4 && |DottedFrom(q, 2)| <= 8 && |DottedFrom(q, 1)| <= 12;
  }

  // ----- a text without its last character -----

  lemma {:induction false} ColonsConcat(a: seq<string>, b: seq<string>)
    ensures Colons(a + b) == Colons(a) + Colons(b)
  {
    if a == [] {
      assert a + b == b;
    } else {
      assert (a + b)[1..] == a[1..] + b;
      ColonsConcat(a[1..], b);
    }
  }

  /** A number of two digits or more loses its last one. */
  lemma NumeralCut(n: nat, base: nat)
    requires 2 <= base <= 16
    ensures Numeral(n, base) != ""
    ensures Numeral(n, base)[..|Numeral(n, base)| - 1] == if n < base then "" else Numeral(n / base, base)
    ensures n >= base ==> n / base < n
  {
    hide Numeral, DigitOf;
    NumeralIs(n, base);
    if n >= base { DivMod(n, base); }
  }

  /** An IPv4 address at the end loses a digit of its last byte. */
  lemma QuadCut(a: seq<nat>) returns (t': Text)
    requires |a| == 16 && (forall i :: 0 <= i < 16 ==> a[i] < 256) && QuadForm(WordsOf(a))
    ensures WellFormed(QuadText(a)) && Shaped(t')
    ensures var s := Render(QuadText(a)); s != "" && Spelled(s[..|s| - 1], t', false)
    ensures WellFormed(t') ==> Words(t') != Words(QuadText(a))
  {
    hide Numeral, Value, Groups, IsGroup, IsDecimal, Words, DottedFrom, WordsOf, WellFormed, Shaped;
    QuadTextIs(a);
    NumeralCut(a[15], 10);
    var t, last := QuadText(a), Numeral(a[15], 10);
    var cut := last[..|last| - 1];
    t' := t.(quad := Some(t.quad.value[3 := cut]));
    QuadOther(t, t', a[15]);
    DottedCut(t.quad.value, cut);
    CutConcat(Groups(t), Dotted(t.quad.value));
    SameGroups(t, t');
  }

  lemma CutConcat(g: string, d: string)
    requires d != ""
    ensures (g + d)[..|g + d| - 1] == g + d[..|d| - 1]
  {
  }

  lemma QuadOther(t: Text, t': Text, b: nat)
    requires WellFormed(t) && t.quad.Some? && b < 256 && t.quad.value[3] == Numeral(b, 10)
    requires t' == t.(quad := Some(t.quad.value[3 := if b < 10 then "" else Numeral(b / 10, 10)]))
    ensures Shaped(t') && (WellFormed(t') ==> Words(t') != Words(t))
  {
    hide Numeral, Value, IsGroup, IsDecimal, Words;
    DecByte(b);
    if b >= 10 { DecByte(b / 10); }
    ShapedWell(t);
    ShapedWell(t');
    if WellFormed(t') {
      LastByte(t);
      LastByte(t');
    }
  }

  lemma SameGroups(t: Text, u: Text)
    requires t.front == u.front && t.gap == u.gap && t.back == u.back
    ensures Groups(t) == Groups(u)
  {
  }

  lemma DottedCut(q: seq<string>, cut: string)
    requires |q| == 4 && q[3] != "" && cut == q[3][..|q[3]| - 1]
    ensures Dotted(q) != "" && Dotted(q[3 := cut]) == Dotted(q)[..|Dotted(q)| - 1]
  {
    var u := q[3 := cut];
    assert DottedFrom(q, 4) == "" == DottedFrom(u, 4);
    assert DottedFrom(u, 3) == "." + cut && DottedFrom(q, 3) == "." + q[3];
    assert DottedFrom(u, 3) == DottedFrom(q, 3)[..|DottedFrom(q, 3)| - 1];
    assert DottedFrom(u, 2) == DottedFrom(q, 2)[..|DottedFrom(q, 2)| - 1];
    assert DottedFrom(u, 1) == DottedFrom(q, 1)[..|DottedFrom(q, 1)| - 1];
  }

  /** The last word tells the last byte of an IPv4 address apart. */
  lemma LastByte(t: Text)
    requires WellFormed(t) && t.quad.Some?
    ensures Words(t)[7] % 256 == Size(t.quad.value[3])
  {
    hide Value, IsGroup;
    assert Words(t)[7] == QuadWords(t.quad)[1];
  }

  /** The groups that end the text. */
  function LastGroups(t: Text): seq<string>
  {
    if t.gap then t.back else t.front
  }

  function WithLast(t: Text, l: seq<string>): Text
  {
    if t.gap then t.(back := l) else t.(front := l)
  }

  /** What comes before them. */
  function Head(t: Text): string
  {
    if t.gap then Colons(t.front) + (if t.front == [] then "::" else ":") else ""
  }

  lemma HeadLast(t: Text)
    requires t.gap || t.back == []
    ensures Groups(t) == Head(t) + Colons(LastGroups(t))
  {
    hide Colons;
    NoColons();
  }

  /** A last group of two digits or more loses one of them, a shorter one is gone. */
  lemma GroupCut(t: Text, init: seq<string>, w: nat) returns (t': Text, bare: bool)
    requires WellFormed(t) && EndsInGroup(t) && w < 0x10000 && LastGroups(t) == init + [Hex(w)]
    ensures t' == WithLast(t, if w < 16 then init else init + [Hex(w / 16)]) && Shaped(t')
    ensures var s := Render(t); s != "" && Spelled(s[..|s| - 1], t', bare)
  {
    hide Value, IsGroup, Hex, Colons, Groups, Head, IsDecimal;
    bare := w >= 16;
    var cut := if w < 16 then [] else [Hex(w / 16)];
    assert init + [] == init;
    t' := WithLast(t, init + cut);
    CutShaped(t, init, w, t');
    var g, h, c := Hex(w), Head(t), Colons(init);
    HexCut(w);
    HeadLast(t);
    HeadLast(t');
    assert Head(t') == h by { SameHead(t, t'); }
    ColonsConcat(init, [g]);
    ColonsConcat(init, cut);
    OneColon(g);
    OneColon(Hex(w / 16));
    NoColons();
    var before := h + c;
    assert Groups(t) == before + g + ":";
    assert Render(t) == before + g;
    assert Render(t)[..|Render(t)| - 1] == before + g[..|g| - 1];
    assert Groups(t') == before + if w < 16 then "" else g[..|g| - 1] + ":";
    assert before + g[..|g| - 1] + ":" == before + (g[..|g| - 1] + ":");
  }

  lemma SameHead(t: Text, u: Text)
    requires t.gap == u.gap && (t.gap ==> t.front == u.front)
    ensures Head(t) == Head(u)
  {
  }

  lemma HexCut(w: nat)
    ensures Hex(w) != "" && Hex(w)[..|Hex(w)| - 1] == if w < 16 then "" else Hex(w / 16)
  {
    NumeralCut(w, 16);
  }

  lemma CutShaped(t: Text, init: seq<string>, w: nat, t': Text)
    requires WellFormed(t) && EndsInGroup(t) && w < 0x10000 && LastGroups(t) == init + [Hex(w)]
    requires t' == WithLast(t, if w < 16 then init else init + [Hex(w / 16)])
    ensures Shaped(t') && (w >= 16 ==> EndsInGroup(t')) && t'.quad == None && (t'.gap || t'.back == [])
  {
    hide IsGroup, Hex;
    if w >= 16 { HexGroup(w / 16); }
    forall i | 0 <= i < |init| ensures IsGroup(init[i]) { assert LastGroups(t)[i] == init[i]; }
  }

  /** With the last group cut the text, if it is still one, stands for other words. */
  lemma OtherWords(words: seq<nat>, g: int, n: int, init: seq<string>, w: nat, t': Text)
    requires |words| == 8 && (forall i :: 0 <= i < 8 ==> words[i] < 0x10000) && GapAt(words, g, n)
    requires var t := TextOf(words, g, n);
             WellFormed(t) && EndsInGroup(t) && LastGroups(t) == init + [Hex(w)] && w == words[7]
             && t' == WithLast(t, if w < 16 then init else init + [Hex(w / 16)])
    requires WellFormed(t')
    ensures Words(t') != words
  {
    hide Value, IsGroup, Hex;
    var t := TextOf(words, g, n);
    var l := LastGroups(t');
    HexesAre(words);
    if w >= 16 {
      assert Words(t')[7] == Word(l[|l| - 1]);
      HexGroup(w / 16);
    } else if g >= 0 {
      assert |t'.front| == g && |l| == 7 - g - n;
      assert Words(t')[g + n] == 0;
    }
  }

  /** A text printed for an address that has lost its last character is none of that
      address: nothing but a colon, or refused, or the text of another. */
  lemma CutIsOther(a: seq<nat>, t: Text) returns (t': Text, bare: bool)
    requires |a| == 16 && (forall i :: 0 <= i < 16 ==> a[i] < 256)
    requires WellFormed(t) && Canonical(a, t) && Words(t) == WordsOf(a)
    ensures Render(t) != ""
    ensures var s := Render(t)[..|Render(t)| - 1];
            s == ":" || (Shaped(t') && Spelled(s, t', bare) && (WellFormed(t') ==> Words(t') != Words(t)))
  {
    hide Render, Words, Spelled, Shaped, WellFormed;
    var words := WordsOf(a);
    bare := false;
    if QuadForm(words) {
      t' := QuadCut(a);
    } else {
      var g: int, n: int :| GapAt(words, g, n) && t == TextOf(words, g, n);
      if EndsInGroup(t) {
        var init := InitGroups(words, g, n);
        t', bare := GroupCut(t, init, words[7]);
        if WellFormed(t') { OtherWords(words, g, n, init, words[7], t'); }
      } else {
        t' := GapCut(t);
      }
    }
  }

  lemma InitGroups(words: seq<nat>, g: int, n: int) returns (init: seq<string>)
    requires |words| == 8 && GapAt(words, g, n) && EndsInGroup(TextOf(words, g, n))
    ensures LastGroups(TextOf(words, g, n)) == init + [Hex(words[7])]
  {
    hide Hex;
    init := Hexes(if g == -1 then words[..7] else words[g + n..7]);
  }

  /** A text that ends in its double colon loses half of that. */
  lemma GapCut(t: Text) returns (t': Text)
    requires WellFormed(t) && t.quad.None? && t.gap && t.back == []
    ensures Render(t) != ""
    ensures var s := Render(t)[..|Render(t)| - 1];
            s == ":" || (Shaped(t') && Spelled(s, t', false) && !WellFormed(t'))
  {
    hide Colons, IsGroup;
    NoColons();
    t' := Text(t.front, false, [], None);
    if t.front == [] {
      assert Render(t) == "::";
    } else {
      assert Render(t) == Colons(t.front) + ":";
    }
  }

  lemma OneColon(g: string)
    ensures Colons([g]) == g + ":"
  {
    assert [g][1..] == [];
  }

  lemma BytesDiffer(u: seq<nat>, v: seq<nat>)
    requires |u| == |v| && u != v
    ensures Bytes(u) != Bytes(v)
  {
    var i :| 0 <= i < |u| && u[i] != v[i];
    assert Bytes(u)[2 * i] == u[i] / 256 && Bytes(u)[2 * i + 1] == u[i] % 256;
    assert Bytes(v)[2 * i] == v[i] / 256 && Bytes(v)[2 * i + 1] == v[i] % 256;
  }

  /** Printing an address into `len` bytes and reading it again gives the address back if and
      only if there is room for its text and a zero: without room for the text nothing is
      printed, and a text cut short is not read as the address. */
  method RoundTrip(a: seq<nat>, len: nat) returns (b: Option<seq<nat>>, ghost t: Text)
    requires |a| == 16 && forall i :: 0 <= i < 16 ==> a[i] < 256
    ensures WellFormed(t) && Bytes(Words(t)) == a && |Render(t)| <= 39
    ensures b == Some(a) <==> |Render(t)| < len
    ensures |Render(t)| > len ==> b == None
    ensures len >= 40 ==> b == Some(a)
  {
    hide Words, WellFormed, Bytes, ZeroRun, Render, Shaped, Spelled, EndsInGroup, Canonical;
    var s;
    s, t := Ntop6(a, len);
    ghost var t', bare, known := t, EndsInGroup(t), Some(t);
    ShapedWell(t);
    RenderSpelled(t);
    if s == None { return None, t; }
    if |Render(t)| == len {
      t', bare := CutIsOther(a, t);
      known := if s.value == ":" then None else Some(t');
      if known.Some? && WellFormed(t') { BytesDiffer(Words(t'), Words(t)); }
    }
    ghost var u, bare';
    b, u, bare' := Pton6(s.value, known, bare);
  }

  /** The address ::1 in three bytes: what is printed is "::", the address of all zeros. */
  method CutToZero() returns (s: Option<string>, b: Option<seq<nat>>)
    ensures s == Some("::") && b == Some(seq(16, _ => 0))
  {
    hide WellFormed, Words, Render, Canonical, ZeroRun, Spelled, Shaped, Bytes;
    var a: seq<nat> := [0, 0, 0, 0, 0, 0, 0, 0, 0, 0, 0, 0, 0, 0, 0, 1];
    ghost var t;
    s, t := Ntop6(a, 3);
    OneText(a, t);
    ZeroText();
    assert "::1"[..2] == "::";
    ghost var u, bare;
    b, u, bare := Pton6(s.value, Some(Text([], true, [], None)), false);
  }

  lemma OneText(a: seq<nat>, t: Text)
    requires a == [0, 0, 0, 0, 0, 0, 0, 0, 0, 0, 0, 0, 0, 0, 0, 1]
    requires Canonical(a, t) && (t.quad.None? && !t.gap ==> forall p: nat, n: nat :: ZeroRun(WordsOf(a), p, n) ==> n <= 1)
    requires t.quad.None? && t.gap ==>
               forall p: nat, n: nat :: ZeroRun(WordsOf(a), p, n) ==>
                 n < 8 - |t.front| - |t.back| || (n == 8 - |t.front| - |t.back| && |t.front| <= p)
    ensures WellFormed(t) && Render(t) == "::1"
  {
    hide Hexes, Render, Hex, WellFormed;
    var words := WordsOf(a);
    assert words == [0, 0, 0, 0, 0, 0, 0, 1];
    assert ZeroRun(words, 0, 7);
    var g: int, n: int :| GapAt(words, g, n) && t == TextOf(words, g, n);
    if g >= 0 {
      assert words[g + n - 1] == 0;
      HexesLength(words[..g]);
      HexesLength(words[g + n..]);
      assert |t.front| == g && |t.back| == 8 - g - n;
    }
    assert g == 0 && n == 7;
    assert words[..0] == [] && words[7..] == [1];
    OneWord();
  }

  lemma OneWord()
    ensures Hexes([]) == [] && Hexes([1]) == ["1"]
    ensures var t := Text([], true, ["1"], None); WellFormed(t) && Render(t) == "::1"
  {
    OneColon("1");
    NoColons();
  }

  lemma ZeroText()
    ensures var t := Text([], true, [], None);
            WellFormed(t) && Shaped(t) && Spelled("::", t, false) && Bytes(Words(t)) == seq(16, _ => 0)
  {
  }

  /** A text that is none by section 2.2 of RFC 4291, and read as the address ::1. */
  method PrefixRead() returns (b: Option<seq<nat>>, ghost t: Text)
    ensures t.quad.None? && !IsRfc(t) && Spelled("::0x1", t, true)
    ensures b == Some([0, 0, 0, 0, 0, 0, 0, 0, 0, 0, 0, 0, 0, 0, 0, 1])
  {
    hide Shaped, WellFormed, Words, Spelled, Bytes, IsRfc;
    t := Text([], true, ["0x1"], None);
    PrefixText(t);
    ghost var u, bare;
    b, u, bare := Pton6("::0x1", Some(t), true);
  }

  lemma PrefixText(t: Text)
    requires t == Text([], true, ["0x1"], None)
    ensures !IsRfc(t) && WellFormed(t) && Shaped(t) && Spelled("::0x1", t, true)
    ensures Bytes(Words(t)) == [0, 0, 0, 0, 0, 0, 0, 0, 0, 0, 0, 0, 0, 0, 0, 1]
  {
    var g := "0x1";
    assert !IsXDigit(g[1]) && HexDigits(g) == "1" && Value("1", 16) == 1;
    OneColon(g);
    NoColons();
    assert Words(t) == [0, 0, 0, 0, 0, 0, 0, 1];
  }
}
