/** The regions of an address space: a sorted linked list with a cache of the last hit. */
module Regions {
  import opened LinkTable

  const PAGESIZE := 0x1000
  const U64 := 0x1_0000_0000_0000_0000

  function PageDown(a: nat): nat { a / PAGESIZE * PAGESIZE }

  /** Rounding up in 64 bits. */
  function PageUp(a: nat): nat { (a + PAGESIZE - 1) % U64 / PAGESIZE * PAGESIZE }

  function Max(a: nat, b: nat): nat { if a > b then a else b }
  function Min(a: nat, b: nat): nat { if a < b then a else b }

  /** Bounds of a region. */
  datatype Span = Span(start: nat, end: nat, flags: nat)
  {
    predicate Has(p: nat) { start <= p < end }

    predicate Overlaps(o: Span) { o.end > start && end > o.start }
  }

  ghost predicate SpanOk(r: Span) {
    r.start < r.end < U64 && r.start % PAGESIZE == 0 && r.end % PAGESIZE == 0
  }

  /** Sorted and disjoint. */
  ghost predicate Ordered(s: seq<Span>) {
    (forall i :: 0 <= i < |s| ==> SpanOk(s[i])) && forall i, j :: 0 <= i < j < |s| ==> s[i].end <= s[j].start
  }

  /** The region that holds p, by a full scan. */
  function Scan(s: seq<Span>, p: nat): int {
    if s == [] then -1 else if s[|s| - 1].Has(p) then |s| - 1 else Scan(s[..|s| - 1], p)
  }

  lemma {:induction false} ScanIs(s: seq<Span>, p: nat)
    ensures -1 <= Scan(s, p) < |s|
    ensures Scan(s, p) >= 0 ==> s[Scan(s, p)].Has(p)
    ensures Scan(s, p) < 0 ==> forall i :: 0 <= i < |s| ==> !s[i].Has(p)
  {
    if s != [] {
      ScanIs(s[..|s| - 1], p);
    }
  }

  ghost function SpanOf(n: Node): Span
    reads n
  {
    Span(n.start, n.end, n.flags)
  }

  ghost function SpansOf(l: seq<Node>): (s: seq<Span>)
    reads l
    ensures |s| == |l| && forall i :: 0 <= i < |s| ==> s[i] == SpanOf(l[i])
  {
    seq(|l|, i requires 0 <= i < |l| reads l => SpanOf(l[i]))
  }

  class RegionList {
    /** vmrHead. */
    const head: Node
    var count: nat
    var cache: Node?
    ghost var list: seq<Node>

    ghost function Spans(): (s: seq<Span>)
      reads this`list, list
    {
      SpansOf(list)
    }

    ghost predicate Valid()
      reads this, head, list
    {
      && Chain([head] + list) && Ordered(Spans()) && count == |list|
      && (cache != null ==> cache in list)
      && forall x :: x in list ==> x.owned
    }

    constructor ()
      ensures Valid() && list == [] && cache == null && fresh(head)
    {
      head := new Node(0, 0, 0);
      count, cache := 0, null;
      list := [];
      new;
      assert Linked([head], 0);
    }

    /** The walk of FindVMR, which stops at the first region behind p. */
    method WalkTo(p: nat) returns (r: Node?)
      requires Valid()
      ensures r == At(list, Scan(Spans(), p))
    {
      ghost var s := Spans();
      ScanIs(s, p);
      ghost var k := 0;
      assert Linked([head] + list, 0);
      var v := head.nxt;
      while v != null
        invariant k <= |list| && v == At(list, k)
        invariant forall i :: 0 <= i < k ==> s[i].end <= p
        decreases |list| - k
      {
        assert v == list[k] && s[k] == SpanOf(v);
        if p < v.start {
          NoneFrom(s, k, p);
          return null;
        } else if p < v.end {
          OneOnly(s, k, Scan(s, p), p);
          return v;
        }
        assert Linked([head] + list, k + 1);
        v := v.nxt;
        k := k + 1;
      }
      r := null;
    }

    /** FindVMR, with its cache of the last hit, agrees with the scan of all regions. */
    method FindVMR(p: nat) returns (r: Node?)
      requires Valid()
      modifies this`cache
      ensures Valid() && list == old(list)
      ensures r == At(list, Scan(Spans(), p))
      ensures r != null ==> cache == r
    {
      hide Chain, Ordered, Scan;
      if cache != null && cache.start <= p < cache.end {
        ghost var i :| 0 <= i < |list| && list[i] == cache;
        OneOnly(Spans(), i, Scan(Spans(), p), p);
        return cache;
      }
      ScanIs(Spans(), p);
      r := WalkTo(p);
      if r != null {
        cache := r;
      }
    }

    /** The walk of InsertVMR: the position k where x belongs, next to node n, or a region that
        overlaps it. */
    method FindSlot(x: Span) returns (fault: bool, n: Node?, before: bool, ghost k: nat)
      requires Valid() && SpanOk(x)
      ensures fault ==> k < |list| && Spans()[k].Overlaps(x)
      ensures !fault ==> k <= |list| && Slot(Spans(), x, k)
      ensures !fault ==> n != null && if before then k < |list| && n == list[k] else n == ([head] + list)[k]
    {
      hide Ordered, Distinct, Slot;
      ghost var s := Spans();
      fault, before, k := false, false, 0;
      assert Linked([head] + list, 0);
      if head.nxt == null {
        AllBefore(s, x, 0);
        return false, head, false, 0;
      }
      if cache != null && cache.nxt == null && cache.end <= x.start {
        k := |list|;
        LastNode();
        BehindLast(s, x);
        return false, cache, false, k;
      }
      n := head.nxt;
      while true
        invariant k < |list| && n == list[k] && !fault && !before
        invariant forall i :: 0 <= i < k ==> s[i].end <= x.start
        decreases |list| - k
      {
        assert s[k] == SpanOf(n);
        assert Linked([head] + list, k + 1);
        if x.end <= n.start {
          AheadOf(s, x, k);
          return false, n, true, k;
        } else if x.start >= n.end {
          if n.nxt == null {
            k := k + 1;
            AllBefore(s, x, k);
            return;
          } else {
            n := n.nxt;
            k := k + 1;
          }
        } else {
          return true, n, false, k;
        }
      }
    }

    /** A cached node without a successor is the last one. */
    lemma {:induction false} LastNode()
      requires Valid() && cache != null && cache.nxt == null
      ensures list != [] && cache == list[|list| - 1] == ([head] + list)[|list|]
    {
      ghost var i :| 0 <= i < |list| && list[i] == cache;
      assert Linked([head] + list, i + 1);
    }

    /** The list operation of InsertVMR. */
    method LinkIn(n: Node, v: Node, before: bool, ghost k: nat)
      requires Chain([head] + list) && v !in [head] + list && v.pre == null && v.nxt == null
      requires if before then k < |list| && n == list[k] else k <= |list| && n == ([head] + list)[k]
      modifies ([head] + list)`pre, ([head] + list)`nxt, v`pre, v`nxt
      ensures Chain([head] + (list[..k] + [v] + list[k..]))
    {
      hide Chain, Ordered;
      ghost var chain := [head] + list;
      if before {
        PreInsert(n, v, chain, k + 1);
      } else {
        NxtInsert(n, v, chain, k);
      }
      assert chain[..k + 1] + [v] + chain[k + 1..] == [head] + (list[..k] + [v] + list[k..]);
    }

    /** InsertVMR: the machine stops exactly when the new region overlaps another one. */
    method InsertVMR(v: Node) returns (fault: bool, ghost k: nat)
      requires Valid() && v !in [head] + list && v.pre == null && v.nxt == null && !v.owned && SpanOk(SpanOf(v))
      modifies this, v, head, list
      ensures fault <==> exists i :: 0 <= i < |old(list)| && old(Spans())[i].Overlaps(old(SpanOf(v)))
      ensures !fault ==> Valid() && cache == v && k <= |old(list)| && list == old(list)[..k] + [v] + old(list)[k..]
      ensures !fault ==> Spans() == old(Spans())[..k] + [old(SpanOf(v))] + old(Spans())[k..]
    {
      hide Chain, Ordered, SpanOk, Slot;
      ghost var s, x, was := Spans(), SpanOf(v), list;
      var n, before;
      fault, n, before, k := FindSlot(Span(v.start, v.end, v.flags));
      if fault {
        return;
      }
      SlotFree(s, x, k);
      v.owned := true;
      LinkIn(n, v, before, k);
      assert SpansOf(was) == s && SpanOf(v) == x;
      list := list[..k] + [v] + list[k..];
      cache := v;
      count := count + 1;
      Inserted(was, v, k);
    }

    lemma {:induction false} Inserted(was: seq<Node>, v: Node, k: nat)
      requires k <= |was| && list == was[..k] + [v] + was[k..] && Chain([head] + list) && cache == v && count == |list|
      requires Ordered(SpansOf(was)[..k] + [SpanOf(v)] + SpansOf(was)[k..]) && v.owned && forall x :: x in was ==> x.owned
      ensures Valid() && Spans() == SpansOf(was)[..k] + [SpanOf(v)] + SpansOf(was)[k..]
    {
      hide Chain, Ordered;
      SpansWith(was, k, v);
      InsertMembers(was, k, v);
    }

    /** The list operation of RemoveVMR. */
    method LinkOut(v: Node, ghost k: nat)
      requires Valid() && k < |list| && list[k] == v
      modifies ([head] + list)`pre, ([head] + list)`nxt
      ensures Chain([head] + (list[..k] + list[k + 1..])) && v.pre == null && v.nxt == null
    {
      hide Chain, Ordered;
      ghost var chain := [head] + list;
      Remove(v, chain, k + 1);
      assert chain[..k + 1] + chain[k + 2..] == [head] + (list[..k] + list[k + 1..]);
    }

    lemma {:induction false} NotLeft(k: nat)
      requires Valid() && k < |list|
      ensures list[k] !in list[..k] + list[k + 1..] && Distinct(list)
    {
      hide Chain, Ordered;
      ChainDistinct([head], list);
    }

    /** RemoveVMR: the region leaves the list and stands alone again. */
    method RemoveVMR(v: Node, ghost k: nat)
      requires Valid() && k < |list| && list[k] == v
      modifies this, head, list
      ensures Valid() && list == old(list)[..k] + old(list)[k + 1..] && v !in list
      ensures Spans() == old(Spans())[..k] + old(Spans())[k + 1..]
      ensures v.pre == null && v.nxt == null && !v.owned && SpanOf(v) == old(SpanOf(v))
    {
      hide Chain, Ordered, Distinct, SpansOf;
      ghost var s, was := Spans(), list;
      NotLeft(k);
      if cache == v {
        cache := null;
      }
      LinkOut(v, k);
      KeptMember(was, k, cache);
      list := list[..k] + list[k + 1..];
      v.owned := false;
      count := count - 1;
      RemoveOrdered(s, k);
      assert SpansOf(was) == s;
      SpansWithout(was, k);
    }

    /** GetUsableVMR. */
    method GetUsableVMR(start: nat, end: nat, length: nat) returns (r: nat)
      requires Valid() && start < U64 && end < U64 && length < U64
      ensures r == Usable(Spans(), start, end, length)
    {
      hide Ordered, Distinct;
      ghost var s := Spans();
      if start >= end || length == 0 || end - start < length {
        return 0;
      }
      var lo, hi, len := PageDown(start), PageUp(end), PageUp(length);
      assert Linked([head] + list, 0);
      if head.nxt == null || (Max(PAGESIZE * 4, lo) + len) % U64 <= Min(head.nxt.start, hi) {
        return Max(PAGESIZE * 4, lo);
      }
      var v := head.nxt;
      ghost var k := 0;
      while v != null
        invariant k <= |list| && v == At(list, k) && list != []
        invariant UsableFrom(s, 0, lo, hi, len) == UsableFrom(s, k, lo, hi, len)
        decreases |list| - k
      {
        assert Linked([head] + list, k + 1);
        if v.nxt == null {
          return 0;
        } else if (Max(v.end, lo) + len) % U64 <= Min(v.nxt.start, hi) {
          return Max(v.end, lo);
        }
        v := v.nxt;
        k := k + 1;
      }
      r := 0;
    }

    lemma {:induction false} FirstIs()
      requires Valid()
      ensures head.nxt == At(list, 0)
    {
      hide Ordered, Distinct;
      assert Linked([head] + list, 0);
    }

    /** ClearVMR: regions are removed from the front until none is left. */
    method ClearVMR()
      requires Valid()
      modifies this, head, list
      ensures Valid() && list == [] && count == 0
    {
      hide Ordered, Chain, SpansOf, Valid;
      ghost var all, n := list, 0;
      FirstIs();
      while head.nxt != null
        invariant Valid() && head.nxt == At(list, 0) && n <= |all| && list == all[n..]
        decreases |list|
      {
        RestOf(all, n);
        RemoveVMR(head.nxt, 0);
        n := n + 1;
        FirstIs();
      }
      NoneIs();
    }

    lemma {:induction false} NoneIs()
      requires Valid() && head.nxt == At(list, 0) && head.nxt == null
      ensures list == [] && count == 0
    {
      hide Ordered, Chain;
    }
  }

  lemma {:induction false} RestOf(all: seq<Node>, n: nat)
    requires n <= |all|
    ensures forall x :: x in all[n..] ==> x in all
    ensures n < |all| ==> all[n..][..0] + all[n..][1..] == all[n + 1..]
  {}

  lemma {:induction false} ChainDistinct(a: seq<Node>, b: seq<Node>)
    requires Chain(a + b)
    ensures Distinct(b)
  {
    forall i, j | 0 <= i < j < |b| ensures b[i] != b[j] {
      assert (a + b)[|a| + i] == b[i] && (a + b)[|a| + j] == b[j];
    }
  }

  lemma {:induction false} SpansWith(l: seq<Node>, k: nat, v: Node)
    requires k <= |l|
    ensures SpansOf(l[..k] + [v] + l[k..]) == SpansOf(l)[..k] + [SpanOf(v)] + SpansOf(l)[k..]
  {}

  lemma {:induction false} SpansWithout(l: seq<Node>, k: nat)
    requires k < |l|
    ensures SpansOf(l[..k] + l[k + 1..]) == SpansOf(l)[..k] + SpansOf(l)[k + 1..]
  {}

  /** x fits between the regions before position k and those from k on. */
  ghost predicate Slot(s: seq<Span>, x: Span, k: nat) {
    k <= |s| && (forall i :: 0 <= i < k ==> s[i].end <= x.start) && (forall i :: k <= i < |s| ==> x.end <= s[i].start)
  }

  lemma {:induction false} AllBefore(s: seq<Span>, x: Span, k: nat)
    requires k == |s| && forall i :: 0 <= i < k ==> s[i].end <= x.start
    ensures Slot(s, x, k)
  {}

  lemma {:induction false} AheadOf(s: seq<Span>, x: Span, k: nat)
    requires Ordered(s) && k < |s| && x.end <= s[k].start && forall i :: 0 <= i < k ==> s[i].end <= x.start
    ensures Slot(s, x, k)
  {
    forall i | k <= i < |s| ensures x.end <= s[i].start {
      assert SpanOk(s[k]) && (i > k ==> s[k].end <= s[i].start);
    }
  }

  lemma {:induction false} BehindLast(s: seq<Span>, x: Span)
    requires Ordered(s) && s != [] && s[|s| - 1].end <= x.start
    ensures Slot(s, x, |s|)
  {
    forall i | 0 <= i < |s| ensures s[i].end <= x.start {
      assert SpanOk(s[|s| - 1]) && (i < |s| - 1 ==> s[i].end <= s[|s| - 1].start);
    }
  }

  lemma {:induction false} SlotFree(s: seq<Span>, x: Span, k: nat)
    requires Ordered(s) && SpanOk(x) && Slot(s, x, k)
    ensures Ordered(s[..k] + [x] + s[k..])
    ensures forall i :: 0 <= i < |s| ==> !s[i].Overlaps(x)
  {}

  lemma {:induction false} RemoveOrdered(s: seq<Span>, k: nat)
    requires Ordered(s) && k < |s|
    ensures Ordered(s[..k] + s[k + 1..])
  {}

  lemma {:induction false} InsertMembers(s: seq<Node>, k: nat, v: Node)
    requires k <= |s|
    ensures v in s[..k] + [v] + s[k..]
    ensures forall x :: x in s[..k] + [v] + s[k..] ==> x == v || x in s
  {
    assert (s[..k] + [v] + s[k..])[k] == v;
  }

  lemma {:induction false} KeptMember(s: seq<Node>, k: nat, c: Node?)
    requires k < |s| && Distinct(s) && c != s[k]
    ensures c != null && c in s ==> c in s[..k] + s[k + 1..]
    ensures s[k] !in s[..k] + s[k + 1..]
    ensures forall x :: x in s[..k] + s[k + 1..] ==> x in s
  {
    assert s == s[..k] + [s[k]] + s[k + 1..];
  }

  /** The gap behind region k or a later one that holds `len` bytes, or 0; the gap behind the
      last region is not considered. */
  function UsableFrom(s: seq<Span>, k: nat, lo: nat, hi: nat, len: nat): nat
    decreases |s| - k
  {
    if k + 1 >= |s| then 0
    else if (Max(s[k].end, lo) + len) % U64 <= Min(s[k + 1].start, hi) then Max(s[k].end, lo)
    else UsableFrom(s, k + 1, lo, hi, len)
  }

  function Usable(s: seq<Span>, start: nat, end: nat, length: nat): nat {
    if start >= end || length == 0 || end - start < length then 0
    else
      var lo, hi, len := PageDown(start), PageUp(end), PageUp(length);
      if s == [] || (Max(PAGESIZE * 4, lo) + len) % U64 <= Min(s[0].start, hi) then Max(PAGESIZE * 4, lo)
      else UsableFrom(s, 0, lo, hi, len)
  }

  /** A place for `length` bytes: whole pages inside the page-rounded bounds that no region touches. */
  ghost predicate GoodPlace(s: seq<Span>, start: nat, end: nat, length: nat, r: nat) {
    var len := PageUp(length);
    && r % PAGESIZE == 0 && length <= len && PageDown(start) <= r && r + len <= PageUp(end)
    && forall i :: 0 <= i < |s| ==> s[i].end <= r || r + len <= s[i].start
  }

  /** The bytes r .. e lie behind region j (if any) and before the next one. */
  ghost predicate Gap(s: seq<Span>, j: int, r: nat, e: nat) {
    -1 <= j && j + 1 < |s| && (j >= 0 ==> s[j].end <= r) && e <= s[j + 1].start
  }

  ghost predicate HasGap(s: seq<Span>, r: nat, e: nat) {
    exists j :: Gap(s, j, r, e)
  }

  lemma {:induction false} UsableGap(s: seq<Span>, k: nat, lo: nat, hi: nat, len: nat)
    requires Ordered(s) && lo % PAGESIZE == 0 && UsableFrom(s, k, lo, hi, len) != 0
    ensures var r := UsableFrom(s, k, lo, hi, len);
            r % PAGESIZE == 0 && lo <= r && (r + len) % U64 <= hi && HasGap(s, r, (r + len) % U64)
    decreases |s| - k
  {
    if (Max(s[k].end, lo) + len) % U64 <= Min(s[k + 1].start, hi) {
      assert SpanOk(s[k]);
      assert Gap(s, k, Max(s[k].end, lo), (Max(s[k].end, lo) + len) % U64);
    } else {
      UsableGap(s, k + 1, lo, hi, len);
    }
  }

  lemma {:induction false} Apart(s: seq<Span>, j: int, r: nat, e: nat)
    requires Ordered(s) && Gap(s, j, r, e)
    ensures forall i :: 0 <= i < |s| ==> s[i].end <= r || e <= s[i].start
  {
    forall i | 0 <= i < |s| ensures s[i].end <= r || e <= s[i].start {
      assert SpanOk(s[i]) && SpanOk(s[j + 1]) && (j >= 0 ==> SpanOk(s[j]));
    }
  }

  lemma {:induction false} UsablePlace(s: seq<Span>, start: nat, end: nat, length: nat)
    requires Ordered(s) && s != [] && Usable(s, start, end, length) != 0
    ensures var r, len := Usable(s, start, end, length), PageUp(length);
            r % PAGESIZE == 0 && PageDown(start) <= r && (r + len) % U64 <= PageUp(end)
            && HasGap(s, r, (r + len) % U64)
  {
    hide PageUp, PageDown, UsableFrom;
    var r := Usable(s, start, end, length);
    var lo, hi, len := PageDown(start), PageUp(end), PageUp(length);
    PageDownIs(start);
    if (Max(PAGESIZE * 4, lo) + len) % U64 <= Min(s[0].start, hi) {
      assert Gap(s, -1, r, (r + len) % U64);
    } else {
      UsableGap(s, 0, lo, hi, len);
    }
  }

  /** The last page boundary up to a. */
  lemma {:induction false} PageDownIs(a: nat)
    ensures PageDown(a) % 0x1000 == 0 && PageDown(a) <= a < PageDown(a) + 0x1000
  {}

  /** The start that the search tries in front of region 0, or behind region k. */
  function Candidate(s: seq<Span>, lo: nat, k: int): nat
    requires -1 <= k < |s|
  {
    Max(if k < 0 then PAGESIZE * 4 else s[k].end, lo)
  }

  /** The search's test of a candidate, computed in 64 bits. */
  predicate Passes(s: seq<Span>, lo: nat, hi: nat, len: nat, k: int)
    requires -1 <= k && k + 1 < |s|
  {
    (Candidate(s, lo, k) + len) % U64 <= Min(s[k + 1].start, hi)
  }

  /** Candidate k is the first one that passes. */
  predicate FirstPass(s: seq<Span>, lo: nat, hi: nat, len: nat, k: int) {
    -1 <= k && k + 1 < |s| && Passes(s, lo, hi, len, k) && forall j :: -1 <= j < k ==> !Passes(s, lo, hi, len, j)
  }

  lemma {:induction false} FirstFrom(s: seq<Span>, lo: nat, hi: nat, len: nat, i: nat)
    requires i < |s| && forall j :: -1 <= j < i ==> !Passes(s, lo, hi, len, j)
    ensures UsableFrom(s, i, lo, hi, len) != 0 ==> exists k :: FirstPass(s, lo, hi, len, k)
    ensures forall k :: FirstPass(s, lo, hi, len, k) ==> UsableFrom(s, i, lo, hi, len) == Candidate(s, lo, k)
    decreases |s| - i
  {
    if i + 1 < |s| {
      if Passes(s, lo, hi, len, i) {
        assert FirstPass(s, lo, hi, len, i);
      } else {
        FirstFrom(s, lo, hi, len, i + 1);
      }
    }
  }

  /** The requests that the search takes up. */
  predicate Asked(start: nat, end: nat, length: nat) { start < end < 0x1_0000_0000_0000_0000 && 0 < length <= end - start }

  /** On a space with regions the answer is the first candidate that passes, and 0 when none does. */
  lemma {:induction false} UsableIsFirst(s: seq<Span>, start: nat, end: nat, length: nat)
    requires s != []
    ensures var lo, hi, len := PageDown(start), PageUp(end), PageUp(length);
      Asked(start, end, length) ==>
        && (forall k :: FirstPass(s, lo, hi, len, k) ==> Usable(s, start, end, length) == Candidate(s, lo, k))
        && (Usable(s, start, end, length) != 0 ==> exists k :: FirstPass(s, lo, hi, len, k))
    ensures end < U64 && Usable(s, start, end, length) != 0 ==> Asked(start, end, length)
  {
    hide PageUp, PageDown, UsableFrom;
    var lo, hi, len := PageDown(start), PageUp(end), PageUp(length);
    if Passes(s, lo, hi, len, -1) {
      assert FirstPass(s, lo, hi, len, -1);
    } else {
      FirstFrom(s, lo, hi, len, 0);
    }
  }

  /** The answer is a good place exactly when the first candidate that passes the test ends below 2^64,
      that is when it does not pass by wrapping around. */
  lemma {:induction false} UsableIsGood(s: seq<Span>, start: nat, end: nat, length: nat, k: int)
    requires Ordered(s) && s != [] && Asked(start, end, length)
    requires FirstPass(s, PageDown(start), PageUp(end), PageUp(length), k)
    ensures Usable(s, start, end, length) == Candidate(s, PageDown(start), k) > 0
    ensures GoodPlace(s, start, end, length, Usable(s, start, end, length))
            <==> Candidate(s, PageDown(start), k) + PageUp(length) < 0x1_0000_0000_0000_0000
  {
    hide PageUp, PageDown, Usable, Ordered, Gap, FirstPass, Candidate;
    UsableIsFirst(s, start, end, length);
    FirstInside(s, PageDown(start), PageUp(end), PageUp(length), k);
    CandidatePositive(s, PageDown(start), k);
    var r, len := Usable(s, start, end, length), PageUp(length);
    PageUpIs(length);
    PageUpIs(end);
    UsablePlace(s, start, end, length);
    var j :| Gap(s, j, r, (r + len) % U64);
    if r + len < U64 {
      LengthFits(s, start, end, length, k);
      Apart(s, j, r, r + len);
    }
  }

  lemma {:induction false} CandidatePositive(s: seq<Span>, lo: nat, k: int)
    requires Ordered(s) && -1 <= k < |s|
    ensures Candidate(s, lo, k) > 0
  {
    if k >= 0 { assert SpanOk(s[k]); }
  }

  /** A length that cannot be rounded leaves an end that cannot be, either. */
  lemma {:induction false} HugeLength(start: nat, end: nat, length: nat)
    requires Asked(start, end, length)
    ensures length > U64 - PAGESIZE ==> PageUp(length) == 0 && PageUp(end) == 0
  {}

  lemma {:induction false} LengthFits(s: seq<Span>, start: nat, end: nat, length: nat, k: int)
    requires Ordered(s) && Asked(start, end, length) && FirstPass(s, PageDown(start), PageUp(end), PageUp(length), k)
    requires Candidate(s, PageDown(start), k) + PageUp(length) < U64
    ensures length <= U64 - PAGESIZE
  {
    CandidatePositive(s, PageDown(start), k);
    HugeLength(start, end, length);
  }

  /** When even the last region's end, and the lowest start, leave room for the length below 2^64, every
      answer but 0 is a good place. */
  lemma {:induction false} UsableBelow(s: seq<Span>, start: nat, end: nat, length: nat)
    requires Ordered(s) && s != [] && end < U64 && Usable(s, start, end, length) != 0
    requires Max(Max(PAGESIZE * 4, PageDown(start)), s[|s| - 1].end) + PageUp(length) < U64
    ensures GoodPlace(s, start, end, length, Usable(s, start, end, length))
  {
    hide PageUp, PageDown, Usable, GoodPlace, FirstPass;
    UsableIsFirst(s, start, end, length);
    var lo, hi, len := PageDown(start), PageUp(end), PageUp(length);
    var k :| FirstPass(s, lo, hi, len, k);
    FirstInside(s, lo, hi, len, k);
    UsableIsGood(s, start, end, length, k);
  }

  lemma {:induction false} FirstInside(s: seq<Span>, lo: nat, hi: nat, len: nat, k: int)
    requires Ordered(s) && FirstPass(s, lo, hi, len, k)
    ensures -1 <= k < |s| - 1 && (k >= 0 ==> s[k].end <= s[|s| - 1].end)
  {
    if k >= 0 { assert SpanOk(s[|s| - 1]) && SpanOk(s[k]); }
  }

  /** One region at 0x10000: a length just below 2^64 wraps around, passes and is answered by 0x4000. */
  lemma {:induction false} UsableWraps()
    ensures var s, end, length := [Span(0x1_0000, 0x1_1000, 0)], 0xFFFF_FFFF_FFFF_E000, 0xFFFF_FFFF_FFFF_D000;
      Ordered(s) && Asked(0, end, length) && Usable(s, 0, end, length) == 0x4000 && !GoodPlace(s, 0, end, length, 0x4000)
  {}

  /** Without regions the lowest start is answered whatever the end is: a good place exactly when the
      rounded length fits before the rounded end. */
  lemma {:induction false} UsableEmpty(start: nat, end: nat, length: nat)
    requires Asked(start, end, length)
    ensures Usable([], start, end, length) == Max(0x4000, PageDown(start))
    ensures GoodPlace([], start, end, length, Usable([], start, end, length))
            <==> Max(PAGESIZE * 4, PageDown(start)) + PageUp(length) <= PageUp(end)
  {
    hide PageUp, PageDown;
    PageDownIs(start);
    PageUpIs(length);
    HugeLength(start, end, length);
  }

  /** One page below 0x2000 is asked for, and 0x4000 is answered. */
  lemma {:induction false} UsableBeyond()
    ensures Asked(0, 0x2000, 0x1000) && Usable([], 0, 0x2000, 0x1000) == 0x4000
            && !GoodPlace([], 0, 0x2000, 0x1000, 0x4000)
  {}

  /** The first page boundary from a on, or 0 when that is 2^64. */
  lemma {:induction false} PageUpIs(a: nat)
    requires a < 0x1_0000_0000_0000_0000
    ensures if a <= 0xFFFF_FFFF_FFFF_F000 then PageUp(a) % 0x1000 == 0 && a <= PageUp(a) < a + 0x1000 else PageUp(a) == 0
  {}

  lemma {:induction false} OneOnly(s: seq<Span>, i: int, j: int, p: nat)
    requires Ordered(s) && 0 <= i < |s| && s[i].Has(p) && j == Scan(s, p)
    ensures j == i
  {
    ScanIs(s, p);
  }

  lemma {:induction false} NoneFrom(s: seq<Span>, k: nat, p: nat)
    requires Ordered(s) && k < |s| && p < s[k].start && forall i :: 0 <= i < k ==> s[i].end <= p
    ensures Scan(s, p) == -1
  {
    ScanIs(s, p);
  }
}
