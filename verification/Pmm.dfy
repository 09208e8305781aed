/** The physical page allocator: a table of page records updated in place. */
module Pmm {
  import opened PmmSpec

  const PAGESIZE := 0x1000

  /** sizeof(PAGE): five 64-bit words. */
  const RECORD := 40

  /** The records hold the lengths of their runs; taken runs have nonzero flags. */
  ghost predicate Tagged(ps: seq<Page>, r: Runs) {
    forall h :: h in r.lens ==> h < |ps| && ps[h].num == r.lens[h] && (h !in r.free ==> ps[h].flags != 0)
  }

  /** The k-th pointer along the free list, counting the list head as -1. */
  function PtrAt(free: seq<nat>, k: int): Ptr {
    if k < 0 then Head else if k < |free| then At(free[k]) else Null
  }

  ghost predicate LinksAt(ps: seq<Page>, free: seq<nat>, k: nat)
    requires k < |free|
  {
    free[k] < |ps| && ps[free[k]].pre == PtrAt(free, k - 1) && ps[free[k]].nxt == PtrAt(free, k + 1)
  }

  /** The list runs through the free runs in address order, in both directions. */
  ghost predicate Linked(ps: seq<Page>, head: Page, free: seq<nat>) {
    head.nxt == PtrAt(free, 0) && forall k: nat :: k < |free| ==> LinksAt(ps, free, k)
  }

  ghost predicate Fits(r: Runs, nums: nat, k: nat) {
    k < |r.free| && r.free[k] in r.lens && nums <= r.lens[r.free[k]]
  }

  /** The k-th free run is the first that is long enough. */
  ghost predicate FirstFit(r: Runs, nums: nat, k: nat) {
    Fits(r, nums, k) && forall i: nat :: i < k ==> !Fits(r, nums, i)
  }

  /** The number of pages malloc asks for: a C int. */
  function NeedPages(bytesize: nat): int {
    ToInt(ToInt(bytesize / PAGESIZE) + if bytesize % PAGESIZE != 0 then 1 else 0)
  }

  /** A conversion to Uint64. */
  function ToU64(x: int): nat { x % 0x1_0000_0000_0000_0000 }

  function ToInt(x: int): int {
    (x + 0x8000_0000) % 0x1_0000_0000 - 0x8000_0000
  }

  /** The page count as alloc_pages gets it. */
  function Count(bytesize: nat): nat { ToU64(NeedPages(bytesize)) }

  /** The pages cover the bytes, with less than a page to spare, exactly for sizes whose page
      count is an int. */
  lemma {:induction false} EnoughPages(bytesize: nat)
    ensures 0 <= NeedPages(bytesize) * 0x1000 - bytesize < 0x1000 <==> bytesize <= 0x7FFF_FFFF * 0x1000
    ensures Count(bytesize) == NeedPages(bytesize) + if NeedPages(bytesize) < 0 then 0x1_0000_0000_0000_0000 else 0
  {
    var q, r := bytesize / PAGESIZE, bytesize % PAGESIZE;
    var c := q + if r != 0 then 1 else 0;
    assert c <= 0x7FFF_FFFF <==> bytesize <= 0x7FFF_FFFF * PAGESIZE;
    assert (NeedPages(bytesize) - c) % 0x1_0000_0000 == 0;
  }

  // ----- list surgery

  ghost predicate Distinct(s: seq<nat>) {
    forall i, j :: 0 <= i < j < |s| ==> s[i] != s[j]
  }

  lemma {:induction false} SortedDistinct(s: seq<nat>)
    requires Sorted(s)
    ensures Distinct(s)
  {}

  /** Is record i the one at position k? */
  predicate IsAt(free: seq<nat>, k: int, i: nat) { 0 <= k < |free| && i == free[k] }

  /** Outside `ex`, only two links change: the next of position lo to p, the previous of hi to q. */
  ghost predicate Rewired(ps: seq<Page>, ps': seq<Page>, free: seq<nat>, lo: int, p: Ptr, hi: int, q: Ptr, ex: set<nat>) {
    |ps| == |ps'| && forall i: nat :: i < |ps| && i !in ex ==>
      && ps'[i].nxt == (if IsAt(free, lo, i) then p else ps[i].nxt)
      && ps'[i].pre == (if IsAt(free, hi, i) then q else ps[i].pre)
  }

  /** Record x takes the k-th place. */
  lemma {:induction false} Replaced(ps: seq<Page>, head: Page, ps': seq<Page>, head': Page, free: seq<nat>, k: nat, x: nat)
    requires Linked(ps, head, free) && Distinct(free) && k < |free| && x < |ps| == |ps'| && x !in free
    requires head'.nxt == if k == 0 then At(x) else head.nxt
    requires ps'[x].pre == PtrAt(free, k - 1) && ps'[x].nxt == PtrAt(free, k + 1)
    requires Rewired(ps, ps', free, k - 1, At(x), k + 1, At(x), {x, free[k]})
    ensures Linked(ps', head', free[k := x])
  {
    var f := free[k := x];
    forall j: nat | j < |f| ensures LinksAt(ps', f, j) {
      assert LinksAt(ps, free, j);
      assert j != k ==> free[j] in free && free[j] !in {x, free[k]};
    }
  }

  /** The k-th record leaves the list. */
  lemma {:induction false} Removed(ps: seq<Page>, head: Page, ps': seq<Page>, head': Page, free: seq<nat>, k: nat)
    requires Linked(ps, head, free) && Distinct(free) && k < |free| && |ps| == |ps'|
    requires head'.nxt == if k == 0 then PtrAt(free, 1) else head.nxt
    requires Rewired(ps, ps', free, k - 1, PtrAt(free, k + 1), k + 1, PtrAt(free, k - 1), {free[k]})
    ensures Linked(ps', head', free[..k] + free[k + 1..])
  {
    var f := free[..k] + free[k + 1..];
    forall j: nat | j < |f| ensures LinksAt(ps', f, j) {
      var i := if j < k then j else j + 1;
      assert LinksAt(ps, free, i) && f[j] == free[i];
      assert free[i] !in {free[k]};
      assert PtrAt(free, i + 1) == if i + 1 == k then At(free[k]) else PtrAt(f, j + 1);
      assert PtrAt(free, i - 1) == if i - 1 == k then At(free[k]) else PtrAt(f, j - 1);
    }
  }

  /** Record h enters the list at position k. */
  lemma {:induction false} Entered(ps: seq<Page>, head: Page, ps': seq<Page>, head': Page, free: seq<nat>, k: nat, h: nat)
    requires Linked(ps, head, free) && Distinct(free) && k <= |free| && h < |ps| == |ps'| && h !in free
    requires head'.nxt == if k == 0 then At(h) else head.nxt
    requires ps'[h].pre == PtrAt(free, k - 1) && ps'[h].nxt == PtrAt(free, k)
    requires Rewired(ps, ps', free, k - 1, At(h), k, At(h), {h})
    ensures Linked(ps', head', free[..k] + [h] + free[k..])
  {
    var f := free[..k] + [h] + free[k..];
    forall j: nat | j < |f| ensures LinksAt(ps', f, j) {
      if j != k {
        var i := if j < k then j else j - 1;
        assert LinksAt(ps, free, i) && f[j] == free[i] && free[i] in free;
        assert PtrAt(f, j + 1) == if j + 1 == k then At(h) else PtrAt(free, i + 1);
        assert PtrAt(f, j - 1) == if j - 1 == k then At(h) else PtrAt(free, i - 1);
      }
    }
  }

  function HeadNxt(head: Page, p: Ptr, v: Ptr): Page {
    if p.Head? then head.(nxt := v) else head
  }

  function WithNxt(ps: seq<Page>, p: Ptr, v: Ptr): (r: seq<Page>)
    ensures |r| == |ps|
  {
    if p.At? && p.i < |ps| then ps[p.i := ps[p.i].(nxt := v)] else ps
  }

  function WithPre(ps: seq<Page>, p: Ptr, v: Ptr): (r: seq<Page>)
    ensures |r| == |ps|
  {
    if p.At? && p.i < |ps| then ps[p.i := ps[p.i].(pre := v)] else ps
  }

  /** The table after the first `nums` pages of free run h were cut off. */
  function CutOf(ps: seq<Page>, h: nat, nums: nat): seq<Page>
    requires h < |ps| && h + nums < |ps| && nums <= ps[h].num
  {
    var np := At(h + nums);
    var p1 := ps[h := ps[h].(num := nums)];
    var p2 := WithNxt(p1, p1[h].pre, np);
    var p3 := WithPre(p2, p2[h].nxt, np);
    var p4 := p3[h + nums := p3[h + nums].(pre := p3[h].pre, nxt := p3[h].nxt, num := ps[h].num - nums)];
    p4[h := p4[h].(flags := 1)]
  }

  /** The table after run h left the list. */
  function UnlinkOf(ps: seq<Page>, h: nat): seq<Page>
    requires h < |ps|
  {
    var p1 := WithNxt(ps, ps[h].pre, ps[h].nxt);
    var p2 := WithPre(p1, p1[h].nxt, p1[h].pre);
    p2[h := p2[h].(flags := 1)]
  }

  /** Asking for no pages: the run that is handed out keeps its length and its place, so the list
      still leads to it. */
  lemma {:induction false} ZeroPages(ps: seq<Page>, head: Page, r: Runs, k: nat)
    requires RunsOk(|ps|, r) && Tagged(ps, r) && Linked(ps, head, r.free) && k < |r.free| && r.free[k] in r.lens
    ensures var h := r.free[k];
            h < |ps| && CutOf(ps, h, 0)[h] == ps[h].(flags := 1)
            && (if k == 0 then HeadNxt(head, ps[h].pre, At(h)).nxt == At(h)
                else r.free[k - 1] < |ps| && CutOf(ps, h, 0)[r.free[k - 1]].nxt == At(h))
  {
    hide RunsOk;
    LinkFacts(ps, head, r, k, 0);
  }

  /** Record h marked as taken. */
  function Flagged(ps: seq<Page>, h: nat): seq<Page>
    requires h < |ps|
  {
    ps[h := ps[h].(flags := 1)]
  }

  /** Cutting no pages off only marks the run. */
  lemma {:induction false} CutNothing(ps: seq<Page>, head: Page, r: Runs, k: nat)
    requires RunsOk(|ps|, r) && Tagged(ps, r) && Linked(ps, head, r.free) && k < |r.free| && r.free[k] in r.lens
    ensures var h := r.free[k];
            && h < |ps| && CutOf(ps, h, 0) == Flagged(ps, h) && HeadNxt(head, ps[h].pre, At(h)) == head
            && Linked(Flagged(ps, h), head, r.free) && Tagged(Flagged(ps, h), r)
  {
    hide RunsOk, Distinct;
    LinkFacts(ps, head, r, k, 0);
    var h: nat := r.free[k];
    if k > 0 { assert LinksAt(ps, r.free, k - 1); }
    if k + 1 < |r.free| { assert LinksAt(ps, r.free, k + 1); }
    forall j: nat | j < |r.free| ensures LinksAt(Flagged(ps, h), r.free, j) { assert LinksAt(ps, r.free, j); }
  }

  lemma {:induction false} CutPages(ps: seq<Page>, head: Page, r: Runs, k: nat, nums: nat)
    requires RunsOk(|ps|, r) && Tagged(ps, r) && Linked(ps, head, r.free) && k < |r.free| && r.free[k] in r.lens
    requires 0 < nums < r.lens[r.free[k]]
    ensures var h := r.free[k];
            h < |ps| && h + nums < |ps| && nums <= ps[h].num
            && Linked(CutOf(ps, h, nums), HeadNxt(head, ps[h].pre, At(h + nums)), TakeOf(r, k, nums).free)
            && Tagged(CutOf(ps, h, nums), TakeOf(r, k, nums))
  {
    hide RunsOk, Distinct, CutOf, Rewired;
    LinkFacts(ps, head, r, k, nums);
    var h: nat := r.free[k];
    var np := h + nums;
    var ps' := CutOf(ps, h, nums);
    CutRewired(ps, r.free, k, nums);
    Replaced(ps, head, ps', HeadNxt(head, ps[h].pre, At(np)), r.free, k, np);
    CutTags(ps, ps', r, k, nums);
  }

  /** The guard of PMM::free_pages. */
  predicate Refused(p: Page) { p.num == 0 || p.flags == 0 }

  /** The free rest of a run that is cut is refused by a second free exactly when its first record
      has zero flags: a split leaves there what an earlier owner painted. */
  lemma {:induction false} RestRefused(ps: seq<Page>, head: Page, r: Runs, k: nat, nums: nat)
    requires RunsOk(|ps|, r) && Tagged(ps, r) && Linked(ps, head, r.free) && k < |r.free| && r.free[k] in r.lens
    requires 0 < nums < r.lens[r.free[k]]
    ensures var h := r.free[k];
            h + nums < |ps| && nums <= ps[h].num && !Live(TakeOf(r, k, nums), h + nums)
            && (Refused(CutOf(ps, h, nums)[h + nums]) <==> ps[h + nums].flags == 0)
  {
    hide RunsOk, Distinct, Rewired;
    LinkFacts(ps, head, r, k, nums);
    assert TakeOf(r, k, nums).free[k] == r.free[k] + nums;
  }

  lemma {:induction false} CutRewired(ps: seq<Page>, free: seq<nat>, k: nat, nums: nat)
    requires k < |free| && free[k] < |ps| && free[k] + nums < |ps| && nums <= ps[free[k]].num
    requires (forall j: nat :: j < |free| ==> free[j] < |ps|) && free[k] + nums !in free && nums > 0
    requires forall i, j :: 0 <= i < j < |free| ==> free[i] != free[j]
    requires ps[free[k]].pre == PtrAt(free, k - 1) && ps[free[k]].nxt == PtrAt(free, k + 1)
    ensures var h, np := free[k], free[k] + nums;
            var ps' := CutOf(ps, h, nums);
            |ps'| == |ps| && Rewired(ps, ps', free, k - 1, At(np), k + 1, At(np), {np, h})
            && ps'[np].pre == PtrAt(free, k - 1) && ps'[np].nxt == PtrAt(free, k + 1) && ps'[np].num == ps[h].num - nums
            && ps'[h].num == nums && ps'[h].flags != 0
            && forall i :: 0 <= i < |ps| && i != h && i != np ==> ps'[i].num == ps[i].num && ps'[i].flags == ps[i].flags
  {}

  lemma {:induction false} CutTags(ps: seq<Page>, ps': seq<Page>, r: Runs, k: nat, nums: nat)
    requires Tagged(ps, r) && k < |r.free| && r.free[k] in r.lens && 0 < nums < r.lens[r.free[k]] && |ps| == |ps'|
    requires var h := r.free[k];
             h + nums < |ps| && ps'[h].num == nums && ps'[h].flags != 0 && ps'[h + nums].num == r.lens[h] - nums
             && forall i :: 0 <= i < |ps| && i != h && i != h + nums ==> ps'[i].num == ps[i].num && ps'[i].flags == ps[i].flags
    ensures Tagged(ps', TakeOf(r, k, nums))
  {
    var t := TakeOf(r, k, nums);
    forall g | g in t.lens ensures g < |ps'| && ps'[g].num == t.lens[g] && (g !in t.free ==> ps'[g].flags != 0) {
      if g == r.free[k] + nums {
        assert t.free[k] == g;
      } else if g != r.free[k] {
        assert g in r.lens;
        if g in r.free {
          var i :| 0 <= i < |r.free| && r.free[i] == g;
          assert t.free[i] == g;
        }
      }
    }
  }

  lemma {:induction false} UnlinkPages(ps: seq<Page>, head: Page, r: Runs, k: nat)
    requires RunsOk(|ps|, r) && Tagged(ps, r) && Linked(ps, head, r.free) && k < |r.free| && r.free[k] in r.lens && r.lens[r.free[k]] > 0
    ensures var h := r.free[k];
            h < |ps|
            && Linked(UnlinkOf(ps, h), HeadNxt(head, ps[h].pre, ps[h].nxt), TakeOf(r, k, r.lens[h]).free)
            && Tagged(UnlinkOf(ps, h), TakeOf(r, k, r.lens[h]))
  {
    hide RunsOk, Distinct;
    var h: nat := r.free[k];
    LinkFacts(ps, head, r, k, r.lens[h]);
    var ps' := UnlinkOf(ps, h);
    assert Rewired(ps, ps', r.free, k - 1, PtrAt(r.free, k + 1), k + 1, PtrAt(r.free, k - 1), {h});
    Removed(ps, head, ps', HeadNxt(head, ps[h].pre, ps[h].nxt), r.free, k);
    UnlinkTags(ps, ps', r, k);
  }

  lemma {:induction false} UnlinkTags(ps: seq<Page>, ps': seq<Page>, r: Runs, k: nat)
    requires Tagged(ps, r) && k < |r.free| && r.free[k] in r.lens && r.lens[r.free[k]] > 0 && |ps| == |ps'| && r.free[k] < |ps|
    requires ps'[r.free[k]].flags != 0
    requires forall i :: 0 <= i < |ps| ==> ps'[i].num == ps[i].num && (i != r.free[k] ==> ps'[i].flags == ps[i].flags)
    ensures Tagged(ps', TakeOf(r, k, r.lens[r.free[k]]))
  {
    var t := TakeOf(r, k, r.lens[r.free[k]]);
    forall g | g in t.lens ensures g < |ps'| && ps'[g].num == t.lens[g] && (g !in t.free ==> ps'[g].flags != 0) {
      if g != r.free[k] && g in r.free {
        var i :| 0 <= i < |r.free| && r.free[i] == g;
        assert t.free[if i < k then i else i - 1] == g;
      }
    }
  }

  /** The table after record t entered the list between pre and nxt. */
  function InsertOf(ps: seq<Page>, t: nat, pre: Ptr, nxt: Ptr): seq<Page>
    requires t < |ps|
  {
    var p0 := ps[t := ps[t].(flags := 0)];
    var p1 := WithNxt(p0, pre, At(t));
    var p2 := p1[t := p1[t].(pre := pre, nxt := nxt)];
    WithPre(p2, nxt, At(t))
  }

  lemma {:induction false} InsertPages(ps: seq<Page>, head: Page, r: Runs, h: nat, k: nat)
    requires RunsOk(|ps|, r) && Tagged(ps, r) && Linked(ps, head, r.free) && Live(r, h) && k <= |r.free|
    ensures h < |ps|
    ensures var ps' := InsertOf(ps, h, PtrAt(r.free, k - 1), PtrAt(r.free, k));
            Linked(ps', HeadNxt(head, PtrAt(r.free, k - 1), At(h)), GiveOf(r, h, k).free) && Tagged(ps', GiveOf(r, h, k))
  {
    hide RunsOk, Rewired, Distinct, Linked, Tagged, InsertOf;
    SortedDistinctIn(|ps|, r);
    TagAt(ps, r, h);
    var ps' := InsertOf(ps, h, PtrAt(r.free, k - 1), PtrAt(r.free, k));
    InsertRewired(ps, head, r.free, h, k);
    Entered(ps, head, ps', HeadNxt(head, PtrAt(r.free, k - 1), At(h)), r.free, k, h);
    InsertTags(ps, ps', r, h, k);
  }

  lemma {:induction false} TagAt(ps: seq<Page>, r: Runs, h: nat)
    requires Tagged(ps, r) && Live(r, h)
    ensures h < |ps| && h !in r.free
  {}

  lemma {:induction false} InsertRewired(ps: seq<Page>, head: Page, free: seq<nat>, h: nat, k: nat)
    requires Linked(ps, head, free) && Distinct(free) && k <= |free| && h < |ps| && h !in free
    ensures var ps' := InsertOf(ps, h, PtrAt(free, k - 1), PtrAt(free, k));
            |ps'| == |ps| && Rewired(ps, ps', free, k - 1, At(h), k, At(h), {h})
            && ps'[h].pre == PtrAt(free, k - 1) && ps'[h].nxt == PtrAt(free, k)
            && forall i :: 0 <= i < |ps| ==> ps'[i].num == ps[i].num && (i != h ==> ps'[i].flags == ps[i].flags)
  {
    forall j: nat | j < |free| ensures free[j] < |ps| { assert LinksAt(ps, free, j); }
  }

  lemma {:induction false} SortedDistinctIn(n: nat, r: Runs)
    requires RunsOk(n, r)
    ensures Distinct(r.free)
  {}

  lemma {:induction false} InsertTags(ps: seq<Page>, ps': seq<Page>, r: Runs, h: nat, k: nat)
    requires Tagged(ps, r) && k <= |r.free| && h < |ps| == |ps'|
    requires forall i :: 0 <= i < |ps| ==> ps'[i].num == ps[i].num && (i != h ==> ps'[i].flags == ps[i].flags)
    ensures Tagged(ps', GiveOf(r, h, k))
  {
    var f := r.free[..k] + [h] + r.free[k..];
    assert f[k] == h;
    assert r.free == r.free[..k] + r.free[k..];
  }

  /** The table after listed run k entered the list a second time. */
  function TwiceOf(ps: seq<Page>, free: seq<nat>, k: nat): seq<Page>
    requires k < |free| && free[k] < |ps|
  {
    if k == 0 then InsertOf(ps, free[0], At(free[0]), PtrAt(free, 1)) else InsertOf(ps, free[k], At(free[k - 1]), At(free[k]))
  }

  /** What insert_page needs of the record behind. */
  predicate BehindOk(ps: seq<Page>, src: nat) {
    src < |ps|
    && var e := src + ps[src].num;
       e < |ps| && ps[e].flags == 0 ==> e != src && (ps[e].nxt == Null || (ps[e].nxt.At? && ps[e].nxt.i < |ps|))
  }

  /** The table after the run at h took over its successor g. */
  function MergedOf(ps: seq<Page>, h: nat, g: nat): seq<Page>
    requires h < |ps| && g < |ps|
  {
    var p1 := ps[h := ps[h].(num := ps[h].num + ps[g].num, nxt := ps[g].nxt)];
    var p2 := WithPre(p1, p1[g].nxt, At(h));
    p2[g := p2[g].(num := 0, pre := Null, nxt := Null)]
  }

  lemma {:induction false} MergePages(ps: seq<Page>, head: Page, r: Runs, k: nat)
    requires RunsOk(|ps|, r) && Tagged(ps, r) && Linked(ps, head, r.free) && k + 1 < |r.free|
    requires r.free[k] in r.lens && r.free[k + 1] in r.lens
    ensures r.free[k] < |ps| && r.free[k + 1] < |ps|
    ensures var ps' := MergedOf(ps, r.free[k], r.free[k + 1]);
            Linked(ps', head, MergeOf(r, k).free) && Tagged(ps', MergeOf(r, k))
  {
    hide RunsOk, MergedOf, Rewired;
    SortedDistinctIn(|ps|, r);
    LinkFacts(ps, head, r, k, 0);
    LinkFacts(ps, head, r, k + 1, 0);
    var ps' := MergedOf(ps, r.free[k], r.free[k + 1]);
    MergeRewired(ps, r.free, k);
    Removed(ps, head, ps', head, r.free, k + 1);
    MergeTags(ps, ps', r, k);
  }

  lemma {:induction false} MergeRewired(ps: seq<Page>, free: seq<nat>, k: nat)
    requires k + 1 < |free| && (forall j: nat :: j < |free| ==> free[j] < |ps|) && Distinct(free)
    requires ps[free[k + 1]].nxt == PtrAt(free, k + 2) && ps[free[k]].nxt == At(free[k + 1])
    ensures var h, g := free[k], free[k + 1];
            var ps' := MergedOf(ps, h, g);
            |ps'| == |ps| && Rewired(ps, ps', free, k, PtrAt(free, k + 2), k + 2, PtrAt(free, k), {g})
            && ps'[h].num == ps[h].num + ps[g].num
            && forall i :: 0 <= i < |ps| && i != h && i != g ==> ps'[i].num == ps[i].num && ps'[i].flags == ps[i].flags
  {}

  lemma {:induction false} MergeTags(ps: seq<Page>, ps': seq<Page>, r: Runs, k: nat)
    requires Tagged(ps, r) && k + 1 < |r.free| && |ps| == |ps'| && r.free[k] in r.lens && r.free[k + 1] in r.lens && Distinct(r.free)
    requires r.free[k] < |ps| && ps'[r.free[k]].num == r.lens[r.free[k]] + r.lens[r.free[k + 1]]
    requires forall i :: 0 <= i < |ps| && i != r.free[k] && i != r.free[k + 1] ==> ps'[i].num == ps[i].num && ps'[i].flags == ps[i].flags
    ensures Tagged(ps', MergeOf(r, k))
  {
    var t := MergeOf(r, k);
    assert t.free[k] == r.free[k];
    forall g | g in t.lens ensures g < |ps'| && ps'[g].num == t.lens[g] && (g !in t.free ==> ps'[g].flags != 0) {
      if g != r.free[k] && g in r.free {
        var i :| 0 <= i < |r.free| && r.free[i] == g;
        assert t.free[if i <= k then i else i - 1] == g;
      }
    }
  }

  /** The table after Init: one taken run for the table itself and one free run. */
  lemma {:induction false} FirstRuns(ps: seq<Page>, head: Page, count: nat, meta: nat)
    requires 0 < meta < count == |ps| && ps[0].num == meta && ps[0].flags != 0
    requires ps[meta].num == count - meta && ps[meta].nxt == Null && ps[meta].pre == Head && head.nxt == At(meta)
    ensures var r := Runs(map[0 := meta, meta := count - meta], [meta]);
            RunsOk(count, r) && Tagged(ps, r) && Linked(ps, head, r.free) && Listed(r) && FreePages(r) == count - meta
  {
    var r := Runs(map[0 := meta, meta := count - meta], [meta]);
    assert Meets(count, r.lens, 0) && Meets(count, r.lens, meta);
    assert LinksAt(ps, r.free, 0);
    assert Lengths(r) == [count - meta];
    SumHead([count - meta]);
  }

  /** No pages fit everywhere, so the first free run is found. */
  lemma {:induction false} FirstFits(n: nat, r: Runs, k: nat)
    requires RunsOk(n, r) && FirstFit(r, 0, k)
    ensures k == 0
  {
    hide RunsOk;
    FitsAll(n, r);
  }

  lemma {:induction false} FitsAll(n: nat, r: Runs)
    requires RunsOk(n, r) && r.free != []
    ensures Fits(r, 0, 0)
  {
    hide RunsOk;
    FreeAt(n, r, 0);
  }

  lemma {:induction false} NeedRange(bytesize: nat)
    ensures -0x8000_0000 <= NeedPages(bytesize) < 0x8000_0000
    ensures NeedPages(bytesize) != 0 <==> ToU64(NeedPages(bytesize)) > 0
  {}

  class PMM {
    const pages: array<Page>
    /** The list head's record. */
    var head: Page
    var pageCount: nat
    /** FreeMemoryStart(): the address of page 0. */
    const base: nat
    ghost var runs: Runs

    ghost predicate Valid()
      reads this, pages
    {
      && RunsOk(pages.Length, runs) && Tagged(pages[..], runs) && Linked(pages[..], head, runs.free)
      && Listed(runs) && pageCount == FreePages(runs)
    }

    // ----- following pointers

    method SetNxt(p: Ptr, v: Ptr)
      requires p.Head? || (p.At? && p.i < pages.Length)
      modifies this`head, pages
      ensures head == HeadNxt(old(head), p, v) && pages[..] == WithNxt(old(pages[..]), p, v)
    {
      if p.Head? {
        head := head.(nxt := v);
      } else {
        pages[p.i] := pages[p.i].(nxt := v);
      }
    }

    /** The record at src takes over its successor on the list. */
    method JoinRecords(src: nat, nxt: nat)
      requires src < pages.Length && nxt < pages.Length && src != nxt
      requires pages[nxt].nxt == Null || (pages[nxt].nxt.At? && pages[nxt].nxt.i < pages.Length)
      modifies pages
      ensures pages[..] == MergedOf(old(pages[..]), src, nxt)
    {
      pages[src] := pages[src].(num := pages[src].num + pages[nxt].num);
      pages[src] := pages[src].(nxt := pages[nxt].nxt);
      if pages[nxt].nxt != Null {
        SetPre(pages[nxt].nxt, At(src));
      }
      pages[nxt] := pages[nxt].(num := 0, pre := Null, nxt := Null);
    }

    method SetPre(p: Ptr, v: Ptr)
      requires p.At? && p.i < pages.Length
      modifies pages
      ensures pages[..] == WithPre(old(pages[..]), p, v)
    {
      pages[p.i] := pages[p.i].(pre := v);
    }

    /** PMM::Init on a table of `count` records whose contents are arbitrary; the first pages hold
        the table itself. */
    constructor Init(count: nat, base: nat)
      requires count >= 2
      ensures Valid() && pages.Length == count && fresh(pages) && this.base == base
      ensures var meta := count * 40 / 0x1000 + 1;
              meta < count && runs == Runs(map[0 := meta, meta := count - meta], [meta]) && pageCount == count - meta
    {
      hide RunsOk, Linked, Tagged, FreePages, Listed;
      var meta := count * RECORD / PAGESIZE + 1;
      this.base := base;
      pages := new Page[count];
      head := Page(0, 0, 0, Null, Null);
      pageCount := count;
      runs := Runs(map[], []);
      new;
      var i := 0;
      while i < pageCount
        invariant 0 <= i <= pageCount == count && pages.Length == count
        invariant forall j :: 0 <= j < i ==> pages[j].flags == 0
      {
        pages[i] := pages[i].(flags := 0);
        i := i + 1;
      }
      pages[0] := pages[0].(num := meta, flags := 1);
      pages[meta] := pages[meta].(num := count - meta, nxt := Null, pre := Head);
      head := head.(nxt := At(meta));
      pageCount := pageCount - meta;
      runs := Runs(map[0 := meta, meta := count - meta], [meta]);
      FirstRuns(pages[..], head, count, meta);
    }

    /** The rest of a free run takes its place in the list. */
    method CutRun(h: nat, nums: nat, ghost k: nat)
      requires Valid() && k < |runs.free| && runs.free[k] == h && h in runs.lens && nums < runs.lens[h]
      modifies this, pages
      ensures Valid() && pageCount == old(pageCount) - nums && h < pages.Length && pages[h].flags != 0
      ensures nums > 0 ==> runs == TakeOf(old(runs), k, nums)
      ensures nums == 0 ==> runs == old(runs) && head == old(head) && pages[..] == Flagged(old(pages[..]), h)
    {
      hide RunsOk, Linked, FreePages, Distinct, TakeOf, Tagged, CutOf, HeadNxt;
      ghost var ps, hd, r := pages[..], head, runs;
      LinkFacts(ps, hd, r, k, nums);
      if nums > 0 {
        TakeTiles(pages.Length, r, k, nums);
        TakeCount(pages.Length, r, k, nums);
      }
      CutRecords(h, nums);
      if nums > 0 {
        CutPages(ps, hd, r, k, nums);
        ListedIf(pages.Length, TakeOf(r, k, nums));
        runs := TakeOf(r, k, nums);
      } else {
        CutNothing(ps, hd, r, k);
      }
    }

    /** The first `nums` pages of the run at h are cut off; the rest takes the run's place in the list. */
    method CutRecords(h: nat, nums: nat)
      requires h < pages.Length && h + nums < pages.Length && nums <= pages[h].num && nums <= pageCount
      requires (pages[h].pre.At? ==> pages[h].pre.i < pages.Length) && (pages[h].nxt.At? ==> pages[h].nxt.i < pages.Length)
      requires pages[h].pre != Null && pages[h].nxt != Head && pages[h].pre != At(h) && pages[h].nxt != At(h)
      modifies this`head, this`pageCount, pages
      ensures pages[..] == CutOf(old(pages[..]), h, nums) && head == HeadNxt(old(head), old(pages[h]).pre, At(h + nums))
      ensures pageCount == old(pageCount) - nums && pages[h].flags != 0
    {
      ghost var ps := pages[..];
      var np := h + nums;
      var num := pages[h].num;
      pages[h] := pages[h].(num := nums);
      SetNxt(pages[h].pre, At(np));
      if pages[h].nxt != Null {
        SetPre(pages[h].nxt, At(np));
      }
      pages[np] := pages[np].(pre := pages[h].pre, nxt := pages[h].nxt, num := num - nums);
      pages[h] := pages[h].(flags := 1);
      pageCount := pageCount - nums;
      assert pages[..] == CutOf(ps, h, nums);
    }

    /** A free run of just the right length leaves the list. */
    method Unlink(h: nat, nums: nat, ghost k: nat)
      requires Valid() && k < |runs.free| && runs.free[k] == h && h in runs.lens && nums == runs.lens[h] > 0
      modifies this, pages
      ensures Valid() && runs == TakeOf(old(runs), k, nums) && pageCount == old(pageCount) - nums
      ensures h < pages.Length && pages[h].flags != 0
    {
      hide RunsOk, Linked, FreePages, Distinct, TakeOf, Tagged;
      ghost var ps, hd, r := pages[..], head, runs;
      LinkFacts(ps, hd, r, k, nums);
      TakeTiles(pages.Length, r, k, nums);
      TakeCount(pages.Length, r, k, nums);
      UnlinkPages(ps, hd, r, k);
      ListedIf(pages.Length, TakeOf(r, k, nums));
      SetNxt(pages[h].pre, pages[h].nxt);
      if pages[h].nxt != Null {
        SetPre(pages[h].nxt, pages[h].pre);
      }
      pages[h] := pages[h].(flags := 1);
      pageCount := pageCount - nums;
      runs := TakeOf(r, k, nums);
      assert pages[..] == UnlinkOf(ps, h);
    }

    /** The walk of PMM::alloc_pages along the list. */
    method FindFit(nums: nat) returns (p: Ptr, ghost k: nat)
      requires Valid()
      ensures p == Null ==> forall i: nat :: !Fits(runs, nums, i)
      ensures p != Null ==> FirstFit(runs, nums, k) && p == At(runs.free[k])
    {
      hide RunsOk, Linked, FreePages, Distinct, Tagged;
      k := 0;
      p := head.nxt;
      HeadAt(pages[..], head, runs.free);
      while p != Null
        invariant k <= |runs.free| && p == PtrAt(runs.free, k)
        invariant forall i: nat :: i < k ==> !Fits(runs, nums, i)
        decreases |runs.free| - k
      {
        FreeAt(pages.Length, runs, k);
        LinkFacts(pages[..], head, runs, k, nums);
        if nums <= pages[p.i].num {
          return;
        }
        p := pages[p.i].nxt;
        k := k + 1;
      }
    }

    /** PMM::alloc_pages: first fit; null exactly when no free run is long enough. A request for no
        pages marks the first free run as taken, leaves it in the list and hands it out. */
    method AllocPages(nums: nat) returns (p: Ptr, ghost k: nat)
      requires Valid()
      modifies this, pages
      ensures Valid() && (p == Null || p.At?)
      ensures p == Null ==> (forall i: nat :: !Fits(runs, nums, i)) && runs == old(runs) && pageCount == old(pageCount)
                            && pages[..] == old(pages[..])
      ensures p.At? ==> FirstFit(old(runs), nums, k) && p.i == old(runs).free[k] < pages.Length && pageCount == old(pageCount) - nums
      ensures p.At? && nums > 0 ==> runs == TakeOf(old(runs), k, nums)
      ensures p.At? && nums > 0 ==> Live(runs, p.i) && runs.lens[p.i] == nums && p.i + nums <= pages.Length
      ensures p.At? && nums > 0 ==> forall g :: Live(old(runs), g) ==> Live(runs, g) && runs.lens[g] == old(runs).lens[g]
      ensures p.At? && nums == 0 ==> k == 0 && runs == old(runs) && head == old(head) && pages[..] == Flagged(old(pages[..]), p.i)
    {
      hide RunsOk, Linked, FreePages, Distinct, Tagged, TakeOf;
      p, k := FindFit(nums);
      if p == Null {
        return;
      }
      LinkFacts(pages[..], head, runs, k, nums);
      if nums > 0 {
        TakeTiles(pages.Length, runs, k, nums);
      } else {
        FirstFits(pages.Length, runs, k);
      }
      if nums < pages[p.i].num {
        CutRun(p.i, nums, k);
      } else {
        Unlink(p.i, nums, k);
      }
    }

    /** PMM::insert_page: the record takes over the run right behind it when that one's first record has
        zero flags. */
    method InsertPage(src: nat) returns (merged: bool)
      requires BehindOk(pages[..], src)
      modifies pages
      ensures var e := src + old(pages[src]).num; merged <==> e < pages.Length && old(pages[e]).flags == 0
      ensures pages[..] == if merged then MergedOf(old(pages[..]), src, src + old(pages[src]).num) else old(pages[..])
    {
      if src + pages[src].num < pages.Length && pages[src + pages[src].num].flags == 0 {
        JoinRecords(src, src + pages[src].num);
        return true;
      }
      return false;
    }

    /** The walk of PMM::free_pages to the last free run before t. When t is a free run itself, that is the
        one before it, or t when it is the first. */
    method FindPre(t: nat) returns (pre: Ptr, ghost k: nat)
      requires Valid() && t in runs.lens
      ensures pre.At? ==> pre.i < pages.Length
      ensures Live(runs, t) ==> Place(runs, t, k) && k <= |runs.free| && pre == PtrAt(runs.free, k - 1)
      ensures !Live(runs, t) ==> k < |runs.free| && runs.free[k] == t && pre == At(runs.free[if k == 0 then 0 else k - 1])
    {
      hide RunsOk, Linked, FreePages, Distinct, Tagged, Place;
      HeadAt(pages[..], head, runs.free);
      SortedOf(pages.Length, runs);
      pre := head.nxt;
      k := 0;
      if pre == Null || pre.i > t {
        PlaceFirst(pages.Length, runs, t);
        NotFree(runs, t, 0);
        return Head, 0;
      }
      ListAt(pages[..], head, runs.free, 0);
      while pages[pre.i].nxt != Null && pages[pre.i].nxt.i < t
        invariant k < |runs.free| && pre == At(runs.free[k]) && runs.free[k] <= t && runs.free[k] < pages.Length
        invariant k > 0 ==> runs.free[k] < t
        invariant pages[runs.free[k]].nxt == PtrAt(runs.free, k + 1)
        decreases |runs.free| - k
      {
        pre := pages[pre.i].nxt;
        k := k + 1;
        ListAt(pages[..], head, runs.free, k);
      }
      if runs.free[k] < t {
        k := k + 1;
        if k == |runs.free| || t < runs.free[k] {
          PlaceAfter(pages.Length, runs, t, k);
          NotFree(runs, t, k);
        }
      }
    }

    /** The part of PMM::free_pages that enters the run into the list, which is where it may be already. */
    method Enlist(t: nat) returns (ghost k: nat)
      requires Valid() && t in runs.lens
      modifies this`head, this`pageCount, pages
      ensures pageCount == old(pageCount) + old(runs).lens[t] && |runs.free| == |old(runs).free|
      ensures Live(runs, t) ==> Place(runs, t, k) && k <= |runs.free|
                                && pages[..] == InsertOf(old(pages[..]), t, PtrAt(runs.free, k - 1), PtrAt(runs.free, k))
                                && head == HeadNxt(old(head), PtrAt(runs.free, k - 1), At(t))
      ensures !Live(runs, t) ==> k < |runs.free| && runs.free[k] == t && pages[..] == TwiceOf(old(pages[..]), runs.free, k) && head == old(head)
    {
      hide RunsOk, Linked, FreePages, Distinct, Tagged, Place;
      ghost var ps, hd := pages[..], head;
      RunTagged(pages.Length, ps, runs, t);
      HeadAt(ps, hd, runs.free);
      var pre: Ptr;
      pre, k := FindPre(t);
      if k > 0 { ListAt(ps, hd, runs.free, k - 1); }
      if k < |runs.free| { ListAt(ps, hd, runs.free, k); }
      if k + 1 < |runs.free| { ListAt(ps, hd, runs.free, k + 1); }
      if Live(runs, t) { NotHere(runs, t); }
      pageCount := pageCount + pages[t].num;
      pages[t] := pages[t].(flags := 0);
      var nxt := if pre == Head then head.nxt else pages[pre.i].nxt;
      SetNxt(pre, At(t));
      pages[t] := pages[t].(pre := pre, nxt := nxt);
      if nxt != Null {
        SetPre(nxt, At(t));
      }
      assert pages[..] == InsertOf(ps, t, pre, nxt);
    }

    /** PMM::free_pages on the first page of a run, or on a record that it refuses. A free run whose first
        record kept nonzero flags is taken for a live one: its pages are counted twice and its record is
        linked to itself. */
    method FreePagesAt(t: nat) returns (ok: bool, ghost k: nat)
      requires Valid() && t < pages.Length && (t in runs.lens || Refused(pages[t]))
      modifies this, pages
      ensures ok <==> !Refused(old(pages[t]))
      ensures Live(old(runs), t) ==> ok
      ensures Valid() <==> (ok ==> Live(old(runs), t))
      ensures !ok ==> runs == old(runs) && pageCount == old(pageCount) && pages[..] == old(pages[..])
      ensures ok ==> pageCount == old(pageCount) + old(runs).lens[t]
      ensures ok && !Live(old(runs), t) ==> runs == old(runs) && t in runs.free && pages[t].pre == At(t)
      ensures ok && Live(old(runs), t) ==> GivenBack(old(pages[..]), old(runs), t, k, runs)
      ensures ok && Live(old(runs), t) ==> forall g :: Live(runs, g) <==> Live(old(runs), g) && g != t
      ensures ok && Live(old(runs), t) ==> forall g :: Live(runs, g) ==> runs.lens[g] == old(runs).lens[g]
    {
      hide RunsOk, Linked, FreePages, Distinct, MergeOf, GiveOf, Place, Tagged, InsertOf, MergedOf, TwiceOf, BehindOk;
      ghost var ps, hd, r := pages[..], head, runs;
      LiveTagged(pages.Length, ps, r, t);
      if pages[t].num == 0 || pages[t].flags == 0 {
        return false, 0;
      }
      RunTagged(pages.Length, ps, r, t);
      k := Enlist(t);
      ghost var was := pages[..];
      if Live(r, t) {
        GiveLive(pages.Length, r, t);
        Given(ps, hd, r, t, k);
        runs := GiveOf(r, t, k);
        GivenBehind(ps, was, head, r, t, k);
      } else {
        TwiceBehind(ps, hd, r, k);
      }
      var merged := InsertPage(t);
      if Live(r, t) {
        if merged {
          MergeStep(was, head, runs, k);
          runs := MergeOf(runs, k);
        }
      } else {
        SelfLinked(ps, hd, r, k, merged, pages[..]);
      }
      ok := true;
    }

    /** The usage goes into the flags of every page of the run; usage 0 makes the run look free. */
    method Paint(h: nat, need: int, usage: nat)
      requires Valid() && Live(runs, h) && runs.lens[h] == ToU64(need) && h + ToU64(need) <= pages.Length
      requires -0x8000_0000 <= need < 0x8000_0000
      modifies pages
      ensures Valid() <==> usage != 0 || need <= 0
      ensures forall i :: 0 <= i < pages.Length ==>
                pages[i] == if h <= i < h + need then old(pages[i]).(flags := usage) else old(pages[i])
    {
      hide RunsOk, Linked, FreePages, Distinct, Tagged;
      ghost var ps := pages[..];
      var i := 0;
      while i < need
        invariant 0 <= i && (i <= need || i == 0)
        invariant forall j :: 0 <= j < pages.Length ==> pages[j] == if h <= j < h + i then ps[j].(flags := usage) else ps[j]
      {
        pages[h + i] := pages[h + i].(flags := usage);
        i := i + 1;
      }
      if usage != 0 {
        FlagsOnly(ps, pages[..], head, runs, h, usage);
      } else if need > 0 {
        Untagged(pages[..], runs, h);
      } else {
        assert pages[..] == ps;
      }
    }

    /** PMM::free on an address inside the first page of a run, or of a refused record. */
    method Free(addr: nat) returns (ok: bool, ghost k: nat)
      requires Valid() && base <= addr && PageOf(base, addr) < pages.Length
      requires var t := PageOf(base, addr); t in runs.lens || Refused(pages[t])
      modifies this, pages
      ensures ok <==> !Refused(old(pages[PageOf(base, addr)]))
      ensures var t := PageOf(base, addr);
              && (Live(old(runs), t) ==> ok) && (Valid() <==> (ok ==> Live(old(runs), t)))
              && (!ok ==> runs == old(runs) && pageCount == old(pageCount) && pages[..] == old(pages[..]))
              && (ok ==> pageCount == old(pageCount) + old(runs).lens[t])
              && (ok && !Live(old(runs), t) ==> runs == old(runs) && t in runs.free && pages[t].pre == At(t))
              && (ok && Live(old(runs), t) ==>
                    GivenBack(old(pages[..]), old(runs), t, k, runs)
                    && (forall g :: Live(runs, g) <==> Live(old(runs), g) && g != t)
                    && forall g :: Live(runs, g) ==> runs.lens[g] == old(runs).lens[g])
    {
      hide RunsOk, Linked, FreePages, Distinct, Tagged, GivenBack;
      ok, k := FreePagesAt(PageOf(base, addr));
    }

    /** PMM::malloc: null exactly when no free run is long enough. The page count is passed on as 64
        bits. Usage 0 leaves a live run whose records say free; no bytes get a run that stays free. */
    method Malloc(bytesize: nat, usage: nat) returns (addr: nat, ghost k: nat)
      requires Valid() && base > 0
      modifies this, pages
      ensures Valid() <==> addr == 0 || usage != 0 || NeedPages(bytesize) <= 0
      ensures addr == 0 ==> (forall i: nat :: !Fits(runs, Count(bytesize), i)) && runs == old(runs) && pageCount == old(pageCount)
      ensures addr != 0 ==> FirstFit(old(runs), Count(bytesize), k) && addr == KAddr(base, old(runs).free[k])
      ensures addr != 0 ==> pageCount == old(pageCount) - Count(bytesize)
      ensures addr != 0 && Count(bytesize) > 0 ==> runs == TakeOf(old(runs), k, Count(bytesize))
      ensures addr != 0 && Count(bytesize) > 0 ==>
                var h := old(runs).free[k];
                Live(runs, h) && h + Count(bytesize) <= pages.Length
                && forall i :: h <= i < h + NeedPages(bytesize) && i < pages.Length ==> pages[i].flags == usage
      ensures addr != 0 && Count(bytesize) > 0 ==> forall g :: Live(old(runs), g) ==> Live(runs, g) && runs.lens[g] == old(runs).lens[g]
      ensures addr != 0 && Count(bytesize) == 0 ==>
                k == 0 && runs == old(runs) && old(runs).free[0] < pages.Length
                && pages[..] == Flagged(old(pages[..]), old(runs).free[0])
    {
      hide RunsOk, Linked, FreePages, Distinct, Tagged, TakeOf, FirstFit, NeedPages, ToU64;
      var need := NeedPages(bytesize);
      NeedRange(bytesize);
      var p;
      p, k := AllocPages(ToU64(need));
      if p == Null {
        return 0, k;
      }
      var h := p.i;
      if need != 0 {
        Paint(h, need, usage);
      }
      return KAddr(base, h), k;
    }
  }

  /** PAGE::KAddr. */
  function KAddr(base: nat, i: nat): nat { base + i * PAGESIZE }

  /** The index of the record that PMM::get_page_from_addr returns. */
  function PageOf(base: nat, addr: nat): nat
    requires base <= addr
  {
    (addr - base) / PAGESIZE
  }

  /** Every address within a page leads back to the page's record; the pages lie one behind the other. */
  lemma {:induction false} AddrRoundTrip(base: nat, i: nat, addr: nat)
    requires base <= addr
    ensures PageOf(base, addr) == i <==> KAddr(base, i) <= addr < KAddr(base, i) + 0x1000
    ensures KAddr(base, 0) == base && KAddr(base, i + 1) == KAddr(base, i) + 0x1000
  {}

  /** A taken run whose first record says free. */
  lemma {:induction false} Untagged(ps: seq<Page>, r: Runs, h: nat)
    requires Live(r, h) && h < |ps| && ps[h].flags == 0
    ensures !Tagged(ps, r)
  {}

  /** A change of flags inside one live run. */
  lemma {:induction false} FlagsOnly(ps: seq<Page>, ps': seq<Page>, head: Page, r: Runs, h: nat, usage: nat)
    requires RunsOk(|ps|, r) && Tagged(ps, r) && Linked(ps, head, r.free) && Live(r, h) && usage != 0 && |ps'| == |ps|
    requires forall i :: 0 <= i < |ps| ==>
               ps'[i] == ps[i] || (h <= i < h + r.lens[h] && ps'[i] == ps[i].(flags := usage))
    ensures Tagged(ps', r) && Linked(ps', head, r.free)
  {
    forall k: nat | k < |r.free| ensures LinksAt(ps', r.free, k) { assert LinksAt(ps, r.free, k); }
  }

  /** Run t was given back at position k, and joined with the run behind it when that one is
      free and its first record has zero flags. */
  ghost predicate GivenBack(ps: seq<Page>, r: Runs, t: nat, k: nat, r': Runs) {
    t in r.lens && Place(r, t, k) &&
    var g, e := GiveOf(r, t, k), t + r.lens[t];
    if e < |ps| && ps[e].flags == 0
    then k + 1 < |g.free| && g.free[k] in g.lens && g.free[k + 1] in g.lens && r' == MergeOf(g, k)
    else r' == g
  }

  lemma {:induction false} GiveLive(n: nat, r: Runs, t: nat)
    requires RunsOk(n, r) && Live(r, t)
    ensures forall k: nat :: Place(r, t, k) ==>
              (forall g :: Live(GiveOf(r, t, k), g) <==> Live(r, g) && g != t)
  {
    hide RunsOk;
    forall k: nat | Place(r, t, k) ensures forall g :: Live(GiveOf(r, t, k), g) <==> Live(r, g) && g != t {
      GiveTiles(n, r, t, k);
    }
  }

  lemma {:induction false} HeadAt(ps: seq<Page>, head: Page, free: seq<nat>)
    requires Linked(ps, head, free)
    ensures head.nxt == PtrAt(free, 0)
  {}

  lemma {:induction false} ListAt(ps: seq<Page>, head: Page, free: seq<nat>, k: nat)
    requires Linked(ps, head, free) && k < |free|
    ensures free[k] < |ps| && ps[free[k]].pre == PtrAt(free, k - 1) && ps[free[k]].nxt == PtrAt(free, k + 1)
  {
    assert LinksAt(ps, free, k);
  }

  /** A run's record; live runs cannot be told from refused ones by it. */
  lemma {:induction false} LiveTagged(n: nat, ps: seq<Page>, r: Runs, t: nat)
    requires RunsOk(n, r) && Tagged(ps, r)
    ensures Live(r, t) ==> t < |ps| && ps[t].num == r.lens[t] > 0 && ps[t].flags != 0 && t + r.lens[t] <= n
  {
    if Live(r, t) { assert Meets(n, r.lens, t); }
  }

  /** A free run right behind the k-th free run is told by its zero flags. */
  lemma {:induction false} FreeBehind(ps: seq<Page>, r: Runs, k: nat)
    requires RunsOk(|ps|, r) && Tagged(ps, r) && k < |r.free| && r.free[k] in r.lens
    requires r.free[k] + r.lens[r.free[k]] < |ps| && ps[r.free[k] + r.lens[r.free[k]]].flags == 0
    ensures r.free[k] + r.lens[r.free[k]] in r.free
  {
    assert Meets(|ps|, r.lens, r.free[k]);
  }

  /** A run's record. */
  lemma {:induction false} RunTagged(n: nat, ps: seq<Page>, r: Runs, t: nat)
    requires RunsOk(n, r) && Tagged(ps, r)
    ensures t in r.lens ==> t < |ps| && ps[t].num == r.lens[t] > 0 && t + r.lens[t] <= n
  {
    if t in r.lens { assert Meets(n, r.lens, t); }
  }

  lemma {:induction false} NotFree(r: Runs, t: nat, k: nat)
    requires Sorted(r.free) && t in r.lens && k <= |r.free| && (k > 0 ==> r.free[k - 1] < t) && (k < |r.free| ==> t < r.free[k])
    ensures Live(r, t)
  {
    forall i | 0 <= i < |r.free| ensures r.free[i] != t {}
  }

  lemma {:induction false} SortedOf(n: nat, r: Runs)
    requires RunsOk(n, r)
    ensures Sorted(r.free)
  {}

  /** What joins when the k-th free run is followed by a run whose first record has zero flags. */
  lemma {:induction false} MergeStep(ps: seq<Page>, head: Page, r: Runs, k: nat)
    requires RunsOk(|ps|, r) && Tagged(ps, r) && Linked(ps, head, r.free) && Listed(r) && k < |r.free| && r.free[k] in r.lens
    requires r.free[k] + r.lens[r.free[k]] < |ps| && ps[r.free[k] + r.lens[r.free[k]]].flags == 0
    ensures k + 1 < |r.free| && r.free[k + 1] in r.lens && r.free[k + 1] == r.free[k] + r.lens[r.free[k]]
    ensures r.free[k] < |ps| && r.free[k + 1] < |ps| && ps[r.free[k]].num == r.lens[r.free[k]]
    ensures var t := MergeOf(r, k);
            RunsOk(|ps|, t) && Listed(t) && FreePages(t) == FreePages(r)
            && Tagged(MergedOf(ps, r.free[k], r.free[k + 1]), t) && Linked(MergedOf(ps, r.free[k], r.free[k + 1]), head, t.free)
            && (forall g :: Live(t, g) <==> Live(r, g)) && forall g :: Live(t, g) ==> t.lens[g] == r.lens[g]
  {
    hide RunsOk, Linked, FreePages, Distinct, Tagged, MergeOf, MergedOf;
    LinkFacts(ps, head, r, k, 0);
    FreeBehind(ps, r, k);
    NextInList(|ps|, r, k);
    MergeTiles(|ps|, r, k);
    MergePages(ps, head, r, k);
    LinkFacts(ps, head, r, k + 1, 0);
  }

  /** A record on the list, or behind one, has a good pointer. */
  lemma {:induction false} FreeNext(ps: seq<Page>, head: Page, r: Runs, k: nat)
    requires RunsOk(|ps|, r) && Tagged(ps, r) && Linked(ps, head, r.free) && k < |r.free| && r.free[k] in r.lens
    ensures BehindOk(ps, r.free[k])
    ensures var h := r.free[k];
            h < |ps| && ps[h].num == r.lens[h] > 0
            && (h + ps[h].num < |ps| && ps[h + ps[h].num].flags == 0 ==>
                  k + 1 < |r.free| && h + ps[h].num == r.free[k + 1] && ps[r.free[k + 1]].nxt == PtrAt(r.free, k + 2))
    ensures k + 2 < |r.free| ==> r.free[k + 2] < |ps|
    ensures forall i, j :: 0 <= i < j < |r.free| ==> r.free[i] != r.free[j]
  {
    hide RunsOk, Linked, FreePages, Distinct, Tagged;
    LinkFacts(ps, head, r, k, 0);
    var h := r.free[k];
    if h + ps[h].num < |ps| && ps[h + ps[h].num].flags == 0 {
      FreeBehind(ps, r, k);
      NextInList(|ps|, r, k);
      LinkFacts(ps, head, r, k + 1, 0);
    }
  }

  lemma {:induction false} GivenBehind(ps: seq<Page>, was: seq<Page>, head: Page, r: Runs, t: nat, k: nat)
    requires k <= |r.free| && t < |ps| && was == InsertOf(ps, t, PtrAt(r.free, k - 1), PtrAt(r.free, k)) && t in r.lens && |was| == |ps|
    requires RunsOk(|ps|, GiveOf(r, t, k)) && Tagged(was, GiveOf(r, t, k)) && Linked(was, head, GiveOf(r, t, k).free)
    ensures var g := GiveOf(r, t, k); g.lens == r.lens && k < |g.free| && g.free[k] == t
    ensures BehindOk(was, t) && was[t].num == r.lens[t] && was[t].num > 0
    ensures t + was[t].num < |ps| ==> was[t + was[t].num].flags == ps[t + was[t].num].flags
  {
    hide RunsOk, Linked, FreePages, Distinct, Tagged, BehindOk;
    assert GiveOf(r, t, k).free[k] == t;
    FreeNext(was, head, GiveOf(r, t, k), k);
  }

  lemma {:induction false} TwiceBehind(ps: seq<Page>, head: Page, r: Runs, k: nat)
    requires RunsOk(|ps|, r) && Tagged(ps, r) && Linked(ps, head, r.free) && k < |r.free| && r.free[k] in r.lens
    ensures r.free[k] < |ps| && BehindOk(TwiceOf(ps, r.free, k), r.free[k])
    ensures forall i, j :: 0 <= i < j < |r.free| ==> r.free[i] != r.free[j]
  {
    hide RunsOk, Linked, FreePages, Distinct, Tagged;
    FreeNext(ps, head, r, k);
  }

  /** After a second entry into the list, whatever insert_page does, the record is its own predecessor. */
  lemma {:induction false} SelfLinked(ps: seq<Page>, head: Page, r: Runs, k: nat, merged: bool, end: seq<Page>)
    requires k < |r.free| && r.free[k] < |ps| && BehindOk(TwiceOf(ps, r.free, k), r.free[k])
    requires forall i, j :: 0 <= i < j < |r.free| ==> r.free[i] != r.free[j]
    requires var t, was := r.free[k], TwiceOf(ps, r.free, k);
             if merged then t + was[t].num < |ps| && was[t + was[t].num].flags == 0 && end == MergedOf(was, t, t + was[t].num) else end == was
    ensures |end| == |ps| && end[r.free[k]].pre == At(r.free[k]) && !Linked(end, head, r.free)
  {
    if Linked(end, head, r.free) { assert LinksAt(end, r.free, k); }
  }

  lemma {:induction false} PlaceFirst(n: nat, r: Runs, t: nat)
    requires RunsOk(n, r) && (r.free == [] || r.free[0] > t)
    ensures Place(r, t, 0)
  {}

  lemma {:induction false} PlaceAfter(n: nat, r: Runs, t: nat, k: nat)
    requires RunsOk(n, r) && 0 < k <= |r.free| && r.free[k - 1] < t && (k == |r.free| || t < r.free[k])
    ensures Place(r, t, k)
  {}

  lemma {:induction false} NotHere(r: Runs, t: nat)
    requires Live(r, t)
    ensures forall i :: 0 <= i < |r.free| ==> r.free[i] != t
  {}

  lemma {:induction false} Given(ps: seq<Page>, head: Page, r: Runs, t: nat, k: nat)
    requires RunsOk(|ps|, r) && Tagged(ps, r) && Linked(ps, head, r.free) && Live(r, t) && Place(r, t, k)
    ensures t < |ps| && RunsOk(|ps|, GiveOf(r, t, k)) && Listed(GiveOf(r, t, k)) && Listed(r)
    ensures FreePages(GiveOf(r, t, k)) == FreePages(r) + r.lens[t]
    ensures k < |GiveOf(r, t, k).free| && GiveOf(r, t, k).free[k] == t
    ensures var ps' := InsertOf(ps, t, PtrAt(r.free, k - 1), PtrAt(r.free, k));
            Linked(ps', HeadNxt(head, PtrAt(r.free, k - 1), At(t)), GiveOf(r, t, k).free) && Tagged(ps', GiveOf(r, t, k))
  {
    hide RunsOk, Linked, Tagged;
    GiveTiles(|ps|, r, t, k);
    InsertPages(ps, head, r, t, k);
  }

  lemma {:induction false} ListedIf(n: nat, r: Runs)
    requires RunsOk(n, r)
    ensures Listed(r)
  {}

  /** What the list says about the k-th free run and its neighbours. */
  lemma {:induction false} LinkFacts(ps: seq<Page>, head: Page, r: Runs, k: nat, nums: nat)
    requires RunsOk(|ps|, r) && Tagged(ps, r) && Linked(ps, head, r.free) && k < |r.free| && r.free[k] in r.lens
    ensures var h := r.free[k];
            h < |ps| && ps[h].num == r.lens[h] > 0 && h + r.lens[h] <= |ps| && Distinct(r.free)
            && ps[h].pre == PtrAt(r.free, k - 1) && ps[h].nxt == PtrAt(r.free, k + 1)
            && (0 < nums < r.lens[h] ==> h + nums !in r.lens && h + nums !in r.free)
    ensures forall j: nat :: j < |r.free| ==> r.free[j] < |ps|
    ensures forall i, j :: 0 <= i < j < |r.free| ==> r.free[i] != r.free[j]
  {
    SortedDistinct(r.free);
    assert LinksAt(ps, r.free, k) && Meets(|ps|, r.lens, r.free[k]);
    forall j: nat | j < |r.free| ensures r.free[j] < |ps| {
      assert LinksAt(ps, r.free, j);
    }
  }
}
