/** The page-run allocator over values: a table of page records whose runs tile the memory, and
    a doubly linked list through the records of the free runs. */
module PmmSpec {

  /** A PAGE*: null, the allocator's own head record, or a record of the page table. */
  datatype Ptr = Null | Head | At(i: nat)

  /** struct PAGE: flags 0 marks a free run's first page; num is the run's length. */
  datatype Page = Page(flags: nat, num: nat, ref: nat, pre: Ptr, nxt: Ptr)

  /** The runs: their lengths by first page, and the first pages of the free ones in list order. */
  datatype Runs = Runs(lens: map<nat, nat>, free: seq<nat>)

  // ----- runs

  /** Runs cover the pages 0 .. n without gap or overlap. */
  ghost predicate Tiles(n: nat, lens: map<nat, nat>) {
    0 in lens && (forall h :: h in lens ==> Meets(n, lens, h)) && Apart(lens)
  }

  /** A run ends where the next one starts, or at the end of memory. */
  ghost predicate Meets(n: nat, lens: map<nat, nat>, h: nat)
    requires h in lens
  {
    lens[h] > 0 && h + lens[h] <= n && (h + lens[h] < n ==> h + lens[h] in lens)
  }

  ghost predicate Apart(lens: map<nat, nat>) {
    forall h, g :: h in lens && g in lens && h < g ==> h + lens[h] <= g
  }

  ghost predicate Sorted(s: seq<nat>) {
    forall i, j :: 0 <= i < j < |s| ==> s[i] < s[j]
  }

  ghost predicate RunsOk(n: nat, r: Runs) {
    Tiles(n, r.lens) && Sorted(r.free) && forall h :: h in r.free ==> h in r.lens
  }

  ghost predicate Live(r: Runs, h: nat) {
    h in r.lens && h !in r.free
  }

  /** The pages of a live run belong to no other run. */
  lemma {:induction false} LiveApart(n: nat, r: Runs, h: nat, g: nat, p: nat)
    requires RunsOk(n, r) && Live(r, h) && g in r.lens && h <= p < h + r.lens[h] && g <= p < g + r.lens[g]
    ensures g == h
  {}

  /** Every page belongs to a run. */
  lemma {:induction false} Covered(n: nat, lens: map<nat, nat>, p: nat)
    requires Tiles(n, lens) && p < n
    ensures exists h :: h in lens && h <= p < h + lens[h]
  {
    CoveredFrom(n, lens, p, 0);
  }

  lemma {:induction false} CoveredFrom(n: nat, lens: map<nat, nat>, p: nat, h: nat)
    requires Tiles(n, lens) && h in lens && h <= p < n
    ensures exists g :: g in lens && g <= p < g + lens[g]
    decreases p - h
  {
    hide Tiles, Apart;
    MeetsAt(n, lens, h);
    if p >= h + lens[h] {
      CoveredFrom(n, lens, p, h + lens[h]);
    }
  }

  lemma {:induction false} MeetsAt(n: nat, lens: map<nat, nat>, h: nat)
    requires Tiles(n, lens) && h in lens
    ensures lens[h] > 0 && h + lens[h] <= n && (h + lens[h] < n ==> h + lens[h] in lens)
  {
    hide Apart;
    assert Meets(n, lens, h);
  }

  ghost function Sum(s: seq<nat>): nat {
    if s == [] then 0 else s[0] + Sum(s[1..])
  }

  lemma {:induction false} SumConcat(a: seq<nat>, b: seq<nat>)
    ensures Sum(a + b) == Sum(a) + Sum(b)
  {
    if a == [] {
      assert a + b == b;
    } else {
      assert (a + b)[1..] == a[1..] + b;
      SumConcat(a[1..], b);
    }
  }

  lemma {:induction false} SumThree(a: seq<nat>, x: nat, b: seq<nat>)
    ensures Sum(a + [x] + b) == Sum(a) + x + Sum(b)
  {
    SumConcat(a + [x], b);
    SumConcat(a, [x]);
    assert [x][1..] == [];
  }

  ghost predicate Listed(r: Runs) { forall i :: 0 <= i < |r.free| ==> r.free[i] in r.lens }

  ghost function Lengths(r: Runs): seq<nat>
    requires Listed(r)
  {
    seq(|r.free|, i requires 0 <= i < |r.free| => r.lens[r.free[i]])
  }

  /** The number of pages in free runs. */
  ghost function FreePages(r: Runs): nat
    requires Listed(r)
  {
    Sum(Lengths(r))
  }

  // ----- taking pages from a free run

  /** The first `nums` pages of the k-th free run are taken. */
  function TakeOf(r: Runs, k: nat, nums: nat): Runs
    requires k < |r.free| && r.free[k] in r.lens && 0 < nums <= r.lens[r.free[k]]
  {
    var h: nat := r.free[k];
    if nums < r.lens[h] then
      Runs(r.lens[h := nums][h + nums := r.lens[h] - nums], r.free[k := h + nums])
    else
      Runs(r.lens, r.free[..k] + r.free[k + 1..])
  }

  /** Cutting a run in two. */
  lemma {:induction false} SplitTiles(n: nat, lens: map<nat, nat>, h: nat, nums: nat)
    requires Tiles(n, lens) && h in lens && 0 < nums < lens[h]
    ensures h + nums !in lens && Tiles(n, lens[h := nums][h + nums := lens[h] - nums])
  {
    hide Apart;
    SplitApart(lens, h, nums);
    var t := lens[h := nums][h + nums := lens[h] - nums];
    assert Meets(n, lens, h);
    forall g | g in t ensures Meets(n, t, g) {
      if g != h && g != h + nums {
        assert g in lens && t[g] == lens[g] && Meets(n, lens, g);
      }
    }
  }

  lemma {:induction false} SplitApart(lens: map<nat, nat>, h: nat, nums: nat)
    requires Apart(lens) && h in lens && 0 < nums < lens[h]
    ensures h + nums !in lens && Apart(lens[h := nums][h + nums := lens[h] - nums])
  {
    var t := lens[h := nums][h + nums := lens[h] - nums];
    forall a, b | a in t && b in t && a < b ensures a + t[a] <= b {
      assert a != h && a != h + nums ==> a in lens && t[a] == lens[a];
      assert b != h + nums ==> b in lens;
    }
  }

  /** Joining a run and the one behind it. */
  lemma {:induction false} JoinTiles(n: nat, lens: map<nat, nat>, h: nat)
    requires Tiles(n, lens) && h in lens && h + lens[h] in lens
    ensures Tiles(n, (lens - {h + lens[h]})[h := lens[h] + lens[h + lens[h]]])
  {
    hide Apart;
    var g: nat := h + lens[h];
    var t := (lens - {g})[h := lens[h] + lens[g]];
    JoinApart(lens, h, g);
    assert Meets(n, lens, h) && Meets(n, lens, g);
    assert t[h] == lens[h] + lens[g];
    forall x | x in t ensures Meets(n, t, x) {
      if x != h {
        NotInto(lens, h, g, x);
        assert t[x] == lens[x] && Meets(n, lens, x);
      }
    }
  }

  /** Only h ends at g. */
  lemma {:induction false} NotInto(lens: map<nat, nat>, h: nat, g: nat, x: nat)
    requires Apart(lens) && h in lens && x in lens && x != h && g == h + lens[h] && g in lens && lens[x] > 0 && lens[h] > 0
    ensures x + lens[x] != g
  {}

  lemma {:induction false} JoinApart(lens: map<nat, nat>, h: nat, g: nat)
    requires Apart(lens) && h in lens && g == h + lens[h] && g in lens && lens[h] > 0
    ensures Apart((lens - {g})[h := lens[h] + lens[g]])
  {
    var t := (lens - {g})[h := lens[h] + lens[g]];
    forall a, b | a in t && b in t && a < b ensures a + t[a] <= b {
      assert a in lens && b in lens && b != g;
      assert a != h ==> t[a] == lens[a];
      assert a == h ==> g < b;
    }
  }

  lemma {:induction false} FreeAt(n: nat, r: Runs, k: nat)
    requires RunsOk(n, r) && k < |r.free|
    ensures r.free[k] in r.free && r.free[k] in r.lens
    ensures forall i :: k < i < |r.free| ==> r.free[k] + r.lens[r.free[k]] <= r.free[i]
    ensures forall i :: 0 <= i < k ==> r.free[i] < r.free[k]
  {
    forall i | k < i < |r.free| ensures r.free[k] + r.lens[r.free[k]] <= r.free[i] {
      assert r.free[i] in r.free && r.free[k] < r.free[i];
    }
  }

  lemma {:induction false} TakeTiles(n: nat, r: Runs, k: nat, nums: nat)
    requires RunsOk(n, r) && k < |r.free| && r.free[k] in r.lens && 0 < nums <= r.lens[r.free[k]]
    ensures RunsOk(n, TakeOf(r, k, nums))
    ensures Live(TakeOf(r, k, nums), r.free[k]) && TakeOf(r, k, nums).lens[r.free[k]] == nums
    ensures forall h :: Live(r, h) ==> Live(TakeOf(r, k, nums), h) && TakeOf(r, k, nums).lens[h] == r.lens[h]
  {
    hide Tiles;
    var h: nat := r.free[k];
    var t := TakeOf(r, k, nums);
    FreeAt(n, r, k);
    if nums < r.lens[h] { SplitTiles(n, r.lens, h, nums); }
  }

  lemma {:induction false} TakeCount(n: nat, r: Runs, k: nat, nums: nat)
    requires RunsOk(n, r) && k < |r.free| && r.free[k] in r.lens && 0 < nums <= r.lens[r.free[k]]
    requires RunsOk(n, TakeOf(r, k, nums))
    ensures FreePages(TakeOf(r, k, nums)) == FreePages(r) - nums
  {
    hide Tiles, Sum;
    var h: nat := r.free[k];
    var t := TakeOf(r, k, nums);
    var a, b := Lengths(r)[..k], Lengths(r)[k + 1..];
    SumThree(a, r.lens[h], b);
    assert Lengths(r) == a + [r.lens[h]] + b;
    FreeAt(n, r, k);
    if nums < r.lens[h] {
      SumThree(a, r.lens[h] - nums, b);
      SplitKeys(n, r.lens, h, nums);
      assert Lengths(t) == a + [r.lens[h] - nums] + b;
    } else {
      SumConcat(a, b);
      assert Lengths(t) == a + b;
    }
  }

  lemma {:induction false} SplitKeys(n: nat, lens: map<nat, nat>, h: nat, nums: nat)
    requires Tiles(n, lens) && h in lens && 0 < nums < lens[h]
    ensures h + nums !in lens
  {}

  // ----- giving a run back

  /** Live run h goes to position k of the free list. */
  function GiveOf(r: Runs, h: nat, k: nat): Runs
    requires k <= |r.free|
  {
    Runs(r.lens, r.free[..k] + [h] + r.free[k..])
  }

  /** The k-th free run swallows the run behind it, which is the next in the list. */
  function MergeOf(r: Runs, k: nat): Runs
    requires k + 1 < |r.free| && r.free[k] in r.lens && r.free[k + 1] in r.lens
  {
    Runs((r.lens - {r.free[k + 1]})[r.free[k] := r.lens[r.free[k]] + r.lens[r.free[k + 1]]],
         r.free[..k + 1] + r.free[k + 2..])
  }

  /** Position k is where h belongs. */
  ghost predicate Place(r: Runs, h: nat, k: nat) {
    k <= |r.free| && (forall i :: 0 <= i < k ==> r.free[i] < h) && (forall i :: k <= i < |r.free| ==> h < r.free[i])
  }

  /** A free run right behind the k-th free run is the next in the list. */
  lemma {:induction false} NextInList(n: nat, r: Runs, k: nat)
    requires RunsOk(n, r) && k < |r.free| && r.free[k] in r.lens && r.free[k] + r.lens[r.free[k]] in r.free
    ensures k + 1 < |r.free| && r.free[k + 1] == r.free[k] + r.lens[r.free[k]] && r.free[k + 1] in r.lens
  {
    hide RunsOk, Tiles, Apart, Sorted;
    var g := r.free[k] + r.lens[r.free[k]];
    FreeAt(n, r, k);
    RunPositive(n, r, r.free[k]);
    var i :| 0 <= i < |r.free| && r.free[i] == g;
    if i <= k {
      assert false;
    }
    FreeAt(n, r, k + 1);
  }

  lemma {:induction false} RunPositive(n: nat, r: Runs, h: nat)
    requires RunsOk(n, r) && h in r.lens
    ensures r.lens[h] > 0
  {
    MeetsAt(n, r.lens, h);
  }

  lemma {:induction false} SortedInsert(s: seq<nat>, h: nat, k: nat)
    requires Sorted(s) && k <= |s| && (forall i :: 0 <= i < k ==> s[i] < h) && (forall i :: k <= i < |s| ==> h < s[i])
    ensures Sorted(s[..k] + [h] + s[k..])
    ensures forall x :: x in s[..k] + [h] + s[k..] <==> x in s || x == h
  {
    assert s == s[..k] + s[k..];
  }

  lemma {:induction false} SortedRemove(s: seq<nat>, k: nat)
    requires Sorted(s) && k < |s|
    ensures Sorted(s[..k] + s[k + 1..])
    ensures forall x :: x in s[..k] + s[k + 1..] <==> x in s && x != s[k]
    ensures forall i :: 0 <= i < |s| && i != k ==> s[i] != s[k]
  {
    assert s == s[..k] + [s[k]] + s[k + 1..];
  }

  lemma {:induction false} GiveTiles(n: nat, r: Runs, h: nat, k: nat)
    requires RunsOk(n, r) && Live(r, h) && Place(r, h, k)
    ensures RunsOk(n, GiveOf(r, h, k)) && Listed(GiveOf(r, h, k)) && Listed(r)
    ensures forall g :: Live(GiveOf(r, h, k), g) <==> Live(r, g) && g != h
    ensures FreePages(GiveOf(r, h, k)) == FreePages(r) + r.lens[h]
  {
    hide Tiles, Sorted, Sum;
    SortedInsert(r.free, h, k);
    var t := GiveOf(r, h, k);
    var a, b := Lengths(r)[..k], Lengths(r)[k..];
    SumConcat(a, b);
    assert Lengths(r) == a + b;
    SumThree(a, r.lens[h], b);
    assert Lengths(t) == a + [r.lens[h]] + b;
  }

  lemma {:induction false} MergeTiles(n: nat, r: Runs, k: nat)
    requires RunsOk(n, r) && k + 1 < |r.free| && r.free[k] in r.lens && r.free[k + 1] in r.lens
    requires r.free[k + 1] == r.free[k] + r.lens[r.free[k]]
    ensures RunsOk(n, MergeOf(r, k)) && Listed(MergeOf(r, k)) && Listed(r)
    ensures forall g :: Live(MergeOf(r, k), g) <==> Live(r, g)
    ensures forall g :: Live(r, g) ==> MergeOf(r, k).lens[g] == r.lens[g]
    ensures FreePages(MergeOf(r, k)) == FreePages(r)
  {
    hide Tiles, Sorted, Sum, FreePages;
    SortedRemove(r.free, k + 1);
    var t := MergeOf(r, k);
    var h: nat := r.free[k];
    assert h in r.free && r.free[k + 1] in r.free && t.free[k] == h;
    JoinTiles(n, r.lens, h);
    MergeCount(n, r, k);
  }

  lemma {:induction false} MergeCount(n: nat, r: Runs, k: nat)
    requires Sorted(r.free) && Listed(r) && k + 1 < |r.free| && Listed(MergeOf(r, k))
    ensures FreePages(MergeOf(r, k)) == FreePages(r)
  {
    hide Sum;
    var s := Lengths(r);
    var a, b := s[..k], s[k + 2..];
    SumThree(a, s[k] + s[k + 1], b);
    SumThree(a + [s[k]], s[k + 1], b);
    SumThree(a, s[k], []);
    assert a + [s[k]] + [] == a + [s[k]];
    SumNone();
    assert s == a + [s[k]] + [s[k + 1]] + b;
    SortedRemove(r.free, k);
    SortedRemove(r.free, k + 1);
    assert Lengths(MergeOf(r, k)) == a + [s[k] + s[k + 1]] + b;
  }

  lemma {:induction false} SumNone()
    ensures Sum([]) == 0
  {}

  lemma {:induction false} SumHead(s: seq<nat>)
    requires s != []
    ensures Sum(s) == s[0] + Sum(s[1..])
  {}
}
