/** The sort array of a leaf split and its bubble sort, which is stable: the result is a function of the
    input. */
module HtreeSort {
  import opened DirNames
  import opened DirBlock
  import opened HtreeImage

  /** ext4_dx_sort_entry: a copied record with its hash and packed length. */
  datatype Item = Item(hash: nat, len: nat, rec: Rec)

  predicate ItemOk(it: Item, raw: Name -> nat) {
    && it.rec.inode != 0
    && 0 < |it.rec.name| <= MAX_NAME && it.rec.ftype != DIR_CSUM
    && it.len == Need(|it.rec.name|)
    && it.hash == Hash(raw, it.rec.name)
  }

  ghost predicate ItemsOk(items: seq<Item>, raw: Name -> nat) {
    forall i :: 0 <= i < |items| ==> ItemOk(items[i], raw)
  }

  // ----- the order by hash

  ghost predicate SortedItems(s: seq<Item>) {
    forall i, j :: 0 <= i < j < |s| ==> s[i].hash <= s[j].hash
  }

  /** x behind the items of a sorted list whose hash is not larger. */
  function Insert(s: seq<Item>, x: Item): seq<Item> {
    if s == [] || s[|s| - 1].hash <= x.hash then s + [x] else Insert(s[..|s| - 1], x) + [s[|s| - 1]]
  }

  /** The list by hash, equal hashes in their old order. */
  function ByHash(s: seq<Item>): seq<Item> {
    if s == [] then [] else Insert(ByHash(s[..|s| - 1]), s[|s| - 1])
  }

  /** The items with hash h, in order. */
  ghost function OfHash(s: seq<Item>, h: nat): seq<Item> {
    if s == [] then []
    else OfHash(s[..|s| - 1], h) + if s[|s| - 1].hash == h then [s[|s| - 1]] else []
  }

  /** Items of equal hash stand in the same order in both lists, and both have the same items. */
  ghost predicate SameOrder(s: seq<Item>, t: seq<Item>) {
    multiset(s) == multiset(t) && forall h: nat :: OfHash(s, h) == OfHash(t, h)
  }

  lemma {:induction false} OfHashSnoc(a: seq<Item>, x: Item, h: nat)
    ensures OfHash(a + [x], h) == OfHash(a, h) + if x.hash == h then [x] else []
  {
    var s := a + [x];
    assert s[..|s| - 1] == a && s[|s| - 1] == x;
  }

  lemma {:induction false} OfHashConcat(a: seq<Item>, b: seq<Item>, h: nat)
    ensures OfHash(a + b, h) == OfHash(a, h) + OfHash(b, h)
  {
    hide OfHash;
    if b == [] {
      assert a + b == a;
      OfHashNil(h);
    } else {
      var c, x := b[..|b| - 1], b[|b| - 1];
      OfHashConcat(a, c, h);
      OfHashSnoc(a + c, x, h);
      OfHashSnoc(c, x, h);
      assert b == c + [x] && a + b == (a + c) + [x];
    }
  }

  lemma {:induction false} OfHashNil(h: nat)
    ensures OfHash([], h) == []
  {}

  lemma {:induction false} OfHashOne(x: Item, h: nat)
    ensures OfHash([x], h) == if x.hash == h then [x] else []
  {
    assert [x][..0] == [];
  }

  /** Appending to the sorted list or going in front of larger items, the new item is last of its hash. */
  lemma {:induction false} InsertOk(s: seq<Item>, x: Item)
    requires SortedItems(s)
    ensures SortedItems(Insert(s, x)) && multiset(Insert(s, x)) == multiset(s + [x])
    ensures forall h: nat :: OfHash(Insert(s, x), h) == OfHash(s + [x], h)
  {
    hide OfHash;
    if s == [] || s[|s| - 1].hash <= x.hash {
    } else {
      var n := |s| - 1;
      var y := s[n];
      InsertOk(s[..n], x);
      var t := Insert(s[..n], x);
      assert Insert(s, x) == t + [y];
      assert s == s[..n] + [y];
      InsertedLast(s[..n], t, x, y);
      SortedBefore(s, t, x);
      forall h: nat ensures OfHash(t + [y], h) == OfHash(s + [x], h) {
        OfHashConcat(t, [y], h);
        OfHashConcat(s[..n], [x], h);
        PairOrder(x, y, h);
        OfHashConcat(s[..n], [y] + [x], h);
        assert s + [x] == s[..n] + ([y] + [x]);
        OfHashConcat([x], [y], h);
      }
    }
  }

  lemma {:induction false} InsertedLast(s: seq<Item>, t: seq<Item>, x: Item, y: Item)
    requires multiset(t) == multiset(s + [x])
    ensures multiset(t + [y]) == multiset(s + [y] + [x])
  {}

  lemma {:induction false} SortedBefore(s: seq<Item>, t: seq<Item>, x: Item)
    requires SortedItems(s) && s != [] && x.hash < s[|s| - 1].hash
    requires SortedItems(t) && multiset(t) == multiset(s[..|s| - 1] + [x])
    ensures SortedItems(t + [s[|s| - 1]])
  {
    forall i | 0 <= i < |t| ensures t[i].hash <= s[|s| - 1].hash {
      assert t[i] in multiset(s[..|s| - 1] + [x]);
    }
  }

  /** The order of two items of different hash cannot be seen hash by hash. */
  lemma {:induction false} PairOrder(x: Item, y: Item, h: nat)
    requires x.hash != y.hash
    ensures OfHash([x] + [y], h) == OfHash([y] + [x], h)
  {
    OfHashConcat([x], [y], h);
    OfHashConcat([y], [x], h);
    OfHashOne(x, h);
    OfHashOne(y, h);
  }

  /** The list by hash is sorted and keeps the order of equal hashes. */
  lemma {:induction false} ByHashOk(s: seq<Item>)
    ensures SortedItems(ByHash(s)) && SameOrder(s, ByHash(s)) && |ByHash(s)| == |s|
  {
    hide OfHash, Insert;
    if s != [] {
      var n := |s| - 1;
      var t := ByHash(s[..n]);
      ByHashOk(s[..n]);
      InsertOk(t, s[n]);
      assert s == s[..n] + [s[n]];
      forall h: nat ensures OfHash(ByHash(s), h) == OfHash(s, h) {
        OfHashConcat(t, [s[n]], h);
        OfHashConcat(s[..n], [s[n]], h);
      }
      assert |multiset(ByHash(s))| == |multiset(t + [s[n]])|;
    }
  }

  lemma {:induction false} LastOfHash(s: seq<Item>)
    requires s != []
    ensures var h, n := s[|s| - 1].hash, |s| - 1;
      OfHash(s, h) != [] && OfHash(s, h)[|OfHash(s, h)| - 1] == s[n]
  {}

  lemma {:induction false} OfHashMember(s: seq<Item>, h: nat)
    requires OfHash(s, h) != []
    ensures exists i :: 0 <= i < |s| && s[i].hash == h
  {
    var n := |s| - 1;
    if s[n].hash != h {
      OfHashMember(s[..n], h);
      var i :| 0 <= i < n && s[..n][i].hash == h;
      assert s[i].hash == h;
    }
  }

  /** Sorted lists with the same order end in the same item. */
  lemma {:induction false} SameLast(s: seq<Item>, t: seq<Item>)
    requires SortedItems(s) && SortedItems(t) && SameOrder(s, t) && s != [] && |t| == |s|
    ensures s[|s| - 1] == t[|s| - 1]
  {
    hide OfHash;
    var n := |s| - 1;
    LastOfHash(s);
    LastOfHash(t);
    OfHashMember(t, s[n].hash);
    OfHashMember(s, t[n].hash);
  }

  lemma {:induction false} SameFront(s: seq<Item>, t: seq<Item>, x: Item)
    requires SameOrder(s + [x], t + [x])
    ensures SameOrder(s, t)
  {
    hide OfHash;
    forall h: nat ensures OfHash(s, h) == OfHash(t, h) {
      OfHashConcat(s, [x], h);
      OfHashConcat(t, [x], h);
      CancelTail(OfHash(s, h), OfHash(t, h), OfHash([x], h));
    }
    CancelOne(multiset(s), multiset(t), x);
  }

  /** A list has only one sorted form that keeps the order of equal hashes. */
  lemma {:induction false} OneSortedForm(s: seq<Item>, t: seq<Item>)
    requires SortedItems(s) && SortedItems(t) && SameOrder(s, t)
    ensures s == t
  {
    hide OfHash;
    assert |s| == |multiset(s)| == |multiset(t)| == |t|;
    if s != [] {
      var n := |s| - 1;
      SameLast(s, t);
      assert s == s[..n] + [s[n]] && t == t[..n] + [s[n]];
      SameFront(s[..n], t[..n], s[n]);
      OneSortedForm(s[..n], t[..n]);
    }
  }

  lemma {:induction false} CancelTail<T>(a: seq<T>, b: seq<T>, c: seq<T>)
    requires a + c == b + c
    ensures a == b
  {
    assert |a + c| == |a| + |c| && |b + c| == |b| + |c|;
    assert a == (a + c)[..|a|] && b == (b + c)[..|b|];
  }

  lemma {:induction false} CancelOne<T>(a: multiset<T>, b: multiset<T>, x: T)
    requires a + multiset{x} == b + multiset{x}
    ensures a == b
  {
    assert a == a + multiset{x} - multiset{x} && b == b + multiset{x} - multiset{x};
  }

  /** A sorted list is its own list by hash. */
  lemma {:induction false} SortedByHash(s: seq<Item>)
    requires SortedItems(s)
    ensures ByHash(s) == s
  {
    ByHashOk(s);
    OneSortedForm(s, ByHash(s));
  }

  // ----- sorting

  /** Everything from m on is in its final place. */
  ghost predicate Settled(s: seq<Item>, m: nat) {
    forall k, l :: 0 <= k < l < |s| && m <= l ==> s[k].hash <= s[l].hash
  }

  /** No item before j has a larger hash than item j. */
  ghost predicate TopAt(s: seq<Item>, j: nat)
    requires j < |s|
  {
    forall k :: 0 <= k < j ==> s[k].hash <= s[j].hash
  }

  ghost function Swapped(s: seq<Item>, j: nat): seq<Item>
    requires j + 1 < |s|
  {
    s[j := s[j + 1]][j + 1 := s[j]]
  }

  lemma {:induction false} SwappedOk(s: seq<Item>, j: nat, m: nat)
    requires j + 1 < m <= |s| && Settled(s, m) && TopAt(s, j) && s[j].hash > s[j + 1].hash
    ensures Settled(Swapped(s, j), m) && TopAt(Swapped(s, j), j + 1)
  {}

  /** Swapping neighbours of different hash keeps the order of equal hashes. */
  lemma {:induction false} SwapKeepsOrder(s: seq<Item>, j: nat)
    requires j + 1 < |s| && s[j].hash != s[j + 1].hash
    ensures SameOrder(s, Swapped(s, j))
  {
    hide OfHash;
    var a, x, y, b := s[..j], s[j], s[j + 1], s[j + 2..];
    assert s == a + ([x] + [y]) + b && Swapped(s, j) == a + ([y] + [x]) + b;
    SwappedSame(s, j);
    forall h: nat ensures OfHash(s, h) == OfHash(Swapped(s, j), h) {
      PairOrder(x, y, h);
      OfHashMiddle(a, [x] + [y], [y] + [x], b, h);
    }
  }

  lemma {:induction false} SwappedSame(s: seq<Item>, j: nat)
    requires j + 1 < |s|
    ensures multiset(Swapped(s, j)) == multiset(s)
  {}

  lemma {:induction false} OfHashMiddle(a: seq<Item>, p: seq<Item>, q: seq<Item>, b: seq<Item>, h: nat)
    requires OfHash(p, h) == OfHash(q, h)
    ensures OfHash(a + p + b, h) == OfHash(a + q + b, h)
  {
    hide OfHash;
    OfHashConcat(a + p, b, h);
    OfHashConcat(a + q, b, h);
    OfHashConcat(a, p, h);
    OfHashConcat(a, q, h);
  }

  lemma {:induction false} OrderThen(s: seq<Item>, t: seq<Item>, u: seq<Item>)
    requires SameOrder(s, t) && SameOrder(t, u)
    ensures SameOrder(s, u)
  {
    hide OfHash;
  }

  lemma {:induction false} OrderSame(s: seq<Item>)
    ensures SameOrder(s, s)
  {}

  /** One pass of _qsort's inner loop: the largest of the first m items moves to place m - 1. */
  method BubblePass(a: array<Item>, m: nat)
    requires 1 <= m <= a.Length && Settled(a[..], m)
    modifies a
    ensures SameOrder(old(a[..]), a[..])
    ensures Settled(a[..], m - 1)
  {
    hide Settled, TopAt, SameOrder;
    var j := 0;
    FirstTop(a[..]);
    OrderSame(a[..]);
    while j < m - 1
      invariant 0 <= j <= m - 1
      invariant SameOrder(old(a[..]), a[..])
      invariant Settled(a[..], m) && TopAt(a[..], j)
    {
      ghost var s := a[..];
      if a[j].hash > a[j + 1].hash {
        a[j], a[j + 1] := a[j + 1], a[j];
        assert a[..] == Swapped(s, j);
        SwappedOk(s, j, m);
        SwapKeepsOrder(s, j);
        OrderThen(old(a[..]), s, a[..]);
      } else {
        NextTop(s, j);
      }
      j := j + 1;
    }
    SettleOne(a[..], m);
  }

  lemma {:induction false} FirstTop(s: seq<Item>)
    requires |s| > 0
    ensures TopAt(s, 0)
  {}

  lemma {:induction false} NextTop(s: seq<Item>, j: nat)
    requires j + 1 < |s| && TopAt(s, j) && s[j].hash <= s[j + 1].hash
    ensures TopAt(s, j + 1)
  {}

  lemma {:induction false} SettleOne(s: seq<Item>, m: nat)
    requires 1 <= m <= |s| && Settled(s, m) && TopAt(s, m - 1)
    ensures Settled(s, m - 1)
  {}

  lemma {:induction false} Bubbled(s: seq<Item>, t: seq<Item>)
    requires SameOrder(s, t) && Settled(t, 1)
    ensures t == ByHash(s)
  {
    hide OfHash, ByHash;
    ByHashOk(s);
    OneSortedForm(t, ByHash(s));
  }

  /** _qsort: a bubble sort, in place. The comparison is by hash alone, and only neighbours out of order
      are swapped. */
  method BubbleSort(a: array<Item>)
    requires a.Length >= 2
    modifies a
    ensures a[..] == ByHash(old(a[..]))
  {
    hide SameOrder, ByHash;
    var n := a.Length;
    var i := 0;
    OrderSame(a[..]);
    while i < n - 1
      invariant 0 <= i <= n - 1
      invariant SameOrder(old(a[..]), a[..])
      invariant Settled(a[..], n - i)
    {
      ghost var s := a[..];
      BubblePass(a, n - i);
      OrderThen(old(a[..]), s, a[..]);
      i := i + 1;
    }
    Bubbled(old(a[..]), a[..]);
  }
}
