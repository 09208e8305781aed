/** Looking a name up through the index, and the linear scan it must agree with. */
module HtreeLookup {
  import opened DirNames
  import opened DirBlock
  import opened HtreeImage

  /** One level of the path: an index block and the position reached in it. */
  datatype Cursor = Cursor(blk: nat, pos: nat)

  datatype PathResult = PathOk(path: seq<Cursor>) | BadIndex

  /** Where an entry was found: block and record number. */
  datatype FindResult = Found(blk: nat, rec: nat) | NotFound | BadDir

  function En(img: Image, b: nat): seq<Idx>
    requires b < |img| && !img[b].Leaf?
  {
    img[b].en
  }

  predicate OnPath(img: Image, c: Cursor) {
    c.blk < |img| && !img[c.blk].Leaf? && c.pos < |En(img, c.blk)|
  }

  /** A path from the root to an entry of a lowest-level index block. */
  predicate ValidPath(img: Image, path: seq<Cursor>)
    requires Typed(img)
  {
    && img[0].levels <= 1
    && |path| == img[0].levels + 1
    && path[0].blk == 0
    && OnPath(img, path[0])
    && (|path| == 2 ==> OnPath(img, path[1]) && img[path[1].blk].Node? && path[1].blk == En(img, 0)[path[0].pos].block)
  }

  /** The flat slot a path stands for. */
  ghost function Position(img: Image, bs: nat, path: seq<Cursor>): (p: nat)
    requires Shape(img, bs) && ValidPath(img, path)
    ensures p < |Flat(img, bs)|
  {
    if img[0].levels == 0 then path[0].pos
    else
      ShapeNodes(img, bs);
      KidAt(img[0].en, img, path[0].pos, path[1].pos);
      |Kids(img[0].en, img, path[0].pos)| + path[1].pos
  }

  lemma {:induction false} ShapeNodes(img: Image, bs: nat)
    requires Shape(img, bs) && img[0].levels == 1
    ensures forall k :: 0 <= k < |img[0].en| ==> IsNode(img, img[0].en[k].block)
  {
    forall k | 0 <= k < |img[0].en| ensures IsNode(img, img[0].en[k].block) {
      assert NodeCounts(img, img[0].en[k].block, bs);
    }
  }

  /** The leaf block a path ends at. */
  function LeafOf(img: Image, path: seq<Cursor>): nat
    requires Typed(img) && ValidPath(img, path)
  {
    var c := path[|path| - 1];
    En(img, c.blk)[c.pos].block
  }

  /** What the flat view says at a path's position and right behind it. */
  lemma {:induction false} AtPosition(img: Image, bs: nat, path: seq<Cursor>)
    requires Shape(img, bs) && ValidPath(img, path)
    ensures var f := Flat(img, bs);
            var p := Position(img, bs, path);
            var last := path[|path| - 1];
            var en := En(img, last.blk);
            && f[p].block == LeafOf(img, path) && IsLeaf(img, f[p].block)
            && (last.pos > 0 ==> f[p].hash == en[last.pos].hash)
            && (last.pos == 0 ==> f[p].hash == if |path| == 1 then 0 else Low(img[0].en, path[0].pos))
            && (p == 0 ==> f[p].hash == 0)
            && (last.pos + 1 < |en| ==> p + 1 < |f| && f[p + 1] == en[last.pos + 1])
            && (last.pos + 1 == |en| && |path| == 1 ==> p + 1 == |f|)
  {
    hide Kids;
    if img[0].levels == 1 {
      ShapeNodes(img, bs);
      KidAt(img[0].en, img, path[0].pos, path[1].pos);
      assert NodeTyped(img, img[0].en[path[0].pos].block);
      KidsPrefix(img[0].en, img, 0, path[0].pos);
    }
  }

  /** Crossing from the last entry of one child to the first of the next. */
  lemma {:induction false} AtBoundary(img: Image, bs: nat, path: seq<Cursor>)
    requires Shape(img, bs) && ValidPath(img, path) && |path| == 2
    requires path[1].pos + 1 == |En(img, path[1].blk)|
    ensures var f := Flat(img, bs);
            var p := Position(img, bs, path);
            var k := path[0].pos + 1;
            && (k == |img[0].en| ==> p + 1 == |f|)
            && (k < |img[0].en| ==>
                  p + 1 < |f| && f[p + 1].hash == img[0].en[k].hash
                  && IsNode(img, img[0].en[k].block)
                  && ValidPath(img, [Cursor(0, k), Cursor(img[0].en[k].block, 0)])
                  && Position(img, bs, [Cursor(0, k), Cursor(img[0].en[k].block, 0)]) == p + 1)
  {
    hide Kids;
    ShapeNodes(img, bs);
    KidAt(img[0].en, img, path[0].pos, path[1].pos);
    var k := path[0].pos + 1;
    if k < |img[0].en| {
      var q := [Cursor(0, k), Cursor(img[0].en[k].block, 0)];
      assert IsNode(img, q[1].blk);
      KidAt(img[0].en, img, k, 0);
    }
  }

  // ----- walking down

  /** Where the binary search among the entries p .. q ends, whatever their order. */
  ghost function LandFrom(en: seq<Idx>, h: nat, p: int, q: int): nat
    requires 1 <= p <= q + 1 <= |en|
    decreases q - p + 1
  {
    if p > q then p - 1
    else
      var m := p + (q - p) / 2;
      if en[m].hash > h then LandFrom(en, h, p, m - 1) else LandFrom(en, h, m + 1, q)
  }

  lemma {:induction false} LandStep(en: seq<Idx>, h: nat, p: int, q: int)
    requires 1 <= p <= q < |en|
    ensures var m := p + (q - p) / 2;
      p <= m <= q && LandFrom(en, h, p, q) == if en[m].hash > h then LandFrom(en, h, p, m - 1) else LandFrom(en, h, m + 1, q)
  {}

  lemma {:induction false} LandEnd(en: seq<Idx>, h: nat, p: int, q: int)
    requires 1 <= p <= q + 1 <= |en|
    ensures p > q ==> LandFrom(en, h, p, q) == p - 1
  {}

  /** The binary search of ext4_dir_dx_get_leaf inside one index block. */
  method SearchNode(en: seq<Idx>, h: nat) returns (at: nat)
    requires 0 < |en|
    ensures at < |en| && at == LandFrom(en, h, 1, |en| - 1)
    ensures at > 0 ==> en[at].hash <= h
    ensures at + 1 < |en| ==> en[at + 1].hash > h
  {
    hide LandFrom;
    var p, q := 1, |en| - 1;
    while p <= q
      invariant 1 <= p <= q + 1 <= |en|
      invariant LandFrom(en, h, 1, |en| - 1) == LandFrom(en, h, p, q)
      invariant p > 1 ==> en[p - 1].hash <= h
      invariant q + 1 < |en| ==> en[q + 1].hash > h
      decreases q - p + 1
    {
      LandStep(en, h, p, q);
      var m := p + (q - p) / 2;
      if en[m].hash > h {
        q := m - 1;
      } else {
        p := m + 1;
      }
    }
    LandEnd(en, h, p, q);
    at := p - 1;
  }

  /** The path ends at the last slot whose hash does not exceed h, up to order. */
  ghost predicate Brackets(img: Image, bs: nat, path: seq<Cursor>, h: nat)
    requires Shape(img, bs) && ValidPath(img, path)
  {
    var f := Flat(img, bs);
    var p := Position(img, bs, path);
    f[p].hash <= h < Hi(f, p)
  }

  /** Damage to the root that a lookup notices which counts `space` bytes of a block for an index. */
  predicate RootBroken(img: Image, space: nat)
    requires Typed(img)
  {
    img[0].levels > 1 || img[0].limit != RootLimit(space) || |img[0].en| == 0 || |img[0].en| > img[0].limit
  }

  /** Damage that the descent for hash h meets: in the root, or in the node the root's entries lead it to. */
  ghost predicate PathBroken(img: Image, space: nat, h: nat)
    requires Typed(img)
  {
    RootBroken(img, space) || (img[0].levels == 1 && NodeBroken(img, space, img[0].en[Landing(img[0].en, h)].block))
  }

  ghost function Landing(en: seq<Idx>, h: nat): (at: nat)
    requires 0 < |en|
    ensures at < |en|
  {
    LandBelow(en, h, 1, |en| - 1);
    LandFrom(en, h, 1, |en| - 1)
  }

  lemma {:induction false} LandBelow(en: seq<Idx>, h: nat, p: int, q: int)
    requires 1 <= p <= q + 1 <= |en|
    ensures LandFrom(en, h, p, q) < |en|
    decreases q - p + 1
  {
    if p <= q {
      var m := p + (q - p) / 2;
      if en[m].hash > h { LandBelow(en, h, p, m - 1); } else { LandBelow(en, h, m + 1, q); }
    }
  }

  predicate NodeBroken(img: Image, space: nat, b: nat) {
    b < |img| && !img[b].Leaf? && (img[b].limit != NodeLimit(space) || |img[b].en| == 0 || |img[b].en| > img[b].limit)
  }

  /** ext4_dir_dx_get_leaf, after the root's checks in ext4_dir_hinfo_init: the walk fails
      when a count or limit on its way is off. */
  method GetLeaf(img: Image, space: nat, h: nat, ghost bs: nat) returns (r: PathResult)
    requires Typed(img) && h < HASH_END
    ensures r.PathOk? ==> ValidPath(img, r.path)
    ensures r.PathOk? && Shape(img, bs) ==> Brackets(img, bs, r.path, h)
    ensures r.BadIndex? <==> PathBroken(img, space, h)
  {
    hide LandFrom, Flat, Kids, Brackets, DistinctNodes, SomeNodeLimit, SomeRootLimit;
    var level := img[0].levels;
    if level > 1 || img[0].limit != RootLimit(space) {
      return BadIndex;
    }
    var path: seq<Cursor> := [];
    var b := 0;
    while true
      invariant 0 <= level <= img[0].levels <= 1 && |path| == img[0].levels - level
      invariant b < |img| && !img[b].Leaf?
      invariant |path| == 0 ==> b == 0
      invariant |path| == 1 ==> path[0].blk == 0 && OnPath(img, path[0]) && b == img[0].en[path[0].pos].block && img[b].Node?
      invariant |path| == 1 ==> !RootBroken(img, space) && path[0].pos == Landing(img[0].en, h) && img[b].limit == NodeLimit(space)
      invariant |path| == 1 ==> (path[0].pos > 0 ==> img[0].en[path[0].pos].hash <= h)
                                && (path[0].pos + 1 < |img[0].en| ==> img[0].en[path[0].pos + 1].hash > h)
      invariant Shape(img, bs) && |path| == 1 ==> NodeCounts(img, b, bs)
      decreases level
    {
      var en := En(img, b);
      if |en| == 0 || |en| > img[b].limit {
        return BadIndex;
      }
      var at := SearchNode(en, h);
      path := path + [Cursor(b, at)];
      if level == 0 {
        ghost var last := path[|path| - 1];
        if Shape(img, bs) { LandsRight(img, bs, path, h); }
        return PathOk(path);
      }
      level := level - 1;
      assert NodeTyped(img, en[at].block);
      assert Shape(img, bs) ==> NodeCounts(img, en[at].block, bs);
      b := en[at].block;
      if img[b].limit != NodeLimit(space) {
        return BadIndex;
      }
    }
  }

  /** Searching each level on the way down is searching the flat list. */
  lemma {:induction false} LandsRight(img: Image, bs: nat, path: seq<Cursor>, h: nat)
    requires Shape(img, bs) && ValidPath(img, path) && h < HASH_END
    requires forall l :: 0 <= l < |path| ==>
      (path[l].pos > 0 ==> En(img, path[l].blk)[path[l].pos].hash <= h)
      && (path[l].pos + 1 < |En(img, path[l].blk)| ==> En(img, path[l].blk)[path[l].pos + 1].hash > h)
    ensures Brackets(img, bs, path, h)
  {
    hide Kids, Flat;
    AtPosition(img, bs, path);
    assert OnPath(img, path[0]);
    if |path| == 2 {
      assert OnPath(img, path[1]);
      if path[1].pos + 1 == |En(img, path[1].blk)| {
        AtBoundary(img, bs, path);
      }
    }
  }

  /** ext4_dir_dx_next_block: steps to the next slot when its hash may continue h. */
  method NextBlock(img: Image, bs: nat, h: nat, path0: seq<Cursor>) returns (more: bool, path: seq<Cursor>)
    requires Shape(img, bs) && ValidPath(img, path0) && h % 2 == 0
    ensures var f := Flat(img, bs);
            var p := Position(img, bs, path0);
            more <==> p + 1 < |f| && Lo(f[p + 1].hash) == h
    ensures more ==> ValidPath(img, path) && Position(img, bs, path) == Position(img, bs, path0) + 1
  {
    hide Kids, Flat, SomeNodeLimit, SomeRootLimit, DistinctNodes;
    AtPosition(img, bs, path0);
    path := path0;
    var p, handles := |path| - 1, 0;
    while true
      invariant 0 <= p < |path| == |path0| && handles == |path| - 1 - p
      invariant path[..p + 1] == path0[..p + 1]
      invariant p < |path| - 1 ==> p == 0 && path0[1].pos + 1 == |En(img, path0[1].blk)|
      decreases p
    {
      assert path[p] == path0[p];
      var cnt := |En(img, path[p].blk)|;
      path := path[p := path[p].(pos := path[p].pos + 1)];
      if path[p].pos < cnt {
        break;
      }
      if p == 0 {
        if |path0| == 2 { AtBoundary(img, bs, path0); }
        return false, path;
      }
      handles := handles + 1;
      p := p - 1;
    }
    var current := En(img, path[p].blk)[path[p].pos].hash;
    if handles == 1 { AtBoundary(img, bs, path0); }
    if h % 2 == 0 && Lo(current) != h {
      return false, path;
    }
    ghost var stop := p;
    ghost var before := path;
    assert handles == 1 ==> IsNode(img, img[0].en[path[0].pos].block);
    while handles > 0
      invariant p + handles == |path| - 1 && |path| == |path0| && stop <= p
      invariant p == stop ==> path == before
      invariant p > stop ==> p == 1 && path == [Cursor(0, path0[0].pos + 1), Cursor(img[0].en[path0[0].pos + 1].block, 0)]
    {
      handles := handles - 1;
      var blk := En(img, path[p].blk)[path[p].pos].block;
      p := p + 1;
      path := path[p := Cursor(blk, 0)];
    }
    if stop == |path0| - 1 {
      SameChild(img, bs, path0, path);
    }
    more := true;
  }

  lemma {:induction false} SameChild(img: Image, bs: nat, a: seq<Cursor>, b: seq<Cursor>)
    requires Shape(img, bs) && ValidPath(img, a) && |b| == |a|
    requires var l := |a| - 1; b == a[l := a[l].(pos := a[l].pos + 1)] && b[l].pos < |En(img, a[l].blk)|
    ensures ValidPath(img, b) && Position(img, bs, b) == Position(img, bs, a) + 1
  {}

  // ----- what the search means

  /** The leaf block lists the name. */
  ghost predicate LeafHas(img: Image, b: nat, name: Name)
    requires IsLeaf(img, b)
  {
    exists k :: 0 <= k < |img[b].recs| && Match(img[b].recs[k], name)
  }

  /** A slot that lists a name with hash h lies between the landing slot and the last slot
      that continues h: the search of those slots misses nothing. */
  lemma {:induction false} Covers(f: seq<Idx>, at: nat, last: nat, j: nat, h: nat)
    requires Ordered(f) && at <= last < |f| && j < |f| && h % 2 == 0
    requires f[at].hash <= h < Hi(f, at)
    requires last + 1 < |f| ==> Lo(f[last + 1].hash) != h
    requires Lo(f[j].hash) <= h < Hi(f, j)
    ensures at <= j <= last
  {
  }

  lemma {:induction false} OwnSlot(img: Image, bs: nat, raw: Name -> nat, j: nat, name: Name)
    requires WellFormed(img, bs, raw) && j < |Flat(img, bs)|
    requires LeafHas(img, Flat(img, bs)[j].block, name)
    ensures Lo(Flat(img, bs)[j].hash) <= Hash(raw, name) < Hi(Flat(img, bs), j)
  {
    hide Live, Kids, Flat, Hash;
    var f := Flat(img, bs);
    var recs := img[f[j].block].recs;
    var k :| 0 <= k < |recs| && Match(recs[k], name);
    LiveMember(recs, Entry(name, recs[k].inode));
    assert LeafOk(img, f, j, raw);
  }

  /** ext4_dir_dx_find_entry. */
  method DxFind(img: Image, bs: nat, space: nat, raw: Name -> nat, name: Name) returns (r: FindResult)
    requires Typed(img) && LeavesTiled(img, bs)
    requires WellFormed(img, bs, raw) || PathBroken(img, space, Hash(raw, name))
    ensures PathBroken(img, space, Hash(raw, name)) ==> r.BadDir?
    ensures r.Found? ==> IsLeaf(img, r.blk) && r.rec < |img[r.blk].recs| && Match(img[r.blk].recs[r.rec], name)
                         && forall k :: 0 <= k < r.rec ==> !Match(img[r.blk].recs[k], name)
    ensures !PathBroken(img, space, Hash(raw, name)) ==> (r.BadDir? <==> !(1 <= |name| <= MAX_NAME))
    ensures r.NotFound? && WellFormed(img, bs, raw) ==> forall b :: IsLeaf(img, b) ==> !LeafHas(img, b, name)
  {
    hide Live, Kids, Flat, Hash, Tiled, Counts, DistinctNodes, LeafOk, Between, Ordered, Position, PathBroken;
    if |name| < 1 || |name| > MAX_NAME {
      return BadDir;
    }
    HashRange(raw, name);
    var h := Hash(raw, name);
    var g := GetLeaf(img, space, h, bs);
    if g.BadIndex? {
      return BadDir;
    }
    var path := g.path;
    ghost var f := Flat(img, bs);
    ghost var at := Position(img, bs, path);
    var more := true;
    while more
      invariant ValidPath(img, path)
      invariant at <= Position(img, bs, path)
      invariant more ==> forall j :: at <= j < Position(img, bs, path) ==> !LeafHas(img, f[j].block, name)
      invariant !more ==> forall j :: at <= j <= Position(img, bs, path) ==> !LeafHas(img, f[j].block, name)
      invariant !more ==> Position(img, bs, path) + 1 < |f| ==> Lo(f[Position(img, bs, path) + 1].hash) != h
      decreases |f| - Position(img, bs, path), more
    {
      AtPosition(img, bs, path);
      var b := LeafOf(img, path);
      var found := FindInBlock(img[b].recs, bs, name);
      if found.Some? {
        return Found(b, found.value);
      }
      assert !LeafHas(img, b, name);
      var next;
      more, next := NextBlock(img, bs, h, path);
      if more { path := next; }
    }
    NoneLeft(img, bs, raw, name, at, Position(img, bs, path));
    return NotFound;
  }

  /** Once the landing slot and all its continuations are searched in vain, no leaf lists the name. */
  lemma {:induction false} NoneLeft(img: Image, bs: nat, raw: Name -> nat, name: Name, at: nat, last: nat)
    requires WellFormed(img, bs, raw) && at <= last < |Flat(img, bs)|
    requires var f := Flat(img, bs);
             var h := Hash(raw, name);
             && f[at].hash <= h < Hi(f, at)
             && (last + 1 < |f| ==> Lo(f[last + 1].hash) != h)
             && forall j :: at <= j <= last ==> !LeafHas(img, f[j].block, name)
    ensures forall b :: IsLeaf(img, b) ==> !LeafHas(img, b, name)
  {
    hide Live, Kids, Flat, Hash, Tiled;
    HashRange(raw, name);
    var f := Flat(img, bs);
    forall b | IsLeaf(img, b) ensures !LeafHas(img, b, name) {
      if LeafHas(img, b, name) {
        assert Reached(f, b);
        var j :| 0 <= j < |f| && f[j].block == b;
        OwnSlot(img, bs, raw, j, name);
        Covers(f, at, last, j, Hash(raw, name));
      }
    }
  }

  // ----- the linear scan

  const FT_DIR := 2

  /** What a block shows to the linear scan: an index block is dead space, and the root
      shows the two dot records, the second of which covers its index. */
  function Visible(b: Block, bs: nat): seq<Rec> {
    match b
    case Leaf(recs) => recs
    case Node(_, _) => [Rec(0, bs, [], 0)]
    case Root(self, parent, _, _, _) =>
      [Rec(self, 12, DOT, FT_DIR), Rec(parent, if bs < 12 then 0 else bs - 12, DOTDOT, FT_DIR)]
  }

  /** The block sizes ext4 uses, below the 16-bit entry length. */
  predicate BlockSize(bs: nat) { bs % 4 == 0 && 1024 <= bs < 0x1_0000 }

  /** The dots as the scan meets them: directories of one name each, over the whole root. */
  lemma {:induction false} DotsVisible(b: Block, bs: nat)
    requires BlockSize(bs) && !b.Leaf?
    ensures Visible(b, bs) == if b.Node? then [Rec(0, bs, [], 0)]
                              else [Rec(b.self, 12, [46], 2), Rec(b.parent, bs - 12, [46, 46], 2)]
    ensures forall r: Rec :: IsDots(r.name) <==> r.name in [[46], [46, 46]]
  {}

  lemma {:induction false} VisibleTiled(b: Block, bs: nat)
    requires BlockSize(bs) && (b.Leaf? ==> Tiled(b.recs, bs))
    requires b.Root? ==> b.self != 0 && b.parent != 0
    ensures Tiled(Visible(b, bs), bs)
  {
    match b
    case Leaf(_) =>
    case Node(_, _) => One(Rec(0, bs, [], 0));
    case Root(self, parent, _, _, _) => Two(Visible(b, bs)[0], Visible(b, bs)[1]);
  }

  /** The first record from number k on that matches. */
  function FirstMatch(recs: seq<Rec>, k: nat, name: Name): (r: Option<nat>)
    requires k <= |recs|
    ensures r.Some? ==> k <= r.value < |recs| && Match(recs[r.value], name)
                        && forall i :: k <= i < r.value ==> !Match(recs[i], name)
    ensures r.None? ==> forall i :: k <= i < |recs| ==> !Match(recs[i], name)
    decreases |recs| - k
  {
    if k == |recs| then None
    else if Match(recs[k], name) then Some(k)
    else FirstMatch(recs, k + 1, name)
  }

  /** The simple search: the first match in block order. */
  function Scan(img: Image, bs: nat, b: nat, name: Name): FindResult
    requires b <= |img|
    decreases |img| - b
  {
    if b == |img| then NotFound
    else
      match FirstMatch(Visible(img[b], bs), 0, name)
      case Some(k) => Found(b, k)
      case None => Scan(img, bs, b + 1, name)
  }

  /** The linear loop of ext4_dir_find_entry. */
  method LinearFind(img: Image, bs: nat, name: Name) returns (r: FindResult)
    requires BlockSize(bs) && LeavesTiled(img, bs)
    requires forall b :: 0 <= b < |img| && img[b].Root? ==> img[b].self != 0 && img[b].parent != 0
    ensures r == Scan(img, bs, 0, name)
  {
    hide Tiled, FirstMatch;
    var b := 0;
    while b < |img|
      invariant b <= |img| && Scan(img, bs, 0, name) == Scan(img, bs, b, name)
    {
      VisibleTiled(img[b], bs);
      var k := FindInBlock(Visible(img[b], bs), bs, name);
      if k.Some? {
        return Found(b, k.value);
      }
      b := b + 1;
    }
    return NotFound;
  }

  predicate LiveAt(img: Image, b: nat, k: nat) {
    IsLeaf(img, b) && k < |img[b].recs| && img[b].recs[k].inode != 0
  }

  /** No name is listed twice. */
  ghost predicate UniqueNames(img: Image) {
    forall b: nat, k: nat, c: nat, l: nat ::
      LiveAt(img, b, k) && LiveAt(img, c, l) && img[b].recs[k].name == img[c].recs[l].name
      ==> (b == c && k == l)
  }

  /** Whether a find result is right: it names a first match in a leaf, or no leaf has the name. */
  ghost predicate Finds(img: Image, name: Name, r: FindResult) {
    match r
    case Found(b, k) =>
      IsLeaf(img, b) && k < |img[b].recs| && Match(img[b].recs[k], name)
      && forall i :: 0 <= i < k ==> !Match(img[b].recs[i], name)
    case NotFound => forall b :: IsLeaf(img, b) ==> !LeafHas(img, b, name)
    case BadDir => false
  }

  /** What the scan of the blocks from b on means. */
  lemma {:induction false} ScanMeans(img: Image, bs: nat, b: nat, name: Name)
    requires b <= |img| && !IsDots(name)
    ensures match Scan(img, bs, b, name)
            case Found(c, k) => b <= c && Finds(img, name, Found(c, k))
                                && forall d :: b <= d < c && IsLeaf(img, d) ==> !LeafHas(img, d, name)
            case NotFound => forall d :: b <= d && IsLeaf(img, d) ==> !LeafHas(img, d, name)
            case BadDir => false
    decreases |img| - b
  {
    if b < |img| {
      var vis := Visible(img[b], bs);
      if FirstMatch(vis, 0, name).None? {
        assert img[b].Leaf? ==> !LeafHas(img, b, name);
        ScanMeans(img, bs, b + 1, name);
      }
    }
  }

  /** The index agrees with the scan: both find a name or neither does, and with unique names
      they find the same record.  The dot names are the exception. */
  lemma {:induction false} IndexAgreesWithScan(img: Image, bs: nat, name: Name, r: FindResult)
    requires Finds(img, name, r) && !IsDots(name)
    ensures r.Found? <==> Scan(img, bs, 0, name).Found?
    ensures UniqueNames(img) ==> r == Scan(img, bs, 0, name)
  {
    ScanMeans(img, bs, 0, name);
    var s := Scan(img, bs, 0, name);
    assert r.Found? ==> LeafHas(img, r.blk, name) && LiveAt(img, r.blk, r.rec);
    assert s.Found? ==> LeafHas(img, s.blk, name) && LiveAt(img, s.blk, s.rec);
  }

  /** "." and ".." live in the root, which the index does not search. */
  lemma {:induction false} DotsDiffer(img: Image, bs: nat, name: Name)
    requires Typed(img) && img[0].self != 0 && img[0].parent != 0 && IsDots(name)
    requires forall b :: IsLeaf(img, b) ==> !LeafHas(img, b, name)
    ensures Finds(img, name, NotFound)
    ensures Scan(img, bs, 0, name) == Found(0, if name == DOT then 0 else 1)
  {
    var vis := Visible(img[0], bs);
    assert vis[0].name == DOT && vis[1].name == DOTDOT && |DOT| != |DOTDOT|;
    assert if name == DOT then Match(vis[0], name) else Match(vis[1], name) && !Match(vis[0], name);
  }
}
