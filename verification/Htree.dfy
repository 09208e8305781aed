/** A directory whose blocks are updated in place, found through its hash-tree index and,
    when the index cannot be used, by the linear scan. */
module Htree {
  import opened DirNames
  import opened DirBlock
  import opened HtreeImage
  import opened HtreeLookup
  import opened HtreeSort
  import opened HtreeSplit
  import opened HtreeUpdate
  import opened HtreeRules
  import opened LinearAdd

  datatype AddResult = Added | NoSpace

  ghost predicate NeatLeaves(img: Image, metaCsum: bool) {
    forall b :: 0 <= b < |img| && img[b].Leaf? ==> Neat(img[b].recs, metaCsum)
  }

  /** All index blocks have the limits that a lookup expects which counts `space` bytes of a block for them. */
  ghost predicate LimitsOk(img: Image, space: nat) {
    && 0 < |img| && img[0].Root? && img[0].limit == RootLimit(space)
    && forall b :: 0 <= b < |img| && img[b].Node? ==> img[b].limit == NodeLimit(space)
  }

  /** Then no descent meets damage. */
  lemma {:induction false} LimitsMean(img: Image, bs: nat, space: nat, h: nat)
    requires Shape(img, bs) && LimitsOk(img, space)
    ensures !PathBroken(img, space, h)
  {
    hide Landing, SomeNodeLimit, SomeRootLimit, DistinctNodes;
    if img[0].levels == 1 { assert NodeCounts(img, img[0].en[Landing(img[0].en, h)].block, bs); }
  }

  /** The index block that the path ends in is full, so that an index block is split. */
  ghost predicate IndexFull(img: Image, path: seq<Cursor>)
    requires Typed(img) && ValidPath(img, path)
  {
    var b := path[|path| - 1].blk; |En(img, b)| == img[b].limit
  }

  predicate DotsOk(img: Image) {
    forall b :: 0 <= b < |img| && img[b].Root? ==> img[b].self != 0 && img[b].parent != 0
  }

  /** The slot whose hash range a hash falls into. */
  ghost predicate Lands(f: seq<Idx>, h: nat, p: nat) {
    p < |f| && f[p].hash <= h < Hi(f, p)
  }

  /** The index block the path ends in is full, and so is the root above it. */
  ghost predicate NoRoomAt(img: Image, path: seq<Cursor>)
    requires Typed(img) && ValidPath(img, path)
  {
    && |path| == 2 && |img[0].en| == img[0].limit
    && |En(img, path[1].blk)| == img[path[1].blk].limit
  }

  /** What adding an entry through the index does. `at` is the path to `slot`, the slot the name's hash falls
      into. Full index blocks on the path refuse the entry. A leaf with room takes it. A leaf without room whose
      records fill more than half of it is split; the entry is then listed exactly when it finds room in its
      half, and otherwise lost, in a well formed directory. A leaf without room whose records fill at most half
      of it lists every entry twice after the split. The limits stay as the lookup expects them exactly when no
      index block is split or there are no checksums. */
  ghost predicate AddedByIndex(img: Image, img2: Image, bs: nat, metaCsum: bool, raw: Name -> nat, name: Name, inode: nat, ftype: nat, r: AddResult,
                               slot: nat, at: seq<Cursor>, stray: nat)
  {
    && Shape(img, bs) && ValidPath(img, at) && Position(img, bs, at) == slot && Lands(Flat(img, bs), Hash(raw, name), slot)
    && IsLeaf(img, Flat(img, bs)[slot].block)
    && (r == NoSpace <==> NoRoomAt(img, at)) && (r == NoSpace ==> img2 == img)
    && (r == Added ==> (LimitsOk(img2, IndexSpace(bs, metaCsum)) <==> LimitsOk(img, IndexSpace(bs, metaCsum)) && !(metaCsum && IndexFull(img, at))))
    && (r == Added ==> img2 != [] && img2[0].Root? && img2[0].self == img[0].self && img2[0].parent == img[0].parent)
    && var leaf, need, e := img[Flat(img, bs)[slot].block].recs, Need(|name|), multiset{Entry(name, inode)};
       r == Added ==>
         && (TurnedAway(leaf, Hash(raw, name), need, bs, metaCsum, raw, stray) || HasRecord(img2, name, inode, ftype))
         && (Fits(leaf, need) ==> Sound(img2, bs, metaCsum, raw) && Listing(img2) == Listing(img) + e)
         && (!Fits(leaf, need) && bs / 2 < LiveSize(leaf) ==>
               Sound(img2, bs, metaCsum, raw)
               && Listing(img2) == Listing(img) + if GoesIn(leaf, Hash(raw, name), need, bs, metaCsum, raw) then e else multiset{})
         && (!Fits(leaf, need) && LiveSize(leaf) <= bs / 2 ==>
               Live(leaf) != multiset{}
               && Listing(img2) == Listing(img) + Live(leaf) + if StrayTurnsAway(Hash(raw, name), stray) then multiset{} else e)
  }

  /** Some leaf has a record with this name, inode and type. */
  ghost predicate HasRecord(img: Image, name: Name, inode: nat, ftype: nat) {
    exists b: nat :: IsLeaf(img, b) && Recorded(img[b].recs, name, inode, ftype)
  }

  /** After a split without a cut the new slot's hash is 0, or 1 when the stray word is 0, too: then hash 0
      goes to the old block, which is still full. */
  predicate StrayTurnsAway(hash: nat, stray: nat) { hash == 0 && stray == 0 }

  lemma {:induction false} InsertedIn(img: Image, b: nat, recs: seq<Rec>, out: seq<Rec>, bs: nat, name: Name, inode: nat, ftype: nat)
    requires b < |img| && Inserts(recs, out, bs, name, inode, ftype)
    ensures HasRecord(img[b := Leaf(out)], name, inode, ftype)
  {
    hide Placed, Live, Tiled, Recorded;
    assert IsLeaf(img[b := Leaf(out)], b);
  }

  /** A leaf without room whose half, after the split, has none either. */
  ghost predicate TurnedAway(leaf: seq<Rec>, hash: nat, need: nat, bs: nat, metaCsum: bool, raw: Name -> nat, stray: nat) {
    !Fits(leaf, need) && if bs / 2 < LiveSize(leaf) then !GoesIn(leaf, hash, need, bs, metaCsum, raw) else StrayTurnsAway(hash, stray)
  }

  /** The slots stay, the path leads to the same place, and its index block has room. */
  ghost predicate RoomMade(img: Image, img2: Image, bs: nat, path: seq<Cursor>, path2: seq<Cursor>) {
    && Shape(img, bs) && ValidPath(img, path)
    && Shape(img2, bs) && Flat(img2, bs) == Flat(img, bs)
    && ValidPath(img2, path2) && HasSlack(img2, path2)
    && Position(img2, bs, path2) == Position(img, bs, path)
    && LeafOf(img2, path2) == LeafOf(img, path)
    && IndexGrew(img, img2)
  }

  /** The same limits, and new blocks are leaves. */
  ghost predicate SameLimits(img: Image, img2: Image) {
    && |img| <= |img2| && (forall b :: |img| <= b < |img2| ==> img2[b].Leaf?)
    && forall b :: 0 <= b < |img| ==>
         img2[b].Leaf? == img[b].Leaf? && img2[b].Root? == img[b].Root? && (!img[b].Leaf? ==> img2[b].limit == img[b].limit)
         && (img[b].Root? ==> img2[b].self == img[b].self && img2[b].parent == img[b].parent)
  }

  lemma {:induction false} LimitsStay(img: Image, img2: Image, space: nat)
    requires SameLimits(img, img2) && img != []
    ensures LimitsOk(img2, space) <==> LimitsOk(img, space)
    ensures img[0].Root? ==> img2 != [] && img2[0].Root? && img2[0].self == img[0].self && img2[0].parent == img[0].parent
  {
    forall b | 0 <= b < |img| && img[b].Node? ensures img2[b].Node? && img2[b].limit == img[b].limit {}
  }

  lemma {:induction false} SameLimitsLeaf(img: Image, img2: Image, b: nat, recs: seq<Rec>)
    requires SameLimits(img, img2) && IsLeaf(img2, b)
    ensures SameLimits(img, img2[b := Leaf(recs)])
  {}

  /** A new node spoils the limits exactly with checksums. */
  lemma {:induction false} NewNodeLimits(img: Image, img2: Image, bs: nat, metaCsum: bool)
    requires BlockSize(bs) && img != [] && |img2| == |img| + 1 && img2[|img|].Node? && img2[|img|].limit == NodeLimit(bs)
    requires forall b :: 0 <= b < |img| ==>
               img2[b].Leaf? == img[b].Leaf? && img2[b].Root? == img[b].Root? && (!img[b].Leaf? ==> img2[b].limit == img[b].limit)
    ensures LimitsOk(img2, IndexSpace(bs, metaCsum)) <==> LimitsOk(img, IndexSpace(bs, metaCsum)) && !metaCsum
  {
    LimitsDiffer(bs, metaCsum);
    forall b | 0 <= b < |img| && img[b].Node? ensures img2[b].Node? && img2[b].limit == img[b].limit {}
  }

  lemma {:induction false} AlreadyRoom(img: Image, bs: nat, path: seq<Cursor>)
    requires Shape(img, bs) && ValidPath(img, path)
    requires |En(img, path[|path| - 1].blk)| <= img[path[|path| - 1].blk].limit != |En(img, path[|path| - 1].blk)|
    ensures RoomMade(img, img, bs, path, path)
  {
    hide Flat, Kids, Position;
  }

  lemma {:induction false} HalvedRoom(img: Image, bs: nat, path: seq<Cursor>)
    requires Shape(img, bs) && ValidPath(img, path) && |path| == 2 && 64 <= bs
    requires |img[0].en| < img[0].limit && 2 <= |En(img, path[1].blk)|
    ensures RoomMade(img, Halved(img, bs, path[0].pos), bs, path, HalvedPath(img, path))
  {
    hide Flat, Kids, Position, HalvedPath;
    HalvedOk(img, bs, path);
  }

  lemma {:induction false} GrownRoom(img: Image, bs: nat, path: seq<Cursor>)
    requires Shape(img, bs) && ValidPath(img, path) && img[0].levels == 0 && 64 <= bs
    ensures RoomMade(img, Grown(img, bs), bs, path, [Cursor(0, 0), Cursor(|img|, path[0].pos)])
  {
    hide Flat, Kids, Position;
    GrownOk(img, bs, path);
  }

  class Directory {
    const bs: nat
    const metaCsum: bool
    const raw: Name -> nat
    var blocks: Image
    var indexed: bool

    ghost predicate Readable()
      reads this
    {
      Scannable(blocks, bs) && DotsOk(blocks) && (indexed ==> Typed(blocks))
    }

    ghost predicate Valid()
      reads this
    {
      Readable() && indexed && WellFormed(blocks, bs, raw) && NeatLeaves(blocks, metaCsum)
    }

    /** The bytes of a block that the lookup counts for an index. */
    function Space(): nat { IndexSpace(bs, metaCsum) }

    /** The descent for this name meets damage. */
    ghost predicate Broken(name: Name)
      reads this
      requires Typed(blocks)
    {
      PathBroken(blocks, Space(), Hash(raw, name))
    }

    /** ext4_dir_dx_init: a fresh index over one empty leaf block. */
    constructor DxInit(blockSize: nat, csum: bool, rawHash: Name -> nat, self: nat, parent: nat)
      requires BlockSize(blockSize) && self != 0 && parent != 0
      ensures Valid() && bs == blockSize && metaCsum == csum && raw == rawHash
      ensures Listing(blocks) == multiset{} && LimitsOk(blocks, Space())
    {
      bs := blockSize;
      metaCsum := csum;
      raw := rawHash;
      blocks := [Root(self, parent, 0, RootLimit(IndexSpace(blockSize, csum)), [Idx(0, 1)]),
                 Leaf(Tailed([Rec(0, LeafSpace(blockSize, csum), [], 0)], csum))];
      indexed := true;
      new;
      FreshLeaf(bs, metaCsum);
      assert blocks[..1] == [blocks[0]];
      ListingOne(blocks[0]);
      var f := Flat(blocks, bs);
      assert f == [Idx(0, 1)];
      assert Reached(f, 1) by { assert f[0].block == 1; }
    }

    /** ext4_dir_find_entry: through the index, or by the scan after an unusable index lost its flag. */
    method FindEntry(name: Name) returns (r: FindResult)
      requires Readable()
      requires indexed ==> WellFormed(blocks, bs, raw) || Broken(name)
      modifies this`indexed
      ensures !IsDots(name) ==> Finds(blocks, name, r)
      ensures !IsDots(name) ==> (r.Found? <==> Scan(blocks, bs, 0, name).Found?)
      ensures !IsDots(name) && UniqueNames(blocks) ==> r == Scan(blocks, bs, 0, name)
      ensures indexed == (old(indexed) && !Broken(name) && 1 <= |name| <= MAX_NAME)
    {
      hide WellFormed, Scan, LeavesTiled, Finds, UniqueNames;
      if indexed {
        r := DxFind(blocks, bs, Space(), raw, name);
        if !r.BadDir? {
          FoundMeans(blocks, name, r);
          if !IsDots(name) { IndexAgreesWithScan(blocks, bs, name, r); }
          return;
        }
        indexed := false;
      }
      r := LinearFind(blocks, bs, name);
      if !IsDots(name) { ScanFinds(blocks, bs, name); }
    }

    /** ext4_dir_add_entry: through the index, or in scan order when there is none or the descent meets
        damage, which costs the directory its index flag. */
    method DirAddEntry(name: Name, inode: nat, ftype: nat, stray: nat) returns (r: AddResult, ghost at: nat)
      requires Readable() && (indexed ==> Valid() || Broken(name))
      requires 1 <= |name| <= MAX_NAME && inode != 0 && ftype != DIR_CSUM
      modifies this
      ensures indexed == old(indexed && !Broken(name))
      ensures !indexed ==> r == Added && Readable() && AddedAt(old(blocks), blocks, bs, at, name, inode, ftype, metaCsum)
                           && Shown(blocks, bs) == Shown(old(blocks), bs) + multiset{Entry(name, inode)}
      ensures indexed ==> exists slot, path :: AddedByIndex(old(blocks), blocks, bs, metaCsum, raw, name, inode, ftype, r, slot, path, stray)
    {
      hide Scan, LeavesTiled, AddedAt, AddedByIndex, Shown, NeatLeaves;
      if indexed {
        HashRange(raw, name);
        var g := GetLeaf(blocks, Space(), Hash(raw, name), bs);
        if !g.BadIndex? {
          ghost var slot, path;
          r, slot, path := AddEntry(name, inode, ftype, stray);
          at := 0;
          return;
        }
        indexed := false;
      }
      ghost var img := blocks;
      blocks, at := LinearInsert(blocks, bs, name, inode, ftype, metaCsum);
      LinearAddOk(img, blocks, bs, at, name, inode, ftype, metaCsum);
      r := Added;
    }

    /** ext4_dir_dx_insert_entry: a new index entry behind the cursor. */
    method InsertIndexEntry(cur: Cursor, hash: nat, iblock: nat, ghost path: seq<Cursor>)
      requires Typed(blocks) && ValidPath(blocks, path) && cur == path[|path| - 1]
      modifies this`blocks
      ensures blocks == WithSlot(old(blocks), path, Idx(hash, iblock))
    {
      var en := En(blocks, cur.blk);
      blocks := blocks[cur.blk := WithEn(blocks[cur.blk], en[..cur.pos + 1] + [Idx(hash, iblock)] + en[cur.pos + 1..])];
    }

    /** ext4_dir_dx_split_index: makes room at the path's position.  The slots stay as they are;
        a full root above a full node cannot be split. */
    method SplitIndex(path: seq<Cursor>) returns (ok: bool, cur: Cursor, ghost path2: seq<Cursor>)
      requires BlockSize(bs) && Shape(blocks, bs) && ValidPath(blocks, path)
      modifies this`blocks
      ensures ok <==> !NoRoomAt(old(blocks), path)
      ensures !ok ==> blocks == old(blocks)
      ensures ok ==> RoomMade(old(blocks), blocks, bs, path, path2) && path2 != [] && cur == path2[|path2| - 1]
      ensures ok ==> (LimitsOk(blocks, Space()) <==> LimitsOk(old(blocks), Space()) && !(metaCsum && IndexFull(old(blocks), path)))
    {
      hide Flat, Kids, Position, RoomMade, LimitsOk, SomeNodeLimit, SomeRootLimit;
      cur, path2 := path[|path| - 1], path;
      var levels := |path| - 1;
      var en := En(blocks, cur.blk);
      PathCounts(blocks, bs, path);
      if blocks[cur.blk].limit != |en| {
        AlreadyRoom(blocks, bs, path);
        return true, cur, path2;
      }
      var root := blocks[0];
      if levels > 0 && root.limit == |root.en| {
        return false, cur, path2;
      }
      var newIblk := |blocks|;
      if levels > 0 {
        var countLeft := |en| / 2;
        var hashRight := en[countLeft].hash;
        HalvedRoom(blocks, bs, path);
        path2 := HalvedPath(blocks, path);
        ghost var img := blocks;
        blocks := blocks[cur.blk := Node(blocks[cur.blk].limit, en[..countLeft])] + [Node(NodeLimit(bs), en[countLeft..])];
        if cur.pos >= countLeft {
          cur := Cursor(newIblk, cur.pos - countLeft);
        }
        var k := path[0].pos;
        blocks := blocks[0 := WithEn(root, root.en[..k + 1] + [Idx(hashRight, newIblk)] + root.en[k + 1..])];
        assert blocks == Halved(img, bs, k);
        NewNodeLimits(img, blocks, bs, metaCsum);
      } else {
        GrownRoom(blocks, bs, path);
        path2 := [Cursor(0, 0), Cursor(newIblk, cur.pos)];
        cur := Cursor(newIblk, cur.pos);
        ghost var img := blocks;
        blocks := blocks[0 := Root(root.self, root.parent, 1, root.limit, [Idx(root.en[0].hash, newIblk)])]
                  + [Node(NodeLimit(bs), root.en)];
        NewNodeLimits(img, blocks, bs, metaCsum);
      }
      ok := true;
    }

    /** ext4_dir_dx_add_entry.  `at` is the path to `slot`, the slot the name's hash falls into; its leaf
        takes the entry, possibly after a split.  `stray` is the word that a split without a cut reads outside
        the sort array.  When the index is full the source also releases the target block, which it
        has not obtained yet; the model returns at once. */
    method AddEntry(name: Name, inode: nat, ftype: nat, stray: nat)
      returns (r: AddResult, ghost slot: nat, ghost at: seq<Cursor>)
      requires Valid() && !Broken(name)
      requires 1 <= |name| <= MAX_NAME && inode != 0 && ftype != DIR_CSUM
      modifies this`blocks
      ensures AddedByIndex(old(blocks), blocks, bs, metaCsum, raw, name, inode, ftype, r, slot, at, stray)
    {
      hide Flat, Kids, Position, Live, LiveSize, Tiled, Hash, Listing, Fits, LeafOk, Between, Ordered, Neat, LimitsOk, PathBroken, SameLimits, SomeNodeLimit, SomeRootLimit, HasRecord, GoesIn, Inserts;
      HashRange(raw, name);
      var h := Hash(raw, name);
      ghost var img := blocks;
      var g := GetLeaf(blocks, Space(), h, bs);
      var path := g.path;
      AtPosition(blocks, bs, path);
      slot, at := Position(blocks, bs, path), path;
      var leafBlk := LeafOf(blocks, path);
      var ok, cur; ghost var path2;
      ok, cur, path2 := SplitIndex(path);
      if !ok {
        return NoSpace, slot, at;
      }
      IndexGrewOk(img, blocks, bs, metaCsum, raw);
      ghost var grown := blocks;
      ghost var leaf := blocks[leafBlk].recs;
      var ins, recs := TryInsert(blocks[leafBlk].recs, bs, name, inode, ftype);
      if ins {
        AddOk(blocks, bs, metaCsum, raw, slot, recs, name, inode, ftype);
        blocks := blocks[leafBlk := Leaf(recs)];
        LimitsStay(grown, blocks, Space());
        InsertedIn(grown, leafBlk, leaf, recs, bs, name, inode, ftype);
        return Added, slot, at;
      }
      SplitAndInsert(cur, leafBlk, h, name, inode, ftype, stray, path2, slot);
      LimitsStay(grown, blocks, Space());
      return Added, slot, at;
    }

    /** ext4_dir_dx_split_data: split the leaf and enter the new block into the index. */
    method SplitLeafBlock(cur: Cursor, leafBlk: nat, stray: nat, ghost path: seq<Cursor>)
      returns (newIblk: nat, left: seq<Rec>, right: seq<Rec>, newHash: nat, continued: nat)
      requires Sound(blocks, bs, metaCsum, raw) && ValidPath(blocks, path) && cur == path[|path| - 1] && HasSlack(blocks, path)
      requires leafBlk == LeafOf(blocks, path) && IsLeaf(blocks, leafBlk) && 0 < LiveSize(blocks[leafBlk].recs)
      modifies this`blocks
      ensures newIblk == |old(blocks)|
      ensures DidSplit(old(blocks), blocks, path, left, right, newHash + continued)
      ensures Tiled(left, bs) && Tiled(right, bs) && Neat(left, metaCsum) && Neat(right, metaCsum)
      ensures Parted(old(blocks)[leafBlk].recs, left, right, newHash, continued, bs, metaCsum, raw, stray)
    {
      hide Flat, Kids, Position, Live, LiveSize, Tiled, Listing, Neat, Parted, LeafOk, Wired, Ordered;
      left, right, newHash, continued := SplitData(blocks[leafBlk].recs, bs, metaCsum, raw, stray);
      newIblk := |blocks|;
      SplitFlat(blocks, bs, path, left, right, newHash + continued);
      blocks := blocks[leafBlk := Leaf(left)] + [Leaf(right)];
      InsertIndexEntry(cur, newHash + continued, newIblk, path);
    }

    /** The second half of ext4_dir_dx_add_entry: split the leaf and insert into the half the
        hash belongs to. */
    method SplitAndInsert(cur: Cursor, leafBlk: nat, h: nat, name: Name, inode: nat, ftype: nat, stray: nat,
                          ghost path: seq<Cursor>, ghost slot: nat)
      requires Sound(blocks, bs, metaCsum, raw) && ValidPath(blocks, path) && cur == path[|path| - 1] && HasSlack(blocks, path)
      requires slot == Position(blocks, bs, path) && leafBlk == LeafOf(blocks, path) && IsLeaf(blocks, leafBlk)
      requires Lands(Flat(blocks, bs), h, slot) && h == Hash(raw, name)
      requires 1 <= |name| <= MAX_NAME && inode != 0 && ftype != DIR_CSUM
      requires !Fits(blocks[leafBlk].recs, Need(|name|))
      modifies this`blocks
      ensures SameLimits(old(blocks), blocks)
      ensures TurnedAway(old(blocks)[leafBlk].recs, h, Need(|name|), bs, metaCsum, raw, stray) || HasRecord(blocks, name, inode, ftype)
      ensures var leaf := old(blocks)[leafBlk].recs;
              var e := multiset{Entry(name, inode)};
              && (bs / 2 < LiveSize(leaf) ==>
                    Sound(blocks, bs, metaCsum, raw)
                    && Listing(blocks) == Listing(old(blocks)) + if GoesIn(leaf, h, Need(|name|), bs, metaCsum, raw) then e else multiset{})
              && (LiveSize(leaf) <= bs / 2 ==>
                    Live(leaf) != multiset{}
                    && Listing(blocks) == Listing(old(blocks)) + Live(leaf) + if StrayTurnsAway(h, stray) then multiset{} else e)
    {
      hide Flat, Kids, Position, Live, LiveSize, Tiled, Hash, Listing, Fits, LeafOk, Between, Ordered, Neat, Roomy,
           Wired, Counts, DistinctNodes, ProperSplit, SplitAs, GoesIn, Inserts, WithSlot, AfterSplit, HasRecord, SomeNodeLimit, SomeRootLimit, SameLimits;
      ghost var img := blocks;
      ghost var leaf := blocks[leafBlk].recs;
      NeedBound(name);
      FullMeansLive(leaf, bs, metaCsum, Need(|name|));
      AtPosition(blocks, bs, path);
      var newIblk, left, right, newHash, continued := SplitLeafBlock(cur, leafBlk, stray, path);
      SplitLeaves(img, bs, metaCsum, path, left, right, newHash + continued);
      ghost var split := blocks;
      var blkHash := En(blocks, cur.blk)[cur.pos + 1].hash;
      var target := if h >= blkHash then newIblk else leafBlk;
      var ins, recs := TryInsert(blocks[target].recs, bs, name, inode, ftype);
      blocks := blocks[target := Leaf(recs)];
      SameLimitsLeaf(img, split, target, recs);
      if ins { InsertedIn(split, target, split[target].recs, recs, bs, name, inode, ftype); }
      if bs / 2 < LiveSize(leaf) {
        SplitLeaf(img, bs, metaCsum, raw, path, left, right, newHash, continued);
        SplitAdded(img, split, bs, metaCsum, raw, slot, left, right, newHash, continued, ins, recs, name, inode, ftype);
        RoomInHalf(leaf, left, right, newHash, continued, bs, metaCsum, raw, h, Need(|name|));
      } else {
        HashRange(raw, name);
        RoomAfterSplit(right, bs, metaCsum, Need(|name|));
        if ins { InsertsLive(split[target].recs, recs, bs, name, inode, ftype); }
        SplitDoubled(img, split, leafBlk, right, target, recs, if ins then multiset{Entry(name, inode)} else multiset{});
      }
    }

    /** ext4_dir_remove_entry: finds the entry, through the index or in scan order, and merges its record
        into its predecessor. */
    method RemoveEntry(name: Name) returns (r: FindResult)
      requires Readable() && !IsDots(name) && (indexed ==> Valid() || Broken(name))
      modifies this
      ensures Readable() && indexed == (old(indexed && !Broken(name)) && 1 <= |name| <= MAX_NAME)
      ensures old(Sound(blocks, bs, metaCsum, raw)) ==> Sound(blocks, bs, metaCsum, raw)
      ensures !r.BadDir?
      ensures r.NotFound? ==> blocks == old(blocks) && forall e :: e in Listing(blocks) ==> e.name != name
      ensures r.Found? ==>
                LiveAt(old(blocks), r.blk, r.rec) && old(blocks)[r.blk].recs[r.rec].name == name
                && blocks == old(blocks)[r.blk := Leaf(Dropped(old(blocks)[r.blk].recs, r.rec))]
                && var e := multiset{Entry(name, old(blocks)[r.blk].recs[r.rec].inode)};
                   Listing(blocks) + e == Listing(old(blocks)) && Shown(blocks, bs) + e == Shown(old(blocks), bs)
    {
      hide Flat, Kids, Live, LiveSize, Tiled, Hash, Listing, LeafOk, Between, Ordered, Neat, UniqueNames, Scan, PathBroken,
           Shown, NeatLeaves, WellFormed, Dropped;
      r := FindEntry(name);
      if r.NotFound? {
        NotListed(blocks, name);
        return;
      }
      DropListed(blocks, bs, r.blk, r.rec);
      if Sound(blocks, bs, metaCsum, raw) {
        RemoveOk(blocks, bs, metaCsum, raw, r.blk, r.rec);
      }
      var recs := RemoveAt(blocks[r.blk].recs, bs, r.rec);
      blocks := blocks[r.blk := Leaf(recs)];
    }
  }

  /** Taking a record out of a leaf takes its entry from what is listed and from what the scan meets. */
  lemma {:induction false} DropListed(img: Image, bs: nat, b: nat, k: nat)
    requires Scannable(img, bs) && LiveAt(img, b, k)
    ensures Tiled(img[b].recs, bs) && Scannable(img[b := Leaf(Dropped(img[b].recs, k))], bs)
    ensures var img2, e := img[b := Leaf(Dropped(img[b].recs, k))], multiset{Entry(img[b].recs[k].name, img[b].recs[k].inode)};
            Listing(img2) + e == Listing(img) && Shown(img2, bs) + e == Shown(img, bs)
  {
    hide Live, LiveSize, Tiled, Listing, Neat, SumLen, Dropped;
    var recs := img[b].recs;
    var e := EntryOf(recs[k]);
    var img2 := img[b := Leaf(Dropped(recs, k))];
    DroppedOk(recs, bs, k);
    TiledRec(recs, bs, k);
    CutAt(recs, k);
    ListingLess(img, b, Dropped(recs, k), e);
    LeafShows(img[b], bs);
    LeafShows(img2[b], bs);
    assert ShownImage(img2, bs) == ShownImage(img, bs)[b := Leaf(Dropped(recs, k))];
    ListingLess(ShownImage(img, bs), b, Dropped(recs, k), e);
  }

  lemma {:induction false} ListingLess(img: Image, b: nat, recs: seq<Rec>, e: multiset<Entry>)
    requires IsLeaf(img, b) && Live(recs) + e == Live(img[b].recs)
    ensures Listing(img[b := Leaf(recs)]) + e == Listing(img)
  {
    hide Live, Listing;
    ListingUpdate(img, b, Leaf(recs));
    LinearAdd.Shift(Listing(img), Live(recs), Listing(img[b := Leaf(recs)]), e);
  }

  lemma {:induction false} RemoveOk(img: Image, bs: nat, metaCsum: bool, raw: Name -> nat, b: nat, k: nat)
    requires Sound(img, bs, metaCsum, raw) && LiveAt(img, b, k)
    ensures var img2 := img[b := Leaf(Dropped(img[b].recs, k))];
            Sound(img2, bs, metaCsum, raw)
            && Listing(img2) + multiset{Entry(img[b].recs[k].name, img[b].recs[k].inode)} == Listing(img)
  {
    hide Flat, Kids, Live, LiveSize, Tiled, Hash, Listing, LeafOk, Between, Ordered, Neat, SumLen, Dropped;
    var recs := img[b].recs;
    var e := EntryOf(recs[k]);
    DroppedOk(recs, bs, k);
    TiledRec(recs, bs, k);
    DroppedNeat(recs, metaCsum, k);
    CutAt(recs, k);
    assert e <= Live(recs);
    assert Live(Dropped(recs, k)) + e == Live(recs);
    var f := Flat(img, bs);
    assert Reached(f, b);
    var p :| 0 <= p < |f| && f[p].block == b;
    TakeFromLeaf(img, bs, raw, p, Dropped(recs, k), e);
  }

  lemma {:induction false} TiledRec(recs: seq<Rec>, bs: nat, k: nat)
    requires Tiled(recs, bs) && k < |recs|
    ensures RecOk(recs[k])
  {}

  /** A vain search means that the name is not listed; a successful one that it is. */
  lemma {:induction false} NotListed(img: Image, name: Name)
    ensures (forall b :: IsLeaf(img, b) ==> !LeafHas(img, b, name))
            <==> forall e :: e in Listing(img) ==> e.name != name
  {
    hide Live, Listing;
    if forall b :: IsLeaf(img, b) ==> !LeafHas(img, b, name) {
      forall e | e in Listing(img) ensures e.name != name {
        ListingMember(img, e);
        var b :| 0 <= b < |img| && e in LeafLive(img[b]);
        LiveMember(img[b].recs, e);
        var k :| 0 <= k < |img[b].recs| && img[b].recs[k].inode != 0 && Entry(img[b].recs[k].name, img[b].recs[k].inode) == e;
        assert IsLeaf(img, b) && !LeafHas(img, b, name);
        assert !Match(img[b].recs[k], name);
      }
    }
    forall b: nat | IsLeaf(img, b) && LeafHas(img, b, name)
      ensures exists e :: e in Listing(img) && e.name == name
    {
      var k :| 0 <= k < |img[b].recs| && Match(img[b].recs[k], name);
      var e := Entry(name, img[b].recs[k].inode);
      LiveMember(img[b].recs, e);
      assert e in LeafLive(img[b]);
      ListingMember(img, e);
    }
  }

  /** The image after a leaf split, proper or not, and its index entry. */
  ghost predicate DidSplit(img: Image, img2: Image, path: seq<Cursor>, left: seq<Rec>, right: seq<Rec>, hash: nat) {
    && Typed(img) && ValidPath(img, path) && LeafOf(img, path) < |img|
    && var mid := AfterSplit(img, path, left, right);
       Typed(mid) && ValidPath(mid, path) && img2 == WithSlot(mid, path, Idx(hash, |img|))
  }

  /** Only index blocks changed, and only index blocks were appended. */
  ghost predicate IndexGrew(img: Image, img2: Image) {
    && |img| <= |img2| && 0 < |img|
    && (forall b :: 0 <= b < |img| ==> img2[b].Leaf? == img[b].Leaf? && (img[b].Leaf? ==> img2[b] == img[b]))
    && (forall b :: |img| <= b < |img2| ==> !img2[b].Leaf?)
    && (img[0].Root? && img2[0].Root? ==> img2[0].self == img[0].self && img2[0].parent == img[0].parent)
    && (forall b :: 0 < b < |img2| && img2[b].Root? ==> b < |img| && img[b].Root? && img2[b] == img[b])
  }

  /** A path's lowest index block is within its limit, which is at least two entries. */
  lemma {:induction false} PathCounts(img: Image, bs: nat, path: seq<Cursor>)
    requires BlockSize(bs) && Shape(img, bs) && ValidPath(img, path)
    ensures var c := path[|path| - 1]; |En(img, c.blk)| <= img[c.blk].limit && 2 <= img[c.blk].limit
  {
    if |path| == 2 { assert NodeCounts(img, path[1].blk, bs); }
  }

  /** Everything about a directory's blocks but the index flag. */
  ghost predicate Sound(img: Image, bs: nat, metaCsum: bool, raw: Name -> nat) {
    BlockSize(bs) && DotsOk(img) && WellFormed(img, bs, raw) && NeatLeaves(img, metaCsum)
  }

  lemma {:induction false} ListingLeaves(img: Image, img2: Image)
    requires |img| <= |img2|
    requires forall b :: 0 <= b < |img| ==> img2[b].Leaf? == img[b].Leaf? && (img[b].Leaf? ==> img2[b] == img[b])
    requires forall b :: |img| <= b < |img2| ==> !img2[b].Leaf?
    ensures Listing(img2) == Listing(img)
    decreases |img2|
  {
    hide Live, Listing, LeafLive;
    if img2 == [] {
      assert img == img2;
    } else {
      var n := |img2| - 1;
      assert img2 == img2[..n] + [img2[n]];
      ListingAppend(img2[..n], img2[n]);
      if |img2| == |img| {
        assert img == img[..n] + [img[n]];
        ListingAppend(img[..n], img[n]);
        SameLive(img[n], img2[n]);
        ListingLeaves(img[..n], img2[..n]);
      } else {
        SameLive(img2[n], img2[n]);
        ListingLeaves(img, img2[..n]);
      }
    }
  }

  lemma {:induction false} SameLive(b: Block, b2: Block)
    requires b2.Leaf? == b.Leaf? && (b.Leaf? ==> b2 == b)
    ensures LeafLive(b2) == LeafLive(b) && (!b2.Leaf? ==> LeafLive(b2) == multiset{})
  {}

  /** Splitting index blocks keeps the directory sound. */
  lemma {:induction false} IndexGrewOk(img: Image, img2: Image, bs: nat, metaCsum: bool, raw: Name -> nat)
    requires Sound(img, bs, metaCsum, raw) && IndexGrew(img, img2)
    requires Shape(img2, bs) && Flat(img2, bs) == Flat(img, bs)
    ensures Sound(img2, bs, metaCsum, raw) && Listing(img2) == Listing(img)
  {
    hide Flat, Kids, Live, Tiled, Hash, Listing, Between, Neat, Ordered;
    ListingLeaves(img, img2);
    var f := Flat(img, bs);
    forall b | 0 <= b < |img2| && img2[b].Leaf? ensures Reached(f, b) { assert img[b].Leaf?; assert Reached(f, b); }
    forall i | 0 <= i < |f| ensures LeafOk(img2, f, i, raw) { assert LeafOk(img, f, i, raw); }
  }

  /** Inserting into the landing leaf keeps the directory sound and adds just the entry. */
  lemma {:induction false} AddOk(img: Image, bs: nat, metaCsum: bool, raw: Name -> nat, p: nat, recs: seq<Rec>,
                                 name: Name, inode: nat, ftype: nat)
    requires Sound(img, bs, metaCsum, raw) && Lands(Flat(img, bs), Hash(raw, name), p) && inode != 0
    requires IsLeaf(img, Flat(img, bs)[p].block)
    requires Inserts(img[Flat(img, bs)[p].block].recs, recs, bs, name, inode, ftype)
    ensures var img2 := img[Flat(img, bs)[p].block := Leaf(recs)];
            Sound(img2, bs, metaCsum, raw) && Listing(img2) == Listing(img) + multiset{Entry(name, inode)}
  {
    hide Flat, Kids, Live, Tiled, Hash, Listing, Between, Neat, Ordered, RecOk, Placed, Wired, LeafOk;
    var b := Flat(img, bs)[p].block;
    var old_ := img[b].recs;
    assert Lo(Flat(img, bs)[p].hash) <= Flat(img, bs)[p].hash;
    AddToLeaf(img, bs, raw, p, recs, Entry(name, inode));
    var i :| 0 <= i < |old_| && RecOk(old_[i]) && FirstRoom(old_, i, Need(|name|)) && recs == Placed(old_, i, name, inode, ftype);
    PlacedNeat(old_, metaCsum, i, name, inode, ftype);
  }

  /** A leaf split, proper or not, leaves all other leaves alone. */
  lemma {:induction false} SplitLeaves(img: Image, bs: nat, metaCsum: bool, path: seq<Cursor>, left: seq<Rec>, right: seq<Rec>, hash: nat)
    requires Shape(img, bs) && ValidPath(img, path) && HasSlack(img, path) && IsLeaf(img, LeafOf(img, path))
    requires Tiled(left, bs) && Tiled(right, bs) && Neat(left, metaCsum) && Neat(right, metaCsum)
    requires LeavesTiled(img, bs) && NeatLeaves(img, metaCsum) && DotsOk(img)
    ensures var mid := AfterSplit(img, path, left, right);
            && Typed(mid) && ValidPath(mid, path)
            && var img2 := WithSlot(mid, path, Idx(hash, |img|));
               var c := path[|path| - 1];
               && |img2| == |img| + 1 && img2[|img|] == Leaf(right) && img2[LeafOf(img, path)] == Leaf(left)
               && SameLimits(img, img2) && LeavesTiled(img2, bs) && NeatLeaves(img2, metaCsum) && DotsOk(img2)
               && c.blk < |img2| && !img2[c.blk].Leaf? && c.pos + 1 < |En(img2, c.blk)|
               && En(img2, c.blk)[c.pos + 1].hash == hash
               && Listing(img2) == Listing(img[LeafOf(img, path) := Leaf(left)] + [Leaf(right)])
  {
    hide Flat, Kids, Live, Tiled, Listing, Neat, Position;
    SplitFlat(img, bs, path, left, right, hash);
    var mid := AfterSplit(img, path, left, right);
    WithSlotLeaves(mid, path, Idx(hash, |img|));
    var img2 := WithSlot(mid, path, Idx(hash, |img|));
    forall b | 0 <= b < |img2| && img2[b].Leaf? ensures Tiled(img2[b].recs, bs) && Neat(img2[b].recs, metaCsum) {
      assert b < |img| && b != LeafOf(img, path) ==> img2[b] == img[b];
    }
    var c := path[|path| - 1];
    assert mid[c.blk] == img[c.blk];
    forall b | 0 <= b < |img2| && img2[b].Root? ensures img2[b].self != 0 && img2[b].parent != 0 {
      assert b < |img| && img[b].Root?;
    }
  }

  /** A directory right after a proper split of the leaf at slot p, the new slot's hash being `hash`. */
  ghost predicate JustSplit(img: Image, split: Image, bs: nat, p: nat, left: seq<Rec>, right: seq<Rec>, hash: nat)
    requires Shape(img, bs) && Shape(split, bs)
  {
    && p < |Flat(img, bs)| && IsLeaf(img, Flat(img, bs)[p].block)
    && Flat(split, bs) == InsertIdx(Flat(img, bs), p, Idx(hash, |img|))
    && |split| == |img| + 1 && split[|img|] == Leaf(right) && split[Flat(img, bs)[p].block] == Leaf(left)
    && Listing(split) == Listing(img)
  }

  /** The hash comparison picks the half whose slot the hash falls into. */
  lemma {:induction false} LandsAfterSplit(f: seq<Idx>, p: nat, x: Idx, h: nat)
    requires Lands(f, h, p)
    ensures Lands(InsertIdx(f, p, x), h, if h >= x.hash then p + 1 else p)
  {}

  lemma {:induction false} RoomAfterSplit(recs: seq<Rec>, bs: nat, metaCsum: bool, need: nat)
    requires Tiled(recs, bs) && Neat(recs, metaCsum) && Roomy(recs, LeafSpace(bs, metaCsum))
    ensures Fits(recs, need) <==> need + LiveSize(recs) <= LeafSpace(bs, metaCsum)
  {
    hide Tiled, Neat, LiveSize, Fits, Roomy, Body;
    BodyOk(recs, bs, metaCsum);
    if Fits(recs, need) { FitsBound(Body(recs, metaCsum), LeafSpace(bs, metaCsum), need); }
    if need + LiveSize(recs) <= LeafSpace(bs, metaCsum) { RoomyFits(recs, LeafSpace(bs, metaCsum), need); }
  }

  /** Inserting after a proper split. */
  lemma {:induction false} SplitAdded(img: Image, split: Image, bs: nat, metaCsum: bool, raw: Name -> nat, p: nat,
                                      left: seq<Rec>, right: seq<Rec>, newHash: nat, c: nat,
                                      ins: bool, recs: seq<Rec>, name: Name, inode: nat, ftype: nat)
    requires Sound(img, bs, metaCsum, raw) && Sound(split, bs, metaCsum, raw) && inode != 0
    requires JustSplit(img, split, bs, p, left, right, newHash + c)
    requires Lands(Flat(img, bs), Hash(raw, name), p)
    requires ProperSplit(img[Flat(img, bs)[p].block].recs, left, right, newHash, c, bs, metaCsum, raw)
    requires var half := if Hash(raw, name) >= newHash + c then right else left;
             if ins then Inserts(half, recs, bs, name, inode, ftype) else recs == half
    requires ins <==> Fits(if Hash(raw, name) >= newHash + c then right else left, Need(|name|))
    ensures var b := Flat(img, bs)[p].block;
            var final := split[(if Hash(raw, name) >= newHash + c then |img| else b) := Leaf(recs)];
            && Sound(final, bs, metaCsum, raw)
            && Listing(final) == Listing(img) + (if ins then multiset{Entry(name, inode)} else multiset{})
            && (ins <==> Need(|name|) + LiveSize(if Hash(raw, name) >= newHash + c then right else left) <= LeafSpace(bs, metaCsum))
  {
    hide Flat, Kids, Live, LiveSize, Tiled, Hash, Listing, Between, Neat, Ordered, Placed, Fits, Roomy, Wired, LeafOk, LeavesTiled, Inserts;
    var h := Hash(raw, name);
    var half := if h >= newHash + c then right else left;
    var q := if h >= newHash + c then p + 1 else p;
    LandsAfterSplit(Flat(img, bs), p, Idx(newHash + c, |img|), h);
    RoomAfterSplit(half, bs, metaCsum, Need(|name|));
    var b := Flat(img, bs)[p].block;
    var target := if h >= newHash + c then |img| else b;
    assert Flat(split, bs)[q].block == target && split[target] == Leaf(half);
    if ins {
      AddOk(split, bs, metaCsum, raw, q, recs, name, inode, ftype);
    } else {
      assert split[target := Leaf(recs)] == split;
      assert Listing(img) + multiset{} == Listing(img);
    }
  }

  lemma {:induction false} LiveSizeLive(recs: seq<Rec>)
    requires 0 < LiveSize(recs)
    ensures Live(recs) != multiset{}
  {
    var n := |recs| - 1;
    if recs[n].inode != 0 {
      assert Entry(recs[n].name, recs[n].inode) in Live(recs);
    } else {
      LiveSizeLive(recs[..n]);
      var e :| e in Live(recs[..n]);
      assert e in Live(recs);
    }
  }

  /** The improper split writes every entry of the leaf a second time. */
  lemma {:induction false} SplitDoubled(img: Image, split: Image, b: nat, right: seq<Rec>, target: nat, recs: seq<Rec>, e: multiset<Entry>)
    requires IsLeaf(img, b) && 0 < LiveSize(img[b].recs) && Live(right) == Live(img[b].recs)
    requires Listing(split) == Listing(img[b := Leaf(img[b].recs)] + [Leaf(right)])
    requires IsLeaf(split, target) && Live(recs) == Live(split[target].recs) + e
    ensures Live(img[b].recs) != multiset{}
    ensures Listing(split[target := Leaf(recs)]) == Listing(img) + Live(img[b].recs) + e
  {
    hide Live, LiveSize, Listing;
    LiveSizeLive(img[b].recs);
    assert img[b := Leaf(img[b].recs)] == img;
    ListingAppend(img, Leaf(right));
    ListingUpdate(split, target, Leaf(recs));
    LinearAdd.Shift(Listing(split[target := Leaf(recs)]), Live(split[target].recs), Listing(split), e);
  }

  lemma {:induction false} InsertsLive(recs: seq<Rec>, out: seq<Rec>, bs: nat, name: Name, inode: nat, ftype: nat)
    requires Inserts(recs, out, bs, name, inode, ftype)
    ensures Live(out) == Live(recs) + multiset{Entry(name, inode)}
  {}

  lemma {:induction false} FoundMeans(img: Image, name: Name, r: FindResult)
    requires Typed(img) && !r.BadDir?
    requires r.Found? ==> IsLeaf(img, r.blk) && r.rec < |img[r.blk].recs| && Match(img[r.blk].recs[r.rec], name)
                          && forall k :: 0 <= k < r.rec ==> !Match(img[r.blk].recs[k], name)
    requires r.NotFound? ==> forall b :: IsLeaf(img, b) ==> !LeafHas(img, b, name)
    ensures Finds(img, name, r)
  {}

  lemma {:induction false} ScanFinds(img: Image, bs: nat, name: Name)
    requires !IsDots(name)
    ensures Finds(img, name, Scan(img, bs, 0, name))
  {
    ScanMeans(img, bs, 0, name);
  }

  // ----- when a split works out

  /** From 1056-byte blocks on, that is for every real block size but 1024, the half an entry belongs to has
      room after every proper split. */
  lemma {:induction false} BigBlocksAdd(leaf: seq<Rec>, h: nat, name: Name, bs: nat, metaCsum: bool, raw: Name -> nat)
    requires Tiled(leaf, bs) && Neat(leaf, metaCsum) && bs / 2 < LiveSize(leaf) && 1056 <= bs && |name| <= MAX_NAME
    ensures GoesIn(leaf, h, Need(|name|), bs, metaCsum, raw)
  {
    hide Live, LiveSize, SumLen, HalvesOf, SumItems, Neat, Body;
    BodyOk(leaf, bs, metaCsum);
    NeedBound(name);
    HalvesOk(leaf, bs, raw);
  }

  /** A 1024-byte leaf with names of 244, 255, 254 and 236 bytes, which it is full of. */
  function FullLeaf(): seq<Rec> {
    [Rec(11, 252, Letters(244), 1), Rec(12, 264, Letters(255), 1), Rec(13, 264, Letters(254), 1), Rec(14, 244, Letters(236), 1)]
  }

  function Letters(n: nat): (s: Name)
    ensures |s| == n && forall i :: 0 <= i < n ==> s[i] == 97
  {
    seq(n, i => 97)
  }

  /** A hash function under which the first of these names comes before all others. */
  function ShortFirst(name: Name): nat { if |name| == 244 then 100 else 200 }

  lemma {:induction false} FullRec(i: nat)
    requires i < 4
    ensures RecOk(FullLeaf()[i]) && LiveSize([FullLeaf()[i]]) == FullLeaf()[i].len
    ensures !HasRoom(FullLeaf()[i], Need(MAX_NAME)) && FullLeaf()[i].inode != 0
  {
    hide SumLen, LiveSize, Live;
    One(FullLeaf()[i]);
  }

  lemma {:induction false} FourSums(a: Rec, b: Rec, c: Rec, d: Rec)
    ensures SumLen([a, b, c, d]) == a.len + b.len + c.len + d.len
    ensures LiveSize([a, b, c, d]) == LiveSize([a]) + LiveSize([b]) + LiveSize([c]) + LiveSize([d])
  {
    hide SumLen, LiveSize, Live, EntryOf;
    Two(a, b);
    Two(c, d);
    assert [a, b, c, d] == [a, b] + [c, d];
    Concat([a, b], [c, d]);
  }

  lemma {:induction false} FullLeafFacts()
    ensures Tiled(FullLeaf(), 1024) && Neat(FullLeaf(), false) && LiveSize(FullLeaf()) == 1024
    ensures !Fits(FullLeaf(), Need(MAX_NAME))
  {
    hide SumLen, LiveSize, Live, HasRoom, RecOk, Letters;
    var a := FullLeaf();
    forall i | 0 <= i < 4
      ensures RecOk(a[i]) && LiveSize([a[i]]) == a[i].len && !HasRoom(a[i], Need(MAX_NAME)) && a[i].inode != 0
    {
      FullRec(i);
    }
    FourSums(a[0], a[1], a[2], a[3]);
    assert a == [a[0], a[1], a[2], a[3]];
  }

  function FullItem(i: nat): Item
    requires i < 4
  {
    Item(if i == 0 then 100 else 200, FullLeaf()[i].len, FullLeaf()[i])
  }

  lemma {:induction false} FullLeafItems()
    ensures ItemsOf(FullLeaf(), ShortFirst) == [FullItem(0), FullItem(1), FullItem(2), FullItem(3)]
  {
    hide ItemsOf;
    var a := FullLeaf();
    NoItems(ShortFirst);
    assert a[..0] == [] && a[..4] == a;
    forall i | 0 <= i < 4 ensures ItemsOf(a[..i + 1], ShortFirst) == ItemsOf(a[..i], ShortFirst) + [FullItem(i)] {
      ItemsOfStep(a, i, ShortFirst);
    }
    assert ItemsOf(a[..1], ShortFirst) == [FullItem(0)];
    assert ItemsOf(a[..2], ShortFirst) == [FullItem(0), FullItem(1)];
    assert ItemsOf(a[..3], ShortFirst) == [FullItem(0), FullItem(1), FullItem(2)];
  }

  /** Its split leaves 252 bytes on the left and 772 on the right. */
  lemma {:induction false} FullLeafHalves()
    ensures var h := HalvesOf(FullLeaf(), 1024, ShortFirst); h.newHash == 200 && h.continued == 0 && SumItems(h.right) == 772
  {
    hide SumItems, ItemsOf, ByHash, LiveItems;
    FullLeafItems();
    var s := [FullItem(0), FullItem(1), FullItem(2), FullItem(3)];
    SortedByHash(s);
    forall i | 0 <= i < 4 ensures SumItems(s[..i + 1]) == SumItems(s[..i]) + s[i].len { ItemsStep(s, i); }
    WholeAndNothing(s);
    ItemsNil();
    assert SumItems(s[..1]) == 252 && SumItems(s[..2]) == 516;
    ItemsCut(s, 1);
    assert SumItems(s[..3]) == 780 && SumItems(s[..4]) == 1024;
    assert MidFrom(s, 1024, 0) == MidFrom(s, 1024, 1) == 1;
  }

  /** In a directory of 1024-byte blocks a name of 255 bytes whose hash is not below the new index hash is lost:
      whatever the directory around such a leaf is, AddEntry reports success and lists nothing new. */
  lemma {:induction false} LostEntry(img: Image, img2: Image, name: Name, inode: nat, ftype: nat, slot: nat, at: seq<Cursor>, stray: nat)
    requires |name| == MAX_NAME && AddedByIndex(img, img2, 1024, false, ShortFirst, name, inode, ftype, Added, slot, at, stray)
    requires img[Flat(img, 1024)[slot].block].recs == FullLeaf()
    ensures Listing(img2) == Listing(img)
  {
    hide Listing, Flat, Kids, Live, LiveSize, Fits, HalvesOf, SumItems, Position, Sound;
    FullLeafFacts();
    FullLeafHalves();
    assert Hash(ShortFirst, name) == 200;
    assert !GoesIn(FullLeaf(), 200, Need(MAX_NAME), 1024, false, ShortFirst);
    assert Listing(img) + multiset{} == Listing(img);
  }

  /** A directory with a root and this one leaf. */
  function LossyImage(): Image {
    [Root(2, 2, 0, RootLimit(1024), [Idx(0, 1)]), Leaf(FullLeaf())]
  }

  lemma {:induction false} LossyOk()
    ensures Sound(LossyImage(), 1024, false, ShortFirst) && Flat(LossyImage(), 1024) == [Idx(0, 1)]
  {
    hide Live, LiveSize, Hash, Tiled, Neat, FullLeaf;
    FullLeafFacts();
    var img := LossyImage();
    Written(1024);
    var f := Flat(img, 1024);
    assert f == [Idx(0, 1)];
    assert Reached(f, 1) by { assert f[0].block == 1; }
    forall e | e in Live(img[1].recs) ensures Lo(0) <= Hash(ShortFirst, e.name) < Hi(f, 0) {
      HashRange(ShortFirst, e.name);
    }
  }

  lemma {:induction false} SoundReadable(img: Image, bs: nat, metaCsum: bool, raw: Name -> nat)
    requires Sound(img, bs, metaCsum, raw)
    ensures Scannable(img, bs) && DotsOk(img) && Typed(img) && WellFormed(img, bs, raw) && NeatLeaves(img, metaCsum)
  {
    hide Tiled, Flat, LeafOk, Ordered, Wired;
  }

  lemma {:induction false} LossyAdded(img2: Image, name: Name, inode: nat, ftype: nat, r: AddResult, slot: nat, at: seq<Cursor>)
    requires |name| == MAX_NAME && AddedByIndex(LossyImage(), img2, 1024, false, ShortFirst, name, inode, ftype, r, slot, at, 0)
    ensures r == Added && Sound(img2, 1024, false, ShortFirst) && Listing(img2) == Listing(LossyImage())
  {
    hide Listing, Kids, Flat, Live, LiveSize, Fits, Position, Sound, FullLeaf, GoesIn;
    LossyOk();
    FullLeafFacts();
    LostEntry(LossyImage(), img2, name, inode, ftype, slot, at, 0);
  }

  /** The loss happens: in this well formed directory any new name of 255 bytes is reported as added and
      is not listed. */
  method LostRun(name: Name, inode: nat) returns (d: Directory, r: AddResult)
    requires |name| == MAX_NAME && inode != 0
    ensures d.Valid() && d.bs == 1024 && r == Added && Listing(d.blocks) == Listing(LossyImage())
  {
    hide Flat, Kids, Live, LiveSize, Tiled, Listing, WellFormed, NeatLeaves, FullLeaf, LeavesTiled, Sound, AddedByIndex, Scannable;
    d := new Directory.DxInit(1024, false, ShortFirst, 2, 2);
    d.blocks := LossyImage();
    LossyOk();
    ghost var slot, at;
    SoundReadable(d.blocks, 1024, false, ShortFirst);
    r, slot, at := d.AddEntry(name, inode, 1, 0);
    LossyAdded(d.blocks, name, inode, 1, r, slot, at);
    SoundReadable(d.blocks, 1024, false, ShortFirst);
  }

  /** A block of n records of 256 bytes, each with a one-byte name: what deletions can leave. */
  function Sparse(n: nat): seq<Rec>
    requires n < 256
  {
    if n == 0 then [] else Sparse(n - 1) + [Rec(n, 256, [n as byte], 1)]
  }

  lemma {:induction false} SparseFacts(n: nat)
    requires n < 256
    ensures SumLen(Sparse(n)) == 256 * n && LiveSize(Sparse(n)) == 12 * n && |Sparse(n)| == n
    ensures forall k :: 0 <= k < n ==> RecOk(Sparse(n)[k]) && Sparse(n)[k].inode != 0 && Sparse(n)[k].len == 256
                                       && |Sparse(n)[k].name| == 1
  {
    hide SumLen, LiveSize, Live;
    if n == 0 {
      Nil();
    } else {
      SparseFacts(n - 1);
      One(Rec(n, 256, [n as byte], 1));
      Concat(Sparse(n - 1), [Rec(n, 256, [n as byte], 1)]);
    }
  }

  /** The split's assumption can fail for every block size: such a block takes no 255-byte name,
      yet its records fill far less than half of it. */
  lemma {:induction false} SparseBlockSplitsBadly(n: nat)
    requires 4 <= n < 256
    ensures Tiled(Sparse(n), 256 * n) && Neat(Sparse(n), false)
    ensures !Fits(Sparse(n), Need(MAX_NAME)) && LiveSize(Sparse(n)) <= 256 * n / 2
  {
    hide SumLen, LiveSize, Live;
    SparseFacts(n);
  }

  // ----- a sparse block comes from deletions

  function Long(k: nat): Rec
    requires k < 256
  {
    Rec(256 + k, 244, [k as byte] + Letters(235), 1)
  }

  /** n pairs of a record of 12 bytes and one of 244, of which the first j pairs lost their second record. */
  function Thinned(n: nat, j: nat): seq<Rec>
    requires n < 256 && j <= n
  {
    if n == 0 then []
    else if j == n then Thinned(n - 1, n - 1) + [Rec(n, 256, [n as byte], 1)]
    else Thinned(n - 1, j) + [Rec(n, 12, [n as byte], 1), Long(n)]
  }

  lemma {:induction false} ThinnedLength(n: nat, j: nat)
    requires n < 256 && j <= n
    ensures |Thinned(n, j)| == 2 * n - j
  {
    if n > 0 { ThinnedLength(n - 1, if j == n then n - 1 else j); }
  }

  lemma {:induction false} ThinnedAll(n: nat)
    requires n < 256
    ensures Thinned(n, n) == Sparse(n)
  {
    if n > 0 { ThinnedAll(n - 1); }
  }

  lemma {:induction false} DroppedFront(a: seq<Rec>, b: seq<Rec>, i: nat)
    requires 0 < i < |a|
    ensures Dropped(a + b, i) == Dropped(a, i) + b
  {
    CutFront(a, b, i - 1);
    CutFront(a, b, i + 1);
    Associates(a[..i - 1], [a[i - 1].(len := a[i - 1].len + a[i].len)], a[i + 1..], b);
  }

  lemma {:induction false} CutFront<T>(a: seq<T>, b: seq<T>, k: nat)
    requires k <= |a|
    ensures (a + b)[..k] == a[..k] && (a + b)[k..] == a[k..] + b
  {}

  lemma {:induction false} Associates<T>(a: seq<T>, m: seq<T>, c: seq<T>, b: seq<T>)
    ensures (a + m + c) + b == a + m + (c + b)
  {}

  /** Each deletion of a long record gives the next list. */
  lemma {:induction false} ThinnedStep(n: nat, j: nat)
    requires j < n < 256
    ensures |Thinned(n, j)| == 2 * n - j && j + 1 < |Thinned(n, j)| && Thinned(n, j)[j + 1] == Long(j + 1)
    ensures Dropped(Thinned(n, j), j + 1) == Thinned(n, j + 1)
  {
    hide Long;
    ThinnedLength(n, j);
    ThinnedLength(n - 1, j);
    if j + 1 == n {
      var a := Thinned(n - 1, j);
      var s := Thinned(n, j);
      LongLen(n);
      assert s == a + [Rec(n, 12, [n as byte], 1), Long(n)];
      assert s[..j] == a && s[j + 2..] == [];
    } else {
      ThinnedStep(n - 1, j);
      DroppedFront(Thinned(n - 1, j), [Rec(n, 12, [n as byte], 1), Long(n)], j + 1);
    }
  }

  lemma {:induction false} LongLen(k: nat)
    requires k < 256
    ensures Long(k).len == 244 && Need(|Long(k).name|) == 244 && RecOk(Long(k)) && Long(k).inode != 0
  {}

  /** The block to start from is full of live records. */
  lemma {:induction false} DenseFacts(n: nat)
    requires n < 256
    ensures SumLen(Thinned(n, 0)) == LiveSize(Thinned(n, 0)) == 256 * n
    ensures forall k :: 0 <= k < |Thinned(n, 0)| ==> RecOk(Thinned(n, 0)[k]) && Thinned(n, 0)[k].inode != 0
  {
    hide SumLen, LiveSize, Live, Long;
    if n == 0 {
      Nil();
    } else {
      DenseFacts(n - 1);
      LongLen(n);
      var r := Rec(n, 12, [n as byte], 1);
      One(r);
      One(Long(n));
      Two(r, Long(n));
      Concat(Thinned(n - 1, 0), [r, Long(n)]);
    }
  }

  /** A block full of live records, from which n deletions make the sparse block. */
  lemma {:induction false} SparseByDeletions(n: nat)
    requires 4 <= n < 256
    ensures Tiled(Thinned(n, 0), 256 * n) && Neat(Thinned(n, 0), false) && LiveSize(Thinned(n, 0)) == 256 * n
    ensures forall j: nat :: j < n ==> j + 1 < |Thinned(n, j)| && Dropped(Thinned(n, j), j + 1) == Thinned(n, j + 1)
    ensures Thinned(n, n) == Sparse(n)
  {
    hide SumLen, LiveSize, Live, Thinned, Dropped;
    DenseFacts(n);
    ThinnedLength(n, 0);
    ThinnedAll(n);
    forall j: nat | j < n ensures j + 1 < |Thinned(n, j)| && Dropped(Thinned(n, j), j + 1) == Thinned(n, j + 1) {
      ThinnedStep(n, j);
    }
  }

  // ----- index splits with metadata checksums

  /** A grown root leads every later descent to the new node, whose limit does not deduct the tail:
      with checksums all of them fail, without none does. */
  lemma {:induction false} GrownIsRefused(img: Image, bs: nat, metaCsum: bool, h: nat)
    requires BlockSize(bs) && Shape(img, bs) && img[0].levels == 0 && img[0].limit == RootLimit(IndexSpace(bs, metaCsum))
    ensures var img2 := Grown(img, bs);
            Typed(img2) && (PathBroken(img2, IndexSpace(bs, metaCsum), h) <==> metaCsum)
  {
    hide SomeNodeLimit, DistinctNodes;
    var img2, en := Grown(img, bs), img[0].en;
    LimitBounds(bs, img[0].limit, NodeLimit(bs)) by { Written(bs); }
    forall i | 0 <= i < |en| ensures IsLeaf(img2, en[i].block) { assert IsLeaf(img, en[i].block); }
    assert NodeTyped(img2, |img|);
    LimitsDiffer(bs, metaCsum);
  }

  /** After a node was halved, the descents that fail are those to its upper half, with checksums. */
  lemma {:induction false} HalvedIsRefused(img: Image, bs: nat, metaCsum: bool, k: nat, h: nat)
    requires BlockSize(bs) && Shape(img, bs) && LimitsOk(img, IndexSpace(bs, metaCsum))
    requires img[0].levels == 1 && k < |img[0].en| < img[0].limit
    requires IsNode(img, img[0].en[k].block) && 2 <= |Sub(img, img[0].en, k)|
    ensures var img2 := Halved(img, bs, k);
            Typed(img2) && 0 < |img2[0].en|
            && (PathBroken(img2, IndexSpace(bs, metaCsum), h) <==> metaCsum && Landing(img2[0].en, h) == k + 1)
  {
    hide Landing, NodeLimit, DistinctNodes, SomeNodeLimit, SomeRootLimit;
    var img2 := Halved(img, bs, k);
    HalvedShape(img, bs, k);
    var en, en2 := img[0].en, img2[0].en;
    var at := Landing(en2, h);
    LimitsDiffer(bs, metaCsum);
    assert NodeCounts(img2, en2[at].block, bs);
    if at != k + 1 {
      var o := if at <= k then at else at - 1;
      assert en2[at] == en[o] && NodeCounts(img, en[o].block, bs);
    }
  }

  lemma {:induction false} LimitsDiffer(bs: nat, metaCsum: bool)
    requires BlockSize(bs)
    ensures NodeLimit(bs) == NodeLimit(IndexSpace(bs, metaCsum)) + if metaCsum then 1 else 0
  {}

  /** A fresh leaf is one dead record, and the tail. */
  lemma {:induction false} FreshLeaf(bs: nat, metaCsum: bool)
    requires BlockSize(bs)
    ensures var recs := Tailed([Rec(0, LeafSpace(bs, metaCsum), [], 0)], metaCsum);
            Tiled(recs, bs) && Neat(recs, metaCsum) && Live(recs) == multiset{}
  {
    var r := Rec(0, LeafSpace(bs, metaCsum), [], 0);
    One(r);
    TailedOk([r], bs, metaCsum);
    TailedNeat([r], metaCsum);
  }
}
