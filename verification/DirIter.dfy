/** The directory iterator over the bytes of a directory, and ext4_has_children on top of it. */
module DirIter {
  import opened Arith
  import opened DirNames
  import opened DirBlock

  /** The blocks of a directory, its size, and whether the name length has a high byte (revision 0
      before minor revision 5). */
  datatype Dir = Dir(blocks: seq<seq<byte>>, size: nat, bs: nat, wide: bool)

  /** Every byte below the size lies in a block. */
  ghost predicate DirOk(d: Dir) {
    && 8 <= d.bs && d.size <= |d.blocks| * d.bs
    && forall b :: 0 <= b < |d.blocks| ==> |d.blocks[b]| == d.bs
  }

  // ----- the fields of the record at offset o of a block

  function InodeAt(s: seq<byte>, o: nat): nat
    requires o + HEADER <= |s|
  {
    s[o] as int + 0x100 * s[o + 1] as int + 0x1_0000 * s[o + 2] as int + 0x100_0000 * s[o + 3] as int
  }

  function LenAt(s: seq<byte>, o: nat): (n: nat)
    requires o + HEADER <= |s|
    ensures n % 256 == s[o + 4] as int && n / 256 == s[o + 5] as int
  {
    s[o + 4] as int + 0x100 * s[o + 5] as int
  }

  function NameLenAt(s: seq<byte>, o: nat, wide: bool): (n: nat)
    requires o + HEADER <= |s|
    ensures n % 256 == s[o + 6] as int && n / 256 == if wide then s[o + 7] as int else 0
  {
    s[o + 6] as int + if wide then 0x100 * s[o + 7] as int else 0
  }

  /** The checks of ext4_dir_iterator_set. */
  predicate RecordOk(s: seq<byte>, o: nat, wide: bool) {
    && o % 4 == 0
    && o + HEADER <= |s|
    && o + LenAt(s, o) <= |s|
    && NameLenAt(s, o, wide) <= LenAt(s, o) - 8
  }

  function NameAt(s: seq<byte>, o: nat, wide: bool): Name
    requires RecordOk(s, o, wide)
  {
    s[o + HEADER..o + HEADER + NameLenAt(s, o, wide)]
  }

  // ----- what the iterator meets from a position on

  datatype Spot = End | Bad | On(pos: nat)

  lemma {:induction false} InBlock(d: Dir, pos: nat)
    requires DirOk(d) && pos < d.size
    ensures Quot(pos, d.bs) < |d.blocks| && Rem(pos, d.bs) < d.bs
  {
    hide Quot, Rem;
    Split(pos, d.bs);
    if Quot(pos, d.bs) >= |d.blocks| {
      if |d.blocks| < Quot(pos, d.bs) { MulMore(|d.blocks|, Quot(pos, d.bs), d.bs); }
      assert false;
    }
  }

  ghost function BlockOf(d: Dir, pos: nat): (s: seq<byte>)
    requires DirOk(d) && pos < d.size
    ensures |s| == d.bs
  {
    InBlock(d, pos);
    d.blocks[Quot(pos, d.bs)]
  }

  ghost function OffOf(d: Dir, pos: nat): (o: nat)
    requires DirOk(d)
    ensures o < d.bs
  {
    Split(pos, d.bs);
    Rem(pos, d.bs)
  }

  ghost function SpotAt(d: Dir, pos: nat): Spot
    requires DirOk(d)
  {
    if pos >= d.size then End
    else if RecordOk(BlockOf(d, pos), OffOf(d, pos), d.wide) then On(pos)
    else Bad
  }

  /** The position behind the record at a position. */
  ghost function After(d: Dir, pos: nat): (next: nat)
    requires DirOk(d) && SpotAt(d, pos).On?
    ensures pos + HEADER <= next && OffOf(d, pos) + (next - pos) <= d.bs
  {
    pos + LenAt(BlockOf(d, pos), OffOf(d, pos))
  }

  ghost predicate LiveAt(d: Dir, pos: nat)
    requires DirOk(d) && SpotAt(d, pos).On?
  {
    InodeAt(BlockOf(d, pos), OffOf(d, pos)) != 0
  }

  ghost function EntryAt(d: Dir, pos: nat): Entry
    requires DirOk(d) && SpotAt(d, pos).On?
  {
    Entry(NameAt(BlockOf(d, pos), OffOf(d, pos), d.wide), InodeAt(BlockOf(d, pos), OffOf(d, pos)))
  }

  /** The first live record from pos on, or how the search for it ends. */
  ghost function NextLive(d: Dir, pos: nat): Spot
    requires DirOk(d)
    decreases if pos < d.size then d.size - pos else 0
  {
    if SpotAt(d, pos).On? && !LiveAt(d, pos) then NextLive(d, After(d, pos)) else SpotAt(d, pos)
  }

  /** The positions of the live records from pos on, up to the end or the first bad one. */
  ghost function Walk(d: Dir, pos: nat): (w: seq<nat>)
    requires DirOk(d)
    ensures forall p :: p in w ==> pos <= p && SpotAt(d, p).On? && LiveAt(d, p)
    decreases if pos < d.size then d.size - pos else 0
  {
    if !SpotAt(d, pos).On? then []
    else (if LiveAt(d, pos) then [pos] else []) + Walk(d, After(d, pos))
  }

  ghost predicate ReachesEnd(d: Dir, pos: nat)
    requires DirOk(d)
    decreases if pos < d.size then d.size - pos else 0
  {
    SpotAt(d, pos).End? || (SpotAt(d, pos).On? && ReachesEnd(d, After(d, pos)))
  }

  lemma {:induction false} OnBelow(d: Dir, pos: nat)
    requires DirOk(d)
    ensures SpotAt(d, pos).On? ==> pos < d.size && SpotAt(d, pos) == On(pos)
  {}

  /** Whatever the bytes are, the records met follow each other without overlap, each within its block. */
  lemma {:induction false} WalkApart(d: Dir, pos: nat, i: nat, j: nat)
    requires DirOk(d) && i < j < |Walk(d, pos)|
    ensures SpotAt(d, Walk(d, pos)[i]).On? && After(d, Walk(d, pos)[i]) <= Walk(d, pos)[j]
    decreases if pos < d.size then d.size - pos else 0
  {
    hide OffOf, LiveAt, SpotAt;
    OnBelow(d, pos);
    var w, r := Walk(d, pos), Walk(d, After(d, pos));
    if LiveAt(d, pos) {
      assert w == [pos] + r && w[j] in r;
      if i > 0 { WalkApart(d, After(d, pos), i - 1, j - 1); }
    } else {
      assert w == r;
      WalkApart(d, After(d, pos), i, j);
    }
  }

  /** From pos the first live record is at p. */
  ghost predicate Leads(d: Dir, pos: nat, p: nat)
    requires DirOk(d)
  {
    && pos <= p < d.size && SpotAt(d, p).On? && LiveAt(d, p)
    && Walk(d, pos) == [p] + Walk(d, After(d, p)) && (ReachesEnd(d, pos) <==> ReachesEnd(d, After(d, p)))
  }

  /** The walk continues from the first live record. */
  lemma {:induction false} WalkNext(d: Dir, pos: nat)
    requires DirOk(d)
    ensures NextLive(d, pos).On? ==> Leads(d, pos, NextLive(d, pos).pos)
    ensures !NextLive(d, pos).On? ==> Walk(d, pos) == [] && (ReachesEnd(d, pos) <==> NextLive(d, pos).End?)
    decreases if pos < d.size then d.size - pos else 0
  {
    hide OffOf, LiveAt;
    if SpotAt(d, pos).On? && !LiveAt(d, pos) { WalkNext(d, After(d, pos)); }
  }

  // ----- the iterator

  class DirIter {
    const d: Dir
    /** The loaded block, the current position and the current record's offset in the loaded block. */
    var blk: Option<nat>
    var currOff: nat
    var curr: Option<nat>

    ghost predicate Valid()
      reads this
    {
      && DirOk(d)
      && (blk.Some? ==> blk.value == Quot(currOff, d.bs) && blk.value < |d.blocks|)
      && (curr.Some? ==> blk.Some? && curr.value == OffOf(d, currOff) && SpotAt(d, currOff) == On(currOff))
    }

    /** ext4_dir_iterator_init. */
    constructor (d: Dir)
      requires DirOk(d)
      ensures Valid() && this.d == d && currOff == 0 && curr.None? && blk.None?
    {
      this.d, blk, currOff, curr := d, None, 0, None;
    }

    /** Where the iterator stands after a call that returned `ok`. */
    ghost function Spot(ok: bool): Spot
      reads this
    {
      if curr.Some? then On(currOff) else if ok then End else Bad
    }

    /** ext4_dir_iterator_set. */
    method Set() returns (ok: bool)
      requires DirOk(d) && currOff < d.size && blk == Some(Quot(currOff, d.bs))
      modifies this`curr
      ensures Valid() && Spot(ok) == SpotAt(d, currOff) && (curr.Some? ==> ok)
    {
      hide Quot;
      InBlock(d, currOff);
      curr := None;
      var s, off := d.blocks[blk.value], currOff % d.bs;
      if off % 4 != 0 { return false; }
      if off > d.bs - 8 { return false; }
      var length: int := LenAt(s, off);
      if off + length > d.bs { return false; }
      if NameLenAt(s, off, d.wide) > length - 8 { return false; }
      curr := Some(off);
      ok := true;
    }

    /** ext4_dir_iterator_seek: the block is loaded only when the position leaves the loaded one. */
    method Seek(pos: nat) returns (ok: bool)
      requires Valid()
      modifies this
      ensures Valid() && currOff == pos && Spot(ok) == SpotAt(d, pos) && (curr.Some? ==> ok)
    {
      hide Quot, RecordOk, OffOf, BlockOf;
      curr := None;
      if pos >= d.size {
        blk := None;
        currOff := pos;
        return true;
      }
      InBlock(d, pos);
      if blk.None? || Quot(currOff, d.bs) != Quot(pos, d.bs) {
        blk := Some(Quot(pos, d.bs));
      }
      currOff := pos;
      ok := Set();
    }

    /** ext4_dir_iterator_next: on to the next live record. */
    method Next() returns (ok: bool)
      requires Valid() && curr.Some?
      modifies this
      ensures Valid() && Spot(ok) == NextLive(d, old(After(d, currOff))) && (curr.Some? ==> ok)
    {
      hide Quot, RecordOk, OffOf, BlockOf;
      ghost var first := After(d, currOff);
      ok := true;
      while ok
        invariant Valid() && (curr.Some? ==> ok)
        invariant ok ==> curr.Some? && NextLive(d, first) == NextLive(d, After(d, currOff))
        invariant !ok ==> Spot(ok) == NextLive(d, first)
        decreases ok, if currOff < d.size then d.size - currOff else 0
      {
        var skip := CurrLen();
        ok := Seek(currOff + skip);
        if curr.None? { break; }
        var ino := CurrInode();
        if ino != 0 { break; }
      }
    }

    method CurrLen() returns (n: nat)
      requires Valid() && curr.Some?
      ensures currOff + n == After(d, currOff) && currOff < d.size
    {
      OnBelow(d, currOff);
      n := LenAt(d.blocks[blk.value], curr.value);
    }

    method CurrInode() returns (n: nat)
      requires Valid() && curr.Some?
      ensures n != 0 <==> LiveAt(d, currOff)
      ensures n == EntryAt(d, currOff).inode
    {
      OnBelow(d, currOff);
      n := InodeAt(d.blocks[blk.value], curr.value);
    }

    method CurrName() returns (n: Name)
      requires Valid() && curr.Some?
      ensures n == EntryAt(d, currOff).name
    {
      OnBelow(d, currOff);
      n := NameAt(d.blocks[blk.value], curr.value, d.wide);
    }
  }

  // ----- ext4_has_children

  /** Some live entry met from pos on has a name other than the dots. */
  ghost predicate MeetsChild(d: Dir, w: seq<nat>)
    requires DirOk(d) && forall p :: p in w ==> SpotAt(d, p).On?
  {
    exists p :: p in w && !IsDots(EntryAt(d, p).name)
  }

  /** From a record, a child is the record itself or is met behind it. */
  lemma {:induction false} MeetsHere(d: Dir, pos: nat)
    requires DirOk(d) && SpotAt(d, pos).On?
    ensures MeetsChild(d, Walk(d, pos)) <==> (LiveAt(d, pos) && !IsDots(EntryAt(d, pos).name)) || MeetsChild(d, Walk(d, After(d, pos)))
    ensures ReachesEnd(d, pos) <==> ReachesEnd(d, After(d, pos))
  {
    hide SpotAt, OffOf, BlockOf, EntryAt, LiveAt, After;
    var r := Walk(d, After(d, pos));
    if LiveAt(d, pos) {
      assert Walk(d, pos) == [pos] + r;
      if p :| p in r && !IsDots(EntryAt(d, p).name) { assert p in Walk(d, pos); }
      assert pos in Walk(d, pos);
    } else {
      assert Walk(d, pos) == r;
    }
  }

  /** Skipping dead records changes nothing. */
  lemma {:induction false} MeetsNext(d: Dir, pos: nat)
    requires DirOk(d)
    ensures NextLive(d, pos).On? ==> var p := NextLive(d, pos).pos;
      && pos <= p < d.size && SpotAt(d, p).On? && LiveAt(d, p)
      && (MeetsChild(d, Walk(d, pos)) <==> MeetsChild(d, Walk(d, p))) && (ReachesEnd(d, pos) <==> ReachesEnd(d, p))
    ensures !NextLive(d, pos).On? ==> !MeetsChild(d, Walk(d, pos)) && (ReachesEnd(d, pos) <==> NextLive(d, pos).End?)
    decreases if pos < d.size then d.size - pos else 0
  {
    hide SpotAt, OffOf, BlockOf, EntryAt, LiveAt, After, MeetsChild;
    OnBelow(d, pos);
    if SpotAt(d, pos).On? && !LiveAt(d, pos) {
      MeetsHere(d, pos);
      MeetsNext(d, After(d, pos));
    } else if !SpotAt(d, pos).On? {
      assert Walk(d, pos) == [];
      MeetsNone(d);
    }
  }

  lemma {:induction false} MeetsNone(d: Dir)
    requires DirOk(d)
    ensures !MeetsChild(d, [])
  {}

  /** For an inode that is a directory or not: true with the first live entry other than the dots, an
      error when a bad record comes first. */
  method HasChildren(isDir: bool, d: Dir) returns (ok: bool, has: bool)
    requires DirOk(d)
    ensures ok && has <==> isDir && MeetsChild(d, Walk(d, 0))
    ensures !ok <==> isDir && !MeetsChild(d, Walk(d, 0)) && !ReachesEnd(d, 0)
  {
    hide SpotAt, OffOf, BlockOf, EntryAt, LiveAt, Walk, NextLive, ReachesEnd, MeetsChild;
    if !isDir { return true, false; }
    var it := new DirIter(d);
    ok := it.Seek(0);
    has := false;
    MeetsFirst(d);
    while it.curr.Some?
      invariant it.Valid() && it.d == d && fresh(it)
      invariant it.curr.Some? ==> ok && SpotAt(d, it.currOff).On? && it.currOff < d.size
      invariant it.curr.Some? ==> (MeetsChild(d, Walk(d, 0)) <==> MeetsChild(d, Walk(d, it.currOff)))
      invariant it.curr.Some? ==> (ReachesEnd(d, 0) <==> ReachesEnd(d, it.currOff))
      invariant it.curr.None? ==> !MeetsChild(d, Walk(d, 0)) && (ok <==> ReachesEnd(d, 0))
      decreases it.curr.Some?, if it.currOff < d.size then d.size - it.currOff else 0
    {
      ghost var pos := it.currOff;
      MeetsHere(d, pos);
      var ino := it.CurrInode();
      if ino != 0 {
        var name := it.CurrName();
        if !IsDots(name) { return true, true; }
      }
      MeetsNext(d, After(d, pos));
      ok := it.Next();
    }
  }

  lemma {:induction false} MeetsFirst(d: Dir)
    requires DirOk(d)
    ensures SpotAt(d, 0).On? ==> 0 < d.size
    ensures !SpotAt(d, 0).On? ==> !MeetsChild(d, Walk(d, 0)) && (SpotAt(d, 0).End? <==> ReachesEnd(d, 0))
  {
    hide OffOf, BlockOf, EntryAt, LiveAt;
    if !SpotAt(d, 0).On? { assert Walk(d, 0) == []; }
  }

  // ----- directories whose blocks hold records

  /** The block's bytes hold these records, which tile it. */
  ghost predicate Holds(s: seq<byte>, recs: seq<Rec>, wide: bool) {
    Tiled(recs, |s|) && forall i :: 0 <= i < |recs| ==> HeldAt(s, recs, i, wide)
  }

  /** Record i, byte by byte: the inode in four bytes and the length in two, the lowest first, the name's length
      in one byte or two, and the name. */
  ghost predicate HeldAt(s: seq<byte>, recs: seq<Rec>, i: nat, wide: bool)
    requires i < |recs|
  {
    BytesOf(s, SumLen(recs[..i]), recs[i], wide)
  }

  ghost predicate BytesOf(s: seq<byte>, o: nat, r: Rec, wide: bool) {
    && o + 8 + |r.name| <= |s| && r.inode < 0x1_0000_0000 && r.len < 0x1_0000
    && s[o] as int == r.inode % 256 && s[o + 1] as int == r.inode / 256 % 256
    && s[o + 2] as int == r.inode / 0x1_0000 % 256 && s[o + 3] as int == r.inode / 0x100_0000
    && s[o + 4] as int == r.len % 256 && s[o + 5] as int == r.len / 256
    && s[o + 6] as int == |r.name| % 256 && (wide ==> s[o + 7] as int == |r.name| / 256)
    && forall k :: 0 <= k < |r.name| ==> s[o + 8 + k] == r.name[k]
  }

  /** What the reading functions make of such bytes. */
  lemma {:induction false} ReadBytes(s: seq<byte>, o: nat, r: Rec, wide: bool)
    requires BytesOf(s, o, r, wide) && RecOk(r)
    ensures o + HEADER <= |s| && InodeAt(s, o) == r.inode && LenAt(s, o) == r.len && NameLenAt(s, o, wide) == |r.name|
    ensures o + HEADER + |r.name| <= |s| && s[o + HEADER..o + HEADER + |r.name|] == r.name
  {
    FourBytes(r.inode, s[o] as int, s[o + 1] as int, s[o + 2] as int, s[o + 3] as int);
    ReadLengths(s, o, r, wide);
    ReadName(s, o, r);
  }

  lemma {:induction false} FourBytes(n: nat, a: nat, b: nat, c: nat, d: nat)
    requires a == n % 256 && b == n / 256 % 256 && c == n / 0x1_0000 % 256 && d == n / 0x100_0000
    ensures n == a + 0x100 * b + 0x1_0000 * c + 0x100_0000 * d
  {
    assert n / 256 / 256 == n / 0x1_0000 && n / 256 / 256 / 256 == n / 0x100_0000;
  }

  lemma {:induction false} ReadLengths(s: seq<byte>, o: nat, r: Rec, wide: bool)
    requires BytesOf(s, o, r, wide) && RecOk(r)
    ensures LenAt(s, o) == r.len && NameLenAt(s, o, wide) == |r.name|
  {
    hide InodeAt;
    assert r.len == r.len % 256 + 0x100 * (r.len / 256) && |r.name| / 256 == 0;
  }

  lemma {:induction false} ReadName(s: seq<byte>, o: nat, r: Rec)
    requires o + 8 + |r.name| <= |s| && forall k :: 0 <= k < |r.name| ==> s[o + 8 + k] == r.name[k]
    ensures s[o + HEADER..o + HEADER + |r.name|] == r.name
  {
    forall k | 0 <= k < |r.name| ensures s[o + HEADER..o + HEADER + |r.name|][k] == r.name[k] {
      assert s[o + 8 + k] == r.name[k];
    }
  }

  /** A well formed directory: whole blocks of tiling records. */
  ghost predicate WellFormed(d: Dir, rs: seq<seq<Rec>>) {
    && DirOk(d) && d.size == |d.blocks| * d.bs && |rs| == |d.blocks| && d.bs % 4 == 0
    && forall b :: 0 <= b < |rs| ==> Holds(d.blocks[b], rs[b], d.wide)
  }

  /** A live record with a name other than the dots, in block b from record i on or in a later block. */
  ghost predicate ChildIn(rs: seq<seq<Rec>>, b: nat, i: nat, c: int, k: int) {
    && 0 <= c < |rs| && 0 <= k < |rs[c]| && (c > b || (c == b && k >= i))
    && rs[c][k].inode != 0 && !IsDots(rs[c][k].name)
  }

  lemma {:induction false} PrefixSum(recs: seq<Rec>, i: nat)
    requires i < |recs| && forall k :: 0 <= k < |recs| ==> RecOk(recs[k])
    ensures SumLen(recs[..i + 1]) == SumLen(recs[..i]) + recs[i].len
    ensures SumLen(recs[..i + 1]) <= SumLen(recs) && SumLen(recs[..i]) % 4 == 0
  {
    hide SumLen, Live, LiveSize;
    PrefixStep(recs, i);
    if i > 0 {
      PrefixSum(recs, i - 1);
      assert RecOk(recs[i - 1]);
    } else {
      assert recs[..0] == [];
      Nil();
    }
  }

  /** The record number i of block b is met at its place. */
  lemma {:induction false} MeetsRecord(d: Dir, rs: seq<seq<Rec>>, b: nat, i: nat)
    requires WellFormed(d, rs) && b < |rs| && i < |rs[b]|
    ensures var pos := b * d.bs + SumLen(rs[b][..i]);
      && DirOk(d) && SpotAt(d, pos).On? && After(d, pos) == b * d.bs + SumLen(rs[b][..i + 1])
      && (LiveAt(d, pos) <==> rs[b][i].inode != 0) && EntryAt(d, pos) == Entry(rs[b][i].name, rs[b][i].inode)
  {
    hide Quot, Rem, SumLen, InodeAt, LenAt, NameLenAt, NameAt, RecordOk, SpotAt, After, LiveAt, EntryAt, Holds, Tiled;
    var s := d.blocks[b];
    var o := SumLen(rs[b][..i]);
    HeldOk(s, rs[b], i, d.wide);
    MulMore(b, |rs|, d.bs);
    SpotIn(d, b, o);
  }

  /** The record at offset o of block b. */
  lemma {:induction false} SpotIn(d: Dir, b: nat, o: nat)
    requires DirOk(d) && b < |d.blocks| && o < d.bs && b * d.bs + o < d.size && RecordOk(d.blocks[b], o, d.wide)
    ensures var s, pos := d.blocks[b], b * d.bs + o;
      && SpotAt(d, pos) == On(pos) && After(d, pos) == pos + LenAt(s, o)
      && (LiveAt(d, pos) <==> InodeAt(s, o) != 0) && EntryAt(d, pos) == Entry(NameAt(s, o, d.wide), InodeAt(s, o))
  {
    hide Quot, Rem, InodeAt, LenAt, NameLenAt, NameAt, RecordOk;
    DivMod(b, d.bs, o);
    assert BlockOf(d, b * d.bs + o) == d.blocks[b] && OffOf(d, b * d.bs + o) == o;
  }

  lemma {:induction false} HeldOk(s: seq<byte>, recs: seq<Rec>, i: nat, wide: bool)
    requires Holds(s, recs, wide) && i < |recs|
    ensures var o := SumLen(recs[..i]);
      && o < |s| && RecordOk(s, o, wide) && o + LenAt(s, o) == SumLen(recs[..i + 1])
      && (InodeAt(s, o) == recs[i].inode) && NameAt(s, o, wide) == recs[i].name
  {
    hide SumLen, InodeAt, LenAt, NameLenAt, BytesOf;
    assert HeldAt(s, recs, i, wide) && RecOk(recs[i]);
    ReadBytes(s, SumLen(recs[..i]), recs[i], wide);
    PrefixSum(recs, i);
  }

  /** From the record number i of block b on, the walk reaches the end and meets a child exactly when a
      record from there on is one. */
  lemma {:induction false} WalkFrom(d: Dir, rs: seq<seq<Rec>>, b: nat, i: nat)
    requires WellFormed(d, rs) && b < |rs| && i <= |rs[b]|
    ensures var pos := b * d.bs + SumLen(rs[b][..i]);
      ReachesEnd(d, pos) && (MeetsChild(d, Walk(d, pos)) <==> exists c, k :: ChildIn(rs, b, i, c, k))
    decreases |rs| - b, 1 + |rs[b]| - i
  {
    hide Quot, Rem, SumLen, SpotAt, BlockOf, OffOf, EntryAt, LiveAt, Walk, MeetsChild, ReachesEnd, WellFormed, DirOk;
    var pos := b * d.bs + SumLen(rs[b][..i]);
    if i < |rs[b]| {
      MeetsRecord(d, rs, b, i);
      MeetsHere(d, pos);
      var n := i + 1;
      WalkFrom(d, rs, b, n);
      if c, k :| ChildIn(rs, b, i, c, k) && !(c == b && k == i) { assert ChildIn(rs, b, n, c, k); }
      if c, k :| ChildIn(rs, b, n, c, k) { assert ChildIn(rs, b, i, c, k); }
      if rs[b][i].inode != 0 && !IsDots(rs[b][i].name) { assert ChildIn(rs, b, i, b, i); }
    } else {
      WalkOn(d, rs, b);
    }
  }

  lemma {:induction false} WalkOn(d: Dir, rs: seq<seq<Rec>>, b: nat)
    requires WellFormed(d, rs) && b < |rs|
    ensures var pos := b * d.bs + SumLen(rs[b][..|rs[b]|]);
      ReachesEnd(d, pos) && (MeetsChild(d, Walk(d, pos)) <==> exists c, k :: ChildIn(rs, b, |rs[b]|, c, k))
    decreases |rs| - b, 0
  {
    hide Quot, Rem, SumLen, SpotAt, BlockOf, OffOf, EntryAt, LiveAt, Walk, MeetsChild, ReachesEnd, Tiled;
    BlockEnds(d, rs, b);
    var next, last := b + 1, |rs[b]|;
    var pos := b * d.bs + SumLen(rs[b][..|rs[b]|]);
    assert pos == next * d.bs;
    if next == |rs| {
      AtTheEnd(d, pos);
    } else {
      BlockStarts(d, rs, next);
      WalkFrom(d, rs, next, 0);
      if c, k :| ChildIn(rs, b, last, c, k) { assert ChildIn(rs, next, 0, c, k); }
      if c, k :| ChildIn(rs, next, 0, c, k) { assert ChildIn(rs, b, last, c, k); }
    }
  }

  lemma {:induction false} BlockEnds(d: Dir, rs: seq<seq<Rec>>, b: nat)
    requires WellFormed(d, rs) && b < |rs|
    ensures SumLen(rs[b][..|rs[b]|]) == d.bs
  {
    hide SumLen;
    assert Holds(d.blocks[b], rs[b], d.wide);
    assert rs[b][..|rs[b]|] == rs[b];
  }

  lemma {:induction false} BlockStarts(d: Dir, rs: seq<seq<Rec>>, b: nat)
    requires WellFormed(d, rs) && b < |rs|
    ensures b * d.bs + SumLen(rs[b][..0]) == b * d.bs
  {
    hide SumLen, Holds;
    assert rs[b][..0] == [];
    Nil();
  }

  lemma {:induction false} AtTheEnd(d: Dir, pos: nat)
    requires DirOk(d) && pos >= d.size
    ensures ReachesEnd(d, pos) && !MeetsChild(d, Walk(d, pos))
  {}

  /** On a well formed directory ext4_has_children answers whether some live record has a name other
      than the dots. */
  lemma {:induction false} ChildrenOfRecords(d: Dir, rs: seq<seq<Rec>>)
    requires WellFormed(d, rs)
    ensures ReachesEnd(d, 0) && (MeetsChild(d, Walk(d, 0)) <==> exists c, k :: ChildIn(rs, 0, 0, c, k))
  {
    hide SumLen, SpotAt, BlockOf, OffOf, EntryAt, LiveAt, Walk, MeetsChild, ReachesEnd, Holds;
    if |rs| == 0 {
      AtTheEnd(d, 0);
    } else {
      BlockStarts(d, rs, 0);
      WalkFrom(d, rs, 0, 0);
    }
  }

  // ----- an empty directory

  /** The one block of an empty directory: "." with a length of 12, ".." with the rest of the block. */
  function EmptyBlock(bs: nat, self: byte, parent: byte): (s: seq<byte>)
    requires 24 <= bs < 0x1_0000
    ensures |s| == bs
  {
    [self, 0, 0, 0, 12, 0, 1, 2, 46, 0, 0, 0, parent, 0, 0, 0, ((bs - 12) % 256) as byte, ((bs - 12) / 256) as byte, 2, 2, 46, 46, 0, 0]
    + seq(bs - 24, _ => 0)
  }

  lemma {:induction false} EmptyHolds(bs: nat, self: byte, parent: byte)
    requires 24 <= bs < 0x1_0000 && bs % 4 == 0 && self != 0 && parent != 0
    ensures Holds(EmptyBlock(bs, self, parent), [Rec(self as nat, 12, [46], 2), Rec(parent as nat, bs - 12, [46, 46], 2)], false)
  {
    hide Live, LiveSize, BytesOf, EmptyBlock;
    var a, b := Rec(self as nat, 12, [46], 2), Rec(parent as nat, bs - 12, [46, 46], 2);
    Two(a, b);
    One(a);
    assert [a, b][..0] == [] && [a, b][..1] == [a];
    DotBytes(bs, self, parent);
    DotDotBytes(bs, self, parent);
  }

  lemma {:induction false} DotBytes(bs: nat, self: byte, parent: byte)
    requires 24 <= bs < 0x1_0000
    ensures BytesOf(EmptyBlock(bs, self, parent), 0, Rec(self as nat, 12, [46], 2), false)
  {}

  lemma {:induction false} DotDotBytes(bs: nat, self: byte, parent: byte)
    requires 24 <= bs < 0x1_0000
    ensures BytesOf(EmptyBlock(bs, self, parent), 12, Rec(parent as nat, bs - 12, [46, 46], 2), false)
  {}

  /** For every block size: an empty directory is read without an error and has no children. */
  method EmptyRun(bs: nat, self: byte, parent: byte) returns (ok: bool, has: bool)
    requires 24 <= bs < 0x1_0000 && bs % 4 == 0 && self != 0 && parent != 0
    ensures ok && !has
  {
    hide Walk, ReachesEnd, MeetsChild, Holds, EmptyBlock;
    var d := Dir([EmptyBlock(bs, self, parent)], bs, bs, false);
    ghost var rs := [[Rec(self as nat, 12, [46], 2), Rec(parent as nat, bs - 12, [46, 46], 2)]];
    EmptyHolds(bs, self, parent);
    ChildrenOfRecords(d, rs);
    ok, has := HasChildren(true, d);
  }
}
