/** Reading and writing files in runs of physically contiguous blocks. */
module FileIo {
  import opened Arith
  import opened ByteIo
  import opened FileSpec

  datatype Errno = EOK | EPERM | EROFS

  /** An open file with its inode: the block map, the inode's size, and the size and position the
      open file holds. `supply` are the blocks that the allocator will hand out next. */
  class File {
    const dev: Device
    const writeOnly: bool
    const readOnly: bool
    /** The file system is mounted read-only. */
    const rofs: bool
    var blocks: seq<nat>
    var inodeSize: nat
    var fsize: nat
    var fpos: nat
    var supply: seq<nat>

    constructor (dev: Device, blocks: seq<nat>, inodeSize: nat, fpos: nat, supply: seq<nat>, writeOnly: bool, readOnly: bool, rofs: bool)
      ensures this.dev == dev && this.blocks == blocks && this.inodeSize == inodeSize && this.fpos == fpos && this.supply == supply
      ensures this.writeOnly == writeOnly && this.readOnly == readOnly && this.rofs == rofs
    {
      this.dev, this.blocks, this.inodeSize, this.fpos, this.supply := dev, blocks, inodeSize, fpos, supply;
      this.writeOnly, this.readOnly, this.rofs := writeOnly, readOnly, rofs;
      fsize := inodeSize;
    }

    ghost function L(): Layout
      reads this`blocks
    {
      Layout(dev.partOffset, dev.lg, blocks)
    }

    /** Every block up to the size is there, and none behind it; the allocator's next blocks are
        no blocks of the file. */
    ghost predicate Valid()
      reads this
    {
      && dev.Valid() && LayoutOk(L(), dev.partSize) && |blocks| == Quot(inodeSize + dev.lg - 1, dev.lg)
      && LayoutOk(Layout(dev.partOffset, dev.lg, blocks + supply), dev.partSize)
    }

    /** The file's bytes. */
    ghost function Bytes(): seq<bv8>
      requires Valid()
      reads this, dev.media
    {
      Content(dev.media[..], L(), inodeSize)
    }

    // ----- reading

    /** The inner loop of ext4_fread: blocks from iblock on join the run while they are contiguous;
        a block that does not join starts the next run. */
    method Gather(iblock: nat, last: nat, start: nat, count: nat, ghost k: nat)
      returns (iblock': nat, start': nat, count': nat, fblock: nat)
      requires Valid() && iblock <= last <= |blocks| && k < last && k + count == iblock && count <= 1
      requires if count == 0 then start == 0 else start == blocks[k]
      ensures 0 < count' && Run(L(), k, start', count') && k + count' <= last
      ensures (iblock' == last == k + count') || (iblock' == k + count' + 1 <= last && fblock == blocks[k + count'] != start' + count')
    {
      iblock', start', count', fblock := iblock, start, count, start;
      while iblock' < last
        invariant iblock <= iblock' <= last && k + count' == iblock'
        invariant count' == 0 ==> start' == 0
        invariant count' > 0 ==> Run(L(), k, start', count') && start' != 0
      {
        fblock := blocks[iblock'];
        iblock' := iblock' + 1;
        if start' == 0 {
          start' := fblock;
        }
        if start' + count' != fblock {
          return;
        }
        count' := count' + 1;
      }
    }

    /** A run inside the file lies inside the partition. */
    lemma {:induction false} RunInside(k: nat, start: nat, count: nat)
      requires Valid() && Run(L(), k, start, count) && count > 0
      ensures start * dev.lg + count * dev.lg <= dev.partSize
    {
      hide Quot, Rem;
      RunAt(L(), k, start, count, k + count - 1);
      assert (start + count - 1) * dev.lg + dev.lg == start * dev.lg + count * dev.lg;
    }

    /** Where whole blocks end: block numbers against byte positions. */
    lemma {:induction false} Whole(k: nat, total: nat, last: nat)
      requires dev.lg > 0 && last == Quot(total, dev.lg)
      ensures k <= last <==> k * dev.lg <= total
    {
      hide Quot, Rem;
      Split(total, dev.lg);
      if k <= last { MulBelow(k, last, dev.lg); } else { MulMore(last, k, dev.lg); }
    }

    lemma {:induction false} LastBlock(total: nat)
      requires Valid() && total <= inodeSize
      ensures Quot(total, dev.lg) <= |blocks|
      ensures Rem(total, dev.lg) > 0 ==> Quot(total, dev.lg) < |blocks|
    {
      hide Quot, Rem;
      var last := Quot(total, dev.lg);
      Split(total, dev.lg);
      Whole(if Rem(total, dev.lg) > 0 then last + 1 else last, inodeSize + dev.lg - 1, |blocks|);
      assert (last + 1) * dev.lg == last * dev.lg + dev.lg;
    }

    /** One run from the medium to the buffer. */
    method ReadRun(buf: array<bv8>, p: nat, start: nat, count: nat, ghost k: nat)
      requires Valid() && Run(L(), k, start, count) && count > 0 && p + count * dev.lg <= buf.Length && buf != dev.media
      requires k * dev.lg + count * dev.lg <= inodeSize
      modifies buf
      ensures Overwritten(old(buf[..]), buf[..], p, Bytes()[k * dev.lg..k * dev.lg + count * dev.lg])
    {
      hide Quot, Rem, Overwritten, LayoutOk, Content;
      RunInside(k, start, count);
      ghost var n, a := count * dev.lg, dev.partOffset + start * dev.lg;
      RunBytes(dev.media[..], L(), k, start, count, 0, n, inodeSize);
      assert dev.media[..][a..a + n] == dev.media[a..a + n];
      dev.GetDirect(buf, p, start, count);
    }

    /** The outer loop of ext4_fread: runs of whole blocks. */
    method ReadRuns(buf: array<bv8>, pos: nat, p: nat, left: nat, iblock: nat, last: nat) returns (p': nat, left': nat, iblock': nat)
      requires Valid() && p + left <= buf.Length && buf != dev.media && iblock * dev.lg == pos && pos + left <= inodeSize
      requires last == Quot(pos + left, dev.lg)
      modifies buf
      ensures left' < dev.lg && p' + left' == p + left && iblock' * dev.lg == pos + (p' - p) && p <= p'
      ensures Overwritten(old(buf[..]), buf[..], p, Bytes()[pos..pos + (p' - p)])
    {
      hide Quot, Rem, Overwritten, LayoutOk, Content, Run;
      ghost var d0, c, total := buf[..], Bytes(), pos + left;
      LastBlock(total);
      OverwriteNothing(d0, p);
      assert c[pos..pos] == [];
      p', left', iblock' := p, left, iblock;
      var start, count, fblock := 0, 0, 0;
      ghost var k := iblock;
      NextWhole(k, total, last);
      while left' >= dev.lg
        invariant p' + left' == p + left && p <= p' && k * dev.lg == pos + (p' - p)
        invariant left' >= dev.lg ==> k < last && k + count == iblock' <= last && count <= 1
        invariant left' >= dev.lg ==> if count == 0 then start == 0 else start == blocks[k]
        invariant left' < dev.lg ==> iblock' == k
        invariant Overwritten(d0, buf[..], p, c[pos..pos + (p' - p)])
        decreases left'
      {
        iblock', start, count, fblock := Gather(iblock', last, start, count, k);
        ghost var d1, f1 := buf[..], pos + (p' - p);
        var n := count * dev.lg;
        RunEnds(k, count, total, last);
        ReadRun(buf, p', start, count, k);
        FilledMore(d0, d1, buf[..], p, c, pos, f1, f1 + n);
        left' := left' - n;
        p' := p' + n;
        k := k + count;
        start := fblock;
        count := 1;
      }
    }

    /** Whether a whole block is left behind block k. */
    lemma {:induction false} NextWhole(k: nat, total: nat, last: nat)
      requires dev.lg > 0 && last == Quot(total, dev.lg) && k * dev.lg <= total
      ensures k <= last && (k < last <==> total - k * dev.lg >= dev.lg)
    {
      hide Quot, Rem;
      Whole(k, total, last);
      Whole(k + 1, total, last);
      assert (k + 1) * dev.lg == k * dev.lg + dev.lg;
    }

    lemma {:induction false} RunEnds(k: nat, count: nat, total: nat, last: nat)
      requires dev.lg > 0 && last == Quot(total, dev.lg) && count > 0 && k + count <= last
      ensures (k + count) * dev.lg == k * dev.lg + count * dev.lg <= total && count * dev.lg > 0
      ensures k + count < last <==> total - (k * dev.lg + count * dev.lg) >= dev.lg
    {
      hide Quot, Rem;
      Whole(k + count, total, last);
      assert (k + count) * dev.lg == k * dev.lg + count * dev.lg;
      NextWhole(k + count, total, last);
      Positive(count, dev.lg);
    }

    lemma {:induction false} BlockRun(k: nat)
      requires Valid() && k < |blocks|
      ensures Run(L(), k, blocks[k], 1) && blocks[k] * dev.lg + dev.lg <= dev.partSize && blocks[k] != 0
    {}

    /** Part of one block of the file. */
    method ReadPart(buf: array<bv8>, p: nat, k: nat, at: nat, len: nat)
      requires Valid() && k < |blocks| && at + len <= dev.lg && k * dev.lg + at + len <= inodeSize
      requires p + len <= buf.Length && buf != dev.media && buf != dev.bbuf
      modifies buf, dev.bbuf
      ensures Overwritten(old(buf[..]), buf[..], p, Bytes()[k * dev.lg + at..k * dev.lg + at + len])
    {
      hide Quot, Rem, Overwritten, LayoutOk, Content, Run;
      BlockRun(k);
      var fblock := blocks[k];
      ghost var a := dev.partOffset + fblock * dev.lg + at;
      RunBytes(dev.media[..], L(), k, fblock, 1, at, len, inodeSize);
      assert dev.media[..][a..a + len] == dev.media[a..a + len];
      var ok := dev.ReadBytes(fblock * dev.lg + at, buf, p, len);
    }

    /** The unaligned head: up to the end of the block that holds the position. */
    method ReadHead(buf: array<bv8>, pos: nat, n: nat) returns (p: nat, iblock: nat)
      requires Valid() && pos + n <= inodeSize && n <= buf.Length && buf != dev.media && buf != dev.bbuf
      modifies buf, dev.bbuf
      ensures p <= n && (p < n ==> iblock * dev.lg == pos + p)
      ensures Overwritten(old(buf[..]), buf[..], 0, Bytes()[pos..pos + p])
    {
      hide Quot, Rem, Overwritten, LayoutOk, Content;
      var unalg := Rem(pos, dev.lg);
      iblock, p := Quot(pos, dev.lg), 0;
      Split(pos, dev.lg);
      LastBlock(pos);
      if unalg != 0 {
        p := dev.Min(n, dev.lg - unalg);
        ReadPart(buf, 0, iblock, unalg, p);
        iblock := iblock + 1;
        assert iblock * dev.lg == (iblock - 1) * dev.lg + dev.lg;
      } else {
        OverwriteNothing(buf[..], 0);
        assert Bytes()[pos..pos] == [];
      }
    }

    /** The runs of whole blocks and the tail, from a block boundary on. */
    method ReadRest(buf: array<bv8>, pos: nat, p: nat, left: nat, iblock: nat)
      requires Valid() && pos + left <= inodeSize && p + left <= buf.Length && buf != dev.media && buf != dev.bbuf
      requires iblock * dev.lg == pos
      modifies buf, dev.bbuf
      ensures Overwritten(old(buf[..]), buf[..], p, Bytes()[pos..pos + left])
    {
      hide Quot, Rem, Overwritten, LayoutOk, Content;
      ghost var d0, c := buf[..], Bytes();
      var p', left', iblock' := ReadRuns(buf, pos, p, left, iblock, Quot(pos + left, dev.lg));
      if left' > 0 {
        ghost var d1 := buf[..];
        TailBlock(iblock', left');
        ReadPart(buf, p', iblock', 0, left');
        FilledMore(d0, d1, buf[..], p, c, pos, pos + (p' - p), pos + left);
      }
    }

    /** ext4_fread on a file without holes: the bytes from the position on, as many as asked for
        and there are; the position advances by the returned count. */
    method Fread(buf: array<bv8>, size: nat, rcnt0: nat) returns (r: Errno, rcnt: nat)
      requires Valid() && fpos <= inodeSize && size <= buf.Length && buf != dev.media && buf != dev.bbuf && size < 0x1_0000_0000
      requires inodeSize < 0x1_0000_0000 * dev.lg
      modifies this`fpos, this`fsize, buf, dev.bbuf
      ensures Valid() && r == if writeOnly then EPERM else EOK
      ensures writeOnly || size == 0 ==> rcnt == rcnt0 && fpos == old(fpos) && fsize == old(fsize) && buf[..] == old(buf[..])
      ensures !writeOnly && size > 0 ==>
                && rcnt == dev.Min(size, inodeSize - old(fpos)) && fpos == old(fpos) + rcnt <= inodeSize && fsize == inodeSize
                && Overwritten(old(buf[..]), buf[..], 0, Bytes()[old(fpos)..fpos])
    {
      hide Quot, Rem, Overwritten, LayoutOk, Content;
      if writeOnly {
        return EPERM, rcnt0;
      }
      if size == 0 {
        return EOK, rcnt0;
      }
      ghost var d0, c, f0 := buf[..], Bytes(), fpos;
      fsize := inodeSize;
      var n := dev.Min(size, fsize - fpos);
      var p, iblock := ReadHead(buf, fpos, n);
      if p < n {
        ghost var d1 := buf[..];
        ReadRest(buf, fpos + p, p, n - p, iblock);
        FilledMore(d0, d1, buf[..], 0, c, f0, f0 + p, f0 + n);
      }
      fpos := fpos + n;
      return EOK, n;
    }

    lemma {:induction false} TailBlock(k: nat, left: nat)
      requires Valid() && 0 < left && k * dev.lg + left <= inodeSize
      ensures k < |blocks|
    {
      hide Quot, Rem;
      Split(k * dev.lg + left, dev.lg);
      LastBlock(k * dev.lg + left);
      Whole(k, k * dev.lg + left, Quot(k * dev.lg + left, dev.lg));
      if Quot(k * dev.lg + left, dev.lg) == k { assert Rem(k * dev.lg + left, dev.lg) == left; }
    }

    // ----- writing

    lemma {:induction false} OneMore(size: nat)
      requires dev.lg > 0
      ensures Quot(size + dev.lg + dev.lg - 1, dev.lg) == Quot(size + dev.lg - 1, dev.lg) + 1
    {
      hide Quot, Rem;
      var x := size + dev.lg - 1;
      Split(x, dev.lg);
      Split(x + dev.lg, dev.lg);
      assert (Quot(x, dev.lg) + 1) * dev.lg == Quot(x, dev.lg) * dev.lg + dev.lg;
      Unique(Quot(x + dev.lg, dev.lg), Rem(x + dev.lg, dev.lg), Quot(x, dev.lg) + 1, Rem(x, dev.lg), dev.lg);
    }

    /** ext4_fs_append_inode_dblk on a file with extents: the next block of the allocator becomes
        the file's next block, and the inode's size grows by a block. */
    method AppendBlock(ghost w: Job, ghost upto: nat) returns (fblk: nat, iblk: nat)
      requires Valid() && supply != [] && Written(w, dev.media[..], L(), upto) && upto <= |blocks| * dev.lg && |w.l0.blocks| <= |blocks|
      modifies this`blocks, this`inodeSize, this`supply
      ensures Valid() && iblk == |old(blocks)| && blocks == old(blocks) + [fblk] && supply == old(supply)[1..] && fblk == old(supply)[0]
      ensures Written(w, dev.media[..], L(), upto)
    {
      hide Quot, Rem, Written;
      iblk := Quot(inodeSize + dev.lg - 1, dev.lg);
      fblk := supply[0];
      OneMore(inodeSize);
      WrittenAppend(w, dev.media[..], L(), upto, fblk);
      assert blocks + supply == (blocks + [fblk]) + supply[1..];
      PrefixOk(Layout(dev.partOffset, dev.lg, blocks + supply), dev.partSize, |blocks| + 1);
      assert (blocks + supply)[..|blocks| + 1] == blocks + [fblk];
      blocks := blocks + [fblk];
      supply := supply[1..];
      inodeSize := inodeSize + dev.lg;
    }

    /** The block at iblk: the file's own, or an appended one. */
    method NextBlock(iblk: nat, fileBlocks: nat, ghost w: Job, ghost upto: nat) returns (fblk: nat)
      requires Valid() && fileBlocks <= |blocks| && (iblk < |blocks| ==> iblk < fileBlocks) && (iblk >= fileBlocks ==> iblk == |blocks| && supply != [])
      requires Written(w, dev.media[..], L(), upto) && upto <= |blocks| * dev.lg && |w.l0.blocks| <= |blocks|
      modifies this`blocks, this`inodeSize, this`supply
      ensures Valid() && iblk < |blocks| && fblk == blocks[iblk] && blocks + supply == old(blocks + supply)
      ensures |blocks| == if iblk < fileBlocks then |old(blocks)| else iblk + 1
      ensures |old(blocks)| <= |blocks| && blocks[..|old(blocks)|] == old(blocks)
      ensures iblk < fileBlocks ==> inodeSize == old(inodeSize)
      ensures Written(w, dev.media[..], L(), upto)
    {
      hide Quot, Rem, Written, LayoutOk;
      if iblk < fileBlocks {
        fblk := blocks[iblk];
      } else {
        var at;
        fblk, at := AppendBlock(w, upto);
      }
    }

    /** The inner loop of ext4_fwrite: like that of ext4_fread, but blocks behind the file's end are
        appended. */
    method GatherWrite(iblock: nat, last: nat, start: nat, count: nat, fileBlocks: nat, ghost k: nat, ghost w: Job)
      returns (iblock': nat, start': nat, count': nat, fblock: nat)
      requires Valid() && k < last && k + count == iblock <= last <= |blocks| + |supply| && count <= 1
      requires if count == 0 then start == 0 else k < |blocks| && start == blocks[k]
      requires Ahead(iblock, fileBlocks) && Written(w, dev.media[..], L(), k * dev.lg) && |w.l0.blocks| <= |blocks|
      modifies this`blocks, this`inodeSize, this`supply
      ensures Valid() && 0 < count' && Run(L(), k, start', count') && k + count' <= last && blocks + supply == old(blocks + supply)
      ensures (iblock' == last == k + count') || (iblock' == k + count' + 1 <= last && k + count' < |blocks| && fblock == blocks[k + count'] != start' + count')
      ensures Ahead(iblock', fileBlocks) && Written(w, dev.media[..], L(), k * dev.lg) && |old(blocks)| <= |blocks|
      ensures last <= fileBlocks ==> inodeSize == old(inodeSize)
    {
      hide Quot, Rem, Written, LayoutOk;
      iblock', start', count', fblock := iblock, start, count, start;
      if count > 0 { BlockRun(k); }
      while iblock' < last
        invariant Valid() && iblock <= iblock' <= last && k + count' == iblock' && blocks + supply == old(blocks + supply)
        invariant Ahead(iblock', fileBlocks) && Written(w, dev.media[..], L(), k * dev.lg) && |old(blocks)| <= |blocks|
        invariant count' == 0 ==> start' == 0
        invariant count' > 0 ==> Run(L(), k, start', count') && start' != 0
        invariant last <= fileBlocks ==> inodeSize == old(inodeSize)
      {
        MulBelow(k, |blocks|, dev.lg);
        ghost var was := blocks;
        fblock := NextBlock(iblock', fileBlocks, w, k * dev.lg);
        RunGrows(was, k, start', count');
        BlockRun(iblock');
        iblock' := iblock' + 1;
        if start' == 0 {
          start' := fblock;
        }
        if start' + count' != fblock {
          return;
        }
        count' := count' + 1;
      }
    }

    /** One run from the buffer to the medium. */
    method WriteRun(src: array<bv8>, p: nat, start: nat, count: nat, ghost k: nat, ghost w: Job)
      requires Valid() && Run(L(), k, start, count) && count > 0 && p + count * dev.lg <= src.Length && src != dev.media
      requires Written(w, dev.media[..], L(), k * dev.lg) && k * dev.lg + count * dev.lg <= w.f0 + |w.data|
      requires src[p..p + count * dev.lg] == w.data[k * dev.lg - w.f0..k * dev.lg - w.f0 + count * dev.lg]
      modifies dev.media
      ensures Written(w, dev.media[..], L(), k * dev.lg + count * dev.lg)
    {
      hide Quot, Rem, LayoutOk, Written, Overwritten;
      RunInside(k, start, count);
      ghost var m := dev.media[..];
      dev.SetDirect(src, p, start, count);
      assert dev.partOffset + start * dev.lg + 0 == dev.partOffset + start * dev.lg;
      WrittenMore(w, m, L(), k * dev.lg, dev.media[..], dev.partSize, k, start, count, 0, src[p..p + count * dev.lg]);
    }

    /** Part of one block of the file. */
    method WritePart(src: array<bv8>, p: nat, k: nat, at: nat, len: nat, ghost w: Job)
      requires Valid() && k < |blocks| && at + len <= dev.lg && p + len <= src.Length && src != dev.media && src != dev.bbuf
      requires Written(w, dev.media[..], L(), k * dev.lg + at) && k * dev.lg + at + len <= w.f0 + |w.data|
      requires w.f0 <= k * dev.lg + at && src[p..p + len] == w.data[k * dev.lg + at - w.f0..k * dev.lg + at - w.f0 + len]
      modifies dev.media, dev.bbuf
      ensures Written(w, dev.media[..], L(), k * dev.lg + at + len)
    {
      hide Quot, Rem, LayoutOk, Written, Overwritten;
      BlockRun(k);
      ghost var m := dev.media[..];
      var fblk := blocks[k];
      var ok := dev.WriteBytes(fblk * dev.lg + at, src, p, len);
      assert 1 * dev.lg == dev.lg;
      WrittenMore(w, m, L(), k * dev.lg + at, dev.media[..], dev.partSize, k, fblk, 1, at, src[p..p + len]);
    }

    /** The outer loop of ext4_fwrite: runs of whole blocks. */
    method WriteRuns(src: array<bv8>, pos: nat, p: nat, left: nat, iblock: nat, last: nat, fileBlocks: nat, ghost w: Job)
      returns (p': nat, left': nat, iblock': nat)
      requires Valid() && p + left <= src.Length && src != dev.media && iblock * dev.lg == pos == w.f0 + p
      requires w.data == src[..p + left] && last == Quot(pos + left, dev.lg) && last <= |blocks| + |supply|
      requires Ahead(iblock, fileBlocks) && Written(w, dev.media[..], L(), pos) && |w.l0.blocks| <= |blocks|
      modifies this`blocks, this`inodeSize, this`supply, dev.media
      ensures Valid() && left' < dev.lg && p' + left' == p + left && iblock' * dev.lg == pos + (p' - p) && p <= p'
      ensures Ahead(iblock', fileBlocks) && Written(w, dev.media[..], L(), pos + (p' - p)) && |old(blocks)| <= |blocks|
      ensures blocks + supply == old(blocks + supply) && (last <= fileBlocks ==> inodeSize == old(inodeSize))
    {
      hide Quot, Rem, LayoutOk, Written, Run, Ahead;
      ghost var total := pos + left;
      p', left', iblock' := p, left, iblock;
      var start, count, fblock := 0, 0, 0;
      ghost var k := iblock;
      NextWhole(k, total, last);
      while left' >= dev.lg
        invariant Valid() && p' + left' == p + left && p <= p' && k * dev.lg == pos + (p' - p) && |old(blocks)| <= |blocks|
        invariant left' >= dev.lg ==> k < last && k + count == iblock' <= last && count <= 1
        invariant left' >= dev.lg ==> if count == 0 then start == 0 else k < |blocks| && start == blocks[k]
        invariant left' < dev.lg ==> iblock' == k
        invariant Ahead(iblock', fileBlocks) && Written(w, dev.media[..], L(), k * dev.lg) && src[..p + left] == w.data
        invariant blocks + supply == old(blocks + supply) && (last <= fileBlocks ==> inodeSize == old(inodeSize))
        decreases left'
      {
        SameLength(blocks, supply, old(blocks), old(supply));
        iblock', start, count, fblock := GatherWrite(iblock', last, start, count, fileBlocks, k, w);
        var n := count * dev.lg;
        RunEnds(k, count, total, last);
        DataPiece(src, w, p + left, p', n);
        WriteRun(src, p', start, count, k, w);
        left' := left' - n;
        p' := p' + n;
        k := k + count;
        start := fblock;
        count := 1;
      }
    }

    /** The unaligned head. */
    method WriteHead(src: array<bv8>, pos: nat, n: nat, ghost w: Job) returns (p: nat, iblock: nat)
      requires Valid() && pos <= inodeSize && n <= src.Length && src != dev.media && src != dev.bbuf
      requires pos == w.f0 && w.data == src[..n] && Written(w, dev.media[..], L(), pos)
      modifies dev.media, dev.bbuf
      ensures p <= n && (p < n ==> iblock * dev.lg == pos + p && iblock <= |blocks|)
      ensures Written(w, dev.media[..], L(), pos + p) && (p == n ==> pos + n <= |blocks| * dev.lg)
    {
      hide Quot, Rem, LayoutOk, Written;
      var unalg := Rem(pos, dev.lg);
      iblock, p := Quot(pos, dev.lg), 0;
      Split(pos, dev.lg);
      LastBlock(pos);
      if unalg != 0 {
        p := dev.Min(n, dev.lg - unalg);
        DataPiece(src, w, n, 0, p);
        WritePart(src, 0, iblock, unalg, p, w);
        iblock := iblock + 1;
        assert iblock * dev.lg == (iblock - 1) * dev.lg + dev.lg;
        MulBelow(iblock, |blocks|, dev.lg);
      } else {
        MulBelow(iblock, |blocks|, dev.lg);
      }
    }

    /** Rounding up to blocks. */
    lemma {:induction false} CeilIs(total: nat, k: nat)
      requires dev.lg > 0
      ensures Quot(total + dev.lg - 1, dev.lg) <= k <==> total <= k * dev.lg
    {
      hide Quot, Rem;
      var x := total + dev.lg - 1;
      Split(x, dev.lg);
      var c := Quot(x, dev.lg);
      if c <= k { MulBelow(c, k, dev.lg); } else { MulMore(k, c, dev.lg); }
    }

    /** The runs of whole blocks and the tail, from a block boundary on. */
    method WriteRest(src: array<bv8>, pos: nat, p: nat, left: nat, iblock: nat, fileBlocks: nat, ghost w: Job)
      requires Valid() && p + left <= src.Length && src != dev.media && src != dev.bbuf && iblock * dev.lg == pos == w.f0 + p
      requires w.data == src[..p + left] && Quot(pos + left + dev.lg - 1, dev.lg) <= |blocks| + |supply| && 0 < left
      requires iblock <= fileBlocks == |blocks| && Written(w, dev.media[..], L(), pos) && |w.l0.blocks| <= |blocks|
      modifies this`blocks, this`inodeSize, this`supply, dev.media, dev.bbuf
      ensures Valid() && Written(w, dev.media[..], L(), pos + left) && blocks + supply == old(blocks + supply)
      ensures pos + left <= |blocks| * dev.lg && fileBlocks <= |blocks|
      ensures |blocks| > fileBlocks ==> (|blocks| - 1) * dev.lg < pos + left
      ensures pos + left <= fileBlocks * dev.lg ==> inodeSize == old(inodeSize)
    {
      hide Quot, Rem, LayoutOk, Written;
      var last := Quot(pos + left, dev.lg);
      ghost var total := pos + left;
      Whole(last, total, last);
      CeilIs(total, |blocks| + |supply|);
      Whole(fileBlocks, total, last);
      if last > |blocks| + |supply| { MulMore(|blocks| + |supply|, last, dev.lg); }
      ghost var b0, s0 := blocks, supply;
      var p', left', k := WriteRuns(src, pos, p, left, iblock, last, fileBlocks, w);
      SameLength(blocks, supply, b0, s0);
      MulBelow(k, |blocks|, dev.lg);
      BelowEnd(k, fileBlocks, total, left');
      if left' > 0 {
        CeilIs(total, k);
        assert (k + 1) * dev.lg == k * dev.lg + dev.lg;
        var fblk := NextBlock(k, fileBlocks, w, k * dev.lg);
        DataPiece(src, w, p + left, p', left');
        WritePart(src, p', k, 0, left', w);
        MulBelow(k + 1, |blocks|, dev.lg);
      } else if |blocks| > fileBlocks {
        assert (k - 1) * dev.lg == k * dev.lg - dev.lg;
      }
    }

    lemma {:induction false} BelowEnd(k: nat, fileBlocks: nat, total: nat, left: nat)
      requires dev.lg > 0 && k * dev.lg + left == total && left < dev.lg
      ensures total <= fileBlocks * dev.lg ==> Quot(total, dev.lg) <= fileBlocks && (left > 0 ==> k < fileBlocks)
    {
      hide Quot, Rem;
      Split(total, dev.lg);
      if total <= fileBlocks * dev.lg {
        if Quot(total, dev.lg) > fileBlocks { MulMore(fileBlocks, Quot(total, dev.lg), dev.lg); }
        if left > 0 && fileBlocks <= k { MulBelow(fileBlocks, k, dev.lg); }
      }
    }

    /** ext4_fwrite on a file without holes, when the allocator has the blocks it takes: the data
        lie over or behind the old bytes from the position on, nothing else on the medium changes,
        and position, size and returned count follow. */
    method Fwrite(src: array<bv8>, size: nat, wcnt0: nat) returns (r: Errno, wcnt: nat)
      requires Valid() && fpos <= inodeSize && size <= src.Length && src != dev.media && src != dev.bbuf && size < 0x1_0000_0000
      requires fpos + size < 0x1_0000_0000 * dev.lg && Quot(fpos + size + dev.lg - 1, dev.lg) <= |blocks| + |supply|
      modifies this`fpos, this`fsize, this`blocks, this`inodeSize, this`supply, dev.media, dev.bbuf
      ensures Valid() && (r == EROFS <==> rofs) && (r == EPERM <==> !rofs && readOnly)
      ensures rofs || readOnly || size == 0 ==> wcnt == wcnt0 && fpos == old(fpos) && inodeSize == old(inodeSize)
                                                && blocks == old(blocks) && dev.media[..] == old(dev.media[..])
      ensures !rofs && !readOnly && size > 0 ==>
                && r == EOK && wcnt == size && fpos == old(fpos) + size && fsize == inodeSize
                && inodeSize == (if fpos > old(inodeSize) then fpos else old(inodeSize))
                && Bytes() == Overlay(old(Bytes()), old(fpos), src[..size])
                && blocks + supply == old(blocks + supply) && |old(blocks)| <= |blocks|
                && forall a: nat :: a < dev.media.Length && Outside(L(), a) ==> dev.media[a] == old(dev.media[a])
    {
      hide Quot, Rem, LayoutOk, Written, Content, Overlay, Outside;
      if rofs {
        return EROFS, wcnt0;
      }
      if readOnly {
        return EPERM, wcnt0;
      }
      if size == 0 {
        return EOK, wcnt0;
      }
      ghost var w := Job(dev.media[..], L(), fpos, src[..size]);
      ghost var size0 := inodeSize;
      fsize := inodeSize;
      var fileBlocks := Quot(fsize + dev.lg - 1, dev.lg);
      WrittenStart(w);
      var p, iblock := WriteHead(src, fpos, size, w);
      if p < size {
        WriteRest(src, fpos + p, p, size - p, iblock, fileBlocks, w);
      }
      fpos := fpos + size;
      SizeFits(size0, fileBlocks, fpos);
      if fpos > fsize {
        fsize := fpos;
        inodeSize := fsize;
      }
      CeilIs(size0, fileBlocks);
      WrittenContent(w, dev.media[..], L(), size0, inodeSize);
      WrittenOutside(w, dev.media[..], L(), fpos);
      return EOK, size;
    }

    lemma {:induction false} WrittenOutside(w: Job, m: seq<bv8>, l: Layout, upto: nat)
      requires Written(w, m, l, upto)
      ensures forall a: nat :: a < |m| && Outside(l, a) ==> m[a] == w.m0[a]
    {}

    /** The blocks there after a write are those the new size takes. */
    lemma {:induction false} SizeFits(size0: nat, fileBlocks: nat, end: nat)
      requires dev.lg > 0 && fileBlocks == Quot(size0 + dev.lg - 1, dev.lg) <= |blocks| && end <= |blocks| * dev.lg
      requires |blocks| > fileBlocks ==> (|blocks| - 1) * dev.lg < end
      ensures end > size0 ==> |blocks| == Quot(end + dev.lg - 1, dev.lg)
      ensures end <= size0 ==> |blocks| == fileBlocks && end <= fileBlocks * dev.lg
    {
      hide Quot, Rem;
      CeilIs(end, |blocks|);
      CeilIs(size0, fileBlocks);
      if |blocks| > 0 {
        CeilIs(end, |blocks| - 1);
        CeilIs(size0, |blocks| - 1);
        if fileBlocks < |blocks| { MulBelow(fileBlocks, |blocks| - 1, dev.lg); }
      }
    }

    lemma {:induction false} DataPiece(src: array<bv8>, w: Job, n: nat, p: nat, len: nat)
      requires n <= src.Length && w.data == src[..n] && p + len <= n
      ensures src[p..p + len] == w.data[p..p + len]
    {}

    /** Blocks below iblock are there; from the old end of the file on, no further ones are. */
    ghost predicate Ahead(iblock: nat, fileBlocks: nat)
      reads this`blocks
    {
      |blocks| == if iblock > fileBlocks then iblock else fileBlocks
    }

    lemma {:induction false} RunGrows(was: seq<nat>, k: nat, start: nat, count: nat)
      requires |was| <= |blocks| && blocks[..|was|] == was && Run(Layout(dev.partOffset, dev.lg, was), k, start, count)
      ensures Run(L(), k, start, count)
    {}
  }

  lemma {:induction false} SameLength(a: seq<nat>, b: seq<nat>, c: seq<nat>, d: seq<nat>)
    requires a + b == c + d
    ensures |a| + |b| == |c| + |d|
  {
    assert |a + b| == |c + d|;
  }

  lemma {:induction false} PrefixOk(l: Layout, partSize: nat, n: nat)
    requires LayoutOk(l, partSize) && n <= |l.blocks|
    ensures LayoutOk(l.(blocks := l.blocks[..n]), partSize)
  {}

  /** The next piece of c went behind the ones before. */
  lemma {:induction false} FilledMore(d0: seq<bv8>, d1: seq<bv8>, d2: seq<bv8>, p: nat, c: seq<bv8>, f0: nat, f1: nat, f2: nat)
    requires f0 <= f1 <= f2 <= |c| && Overwritten(d0, d1, p, c[f0..f1]) && Overwritten(d1, d2, p + (f1 - f0), c[f1..f2])
    ensures Overwritten(d0, d2, p, c[f0..f2])
  {
    hide Overwritten;
    OverwriteJoin(d0, d1, d2, p, c[f0..f1], c[f1..f2]);
    Slices(c, f0, f1, f2);
  }

  lemma {:induction false} Positive(a: nat, b: nat)
    requires a > 0 && b > 0
    ensures a * b > 0
  {}
}
