/** Byte ranges of a partition through whole physical blocks of the medium. */
module ByteIo {
  import opened Arith

  /** t is s with the bytes from `at` on replaced by d. */
  ghost predicate Overwritten(s: seq<bv8>, t: seq<bv8>, at: nat, d: seq<bv8>) {
    |t| == |s| && at + |d| <= |s| && forall j: nat :: j < |s| ==> t[j] == if at <= j < at + |d| then d[j - at] else s[j]
  }

  lemma {:induction false} OverwriteJoin(s: seq<bv8>, t: seq<bv8>, u: seq<bv8>, at: nat, d: seq<bv8>, e: seq<bv8>)
    requires Overwritten(s, t, at, d) && Overwritten(t, u, at + |d|, e)
    ensures Overwritten(s, u, at, d + e)
  {}

  lemma {:induction false} OverwriteNothing(s: seq<bv8>, at: nat)
    requires at <= |s|
    ensures Overwritten(s, s, at, [])
  {}

  lemma {:induction false} Slices(s: seq<bv8>, a: nat, b: nat, c: nat)
    requires a <= b <= c <= |s|
    ensures s[a..b] + s[b..c] == s[a..c]
  {}

  lemma {:induction false} Slice(s: seq<bv8>, base: nat, len: nat, at: nat, n: nat)
    requires at + n <= len && base + len <= |s|
    ensures s[base..base + len][at..at + n] == s[base + at..base + at + n]
  {
    var t := s[base..base + len][at..at + n];
    assert forall k :: 0 <= k < n ==> t[k] == s[base + at + k];
  }

  /** Reading a range back after it was written. */
  lemma {:induction false} ReadBack(s: seq<bv8>, t: seq<bv8>, at: nat, d: seq<bv8>)
    requires Overwritten(s, t, at, d)
    ensures t[at..at + |d|] == d
  {}

  /** The block number is computed from the address on the medium and the position inside the
      block from the address in the partition: together they are the right position exactly when
      the partition starts on a block boundary. */
  lemma {:induction false} Position(off: nat, partOffset: nat, ph: nat)
    requires ph > 0
    ensures Quot(off + partOffset, ph) * ph + Rem(off, ph) == off + partOffset <==> Rem(partOffset, ph) == 0
  {
    hide Quot, Rem;
    Split(off + partOffset, ph);
    Split(off, ph);
    Split(partOffset, ph);
    var b, q, k := Quot(off + partOffset, ph), Quot(off, ph), Quot(partOffset, ph);
    if Rem(partOffset, ph) == 0 {
      assert (q + k) * ph == q * ph + k * ph;
      Unique(b, Rem(off + partOffset, ph), q + k, Rem(off, ph), ph);
    } else if b * ph + Rem(off, ph) == off + partOffset {
      assert (b - q) * ph == b * ph - q * ph;
      Unique(b - q, 0, k, Rem(partOffset, ph), ph);
      assert false;
    }
  }

  /** A block that begins on the medium ends on it. */
  lemma {:induction false} WholeBlock(blk: nat, ph: nat, length: nat)
    requires ph > 0 && Rem(length, ph) == 0 && blk * ph < length
    ensures (blk + 1) * ph <= length && (blk + 1) * ph == blk * ph + ph
  {
    Split(length, ph);
    if Quot(length, ph) <= blk { MulBelow(Quot(length, ph), blk, ph); }
    MulBelow(blk + 1, Quot(length, ph), ph);
  }

  lemma {:induction false} MulBelow(a: nat, b: nat, n: nat)
    ensures a <= b ==> a * n <= b * n
  {}

  /** Changing part of a block's copy and writing the copy back changes that part. */
  lemma {:induction false} PatchIs(m: seq<bv8>, m': seq<bv8>, base: nat, ph: nat, b: seq<bv8>, at: nat, d: seq<bv8>)
    requires base + ph <= |m| && |b| == ph && Overwritten(m[base..base + ph], b, at, d) && Overwritten(m, m', base, b)
    ensures Overwritten(m, m', base + at, d)
  {}

  class Device {
    /** ph_bsize, the partition's place on the medium, and the logical block size. */
    const ph: nat
    const partOffset: nat
    const partSize: nat
    const lg: nat
    const media: array<bv8>
    /** ph_bbuf. */
    const bbuf: array<bv8>

    ghost predicate Valid() {
      && ph > 0 && lg > 0 && Rem(partOffset, ph) == 0 && Rem(media.Length, ph) == 0 && Rem(lg, ph) == 0
      && partOffset + partSize <= media.Length && bbuf.Length == ph && bbuf != media
    }

    constructor (ph: nat, partOffset: nat, partSize: nat, lg: nat, media: array<bv8>)
      requires ph > 0 && lg > 0 && Rem(partOffset, ph) == 0 && Rem(media.Length, ph) == 0 && Rem(lg, ph) == 0
      requires partOffset + partSize <= media.Length
      ensures Valid() && this.media == media && this.partOffset == partOffset && this.partSize == partSize && this.lg == lg
    {
      this.ph, this.partOffset, this.partSize, this.lg, this.media := ph, partOffset, partSize, lg, media;
      bbuf := new bv8[ph];
    }

    /** bread: whole physical blocks. */
    method BRead(dst: array<bv8>, p: nat, blk: nat, cnt: nat)
      requires Valid() && dst != media && p + cnt * ph <= dst.Length && blk * ph + cnt * ph <= media.Length
      modifies dst
      ensures Overwritten(old(dst[..]), dst[..], p, media[blk * ph..blk * ph + cnt * ph])
    {
      var n, at := cnt * ph, blk * ph;
      forall i | 0 <= i < n {
        dst[p + i] := media[at + i];
      }
    }

    /** bwrite: whole physical blocks. */
    method BWrite(src: array<bv8>, p: nat, blk: nat, cnt: nat)
      requires Valid() && src != media && p + cnt * ph <= src.Length && blk * ph + cnt * ph <= media.Length
      modifies media
      ensures Overwritten(old(media[..]), media[..], blk * ph, src[p..p + cnt * ph])
    {
      var n, at := cnt * ph, blk * ph;
      forall i | 0 <= i < n {
        media[at + i] := src[p + i];
      }
    }

    /** One block of the medium into the block buffer. */
    method Load(blk: nat)
      requires Valid() && blk * ph < media.Length
      modifies bbuf
      ensures blk * ph + ph <= media.Length && bbuf[..] == media[blk * ph..blk * ph + ph]
    {
      hide Quot, Rem;
      WholeBlock(blk, ph, media.Length);
      assert 1 * ph == ph;
      BRead(bbuf, 0, blk, 1);
      assert bbuf[..] == media[blk * ph..blk * ph + ph];
    }

    method Store(blk: nat)
      requires Valid() && blk * ph < media.Length
      modifies media
      ensures Overwritten(old(media[..]), media[..], blk * ph, bbuf[..])
    {
      hide Overwritten;
      WholeBlock(blk, ph, media.Length);
      assert 1 * ph == ph;
      assert bbuf[0..ph] == bbuf[..];
      BWrite(bbuf, 0, blk, 1);
    }

    /** memcpy between buffers. */
    static method Copy(src: array<bv8>, p: nat, dst: array<bv8>, at: nat, n: nat)
      requires src != dst && p + n <= src.Length && at + n <= dst.Length
      modifies dst
      ensures Overwritten(old(dst[..]), dst[..], at, src[p..p + n])
    {
      forall i | 0 <= i < n {
        dst[at + i] := src[p + i];
      }
    }

    /** Part of one block: read, change, write back. */
    method Patch(src: array<bv8>, p: nat, blk: nat, at: nat, n: nat)
      requires Valid() && src != media && src != bbuf && p + n <= src.Length && at + n <= ph && blk * ph < media.Length
      modifies media, bbuf
      ensures Overwritten(old(media[..]), media[..], blk * ph + at, src[p..p + n])
    {
      hide Overwritten, Quot, Rem;
      ghost var m, base := media[..], blk * ph;
      Load(blk);
      Copy(src, p, bbuf, at, n);
      Store(blk);
      PatchIs(m, media[..], base, ph, bbuf[..], at, src[p..p + n]);
    }

    function Min(a: nat, b: nat): nat { if a > b then b else a }

    /** The whole blocks and the rest of a transfer that starts on a block boundary. */
    method WriteAligned(src: array<bv8>, p: nat, blk: nat, len: nat)
      requires Valid() && src != media && src != bbuf && p + len <= src.Length && blk * ph + len <= media.Length
      modifies media, bbuf
      ensures Overwritten(old(media[..]), media[..], blk * ph, src[p..p + len])
    {
      hide Quot, Rem, Overwritten;
      ghost var m := media[..];
      Split(len, ph);
      var blen := Quot(len, ph);
      var done := blen * ph;
      assert (blk + blen) * ph == blk * ph + done;
      OverwriteNothing(m, blk * ph);
      if blen != 0 {
        BWrite(src, p, blk, blen);
      }
      assert Overwritten(m, media[..], blk * ph, src[p..p + done]);
      if len > done {
        ghost var m1 := media[..];
        Patch(src, p + done, blk + blen, 0, len - done);
        OverwriteJoin(m, m1, media[..], blk * ph, src[p..p + done], src[p + done..p + len]);
        Slices(src[..], p, p + done, p + len);
        assert src[..][p..p + done] == src[p..p + done] && src[..][p + done..p + len] == src[p + done..p + len];
        assert src[..][p..p + len] == src[p..p + len];
      }
    }

    /** ext4_block_writebytes: exactly the bytes off .. off + len of the partition change; a range
        past its end is refused. */
    method WriteBytes(off: nat, src: array<bv8>, p: nat, len: nat) returns (ok: bool)
      requires Valid() && src != media && src != bbuf && p + len <= src.Length
      modifies media, bbuf
      ensures ok <==> off + len <= partSize
      ensures ok ==> Overwritten(old(media[..]), media[..], partOffset + off, src[p..p + len])
      ensures !ok ==> media[..] == old(media[..])
    {
      hide Quot, Rem, Overwritten;
      if off + len > partSize {
        return false;
      }
      ghost var m := media[..];
      var blk := Quot(off + partOffset, ph);
      var unalg := Rem(off, ph);
      Position(off, partOffset, ph);
      Split(off, ph);
      if unalg == 0 {
        WriteAligned(src, p, blk, len);
        return true;
      }
      var wlen := Min(ph - unalg, len);
      Patch(src, p, blk, unalg, wlen);
      ghost var m1 := media[..];
      if wlen < len {
        assert (blk + 1) * ph == blk * ph + ph;
        WriteAligned(src, p + wlen, blk + 1, len - wlen);
        OverwriteJoin(m, m1, media[..], partOffset + off, src[p..p + wlen], src[p + wlen..p + len]);
        Slices(src[..], p, p + wlen, p + len);
        assert src[..][p..p + wlen] == src[p..p + wlen] && src[..][p + wlen..p + len] == src[p + wlen..p + len];
        assert src[..][p..p + len] == src[p..p + len];
      }
      ok := true;
    }

    /** Part of one block into a buffer. */
    method Fetch(dst: array<bv8>, p: nat, blk: nat, at: nat, n: nat)
      requires Valid() && dst != media && dst != bbuf && p + n <= dst.Length && at + n <= ph && blk * ph < media.Length
      modifies dst, bbuf
      ensures blk * ph + ph <= media.Length && Overwritten(old(dst[..]), dst[..], p, media[blk * ph + at..blk * ph + at + n])
    {
      hide Overwritten, Quot, Rem;
      Load(blk);
      Copy(bbuf, at, dst, p, n);
      assert bbuf[..][at..at + n] == bbuf[at..at + n];
      Slice(media[..], blk * ph, ph, at, n);
    }

    method ReadAligned(dst: array<bv8>, p: nat, blk: nat, len: nat)
      requires Valid() && dst != media && dst != bbuf && p + len <= dst.Length && blk * ph + len <= media.Length
      modifies dst, bbuf
      ensures Overwritten(old(dst[..]), dst[..], p, media[blk * ph..blk * ph + len])
    {
      hide Quot, Rem, Overwritten;
      ghost var d := dst[..];
      Split(len, ph);
      var blen := Quot(len, ph);
      var done := blen * ph;
      assert (blk + blen) * ph == blk * ph + done;
      OverwriteNothing(d, p);
      if blen != 0 {
        BRead(dst, p, blk, blen);
      }
      assert Overwritten(d, dst[..], p, media[blk * ph..blk * ph + done]);
      if len > done {
        ghost var d1 := dst[..];
        Fetch(dst, p + done, blk + blen, 0, len - done);
        OverwriteJoin(d, d1, dst[..], p, media[blk * ph..blk * ph + done], media[blk * ph + done..blk * ph + len]);
        assert media[blk * ph..blk * ph + done] + media[blk * ph + done..blk * ph + len] == media[blk * ph..blk * ph + len];
      }
    }

    /** ext4_block_readbytes: the buffer gets the bytes off .. off + len of the partition. */
    method ReadBytes(off: nat, dst: array<bv8>, p: nat, len: nat) returns (ok: bool)
      requires Valid() && dst != media && dst != bbuf && p + len <= dst.Length
      modifies dst, bbuf
      ensures ok <==> off + len <= partSize
      ensures ok ==> Overwritten(old(dst[..]), dst[..], p, media[partOffset + off..partOffset + off + len])
      ensures !ok ==> dst[..] == old(dst[..])
    {
      hide Quot, Rem, Overwritten;
      if off + len > partSize {
        return false;
      }
      ghost var d := dst[..];
      var blk := Quot(off + partOffset, ph);
      var unalg := Rem(off, ph);
      Position(off, partOffset, ph);
      Split(off, ph);
      if unalg == 0 {
        ReadAligned(dst, p, blk, len);
        return true;
      }
      var rlen := Min(ph - unalg, len);
      Fetch(dst, p, blk, unalg, rlen);
      ghost var d1, a := dst[..], partOffset + off;
      if rlen < len {
        assert (blk + 1) * ph == blk * ph + ph;
        ReadAligned(dst, p + rlen, blk + 1, len - rlen);
        OverwriteJoin(d, d1, dst[..], p, media[a..a + rlen], media[a + rlen..a + len]);
        Slices(media[..], a, a + rlen, a + len);
        assert media[..][a..a + rlen] == media[a..a + rlen] && media[..][a + rlen..a + len] == media[a + rlen..a + len];
        assert media[..][a..a + len] == media[a..a + len];
      }
      ok := true;
    }

    /** The physical blocks of `cnt` logical ones. */
    lemma {:induction false} LogicalBlocks(lba: nat, cnt: nat)
      requires Valid()
      ensures Quot(lba * lg + partOffset, ph) * ph == lba * lg + partOffset && Quot(lg, ph) * cnt * ph == cnt * lg
    {
      hide Quot, Rem;
      Split(lg, ph);
      Split(partOffset, ph);
      Split(lba * lg + partOffset, ph);
      var k, o := Quot(lg, ph), Quot(partOffset, ph);
      assert lba * (k * ph) == (lba * k) * ph;
      assert (lba * k + o) * ph == (lba * k) * ph + o * ph;
      Unique(Quot(lba * lg + partOffset, ph), Rem(lba * lg + partOffset, ph), lba * k + o, 0, ph);
      assert k * cnt * ph == cnt * (k * ph);
    }

    /** ext4_blocks_get_direct. */
    method GetDirect(dst: array<bv8>, p: nat, lba: nat, cnt: nat)
      requires Valid() && dst != media && p + cnt * lg <= dst.Length && lba * lg + cnt * lg <= partSize
      modifies dst
      ensures var a := partOffset + lba * lg; Overwritten(old(dst[..]), dst[..], p, media[a..a + cnt * lg])
    {
      hide Quot, Rem;
      LogicalBlocks(lba, cnt);
      BRead(dst, p, Quot(lba * lg + partOffset, ph), Quot(lg, ph) * cnt);
    }

    /** ext4_blocks_set_direct. */
    method SetDirect(src: array<bv8>, p: nat, lba: nat, cnt: nat)
      requires Valid() && src != media && p + cnt * lg <= src.Length && lba * lg + cnt * lg <= partSize
      modifies media
      ensures Overwritten(old(media[..]), media[..], partOffset + lba * lg, src[p..p + cnt * lg])
    {
      hide Quot, Rem;
      LogicalBlocks(lba, cnt);
      BWrite(src, p, Quot(lba * lg + partOffset, ph), Quot(lg, ph) * cnt);
    }
  }
}
