/** The 48-bit block count of an inode, in 512-byte units or, for huge files, in blocks. */
module InodeBlocks {
  const U16 := 0x1_0000
  const U32 := 0x1_0000_0000
  const U48 := 0x1_0000_0000_0000
  const U64 := 0x1_0000_0000_0000_0000

  type uint16 = x: nat | x < U16
  type uint32 = x: nat | x < U32

  /** The count fields of an inode: blocks_count_lo, blocks_high and the HUGE_FILE flag. */
  datatype Fields = Fields(lo: uint32, hi: uint16, huge: bool)

  /** `huge` is the HUGE_FILE feature, `unit` the 512-byte units in a block (a power of two, so
      that shifting by its logarithm multiplies and divides by it). */
  datatype Params = Params(huge: bool, unit: nat)

  /** ext4_inode_get_blocks_count. */
  function GetCount(p: Params, f: Fields): nat {
    if !p.huge then f.lo
    else if f.huge then (f.lo + f.hi * U32) * p.unit % U64
    else f.lo + f.hi * U32
  }

  /** ext4_inode_set_blocks_count; the fields stay when the count does not fit (EINVAL). */
  function SetCount(p: Params, f: Fields, count: nat): (bool, Fields)
    requires p.unit > 0
  {
    if count < U32 then (true, Fields(count, 0, false))
    else if !p.huge then (false, f)
    else if count < U48 then (true, Fields(count % U32, count / U32 % U16, false))
    else (true, Fields(count / p.unit % U32, count / p.unit / U32 % U16, true))
  }

  /** The counts an inode can hold. */
  predicate Holds(p: Params, count: nat)
    requires p.unit > 0
  {
    count < U32 || (p.huge && (count < U48 || (count % p.unit == 0 && count / p.unit < U48)))
  }

  lemma {:induction false} TwoParts(c: nat)
    requires c < U48
    ensures c % U32 + c / U32 % U16 * U32 == c
  {}

  lemma {:induction false} LostParts(c: nat)
    ensures c % U32 + c / U32 % U16 * U32 == c % U48
  {
    var q, r := c / U32, c % U32;
    assert q == q / U16 * U16 + q % U16;
    assert c == q / U16 * U48 + (q % U16 * U32 + r);
  }

  lemma {:induction false} Exact(c: nat, n: nat)
    requires n > 0
    ensures c / n * n <= c && (c / n * n == c <==> c % n == 0)
  {}

  /** A stored count reads back exactly when it fits; a huge file's count must be whole blocks. */
  lemma {:induction false} CountRoundTrip(p: Params, f: Fields, count: nat)
    requires p.unit > 0 && count < 0x1_0000_0000_0000_0000
    ensures SetCount(p, f, count).0 <==> count < 0x1_0000_0000 || p.huge
    ensures GetCount(p, f) < 0x1_0000_0000_0000_0000
    ensures var high, whole := 0x1_0000_0000_0000, count % p.unit == 0;
            SetCount(p, f, count).0 ==>
              (GetCount(p, SetCount(p, f, count).1) == count <==> count < high || (whole && count / p.unit < high))
    ensures !SetCount(p, f, count).0 ==> SetCount(p, f, count).1 == f
  {
    if U32 <= count < U48 {
      TwoParts(count);
    } else if U48 <= count && p.huge {
      HugeRoundTrip(p.unit, count);
    }
  }

  lemma {:induction false} HugeRoundTrip(unit: nat, count: nat)
    requires unit > 0 && count < U64
    ensures var c := count / unit;
            (c % U32 + c / U32 % U16 * U32) * unit % U64 == count <==> count % unit == 0 && c < U48
  {
    var c := count / unit;
    LostParts(c);
    Exact(count, unit);
    var d := c % U48;
    Below(unit, c, d, count);
    InU64(d * unit);
  }

  lemma {:induction false} InU64(x: nat)
    ensures x < U64 ==> x % U64 == x
  {}

  lemma {:induction false} Below(unit: nat, c: nat, d: nat, count: nat)
    requires unit > 0 && d <= c && c * unit <= count
    ensures d * unit <= count && (d * unit == count <==> d == c && c * unit == count)
  {
    MulLe(d, c, unit);
    if d < c { MulLe(d + 1, c, unit); }
  }

  /** A count the fields hold, less whole blocks, still fits (blocks are at most 64 KiB). */
  lemma {:induction false} LessHolds(p: Params, f: Fields, n: nat)
    requires 0 < p.unit <= 128 && n * p.unit <= GetCount(p, f)
    ensures GetCount(p, f) < U64 && Holds(p, GetCount(p, f) - n * p.unit)
  {
    if p.huge && f.huge {
      var k := f.lo + f.hi * U32;
      assert k < U48;
      MulLe(k, U48, p.unit);
      assert k * p.unit < U64;
      assert GetCount(p, f) == k * p.unit;
      if k < n { MulLe(k + 1, n, p.unit); }
      assert k * p.unit - n * p.unit == (k - n) * p.unit;
      Multiple(k - n, p.unit);
    }
  }

  lemma {:induction false} Multiple(k: nat, n: nat)
    requires n > 0
    ensures k * n % n == 0 && k * n / n == k
  {
    var q, r := k * n / n, k * n % n;
    assert k * n == q * n + r;
    if q < k { MulLe(q + 1, k, n); }
    if k < q { MulLe(k + 1, q, n); }
  }

  lemma {:induction false} MulLe(a: nat, b: nat, n: nat)
    requires a <= b
    ensures a * n <= b * n
    ensures (a + 1) * n == a * n + n
  {}
}
