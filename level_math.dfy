/** Integer arithmetic on level dimensions: rounding to whole 4x4 blocks, the DDS level size,
    mip halving, the rescale of declared sizes and the mip-size check. */
module LevelMath {
  import opened Formats

  function Max(a: int, b: int): int {
    if a >= b then a else b
  }

  /** `x >> n` on a non-negative int: `n` halvings, each rounding down. */
  function ShiftRight(x: nat, n: nat): nat {
    if n == 0 then x else ShiftRight(x, n - 1) / 2
  }

  /** The 32-bit `(value + 3) & ~3`: the least multiple of 4 not below `v`, except that the
      addition wraps to a small value for the last three representable values. */
  function RoundUpTo4(v: u32): (r: u32)
    ensures r % 4 == 0
    ensures v <= U32_LIMIT - 4 ==> v <= r < v + 4
    ensures v > U32_LIMIT - 4 ==> r == 0
  {
    var s := (v + 3) % U32_LIMIT;
    s - s % 4
  }

  /** Bytes of one DDS level: the rounded extents times the block size over 16 texels. The level
      width and height are ints converted to uint32 for the rounding. */
  function DdsLevelSize(w: nat, h: nat, blockSize: nat): nat {
    var area: nat := RoundUpTo4(w % U32_LIMIT) * RoundUpTo4(h % U32_LIMIT);
    var bytes: nat := area * blockSize;
    bytes / 16
  }

  /** For extents that do not wrap, a DDS level holds exactly one block per started 4x4 tile. */
  lemma DdsLevelSizeIsBlockCount(w: nat, h: nat, blockSize: nat)
    requires w <= U32_LIMIT - 4 && h <= U32_LIMIT - 4
    requires blockSize == 8 || blockSize == 16
    ensures DdsLevelSize(w, h, blockSize) == ((w + 3) / 4) * ((h + 3) / 4) * blockSize
  {
    RoundUpTo4Blocks(w);
    RoundUpTo4Blocks(h);
    SixteenthOfBlocks((w + 3) / 4, (h + 3) / 4, blockSize);
  }

  /** Whole 4x4 blocks over 16 texels per block. */
  lemma SixteenthOfBlocks(a: nat, b: nat, c: nat)
    ensures (4 * a) * (4 * b) * c / 16 == a * b * c
  {
    MulRearrange(a, b, c);
    DivUnique(16 * (a * b * c), 16, a * b * c, 0);
  }

  /** Without wrap-around the rounding counts started 4-texel blocks. */
  lemma RoundUpTo4Blocks(v: nat)
    requires v <= U32_LIMIT - 4
    ensures v % U32_LIMIT == v && RoundUpTo4(v) == 4 * ((v + 3) / 4)
  {
    var s := v + 3;
    assert s % U32_LIMIT == s;
    assert s == 4 * (s / 4) + s % 4;
  }

  lemma MulRearrange(a: nat, b: nat, c: nat)
    ensures (4 * a) * (4 * b) * c == 16 * (a * b * c)
  {
  }

  /** The next mip extent: half, but never below 1. */
  function Halve(x: nat): (r: nat)
  {
    Max(x / 2, 1)
  }

  /** The extent of mip level `i` of a chain that halves `i` times from `x`: a chain that starts
      at 1 or more never grows and never drops below 1. */
  function MipExtent(x: nat, i: nat): (r: nat)
  {
    if i == 0 then x else Halve(MipExtent(x, i - 1))
  }

  /** Every extent of a chain that starts at 1 or more lies between 1 and the starting extent. */
  lemma {:induction false} MipExtentPositive(x: nat, i: nat)
    requires x >= 1
    ensures 1 <= MipExtent(x, i) <= x
  {
    if i > 0 {
      MipExtentPositive(x, i - 1);
    }
  }

  lemma DivUnique(x: nat, d: nat, q: nat, r: nat)
    requires d >= 1 && 0 <= r < d && x == d * q + r
    ensures x / d == q
  {
    var q', r' := x / d, x % d;
    assert d * q' + r' == d * q + r;
    if q' > q {
      MulMonotone(d, q + 1, q');
    } else if q' < q {
      MulMonotone(d, q' + 1, q);
    }
  }

  lemma DivModUnique(x: nat, d: nat, q: nat, r: nat)
    requires d >= 1 && 0 <= r < d && x == d * q + r
    ensures x / d == q && x % d == r
  {
    DivUnique(x, d, q, r);
    assert x == d * (x / d) + x % d;
  }

  lemma MulMonotone(c: nat, a: nat, b: nat)
    requires a <= b
    ensures c * a <= c * b
  {
    assert c * b == c * a + c * (b - a);
  }

  /** Halving `i` times with a floor of 1 is the shift by `i`, clamped to 1; where the shift is
      still positive the DDS mip chain therefore has the extents the mip-size check expects. */
  lemma {:induction false} MipExtentClosedForm(x: nat, i: nat)
    requires x >= 1
    ensures MipExtent(x, i) == Max(ShiftRight(x, i), 1)
    ensures ShiftRight(x, i) >= 1 ==> MipExtent(x, i) == ShiftRight(x, i)
  {
    if i > 0 {
      MipExtentClosedForm(x, i - 1);
    }
  }

  /** The declared level size scaled from the file's resolution to the target resolution. */
  function Rescale(x: nat, num: nat, den: nat): (r: nat)
    requires den > 0
    ensures r * den <= x * num < r * den + den
  {
    x * num / den
  }

  /** Without a resolution change the rescale leaves the size alone. */
  lemma RescaleIdentity(x: nat, n: nat)
    requires n > 0
    ensures Rescale(x, n, n) == x
  {
    DivUnique(x * n, n, x, 0);
  }

  /** A separately stored mip level is accepted only at exactly level 0's size shifted right by
      the mip index. */
  predicate MipSizeMatches(w0: nat, h0: nat, mip: nat, w: nat, h: nat) {
    w == ShiftRight(w0, mip) && h == ShiftRight(h0, mip)
  }
}
