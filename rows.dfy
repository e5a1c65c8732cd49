/** Row-by-row copies between buffers of different row pitches: the padded copy of a decoded ZIM
    image into a level buffer and the copy of a level into a caller's pitched destination. */
module Rows {
  import opened Formats
  import opened LevelMath

  function Zeros(n: nat): (r: seq<byte>)
    ensures |r| == n && forall i :: 0 <= i < n ==> r[i] == 0
  {
    seq(n, _ => 0)
  }

  /** A buffer of length `len` holds `rows` rows of `rowLen` bytes laid out `pitch` bytes apart. */
  predicate FitsRows(len: nat, pitch: nat, rowLen: nat, rows: nat) {
    rows == 0 || pitch * (rows - 1) + rowLen <= len
  }

  /** Destination byte `j` lies in one of the first `rows` rows, within the copied row length. */
  predicate InCopiedRow(j: nat, dstPitch: nat, rowLen: nat, rows: nat)
    requires dstPitch > 0
  {
    j / dstPitch < rows && j % dstPitch < rowLen
  }

  /** Byte `x` of source row `y` (0 past the end of the source, which a copy of rows that fit
      never reads). */
  function SrcByte(src: seq<byte>, srcPitch: nat, y: nat, x: nat): byte {
    var k := srcPitch * y + x;
    if k < |src| then src[k] else 0
  }

  /** Destination byte `j` holds `v` after the first `rows` rows were copied onto a byte `p`:
      the source byte at the same row and column when `j` is in a copied row, else `p`. */
  predicate RowByteOk(v: byte, p: byte, j: nat, dstPitch: nat, src: seq<byte>, srcPitch: nat, rowLen: nat, rows: nat)
    requires dstPitch > 0
  {
    v == if InCopiedRow(j, dstPitch, rowLen, rows) then SrcByte(src, srcPitch, j / dstPitch, j % dstPitch) else p
  }

  /** `d` is `prior` with source rows 0..rows-1 copied to destination rows 0..rows-1, and every
      byte outside those rows (the padding at the end of each row and everything after the
      last) left as it was. */
  ghost predicate RowsCopied(d: seq<byte>, prior: seq<byte>, dstPitch: nat,
                             src: seq<byte>, srcPitch: nat, rowLen: nat, rows: nat)
    requires dstPitch > 0
  {
    |d| == |prior| &&
    forall j :: 0 <= j < |d| ==> RowByteOk(d[j], prior[j], j, dstPitch, src, srcPitch, rowLen, rows)
  }

  /** `d` is `prior` with `n` bytes of `src` from `srcBase` on written at `base`. */
  ghost predicate RowWritten(d: seq<byte>, prior: seq<byte>, base: nat, src: seq<byte>, srcBase: nat, n: nat)
    requires srcBase + n <= |src|
  {
    |d| == |prior| &&
    forall j :: 0 <= j < |d| ==> d[j] == if base <= j < base + n then src[srcBase + (j - base)] else prior[j]
  }

  /** Copies `rows` rows of `rowLen` bytes from `src` (pitch `srcPitch`) into `dst` (pitch
      `dstPitch`), one row at a time. */
  method CopyRows(dst: array<byte>, dstPitch: nat, src: seq<byte>, srcPitch: nat, rowLen: nat, rows: nat)
    requires 0 < dstPitch && rowLen <= dstPitch && rowLen <= srcPitch
    requires FitsRows(dst.Length, dstPitch, rowLen, rows) && FitsRows(|src|, srcPitch, rowLen, rows)
    modifies dst
    ensures RowsCopied(dst[..], old(dst[..]), dstPitch, src, srcPitch, rowLen, rows)
  {
    ghost var orig := dst[..];
    NoRowsCopied(orig, dstPitch, src, srcPitch, rowLen);
    var y := 0;
    while y < rows
      invariant 0 <= y <= rows
      invariant RowsCopied(dst[..], orig, dstPitch, src, srcPitch, rowLen, y)
    {
      MulMonotone(dstPitch, y, rows - 1);
      MulMonotone(srcPitch, y, rows - 1);
      ghost var before := dst[..];
      CopyRow(dst, dstPitch * y, src, srcPitch * y, rowLen);
      RowStep(dst[..], before, orig, dstPitch, src, srcPitch, rowLen, y);
      y := y + 1;
    }
  }

  /** Before the first row nothing is copied. */
  lemma NoRowsCopied(d: seq<byte>, dstPitch: nat, src: seq<byte>, srcPitch: nat, rowLen: nat)
    requires dstPitch > 0
    ensures RowsCopied(d, d, dstPitch, src, srcPitch, rowLen, 0)
  {
    forall j | 0 <= j < |d|
      ensures RowByteOk(d[j], d[j], j, dstPitch, src, srcPitch, rowLen, 0)
    {
      DivModUnique(j, dstPitch, j / dstPitch, j % dstPitch);
    }
  }

  /** Copies `n` bytes from `src[srcBase..]` to `dst[base..]`. */
  method CopyRow(dst: array<byte>, base: nat, src: seq<byte>, srcBase: nat, n: nat)
    requires base + n <= dst.Length && srcBase + n <= |src|
    modifies dst
    ensures RowWritten(dst[..], old(dst[..]), base, src, srcBase, n)
  {
    var x := 0;
    while x < n
      invariant 0 <= x <= n
      invariant forall j :: 0 <= j < dst.Length ==>
        dst[j] == if base <= j < base + x then src[srcBase + (j - base)] else old(dst[j])
    {
      dst[base + x] := src[srcBase + x];
      x := x + 1;
    }
  }

  /** Copying row `y` extends a copy of the first `y` rows to a copy of the first `y + 1`. */
  lemma RowStep(after: seq<byte>, before: seq<byte>, orig: seq<byte>, dstPitch: nat,
                src: seq<byte>, srcPitch: nat, rowLen: nat, y: nat)
    requires 0 < dstPitch && rowLen <= dstPitch
    requires RowsCopied(before, orig, dstPitch, src, srcPitch, rowLen, y)
    requires dstPitch * y + rowLen <= |after| && srcPitch * y + rowLen <= |src|
    requires RowWritten(after, before, dstPitch * y, src, srcPitch * y, rowLen)
    ensures RowsCopied(after, orig, dstPitch, src, srcPitch, rowLen, y + 1)
  {
    forall j | 0 <= j < |after|
      ensures RowByteOk(after[j], orig[j], j, dstPitch, src, srcPitch, rowLen, y + 1)
    {
      RowStepAt(after[j], before[j], orig[j], j, dstPitch, src, srcPitch, rowLen, y);
    }
  }

  /** RowStep for destination byte `j`, whose values after the row copy, before it and before
      the whole copy are `a`, `b` and `o`. */
  lemma RowStepAt(a: byte, b: byte, o: byte, j: nat, dstPitch: nat,
                  src: seq<byte>, srcPitch: nat, rowLen: nat, y: nat)
    requires 0 < dstPitch && rowLen <= dstPitch && srcPitch * y + rowLen <= |src|
    requires RowByteOk(b, o, j, dstPitch, src, srcPitch, rowLen, y)
    requires a == if dstPitch * y <= j < dstPitch * y + rowLen
                  then src[srcPitch * y + (j - dstPitch * y)] else b
    ensures RowByteOk(a, o, j, dstPitch, src, srcPitch, rowLen, y + 1)
  {
    NextRow(j, dstPitch, rowLen, y);
  }

  /** Byte `j` is in the first `y + 1` rows exactly when it is in the first `y` or in row `y`,
      which starts at `dstPitch * y`. */
  lemma NextRow(j: nat, dstPitch: nat, rowLen: nat, y: nat)
    requires 0 < dstPitch && rowLen <= dstPitch
    ensures var base := dstPitch * y;
      && (base <= j < base + rowLen ==> j / dstPitch == y && j % dstPitch == j - base)
      && (InCopiedRow(j, dstPitch, rowLen, y + 1) <==>
            InCopiedRow(j, dstPitch, rowLen, y) || base <= j < base + rowLen)
  {
    var base := dstPitch * y;
    if base <= j < base + rowLen {
      DivModUnique(j, dstPitch, y, j - base);
    } else if j / dstPitch == y && j % dstPitch < rowLen {
      DivModUnique(j, dstPitch, y, j % dstPitch);
      assert false;
    }
  }

  /** Copies the first `n` bytes of `src` to the start of `dst` in one block. */
  method CopyPrefix(dst: array<byte>, src: seq<byte>, n: nat)
    requires n <= |src| && n <= dst.Length
    modifies dst
    ensures forall j :: 0 <= j < dst.Length ==> dst[j] == if j < n then src[j] else old(dst[j])
  {
    var i := 0;
    while i < n
      invariant 0 <= i <= n
      invariant forall j :: 0 <= j < dst.Length ==> dst[j] == if j < i then src[j] else old(dst[j])
    {
      dst[i] := src[i];
      i := i + 1;
    }
  }

  /** A block copy of `rows` tightly packed rows is the row copy with equal pitches. */
  lemma PrefixIsPackedRows(d: seq<byte>, prior: seq<byte>, src: seq<byte>, rowLen: nat, rows: nat)
    requires rowLen > 0 && rowLen * rows <= |src| && |d| == |prior|
    requires forall j :: 0 <= j < |d| ==> d[j] == if j < rowLen * rows then src[j] else prior[j]
    ensures FitsRows(|src|, rowLen, rowLen, rows)
    ensures RowsCopied(d, prior, rowLen, src, rowLen, rowLen, rows)
  {
    if rows > 0 {
      assert rowLen * (rows - 1) + rowLen == rowLen * rows;
    }
    forall j | 0 <= j < |d|
      ensures RowByteOk(d[j], prior[j], j, rowLen, src, rowLen, rowLen, rows)
    {
      PackedByte(j, rowLen, rows);
    }
  }

  /** With rows `rowLen` bytes apart and `rowLen` long, byte `j` is in the first `rows` rows
      exactly when it is below `rowLen * rows`, and its row and column address it. */
  lemma PackedByte(j: nat, rowLen: nat, rows: nat)
    requires rowLen > 0
    ensures InCopiedRow(j, rowLen, rowLen, rows) <==> j < rowLen * rows
    ensures rowLen * (j / rowLen) + j % rowLen == j
  {
    var q, r := j / rowLen, j % rowLen;
    assert j == rowLen * q + r;
    if q < rows {
      MulMonotone(rowLen, q + 1, rows);
    } else {
      MulMonotone(rowLen, rows, q);
    }
  }

  /** In a completed row copy, destination row `y` starts at `dstPitch * y` and holds source row
      `y` byte for byte. */
  lemma RowsCopiedAt(d: seq<byte>, prior: seq<byte>, dstPitch: nat,
                     src: seq<byte>, srcPitch: nat, rowLen: nat, rows: nat, y: nat, x: nat)
    requires dstPitch > 0 && rowLen <= dstPitch && FitsRows(|src|, srcPitch, rowLen, rows)
    requires RowsCopied(d, prior, dstPitch, src, srcPitch, rowLen, rows)
    requires y < rows && x < rowLen && dstPitch * y + x < |d|
    ensures srcPitch * y + x < |src| && d[dstPitch * y + x] == src[srcPitch * y + x]
  {
    DivModUnique(dstPitch * y + x, dstPitch, y, x);
    MulMonotone(srcPitch, y, rows - 1);
    assert RowByteOk(d[dstPitch * y + x], prior[dstPitch * y + x], dstPitch * y + x, dstPitch, src, srcPitch, rowLen, rows);
  }

  /** A zeroed buffer of `len` bytes with `rows` source rows copied in at pitch `dstPitch`. */
  function PaddedCopy(len: nat, dstPitch: nat, src: seq<byte>, srcPitch: nat, rowLen: nat, rows: nat): (r: seq<byte>)
    requires dstPitch > 0
    ensures RowsCopied(r, Zeros(len), dstPitch, src, srcPitch, rowLen, rows)
  {
    seq(len, j requires 0 <= j < len =>
      if InCopiedRow(j, dstPitch, rowLen, rows) then SrcByte(src, srcPitch, j / dstPitch, j % dstPitch) else 0)
  }

  /** A row copy onto a given buffer has exactly one result. */
  lemma RowsCopiedUnique(d1: seq<byte>, d2: seq<byte>, prior: seq<byte>, dstPitch: nat,
                         src: seq<byte>, srcPitch: nat, rowLen: nat, rows: nat)
    requires dstPitch > 0
    requires RowsCopied(d1, prior, dstPitch, src, srcPitch, rowLen, rows)
    requires RowsCopied(d2, prior, dstPitch, src, srcPitch, rowLen, rows)
    ensures d1 == d2
  {
    forall j | 0 <= j < |d1|
      ensures d1[j] == d2[j]
    {
      assert RowByteOk(d1[j], prior[j], j, dstPitch, src, srcPitch, rowLen, rows);
      assert RowByteOk(d2[j], prior[j], j, dstPitch, src, srcPitch, rowLen, rows);
    }
  }
}
