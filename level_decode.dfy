/** Loading one candidate file into mip levels: the header stage (dimensions, level count and
    pixel format per container type), the DDS and KTX2 format choices, the per-format level
    arithmetic and the resulting change to the texture's levels and the shared cache. */
module LevelDecode {
  import opened Formats
  import opened Sniff
  import opened LevelMath
  import opened Rows
  import opened Vfs

  /** One mip level: its size and the file it keeps a reference to, if any. */
  datatype Level = Level(w: nat, h: nat, fileRef: Option<string>)

  /** The sizes and GPU capabilities of one decode attempt: level sizes are rescaled by w/newW
      and h/newH. */
  datatype DecodeParams = DecodeParams(w: nat, h: nat, newW: pos, newH: pos, support: FormatSupport)

  /** A positive target size: the rescale divides by it. */
  type pos = x: int | x > 0 witness 1

  /** What loading a level reads and changes: the texture's levels, the shared cache's level
      buffers and pixel format, and the texture's alpha classification. */
  datatype DecodeState = DecodeState(levels: seq<Level>, data: seq<seq<byte>>, cacheFmt: DataFormat, alpha: Alpha)

  /** The outcome of loading one candidate file. */
  datatype Step = Step(result: LoadLevelResult, pixelFormat: DataFormat, state: DecodeState)

  /** A byte vector resized to `n`: cut, or extended with zeros. */
  function Fit(s: seq<byte>, n: nat): (r: seq<byte>)
    ensures |r| == n
    ensures forall i :: 0 <= i < n ==> r[i] == if i < |s| then s[i] else 0
  {
    if |s| >= n then s[..n] else s + Zeros(n - |s|)
  }

  /** The vector of level buffers resized to `n`: cut, or extended with empty buffers. */
  function Grow(data: seq<seq<byte>>, n: nat): (r: seq<seq<byte>>)
    ensures |r| == n
    ensures forall i :: 0 <= i < n ==> r[i] == if i < |data| then data[i] else []
  {
    if n <= |data| then data[..n] else data + seq(n - |data|, _ => [])
  }

  /** `data` with the buffers `bufs` stored from slot `at` on. */
  function Place(data: seq<seq<byte>>, at: nat, bufs: seq<seq<byte>>): (r: seq<seq<byte>>)
    requires at + |bufs| <= |data|
    ensures |r| == |data|
    ensures forall i :: 0 <= i < |data| ==>
      r[i] == if at <= i < at + |bufs| then bufs[i - at] else data[i]
  {
    data[..at] + bufs + data[at + |bufs|..]
  }

  /** The little-endian 32-bit code of a four-character tag. */
  function FourCC(s: string): u32
    requires |s| == 4 && IsAscii(s)
  {
    s[0] as int + 0x100 * s[1] as int + 0x1_0000 * s[2] as int + 0x100_0000 * s[3] as int
  }

  const FOURCC_DX10: u32 := FourCC("DX10")
  const FOURCC_DXT1: u32 := FourCC("DXT1")
  const FOURCC_DXT3: u32 := FourCC("DXT3")
  const FOURCC_DXT5: u32 := FourCC("DXT5")

  /** DXGI_FORMAT_BC7_UNORM and DXGI_FORMAT_BC7_UNORM_SRGB. */
  const DXGI_BC7_UNORM: u32 := 98
  const DXGI_BC7_UNORM_SRGB: u32 := 99

  /** The container type, from the first four bytes of the file. */
  function IdentifyKind(head: seq<byte>): ReplacedImageType {
    if |head| < 4 then INVALID else IdentifyMagic(head[..4])
  }

  datatype Resolved = Resolved(good: bool, format: DataFormat)

  /** The pixel format of a DDS file: BC7 from a DX10 header with DXGI code 98 or 99, BC1, BC2 or
      BC3 from the legacy FOURCC tags DXT1, DXT3 or DXT5; any other code, a file without a FOURCC,
      a short header read or a GPU without the family fails. */
  function DdsResolve(hdr: DdsHeader, dx10: Dx10Header, s: FormatSupport): (r: Resolved)
    ensures r.good ==> Supported(r.format, s) && BlockSize(r.format).Some?
    ensures r.good ==> hdr.complete && hdr.fourCCFlag
    ensures r.good && r.format == BC7_UNORM_BLOCK <==>
      hdr.complete && hdr.fourCCFlag && hdr.fourCC == FOURCC_DX10 && dx10.complete && s.bc7 &&
      (dx10.dxgiFormat == DXGI_BC7_UNORM || dx10.dxgiFormat == DXGI_BC7_UNORM_SRGB)
    ensures r.good && r.format == BC1_RGBA_UNORM_BLOCK <==>
      hdr.complete && hdr.fourCCFlag && hdr.fourCC == FOURCC_DXT1 && s.bc123
    ensures r.good && r.format == BC2_UNORM_BLOCK <==>
      hdr.complete && hdr.fourCCFlag && hdr.fourCC == FOURCC_DXT3 && s.bc123
    ensures r.good && r.format == BC3_UNORM_BLOCK <==>
      hdr.complete && hdr.fourCCFlag && hdr.fourCC == FOURCC_DXT5 && s.bc123
  {
    if !hdr.complete || !hdr.fourCCFlag then Resolved(false, UNDEFINED)
    else if hdr.fourCC == FOURCC_DX10 then
      if dx10.dxgiFormat == DXGI_BC7_UNORM || dx10.dxgiFormat == DXGI_BC7_UNORM_SRGB then
        Resolved(dx10.complete && s.bc7, BC7_UNORM_BLOCK)
      else Resolved(false, UNDEFINED)
    else
      var f :=
        if hdr.fourCC == FOURCC_DXT1 then BC1_RGBA_UNORM_BLOCK
        else if hdr.fourCC == FOURCC_DXT3 then BC2_UNORM_BLOCK
        else if hdr.fourCC == FOURCC_DXT5 then BC3_UNORM_BLOCK
        else UNDEFINED;
      Resolved(s.bc123 && f != UNDEFINED, f)
  }

  datatype KtxChoice = KtxChoice(format: DataFormat, alpha: Alpha)

  /** The transcode target of a KTX2 payload: for ETC1S, BC1, else ETC2, else RGBA8, always
      classified opaque; for UASTC, BC7, else ASTC 4x4, else RGBA8, alpha unknown; None for any
      other payload. */
  function KtxTarget(enc: BasisEncoding, s: FormatSupport): (r: Option<KtxChoice>)
    ensures r.None? <==> enc == OtherEncoding
    ensures r.Some? ==> Supported(r.value.format, s)
    ensures r.Some? ==> (r.value.alpha == FULL <==> enc == ETC1S)
    ensures r.Some? && r.value.format == R8G8B8A8_UNORM <==>
      (enc == ETC1S && !s.bc123 && !s.etc2) || (enc == UASTC && !s.bc7 && !s.astc)
    ensures enc == ETC1S ==> r.Some? && (r.value.format == BC1_RGBA_UNORM_BLOCK <==> s.bc123)
    ensures enc == UASTC ==> r.Some? && (r.value.format == BC7_UNORM_BLOCK <==> s.bc7)
  {
    match enc
    case ETC1S =>
      Some(KtxChoice(if s.bc123 then BC1_RGBA_UNORM_BLOCK
                     else if s.etc2 then ETC2_R8G8B8_UNORM_BLOCK
                     else R8G8B8A8_UNORM, FULL))
    case UASTC =>
      Some(KtxChoice(if s.bc7 then BC7_UNORM_BLOCK
                     else if s.astc then ASTC_4x4_UNORM_BLOCK
                     else R8G8B8A8_UNORM, UNKNOWN))
    case OtherEncoding => None
  }

  /** What the header stage learns: whether the file is usable so far, the declared size, the
      number of levels it embeds and the pixel format. */
  datatype HeaderInfo = HeaderInfo(good: bool, w: nat, h: nat, numMips: nat, pixelFormat: DataFormat)

  /** ZIM_FORMAT_MASK and ZIM_RGBA8888. */
  const ZIM_FORMAT_MASK: nat := 15
  const ZIM_RGBA8888: nat := 0

  /** The header stage of one file. `pf` is the caller's pixel format, which KTX2, BASIS and
      unrecognised files leave as it was. */
  function HeaderStage(kind: ReplacedImageType, f: ImageFile, s: FormatSupport, pf: DataFormat): (r: HeaderInfo)
    ensures r.good ==> kind != BASIS && kind != INVALID
    ensures kind == DDS && r.good ==> BlockSize(r.pixelFormat).Some? && Supported(r.pixelFormat, s)
    ensures kind == KTX2 ==> (r.good <==> f.ktx.complete && f.ktx.layerCount <= 1)
    ensures kind == DDS ==> r.good == DdsResolve(f.dds, f.dx10, s).good && r.pixelFormat == DdsResolve(f.dds, f.dx10, s).format
    ensures kind == ZIM ==> (r.good <==> f.zim.complete && f.zim.flags % (ZIM_FORMAT_MASK + 1) == ZIM_RGBA8888)
    ensures kind == PNG ==> (r.good <==> f.png.complete && f.png.validSignature)
    ensures (kind == ZIM || kind == PNG) ==> r.pixelFormat == R8G8B8A8_UNORM && r.numMips == 1
    ensures (kind == KTX2 || kind == BASIS || kind == INVALID) ==> r.pixelFormat == pf
  {
    match kind
    case KTX2 =>
      HeaderInfo(f.ktx.complete && f.ktx.layerCount <= 1, f.ktx.pixelWidth, f.ktx.pixelHeight,
                 f.ktx.levelCount, pf)
    case BASIS => HeaderInfo(false, 0, 0, 1, pf)
    case DDS =>
      var res := DdsResolve(f.dds, f.dx10, s);
      HeaderInfo(res.good, f.dds.width, f.dds.height, f.dds.mipMapCount, res.format)
    case ZIM =>
      HeaderInfo(f.zim.complete && f.zim.flags % (ZIM_FORMAT_MASK + 1) == ZIM_RGBA8888,
                 f.zim.w, f.zim.h, 1, R8G8B8A8_UNORM)
    case PNG =>
      var ok := f.png.complete && f.png.validSignature;
      HeaderInfo(ok, if ok then f.png.width else 0, if ok then f.png.height else 0, 1, R8G8B8A8_UNORM)
    case INVALID => HeaderInfo(false, 0, 0, 1, pf)
  }

  /** A level above 0 is accepted only at exactly level 0's size shifted by the mip index. When
      no level 0 exists the level is refused. */
  predicate SizeAccepted(levels: seq<Level>, mipLevel: nat, w: nat, h: nat) {
    mipLevel == 0 || (|levels| > 0 && MipSizeMatches(levels[0].w, levels[0].h, mipLevel, w, h))
  }

  // ---------------------------------------------------------------- DDS mip chains

  /** The levels a DDS file with `n` embedded mips contributes: each halves the previous one with
      a floor of 1, and only level 0 keeps the file reference. */
  function DdsLevels(w: nat, h: nat, n: nat, name: string): (r: seq<Level>)
    ensures |r| == n
  {
    seq(n, i requires 0 <= i < n => Level(MipExtent(w, i), MipExtent(h, i), if i == 0 then Some(name) else None))
  }

  /** The byte size of each level of a DDS chain of `n` mips, halving the extents level by level. */
  function DdsSizes(w: nat, h: nat, blockSize: nat, n: nat): (r: seq<nat>)
    ensures |r| == n
    decreases n
  {
    if n == 0 then [] else [DdsLevelSize(w, h, blockSize)] + DdsSizes(Halve(w), Halve(h), blockSize, n - 1)
  }

  /** Consecutive reads of `sizes[0]`, `sizes[1]`, ... bytes from `body`, each into a buffer of
      the requested size: a short read leaves zeros at the end, and once the body is used up the
      buffers are all zeros. */
  function Chunks(sizes: seq<nat>, body: seq<byte>): (r: seq<seq<byte>>)
    ensures |r| == |sizes|
    ensures forall i :: 0 <= i < |sizes| ==> |r[i]| == sizes[i]
    decreases |sizes|
  {
    if |sizes| == 0 then []
    else
      var got := if |body| < sizes[0] then body else body[..sizes[0]];
      [Fit(got, sizes[0])] + Chunks(sizes[1..], body[|got|..])
  }

  /** The buffers of the DDS chain: level after level, a read of DdsLevelSize bytes from the rest
      of the file. */
  function DdsBuffers(w: nat, h: nat, blockSize: nat, n: nat, body: seq<byte>): seq<seq<byte>>
    decreases n
  {
    if n == 0 then []
    else
      var size := DdsLevelSize(w, h, blockSize);
      var got := if |body| < size then body else body[..size];
      [Fit(got, size)] + DdsBuffers(Halve(w), Halve(h), blockSize, n - 1, body[|got|..])
  }

  lemma {:induction false} MipExtentStep(x: nat, i: nat)
    ensures MipExtent(Halve(x), i) == MipExtent(x, i + 1)
  {
    if i > 0 {
      MipExtentStep(x, i - 1);
    }
  }

  lemma DdsSizesCons(w: nat, h: nat, blockSize: nat, n: nat)
    requires n > 0
    ensures DdsSizes(w, h, blockSize, n) == [DdsLevelSize(w, h, blockSize)] + DdsSizes(Halve(w), Halve(h), blockSize, n - 1)
  {
  }

  lemma ChunksCons(size: nat, sizes: seq<nat>, body: seq<byte>)
    ensures var got := if |body| < size then body else body[..size];
      Chunks([size] + sizes, body) == [Fit(got, size)] + Chunks(sizes, body[|got|..])
  {
    assert ([size] + sizes)[1..] == sizes;
  }

  /** Level `i` of the chain has the size of mip `i`'s extents. */
  lemma {:induction false} DdsSizesAt(w: nat, h: nat, blockSize: nat, n: nat, i: nat)
    requires i < n
    ensures DdsSizes(w, h, blockSize, n)[i] == DdsLevelSize(MipExtent(w, i), MipExtent(h, i), blockSize)
    decreases i
  {
    if i > 0 {
      DdsSizesAt(Halve(w), Halve(h), blockSize, n - 1, i - 1);
      MipExtentStep(w, i - 1);
      MipExtentStep(h, i - 1);
    }
  }

  /** The chain's buffers are the body cut into chunks of the level sizes. */
  lemma {:induction false} DdsBuffersAreChunks(w: nat, h: nat, blockSize: nat, n: nat, body: seq<byte>)
    ensures DdsBuffers(w, h, blockSize, n, body) == Chunks(DdsSizes(w, h, blockSize, n), body)
    decreases n
  {
    if n > 0 {
      var size := DdsLevelSize(w, h, blockSize);
      var got := if |body| < size then body else body[..size];
      DdsBuffersAreChunks(Halve(w), Halve(h), blockSize, n - 1, body[|got|..]);
      DdsSizesCons(w, h, blockSize, n);
      ChunksCons(size, DdsSizes(Halve(w), Halve(h), blockSize, n - 1), body);
    }
  }

  /** A DDS chain of `n` mips has `n` buffers, buffer `i` sized for the extents of mip `i`. */
  lemma DdsBufferSizes(w: nat, h: nat, blockSize: nat, n: nat, body: seq<byte>)
    ensures |DdsBuffers(w, h, blockSize, n, body)| == n
    ensures forall i :: 0 <= i < n ==>
      |DdsBuffers(w, h, blockSize, n, body)[i]| == DdsLevelSize(MipExtent(w, i), MipExtent(h, i), blockSize)
  {
    DdsBuffersAreChunks(w, h, blockSize, n, body);
    forall i | 0 <= i < n
      ensures DdsSizes(w, h, blockSize, n)[i] == DdsLevelSize(MipExtent(w, i), MipExtent(h, i), blockSize)
    {
      DdsSizesAt(w, h, blockSize, n, i);
    }
  }

  /** After `i` reads of the DDS loop: the running extents are mip i's, the levels pushed so far
      are the chain's first `i`, and the buffers read so far followed by the chain read from
      `rest` are the whole chain's buffers. */
  predicate DdsReadSoFar(w: nat, h: nat, blockSize: nat, numMips: nat, body: seq<byte>, name: string,
                         i: nat, cw: nat, ch: nat, rest: seq<byte>, levels: seq<Level>, bufs: seq<seq<byte>>)
  {
    && i <= numMips
    && cw == MipExtent(w, i) && ch == MipExtent(h, i)
    && levels == DdsLevels(w, h, i, name)
    && bufs + DdsBuffers(cw, ch, blockSize, numMips - i, rest) == DdsBuffers(w, h, blockSize, numMips, body)
  }

  /** Reads the `numMips` levels of a DDS file one after the other. */
  method ReadDdsChain(w: nat, h: nat, blockSize: nat, numMips: nat, body: seq<byte>, name: string)
    returns (levels: seq<Level>, bufs: seq<seq<byte>>)
    ensures levels == DdsLevels(w, h, numMips, name)
    ensures bufs == DdsBuffers(w, h, blockSize, numMips, body)
  {
    var cw, ch, rest := w, h, body;
    levels, bufs := [], [];
    var i := 0;
    while i < numMips
      invariant DdsReadSoFar(w, h, blockSize, numMips, body, name, i, cw, ch, rest, levels, bufs)
      decreases numMips - i
    {
      cw, ch, rest, levels, bufs := ReadDdsLevel(w, h, blockSize, numMips, body, name, i, cw, ch, rest, levels, bufs);
      i := i + 1;
    }
  }

  /** One pass of the DDS loop at level `i`: read the level's bytes, push the level (keeping the
      file reference at level 0 only) and halve the extents. */
  method ReadDdsLevel(w: nat, h: nat, blockSize: nat, numMips: nat, body: seq<byte>, name: string,
                      i: nat, cw: nat, ch: nat, rest: seq<byte>, levels: seq<Level>, bufs: seq<seq<byte>>)
    returns (cw': nat, ch': nat, rest': seq<byte>, levels': seq<Level>, bufs': seq<seq<byte>>)
    requires i < numMips && DdsReadSoFar(w, h, blockSize, numMips, body, name, i, cw, ch, rest, levels, bufs)
    ensures DdsReadSoFar(w, h, blockSize, numMips, body, name, i + 1, cw', ch', rest', levels', bufs')
  {
    var size := DdsLevelSize(cw, ch, blockSize);
    var got := if |rest| < size then rest else rest[..size];
    DdsBuffersStep(bufs, cw, ch, blockSize, numMips - i, rest);
    DdsLevelsSnoc(w, h, i, name);
    bufs' := bufs + [Fit(got, size)];
    levels' := levels + [Level(cw, ch, if i == 0 then Some(name) else None)];
    rest' := rest[|got|..];
    cw', ch' := Halve(cw), Halve(ch);
    assert cw' == MipExtent(w, i + 1) && ch' == MipExtent(h, i + 1);
    assert levels' == DdsLevels(w, h, i + 1, name);
    assert numMips - (i + 1) == numMips - i - 1;
    assert bufs' + DdsBuffers(cw', ch', blockSize, numMips - (i + 1), rest') == DdsBuffers(w, h, blockSize, numMips, body);
  }

  /** One read of the DDS loop: the buffers so far followed by the rest of the chain are the
      buffers with this level's read appended, followed by the chain after it. */
  lemma DdsBuffersStep(bufs: seq<seq<byte>>, w: nat, h: nat, blockSize: nat, n: nat, body: seq<byte>)
    requires n > 0
    ensures var size := DdsLevelSize(w, h, blockSize);
      var got := if |body| < size then body else body[..size];
      bufs + DdsBuffers(w, h, blockSize, n, body) ==
        (bufs + [Fit(got, size)]) + DdsBuffers(Halve(w), Halve(h), blockSize, n - 1, body[|got|..])
  {
    var size := DdsLevelSize(w, h, blockSize);
    var got := if |body| < size then body else body[..size];
    var tail := DdsBuffers(Halve(w), Halve(h), blockSize, n - 1, body[|got|..]);
    assert DdsBuffers(w, h, blockSize, n, body) == [Fit(got, size)] + tail;
    assert bufs + ([Fit(got, size)] + tail) == (bufs + [Fit(got, size)]) + tail;
  }

  lemma DdsLevelsSnoc(w: nat, h: nat, i: nat, name: string)
    ensures DdsLevels(w, h, i + 1, name) ==
      DdsLevels(w, h, i, name) + [Level(MipExtent(w, i), MipExtent(h, i), if i == 0 then Some(name) else None)]
  {
    assert forall k :: 0 <= k < i ==> DdsLevels(w, h, i + 1, name)[k] == DdsLevels(w, h, i, name)[k];
  }

  // ---------------------------------------------------------------- KTX2 mip chains

  function InfoAt(t: KtxTranscoder, i: nat): KtxLevelInfo {
    if i < |t.levels| then t.levels[i] else KtxLevelInfo(0, 0, 0)
  }

  function OutputAt(t: KtxTranscoder, i: nat): seq<byte> {
    if i < |t.output| then t.output[i] else []
  }

  /** Bytes of one transcoded level: whole blocks for a compressed target, 4 bytes per texel of
      the level's original size for RGBA8. */
  function KtxLevelBytes(info: KtxLevelInfo, f: DataFormat): nat {
    match BlockSize(f)
    case Some(bs) => info.totalBlocks * bs
    case None => info.origWidth * info.origHeight * 4
  }

  function KtxLevels(t: KtxTranscoder, n: nat, name: string): (r: seq<Level>)
    ensures |r| == n
  {
    seq(n, i requires 0 <= i < n =>
      Level(InfoAt(t, i).origWidth, InfoAt(t, i).origHeight, if i == 0 then Some(name) else None))
  }

  function KtxBuffers(t: KtxTranscoder, f: DataFormat, n: nat): (r: seq<seq<byte>>)
    ensures |r| == n
    ensures forall i :: 0 <= i < n ==> |r[i]| == KtxLevelBytes(InfoAt(t, i), f)
  {
    seq(n, i requires 0 <= i < n => Fit(OutputAt(t, i), KtxLevelBytes(InfoAt(t, i), f)))
  }

  lemma KtxSnoc(t: KtxTranscoder, f: DataFormat, i: nat, name: string)
    ensures KtxLevels(t, i + 1, name) == KtxLevels(t, i, name) +
      [Level(InfoAt(t, i).origWidth, InfoAt(t, i).origHeight, if i == 0 then Some(name) else None)]
    ensures KtxBuffers(t, f, i + 1) == KtxBuffers(t, f, i) + [Fit(OutputAt(t, i), KtxLevelBytes(InfoAt(t, i), f))]
  {
    assert forall k :: 0 <= k < i ==> KtxLevels(t, i + 1, name)[k] == KtxLevels(t, i, name)[k];
    assert forall k :: 0 <= k < i ==> KtxBuffers(t, f, i + 1)[k] == KtxBuffers(t, f, i)[k];
  }

  /** Transcodes the `numMips` levels of a KTX2 file into buffers sized from the transcoder's own
      per-level counts. */
  method TranscodeKtxChain(t: KtxTranscoder, f: DataFormat, numMips: nat, name: string)
    returns (levels: seq<Level>, bufs: seq<seq<byte>>)
    ensures levels == KtxLevels(t, numMips, name)
    ensures bufs == KtxBuffers(t, f, numMips)
  {
    levels, bufs := [], [];
    var i := 0;
    while i < numMips
      invariant 0 <= i <= numMips
      invariant levels == KtxLevels(t, i, name)
      invariant bufs == KtxBuffers(t, f, i)
    {
      var info := InfoAt(t, i);
      var dataSizeBytes := KtxLevelBytes(info, f);
      KtxSnoc(t, f, i, name);
      bufs := bufs + [Fit(OutputAt(t, i), dataSizeBytes)];
      levels := levels + [Level(info.origWidth, info.origHeight, if i == 0 then Some(name) else None)];
      i := i + 1;
    }
  }

  // ---------------------------------------------------------------- ZIM padding

  /** A decoded `img.w` x `img.h` image copied row by row into a zeroed `levelW` x `levelH`
      RGBA8 buffer whose rows are `levelW * 4` bytes apart. */
  function ZimPadded(img: ZimPixels, levelW: nat, levelH: nat): (r: seq<byte>)
    requires img.w <= levelW && img.h <= levelH
    ensures |r| == levelW * levelH * 4
    ensures levelW > 0 ==> (FitsRows(|img.pixels|, img.w * 4, img.w * 4, img.h) &&
      RowsCopied(r, Zeros(levelW * levelH * 4), levelW * 4, img.pixels, img.w * 4, img.w * 4, img.h))
  {
    if levelW == 0 then Zeros(0)
    else
      ZimFits(img, levelW, levelH);
      PaddedCopy(levelW * levelH * 4, levelW * 4, img.pixels, img.w * 4, img.w * 4, img.h)
  }

  lemma ZimFits(img: ZimPixels, levelW: nat, levelH: nat)
    requires img.w <= levelW && img.h <= levelH
    ensures FitsRows(|img.pixels|, img.w * 4, img.w * 4, img.h)
    ensures FitsRows(levelW * levelH * 4, levelW * 4, img.w * 4, img.h)
  {
    if img.h > 0 {
      assert img.w * 4 * (img.h - 1) + img.w * 4 == img.w * img.h * 4;
      MulMonotone(levelW * 4, img.h, levelH);
      assert levelW * 4 * (img.h - 1) + img.w * 4 <= levelW * 4 * img.h;
      assert levelW * 4 * levelH == levelW * levelH * 4;
    }
  }

  /** Pads a decoded ZIM image into a level buffer: one block copy when the rows are already
      `levelW * 4` bytes apart, otherwise row by row. */
  method PadZimImage(img: ZimPixels, levelW: nat, levelH: nat) returns (out: seq<byte>)
    requires img.w <= levelW && img.h <= levelH
    ensures out == ZimPadded(img, levelW, levelH)
  {
    var buf := new byte[levelW * levelH * 4](_ => 0);
    if levelW == 0 {
      return buf[..];
    }
    ZimFits(img, levelW, levelH);
    ghost var zeros := buf[..];
    assert zeros == Zeros(levelW * levelH * 4);
    if img.w == levelW {
      CopyPrefix(buf, img.pixels, img.w * 4 * img.h);
      PrefixIsPackedRows(buf[..], zeros, img.pixels, levelW * 4, img.h);
    } else {
      CopyRows(buf, levelW * 4, img.pixels, img.w * 4, img.w * 4, img.h);
    }
    out := buf[..];
    RowsCopiedUnique(out, ZimPadded(img, levelW, levelH), zeros, levelW * 4, img.pixels, img.w * 4, img.w * 4, img.h);
  }

  // ---------------------------------------------------------------- one candidate file

  /** The alpha scan result counts for the texture when it found transparency, or at level 0. */
  function CheckedAlpha(alpha: Alpha, res: CheckAlphaResult, mipLevel: nat): Alpha {
    if res == CHECKALPHA_ANY || mipLevel == 0 then AlphaFromCheck(res) else alpha
  }

  /** The KTX2 branch: the whole embedded chain is transcoded, so it never asks for more files;
      a refused file changes nothing. */
  function LoadKtx2(t: KtxTranscoder, name: string, s: FormatSupport, mipLevel: nat, numMips: nat,
                    ds: DecodeState, pf: DataFormat): (r: Step)
    ensures r.result != CONTINUE && r.state.cacheFmt == ds.cacheFmt
    ensures r.result == LOAD_ERROR ==> r == Step(LOAD_ERROR, pf, ds)
    ensures r.result == DONE ==> ds.levels <= r.state.levels && |r.state.levels| == |ds.levels| + numMips
  {
    if !t.initOk then Step(LOAD_ERROR, pf, ds)
    else match KtxTarget(t.encoding, s)
      case None => Step(LOAD_ERROR, pf, ds)
      case Some(c) =>
        var data := Grow(ds.data, mipLevel + numMips);
        Step(DONE, c.format,
             DecodeState(ds.levels + KtxLevels(t, numMips, name),
                         Place(data, mipLevel, KtxBuffers(t, c.format, numMips)), ds.cacheFmt, c.alpha))
  }

  /** The DDS branch: the whole embedded chain is read, ending the walk with the header's format
      and alpha unknown. */
  function LoadDds(f: ImageFile, name: string, mipLevel: nat, numMips: nat, w: nat, h: nat,
                   ds: DecodeState, pf: DataFormat): (r: Step)
    requires BlockSize(pf).Some?
    ensures r.result == DONE && r.pixelFormat == pf && r.state.alpha == UNKNOWN && r.state.cacheFmt == ds.cacheFmt
    ensures ds.levels <= r.state.levels && |r.state.levels| == |ds.levels| + numMips
  {
    var data := Grow(ds.data, mipLevel + numMips);
    var bufs := DdsBuffers(w, h, BlockSize(pf).value, numMips, f.ddsBody);
    DdsBufferSizes(w, h, BlockSize(pf).value, numMips, f.ddsBody);
    Step(DONE, pf, DecodeState(ds.levels + DdsLevels(w, h, numMips, name),
                               Place(data, mipLevel, bufs), ds.cacheFmt, UNKNOWN))
  }

  /** The ZIM branch: one RGBA8 level at most, and the walk goes on unless the read failed or
      the image outgrew its header. */
  function LoadZim(f: ImageFile, name: string, mipLevel: nat, w: nat, h: nat, ds: DecodeState): (r: Step)
    requires mipLevel < |ds.data|
    ensures r.result != DONE && r.pixelFormat == R8G8B8A8_UNORM && r.state.cacheFmt == ds.cacheFmt
    ensures r.result == LOAD_ERROR ==> r.state == ds
    ensures r.state.levels == ds.levels || r.state.levels == ds.levels + [Level(w, h, Some(name))]
  {
    if !f.zimReadOk then Step(LOAD_ERROR, R8G8B8A8_UNORM, ds)
    else match f.zimImage
      case None => Step(CONTINUE, R8G8B8A8_UNORM, ds)
      case Some(img) =>
        if img.w > w || img.h > h then Step(LOAD_ERROR, R8G8B8A8_UNORM, ds)
        else Step(CONTINUE, R8G8B8A8_UNORM,
                  DecodeState(ds.levels + [Level(w, h, Some(name))],
                              ds.data[mipLevel := ZimPadded(img, w, h)], ds.cacheFmt,
                              CheckedAlpha(ds.alpha, f.alphaCheck, mipLevel)))
  }

  /** The PNG branch: one RGBA8 level, added exactly when the walk goes on. */
  function LoadPng(f: ImageFile, name: string, mipLevel: nat, w: nat, h: nat, ds: DecodeState): (r: Step)
    requires mipLevel < |ds.data|
    ensures r.result != DONE && r.pixelFormat == R8G8B8A8_UNORM && r.state.cacheFmt == ds.cacheFmt
    ensures r.result == LOAD_ERROR ==> r.state.levels == ds.levels
    ensures r.result == CONTINUE ==> r.state.levels == ds.levels + [Level(w, h, Some(name))]
  {
    match f.pngImage
    case None => Step(LOAD_ERROR, R8G8B8A8_UNORM, ds)
    case Some(png) =>
      if png.width > w || png.height > h then Step(LOAD_ERROR, R8G8B8A8_UNORM, ds)
      else
        var alpha := if !png.hasAlpha && mipLevel == 0 then FULL else ds.alpha;
        match f.pngPixels
        case None => Step(LOAD_ERROR, R8G8B8A8_UNORM, ds.(data := ds.data[mipLevel := []], alpha := alpha))
        case Some(px) =>
          Step(CONTINUE, R8G8B8A8_UNORM,
               DecodeState(ds.levels + [Level(w, h, Some(name))],
                           ds.data[mipLevel := Fit(px, w * h * 4)], ds.cacheFmt,
                           if png.hasAlpha then CheckedAlpha(alpha, f.alphaCheck, mipLevel) else alpha))
  }

  /** The level vector after making room for slot `mipLevel`. */
  function Reserve(data: seq<seq<byte>>, mipLevel: nat): (r: seq<seq<byte>>)
    ensures |r| > mipLevel
  {
    if |data| <= mipLevel then Grow(data, mipLevel + 1) else data
  }

  /** Loading candidate file `f` (named `name`) as mip level `mipLevel`: the slot is reserved
      first; a file that cannot be opened ends the search. */
  function LoadLevel(f: ImageFile, name: string, p: DecodeParams, mipLevel: nat, ds: DecodeState,
                     pf: DataFormat): (r: Step)
    ensures ds.levels <= r.state.levels && r.state.cacheFmt == ds.cacheFmt
    ensures r.result == LOAD_ERROR ==> r.state.levels == ds.levels
  {
    var ds1 := ds.(data := Reserve(ds.data, mipLevel));
    if !f.opens then Step(DONE, pf, ds1)
    else LoadOpened(f, name, p, mipLevel, ds1, pf)
  }

  /** An opened file: the header stage, the cache shortcut, the rescale and the mip-size check,
      then the per-format load. */
  function LoadOpened(f: ImageFile, name: string, p: DecodeParams, mipLevel: nat, ds: DecodeState,
                      pf: DataFormat): (r: Step)
    requires mipLevel < |ds.data|
    ensures ds.levels <= r.state.levels && r.state.cacheFmt == ds.cacheFmt
    ensures r.result == LOAD_ERROR ==> r.state.levels == ds.levels
  {
    var kind := IdentifyKind(f.head);
    var hi := HeaderStage(kind, f, p.support, pf);
    if ds.data[mipLevel] != [] then Step(DONE, ds.cacheFmt, ds)
    else
      var w := Rescale(hi.w, p.w, p.newW);
      var h := Rescale(hi.h, p.h, p.newH);
      if !hi.good || !SizeAccepted(ds.levels, mipLevel, w, h) then Step(LOAD_ERROR, hi.pixelFormat, ds)
      else LoadBody(kind, f, name, p.support, mipLevel, hi, w, h, ds)
  }

  /** The per-format load of a file whose header was accepted. */
  function LoadBody(kind: ReplacedImageType, f: ImageFile, name: string, s: FormatSupport, mipLevel: nat,
                    hi: HeaderInfo, w: nat, h: nat, ds: DecodeState): (r: Step)
    requires mipLevel < |ds.data|
    requires kind == DDS ==> BlockSize(hi.pixelFormat).Some?
    ensures ds.levels <= r.state.levels && r.state.cacheFmt == ds.cacheFmt
    ensures r.result == LOAD_ERROR ==> r.state.levels == ds.levels
  {
    match kind
    case KTX2 => LoadKtx2(f.transcoder, name, s, mipLevel, hi.numMips, ds, hi.pixelFormat)
    case DDS => LoadDds(f, name, mipLevel, hi.numMips, w, h, ds, hi.pixelFormat)
    case ZIM => LoadZim(f, name, mipLevel, w, h, ds)
    case PNG => LoadPng(f, name, mipLevel, w, h, ds)
    case BASIS => Step(LOAD_ERROR, hi.pixelFormat, ds)
    case INVALID => Step(LOAD_ERROR, hi.pixelFormat, ds)
  }

  // ---------------------------------------------------------------- properties of one load

  /** The empty-slot case: the file opens and nothing is cached for the requested level yet. */
  predicate Fresh(f: ImageFile, mipLevel: nat, ds: DecodeState) {
    f.opens && (mipLevel >= |ds.data| || ds.data[mipLevel] == [])
  }

  /** A file that cannot be opened ends the search without error; a level already in the shared
      cache ends it too, reporting the cache's format. Either way no level is added. */
  lemma LoadLevelShortcuts(f: ImageFile, name: string, p: DecodeParams, mipLevel: nat, ds: DecodeState, pf: DataFormat)
    ensures var r := LoadLevel(f, name, p, mipLevel, ds, pf);
      && (!f.opens ==> r.result == DONE && r.pixelFormat == pf)
      && (f.opens && mipLevel < |ds.data| && ds.data[mipLevel] != [] ==>
            r == Step(DONE, ds.cacheFmt, ds))
      && (!Fresh(f, mipLevel, ds) ==> r.state.levels == ds.levels && r.state.alpha == ds.alpha)
  {
  }

  /** A separately stored level above 0 whose rescaled size is not exactly level 0's size shifted
      by the mip index is refused, and nothing is added. */
  lemma MipSizeMismatchRejected(f: ImageFile, name: string, p: DecodeParams, mipLevel: nat, ds: DecodeState, pf: DataFormat)
    requires Fresh(f, mipLevel, ds) && mipLevel > 0 && |ds.levels| > 0
    requires var hi := HeaderStage(IdentifyKind(f.head), f, p.support, pf);
      !MipSizeMatches(ds.levels[0].w, ds.levels[0].h, mipLevel,
                      Rescale(hi.w, p.w, p.newW), Rescale(hi.h, p.h, p.newH))
    ensures LoadLevel(f, name, p, mipLevel, ds, pf).result == LOAD_ERROR
    ensures LoadLevel(f, name, p, mipLevel, ds, pf).state.levels == ds.levels
  {
  }

  /** BASIS files and unrecognised streams are refused once the file opens and the slot is free. */
  lemma UnsupportedContainerRejected(f: ImageFile, name: string, p: DecodeParams, mipLevel: nat, ds: DecodeState, pf: DataFormat)
    requires Fresh(f, mipLevel, ds)
    requires IdentifyKind(f.head) == BASIS || IdentifyKind(f.head) == INVALID
    ensures LoadLevel(f, name, p, mipLevel, ds, pf) ==
      Step(LOAD_ERROR, pf, ds.(data := Reserve(ds.data, mipLevel)))
  {
  }

  /** A file whose header stage fails (a short read, a KTX2 file with layers, a DDS format the
      GPU lacks, a ZIM file that is not RGBA8888, a PNG without a valid signature) is refused once
      the slot is free: LOAD_ERROR with the header's pixel format, and only the slot reserved. */
  lemma HeaderRefused(f: ImageFile, name: string, p: DecodeParams, mipLevel: nat, ds: DecodeState, pf: DataFormat)
    requires Fresh(f, mipLevel, ds)
    requires !HeaderStage(IdentifyKind(f.head), f, p.support, pf).good
    ensures LoadLevel(f, name, p, mipLevel, ds, pf) ==
      Step(LOAD_ERROR, HeaderStage(IdentifyKind(f.head), f, p.support, pf).pixelFormat,
           ds.(data := Reserve(ds.data, mipLevel)))
  {
  }

  /** The header checks of a DDS load that gets past them. */
  predicate DdsAccepted(f: ImageFile, p: DecodeParams, mipLevel: nat, ds: DecodeState) {
    && IdentifyKind(f.head) == DDS
    && DdsResolve(f.dds, f.dx10, p.support).good
    && SizeAccepted(ds.levels, mipLevel, Rescale(f.dds.width, p.w, p.newW), Rescale(f.dds.height, p.h, p.newH))
  }

  /** A DDS file that passes the header checks ends the search with the format the header
      resolves to, and alpha unknown. */
  lemma DdsChainFormat(f: ImageFile, name: string, p: DecodeParams, mipLevel: nat, ds: DecodeState, pf: DataFormat)
    requires Fresh(f, mipLevel, ds) && DdsAccepted(f, p, mipLevel, ds)
    ensures var r := LoadLevel(f, name, p, mipLevel, ds, pf);
      && r.result == DONE && r.pixelFormat == DdsResolve(f.dds, f.dx10, p.support).format
      && r.state.alpha == UNKNOWN
  {
    LoadLevelIsDds(f, name, p, mipLevel, ds, pf);
  }

  /** `st` is `ds` with a DDS chain of `n` levels appended: level i halves `w` by `h` i times
      (floor 1) with only the first keeping the file reference, and slot mipLevel + i holds
      DdsLevelSize bytes for block size `bs`. */
  predicate DdsChainShape(st: DecodeState, ds: DecodeState, name: string, mipLevel: nat, n: nat, w: nat, h: nat, bs: nat) {
    && |st.levels| == |ds.levels| + n
    && |st.data| == mipLevel + n
    && forall i :: 0 <= i < n ==>
         && st.levels[|ds.levels| + i] ==
              Level(MipExtent(w, i), MipExtent(h, i), if i == 0 then Some(name) else None)
         && |st.data[mipLevel + i]| == DdsLevelSize(MipExtent(w, i), MipExtent(h, i), bs)
  }

  /** Such a file loads its whole embedded chain of mipMapCount levels at the rescaled size. */
  lemma DdsChainLevels(f: ImageFile, name: string, p: DecodeParams, mipLevel: nat, ds: DecodeState, pf: DataFormat)
    requires Fresh(f, mipLevel, ds) && DdsAccepted(f, p, mipLevel, ds)
    ensures DdsChainShape(LoadLevel(f, name, p, mipLevel, ds, pf).state, ds, name, mipLevel, f.dds.mipMapCount,
                          Rescale(f.dds.width, p.w, p.newW), Rescale(f.dds.height, p.h, p.newH),
                          BlockSize(DdsResolve(f.dds, f.dx10, p.support).format).value)
  {
    var w, h := Rescale(f.dds.width, p.w, p.newW), Rescale(f.dds.height, p.h, p.newH);
    var fmt := DdsResolve(f.dds, f.dx10, p.support).format;
    LoadLevelIsDds(f, name, p, mipLevel, ds, pf);
    LoadDdsShape(f, name, mipLevel, f.dds.mipMapCount, w, h, ds.(data := Reserve(ds.data, mipLevel)), fmt);
  }

  lemma LoadLevelIsDds(f: ImageFile, name: string, p: DecodeParams, mipLevel: nat, ds: DecodeState, pf: DataFormat)
    requires Fresh(f, mipLevel, ds) && DdsAccepted(f, p, mipLevel, ds)
    ensures LoadLevel(f, name, p, mipLevel, ds, pf) ==
      LoadDds(f, name, mipLevel, f.dds.mipMapCount, Rescale(f.dds.width, p.w, p.newW), Rescale(f.dds.height, p.h, p.newH),
              ds.(data := Reserve(ds.data, mipLevel)), DdsResolve(f.dds, f.dx10, p.support).format)
  {
    var hi := HeaderStage(DDS, f, p.support, pf);
    assert hi == HeaderInfo(true, f.dds.width, f.dds.height, f.dds.mipMapCount, DdsResolve(f.dds, f.dx10, p.support).format);
  }

  lemma LoadDdsShape(f: ImageFile, name: string, mipLevel: nat, n: nat, w: nat, h: nat, ds: DecodeState, fmt: DataFormat)
    requires BlockSize(fmt).Some?
    ensures DdsChainShape(LoadDds(f, name, mipLevel, n, w, h, ds, fmt).state, ds, name, mipLevel, n, w, h, BlockSize(fmt).value)
  {
    var bs := BlockSize(fmt).value;
    var bufs := DdsBuffers(w, h, bs, n, f.ddsBody);
    DdsBufferSizes(w, h, bs, n, f.ddsBody);
    var r := LoadDds(f, name, mipLevel, n, w, h, ds, fmt);
    assert r.state.data == Place(Grow(ds.data, mipLevel + n), mipLevel, bufs);
    assert r.state.levels == ds.levels + DdsLevels(w, h, n, name);
    PlacedChainShape(r.state, ds, name, mipLevel, n, w, h, bs, bufs);
  }

  /** Appending the DDS levels and placing buffers of the DDS level sizes from slot mipLevel on,
      in a vector of mipLevel + n slots, gives the chain's shape. */
  lemma PlacedChainShape(st: DecodeState, ds: DecodeState, name: string, mipLevel: nat, n: nat, w: nat, h: nat, bs: nat,
                         bufs: seq<seq<byte>>)
    requires |bufs| == n
    requires forall i :: 0 <= i < n ==> |bufs[i]| == DdsLevelSize(MipExtent(w, i), MipExtent(h, i), bs)
    requires st.levels == ds.levels + DdsLevels(w, h, n, name)
    requires st.data == Place(Grow(ds.data, mipLevel + n), mipLevel, bufs)
    ensures DdsChainShape(st, ds, name, mipLevel, n, w, h, bs)
  {
    forall i | 0 <= i < n
      ensures st.levels[|ds.levels| + i] == Level(MipExtent(w, i), MipExtent(h, i), if i == 0 then Some(name) else None)
      ensures |st.data[mipLevel + i]| == DdsLevelSize(MipExtent(w, i), MipExtent(h, i), bs)
    {
      assert st.data[mipLevel + i] == bufs[i];
    }
  }

  /** Level i of a loaded DDS chain takes ceil(w/4) * ceil(h/4) * bs bytes where its extents do
      not wrap: one `bs`-byte block per 4x4 texels, 8 bytes for BC1 and 16 for BC2, BC3 and BC7. */
  lemma ChainLevelBytes(st: DecodeState, ds: DecodeState, name: string, mipLevel: nat, n: nat, w: nat, h: nat, bs: nat, i: nat)
    requires DdsChainShape(st, ds, name, mipLevel, n, w, h, bs) && i < n && (bs == 8 || bs == 16)
    requires MipExtent(w, i) <= U32_LIMIT - 4 && MipExtent(h, i) <= U32_LIMIT - 4
    ensures |st.data[mipLevel + i]| == ((MipExtent(w, i) + 3) / 4) * ((MipExtent(h, i) + 3) / 4) * bs
  {
    var lw, lh := MipExtent(w, i), MipExtent(h, i);
    assert |st.data[mipLevel + i]| == DdsLevelSize(lw, lh, bs);
    DdsLevelSizeIsBlockCount(lw, lh, bs);
  }

  /** Where the halved extent is still at least 1 at both axes, DDS chain level i has exactly the
      size the mip-size check demands of a separately stored level i. */
  lemma DdsChainMatchesMipCheck(w: nat, h: nat, n: nat, name: string, i: nat)
    requires w >= 1 && h >= 1 && i < n
    requires ShiftRight(w, i) >= 1 && ShiftRight(h, i) >= 1
    ensures MipSizeMatches(w, h, i, DdsLevels(w, h, n, name)[i].w, DdsLevels(w, h, n, name)[i].h)
  {
    MipExtentClosedForm(w, i);
    MipExtentClosedForm(h, i);
  }

  /** The preconditions of a KTX2 load that gets past the header and transcoder checks. */
  predicate Ktx2Accepted(f: ImageFile, p: DecodeParams, mipLevel: nat, ds: DecodeState) {
    && IdentifyKind(f.head) == KTX2 && f.ktx.complete && f.ktx.layerCount <= 1
    && f.transcoder.initOk && f.transcoder.encoding != OtherEncoding
    && SizeAccepted(ds.levels, mipLevel, Rescale(f.ktx.pixelWidth, p.w, p.newW), Rescale(f.ktx.pixelHeight, p.h, p.newH))
  }

  /** A KTX2 file whose transcoder starts on an ETC1S or UASTC payload ends the search with the
      format the GPU prefers for that payload, and alpha FULL exactly for ETC1S. */
  lemma Ktx2ChainFormat(f: ImageFile, name: string, p: DecodeParams, mipLevel: nat, ds: DecodeState, pf: DataFormat)
    requires Fresh(f, mipLevel, ds) && Ktx2Accepted(f, p, mipLevel, ds)
    ensures var r := LoadLevel(f, name, p, mipLevel, ds, pf);
      && r.result == DONE
      && r.pixelFormat == KtxTarget(f.transcoder.encoding, p.support).value.format
      && Supported(r.pixelFormat, p.support)
      && (r.state.alpha == FULL <==> f.transcoder.encoding == ETC1S)
  {
    LoadLevelIsKtx2(f, name, p, mipLevel, ds, pf);
    LoadKtx2Shape(f.transcoder, name, p.support, mipLevel, f.ktx.levelCount, ds.(data := Reserve(ds.data, mipLevel)), pf);
  }

  /** Such a file loads the whole embedded chain: levelCount levels sized by the transcoder's
      original extents, only the first keeping the file reference, and each buffer sized by the
      transcoder's block count (4 bytes per texel for RGBA8). */
  lemma Ktx2ChainLevels(f: ImageFile, name: string, p: DecodeParams, mipLevel: nat, ds: DecodeState, pf: DataFormat)
    requires Fresh(f, mipLevel, ds) && Ktx2Accepted(f, p, mipLevel, ds)
    ensures var r := LoadLevel(f, name, p, mipLevel, ds, pf);
      var n := f.ktx.levelCount;
      var t := f.transcoder;
      && |r.state.levels| == |ds.levels| + n
      && |r.state.data| == mipLevel + n
      && forall i :: 0 <= i < n ==>
           && r.state.levels[|ds.levels| + i].w == InfoAt(t, i).origWidth
           && r.state.levels[|ds.levels| + i].h == InfoAt(t, i).origHeight
           && (r.state.levels[|ds.levels| + i].fileRef.Some? <==> i == 0)
           && |r.state.data[mipLevel + i]| == KtxLevelBytes(InfoAt(t, i), r.pixelFormat)
  {
    var ds1 := ds.(data := Reserve(ds.data, mipLevel));
    LoadLevelIsKtx2(f, name, p, mipLevel, ds, pf);
    LoadKtx2Shape(f.transcoder, name, p.support, mipLevel, f.ktx.levelCount, ds1, pf);
    KtxPlacedLevels(f.transcoder, name, KtxTarget(f.transcoder.encoding, p.support).value.format, mipLevel,
                    f.ktx.levelCount, ds.levels, ds1.data);
  }

  lemma LoadLevelIsKtx2(f: ImageFile, name: string, p: DecodeParams, mipLevel: nat, ds: DecodeState, pf: DataFormat)
    requires Fresh(f, mipLevel, ds) && Ktx2Accepted(f, p, mipLevel, ds)
    ensures LoadLevel(f, name, p, mipLevel, ds, pf) ==
      LoadKtx2(f.transcoder, name, p.support, mipLevel, f.ktx.levelCount, ds.(data := Reserve(ds.data, mipLevel)), pf)
  {
    var hi := HeaderStage(KTX2, f, p.support, pf);
    assert hi == HeaderInfo(true, f.ktx.pixelWidth, f.ktx.pixelHeight, f.ktx.levelCount, pf);
  }

  lemma LoadKtx2Shape(t: KtxTranscoder, name: string, s: FormatSupport, mipLevel: nat, n: nat, ds: DecodeState, pf: DataFormat)
    requires t.initOk && t.encoding != OtherEncoding
    ensures var r := LoadKtx2(t, name, s, mipLevel, n, ds, pf);
      && r.result == DONE
      && r.pixelFormat == KtxTarget(t.encoding, s).value.format
      && r.state.alpha == KtxTarget(t.encoding, s).value.alpha
      && r.state.levels == ds.levels + KtxLevels(t, n, name)
      && r.state.data == Place(Grow(ds.data, mipLevel + n), mipLevel, KtxBuffers(t, r.pixelFormat, n))
  {
  }

  lemma KtxPlacedLevels(t: KtxTranscoder, name: string, f: DataFormat, mipLevel: nat, n: nat,
                        levels: seq<Level>, data: seq<seq<byte>>)
    ensures var ls := levels + KtxLevels(t, n, name);
      var d := Place(Grow(data, mipLevel + n), mipLevel, KtxBuffers(t, f, n));
      && |ls| == |levels| + n && |d| == mipLevel + n
      && forall i :: 0 <= i < n ==>
           && ls[|levels| + i].w == InfoAt(t, i).origWidth
           && ls[|levels| + i].h == InfoAt(t, i).origHeight
           && (ls[|levels| + i].fileRef.Some? <==> i == 0)
           && |d[mipLevel + i]| == KtxLevelBytes(InfoAt(t, i), f)
  {
    var bufs := KtxBuffers(t, f, n);
    var d := Place(Grow(data, mipLevel + n), mipLevel, bufs);
    forall i | 0 <= i < n
      ensures |d[mipLevel + i]| == KtxLevelBytes(InfoAt(t, i), f)
    {
      assert d[mipLevel + i] == bufs[i];
    }
  }

  /** A KTX2 file that the transcoder cannot start, or whose payload is neither ETC1S nor UASTC,
      is refused and adds no level. */
  lemma Ktx2Refused(f: ImageFile, name: string, p: DecodeParams, mipLevel: nat, ds: DecodeState, pf: DataFormat)
    requires IdentifyKind(f.head) == KTX2
    requires !f.transcoder.initOk || f.transcoder.encoding == OtherEncoding
    ensures LoadLevel(f, name, p, mipLevel, ds, pf).result != CONTINUE
    ensures LoadLevel(f, name, p, mipLevel, ds, pf).state.levels == ds.levels
  {
  }

  /** A ZIM or PNG file that decodes within the declared size adds exactly one level at the
      rescaled size (a ZIM file the decoder rejects continues the search without one), stores a w * h * 4 byte RGBA8 buffer in its slot and continues the search. */
  lemma SingleImageLoaded(f: ImageFile, name: string, p: DecodeParams, mipLevel: nat, ds: DecodeState, pf: DataFormat)
    requires Fresh(f, mipLevel, ds)
    ensures var r := LoadLevel(f, name, p, mipLevel, ds, pf);
      var kind := IdentifyKind(f.head);
      var hi := HeaderStage(kind, f, p.support, pf);
      var w, h := Rescale(hi.w, p.w, p.newW), Rescale(hi.h, p.h, p.newH);
      (kind == PNG || (kind == ZIM && f.zimImage.Some?)) && r.result == CONTINUE ==>
        && r.pixelFormat == R8G8B8A8_UNORM
        && r.state.levels == ds.levels + [Level(w, h, Some(name))]
        && |r.state.data[mipLevel]| == w * h * 4
  {
  }

  /** A PNG whose pixel decode fails leaves its slot empty, so a later attempt does not take the
      half-written buffer for a cached level. */
  lemma PngDecodeFailureClearsSlot(f: ImageFile, name: string, p: DecodeParams, mipLevel: nat, ds: DecodeState, pf: DataFormat)
    requires Fresh(f, mipLevel, ds)
    requires IdentifyKind(f.head) == PNG && f.pngPixels.None?
    ensures var r := LoadLevel(f, name, p, mipLevel, ds, pf);
      r.result == LOAD_ERROR && r.state.data[mipLevel] == [] && r.state.levels == ds.levels
  {
  }

  /** An opaque PNG (no alpha channel) at level 0 marks the texture fully opaque. For a ZIM
      image that is stored, or a PNG with an alpha channel, the scan's result becomes the
      texture's classification at level 0 or when the scan found transparency; otherwise a
      level above 0 keeps the classification it had. */
  lemma SingleImageAlpha(f: ImageFile, name: string, p: DecodeParams, mipLevel: nat, ds: DecodeState, pf: DataFormat)
    requires Fresh(f, mipLevel, ds)
    ensures var r := LoadLevel(f, name, p, mipLevel, ds, pf);
      var kind := IdentifyKind(f.head);
      && (kind == PNG && r.result == CONTINUE && mipLevel == 0 && !f.pngImage.value.hasAlpha ==>
            r.state.alpha == FULL)
      && ((kind == ZIM || kind == PNG) && mipLevel > 0 && ds.alpha == UNKNOWN ==> r.state.alpha == UNKNOWN)
      && ((kind == ZIM && r.state.levels != ds.levels) ||
          (kind == PNG && r.result == CONTINUE && f.pngImage.value.hasAlpha) ==>
            && (mipLevel == 0 ==> r.state.alpha == AlphaFromCheck(f.alphaCheck))
            && (f.alphaCheck == CHECKALPHA_ANY ==> r.state.alpha == UNKNOWN)
            && (mipLevel > 0 && f.alphaCheck != CHECKALPHA_ANY ==> r.state.alpha == ds.alpha))
  {
  }
}
