/** What the loader learns from the file system and the external decoders. A file is described
    by what each read or decoder call returns for it: the parsed fixed-layout headers (with a
    flag for whether the read returned the whole header), the bytes after a DDS header, and the
    results of the PNG, ZIM and KTX2 decoders, whose internals are not part of this model. */
module Vfs {
  import opened Formats

  /** The KTX2 header fields the loader reads. */
  datatype KtxHeader = KtxHeader(complete: bool, pixelWidth: nat, pixelHeight: nat, levelCount: nat, layerCount: nat)

  /** The DDS header fields the loader reads; `fourCCFlag` is DDPF_FOURCC in the pixel-format flags. */
  datatype DdsHeader = DdsHeader(complete: bool, fourCCFlag: bool, fourCC: u32, width: nat, height: nat, mipMapCount: nat)

  /** The DX10 extension header (only its DXGI format code matters). */
  datatype Dx10Header = Dx10Header(complete: bool, dxgiFormat: u32)

  /** The 16-byte ZIM header. */
  datatype ZimHeader = ZimHeader(complete: bool, w: nat, h: nat, flags: u32)

  /** The PNG header peek: whether it holds a valid PNG header, and the declared size. */
  datatype PngPeek = PngPeek(complete: bool, validSignature: bool, width: nat, height: nat)

  /** What the KTX2 transcoder reports for one embedded level. */
  datatype KtxLevelInfo = KtxLevelInfo(origWidth: nat, origHeight: nat, totalBlocks: nat)

  datatype BasisEncoding = ETC1S | UASTC | OtherEncoding

  /** The KTX2 transcoder's view of a file: whether it initialises, the payload encoding, the
      per-level info and the bytes it writes for each level. */
  datatype KtxTranscoder = KtxTranscoder(initOk: bool, encoding: BasisEncoding,
                                         levels: seq<KtxLevelInfo>, output: seq<seq<byte>>)

  /** A decoded ZIM image: `w` by `h` RGBA8 pixels, tightly packed. */
  datatype ZimImage = ZimImage(w: nat, h: nat, pixels: seq<byte>)
  type ZimPixels = z: ZimImage | |z.pixels| == z.w * z.h * 4 witness ZimImage(0, 0, [])

  /** What libpng's begin-read reports. */
  datatype PngImage = PngImage(width: nat, height: nat, hasAlpha: bool)

  datatype ImageFile = ImageFile(
    opens: bool,                     // opening the file for reading succeeds
    head: seq<byte>,                 // what a 4-byte read at the start returns
    ktx: KtxHeader,
    dds: DdsHeader,
    dx10: Dx10Header,
    zim: ZimHeader,
    png: PngPeek,
    ddsBody: seq<byte>,              // the bytes after the DDS header(s)
    transcoder: KtxTranscoder,
    zimReadOk: bool,                 // reading the whole file returns its full size
    zimImage: Option<ZimPixels>,     // the ZIM decoder's result
    pngImage: Option<PngImage>,      // libpng's begin-read result
    pngPixels: Option<seq<byte>>,    // libpng's finish-read output
    alphaCheck: CheckAlphaResult)    // the alpha scan of the decoded pixels

  /** Looking a name up gives a file reference exactly when the name is present. */
  type FileSystem = map<string, ImageFile>
}
