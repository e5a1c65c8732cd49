/** Value types shared by the texture-replacement loader: bytes, the closed enums of
    ReplacedTexture.cpp and the pixel formats it can produce. */
module Formats {

  newtype byte = x: int | 0 <= x < 256

  const U32_LIMIT: int := 0x1_0000_0000

  /** An unsigned 32-bit header field. */
  type u32 = x: int | 0 <= x < U32_LIMIT

  datatype Option<+T> = None | Some(value: T)

  /** The container types the format sniffer can recognise. */
  datatype ReplacedImageType = ZIM | PNG | DDS | BASIS | KTX2 | INVALID

  /** Load progress of one replaced texture. */
  datatype ReplacementState = UNINITIALIZED | POPULATED | PENDING | ACTIVE | NOT_FOUND | CANCEL_INIT

  /** The pixel formats the loader can hand to the renderer. */
  datatype DataFormat =
    | UNDEFINED
    | R8G8B8A8_UNORM
    | BC1_RGBA_UNORM_BLOCK
    | BC2_UNORM_BLOCK
    | BC3_UNORM_BLOCK
    | BC7_UNORM_BLOCK
    | ETC2_R8G8B8_UNORM_BLOCK
    | ASTC_4x4_UNORM_BLOCK

  /** Alpha classification of a replaced texture. */
  datatype Alpha = UNKNOWN | FULL

  /** What the alpha scan of decoded RGBA8 pixels reports. */
  datatype CheckAlphaResult = CHECKALPHA_FULL | CHECKALPHA_ANY

  /** Outcome of loading one candidate file. */
  datatype LoadLevelResult = DONE | CONTINUE | LOAD_ERROR

  /** Which block-compressed families the GPU can sample. */
  datatype FormatSupport = FormatSupport(bc123: bool, bc7: bool, etc2: bool, astc: bool)

  /** The scan result is cast to the alpha enum: "any transparency" carries the same value
      as UNKNOWN, "fully opaque" the same value as FULL. */
  function AlphaFromCheck(res: CheckAlphaResult): (a: Alpha)
    ensures a == FULL <==> res == CHECKALPHA_FULL
  {
    match res
    case CHECKALPHA_FULL => FULL
    case CHECKALPHA_ANY => UNKNOWN
  }

  /** Bytes per 4x4 block of a block-compressed format, None for the others. */
  function BlockSize(f: DataFormat): (r: Option<nat>)
    ensures r.Some? ==> r.value == 8 || r.value == 16
    ensures r.None? <==> f == UNDEFINED || f == R8G8B8A8_UNORM
  {
    match f
    case BC1_RGBA_UNORM_BLOCK => Some(8)
    case ETC2_R8G8B8_UNORM_BLOCK => Some(8)
    case BC2_UNORM_BLOCK => Some(16)
    case BC3_UNORM_BLOCK => Some(16)
    case BC7_UNORM_BLOCK => Some(16)
    case ASTC_4x4_UNORM_BLOCK => Some(16)
    case _ => None
  }

  /** A format the GPU can use: RGBA8 always, a compressed one when its family is advertised. */
  predicate Supported(f: DataFormat, s: FormatSupport) {
    match f
    case UNDEFINED => false
    case R8G8B8A8_UNORM => true
    case BC1_RGBA_UNORM_BLOCK => s.bc123
    case BC2_UNORM_BLOCK => s.bc123
    case BC3_UNORM_BLOCK => s.bc123
    case BC7_UNORM_BLOCK => s.bc7
    case ETC2_R8G8B8_UNORM_BLOCK => s.etc2
    case ASTC_4x4_UNORM_BLOCK => s.astc
  }

  /** The diagnostic name of a state (POPULATED is displayed as "PREPARED"). */
  function StateString(s: ReplacementState): (r: string)
    ensures |r| >= 6 && r != "N/A"
  {
    match s
    case UNINITIALIZED => "UNINITIALIZED"
    case POPULATED => "PREPARED"
    case PENDING => "PENDING"
    case NOT_FOUND => "NOT_FOUND"
    case ACTIVE => "ACTIVE"
    case CANCEL_INIT => "CANCEL_INIT"
  }

  /** Distinct states are displayed differently, so a log line identifies the state. */
  lemma StateStringInjective(a: ReplacementState, b: ReplacementState)
    ensures StateString(a) == StateString(b) ==> a == b
  {
  }

  predicate IsAscii(s: string) {
    forall i :: 0 <= i < |s| ==> s[i] as int < 128
  }

  /** The bytes of an ASCII string literal. */
  function Ascii(s: string): (r: seq<byte>)
    requires IsAscii(s)
    ensures |r| == |s|
    ensures forall i :: 0 <= i < |s| ==> r[i] as int == s[i] as int
  {
    seq(|s|, i requires 0 <= i < |s| => s[i] as int as byte)
  }
}
