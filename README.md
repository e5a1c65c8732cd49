# PPSSPP replacement-texture loader, modelled in Dafny

PPSSPP lets users replace a game's textures with their own image files. A replaced texture
(`ReplacedTexture`) is given a list of candidate files, one per mip level, and a level cache that
every texture with the same content key shares. It then goes through a small state machine:
UNINITIALIZED, POPULATED (ready to load), PENDING (a worker is loading), then ACTIVE or NOT_FOUND,
with CANCEL_INIT during teardown. The worker walks the candidates. It sniffs each file's container
(ZIM, PNG, DDS, KTX2, or the unsupported BASIS) from its first four bytes and reads the header. It
rescales the declared size and checks the size of every level above 0. It then decodes: one level
from a ZIM or PNG file, or a whole mip chain from a DDS or KTX2 file. The renderer later copies a
finished level into its own pitched buffer.

This project models that core:

- `formats.dfy` (module `Formats`): the enums, bytes as a `newtype`, 32-bit header fields, block
  sizes, GPU format support and the state names.
- `sniff.dfy` (module `Sniff`): magic-byte recognition and the diagnostic tag. The tag
  is built by a loop, so it is a method.
- `level_math.dfy` (module `LevelMath`): the 32-bit `RoundUpTo4` with its wrap-around, the DDS
  level size, mip halving, the rescale and the mip-size check.
- `rows.dfy` (module `Rows`): the row-by-row copy between buffers with different row pitches.
  ZIM padding and `CopyLevelTo` both use it, over an `array`.
- `vfs.dfy` (module `Vfs`): what the file system and the external decoders report for one file.
- `level_decode.dfy` (module `LevelDecode`): one candidate file's load as a function
  (`LoadLevel`), with its DDS and KTX2 chain loops as methods and the properties of one load.
- `prepare_scan.dfy` (module `PrepareLoop`): the candidate walk of `Prepare` as a function
  (`PrepareScan`), with its properties.
- `replaced_texture.dfy` (module `Texture`): the classes `LevelCache` and `ReplacedTexture`. Their
  methods update fields in place as the source does. Each load method is proved equal to the
  function that specifies it, and `Prepare`'s loop is proved equal to `PrepareScan`.
- `as_written.dfy` (module `AsWritten`): the places where the code departs from what it
  evidently intends, each modelled as coded, with the input that shows the problem (see Findings).

A purge changes only the purging texture's state. It clears the level buffers of the cache, which
other textures may share, but those textures stay ACTIVE with their levels; `CopyLevelTo` then
finds the cache slot gone and refuses the copy (see Findings). A texture that was itself used at or
after the threshold does not purge at all.

## Model

| member | source | states |
|---|---|---|
| Sniff.IdentifyMagic | GPU/Common/ReplacedTexture.cpp:42-59 | ZIM exactly for "ZIMG"; PNG exactly for 0x89 "PNG"; DDS exactly for "DDS "; BASIS exactly for "sB" followed by a little-endian version of at least 0x10; KTX2 exactly for 0xAB "KTX"; INVALID otherwise, including "sB" with an older version |
| Sniff.PngSignatureRecognised | GPU/Common/ReplacedTexture.cpp:44-45 | every stream that starts with the 8-byte PNG signature is classified PNG |
| Sniff.Ktx2IdentifierRecognised | GPU/Common/ReplacedTexture.cpp:53-55 | every stream that starts with the 12-byte KTX 2.0 identifier is classified KTX2 |
| Sniff.Ktx1IdentifierAlsoKtx2 | GPU/Common/ReplacedTexture.cpp:53-55 | a KTX 1.1 identifier is classified KTX2 too, because only 4 of the 12 bytes are compared |
| Sniff.OldBasisVersionInvalid | GPU/Common/ReplacedTexture.cpp:48-52 | "sB" with a version below 0x10 is INVALID |
| Sniff.Identify | GPU/Common/ReplacedTexture.cpp:61-76 | a short read gives the tag "FAIL" and INVALID; otherwise the kind is IdentifyMagic of the four bytes, and the tag shows each byte from 32 to 127 as itself and every other byte as '_' (below 32, or negative as a signed char) |
| Formats.StateString | GPU/Common/ReplacedTexture.cpp:727-737 | every state has a name of at least 6 characters, never the fallback "N/A" |
| Formats.StateStringInjective | GPU/Common/ReplacedTexture.cpp:727-737 | distinct states get distinct names (POPULATED is shown as "PREPARED") |
| Formats.AlphaFromCheck | GPU/Common/ReplacedTexture.cpp:596-599 | the alpha scan's result becomes FULL exactly when the scan found the image fully opaque |
| Formats.BlockSize | GPU/Common/ReplacedTexture.cpp:486-487 | compressed formats have 8- or 16-byte blocks; UNDEFINED and RGBA8 are exactly the formats that are not block-compressed |
| LevelMath.RoundUpTo4 | GPU/Common/ReplacedTexture.cpp:270-272 | the result is a multiple of 4, the least one not below the input when the 32-bit addition does not wrap, and 0 for the last three 32-bit values |
| LevelMath.DdsLevelSizeIsBlockCount | GPU/Common/ReplacedTexture.cpp:544 | for extents that do not wrap, a DDS level is ceil(w/4) * ceil(h/4) blocks of 8 or 16 bytes |
| LevelMath.MipExtentClosedForm | GPU/Common/ReplacedTexture.cpp:553-554 | halving i times with a floor of 1 equals shifting right by i, clamped to 1 |
| LevelMath.MipExtentPositive | GPU/Common/ReplacedTexture.cpp:553-554 | every extent of a halving chain that starts at 1 or more lies between 1 and the starting extent |
| LevelMath.RescaleIdentity | GPU/Common/ReplacedTexture.cpp:407-409 | the rescale leaves a size unchanged when the target resolution equals the source resolution |
| LevelDecode.DdsResolve | GPU/Common/ReplacedTexture.cpp:311-368 | a DDS header is accepted only when it was fully read and has a FOURCC. BC7 comes from a DX10 header with DXGI code 98 or 99 on a GPU with BC7; BC1, BC2 or BC3 come from DXT1, DXT3 or DXT5 on a GPU with BC1-3 (each both ways). An accepted format is block-compressed and supported |
| LevelDecode.KtxTarget | GPU/Common/ReplacedTexture.cpp:445-483 | ETC1S goes to BC1, else ETC2, else RGBA8, and is classified fully opaque; UASTC goes to BC7, else ASTC 4x4, else RGBA8, with alpha unknown; any other payload is refused; RGBA8 is chosen exactly when neither GPU family is available; the choice is always supported |
| LevelDecode.HeaderStage | GPU/Common/ReplacedTexture.cpp:293-397 | BASIS and unrecognised files never pass. An accepted DDS header yields a supported compressed format. A KTX2 header passes exactly when fully read with at most one layer; a DDS header exactly when DdsResolve accepts it, taking DdsResolve's format; a ZIM header exactly when fully read with format bits RGBA8888 (line 380); a PNG header exactly when fully read with a valid signature (line 385). ZIM and PNG report RGBA8 with one level. KTX2, BASIS and unrecognised files leave the caller's pixel format alone |
| LevelDecode.ReadDdsChain | GPU/Common/ReplacedTexture.cpp:538-557 | the DDS loop produces DdsLevels (each level halves the last, floor 1, and only level 0 keeps the file reference) and DdsBuffers (a DdsLevelSize read per level, zero-filled past a short read) |
| LevelDecode.ReadDdsLevel | GPU/Common/ReplacedTexture.cpp:541-556 | one pass of the DDS loop keeps its invariant: after i + 1 reads the extents are mip i + 1's, the levels are the chain's first i + 1, and the buffers read plus the chain still to read are the whole chain |
| LevelDecode.DdsBufferSizes | GPU/Common/ReplacedTexture.cpp:541-546 | a chain of n mips has n buffers, buffer i sized for mip i's extents |
| LevelDecode.DdsSizesAt | GPU/Common/ReplacedTexture.cpp:541-554 | the size read for DDS level i is DdsLevelSize of mip i's extents, the level extents halving at each step with a floor of 1 |
| LevelDecode.DdsBuffersAreChunks | GPU/Common/ReplacedTexture.cpp:541-546 | the DDS loop's buffers are the bytes after the header cut, in order, into consecutive reads of the level sizes, each zero-filled after a short read |
| LevelDecode.TranscodeKtxChain | GPU/Common/ReplacedTexture.cpp:494-518 | the KTX2 loop produces one level per embedded mip, sized by the transcoder's original extents with only level 0 keeping the file reference, and buffers sized by the transcoder's block count (RGBA8: 4 bytes per texel) |
| LevelDecode.KtxBuffers | GPU/Common/ReplacedTexture.cpp:501-510 | buffer i has exactly KtxLevelBytes of level i's info |
| Rows.CopyRows | GPU/Common/ReplacedTexture.cpp:703-705 | after the row loop, byte j of the destination holds source row j / pitch, column j % pitch, when it lies in one of the copied rows, and is unchanged otherwise |
| Rows.CopyPrefix | GPU/Common/ReplacedTexture.cpp:695-718 | the block copy writes exactly the first n bytes of the source and leaves the rest of the destination unchanged |
| Rows.PrefixIsPackedRows | GPU/Common/ReplacedTexture.cpp:695-705 | when the pitch equals the row length, the block copy of rows * rowLen bytes is the row-by-row copy, so both branches of the RGBA8 copy agree |
| Rows.RowsCopiedAt | GPU/Common/ReplacedTexture.cpp:703-705 | in a finished row copy, destination byte pitch * y + x holds source byte srcPitch * y + x for every copied row y and column x |
| Rows.RowsCopiedUnique | GPU/Common/ReplacedTexture.cpp:703-705 | a row copy onto a given buffer has exactly one outcome |
| LevelDecode.PadZimImage | GPU/Common/ReplacedTexture.cpp:586-593 | the decoded image lands row by row in a zeroed levelW x levelH RGBA8 buffer, each row levelW * 4 bytes apart, with every other byte zero; the one-block copy for an image as wide as the level gives the same buffer |
| LevelDecode.ZimPadded | GPU/Common/ReplacedTexture.cpp:586-593 | the padded buffer has levelW * levelH * 4 bytes and holds the image's rows copied at the level's pitch over zeros |
| LevelDecode.LoadLevel | GPU/Common/ReplacedTexture.cpp:275-663 | one candidate's load (slot reserved, open, header, cache shortcut, size check, per-format decode) only appends levels, adds none on LOAD_ERROR, and leaves the cache's format alone |
| LevelDecode.LoadOpened | GPU/Common/ReplacedTexture.cpp:290-432 | the load of an opened file (the level size rescaled by Rescale, checked by SizeAccepted against level 0 shifted by the mip index) only appends levels and adds none on LOAD_ERROR |
| LevelDecode.LoadKtx2 | GPU/Common/ReplacedTexture.cpp:432-522 | the KTX2 branch never continues the walk; a refusal changes nothing, and DONE appends exactly the transcoder's level count |
| LevelDecode.LoadDds | GPU/Common/ReplacedTexture.cpp:523-559 | the DDS branch ends DONE with the resolved format and alpha UNKNOWN, appending exactly mipMapCount levels |
| LevelDecode.LoadZim | GPU/Common/ReplacedTexture.cpp:560-606 | the ZIM branch never ends DONE, reports RGBA8, changes nothing on LOAD_ERROR and appends at most the one level of the file's size |
| LevelDecode.LoadPng | GPU/Common/ReplacedTexture.cpp:608-657 | the PNG branch never ends DONE, reports RGBA8, adds no level on LOAD_ERROR and exactly the file's level on CONTINUE |
| LevelMath.Rescale | GPU/Common/ReplacedTexture.cpp:407-408 | the rescaled size is the integer quotient x * num / den: r * den <= x * num < r * den + den |
| LevelDecode.LoadLevelShortcuts | GPU/Common/ReplacedTexture.cpp:284-288 | a file that does not open ends the walk with DONE; a level already in the shared cache (lines 400-404) ends it with the cache's format and no change; neither adds a level |
| LevelDecode.MipSizeMismatchRejected | GPU/Common/ReplacedTexture.cpp:410-423 | a level above 0 whose rescaled size is not level 0's size shifted by the mip index fails with LOAD_ERROR and adds nothing |
| LevelDecode.UnsupportedContainerRejected | GPU/Common/ReplacedTexture.cpp:306-310 | BASIS and unrecognised files (lines 395-397) fail with LOAD_ERROR after the slot is reserved, and nothing else changes |
| LevelDecode.DdsChainFormat | GPU/Common/ReplacedTexture.cpp:523-559 | an accepted DDS file ends the walk (DONE) with the format its header resolves to, and alpha unknown |
| LevelDecode.DdsChainLevels | GPU/Common/ReplacedTexture.cpp:538-557 | an accepted DDS file appends exactly mipMapCount levels. Level i halves the rescaled size i times and only level 0 keeps the file reference. The level vector then has mipLevel + n slots, and slot mipLevel + i holds DdsLevelSize bytes |
| LevelDecode.ChainLevelBytes | GPU/Common/ReplacedTexture.cpp:544-545 | level i of a loaded DDS chain takes ceil(w/4) * ceil(h/4) blocks of 8 bytes (BC1) or 16 (BC2, BC3, BC7) |
| LevelDecode.DdsChainMatchesMipCheck | GPU/Common/ReplacedTexture.cpp:410-418 | while the shift is still at least 1, DDS chain level i has exactly the size the mip-size check demands of a separately stored level i |
| LevelDecode.Ktx2ChainFormat | GPU/Common/ReplacedTexture.cpp:432-483 | a KTX2 file whose transcoder starts on ETC1S or UASTC ends the walk with the preferred supported format, and alpha FULL exactly for ETC1S |
| LevelDecode.Ktx2ChainLevels | GPU/Common/ReplacedTexture.cpp:489-518 | such a file appends levelCount levels at the transcoder's original sizes, only level 0 keeping the file reference, and slot mipLevel + i holds KtxLevelBytes |
| LevelDecode.Ktx2Refused | GPU/Common/ReplacedTexture.cpp:439-483 | a KTX2 file the transcoder cannot start, or whose payload is neither ETC1S nor UASTC, never continues the walk and adds no level |
| LevelDecode.SingleImageLoaded | GPU/Common/ReplacedTexture.cpp:560-657 | a ZIM or PNG load that continues adds exactly one level at the rescaled size, with the file reference, and stores w * h * 4 bytes of RGBA8 in its slot |
| LevelDecode.PngDecodeFailureClearsSlot | GPU/Common/ReplacedTexture.cpp:637-643 | a failed PNG pixel decode leaves the slot empty and adds no level |
| LevelDecode.SingleImageAlpha | GPU/Common/ReplacedTexture.cpp:596-599 | a PNG without an alpha channel at level 0 (lines 627-633) marks the texture opaque; for a stored ZIM image, or a PNG with alpha (lines 645-652), the scan's result becomes the classification at level 0, a scan that found transparency sets UNKNOWN at any level, and otherwise a level above 0 keeps the classification |
| LevelDecode.HeaderRefused | GPU/Common/ReplacedTexture.cpp:419-422 | a file whose header stage fails is refused with LOAD_ERROR and the header's pixel format once its slot is free; only the slot is reserved and no level is added |
| PrepareLoop.Bound | GPU/Common/ReplacedTexture.cpp:205 | the walk visits at most min(MAX_REPLACEMENT_MIP_LEVELS, number of names) positions, and exactly that many when it runs to the end |
| PrepareLoop.ScanAppendsLevels | GPU/Common/ReplacedTexture.cpp:205-245 | the walk keeps the levels it started with, in front and in order, and leaves the cache format alone |
| PrepareLoop.LoaderAppendsOnly | GPU/Common/ReplacedTexture.cpp:275-663 | the real per-file load only appends levels |
| PrepareLoop.ScanCachedLevelZero | GPU/Common/ReplacedTexture.cpp:400-404 | when the shared cache already holds level 0, the walk ends after one load with DONE, the cache's format and no level added; a texture with no levels of its own then ends NOT_FOUND (lines 247-253) |
| PrepareLoop.ScanCancelled | GPU/Common/ReplacedTexture.cpp:206-208 | a walk started during teardown loads nothing and stops as cancelled |
| PrepareLoop.ScanFirstFileMissing | GPU/Common/ReplacedTexture.cpp:215-221 | a first name the file system does not have ends the walk with nothing loaded |
| PrepareLoop.ScanMismatchOnlyAboveZero | GPU/Common/ReplacedTexture.cpp:233-240 | a format mismatch stops the walk only after a level above 0 continued with a format other than the texture's, so after two loads at least |
| PrepareLoop.ScanUniformChain | GPU/Common/ReplacedTexture.cpp:205-245 | when every candidate exists and continues with one format, the walk loads all of them and the texture takes that format |
| PrepareLoop.PrepareScan | GPU/Common/ReplacedTexture.cpp:205-221 | the walk from candidate i stops at the bound, on cancellation, at an empty name or at a missing file, else loads the candidate; it runs at most one load per remaining position, and it ends Exhausted only when every remaining position loaded |
| PrepareLoop.AfterLoad | GPU/Common/ReplacedTexture.cpp:223-244 | after a load, DONE stops with the reported format, LOAD_ERROR stops, and CONTINUE goes on (mip 0 sets the format, a later mip must report the same one); the load counts, and the walk is Exhausted only after a CONTINUE |
| Texture.ReplacedTexture.FinishPopulate | GPU/Common/ReplacedTexture.cpp:179-186 | links the cache and the description and moves to POPULATED, keeping the invariant |
| Texture.ReplacedTexture.IsReady | GPU/Common/ReplacedTexture.cpp:126-177 | ACTIVE and NOT_FOUND are ready once a held task is joined (the wait succeeds), stamping the use times and keeping the levels, format, alpha, cache and description. UNINITIALIZED, PENDING and CANCEL_INIT are never ready and change nothing. POPULATED stamps the use time; with a negative budget it stays POPULATED and submits nothing; otherwise it submits one task, is PENDING while that runs, and is ready exactly when the wait succeeds, holding then the levels, buffers, format and alpha of PrepareScan (NOT_FOUND exactly when no level loaded). Ready always means ACTIVE or NOT_FOUND |
| Texture.ReplacedTexture.JoinIfFinished | GPU/Common/ReplacedTexture.cpp:131-146 | the waitable is released exactly when the wait succeeds, the texture's use time is stamped, and the cache's use time is stamped only on that release |
| Texture.ReplacedTexture.RunTask | GPU/Common/ReplacedTexture.cpp:85-88 | the task's Prepare leaves a PENDING texture with the levels, cache buffers, format and alpha of PrepareScan, ACTIVE or NOT_FOUND, NOT_FOUND exactly when no level loaded; the description, file system and waitable are kept |
| Texture.ReplacedTexture.PurgeIfOlder | GPU/Common/ReplacedTexture.cpp:110-124 | nothing changes while a task is held and not joinable, when the texture was used at or after t, or when its cache was; otherwise the cache's buffers are cleared and the texture is back in POPULATED (corrected: without a waitable) |
| Texture.ReplacedTexture.Prepare | GPU/Common/ReplacedTexture.cpp:188-268 | the levels, cache buffers, alpha and format are those of the walk PrepareScan from the state before; NOT_FOUND exactly when no level was loaded, with the cache link cleared; otherwise ACTIVE with the cache's format set to the texture's format (corrected: the description is kept) |
| Texture.ReplacedTexture.WalkCandidates | GPU/Common/ReplacedTexture.cpp:198-245 | Prepare's loop leaves the levels, cache buffers, alpha and texture format exactly as PrepareScan from format UNDEFINED says, and changes nothing else |
| Texture.ReplacedTexture.WalkStep | GPU/Common/ReplacedTexture.cpp:206-244 | one pass at candidate i: cancellation, an empty name or a missing file stops the walk unchanged; otherwise the load either goes on to i + 1 toward the same end as PrepareScan at i, or stops in PrepareScan's final state |
| Texture.ReplacedTexture.LoadCandidate | GPU/Common/ReplacedTexture.cpp:223-244 | one loop iteration of Prepare: the load followed by the format rule (level 0 sets the format; a later level must continue with the same one) matches AfterLoad |
| Texture.ReplacedTexture.LoadAt | GPU/Common/ReplacedTexture.cpp:223-227 | mip 0 sets the texture format to RGBA8 before its load, and the in-place load of candidate i has the outcome LoadLevel gives under the texture's decode parameters |
| Texture.ReplacedTexture.LoadLevelData | GPU/Common/ReplacedTexture.cpp:275-663 | the in-place load changes the texture and cache exactly as LoadLevel says and leaves the cache's format alone |
| Texture.ReplacedTexture.LoadOpenedData | GPU/Common/ReplacedTexture.cpp:290-432 | an opened file changes state exactly as LoadOpened says |
| Texture.ReplacedTexture.LoadBodyData | GPU/Common/ReplacedTexture.cpp:432-663 | the per-format dispatch of an accepted file changes the texture and cache exactly as LoadBody says: the KTX2, DDS, ZIM or PNG branch, and LOAD_ERROR with nothing changed for BASIS and unrecognised files |
| Texture.ReplacedTexture.LoadKtx2Data | GPU/Common/ReplacedTexture.cpp:432-522 | the KTX2 branch changes state exactly as LoadKtx2 says |
| Texture.ReplacedTexture.LoadDdsData | GPU/Common/ReplacedTexture.cpp:523-559 | the DDS branch changes state exactly as LoadDds says |
| Texture.ReplacedTexture.LoadZimData | GPU/Common/ReplacedTexture.cpp:560-606 | the ZIM branch changes state exactly as LoadZim says |
| Texture.ReplacedTexture.LoadPngData | GPU/Common/ReplacedTexture.cpp:608-657 | the PNG branch changes state exactly as LoadPng says |
| Texture.ReplacedTexture.CopyLevelTo | GPU/Common/ReplacedTexture.cpp:665-725 | succeeds exactly when ACTIVE with a cache slot for the level that is non-empty and, for RGBA8, a pitch that holds a whole row (corrected: a slot gone from the shared cache is refused); on failure nothing is written; RGBA8 lands row by row at the pitch with the bytes between rows untouched; other formats are copied as one block |
| AsWritten.PurgeAsWritten | GPU/Common/ReplacedTexture.cpp:110-124 | as coded: back to POPULATED when texture and cache are older than t, keeping the waitable and whether the description is held |
| AsWritten.PrepareAsWritten | GPU/Common/ReplacedTexture.cpp:253-267 | as coded: ACTIVE or NOT_FOUND, and the description deleted on both paths |
| AsWritten.PurgeKeepsWaitable | GPU/Common/ReplacedTexture.cpp:166-173 | a load finished within IsReady's wait and purged before the next IsReady leaves POPULATED with a waitable, which the next IsReady asserts against |
| AsWritten.PurgeAfterPrepareLosesDesc | GPU/Common/ReplacedTexture.cpp:198-207 | a loaded, joined and purged texture is POPULATED without the description its next Prepare reads |
| AsWritten.ChainSlotsAsWrittenOverrun | GPU/Common/ReplacedTexture.cpp:489-494 | the resize to numMips leaves the last slot a chain at mip level above 0 uses out of range (line 538 likewise); resizing to mipLevel + numMips does not |
| AsWritten.CopyReadAsWritten | GPU/Common/ReplacedTexture.cpp:665-678 | as coded: the level index is checked against the texture's own levels only, and an ACTIVE texture reads the cache slot, out of range exactly when the cache has no more than `level` slots |
| AsWritten.SiblingPurgeStrandsCopy | GPU/Common/ReplacedTexture.cpp:111-124 | after a sibling sharing the cache purges it, in any state without a task, an ACTIVE texture with levels has an empty cache vector, so the coded read of level 0 is out of range, while CopyLevelTo refuses |
| AsWritten.KtxFillsUnsizedSlot | GPU/Common/ReplacedTexture.cpp:495-510 | the slots sized and the slots transcoded into coincide exactly at mip level 0 |
| AsWritten.ZimAsWrittenOverReads | GPU/Common/ReplacedTexture.cpp:587-588 | an image as wide as the level but shorter is read past its end |
| AsWritten.DdsAsWrittenSharesFileRef | GPU/Common/ReplacedTexture.cpp:550-557 | the coded DDS chain equals the intended one except at level 1, which also keeps the file reference |

## Left out

- Threads, locks and the thread manager are not modelled. A submitted task is the `hasWaitable`
  flag. A wait's outcome is a boolean parameter. When the wait in IsReady's POPULATED branch
  succeeds, the worker's `Prepare` runs inline, so tasks are sequential. CANCEL_INIT is observed
  only as the state at the start of `Prepare`, not as a change made by another thread during the
  walk.
- Texture.ReplacedTexture.IsReady: the time budget is a float, modelled only by its sign
  (`budgetNegative`). The clock is an `int` parameter `now`.
- Texture.ReplacedTexture.PurgeIfOlder: requires that a zero-time wait cannot succeed while the
  texture is PENDING. The worker changes the state before it signals, so the source relies on
  this.
- Texture.ReplacedTexture.FinishPopulate: requires that no task is held, as the source's callers
  ensure; the model does not check this at the call sites.
- The destructor (releasing file references) is not modelled, apart from the double reference
  shown in Findings.
- File I/O is not modelled. A file is described by what each read returns: parsed headers with a
  flag for a complete read, the bytes after a DDS header, and the results of the PNG, ZIM and
  KTX2 decoders. The byte layouts of the headers are not modelled, and the decoders' internals are
  not part of this model.
- LevelDecode.HeaderStage: header widths and heights are unsigned 32-bit fields that the source
  stores in `int` (lines 300-301, 366-367, 378-379), and so are the level counts `levelCount`
  (line 302) and `dwMipMapCount` (line 368), stored in `int numMips`, which sizes the level
  vector (lines 489, 538). A value of 2^31 or more becomes negative there. The model keeps them
  as naturals.
- LevelMath.Rescale: the rescale `level.w * desc_->w / desc_->newW` (lines 407-408) is an `int`
  product that can overflow in the source. The model computes it on unbounded integers.
- LevelDecode.DdsChainLevels: the DDS size `RoundUpTo4(w) * RoundUpTo4(h) * blockSize / 16` is
  computed on unbounded integers after the 32-bit rounding. In the source the product is
  `uint32_t` arithmetic that wraps modulo 2^32, and the result is narrowed into `int bytesToRead`
  (line 544), which can be negative before `out.resize`. Neither is modelled.
- The texture's level list is never cleared, as in the source. A re-Prepare after a purge appends
  to it, and the model does not claim otherwise.
- PrepareLoop.ScanCachedLevelZero: a texture whose level 0 is already in the shared cache ends
  NOT_FOUND, as coded (the comment at line 399 marks the cache shortcut as a TODO). The model keeps
  that behaviour and does not take the cached level's size from the cache.
- A level above 0 with no level 0 recorded is refused (`SizeAccepted`). The source would read
  `levels_[0]` out of range there.
- New slots and resized buffers are zero-filled or empty. A short DDS read leaves zeros at the
  end of its buffer.
- A KTX2 level the transcoder reports no info for is treated as size 0 (`InfoAt`).
- The caller's pixel format starts as UNDEFINED. In the source it is uninitialised, and a first
  candidate that exists but does not open returns DONE without setting it (lines 285-288), after
  which line 230 copies the indeterminate value into `fmt`. The texture then has no levels and
  ends NOT_FOUND. The model gives that value as UNDEFINED.
- PrepareLoop.Bound: `MAX_REPLACEMENT_MIP_LEVELS` is used at line 205 but defined in
  ReplacedTexture.h, which is not part of this model. The model takes the value 12 from that
  header in the upstream project, where a comment notes that the PSP itself supports at most 8
  mip levels. The other constants defined outside ReplacedTexture.cpp are taken from the
  upstream headers the same way:
  - `ZIM_FORMAT_MASK` 15 and `ZIM_RGBA8888` 0 (ZIMLoad.h);
  - the block sizes in `Formats.BlockSize`: 8 bytes for BC1 and ETC2 RGB, 16 for BC2, BC3, BC7
    and ASTC 4x4 (DataFormat.cpp);
  - the two values of `CheckAlphaResult` and the `ReplacedTextureAlpha` values that line 598
    casts them to, with CHECKALPHA_FULL becoming FULL and CHECKALPHA_ANY becoming UNKNOWN.
- Logging, the warning text and `magic`'s use in messages are left out. ParallelMemcpy is an
  ordinary copy.

## Findings

| source | as written | input that shows it | evidently intended | confidence | as-written member | corrected member |
|---|---|---|---|---|---|---|
| GPU/Common/ReplacedTexture.cpp:110-124 | PurgeIfOlder joins a finished task with a zero-time wait and moves to POPULATED without releasing the waitable; IsReady's POPULATED branch then asserts there is none (line 166) | IsReady on POPULATED whose wait succeeds, PurgeIfOlder past both use times, then IsReady with a non-negative budget | release the waitable when going back to POPULATED | high, not executed | AsWritten.PurgeAsWritten, AsWritten.PurgeKeepsWaitable | Texture.ReplacedTexture.PurgeIfOlder |
| GPU/Common/ReplacedTexture.cpp:253-266 | Prepare deletes the description on both exits, but a purge sends the texture back to POPULATED and the next task's Prepare reads `desc_->filenames` (line 202) | a load that ends ACTIVE and is joined, then PurgeIfOlder past both use times, then IsReady with a non-negative budget | keep the description for as long as a purge can request a reload | high, not executed | AsWritten.PrepareAsWritten, AsWritten.PurgeAfterPrepareLosesDesc | Texture.ReplacedTexture.Prepare |
| GPU/Common/ReplacedTexture.cpp:489 | the KTX2 and DDS branches (line 538) resize the level vector to numMips and then use slots mipLevel .. mipLevel + numMips - 1 | a PNG as mip 0, then a one-level DDS file of matching size as mip 1: the vector is cut to 1 slot and slot 1 is written | resize to mipLevel + numMips | high, not executed | AsWritten.ChainSlotsAsWritten, AsWritten.ChainSlotsAsWrittenOverrun | LevelDecode.DdsChainLevels, LevelDecode.Ktx2ChainLevels |
| GPU/Common/ReplacedTexture.cpp:510 | the KTX2 loop sizes slot i but transcodes level i into slot mipLevel + i | a KTX2 file with one level loaded as mip 1 | size slot mipLevel + i | high, not executed | AsWritten.KtxSizedAsWritten, AsWritten.KtxFillsUnsizedSlot | LevelDecode.Ktx2ChainLevels |
| GPU/Common/ReplacedTexture.cpp:587-588 | when the decoded ZIM image is as wide as the level, level.w * 4 * level.h bytes are copied from an image of w * 4 * h bytes, although the height check (line 580) allows h < level.h | a 1x2 ZIM header whose decoded image is 1x1: 8 bytes are read from a 4-byte image | copy w * 4 * h bytes | high, not executed | AsWritten.ZimBytesReadAsWritten, AsWritten.ZimAsWrittenOverReads | LevelDecode.PadZimImage |
| GPU/Common/ReplacedTexture.cpp:665-678 | CopyLevelTo checks the level index against the texture's own levels only and then reads slot `level` of the shared cache's vector, which a purge by another texture sharing the cache clears (line 120) while this texture stays ACTIVE | two textures share a cache; the first loaded one level and is ACTIVE; the second, still POPULATED and never loaded, is purged past both use times; the first's CopyLevelTo(0) reads slot 0 of an empty vector | refuse the copy when the cache has no slot for the level | medium, not executed | AsWritten.CopyReadAsWritten, AsWritten.SiblingPurgeStrandsCopy | Texture.ReplacedTexture.CopyLevelTo |
| GPU/Common/ReplacedTexture.cpp:552-556 | the DDS loop clears the file reference after pushing level i != 0, so levels 0 and 1 both hold it, and the destructor (lines 104-107) releases it twice | a DDS file with mipMapCount 2 | only level 0 keeps the reference, as the comment on line 556 and the KTX2 loop (lines 515-517) do | high, not executed | AsWritten.DdsLoopAsWritten, AsWritten.DdsAsWrittenSharesFileRef | LevelDecode.ReadDdsChain, LevelDecode.DdsChainLevels |
