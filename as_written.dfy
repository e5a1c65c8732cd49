/** Parts of the texture loader as they are coded, where the code departs from what it evidently
    intends. Each definition here is paired with a lemma exhibiting an input on which it goes
    wrong; the rest of the model uses the intended behaviour instead. */
module AsWritten {
  import opened Formats
  import opened LevelMath
  import opened Vfs
  import opened LevelDecode
  import opened Texture

  /** The lifecycle fields of a texture that PurgeIfOlder, Prepare and IsReady touch: the state,
      whether a task waitable is held, whether the description is still held, and the use times
      of the texture and of its cache (None when the texture has no cache link). */
  datatype Life = Life(state: ReplacementState, waitable: bool, hasDesc: bool, lastUsed: int, cacheUsed: Option<int>)

  /** PurgeIfOlder as coded: when the texture and its cache are both older than `t` it goes back
      to POPULATED, but a finished task's waitable stays held. `joinable` is the outcome of the
      zero-time wait. */
  function PurgeAsWritten(l: Life, t: int, joinable: bool): (r: Life)
    ensures r.waitable == l.waitable && r.hasDesc == l.hasDesc && r.lastUsed == l.lastUsed
    ensures r.state == (if (!l.waitable || joinable) && l.lastUsed < t && l.cacheUsed.Some? && l.cacheUsed.value < t
                        then POPULATED else l.state)
  {
    if l.waitable && !joinable then l
    else if l.lastUsed >= t then l
    else if l.cacheUsed.Some? && l.cacheUsed.value < t then l.(state := POPULATED)
    else l
  }

  /** Prepare as coded, where it returns: ACTIVE when some level was found, else NOT_FOUND with
      the cache link cleared; on both paths the description is deleted. */
  function PrepareAsWritten(l: Life, found: bool): (r: Life)
    requires l.hasDesc
    ensures !r.hasDesc && r.waitable == l.waitable
    ensures r.state == (if found then ACTIVE else NOT_FOUND) && (r.cacheUsed.Some? ==> found)
  {
    l.(state := if found then ACTIVE else NOT_FOUND, hasDesc := false,
       cacheUsed := if found then l.cacheUsed else None)
  }

  /** IsReady's join of a finished task in ACTIVE or NOT_FOUND (the wait succeeds): the waitable
      is released and both use times are stamped. */
  function JoinAsWritten(l: Life, now: int): (r: Life)
    requires l.state == ACTIVE || l.state == NOT_FOUND
    ensures !r.waitable && r.state == l.state && r.hasDesc == l.hasDesc && r.lastUsed == now
  {
    l.(waitable := false, lastUsed := now,
       cacheUsed := if l.cacheUsed.Some? && l.waitable then Some(now) else l.cacheUsed)
  }

  /** What IsReady's POPULATED branch needs before it submits a task: no waitable may be held
      (it asserts this) and the task's Prepare reads the description. */
  predicate SpawnReady(l: Life) {
    !l.waitable && l.hasDesc
  }

  /** A task that finished within IsReady's budget is not joined until the next IsReady; a purge
      in between sends the texture back to POPULATED still holding the waitable, so the next
      IsReady trips its no-waitable assertion (and the description is gone as well). */
  lemma PurgeKeepsWaitable(t: int)
    ensures var loaded := PrepareAsWritten(Life(PENDING, true, true, t - 1, Some(t - 1)), true);
      var purged := PurgeAsWritten(loaded, t, true);
      purged.state == POPULATED && purged.waitable && !SpawnReady(purged)
  {
  }

  /** Even once the task is joined, a purge sends a loaded texture back to POPULATED without a
      description, and the task the next IsReady submits reads the deleted description. */
  lemma PurgeAfterPrepareLosesDesc(t: int)
    ensures var loaded := PrepareAsWritten(Life(PENDING, true, true, t - 2, Some(t - 2)), true);
      var joined := JoinAsWritten(loaded, t - 1);
      var purged := PurgeAsWritten(joined, t, true);
      purged.state == POPULATED && !purged.waitable && !purged.hasDesc && !SpawnReady(purged)
  {
  }

  /** The slot vector after the DDS and KTX2 branches' resize as coded: `numMips` slots whatever
      the mip level (cut or extended with empty buffers), while their loops then use slots
      mipLevel .. mipLevel + numMips - 1. */
  function ChainSlotsAsWritten(data: seq<seq<byte>>, numMips: nat): (r: seq<seq<byte>>)
    ensures |r| == numMips
    ensures forall i :: 0 <= i < numMips ==> r[i] == if i < |data| then data[i] else []
  {
    Grow(data, numMips)
  }

  /** A chain file loaded at any mip level above 0 writes past the end of the resized vector:
      for instance a one-level DDS file loaded as mip 1 after a PNG mip 0. */
  lemma ChainSlotsAsWrittenOverrun(data: seq<seq<byte>>, mipLevel: nat, numMips: nat)
    requires mipLevel > 0 && numMips > 0
    ensures mipLevel + (numMips - 1) >= |ChainSlotsAsWritten(data, numMips)|
    ensures |Grow(data, mipLevel + numMips)| > mipLevel + (numMips - 1)
  {
  }

  /** The level vector in the KTX2 loop as coded, before iteration `i` transcodes: the vector was
      resized to the level count (`sizes` holds each level's output size) and slots 0 .. i-1
      plus slot i were then resized to the sizes of levels 0 .. i, each slot k to level k's. */
  function KtxSizedAsWritten(data: seq<seq<byte>>, sizes: seq<nat>, i: nat): (r: seq<seq<byte>>)
    requires i < |sizes|
    ensures |r| == |sizes|
    ensures forall k :: 0 <= k < |sizes| ==> |r[k]| == if k <= i then sizes[k] else |Grow(data, |sizes|)[k]|
  {
    var g := Grow(data, |sizes|);
    seq(|sizes|, k requires 0 <= k < |sizes| => if k <= i then Fit(g[k], sizes[k]) else g[k])
  }

  /** Above mip level 0, the slot iteration `i` transcodes level i into, mipLevel + i, was not
      sized by the loop: it lies past the vector or still holds the empty buffer the cache had for
      it, so the transcoder writes a level of sizes[i] > 0 bytes into a shorter buffer. At mip
      level 0 the slot is the one just sized. */
  lemma KtxFillsUnsizedSlot(data: seq<seq<byte>>, sizes: seq<nat>, mipLevel: nat, i: nat)
    requires i < |sizes| && sizes[i] > 0
    requires mipLevel + i < |data| ==> data[mipLevel + i] == []
    ensures var r := KtxSizedAsWritten(data, sizes, i);
      && (mipLevel > 0 ==> mipLevel + i >= |r| || |r[mipLevel + i]| < sizes[i])
      && (mipLevel == 0 ==> |r[i]| == sizes[i])
  {
    var r := KtxSizedAsWritten(data, sizes, i);
    if mipLevel > 0 && mipLevel + i < |r| {
      assert |r[mipLevel + i]| == |Grow(data, |sizes|)[mipLevel + i]| == 0;
    }
  }

  /** The number of bytes the ZIM branch as coded reads from the decoded image: one block of
      levelW * 4 * levelH bytes when the image is exactly as wide as the level, else img.h rows
      of img.w * 4 bytes. */
  function ZimBytesReadAsWritten(img: ZimPixels, levelW: nat, levelH: nat): (r: nat)
    ensures img.w == levelW ==> r == levelW * 4 * levelH
    ensures img.w != levelW ==> r == |img.pixels|
  {
    if img.w == levelW then levelW * 4 * levelH else img.w * 4 * img.h
  }

  /** An image as wide as the declared level but shorter than it is read past its end: a 1x1
      image under a 1x2 header has 4 bytes and 8 are read. */
  lemma ZimAsWrittenOverReads(img: ZimPixels, levelW: nat, levelH: nat)
    requires img.w == levelW && levelW > 0 && img.h < levelH
    ensures ZimBytesReadAsWritten(img, levelW, levelH) > |img.pixels|
  {
    MulMonotone(levelW * 4, img.h + 1, levelH);
    assert levelW * 4 * (img.h + 1) == levelW * 4 * img.h + levelW * 4;
    assert |img.pixels| == levelW * 4 * img.h;
  }

  /** The DDS loop as coded, from iteration `i` with running level `level`: push the level,
      halve its extents (floor 1), and only after an iteration other than 0 drop the file
      reference, so the level pushed at iteration 1 still carries it. */
  function DdsLoopAsWritten(level: Level, i: nat, n: nat): (r: seq<Level>)
    requires i <= n
    ensures |r| == n - i
    ensures i < n ==> r[0] == level
    decreases n - i
  {
    if i == n then []
    else [level] + DdsLoopAsWritten(Level(Halve(level.w), Halve(level.h), if i != 0 then None else level.fileRef), i + 1, n)
  }

  /** The level pushed at iteration `k`, for a run started at iteration `i`, halves like the
      chain and carries the reference exactly when `k` is 0 or 1. */
  lemma {:induction false} DdsLoopAsWrittenAt(w: nat, h: nat, name: string, level: Level, i: nat, n: nat, k: nat)
    requires i <= k < n
    requires level == Level(MipExtent(w, i), MipExtent(h, i), if i <= 1 then Some(name) else None)
    ensures DdsLoopAsWritten(level, i, n)[k - i] ==
      Level(MipExtent(w, k), MipExtent(h, k), if k <= 1 then Some(name) else None)
    decreases k - i
  {
    if k > i {
      var next := Level(Halve(level.w), Halve(level.h), if i != 0 then None else level.fileRef);
      DdsLoopAsWrittenAt(w, h, name, next, i + 1, n, k);
      assert DdsLoopAsWritten(level, i, n)[k - i] == DdsLoopAsWritten(next, i + 1, n)[k - (i + 1)];
    }
  }

  /** The coded DDS chain agrees with the intended one (only level 0 keeping the reference)
      except at level 1, which also keeps it, so a two-level file's reference is released twice
      when the texture is destroyed. */
  lemma DdsAsWrittenSharesFileRef(w: nat, h: nat, n: nat, name: string)
    ensures var r := DdsLoopAsWritten(Level(w, h, Some(name)), 0, n);
      && |r| == n
      && (forall k :: 0 <= k < n && k != 1 ==> r[k] == DdsLevels(w, h, n, name)[k])
      && (n >= 2 ==> r[0].fileRef == Some(name) && r[1].fileRef == Some(name) && r[1] != DdsLevels(w, h, n, name)[1])
  {
    var r := DdsLoopAsWritten(Level(w, h, Some(name)), 0, n);
    forall k | 0 <= k < n
      ensures r[k] == Level(MipExtent(w, k), MipExtent(h, k), if k <= 1 then Some(name) else None)
    {
      DdsLoopAsWrittenAt(w, h, name, Level(w, h, Some(name)), 0, n, k);
    }
  }

  /** CopyLevelTo as coded up to its read of the level buffer: the level index is checked against
      the texture's own levels only (an assertion), and an ACTIVE texture then reads slot `level`
      of the cache's vector. None when no read is made; otherwise whether the read is in range. */
  function CopyReadAsWritten(active: bool, level: nat, levelCount: nat, slotCount: nat): (r: Option<bool>)
    requires level < levelCount
    ensures r.Some? <==> active
    ensures r == Some(false) <==> active && slotCount <= level
  {
    if !active then None else Some(level < slotCount)
  }

  /** Two textures share a cache and `a` has loaded. A purge by `b`, in any state without a task
      (one that never loaded will do), clears the shared vector but sends only `b` back to
      POPULATED, so `a` stays ACTIVE with its levels: the coded copy of its
      level 0 passes the level assertion and reads slot 0 of an empty vector, while CopyLevelTo
      refuses it. */
  method SiblingPurgeStrandsCopy(a: ReplacedTexture, b: ReplacedTexture, t: int, out: array<byte>)
    returns (ok: bool)
    requires a != b && a.Valid() && b.Valid() && a.levelData == b.levelData
    requires a.state == ACTIVE && |a.levels| > 0
    requires !b.hasWaitable && b.lastUsed < t && b.levelData.lastUsed < t
    modifies b, b.levelData, out
    ensures a.state == ACTIVE && a.levelData != null && a.levelData.data == [] && b.state == POPULATED
    ensures CopyReadAsWritten(a.state == ACTIVE, 0, |a.levels|, |a.levelData.data|) == Some(false)
    ensures !ok
  {
    b.PurgeIfOlder(t, true);
    ok := a.CopyLevelTo(0, out, 1);
  }
}
