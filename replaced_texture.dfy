/** A replaced texture: its load state machine, the per-candidate level load, the candidate walk
    and the copy of a finished level into the renderer's buffer. The level buffers live in a
    cache object that textures with the same key share. */
module Texture {
  import opened Formats
  import opened Sniff
  import opened LevelMath
  import opened Rows
  import opened Vfs
  import opened LevelDecode
  import opened PrepareLoop

  /** The level buffers shared by every texture with the same cache key. */
  class LevelCache {
    var fmt: DataFormat
    var data: seq<seq<byte>>
    var lastUsed: int

    constructor (now: int)
      ensures fmt == UNDEFINED && data == [] && lastUsed == now
    {
      fmt := UNDEFINED;
      data := [];
      lastUsed := now;
    }
  }

  /** What the replacer hands a texture to load: the candidate file name of each mip level and
      the decode parameters. */
  datatype ReplacementDesc = ReplacementDesc(filenames: seq<string>, params: DecodeParams)

  class ReplacedTexture {
    var state: ReplacementState
    var lastUsed: int
    /** A loader task has been submitted and its waitable not yet released. */
    var hasWaitable: bool
    var fmt: DataFormat
    var alphaStatus: Alpha
    var levels: seq<Level>
    var levelData: LevelCache?
    var desc: Option<ReplacementDesc>
    var vfs: FileSystem

    /** A waitable exists while a task is pending and until a finished one is joined; a texture
        that still has to load, is loading or has loaded is linked to a cache, and a cache link
        comes with a description to load from. */
    predicate Valid()
      reads this
    {
      && (levelData != null ==> desc.Some?)
      && (state == PENDING ==> hasWaitable)
      && (hasWaitable ==> state == PENDING || state == ACTIVE || state == NOT_FOUND || state == CANCEL_INIT)
      && (state == POPULATED || state == PENDING || state == ACTIVE ==> levelData != null)
    }

    /** The part of the texture and its cache that loading a level reads and changes. */
    function Current(): DecodeState
      requires levelData != null
      reads this, levelData
    {
      DecodeState(levels, levelData.data, levelData.fmt, alphaStatus)
    }

    /** The texture and `cache` hold the outcome of the candidate walk `sc`: its levels, alpha,
        format and level buffers. The texture is NOT_FOUND with its cache link cleared exactly
        when no level was loaded, and otherwise ACTIVE with the cache's format set to its own. */
    ghost predicate HoldsScan(sc: Scan, cache: LevelCache)
      reads this, cache
    {
      && levels == sc.ds.levels && alphaStatus == sc.ds.alpha && fmt == sc.fmt && cache.data == sc.ds.data
      && (state == NOT_FOUND <==> |levels| == 0)
      && (state == NOT_FOUND ==> levelData == null && cache.fmt == sc.ds.cacheFmt)
      && (state != NOT_FOUND ==> state == ACTIVE && levelData == cache && cache.fmt == fmt)
    }

    constructor (fs: FileSystem)
      ensures Valid()
      ensures state == UNINITIALIZED && !hasWaitable && levels == [] && levelData == null && desc == None
      ensures vfs == fs && fmt == UNDEFINED && alphaStatus == UNKNOWN
    {
      state := UNINITIALIZED;
      lastUsed := 0;
      hasWaitable := false;
      fmt := UNDEFINED;
      alphaStatus := UNKNOWN;
      levels := [];
      levelData := null;
      desc := None;
      vfs := fs;
    }

    /** Links the texture to its cache and description; the texture is then ready to load. */
    method FinishPopulate(d: ReplacementDesc, cache: LevelCache)
      requires Valid() && !hasWaitable
      modifies this
      ensures Valid()
      ensures levelData == cache && desc == Some(d) && state == POPULATED
      ensures hasWaitable == old(hasWaitable) && lastUsed == old(lastUsed) && fmt == old(fmt)
      ensures alphaStatus == old(alphaStatus) && levels == old(levels) && vfs == old(vfs)
    {
      levelData := cache;
      desc := Some(d);
      state := POPULATED;
    }

    /** Whether the texture can be used now. ACTIVE and NOT_FOUND are ready once a finished task
        is joined; POPULATED with a non-negative budget submits a load task and is ready if the
        task finishes within the budget. `waitSucceeds` is the outcome of the wait on the task
        (a wait can time out in the moment between the task's final state change and its
        notification). */
    method IsReady(budgetNegative: bool, now: int, waitSucceeds: bool) returns (ready: bool)
      requires Valid()
      modifies this, levelData
      ensures Valid()
      ensures old(state) == ACTIVE || old(state) == NOT_FOUND ==>
        && state == old(state) && lastUsed == now && levelData == old(levelData)
        && (ready <==> !old(hasWaitable) || waitSucceeds)
        && hasWaitable == (old(hasWaitable) && !ready)
        && (levelData != null ==> levelData.data == old(levelData.data) && levelData.fmt == old(levelData.fmt))
        && (levelData != null && old(hasWaitable) && ready ==> levelData.lastUsed == now)
        && (levelData != null && !(old(hasWaitable) && ready) ==> levelData.lastUsed == old(levelData.lastUsed))
      ensures old(state) == UNINITIALIZED || old(state) == PENDING || old(state) == CANCEL_INIT ==>
        !ready && unchanged(this) && (old(levelData) != null ==> unchanged(old(levelData)))
      ensures old(state) == POPULATED ==> lastUsed == now && (ready <==> !budgetNegative && waitSucceeds)
      ensures old(state) == POPULATED && budgetNegative ==>
        state == POPULATED && !hasWaitable && levelData == old(levelData) && unchanged(levelData)
      ensures old(state) == POPULATED && !budgetNegative ==> hasWaitable
      ensures old(state) == POPULATED && !budgetNegative && !waitSucceeds ==>
        state == PENDING && levelData == old(levelData) && unchanged(levelData)
      ensures old(state) == POPULATED && !budgetNegative && waitSucceeds ==>
        HoldsScan(PrepareScan(LoaderFor(old(desc).value.params), old(vfs), old(desc).value.filenames,
                              false, 0, StartScan(old(Current()))), old(levelData))
      ensures !(old(state) == POPULATED && !budgetNegative && waitSucceeds) ==>
        && levels == old(levels) && fmt == old(fmt) && alphaStatus == old(alphaStatus) && levelData == old(levelData)
        && (levelData != null ==> levelData.data == old(levelData.data) && levelData.fmt == old(levelData.fmt))
      ensures desc == old(desc) && vfs == old(vfs)
      ensures ready ==> state == ACTIVE || state == NOT_FOUND
    {
      match state {
        case ACTIVE =>
          ready := JoinIfFinished(now, waitSucceeds);
          return;
        case NOT_FOUND =>
          ready := JoinIfFinished(now, waitSucceeds);
          return;
        case UNINITIALIZED =>
          return false;
        case CANCEL_INIT =>
          return false;
        case PENDING =>
          return false;
        case POPULATED =>
      }
      lastUsed := now;
      if budgetNegative {
        return false;
      }
      hasWaitable := true;
      state := PENDING;
      if waitSucceeds {
        // The task ran to completion within the budget.
        RunTask();
        return true;
      }
      return false;
    }

    /** The ACTIVE / NOT_FOUND branch of IsReady: joins a finished task, stamping the use time on
        the texture and, when the task is joined, on the cache. */
    method JoinIfFinished(now: int, waitSucceeds: bool) returns (ready: bool)
      requires Valid() && (state == ACTIVE || state == NOT_FOUND)
      modifies this, levelData
      ensures Valid()
      ensures state == old(state) && lastUsed == now && levels == old(levels) && levelData == old(levelData)
      ensures desc == old(desc) && fmt == old(fmt) && alphaStatus == old(alphaStatus) && vfs == old(vfs)
      ensures ready <==> !old(hasWaitable) || waitSucceeds
      ensures hasWaitable == (old(hasWaitable) && !ready)
      ensures levelData != null ==> levelData.data == old(levelData.data) && levelData.fmt == old(levelData.fmt)
      ensures levelData != null && old(hasWaitable) && ready ==> levelData.lastUsed == now
      ensures levelData != null && !(old(hasWaitable) && ready) ==> levelData.lastUsed == old(levelData.lastUsed)
    {
      if hasWaitable {
        if !waitSucceeds {
          lastUsed := now;
          return false;
        }
        hasWaitable := false;
        if levelData != null {
          levelData.lastUsed := now;
        }
      }
      lastUsed := now;
      return true;
    }

    /** The load task, run by a worker: prepares the texture. */
    method RunTask()
      requires Valid() && state == PENDING
      modifies this, levelData
      ensures Valid()
      ensures hasWaitable && lastUsed == old(lastUsed) && desc == old(desc) && vfs == old(vfs)
      ensures HoldsScan(PrepareScan(LoaderFor(old(desc).value.params), old(vfs), old(desc).value.filenames,
                                    false, 0, StartScan(old(Current()))), old(levelData))
    {
      Prepare(vfs);
    }

    /** Drops the cached level buffers when neither the texture nor the cache was used since `t`,
        so the next IsReady loads them again. Nothing happens while a task is in flight
        (`joinable` is the outcome of a zero-time wait on it) or when the texture was used at or
        after `t`. A joined task's waitable is released when the texture goes back to POPULATED. */
    method PurgeIfOlder(t: int, joinable: bool)
      requires Valid()
      requires hasWaitable && state == PENDING ==> !joinable
      modifies this, levelData
      ensures Valid()
      ensures (old(hasWaitable) && !joinable) || old(lastUsed) >= t ==>
        unchanged(this) && (old(levelData) != null ==> unchanged(old(levelData)))
      ensures !((old(hasWaitable) && !joinable) || old(lastUsed) >= t) ==>
        if old(levelData) != null && old(levelData.lastUsed) < t then
          && levelData == old(levelData) && levelData.data == [] && state == POPULATED && !hasWaitable
          && levelData.fmt == old(levelData.fmt) && levelData.lastUsed == old(levelData.lastUsed)
        else unchanged(this) && (old(levelData) != null ==> unchanged(old(levelData)))
      ensures levels == old(levels) && lastUsed == old(lastUsed) && fmt == old(fmt)
      ensures alphaStatus == old(alphaStatus) && desc == old(desc) && levelData == old(levelData) && vfs == old(vfs)
    {
      if hasWaitable && !joinable {
        return;
      }
      if lastUsed >= t {
        return;
      }
      if levelData != null && levelData.lastUsed < t {
        levelData.data := [];
        state := POPULATED;
        hasWaitable := false;
      }
    }

    /** Walks the candidate names, loading each as the next mip level, and ends in ACTIVE with the
        cache's format set when some level was loaded, otherwise in NOT_FOUND with the cache link
        cleared. The levels, cache buffers, alpha and format are those of the walk PrepareScan. */
    method Prepare(fs: FileSystem)
      requires Valid() && levelData != null && desc.Some?
      modifies this, levelData
      ensures Valid()
      ensures vfs == fs && desc == old(desc) && hasWaitable == old(hasWaitable) && lastUsed == old(lastUsed)
      ensures HoldsScan(PrepareScan(LoaderFor(old(desc).value.params), fs, old(desc).value.filenames,
                                    old(state) == CANCEL_INIT, 0, StartScan(old(Current()))), old(levelData))
    {
      vfs := fs;
      var d := desc.value;
      var cache := levelData;
      LoaderForLoadsLike(d.params);
      ghost var s := WalkCandidates(LoaderFor(d.params), d, state == CANCEL_INIT);
      if |levels| == 0 {
        state := NOT_FOUND;
        levelData := null;
        return;
      }
      cache.fmt := fmt;
      state := ACTIVE;
    }

    /** The loop of Prepare: the candidates of `d` are loaded in order from format UNDEFINED on
        until the walk stops, which leaves the texture, the cache buffers and the texture format
        exactly as PrepareScan says. */
    method WalkCandidates(ghost load: Loader, d: ReplacementDesc, cancelled: bool) returns (ghost s: Scan)
      requires levelData != null && desc == Some(d) && LoadsLike(load, d.params)
      requires cancelled == (state == CANCEL_INIT)
      modifies this, levelData
      ensures levelData == old(levelData) && desc == old(desc) && vfs == old(vfs)
      ensures state == old(state) && hasWaitable == old(hasWaitable) && lastUsed == old(lastUsed)
      ensures levelData.fmt == old(levelData.fmt)
      ensures s == PrepareScan(load, vfs, d.filenames, cancelled, 0, StartScan(old(Current())))
      ensures s.ds == Current() && s.fmt == fmt
    {
      var cache := levelData;
      ghost var final := PrepareScan(load, vfs, d.filenames, cancelled, 0, StartScan(Current()));
      fmt := UNDEFINED;
      var pixelFormat := UNDEFINED;
      ghost var loads := 0;
      var bound := Bound(d.filenames);
      var i := 0;
      while i < bound
        invariant 0 <= i <= bound
        invariant desc == Some(d) && levelData == cache && vfs == old(vfs)
        invariant state == old(state) && hasWaitable == old(hasWaitable) && lastUsed == old(lastUsed)
        invariant cache.fmt == old(cache.fmt)
        invariant PrepareScan(load, vfs, d.filenames, cancelled, i, Scan(Current(), fmt, pixelFormat, loads, Exhausted)) == final
      {
        var go;
        go, pixelFormat, s := WalkStep(load, d, cancelled, i, pixelFormat, loads);
        if !go {
          return;
        }
        loads := loads + 1;
        i := i + 1;
      }
      s := Scan(Current(), fmt, pixelFormat, loads, Exhausted);
    }

    /** One pass of Prepare's loop at candidate `i`: stop on cancellation, an empty name or a
        missing file, else load the candidate. Either the walk goes on at `i + 1` to the same
        end, or it stops here in the returned state. */
    method WalkStep(ghost load: Loader, d: ReplacementDesc, cancelled: bool, i: nat, pf: DataFormat, ghost loads: nat)
      returns (go: bool, pixelFormat: DataFormat, ghost s: Scan)
      requires levelData != null && desc == Some(d) && LoadsLike(load, d.params)
      requires i < Bound(d.filenames) && cancelled == (state == CANCEL_INIT)
      modifies this, levelData
      ensures levelData == old(levelData) && desc == old(desc) && vfs == old(vfs)
      ensures state == old(state) && lastUsed == old(lastUsed) && hasWaitable == old(hasWaitable)
      ensures levelData.fmt == old(levelData.fmt)
      ensures var r := PrepareScan(load, vfs, d.filenames, cancelled, i, Scan(old(Current()), old(fmt), pf, loads, Exhausted));
        if go then PrepareScan(load, vfs, d.filenames, cancelled, i + 1, Scan(Current(), fmt, pixelFormat, loads + 1, Exhausted)) == r
        else s == r && s.ds == Current() && s.fmt == fmt
    {
      pixelFormat := pf;
      go := false;
      if state == CANCEL_INIT {
        s := Scan(Current(), fmt, pixelFormat, loads, Cancelled);
        return;
      }
      var name := d.filenames[i];
      if name == "" {
        s := Scan(Current(), fmt, pixelFormat, loads, EmptyName);
        return;
      }
      if name !in vfs {
        s := Scan(Current(), fmt, pixelFormat, loads, MissingFile);
        return;
      }
      ghost var why;
      go, pixelFormat, why := LoadCandidate(load, d, cancelled, i, pixelFormat, loads);
      s := Scan(Current(), fmt, pixelFormat, loads + 1, why);
    }

    /** Loads candidate `i` of `d` as mip level `i` and applies the format rules to the outcome:
        level 0 fixes the texture format, a later level must continue with the same pixel format.
        `go` says whether the walk moves on to candidate `i + 1`; otherwise `stop` says why not. */
    method LoadCandidate(ghost load: Loader, d: ReplacementDesc, cancelled: bool, i: nat, pf: DataFormat, ghost loads: nat)
      returns (go: bool, pixelFormat: DataFormat, ghost stop: Stop)
      requires levelData != null && desc == Some(d) && LoadsLike(load, d.params)
      requires i < Bound(d.filenames) && !cancelled && d.filenames[i] != "" && d.filenames[i] in vfs
      modifies this, levelData
      ensures levelData == old(levelData) && desc == old(desc) && vfs == old(vfs)
      ensures state == old(state) && lastUsed == old(lastUsed) && hasWaitable == old(hasWaitable)
      ensures levelData.fmt == old(levelData.fmt)
      ensures var r := AfterLoad(load, vfs, d.filenames, cancelled, i, Scan(old(Current()), old(fmt), pf, loads, Exhausted),
                                 load(vfs[d.filenames[i]], d.filenames[i], i, old(Current()), pf));
        if go then PrepareScan(load, vfs, d.filenames, cancelled, i + 1, Scan(Current(), fmt, pixelFormat, loads + 1, Exhausted)) == r
        else Scan(Current(), fmt, pixelFormat, loads + 1, stop) == r
    {
      var name := d.filenames[i];
      ghost var st := load(vfs[name], name, i, Current(), pf);
      ghost var r := AfterLoad(load, vfs, d.filenames, cancelled, i, Scan(Current(), fmt, pf, loads, Exhausted), st);
      ghost var fmt0 := if i == 0 then R8G8B8A8_UNORM else fmt;
      ghost var next := Scan(st.state, fmt0, st.pixelFormat, loads + 1, Exhausted);
      var result;
      result, pixelFormat := LoadAt(load, d, i, pf);
      go, stop := false, Exhausted;
      if result == DONE {
        fmt := pixelFormat;
        stop := LevelDone;
        assert r == next.(fmt := st.pixelFormat, stop := LevelDone);
      } else if result == CONTINUE {
        if i == 0 {
          fmt := pixelFormat;
          go := true;
          assert r == PrepareScan(load, vfs, d.filenames, cancelled, i + 1, next.(fmt := st.pixelFormat));
        } else if fmt != pixelFormat {
          stop := FormatMismatch;
          assert r == next.(stop := FormatMismatch);
        } else {
          go := true;
          assert r == PrepareScan(load, vfs, d.filenames, cancelled, i + 1, next);
        }
      } else {
        stop := LevelError;
        assert r == next.(stop := LevelError);
      }
    }

    /** The load of candidate `i` in Prepare's loop: mip 0 first sets the texture format to RGBA8,
        then the file is loaded as mip level `i`, with the outcome `load` gives. */
    method LoadAt(ghost load: Loader, d: ReplacementDesc, i: nat, pf: DataFormat) returns (result: LoadLevelResult, pixelFormat: DataFormat)
      requires levelData != null && desc == Some(d) && LoadsLike(load, d.params)
      requires i < |d.filenames| && d.filenames[i] in vfs
      modifies this, levelData
      ensures levelData == old(levelData) && desc == old(desc) && vfs == old(vfs)
      ensures state == old(state) && lastUsed == old(lastUsed) && hasWaitable == old(hasWaitable)
      ensures levelData.fmt == old(levelData.fmt)
      ensures fmt == if i == 0 then R8G8B8A8_UNORM else old(fmt)
      ensures Step(result, pixelFormat, Current()) == load(vfs[d.filenames[i]], d.filenames[i], i, old(Current()), pf)
    {
      var name := d.filenames[i];
      assert load(vfs[name], name, i, Current(), pf) == LoadLevel(vfs[name], name, d.params, i, Current(), pf);
      if i == 0 {
        fmt := R8G8B8A8_UNORM;
      }
      result, pixelFormat := LoadLevelData(name, i, pf);
    }

    /** Loads candidate `name` as mip level `mipLevel`; `pf` is the caller's pixel format, which
        some outcomes pass back unchanged. */
    method LoadLevelData(name: string, mipLevel: nat, pf: DataFormat) returns (result: LoadLevelResult, pixelFormat: DataFormat)
      requires levelData != null && desc.Some? && name in vfs
      modifies this, levelData
      ensures levelData == old(levelData) && desc == old(desc) && vfs == old(vfs)
      ensures Step(result, pixelFormat, Current()) ==
        LoadLevel(vfs[name], name, desc.value.params, mipLevel, old(Current()), pf)
      ensures levelData.fmt == old(levelData.fmt)
      ensures state == old(state) && lastUsed == old(lastUsed) && hasWaitable == old(hasWaitable) && fmt == old(fmt)
    {
      var f := vfs[name];
      if |levelData.data| <= mipLevel {
        levelData.data := Grow(levelData.data, mipLevel + 1);
      }
      if !f.opens {
        return DONE, pf;
      }
      result, pixelFormat := LoadOpenedData(f, name, mipLevel, pf);
    }

    method LoadOpenedData(f: ImageFile, name: string, mipLevel: nat, pf: DataFormat) returns (result: LoadLevelResult, pixelFormat: DataFormat)
      requires levelData != null && desc.Some? && mipLevel < |levelData.data|
      modifies this, levelData
      ensures levelData == old(levelData) && desc == old(desc) && vfs == old(vfs)
      ensures Step(result, pixelFormat, Current()) ==
        LoadOpened(f, name, desc.value.params, mipLevel, old(Current()), pf)
      ensures state == old(state) && lastUsed == old(lastUsed) && hasWaitable == old(hasWaitable) && fmt == old(fmt)
    {
      var p := desc.value.params;
      var magic, kind := Identify(f.head);
      var hi := HeaderStage(kind, f, p.support, pf);
      if levelData.data[mipLevel] != [] {
        return DONE, levelData.fmt;
      }
      var w := Rescale(hi.w, p.w, p.newW);
      var h := Rescale(hi.h, p.h, p.newH);
      if !hi.good || !SizeAccepted(levels, mipLevel, w, h) {
        return LOAD_ERROR, hi.pixelFormat;
      }
      result, pixelFormat := LoadBodyData(kind, f, name, p.support, mipLevel, hi, w, h);
    }

    /** The per-format load of a file whose header was accepted, dispatched on its container. */
    method LoadBodyData(kind: ReplacedImageType, f: ImageFile, name: string, s: FormatSupport, mipLevel: nat,
                        hi: HeaderInfo, w: nat, h: nat) returns (result: LoadLevelResult, pixelFormat: DataFormat)
      requires levelData != null && mipLevel < |levelData.data|
      requires kind == DDS ==> BlockSize(hi.pixelFormat).Some?
      modifies this, levelData
      ensures levelData == old(levelData) && desc == old(desc) && vfs == old(vfs)
      ensures Step(result, pixelFormat, Current()) == LoadBody(kind, f, name, s, mipLevel, hi, w, h, old(Current()))
      ensures state == old(state) && lastUsed == old(lastUsed) && hasWaitable == old(hasWaitable) && fmt == old(fmt)
    {
      match kind {
        case KTX2 => result, pixelFormat := LoadKtx2Data(f.transcoder, name, s, mipLevel, hi.numMips, hi.pixelFormat);
        case DDS => result, pixelFormat := LoadDdsData(f, name, mipLevel, hi.numMips, w, h, hi.pixelFormat);
        case ZIM => result, pixelFormat := LoadZimData(f, name, mipLevel, w, h);
        case PNG => result, pixelFormat := LoadPngData(f, name, mipLevel, w, h);
        case BASIS => return LOAD_ERROR, hi.pixelFormat;
        case INVALID => return LOAD_ERROR, hi.pixelFormat;
      }
    }

    /** KTX2: transcodes every embedded level into slots mipLevel.. of the cache. */
    method LoadKtx2Data(t: KtxTranscoder, name: string, s: FormatSupport, mipLevel: nat, numMips: nat, pf: DataFormat)
      returns (result: LoadLevelResult, pixelFormat: DataFormat)
      requires levelData != null
      modifies this, levelData
      ensures levelData == old(levelData) && desc == old(desc) && vfs == old(vfs)
      ensures Step(result, pixelFormat, Current()) == LoadKtx2(t, name, s, mipLevel, numMips, old(Current()), pf)
      ensures state == old(state) && lastUsed == old(lastUsed) && hasWaitable == old(hasWaitable) && fmt == old(fmt)
    {
      if !t.initOk {
        return LOAD_ERROR, pf;
      }
      var choice := KtxTarget(t.encoding, s);
      if choice.None? {
        return LOAD_ERROR, pf;
      }
      alphaStatus := choice.value.alpha;
      pixelFormat := choice.value.format;
      levelData.data := Grow(levelData.data, mipLevel + numMips);
      var chain, bufs := TranscodeKtxChain(t, pixelFormat, numMips, name);
      levelData.data := Place(levelData.data, mipLevel, bufs);
      levels := levels + chain;
      result := DONE;
    }

    /** DDS: reads every embedded level into slots mipLevel.. of the cache. */
    method LoadDdsData(f: ImageFile, name: string, mipLevel: nat, numMips: nat, w: nat, h: nat, pf: DataFormat)
      returns (result: LoadLevelResult, pixelFormat: DataFormat)
      requires levelData != null && BlockSize(pf).Some?
      modifies this, levelData
      ensures levelData == old(levelData) && desc == old(desc) && vfs == old(vfs)
      ensures Step(result, pixelFormat, Current()) == LoadDds(f, name, mipLevel, numMips, w, h, old(Current()), pf)
      ensures state == old(state) && lastUsed == old(lastUsed) && hasWaitable == old(hasWaitable) && fmt == old(fmt)
    {
      alphaStatus := UNKNOWN;
      var blockSize := BlockSize(pf).value;
      levelData.data := Grow(levelData.data, mipLevel + numMips);
      var chain, bufs := ReadDdsChain(w, h, blockSize, numMips, f.ddsBody, name);
      DdsBufferSizes(w, h, blockSize, numMips, f.ddsBody);
      levelData.data := Place(levelData.data, mipLevel, bufs);
      levels := levels + chain;
      return DONE, pf;
    }

    /** ZIM: decodes the single image and pads it into slot mipLevel. */
    method LoadZimData(f: ImageFile, name: string, mipLevel: nat, w: nat, h: nat)
      returns (result: LoadLevelResult, pixelFormat: DataFormat)
      requires levelData != null && mipLevel < |levelData.data|
      modifies this, levelData
      ensures levelData == old(levelData) && desc == old(desc) && vfs == old(vfs)
      ensures Step(result, pixelFormat, Current()) == LoadZim(f, name, mipLevel, w, h, old(Current()))
      ensures state == old(state) && lastUsed == old(lastUsed) && hasWaitable == old(hasWaitable) && fmt == old(fmt)
    {
      pixelFormat := R8G8B8A8_UNORM;
      if !f.zimReadOk {
        return LOAD_ERROR, pixelFormat;
      }
      match f.zimImage {
        case None =>
          return CONTINUE, pixelFormat;
        case Some(img) =>
          if img.w > w || img.h > h {
            return LOAD_ERROR, pixelFormat;
          }
          var out := PadZimImage(img, w, h);
          levelData.data := levelData.data[mipLevel := out];
          alphaStatus := CheckedAlpha(alphaStatus, f.alphaCheck, mipLevel);
          levels := levels + [Level(w, h, Some(name))];
          return CONTINUE, pixelFormat;
      }
    }

    /** PNG: decodes the single image into slot mipLevel, cleared again if the decode fails. */
    method LoadPngData(f: ImageFile, name: string, mipLevel: nat, w: nat, h: nat)
      returns (result: LoadLevelResult, pixelFormat: DataFormat)
      requires levelData != null && mipLevel < |levelData.data|
      modifies this, levelData
      ensures levelData == old(levelData) && desc == old(desc) && vfs == old(vfs)
      ensures Step(result, pixelFormat, Current()) == LoadPng(f, name, mipLevel, w, h, old(Current()))
      ensures state == old(state) && lastUsed == old(lastUsed) && hasWaitable == old(hasWaitable) && fmt == old(fmt)
    {
      pixelFormat := R8G8B8A8_UNORM;
      if f.pngImage.None? {
        return LOAD_ERROR, pixelFormat;
      }
      var png := f.pngImage.value;
      if png.width > w || png.height > h {
        return LOAD_ERROR, pixelFormat;
      }
      var checkedAlpha := false;
      if !png.hasAlpha {
        if mipLevel == 0 {
          alphaStatus := FULL;
        }
        checkedAlpha := true;
      }
      if f.pngPixels.None? {
        levelData.data := levelData.data[mipLevel := []];
        return LOAD_ERROR, pixelFormat;
      }
      levelData.data := levelData.data[mipLevel := Fit(f.pngPixels.value, w * h * 4)];
      if !checkedAlpha {
        alphaStatus := CheckedAlpha(alphaStatus, f.alphaCheck, mipLevel);
      }
      levels := levels + [Level(w, h, Some(name))];
      return CONTINUE, pixelFormat;
    }

    /** The texture is ACTIVE and its cache holds a non-empty buffer for level `level`. */
    predicate HasSlot(level: nat)
      reads this, levelData
    {
      state == ACTIVE && levelData != null && level < |levelData.data| && levelData.data[level] != []
    }

    /** Copies level `level` into `out`. It fails, writing nothing, unless the texture is ACTIVE,
        its cache still has a non-empty buffer for the level and, for RGBA8, `rowPitch` holds a
        whole row. An RGBA8
        level lands row by row at `rowPitch` with the bytes between rows untouched; any other
        format is copied as one block. */
    method CopyLevelTo(level: nat, out: array<byte>, rowPitch: nat) returns (ok: bool)
      requires Valid() && level < |levels| && rowPitch > 0
      requires HasSlot(level) && fmt == R8G8B8A8_UNORM && rowPitch >= levels[level].w * 4 ==>
        |levelData.data[level]| == levels[level].w * levels[level].h * 4 &&
        FitsRows(out.Length, rowPitch, levels[level].w * 4, levels[level].h)
      requires HasSlot(level) && fmt != R8G8B8A8_UNORM ==> |levelData.data[level]| <= out.Length
      modifies out
      ensures ok <==> HasSlot(level) && (fmt == R8G8B8A8_UNORM ==> rowPitch >= levels[level].w * 4)
      ensures !ok ==> out[..] == old(out[..])
      ensures ok && fmt == R8G8B8A8_UNORM ==>
        var rowLen := levels[level].w * 4;
        FitsRows(|levelData.data[level]|, rowLen, rowLen, levels[level].h) &&
        RowsCopied(out[..], old(out[..]), rowPitch, levelData.data[level], rowLen, rowLen, levels[level].h)
      ensures ok && fmt != R8G8B8A8_UNORM ==> forall j :: 0 <= j < out.Length ==>
        out[j] == if j < |levelData.data[level]| then levelData.data[level][j] else old(out[j])
    {
      if state != ACTIVE {
        return false;
      }
      if level >= |levelData.data| {
        // The shared cache was purged, or refilled with fewer levels, since this texture loaded.
        return false;
      }
      var info := levels[level];
      var data := levelData.data[level];
      if data == [] {
        return false;
      }
      if fmt == R8G8B8A8_UNORM {
        var rowLen := info.w * 4;
        if rowPitch < rowLen {
          return false;
        }
        PackedRowsFit(info.w, info.h);
        if rowPitch == rowLen {
          ghost var prior := out[..];
          CopyPrefix(out, data, rowLen * info.h);
          PrefixIsPackedRows(out[..], prior, data, rowLen, info.h);
        } else {
          CopyRows(out, rowPitch, data, rowLen, rowLen, info.h);
        }
      } else {
        CopyPrefix(out, data, |data|);
      }
      return true;
    }
  }

  /** A tightly packed RGBA8 image of `w` x `h` texels holds `h` rows of `w * 4` bytes. */
  lemma PackedRowsFit(w: nat, h: nat)
    ensures FitsRows(w * h * 4, w * 4, w * 4, h) && (w * 4) * h == w * h * 4
  {
    if h > 0 {
      assert w * 4 * (h - 1) + w * 4 == w * h * 4;
    }
  }
}
