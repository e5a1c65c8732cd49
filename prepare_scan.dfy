/** The candidate walk of Prepare as a function: up to MAX_REPLACEMENT_MIP_LEVELS file names are
    tried in order, each loaded as the next mip level, until one of the stop conditions holds. */
module PrepareLoop {
  import opened Formats
  import opened LevelMath
  import opened Vfs
  import opened LevelDecode

  /** The cap on candidate names, defined outside ReplacedTexture.cpp (see README). */
  const MAX_REPLACEMENT_MIP_LEVELS: nat := 12

  /** Why the walk ended. */
  datatype Stop =
    | Exhausted        // every candidate up to the bound was loaded and asked for more
    | Cancelled        // the texture was being torn down
    | EmptyName        // an empty name marks the end of the list
    | MissingFile      // the file system has no such file
    | LevelDone        // a load reported that it brought all the levels it will
    | LevelError       // a load failed
    | FormatMismatch   // a later level has another pixel format than level 0

  /** The walk's running state: what loading changes, the texture format so far, the last pixel
      format a load reported, how many loads ran and why the walk ended. */
  datatype Scan = Scan(ds: DecodeState, fmt: DataFormat, pf: DataFormat, loads: nat, stop: Stop)

  /** What loads one candidate: the file, its name, the mip level, the state before and the
      caller's pixel format. */
  type Loader = (ImageFile, string, nat, DecodeState, DataFormat) -> Step

  /** The loader of a walk with fixed decode parameters. */
  function LoaderFor(p: DecodeParams): Loader {
    (f: ImageFile, name: string, mipLevel: nat, ds: DecodeState, pf: DataFormat) => LoadLevel(f, name, p, mipLevel, ds, pf)
  }

  /** `load` agrees with LoadLevel under the parameters `p`. The agreement is stated per call, so
      it is used only where a LoadLevel term is already in view. */
  ghost predicate LoadsLike(load: Loader, p: DecodeParams) {
    forall f, name, k, ds, pf {:trigger LoadLevel(f, name, p, k, ds, pf)} ::
      load(f, name, k, ds, pf) == LoadLevel(f, name, p, k, ds, pf)
  }

  lemma LoaderForLoadsLike(p: DecodeParams)
    ensures LoadsLike(LoaderFor(p), p)
  {
  }

  function Bound(names: seq<string>): (r: nat)
    ensures r <= MAX_REPLACEMENT_MIP_LEVELS && r <= |names|
    ensures r == MAX_REPLACEMENT_MIP_LEVELS || r == |names|
  {
    if |names| < MAX_REPLACEMENT_MIP_LEVELS then |names| else MAX_REPLACEMENT_MIP_LEVELS
  }

  /** The walk from candidate `i` on, with `s` the state before it. At most one load runs per
      remaining position, and the walk only runs to the bound when every one of them loaded. */
  function PrepareScan(load: Loader, fs: FileSystem, names: seq<string>, cancelled: bool, i: nat, s: Scan): (r: Scan)
    requires i <= Bound(names)
    ensures s.loads <= r.loads <= s.loads + (Bound(names) - i)
    ensures r.stop == Exhausted ==> r.loads == s.loads + (Bound(names) - i)
    decreases Bound(names) - i, 1
  {
    if i == Bound(names) then s.(stop := Exhausted)
    else if cancelled then s.(stop := Cancelled)
    else if names[i] == "" then s.(stop := EmptyName)
    else if names[i] !in fs then s.(stop := MissingFile)
    else AfterLoad(load, fs, names, cancelled, i, s, load(fs[names[i]], names[i], i, s.ds, s.pf))
  }

  /** The walk once candidate `i` has been loaded with outcome `st`: mip 0 sets the texture
      format, a later level must report the same pixel format to go on. The load counts, and the
      walk goes on only after a load that continues. */
  function AfterLoad(load: Loader, fs: FileSystem, names: seq<string>, cancelled: bool, i: nat, s: Scan, st: Step): (r: Scan)
    requires i < Bound(names)
    ensures s.loads + 1 <= r.loads <= s.loads + (Bound(names) - i)
    ensures r.stop == Exhausted ==> st.result == CONTINUE && r.loads == s.loads + (Bound(names) - i)
    decreases Bound(names) - i, 0
  {
    var fmt := if i == 0 then R8G8B8A8_UNORM else s.fmt;
    var next := Scan(st.state, fmt, st.pixelFormat, s.loads + 1, s.stop);
    match st.result
    case DONE => next.(fmt := st.pixelFormat, stop := LevelDone)
    case LOAD_ERROR => next.(stop := LevelError)
    case CONTINUE =>
      if i == 0 then PrepareScan(load, fs, names, cancelled, i + 1, next.(fmt := st.pixelFormat))
      else if fmt != st.pixelFormat then next.(stop := FormatMismatch)
      else PrepareScan(load, fs, names, cancelled, i + 1, next)
  }

  /** The state a walk starts from: nothing loaded yet, format UNDEFINED. */
  function StartScan(ds: DecodeState): Scan {
    Scan(ds, UNDEFINED, UNDEFINED, 0, Exhausted)
  }

  /** A loader that never removes or reorders levels and leaves the cache format alone. */
  ghost predicate AppendsOnly(load: Loader) {
    forall f, name, k, ds: DecodeState, pf ::
      && |load(f, name, k, ds, pf).state.levels| >= |ds.levels|
      && load(f, name, k, ds, pf).state.levels[..|ds.levels|] == ds.levels
      && load(f, name, k, ds, pf).state.cacheFmt == ds.cacheFmt
  }

  lemma LoaderAppendsOnly(p: DecodeParams)
    ensures AppendsOnly(LoaderFor(p))
  {
    forall f, name, k, ds: DecodeState, pf
      ensures && |LoaderFor(p)(f, name, k, ds, pf).state.levels| >= |ds.levels|
              && LoaderFor(p)(f, name, k, ds, pf).state.levels[..|ds.levels|] == ds.levels
              && LoaderFor(p)(f, name, k, ds, pf).state.cacheFmt == ds.cacheFmt
    {
    }
  }

  /** The walk only appends levels: the levels it started with stay, in order, in front. */
  lemma {:induction false} ScanAppendsLevels(load: Loader, fs: FileSystem, names: seq<string>, cancelled: bool, i: nat, s: Scan)
    requires i <= Bound(names) && AppendsOnly(load)
    ensures var r := PrepareScan(load, fs, names, cancelled, i, s);
      |r.ds.levels| >= |s.ds.levels| && r.ds.levels[..|s.ds.levels|] == s.ds.levels
    ensures PrepareScan(load, fs, names, cancelled, i, s).ds.cacheFmt == s.ds.cacheFmt
    decreases Bound(names) - i
  {
    if i < Bound(names) && !cancelled && names[i] != "" && names[i] in fs {
      var fmt := if i == 0 then R8G8B8A8_UNORM else s.fmt;
      var st := load(fs[names[i]], names[i], i, s.ds, s.pf);
      var next := Scan(st.state, fmt, st.pixelFormat, s.loads + 1, s.stop);
      if st.result == CONTINUE {
        ScanAppendsLevels(load, fs, names, cancelled, i + 1, next.(fmt := st.pixelFormat));
        ScanAppendsLevels(load, fs, names, cancelled, i + 1, next);
        var r := PrepareScan(load, fs, names, cancelled, i, s);
        assert r.ds.levels[..|s.ds.levels|] == st.state.levels[..|s.ds.levels|];
      }
    }
  }

  /** A walk started during teardown loads nothing and reports the cancellation (unless there is
      no candidate at all). */
  lemma ScanCancelled(load: Loader, fs: FileSystem, names: seq<string>, ds: DecodeState)
    ensures var r := PrepareScan(load, fs, names, true, 0, StartScan(ds));
      r.loads == 0 && r.ds == ds && r.fmt == UNDEFINED &&
      r.stop == (if |names| == 0 then Exhausted else Cancelled)
  {
  }

  /** If the first name is missing from the file system the walk ends there, nothing loaded. */
  lemma ScanFirstFileMissing(load: Loader, fs: FileSystem, names: seq<string>, ds: DecodeState)
    requires |names| > 0 && names[0] != "" && names[0] !in fs
    ensures var r := PrepareScan(load, fs, names, false, 0, StartScan(ds));
      r.loads == 0 && r.ds == ds && r.stop == MissingFile
  {
  }

  /** When the shared cache already holds level 0, the first load reports DONE with the cache's
      format and adds no level, so the walk ends there with the levels it started with. */
  lemma ScanCachedLevelZero(p: DecodeParams, fs: FileSystem, names: seq<string>, ds: DecodeState)
    requires |names| > 0 && names[0] != "" && names[0] in fs && fs[names[0]].opens
    requires |ds.data| > 0 && ds.data[0] != []
    ensures var r := PrepareScan(LoaderFor(p), fs, names, false, 0, StartScan(ds));
      r.loads == 1 && r.stop == LevelDone && r.ds.levels == ds.levels && r.fmt == ds.cacheFmt
  {
  }

  /** The walk stops at a format mismatch only after a level above 0 continued with a pixel
      format different from the texture's, so only after at least two loads from the start. */
  lemma {:induction false} ScanMismatchOnlyAboveZero(load: Loader, fs: FileSystem, names: seq<string>, cancelled: bool, i: nat, s: Scan)
    requires i <= Bound(names)
    ensures var r := PrepareScan(load, fs, names, cancelled, i, s);
      r.stop == FormatMismatch ==>
        r.loads >= s.loads + 1 && (i == 0 ==> r.loads >= s.loads + 2) && r.fmt != r.pf
    decreases Bound(names) - i
  {
    if i < Bound(names) && !cancelled && names[i] != "" && names[i] in fs {
      var fmt := if i == 0 then R8G8B8A8_UNORM else s.fmt;
      var st := load(fs[names[i]], names[i], i, s.ds, s.pf);
      var next := Scan(st.state, fmt, st.pixelFormat, s.loads + 1, s.stop);
      if st.result == CONTINUE {
        ScanMismatchOnlyAboveZero(load, fs, names, cancelled, i + 1, next.(fmt := st.pixelFormat));
        ScanMismatchOnlyAboveZero(load, fs, names, cancelled, i + 1, next);
      }
    }
  }

  /** A walk whose loads all continue with one pixel format and run to the end of the list loads
      every candidate and keeps that format. */
  lemma {:induction false} ScanUniformChain(load: Loader, fs: FileSystem, names: seq<string>, i: nat, s: Scan, f: DataFormat)
    requires i <= Bound(names)
    requires i > 0 ==> s.fmt == f && s.pf == f
    requires forall k :: i <= k < Bound(names) ==> names[k] != "" && names[k] in fs
    requires forall k, ds: DecodeState, pf: DataFormat :: i <= k < Bound(names) ==>
      load(fs[names[k]], names[k], k, ds, pf).result == CONTINUE &&
      load(fs[names[k]], names[k], k, ds, pf).pixelFormat == f
    ensures var r := PrepareScan(load, fs, names, false, i, s);
      r.stop == Exhausted && r.loads == s.loads + (Bound(names) - i) && (Bound(names) > 0 ==> r.fmt == f)
    decreases Bound(names) - i
  {
    if i < Bound(names) {
      var fmt := if i == 0 then R8G8B8A8_UNORM else s.fmt;
      var st := load(fs[names[i]], names[i], i, s.ds, s.pf);
      var next := Scan(st.state, fmt, st.pixelFormat, s.loads + 1, s.stop);
      if i == 0 {
        ScanUniformChain(load, fs, names, i + 1, next.(fmt := st.pixelFormat), f);
      } else {
        ScanUniformChain(load, fs, names, i + 1, next, f);
      }
    }
  }
}
