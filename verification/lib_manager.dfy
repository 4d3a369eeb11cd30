/** The search-and-load engine of the Java loader (`LibManager`): the
    location-override code string, the growable array of downloaded paths,
    the memoised latest-version lookup, the first-success search over the
    `Location`s and the load, download, reload orchestration.

    Every effect is an oracle in `Env`: whether a file is present, whether
    `System.load` / `System.loadLibrary` succeed, the candidate files the
    path iterator proposes for a location, the package version probe and
    the remote latest-version query. */
module LibManager {
  import opened Util
  import Platform
  import LMProperties
  import ChildProtocol

  /** `LibManager.Location`, in declaration order, which is the default
      search order. */
  datatype Location =
    | LatestPath | KnownPath | Cfg | NcbiHome | LibPath | NcbiNgsJarDir | ClassPath | Cwd | Tmp

  /** `Location.values()`. */
  const AllLocations: seq<Location> :=
    [LatestPath, KnownPath, Cfg, NcbiHome, LibPath, NcbiNgsJarDir, ClassPath, Cwd, Tmp]

  // ------------------------------------------------- location override code

  const Codes := "CJKLNTW"

  /** The location a letter of `vdb.loadLibraryLocations` selects. */
  function LocationOf(ch: char): Option<Location> {
    match ch
    case 'C' => Some(ClassPath)
    case 'J' => Some(NcbiNgsJarDir)
    case 'K' => Some(KnownPath)
    case 'L' => Some(LibPath)
    case 'N' => Some(NcbiHome)
    case 'T' => Some(Tmp)
    case 'W' => Some(Cwd)
    case _ => None
  }

  /** The letter that selects a location; the latest-path and config
      locations have none. */
  function CodeOf(l: Location): Option<char> {
    match l
    case ClassPath => Some('C')
    case NcbiNgsJarDir => Some('J')
    case KnownPath => Some('K')
    case LibPath => Some('L')
    case NcbiHome => Some('N')
    case Tmp => Some('T')
    case Cwd => Some('W')
    case LatestPath => None
    case Cfg => None
  }

  /** The two tables are inverse to each other, and a letter is recognised
      exactly when it is one of "CJKLNTW". */
  lemma CodeRoundTrip(ch: char, l: Location)
    ensures LocationOf(ch) == Some(l) <==> CodeOf(l) == Some(ch)
    ensures LocationOf(ch).Some? <==> ch in Codes
  {
  }

  /** The locations a code string selects, in order of appearance; every
      other character is skipped. */
  function Selected(p: string): seq<Location>
    decreases |p|
  {
    if |p| == 0 then []
    else
      var last := LocationOf(p[|p| - 1]);
      Selected(p[..|p| - 1]) + (if last.Some? then [last.value] else [])
  }

  /** `Selected` reads the string piece by piece. */
  lemma {:induction false} SelectedAppend(a: string, b: string)
    ensures Selected(a + b) == Selected(a) + Selected(b)
    decreases |b|
  {
    if |b| == 0 {
      assert a + b == a;
    } else {
      var b' := b[..|b| - 1];
      assert (a + b)[..|a + b| - 1] == a + b';
      assert b[..|b| - 1] == b';
      SelectedAppend(a, b');
    }
  }

  /** One letter selects its location or nothing, and an override can
      never name the latest-path or the config location. */
  lemma SelectedLetter(ch: char)
    ensures Selected([ch]) == (if LocationOf(ch).Some? then [LocationOf(ch).value] else [])
    ensures LatestPath !in Selected([ch]) && Cfg !in Selected([ch])
  {
    assert [ch][..0] == [];
  }

  /** `getLocationProperty()`, given the value of `vdb.loadLibraryLocations`:
      null when the property is unset or selects nothing, otherwise the
      selected locations, counted first and then filled in. */
  method GetLocationProperty(p: Option<string>) returns (r: Option<seq<Location>>)
    ensures p.None? ==> r.None?
    ensures p.Some? ==> (r.None? <==> Selected(p.value) == [])
    ensures r.Some? ==> r.value == Selected(p.value)
  {
    if p.None? {
      return None;
    }
    var s := p.value;
    var n := 0;
    var i := 0;
    while i < |s|
      invariant 0 <= i <= |s|
      invariant n == |Selected(s[..i])|
    {
      assert s[..i + 1][..i] == s[..i];
      CodeRoundTrip(s[i], ClassPath);
      if s[i] in Codes {
        n := n + 1;
      }
      i := i + 1;
    }
    assert s[..|s|] == s;
    if n == 0 {
      return None;
    }
    var locations: seq<Location> := [];
    i := 0;
    while i < |s|
      invariant 0 <= i <= |s|
      invariant locations == Selected(s[..i])
    {
      assert s[..i + 1][..i] == s[..i];
      var l := LocationOf(s[i]);
      if l.Some? {
        locations := locations + [l.value];
      }
      i := i + 1;
    }
    return Some(locations);
  }

  // --------------------------------------------------------- known paths

  /** The slots of `knownLibPath`: a null slot is None. */
  type Slots = seq<Option<string>>

  /** The index of the first null slot, or the length when the array is
      full. */
  function FirstFree(s: Slots): (i: nat)
    ensures i <= |s|
    ensures forall k :: 0 <= k < i ==> s[k].Some?
    ensures i < |s| ==> s[i].None?
  {
    if |s| == 0 || s[0].None? then 0 else 1 + FirstFree(s[1..])
  }

  /** The paths the array holds, in order: the slots before the first null. */
  function Entries(s: Slots): seq<string> {
    var n := FirstFree(s);
    seq(n, k requires 0 <= k < n => s[k].value)
  }

  /** A slot index with only non-null slots before it and a null slot (or
      the end) at it is the first free one. */
  lemma FirstFreeAt(s: Slots, i: nat)
    requires i <= |s| && (forall k :: 0 <= k < i ==> s[k].Some?) && (i < |s| ==> s[i].None?)
    ensures FirstFree(s) == i
  {
  }

  /** Every slot after the first null is null too: the shape the array
      keeps, since paths are only ever added at the first null. */
  predicate Packed(s: Slots) {
    forall k :: FirstFree(s) <= k < |s| ==> s[k].None?
  }

  const InitialCapacity := 9

  /** `updateKnownLibPath(pathname)`: `known` is `knownLibPath` (None while
      it is null). The array is created with nine slots, doubled exactly
      when it is full, and the path goes into the first null slot; every
      other slot keeps its content. The array is only ever created here,
      so it is never empty. */
  method UpdateKnownLibPath(known: Option<Slots>, pathname: string) returns (r: Slots)
    requires known.Some? ==> |known.value| > 0
    ensures known.None? ==>
              |r| == InitialCapacity && r[0] == Some(pathname)
              && forall k :: 1 <= k < |r| ==> r[k].None?
    ensures known.Some? ==>
              var s := known.value;
              var i := FirstFree(s);
              && |r| == (if i == |s| then 2 * |s| else |s|)
              && r[i] == Some(pathname)
              && forall k :: 0 <= k < |r| && k != i ==> r[k] == (if k < |s| then s[k] else None)
  {
    var l := InitialCapacity;
    var a: Slots;
    if known.None? {
      a := seq(l, _ => None);
    } else {
      a := known.value;
      l := |a|;
    }
    var i := 0;
    while i < l && a[i].Some?
      invariant 0 <= i <= l == |a|
      invariant forall k :: 0 <= k < i ==> a[k].Some?
    {
      i := i + 1;
    }
    FirstFreeAt(a, i);
    if i >= l {
      var tmp := a;
      l := l * 2;
      a := seq(l, _ => None);
      i := 0;
      while i < |tmp|
        invariant 0 <= i <= |tmp| && |a| == l
        invariant forall k :: 0 <= k < i ==> a[k] == tmp[k]
        invariant forall k :: i <= k < l ==> a[k].None?
      {
        a := a[i := tmp[i]];
        i := i + 1;
      }
    }
    r := a[i := Some(pathname)];
  }

  /** Adding a path keeps the array packed and appends the path to its
      entries, whatever the capacity was. */
  lemma {:induction false} UpdateAppends(s: Slots, r: Slots, pathname: string)
    requires Packed(s)
    requires var i := FirstFree(s);
             && |r| == (if i == |s| then 2 * |s| else |s|) && i < |r|
             && r[i] == Some(pathname)
             && forall k :: 0 <= k < |r| && k != i ==> r[k] == (if k < |s| then s[k] else None)
    ensures Packed(r)
    ensures Entries(r) == Entries(s) + [pathname]
  {
    var i := FirstFree(s);
    assert forall k :: 0 <= k <= i ==> r[k].Some?;
    if i + 1 < |r| {
      assert i + 1 >= |s| || s[i + 1].None?;
    }
    FirstFreeAt(r, i + 1);
  }

  /** The entries of an array whose first slot is taken. */
  lemma EntriesCons(s: Slots)
    requires |s| > 0 && s[0].Some?
    ensures Entries(s) == [s[0].value] + Entries(s[1..])
  {
  }

  /** Entry `k` is the first of `es` that contains the library name. */
  ghost predicate FirstMatch(es: seq<string>, libname: string, k: int) {
    && 0 <= k < |es| && Contains(es[k], libname)
    && forall j :: 0 <= j < k ==> !Contains(es[j], libname)
  }

  /** The `KNOWN_PATH` lookup: the first recorded path that contains the
      library name. */
  function KnownMatch(s: Slots, libname: string): (r: Option<string>)
    ensures r.None? <==> forall k :: 0 <= k < |Entries(s)| ==> !Contains(Entries(s)[k], libname)
    ensures r.Some? ==> exists k :: FirstMatch(Entries(s), libname, k) && Entries(s)[k] == r.value
  {
    if |s| == 0 || s[0].None? then None
    else if ContainsStr(s[0].value, libname) then
      assert FirstMatch(Entries(s), libname, 0);
      s[0]
    else
      var r := KnownMatch(s[1..], libname);
      EntriesCons(s);
      var es, rest := Entries(s), Entries(s[1..]);
      assert !Contains(es[0], libname);
      assert forall k :: 1 <= k < |es| ==> es[k] == rest[k - 1];
      assert r.Some? ==> exists k :: FirstMatch(es, libname, k) && es[k] == r.value by {
        if r.Some? {
          var k :| FirstMatch(rest, libname, k) && rest[k] == r.value;
          assert FirstMatch(es, libname, k + 1);
        }
      }
      r
  }

  // ------------------------------------------------------------- the state

  /** Everything the search consults: system properties, the platform's
      `System.mapLibraryName`, the file system and the two native loaders,
      the candidate files `LibPathIterator` proposes for a location and a
      list of base names, the version probe of the two packages, the
      version ordering and the remote latest-version query (None when no
      endpoint answers). */
  datatype Env = Env(
    sys: Platform.SysProps,
    mapName: string -> string,
    present: string -> bool,
    loadPath: string -> bool,
    loadLib: string -> bool,
    candidates: (Location, seq<string>) -> seq<string>,
    probe: string -> Probe,
    older: LMProperties.VersionOrder,
    remote: string -> Option<string>)

  /** The loader's fields: the property cache, the latest-version memo
      (`Latest`), the paths a child process reported (`latestLibPaths`),
      the download array, the search order and whether smart search is off
      (`JUST_DO_REGULAR_JAVA_SYSTEM_LOAD_LIBRARY`). */
  datatype Manager = Manager(
    props: LMProperties.Cache,
    latest: map<string, string>,
    latestLibPaths: map<string, string>,
    known: Option<Slots>,
    locations: seq<Location>,
    force: bool)

  const ForceKey := "vdb.System.loadLibrary"

  /** `Latest.get(libname)`: the memoised answer, otherwise the remote one,
      which is remembered only when it is not null. */
  function LatestGet(memo: map<string, string>, libname: string, remote: string -> Option<string>)
    : (r: (Option<string>, map<string, string>))
    ensures libname in memo ==> r == (Some(memo[libname]), memo)
    ensures libname !in memo && remote(libname).Some? ==>
              r == (remote(libname), memo[libname := remote(libname).value])
    ensures libname !in memo && remote(libname).None? ==> r == (None, memo)
  {
    if libname in memo then (Some(memo[libname]), memo)
    else
      var v := remote(libname);
      if v.Some? then (v, memo[libname := v.value]) else (None, memo)
  }

  /** Once an answer is known it is never asked for again: a second call,
      whatever the remote side would say by then, repeats it and leaves
      the memo alone; a null answer is not remembered. */
  lemma LatestMemoised(memo: map<string, string>, libname: string,
                       remote: string -> Option<string>, later: string -> Option<string>)
    ensures var first := LatestGet(memo, libname, remote);
            && (first.0.Some? ==> LatestGet(first.1, libname, later) == first)
            && (first.0.None? ==> first.1 == memo && libname !in memo)
  {
  }

  /** How a package's version query ended: with a version string, with
      `ngs.ErrorMsg` or `UnsatisfiedLinkError` (which `current` catches),
      or with any other throwable, which `current` lets through. */
  datatype Probe = Reported(version: string) | Caught | Escapes

  /** What `current(libname)` gives back: a version, null, or an escaping
      throwable. */
  datatype Answer = Known(version: string) | Null | Raises

  /** `current(libname)`: the probed package version of ncbi-vdb and
      ngs-sdk, "0" when the probe ends with an error `current` catches,
      and null for any other library. */
  function Current(env: Env, libname: string): (v: Answer)
    ensures v.Null? <==> libname != "ncbi-vdb" && libname != "ngs-sdk"
    ensures v.Known? ==> (env.probe(libname) == Caught && v.version == "0") || env.probe(libname) == Reported(v.version)
    ensures v.Raises? <==> !v.Null? && env.probe(libname).Escapes?
  {
    if libname == "ncbi-vdb" || libname == "ngs-sdk" then
      match env.probe(libname)
      case Reported(version) => Known(version)
      case Caught => Known("0")
      case Escapes => Raises
    else Null
  }

  // -------------------------------------------------------- single loads

  /** The outcome of one load call, with the state it leaves. */
  datatype Loaded = Loaded(ok: bool, m: Manager)

  /** Records a successful native load in the cache. The version is
      computed before `loaded` is entered, so a throwable escaping
      `current` leaves the cache alone; a null version makes the second
      `setProperty` throw after the path is written. Either way the
      `catch (Throwable)` around the call turns it into a failed load. */
  function Record(m: Manager, env: Env, libname: string, path: string): (r: Loaded)
    ensures r.m == m.(props := r.m.props)
    ensures r.ok <==> Current(env, libname).Known?
    ensures Current(env, libname).Raises? ==> r == Loaded(false, m)
    ensures !Current(env, libname).Raises? ==>
              var pk := LMProperties.PathKey(libname, m.props.bits, LMProperties.Loaded);
              var vk := LMProperties.VersionKey(libname, m.props.bits, LMProperties.Loaded);
              && LMProperties.SameExcept(m.props.props, r.m.props.props, {pk, vk})
              && pk in r.m.props.props && r.m.props.props[pk] == path
              && (r.ok ==> vk in r.m.props.props && r.m.props.props[vk] == Current(env, libname).version)
    ensures r.m.props.path == m.props.path && r.m.props.bits == m.props.bits
  {
    match Current(env, libname)
    case Raises => Loaded(false, m)
    case Null =>
      var u := LMProperties.MarkLoaded(m.props, libname, None, path);
      Loaded(false, m.(props := u.cache))
    case Known(version) =>
      var u := LMProperties.MarkLoaded(m.props, libname, Some(version), path);
      Loaded(!u.threw, m.(props := u.cache))
  }

  /** A native load can only be recorded for the two packages whose
      version the loader knows how to ask; for any other library every
      load reports failure even though the native call succeeded. */
  lemma OnlyKnownPackagesRecord(m: Manager, env: Env, libname: string, path: string)
    ensures Record(m, env, libname, path).ok ==> libname == "ncbi-vdb" || libname == "ngs-sdk"
  {
  }

  /** `systemLoad(filename, libname)`: the file must be present and
      `System.load` must succeed. */
  function SystemLoad(m: Manager, env: Env, filename: string, libname: string): (r: Loaded)
    ensures r.m == m.(props := r.m.props)
    ensures !(env.present(filename) && env.loadPath(filename)) ==> r == Loaded(false, m)
    ensures r.ok <==> env.present(filename) && env.loadPath(filename) && Current(env, libname).Known?
  {
    if env.present(filename) && env.loadPath(filename) then Record(m, env, libname, filename)
    else Loaded(false, m)
  }

  /** `systemLoadLibrary(name, l, libname)`: `System.loadLibrary` must
      succeed. */
  function SystemLoadLibrary(m: Manager, env: Env, name: string, libname: string): (r: Loaded)
    ensures r.m == m.(props := r.m.props)
    ensures !env.loadLib(name) ==> r == Loaded(false, m)
    ensures r.ok <==> env.loadLib(name) && Current(env, libname).Known?
  {
    if env.loadLib(name) then Record(m, env, libname, name) else Loaded(false, m)
  }

  // ------------------------------------------------------------ the search

  /** What one location contributed: a loaded name, go on with the next
      location, or stop the search without a result. */
  datatype Step = Found(name: string) | Next | Stop

  datatype Attempt = Attempt(step: Step, m: Manager)

  /** The search state a load may touch: the cached properties, their
      dirty flag and the memo; the cache's file and data model, the search
      order, the download array, the reported paths and the mode stay as
      they are. */
  predicate SameShape(m: Manager, m': Manager) {
    m'.latestLibPaths == m.latestLibPaths && m'.known == m.known
    && m'.locations == m.locations && m'.force == m.force
    && m'.props.path == m.props.path && m'.props.bits == m.props.bits
  }

  /** `LIBPATH`: the plain name through `System.loadLibrary`; in forced
      mode a failure ends the search, otherwise the data-model name is
      tried next. */
  function TryLibPath(m: Manager, env: Env, libname: string): (r: Attempt)
    ensures SameShape(m, r.m) && r.m.latest == m.latest
    ensures r.step.Found? <==> || (env.loadLib(libname) && Current(env, libname).Known?)
                               || (!m.force && Current(env, libname).Known?
                                   && Platform.LibnameWithDataModel(libname, env.sys).Some?
                                   && env.loadLib(Platform.LibnameWithDataModel(libname, env.sys).value))
    ensures r.step.Found? && env.loadLib(libname) ==> r.step.name == libname
    ensures r.step.Found? && !env.loadLib(libname) ==>
              r.step.name == Platform.LibnameWithDataModel(libname, env.sys).value
    ensures r.step.Stop? <==> m.force && !r.step.Found?
  {
    var plain := SystemLoadLibrary(m, env, libname, libname);
    if plain.ok then Attempt(Found(libname), plain.m)
    else if m.force then Attempt(Stop, plain.m)
    else
      var dm := Platform.LibnameWithDataModel(libname, env.sys);
      if dm.Some? then
        var withModel := SystemLoadLibrary(plain.m, env, dm.value, libname);
        if withModel.ok then Attempt(Found(dm.value), withModel.m) else Attempt(Next, withModel.m)
      else Attempt(Next, plain.m)
  }

  /** Loading a remembered file name: one that starts with the library
      name goes through `System.loadLibrary` and answers the library name,
      any other through `System.load` and answers the file name. */
  function LoadRemembered(m: Manager, env: Env, filename: string, libname: string): (r: Attempt)
    ensures SameShape(m, r.m) && r.m.latest == m.latest
    ensures r.step != Stop
    ensures StartsWith(filename, libname) ==>
              (r.step.Found? <==> env.loadLib(filename) && Current(env, libname).Known?)
              && (r.step.Found? ==> r.step.name == libname)
    ensures !StartsWith(filename, libname) ==>
              (r.step.Found? <==> env.present(filename) && env.loadPath(filename) && Current(env, libname).Known?)
              && (r.step.Found? ==> r.step.name == filename)
  {
    if StartsWith(filename, libname) then
      var a := SystemLoadLibrary(m, env, filename, libname);
      Attempt(if a.ok then Found(libname) else Next, a.m)
    else
      var a := SystemLoad(m, env, filename, libname);
      Attempt(if a.ok then Found(filename) else Next, a.m)
  }

  /** `LATEST_PATH`: the path a child process reported for this library. */
  function TryLatestPath(m: Manager, env: Env, libname: string): (r: Attempt)
    ensures SameShape(m, r.m) && r.m.latest == m.latest && r.step != Stop
    ensures libname !in m.latestLibPaths ==> r == Attempt(Next, m)
    ensures libname in m.latestLibPaths ==> r == LoadRemembered(m, env, m.latestLibPaths[libname], libname)
  {
    if libname in m.latestLibPaths then LoadRemembered(m, env, m.latestLibPaths[libname], libname)
    else Attempt(Next, m)
  }

  /** `CFG`: the cached path for the latest version; when it does not
      load, the "loaded" record is dropped. */
  function TryCfg(m: Manager, env: Env, libname: string): (r: Attempt)
    ensures SameShape(m, r.m) && r.step != Stop
    ensures var (lat, memo) := LatestGet(m.latest, libname, env.remote);
            var lookup := LMProperties.Get(m.props, libname, lat, env.present, env.older);
            && r.m.latest == memo
            && (lookup.path.None? ==> r == Attempt(Next, m.(props := lookup.cache, latest := memo)))
            && (lookup.path.Some? ==>
                  var tried := LoadRemembered(m.(props := lookup.cache, latest := memo), env, lookup.path.value, libname);
                  && r.step == tried.step
                  && (tried.step.Next? ==> r.m.props == LMProperties.NotLoaded(tried.m.props, libname))
                  && (tried.step.Found? ==> r.m == tried.m))
  {
    var (lat, memo) := LatestGet(m.latest, libname, env.remote);
    var lookup := LMProperties.Get(m.props, libname, lat, env.present, env.older);
    var m1 := m.(props := lookup.cache, latest := memo);
    if lookup.path.None? then Attempt(Next, m1)
    else
      var tried := LoadRemembered(m1, env, lookup.path.value, libname);
      if tried.step.Found? then tried
      else Attempt(Next, tried.m.(props := LMProperties.NotLoaded(tried.m.props, libname)))
  }

  /** File `i` of `files` is the first that loads. */
  ghost predicate FirstLoadable(env: Env, files: seq<string>, libname: string, i: int) {
    && 0 <= i < |files|
    && Loadable(env, files[i], libname)
    && forall j :: 0 <= j < i ==> !Loadable(env, files[j], libname)
  }

  /** A file `systemLoad` succeeds with. */
  predicate Loadable(env: Env, filename: string, libname: string) {
    env.present(filename) && env.loadPath(filename) && Current(env, libname).Known?
  }

  /** The inner `while` over `LibPathIterator`: the first candidate file
      that loads. */
  function FirstLoad(m: Manager, env: Env, files: seq<string>, libname: string): (r: Attempt)
    decreases |files|
    ensures SameShape(m, r.m) && r.m.latest == m.latest && r.step != Stop
    ensures r.step.Next? <==> forall k :: 0 <= k < |files| ==> !Loadable(env, files[k], libname)
    ensures r.step.Found? ==> exists i :: FirstLoadable(env, files, libname, i) && files[i] == r.step.name
  {
    if |files| == 0 then Attempt(Next, m)
    else
      var a := SystemLoad(m, env, files[0], libname);
      if a.ok then
        assert FirstLoadable(env, files, libname, 0);
        Attempt(Found(files[0]), a.m)
      else
        var r := FirstLoad(a.m, env, files[1..], libname);
        assert forall k :: 1 <= k < |files| ==> files[k] == files[1..][k - 1];
        assert r.step.Found? ==> exists i :: FirstLoadable(env, files, libname, i) && files[i] == r.step.name by {
          if r.step.Found? {
            var i :| FirstLoadable(env, files[1..], libname, i) && files[1..][i] == r.step.name;
            assert FirstLoadable(env, files, libname, i + 1);
          }
        }
        r
  }

  /** The directory locations: a matching downloaded path for
      `KNOWN_PATH` (nothing at all while no download happened), otherwise
      the mapped library names, expanded into files by the path iterator. */
  function TrySearch(m: Manager, env: Env, l: Location, libname: string): (r: Attempt)
    ensures SameShape(m, r.m) && r.m.latest == m.latest && r.step != Stop
    ensures l == KnownPath && m.known.None? ==> r == Attempt(Next, m)
    ensures !(l == KnownPath && m.known.None?) ==>
              var names := if l == KnownPath && KnownMatch(m.known.value, libname).Some?
                           then [KnownMatch(m.known.value, libname).value]
                           else Platform.MappedNames(libname, true, env.sys, env.mapName);
              r == FirstLoad(m, env, env.candidates(l, names), libname)
  {
    if l == KnownPath && m.known.None? then Attempt(Next, m)
    else
      var hit := if l == KnownPath then KnownMatch(m.known.value, libname) else None;
      var names := if hit.Some? then [hit.value] else Platform.MappedNames(libname, true, env.sys, env.mapName);
      FirstLoad(m, env, env.candidates(l, names), libname)
  }

  /** One turn of the `for (Location l : location)` loop of `load`; in
      forced mode every location is treated as `LIBPATH`. */
  function TryLocation(m: Manager, env: Env, l: Location, libname: string): (r: Attempt)
    ensures SameShape(m, r.m)
    ensures r.step.Stop? ==> m.force
    ensures m.force ==> r == TryLibPath(m, env, libname)
  {
    var l := if m.force then LibPath else l;
    match l
    case LibPath => TryLibPath(m, env, libname)
    case LatestPath => TryLatestPath(m, env, libname)
    case Cfg => TryCfg(m, env, libname)
    case _ => TrySearch(m, env, l, libname)
  }

  /** `load(libname)` over the locations `locs`, in order. `Next` at the
      end stands for the final `return null`. */
  function LoadFrom(m: Manager, env: Env, locs: seq<Location>, libname: string): (r: Attempt)
    ensures SameShape(m, r.m)
    ensures |locs| == 0 ==> r == Attempt(Next, m)
    decreases |locs|
  {
    if |locs| == 0 then Attempt(Next, m)
    else
      var a := TryLocation(m, env, locs[0], libname);
      if a.step.Next? then LoadFrom(a.m, env, locs[1..], libname) else a
  }

  /** The search is sequential: searching `a + b` is searching `a`, and
      only when that ran through without a result, searching `b` from the
      state it left. */
  lemma {:induction false} LoadFromAppend(m: Manager, env: Env, a: seq<Location>, b: seq<Location>, libname: string)
    ensures var first := LoadFrom(m, env, a, libname);
            LoadFrom(m, env, a + b, libname)
              == if first.step.Next? then LoadFrom(first.m, env, b, libname) else first
    decreases |a|
  {
    if |a| == 0 {
      assert a + b == b;
    } else {
      assert (a + b)[0] == a[0] && (a + b)[1..] == a[1..] + b;
      var t := TryLocation(m, env, a[0], libname);
      if t.step.Next? {
        LoadFromAppend(t.m, env, a[1..], b, libname);
      }
    }
  }

  /** A single location is searched on its own terms. */
  lemma LoadFromSingle(m: Manager, env: Env, l: Location, libname: string)
    ensures LoadFrom(m, env, [l], libname) == TryLocation(m, env, l, libname)
  {
    var t := TryLocation(m, env, l, libname);
    if t.step.Next? {
      assert LoadFrom(t.m, env, [l][1..], libname) == Attempt(Next, t.m);
    }
  }

  /** In forced mode the search is a single `System.loadLibrary(libname)`:
      whatever the location list, only `LIBPATH` is tried, once, and the
      search ends there. */
  lemma ForcedLoadsOnce(m: Manager, env: Env, locs: seq<Location>, libname: string)
    requires m.force && |locs| > 0
    ensures var r := LoadFrom(m, env, locs, libname);
            && r == TryLibPath(m, env, libname)
            && (r.step.Found? <==> env.loadLib(libname) && Current(env, libname).Known?)
            && (r.step.Found? ==> r.step.name == libname)
            && !r.step.Next?
  {
  }

  /** Location `i` of `locs` tried in the state the search has reached by
      the time it gets there. */
  function TryAt(m: Manager, env: Env, locs: seq<Location>, libname: string, i: nat): Attempt
    requires i < |locs|
  {
    TryLocation(LoadFrom(m, env, locs[..i], libname).m, env, locs[i], libname)
  }

  /** Every location before `i`, tried in turn, said to go on. */
  ghost predicate PassesBefore(m: Manager, env: Env, locs: seq<Location>, libname: string, i: nat)
    requires i <= |locs|
  {
    forall j :: 0 <= j < i ==> TryAt(m, env, locs, libname, j).step.Next?
  }

  /** The search ends at the first location that does not say "go on",
      with what that location gave; when there is none it ends with
      `Next` (the final `return null`). */
  lemma {:induction false} LoadFromFirstDecisive(m: Manager, env: Env, locs: seq<Location>, libname: string)
    ensures var r := LoadFrom(m, env, locs, libname);
            && (r.step.Next? <==> PassesBefore(m, env, locs, libname, |locs|))
            && (!r.step.Next? ==>
                  exists i :: 0 <= i < |locs| && PassesBefore(m, env, locs, libname, i)
                              && r == TryAt(m, env, locs, libname, i))
    decreases |locs|
  {
    if |locs| > 0 {
      var n := |locs| - 1;
      var p := locs[..n];
      assert locs == p + [locs[n]];
      assert locs[..n] == p;
      LoadFromFirstDecisive(m, env, p, libname);
      LoadFromAppend(m, env, p, [locs[n]], libname);
      var first := LoadFrom(m, env, p, libname);
      LoadFromSingle(first.m, env, locs[n], libname);
      forall j | 0 <= j < n
        ensures TryAt(m, env, p, libname, j) == TryAt(m, env, locs, libname, j)
      {
        assert p[..j] == locs[..j];
      }
      assert PassesBefore(m, env, p, libname, n) <==> PassesBefore(m, env, locs, libname, n);
      assert TryAt(m, env, locs, libname, n) == TryLocation(first.m, env, locs[n], libname);
      if first.step.Next? {
        assert PassesBefore(m, env, locs, libname, n);
      } else {
        assert !PassesBefore(m, env, locs, libname, n);
      }
    }
  }

  /** `load(libname)`: the loaded name or path, or null. A name comes back
      exactly when some location finds it after every earlier location,
      each tried in the state the previous ones left, said to go on; null
      comes back when they all said so or the first that did not said
      stop. */
  function Load(m: Manager, env: Env, libname: string): (r: (Option<string>, Manager))
    ensures SameShape(m, r.1)
    ensures forall n :: r.0 == Some(n) <==>
              exists i :: 0 <= i < |m.locations| && PassesBefore(m, env, m.locations, libname, i)
                          && TryAt(m, env, m.locations, libname, i).step == Found(n)
    ensures r.0.None? <==>
              || PassesBefore(m, env, m.locations, libname, |m.locations|)
              || exists i :: 0 <= i < |m.locations| && PassesBefore(m, env, m.locations, libname, i)
                             && TryAt(m, env, m.locations, libname, i).step.Stop?
  {
    var a := LoadFrom(m, env, m.locations, libname);
    LoadFromFirstDecisive(m, env, m.locations, libname);
    FirstDecisiveUnique(m, env, m.locations, libname);
    (if a.step.Found? then Some(a.step.name) else None, a.m)
  }

  /** At most one location is both reached by "go on" answers and itself
      decisive. */
  lemma FirstDecisiveUnique(m: Manager, env: Env, locs: seq<Location>, libname: string)
    ensures forall i, k :: 0 <= i < |locs| && 0 <= k < |locs|
                           && PassesBefore(m, env, locs, libname, i) && !TryAt(m, env, locs, libname, i).step.Next?
                           && PassesBefore(m, env, locs, libname, k) && !TryAt(m, env, locs, libname, k).step.Next?
                           ==> i == k
  {
  }

  /** How a call that ends with `properties.store()` finished: it
      returned (with `ok` when it has a boolean answer), or the
      NullPointerException of a null config path escaped it. The state is
      the one it leaves either way. */
  datatype Finished = Returned(ok: bool, m: Manager) | Threw(m: Manager)

  /** `loadLibrary(libname)`: load; failing that, unless smart search is
      off, download and load again; then store the cache in every case.
      The download is a parameter: its success and the state it leaves. */
  function LoadLibrary(m: Manager, env: Env, libname: string,
                       download: Manager -> (bool, Manager), fs: LMProperties.FileSystem)
    : (r: Finished)
    ensures var first := Load(m, env, libname);
            var dl := download(first.1);
            var second := Load(dl.1, env, libname);
            var before := if first.0.Some? || m.force || !dl.0 then (if first.0.Some? || m.force then first.1 else dl.1)
                          else second.1;
            var stored := LMProperties.Store(before.props, fs);
            && (r.Threw? <==> stored.1.NullPath?)
            && (r.Returned? ==> (r.ok <==> first.0.Some? || (!m.force && dl.0 && second.0.Some?)))
            && r.m == before.(props := stored.0)
  {
    var first := Load(m, env, libname);
    var (ok, m1) :=
      if first.0.Some? then (true, first.1)
      else if m.force then (false, first.1)
      else
        var (downloaded, m2) := download(first.1);
        if downloaded then
          var second := Load(m2, env, libname);
          (second.0.Some?, second.1)
        else (false, m2);
    var (c, outcome) := LMProperties.Store(m1.props, fs);
    if outcome.NullPath? then Threw(m1.(props := c)) else Returned(ok, m1.(props := c))
  }

  /** Whatever the outcome, the cache is written out: with a known config
      path and a file system that lets the write through, nothing is left
      dirty, and the property map is the one the loads left. */
  lemma LoadLibraryStores(m: Manager, env: Env, libname: string,
                          download: Manager -> (bool, Manager), fs: LMProperties.FileSystem)
    requires fs.hasParent && (fs.parentExists || fs.mkdirOk) && fs.writeOk
    ensures var r := LoadLibrary(m, env, libname, download, fs);
            r.m.props.path.Some? ==> !r.m.props.dirty && r.Returned?
  {
  }

  /** The exception needs an unknown home directory: when the cache has a
      file, and the download keeps it, `loadLibrary` always returns; when it
      has none, a load that dirtied the cache makes it throw even though
      the library is loaded. */
  lemma {:induction false} LoadLibraryThrowsOnlyWithoutHome(m: Manager, env: Env, libname: string,
                                                            download: Manager -> (bool, Manager),
                                                            fs: LMProperties.FileSystem)
    requires forall m0 :: download(m0).1.props.path == m0.props.path
    ensures var r := LoadLibrary(m, env, libname, download, fs);
            && (m.props.path.Some? ==> r.Returned?)
            && (m.props.path.None? && Load(m, env, libname).0.Some? && Load(m, env, libname).1.props.dirty ==> r.Threw?)
  {
    var first := Load(m, env, libname);
    var dl := download(first.1);
    var second := Load(dl.1, env, libname);
  }

  // ------------------------------------------------------- the constructor

  const DeleteKey := "vdb.deleteLibraries"

  /** `launchLibCheck(libname)`: nothing more when the cache already knows
      a path for the latest version; otherwise the paths the child JVM
      reports on its standard output. `child` gives the child's output
      lines for a library and its expected latest version, or None when
      neither `<java.home>/bin/java` nor `java` can be run. */
  function LaunchLibCheck(m: Manager, env: Env, child: (string, Option<string>) -> Option<seq<string>>,
                          libname: string): (r: Manager)
    ensures r.known == m.known && r.locations == m.locations && r.force == m.force
    ensures r.props.path == m.props.path && r.props.bits == m.props.bits
    ensures r.latestLibPaths.Keys <= m.latestLibPaths.Keys + {libname}
    ensures forall k :: k in m.latestLibPaths && k != libname ==>
              k in r.latestLibPaths && r.latestLibPaths[k] == m.latestLibPaths[k]
    ensures var (lat, memo) := LatestGet(m.latest, libname, env.remote);
            var lookup := LMProperties.Get(m.props, libname, lat, env.present, env.older);
            && r.latest == memo && r.props == lookup.cache
            && (lookup.path.Some? || child(libname, lat).None? ==> r.latestLibPaths == m.latestLibPaths)
            && (lookup.path.None? && child(libname, lat).Some? ==>
                  var lines := child(libname, lat).value;
                  && ((forall k :: 0 <= k < |lines| ==> !ChildProtocol.Reports(lines[k], libname)) ==>
                        r.latestLibPaths == m.latestLibPaths)
                  && (forall k :: ChildProtocol.LastReport(lines, libname, k) ==>
                        r.latestLibPaths == m.latestLibPaths[libname := ChildProtocol.ParseLine(lines[k]).value.1]))
  {
    var (lat, memo) := LatestGet(m.latest, libname, env.remote);
    var lookup := LMProperties.Get(m.props, libname, lat, env.present, env.older);
    var m1 := m.(props := lookup.cache, latest := memo);
    if lookup.path.Some? then m1
    else match child(libname, lat)
      case None => m1
      case Some(lines) =>
        ReadLinesMeaning(m.latestLibPaths, libname, lines);
        m1.(latestLibPaths := ChildProtocol.ReadLines(m.latestLibPaths, libname, lines))
  }

  /** What reading the child's lines leaves, in the terms of the lines. */
  lemma ReadLinesMeaning(paths: map<string, string>, libname: string, lines: seq<string>)
    ensures (forall k :: 0 <= k < |lines| ==> !ChildProtocol.Reports(lines[k], libname)) ==>
              ChildProtocol.ReadLines(paths, libname, lines) == paths
    ensures forall k :: ChildProtocol.LastReport(lines, libname, k) ==>
              ChildProtocol.ReadLines(paths, libname, lines) == paths[libname := ChildProtocol.ParseLine(lines[k]).value.1]
  {
    if forall k :: 0 <= k < |lines| ==> !ChildProtocol.Reports(lines[k], libname) {
      ChildProtocol.ReadLinesNoReport(paths, libname, lines);
    }
    forall k | ChildProtocol.LastReport(lines, libname, k)
      ensures ChildProtocol.ReadLines(paths, libname, lines) == paths[libname := ChildProtocol.ParseLine(lines[k]).value.1]
    {
      ChildProtocol.ReadLinesKeepsLast(paths, libname, lines, k);
    }
  }

  /** The constructor's `for (String libname : libs)` loop without
      `vdb.deleteLibraries`: only the libraries asked about can gain a
      reported path. */
  function CheckAll(m: Manager, env: Env, child: (string, Option<string>) -> Option<seq<string>>,
                    libs: seq<string>): (r: Manager)
    ensures r.known == m.known && r.locations == m.locations && r.force == m.force
    ensures r.props.path == m.props.path && r.props.bits == m.props.bits
    ensures forall k :: k in r.latestLibPaths ==> k in m.latestLibPaths || k in libs
    ensures forall k :: k in m.latestLibPaths && k !in libs ==>
              k in r.latestLibPaths && r.latestLibPaths[k] == m.latestLibPaths[k]
    decreases |libs|
  {
    if |libs| == 0 then m
    else CheckAll(LaunchLibCheck(m, env, child, libs[0]), env, child, libs[1..])
  }

  /** `new LibManager(locations, libs)`. `wasForced` is the static
      `JUST_DO_REGULAR_JAVA_SYSTEM_LOAD_LIBRARY` as earlier instances left
      it: once set it stays set. Unless smart search is off or there are
      no libraries, each library is checked through a child JVM (or, with
      `vdb.deleteLibraries`, its files are deleted, which leaves the
      manager's state alone), and after the checks the cache is stored.
      None is the NullPointerException that store throws when the home
      directory is unknown. */
  function NewManager(props: LMProperties.Cache, env: Env, locations: Option<seq<Location>>,
                      libs: Option<seq<string>>, wasForced: bool,
                      child: (string, Option<string>) -> Option<seq<string>>, fs: LMProperties.FileSystem)
    : (r: Option<Manager>)
    ensures r.Some? ==> r.value.locations == (if locations.Some? then locations.value else AllLocations)
    ensures r.Some? ==> (r.value.force <==> wasForced || ForceKey in env.sys)
    ensures r.Some? ==> r.value.known.None? && r.value.props.path == props.path && r.value.props.bits == props.bits
    ensures wasForced || ForceKey in env.sys || libs.None? || DeleteKey in env.sys ==>
              r.Some? && r.value.latest == map[] && r.value.latestLibPaths == map[] && r.value.props == props
    ensures r.Some? ==> forall k :: k in r.value.latestLibPaths ==> libs.Some? && k in libs.value
    ensures r.None? ==> props.path.None? && libs.Some?
    ensures (&& r.Some? && !wasForced && ForceKey !in env.sys && libs.Some? && DeleteKey !in env.sys
             && fs.hasParent && (fs.parentExists || fs.mkdirOk) && fs.writeOk) ==> !r.value.props.dirty
  {
    var force := wasForced || ForceKey in env.sys;
    var m := Manager(props, map[], map[], None, locations.GetOr(AllLocations), force);
    if force || libs.None? || DeleteKey in env.sys then Some(m)
    else
      var checked := CheckAll(m, env, child, libs.value);
      var (c, outcome) := LMProperties.Store(checked.props, fs);
      if outcome.NullPath? then None else Some(checked.(props := c))
  }

  /** One library whose cache entry is missing or stale and whose child
      reports a path for it: that path is the one the new manager will try
      first at `LATEST_PATH`. */
  lemma {:induction false} NewManagerRecordsChildReport(props: LMProperties.Cache, env: Env,
                                                        locations: Option<seq<Location>>, libname: string,
                                                        child: (string, Option<string>) -> Option<seq<string>>,
                                                        fs: LMProperties.FileSystem, k: int)
    requires ForceKey !in env.sys && DeleteKey !in env.sys
    requires var lat := LatestGet(map[], libname, env.remote).0;
             && LMProperties.Get(props, libname, lat, env.present, env.older).path.None?
             && child(libname, lat).Some? && ChildProtocol.LastReport(child(libname, lat).value, libname, k)
    ensures var r := NewManager(props, env, locations, Some([libname]), false, child, fs);
            var lat := LatestGet(map[], libname, env.remote).0;
            r.Some? ==> r.value.latestLibPaths == map[libname := ChildProtocol.ParseLine(child(libname, lat).value[k]).value.1]
  {
    var force := false;
    var m := Manager(props, map[], map[], None, locations.GetOr(AllLocations), force);
    var m1 := LaunchLibCheck(m, env, child, libname);
    assert CheckAll(m, env, child, [libname]) == CheckAll(m1, env, child, []);
  }
}
