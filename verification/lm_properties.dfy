/** The persistent library cache of the Java loader (`LMProperties`): a
    string-to-string property map with a dirty flag that gates writes.

    Keys follow the scheme `/dll/<libname>/<bits>/<loaded|saved>/<path|version>`.
    The file system and the version ordering are parameters: `present`
    answers whether a recorded file is present, `older(v, latest)` whether
    `new Version(v).compareTo(new Version(latest)) < 0`. */
module LMProperties {
  import opened Util

  /** The cache: the property map, the bit-width string fixed at
      construction, the config-file path (absent when the NCBI home
      directory is unknown) and the dirty flag. */
  datatype Cache = Cache(props: map<string, string>, bits: string, path: Option<string>, dirty: bool)

  /** `Version(a) < Version(b)`; `b` may be null (an unknown latest version). */
  type VersionOrder = (string, Option<string>) -> bool

  const ConfigFileName := "LibManager.properties"
  const Loaded := "loaded"
  const Saved := "saved"

  /** `"/dll/" + libname + "/" + bits + "/" + name + "/"` */
  function Node(libname: string, bits: string, name: string): string {
    "/dll/" + libname + "/" + bits + "/" + name + "/"
  }

  function PathKey(libname: string, bits: string, name: string): string {
    Node(libname, bits, name) + "path"
  }

  function VersionKey(libname: string, bits: string, name: string): string {
    Node(libname, bits, name) + "version"
  }

  /** Every key other than `ks` keeps its presence and value. */
  ghost predicate SameExcept(m: map<string, string>, m': map<string, string>, ks: set<string>) {
    forall k :: k !in ks ==> (k in m <==> k in m') && (k in m ==> m[k] == m'[k])
  }

  lemma {:induction false} PathKeyNotVersionKey(libname: string, bits: string, name: string)
    ensures PathKey(libname, bits, name) != VersionKey(libname, bits, name)
  {
    var n := Node(libname, bits, name);
    assert PathKey(libname, bits, name)[|n|] == 'p';
    assert VersionKey(libname, bits, name)[|n|] == 'v';
  }

  /** The "loaded" and "saved" nodes of one library never share a key. */
  lemma {:induction false} LoadedSavedDisjoint(libname: string, bits: string, a: string, b: string)
    ensures PathKey(libname, bits, Loaded) != PathKey(libname, bits, Saved)
    ensures PathKey(libname, bits, Loaded) != VersionKey(libname, bits, Saved)
    ensures VersionKey(libname, bits, Loaded) != PathKey(libname, bits, Saved)
    ensures VersionKey(libname, bits, Loaded) != VersionKey(libname, bits, Saved)
  {
    var pre := "/dll/" + libname + "/" + bits + "/";
    assert Node(libname, bits, Loaded) == pre + "loaded/";
    assert Node(libname, bits, Saved) == pre + "saved/";
    assert PathKey(libname, bits, Loaded)[|pre|] == 'l';
    assert VersionKey(libname, bits, Loaded)[|pre|] == 'l';
    assert PathKey(libname, bits, Saved)[|pre|] == 's';
    assert VersionKey(libname, bits, Saved)[|pre|] == 's';
  }

  /** Constructor: the path is `<ncbiHome><sep>LibManager.properties` when
      the home directory is known; `fileContents` is what `load` read, or
      None when it threw an IOException, which is swallowed. */
  function Create(bits: string, ncbiHome: Option<string>, sep: string,
                  fileContents: Option<map<string, string>>): (c: Cache)
    ensures c.bits == bits && !c.dirty
    ensures c.path.Some? <==> ncbiHome.Some?
    ensures c.path.Some? ==> EndsWith(c.path.value, ConfigFileName)
    ensures fileContents.None? ==> c.props == map[]
    ensures ncbiHome.None? ==> c.props == map[]
    ensures ncbiHome.Some? ==> c.path == Some(ncbiHome.value + sep + ConfigFileName)
                               && c.props == fileContents.GetOr(map[])
  {
    match ncbiHome
    case None => Cache(map[], bits, None, false)
    case Some(home) =>
      var p := home + sep + ConfigFileName;
      assert p[|p| - |ConfigFileName|..] == ConfigFileName;
      Cache(fileContents.GetOr(map[]), bits, Some(p), false)
  }

  /** `getProperty(key)`. */
  function GetProperty(c: Cache, key: string): (v: Option<string>)
    ensures v.Some? <==> key in c.props
    ensures v.Some? ==> v.value == c.props[key]
  {
    if key in c.props then Some(c.props[key]) else None
  }

  /** The state after a mutator, and whether it threw (a null value makes
      `Hashtable.put` throw a NullPointerException). */
  datatype Update = Update(cache: Cache, threw: bool)

  /** `setProperty(key, value)`: setting a key to the value it already has
      is a no-op; anything else marks the cache dirty. A null value marks
      it dirty and then throws without storing. */
  function SetProperty(c: Cache, key: string, value: Option<string>): (r: Update)
    ensures r.cache.bits == c.bits && r.cache.path == c.path
    ensures key in c.props && value == Some(c.props[key]) ==> r == Update(c, false)
    ensures !(key in c.props && value == Some(c.props[key])) ==> r.cache.dirty
    ensures value.Some? ==> !r.threw && r.cache.props == c.props[key := value.value]
    ensures value.None? ==> r.threw && r.cache.props == c.props
  {
    if key in c.props && value.Some? && c.props[key] == value.value then Update(c, false)
    else if value.None? then Update(c.(dirty := true), true)
    else Update(c.(props := c.props[key := value.value], dirty := true), false)
  }

  /** Setting the same value twice changes nothing the second time. */
  lemma SetPropertyIdempotent(c: Cache, key: string, v: string)
    ensures var once := SetProperty(c, key, Some(v)).cache;
            SetProperty(once, key, Some(v)) == Update(once, false)
  {
  }

  /** `set(libname, name, version, path)`: the path key first, then the
      version key. */
  function Set(c: Cache, libname: string, name: string, version: Option<string>, path: string): (r: Update)
    ensures var pk := PathKey(libname, c.bits, name);
            var vk := VersionKey(libname, c.bits, name);
            && r.cache.bits == c.bits && r.cache.path == c.path
            && SameExcept(c.props, r.cache.props, {pk, vk})
            && pk in r.cache.props && r.cache.props[pk] == path
            && (version.Some? ==> !r.threw && vk in r.cache.props && r.cache.props[vk] == version.value)
            && (version.None? ==> r.threw && (vk in r.cache.props <==> vk in c.props))
            && (r.cache.dirty <==> c.dirty || !(pk in c.props && c.props[pk] == path
                                                 && version.Some? && vk in c.props && c.props[vk] == version.value))
  {
    PathKeyNotVersionKey(libname, c.bits, name);
    var pk := PathKey(libname, c.bits, name);
    var vk := VersionKey(libname, c.bits, name);
    var first := SetProperty(c, pk, Some(path));
    SetProperty(first.cache, vk, version)
  }

  /** `loaded(libname, version, path)`. */
  function MarkLoaded(c: Cache, libname: string, version: Option<string>, path: string): (r: Update)
    ensures r.cache.bits == c.bits && r.cache.path == c.path
    ensures SameExcept(c.props, r.cache.props,
                       {PathKey(libname, c.bits, Loaded), VersionKey(libname, c.bits, Loaded)})
  {
    Set(c, libname, Loaded, version, path)
  }

  /** `saved(libname, version, path)`. */
  function MarkSaved(c: Cache, libname: string, version: Option<string>, path: string): (r: Update)
    ensures SameExcept(c.props, r.cache.props,
                       {PathKey(libname, c.bits, Saved), VersionKey(libname, c.bits, Saved)})
  {
    Set(c, libname, Saved, version, path)
  }

  /** Marking a library loaded leaves its "saved" entry exactly as it was. */
  lemma MarkLoadedKeepsSaved(c: Cache, libname: string, version: Option<string>, path: string)
    ensures var r := MarkLoaded(c, libname, version, path).cache;
            && GetProperty(r, PathKey(libname, c.bits, Saved)) == GetProperty(c, PathKey(libname, c.bits, Saved))
            && GetProperty(r, VersionKey(libname, c.bits, Saved)) == GetProperty(c, VersionKey(libname, c.bits, Saved))
  {
    LoadedSavedDisjoint(libname, c.bits, Loaded, Saved);
  }

  /** `notLoaded(libname)`: drops both "loaded" keys and marks the cache
      dirty whether or not they were present. */
  function NotLoaded(c: Cache, libname: string): (r: Cache)
    ensures r.bits == c.bits && r.path == c.path && r.dirty
    ensures PathKey(libname, c.bits, Loaded) !in r.props
    ensures VersionKey(libname, c.bits, Loaded) !in r.props
    ensures SameExcept(c.props, r.props, {PathKey(libname, c.bits, Loaded), VersionKey(libname, c.bits, Loaded)})
  {
    c.(props := c.props - {PathKey(libname, c.bits, Loaded), VersionKey(libname, c.bits, Loaded)}, dirty := true)
  }

  /** A lookup answer together with the (possibly self-healed) cache. */
  datatype Lookup = Lookup(path: Option<string>, cache: Cache)

  /** The single-node lookup `get(libname, name, latest, level)`. */
  function GetNode(c: Cache, libname: string, name: string, latest: Option<string>,
                   present: string -> bool, older: VersionOrder): (r: Lookup)
    ensures var pk := PathKey(libname, c.bits, name);
            var vk := VersionKey(libname, c.bits, name);
            && r.cache.bits == c.bits && r.cache.path == c.path
            && (vk !in c.props ==> r == Lookup(None, c))
            && (vk in c.props && pk !in c.props ==>
                  r.path.None? && r.cache.dirty && r.cache.props == c.props - {vk})
            && (vk in c.props && pk in c.props && present(c.props[pk]) && older(c.props[vk], latest) ==>
                  r.path.None? && r.cache.dirty && r.cache.props == c.props - {pk, vk})
            && (vk in c.props && pk in c.props && !(present(c.props[pk]) && older(c.props[vk], latest)) ==>
                  r == Lookup(Some(c.props[pk]), c))
  {
    var pk := PathKey(libname, c.bits, name);
    var vk := VersionKey(libname, c.bits, name);
    if vk !in c.props then Lookup(None, c)
    else if pk !in c.props then Lookup(None, c.(props := c.props - {vk}, dirty := true))
    else if present(c.props[pk]) && older(c.props[vk], latest) then
      Lookup(None, c.(props := c.props - {pk, vk}, dirty := true))
    else Lookup(Some(c.props[pk]), c)
  }

  /** A hit never changes the cache, a miss only ever removes this node's
      keys, and asking again right away gives the same answer and changes
      nothing more (the self-healing is done once). */
  lemma {:induction false} GetNodeSettles(c: Cache, libname: string, name: string, latest: Option<string>,
                                          present: string -> bool, older: VersionOrder)
    ensures var r := GetNode(c, libname, name, latest, present, older);
            && (r.path.Some? ==> r.cache == c)
            && SameExcept(c.props, r.cache.props, {PathKey(libname, c.bits, name), VersionKey(libname, c.bits, name)})
            && (r.path.None? ==> VersionKey(libname, c.bits, name) !in r.cache.props)
            && GetNode(r.cache, libname, name, latest, present, older) == Lookup(r.path, r.cache)
  {
    PathKeyNotVersionKey(libname, c.bits, name);
  }

  /** `get(libname, latest)`: the "loaded" lookup if it is non-null,
      otherwise the "saved" lookup. */
  function Get(c: Cache, libname: string, latest: Option<string>,
               present: string -> bool, older: VersionOrder): (r: Lookup)
    ensures r.cache.bits == c.bits && r.cache.path == c.path
    ensures r.path.Some? ==>
              || (PathKey(libname, c.bits, Loaded) in c.props && r.path.value == c.props[PathKey(libname, c.bits, Loaded)])
              || (PathKey(libname, c.bits, Saved) in c.props && r.path.value == c.props[PathKey(libname, c.bits, Saved)])
  {
    LoadedSavedDisjoint(libname, c.bits, Loaded, Saved);
    GetNodeSettles(c, libname, Loaded, latest, present, older);
    var l := GetNode(c, libname, Loaded, latest, present, older);
    if l.path.Some? then l
    else GetNode(l.cache, libname, Saved, latest, present, older)
  }

  /** What `get(libname, latest)` answers, stated against the original
      cache: the recorded "loaded" path when that entry is complete and not
      superseded, otherwise exactly what the "saved" entry alone would give
      (cleaning up the "loaded" entry cannot disturb it); only the four
      keys of this library can change, and a hit changes nothing. */
  lemma {:induction false} GetPrefersLoaded(c: Cache, libname: string, latest: Option<string>,
                                            present: string -> bool, older: VersionOrder)
    ensures var r := Get(c, libname, latest, present, older);
            var lp := PathKey(libname, c.bits, Loaded);
            var lv := VersionKey(libname, c.bits, Loaded);
            var sp := PathKey(libname, c.bits, Saved);
            var sv := VersionKey(libname, c.bits, Saved);
            var loadedHit := lv in c.props && lp in c.props && !(present(c.props[lp]) && older(c.props[lv], latest));
            && (loadedHit ==> r == Lookup(Some(c.props[lp]), c))
            && (!loadedHit ==> r.path == GetNode(c, libname, Saved, latest, present, older).path)
            && (r.path.Some? ==>
                  (lp in c.props && r.path.value == c.props[lp]) || (sp in c.props && r.path.value == c.props[sp]))
            && SameExcept(c.props, r.cache.props, {lp, lv, sp, sv})
  {
    LoadedSavedDisjoint(libname, c.bits, Loaded, Saved);
    PathKeyNotVersionKey(libname, c.bits, Loaded);
    PathKeyNotVersionKey(libname, c.bits, Saved);
    GetNodeSettles(c, libname, Loaded, latest, present, older);
    var l := GetNode(c, libname, Loaded, latest, present, older);
    GetNodeSettles(l.cache, libname, Saved, latest, present, older);
  }

  /** A second `get` right after the first gives the same answer and
      leaves the cache as the first left it. */
  lemma {:induction false} GetIdempotent(c: Cache, libname: string, latest: Option<string>,
                                         present: string -> bool, older: VersionOrder)
    ensures var r := Get(c, libname, latest, present, older);
            Get(r.cache, libname, latest, present, older) == r
  {
    LoadedSavedDisjoint(libname, c.bits, Loaded, Saved);
    var l := GetNode(c, libname, Loaded, latest, present, older);
    GetNodeSettles(c, libname, Loaded, latest, present, older);
    if l.path.None? {
      var s := GetNode(l.cache, libname, Saved, latest, present, older);
      GetNodeSettles(l.cache, libname, Saved, latest, present, older);
      assert VersionKey(libname, c.bits, Loaded) !in s.cache.props;
    }
  }

  /** The file system as `store()` sees it. */
  datatype FileSystem = FileSystem(hasParent: bool, parentExists: bool, mkdirOk: bool, writeOk: bool)

  /** How a `store()` call ended. `NullPath` is the NullPointerException
      of `new File(null)` when the home directory is unknown: it is not an
      IOException and escapes `store()`. */
  datatype StoreOutcome =
    | NotDirty
    | NullPath
    | NoParent
    | MkdirFailed
    | WriteFailed
    | Written(content: map<string, string>, createdParent: bool)

  /** `store()`: writes the whole map only when dirty, and clears the
      flag only after a successful write. */
  function Store(c: Cache, fs: FileSystem): (r: (Cache, StoreOutcome))
    ensures r.0.props == c.props && r.0.bits == c.bits && r.0.path == c.path
    ensures !c.dirty ==> r == (c, NotDirty)
    ensures !r.0.dirty <==> !c.dirty || r.1.Written?
    ensures r.1.Written? ==> r.1.content == c.props && c.path.Some? && fs.writeOk
    ensures r.1.NullPath? <==> c.dirty && c.path.None?
    ensures r.1.Written? <==> c.dirty && c.path.Some? && fs.hasParent
                              && (fs.parentExists || fs.mkdirOk) && fs.writeOk
  {
    if !c.dirty then (c, NotDirty)
    else if c.path.None? then (c, NullPath)
    else if !fs.hasParent then (c, NoParent)
    else if !fs.parentExists && !fs.mkdirOk then (c, MkdirFailed)
    else if !fs.writeOk then (c, WriteFailed)
    else (c.(dirty := false), Written(c.props, !fs.parentExists))
  }

  /** Two stores with no mutation in between write at most once. */
  lemma StoreTwiceWritesOnce(c: Cache, fs1: FileSystem, fs2: FileSystem)
    ensures var first := Store(c, fs1);
            first.1.Written? ==> Store(first.0, fs2) == (first.0, NotDirty)
  {
  }

  /** Round trip through the file: what a successful store writes, read
      back by a fresh cache for the same home directory, answers every
      lookup exactly as the stored cache does. */
  lemma StoreReloadRoundTrip(c: Cache, fs: FileSystem, home: string, sep: string, libname: string,
                             latest: Option<string>, present: string -> bool, older: VersionOrder)
    requires c.path == Some(home + sep + ConfigFileName)
    ensures var r := Store(c, fs);
            r.1.Written? ==>
              var reloaded := Create(c.bits, Some(home), sep, Some(r.1.content));
              Get(reloaded, libname, latest, present, older).path == Get(r.0, libname, latest, present, older).path
  {
  }
}
