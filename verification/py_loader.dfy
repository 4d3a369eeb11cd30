/** The Python binding's loader (`ngs/LibManager.py`): the platform
    tables, the directories searched, loading a library saved earlier and
    downloading it when none loads. The machine name, `platform.system()`,
    the home and temporary directories are parameters; the file system,
    the HTTP POST and `cdll.LoadLibrary` are oracles in a `Host`. */
module PyLoader {
  import opened Util
  import Download

  /** A loaded shared library, as `cdll.LoadLibrary` hands it back. */
  type Lib = nat

  // ------------------------------------------------------------ platform

  /** `os_bits(machine)`: the four machine names the binding knows. */
  function OsBits(machine: string): (b: Option<nat>)
    ensures b.Some? <==> machine in {"AMD64", "x86_64", "i386", "x86"}
    ensures b.Some? ==> (b.value == 64 <==> machine in {"AMD64", "x86_64"})
    ensures b.Some? ==> b.value in {32, 64}
  {
    if machine == "AMD64" || machine == "x86_64" then Some(64)
    else if machine == "i386" || machine == "x86" then Some(32)
    else None
  }

  /** `str(os_bits(machine))`; Python prints a missing value as `None`. */
  function BitsText(machine: string): (t: string)
    ensures t == "None" <==> OsBits(machine).None?
  {
    match OsBits(machine)
    case None => "None"
    case Some(b) => if b == 64 then "64" else "32"
  }

  /** `get_lib_extension()` for a `platform.system()` value. */
  function LibExtension(system: string): (ext: string)
    ensures ext == ".dll" <==> system == "Windows"
    ensures ext == ".so" <==> system == "Linux"
    ensures ext == "" <==> system != "Windows" && system != "Linux"
  {
    if system == "Windows" then ".dll"
    else if system == "Darwin" then ""
    else if system == "Linux" then ".so"
    else ""
  }

  /** `lib_filename(lib_name)`. */
  function LibFilename(name: string, system: string): string {
    "lib" + name + LibExtension(system)
  }

  /** The library name a file name carries on `system`, if it has the
      shape `lib_filename` gives. */
  function LibNameOf(filename: string, system: string): (name: Option<string>) {
    var ext := LibExtension(system);
    if |filename| >= 3 + |ext| && StartsWith(filename, "lib") && EndsWith(filename, ext)
    then Some(filename[3..|filename| - |ext|])
    else None
  }

  /** The file name gives its library name back, so two libraries never
      share a file name on one system. */
  lemma LibFilenameRoundTrip(name: string, other: string, system: string)
    ensures LibNameOf(LibFilename(name, system), system) == Some(name)
    ensures LibFilename(name, system) == LibFilename(other, system) ==> name == other
  {
    var f := LibFilename(name, system);
    var ext := LibExtension(system);
    assert f[..3] == "lib";
    assert f[|f| - |ext|..] == ext;
    assert f[3..|f| - |ext|] == name;
    var g := LibFilename(other, system);
    if f == g {
      assert g[3..|g| - |ext|] == other;
    }
  }

  /** `get_post_os_name_param()`: the system name the download request
      sends, which differs from `platform.system()` only on macOS. */
  function PostOsName(system: string): (name: string)
    ensures name != system <==> system == "Darwin"
    ensures system == "Darwin" ==> name == "Mac"
  {
    if system == "Darwin" then "Mac" else system
  }

  /** The download request's fields, in the order the dictionary literal
      lists them. */
  function PostParams(name: string, system: string, machine: string): seq<Download.Field> {
    [("cmd", "lib"), ("name", name), ("os_name", PostOsName(system)), ("bits", BitsText(machine))]
  }

  /** The request names the library and the system as the server expects
      them, and its `bits` field is the decimal bitness or `None`. */
  lemma PostParamsFields(name: string, system: string, machine: string)
    ensures var p := PostParams(name, system, machine);
            && |p| == 4 && p[0] == ("cmd", "lib") && p[1] == ("name", name)
            && (system == "Darwin" ==> p[2] == ("os_name", "Mac"))
            && (system != "Darwin" ==> p[2] == ("os_name", system))
            && p[3].1 in {"32", "64", "None"}
            && (p[3].1 == "None" <==> OsBits(machine).None?)
  {
  }

  // --------------------------------------------------------------- paths

  /** `os.path.join(a, b)` on POSIX: an absolute `b` replaces `a`, and a
      separator is inserted unless `a` is empty or already ends in one. */
  function Join(a: string, b: string): string {
    if StartsWith(b, "/") then b
    else if a == "" || EndsWith(a, "/") then a + b
    else a + "/" + b
  }

  /** The last component of a path: what follows its last `/`. */
  function Basename(p: string): string {
    if |p| == 0 || p[|p| - 1] == '/' then ""
    else Basename(p[..|p| - 1]) + [p[|p| - 1]]
  }

  /** Appending a name that holds no `/` to a path ending in a separator
      (or to nothing) leaves that name as the last component. */
  lemma {:induction false} BasenameAfterSep(a: string, b: string)
    requires a == "" || EndsWith(a, "/")
    requires Lacks(b, '/')
    ensures Basename(a + b) == b
    decreases |b|
  {
    if |b| > 0 {
      var init := b[..|b| - 1];
      assert (a + b)[..|a + b| - 1] == a + init;
      BasenameAfterSep(a, init);
      assert init + [b[|b| - 1]] == b;
    } else {
      assert a + b == a;
    }
  }

  /** Joining a file name onto any directory puts the file name last. */
  lemma BasenameJoin(dir: string, name: string)
    requires Lacks(name, '/')
    ensures Basename(Join(dir, name)) == name
  {
    assert !StartsWith(name, "/") by {
      if |name| > 0 {
        assert name[0] != '/';
      }
    }
    if dir == "" || EndsWith(dir, "/") {
      BasenameAfterSep(dir, name);
    } else {
      assert dir + "/" + name == (dir + "/") + name;
      BasenameAfterSep(dir + "/", name);
    }
  }

  /** `get_directories_to_find_dll()`: `~/.ncbi/lib<bits>`, the empty
      directory (which joins to the bare file name, so the loader's own
      search path), the current directory and the temporary directory. */
  function Directories(home: string, machine: string, tmp: string): (dirs: seq<string>)
    ensures |dirs| == 4 && dirs[1] == "" && dirs[2] == "." && dirs[3] == tmp
  {
    [Join(Join(home, ".ncbi"), "lib" + BitsText(machine)), "", ".", tmp]
  }

  /** The first directory is `lib32`, `lib64` or `libNone` inside
      whatever `~/.ncbi` joins to. */
  lemma FirstDirectory(home: string, machine: string, tmp: string)
    ensures Basename(Directories(home, machine, tmp)[0]) == "lib" + BitsText(machine)
  {
    var name := "lib" + BitsText(machine);
    assert Lacks(name, '/') by {
      assert BitsText(machine) in {"32", "64", "None"};
    }
    BasenameJoin(Join(home, ".ncbi"), name);
  }

  /** Every path probed for a library file ends in that file name; the
      second probe is the bare name and the third is relative to the
      current directory. */
  lemma ProbedPaths(home: string, machine: string, tmp: string, filename: string)
    requires Lacks(filename, '/') && filename != ""
    ensures var dirs := Directories(home, machine, tmp);
            && Join(dirs[1], filename) == filename
            && Join(dirs[2], filename) == "./" + filename
            && forall k :: 0 <= k < 4 ==> Basename(Join(dirs[k], filename)) == filename
  {
    var dirs := Directories(home, machine, tmp);
    assert !StartsWith(filename, "/") by {
      assert filename[0] != '/';
    }
    assert !EndsWith(".", "/");
    assert "." + "/" + filename == "./" + filename;
    forall k | 0 <= k < 4
      ensures Basename(Join(dirs[k], filename)) == filename
    {
      BasenameJoin(dirs[k], filename);
    }
  }

  // ------------------------------------------------------ saved library

  /** `load_saved_library`: try each directory in turn and keep the first
      library that loads; a directory whose load raises `OSError` is passed
      over. `at` is the index of the directory that answered (`|dirs|` when
      none did). */
  method LoadSaved(dirs: seq<string>, filename: string, load: string -> Option<Lib>)
    returns (lib: Option<Lib>, at: nat)
    ensures at <= |dirs|
    ensures forall j :: 0 <= j < at ==> load(Join(dirs[j], filename)).None?
    ensures at < |dirs| ==> lib.Some? && lib == load(Join(dirs[at], filename))
    ensures at == |dirs| ==> lib.None?
    ensures lib.Some? <==> exists k :: 0 <= k < |dirs| && load(Join(dirs[k], filename)).Some?
  {
    lib := None;
    at := 0;
    while at < |dirs|
      invariant at <= |dirs|
      invariant lib.None?
      invariant forall j :: 0 <= j < at ==> load(Join(dirs[j], filename)).None?
    {
      var tried := load(Join(dirs[at], filename));
      if tried.Some? {
        lib := tried;
        return;
      }
      at := at + 1;
    }
  }

  // ---------------------------------------------------- updated library

  /** What the host does: whether a directory exists, whether `makedirs`
      succeeds, whether `open(path, "wb")` succeeds, the status code the
      POST answers while a directory is being tried, whether writing and
      closing the file succeed, and what `cdll.LoadLibrary` gives (None
      when it raises). */
  datatype Host = Host(
    present: string -> bool,
    makeDirs: string -> bool,
    create: string -> bool,
    status: string -> int,
    save: string -> bool,
    load: string -> Option<Lib>)

  /** How far one directory got. */
  datatype Stage = Skipped | DirFailed | FileFailed | Rejected(code: int) | SaveFailed | Saved

  /** A stage that ends the search: a refused download raises at once and
      a saved file is loaded and returned. */
  predicate Decisive(st: Stage) {
    st.Rejected? || st.Saved?
  }

  /** The stage `dir` reaches, `path` being the file inside it. */
  function StageOf(host: Host, dir: string, path: string): (st: Stage)
    ensures st == Skipped <==> dir == ""
  {
    if dir == "" then Skipped
    else if !host.present(dir) && !host.makeDirs(dir) then DirFailed
    else if !host.create(path) then FileFailed
    else if host.status(dir) != 200 then Rejected(host.status(dir))
    else if !host.save(path) then SaveFailed
    else Saved
  }

  function StageAt(host: Host, dirs: seq<string>, filename: string, k: nat): Stage
    requires k < |dirs|
  {
    StageOf(host, dirs[k], Join(dirs[k], filename))
  }

  /** One of the three `(flag, name)` pairs the function keeps. */
  datatype Mark = Mark(ok: bool, what: Option<string>)

  /** `directory_created`, `file_created` and `file_saved`. */
  datatype Marks = Marks(dir: Mark, file: Mark, saved: Mark)

  const Initial := Marks(Mark(false, None), Mark(false, None), Mark(false, None))

  /** The pairs after a directory stopped at a non-decisive stage. */
  function Note(m: Marks, dir: string, path: string, st: Stage): Marks {
    match st
    case Skipped => m
    case DirFailed => m.(dir := Mark(false, Some(dir)))
    case FileFailed => m.(dir := Mark(true, Some(dir)), file := Mark(false, Some(path)))
    case SaveFailed => Marks(Mark(true, Some(dir)), Mark(true, Some(path)), Mark(false, Some(path)))
    case _ => Marks(Mark(true, Some(dir)), Mark(true, Some(path)), Mark(true, Some(path)))
  }

  datatype Outcome =
    | Loaded(lib: Lib)
      /** `cdll.LoadLibrary` raised on the downloaded file. */
    | LoadRaised(libPath: string)
      /** "Failed to download dll": the POST answered another code. */
    | Refused(code: int, params: seq<Download.Field>)
      /** "Failed to create directory"; `None` is the case where no
          directory was tried and the message cannot be built. */
    | NoDirectory(dir: Option<string>)
    | NoFile(file: Option<string>)
    | NotSaved(unsaved: Option<string>)
      /** The function runs off its end and returns `None`. */
    | Nothing

  /** The checks after the loop, in the order they are written. */
  function Exhausted(m: Marks): Outcome {
    if !m.dir.ok then NoDirectory(m.dir.what)
    else if !m.file.ok then NoFile(m.file.what)
    else if !m.saved.ok then NotSaved(m.saved.what)
    else Nothing
  }

  /** What a decisive stage ends in: a refusal raises with the request's
      fields, and a saved file is loaded. */
  function Decide(host: Host, path: string, st: Stage, params: seq<Download.Field>): Outcome {
    if st.Rejected? then Refused(st.code, params)
    else if host.load(path).Some? then Loaded(host.load(path).value)
    else LoadRaised(path)
  }

  /** The outcome of the remaining directories from the pairs `m`, stage
      by stage. */
  function Run(host: Host, dirs: seq<string>, filename: string, params: seq<Download.Field>, m: Marks): Outcome
    decreases |dirs|
  {
    if |dirs| == 0 then Exhausted(m)
    else
      var path := Join(dirs[0], filename);
      var st := StageOf(host, dirs[0], path);
      if Decisive(st) then Decide(host, path, st, params)
      else Run(host, dirs[1..], filename, params, Note(m, dirs[0], path, st))
  }

  /** One pass of the loop over `dir`: `done` when the function returns or
      raises here, with what; otherwise the pairs it leaves behind. */
  method TryDirectory(host: Host, dir: string, filename: string, params: seq<Download.Field>, m: Marks)
    returns (done: bool, out: Outcome, m': Marks)
    ensures var path := Join(dir, filename);
            var st := StageOf(host, dir, path);
            && done == Decisive(st)
            && (done ==> out == Decide(host, path, st, params))
            && (!done ==> m' == Note(m, dir, path, st))
  {
    done, out, m' := false, Nothing, m;
    if dir == "" {
      return;
    }
    if !host.present(dir) && !host.makeDirs(dir) {
      m' := m'.(dir := Mark(false, Some(dir)));
      return;
    }
    m' := m'.(dir := Mark(true, Some(dir)));
    var path := Join(dir, filename);
    if !host.create(path) {
      m' := m'.(file := Mark(false, Some(path)));
      return;
    }
    m' := m'.(file := Mark(true, Some(path)));
    var code := host.status(dir);
    if code != 200 {
      return true, Refused(code, params), m';
    }
    if !host.save(path) {
      m' := m'.(saved := Mark(false, Some(path)));
      return;
    }
    m' := m'.(saved := Mark(true, Some(path)));
    var lib := host.load(path);
    if lib.None? {
      return true, LoadRaised(path), m';
    }
    return true, Loaded(lib.value), m';
  }

  /** `load_updated_library`: an empty directory is skipped, a directory
      that cannot be made, a file that cannot be opened and a file that
      cannot be written each record a failure and move on, a refused
      download raises at once and a saved file is loaded; when every
      directory has failed, the recorded pairs choose the error. */
  method LoadUpdated(host: Host, dirs: seq<string>, filename: string, params: seq<Download.Field>)
    returns (out: Outcome)
    ensures out == Run(host, dirs, filename, params, Initial)
    ensures out.Loaded? ==> exists k :: 0 <= k < |dirs| && host.load(Join(dirs[k], filename)) == Some(out.lib)
  {
    var m := Initial;
    var i := 0;
    while i < |dirs|
      invariant i <= |dirs|
      invariant Run(host, dirs, filename, params, Initial) == Run(host, dirs[i..], filename, params, m)
    {
      var done, o, m' := TryDirectory(host, dirs[i], filename, params, m);
      assert dirs[i..][0] == dirs[i] && dirs[i..][1..] == dirs[i + 1..];
      if done {
        assert o.Loaded? ==> host.load(Join(dirs[i], filename)) == Some(o.lib);
        return o;
      }
      m := m';
      i := i + 1;
    }
    out := Exhausted(m);
  }

  /** A failed directory never sets `file_saved`. */
  lemma NoteKeepsUnsaved(m: Marks, dir: string, path: string, st: Stage)
    requires !Decisive(st) && !m.saved.ok
    ensures !Note(m, dir, path, st).saved.ok
  {
  }

  /** Once `file_saved` is false it stays false until a file is saved,
      and a saved file is always returned: the function never runs off its
      end, whatever the host does. */
  lemma {:induction false} NeverFallsThrough(host: Host, dirs: seq<string>, filename: string,
                                             params: seq<Download.Field>, m: Marks)
    requires !m.saved.ok
    ensures Run(host, dirs, filename, params, m) != Nothing
    decreases |dirs|
  {
    if |dirs| > 0 {
      var path := Join(dirs[0], filename);
      var st := StageOf(host, dirs[0], path);
      if !Decisive(st) {
        var m' := Note(m, dirs[0], path, st);
        NoteKeepsUnsaved(m, dirs[0], path, st);
        NeverFallsThrough(host, dirs[1..], filename, params, m');
        assert Run(host, dirs, filename, params, m) == Run(host, dirs[1..], filename, params, m');
      } else {
        assert Run(host, dirs, filename, params, m) == Decide(host, path, st, params);
      }
    } else {
      assert Exhausted(m) != Nothing;
    }
  }

  /** The first directory that gets past every failure decides: its
      refusal is raised, or its file is loaded. */
  lemma {:induction false} FirstDecisiveWins(host: Host, dirs: seq<string>, filename: string,
                                             params: seq<Download.Field>, m: Marks, k: nat)
    requires k < |dirs| && Decisive(StageAt(host, dirs, filename, k))
    requires forall j :: 0 <= j < k ==> !Decisive(StageAt(host, dirs, filename, j))
    ensures var path := Join(dirs[k], filename);
            && (StageAt(host, dirs, filename, k).Rejected? ==>
                  Run(host, dirs, filename, params, m) == Refused(host.status(dirs[k]), params))
            && (StageAt(host, dirs, filename, k).Saved? ==>
                  Run(host, dirs, filename, params, m) ==
                    (if host.load(path).Some? then Loaded(host.load(path).value) else LoadRaised(path)))
    decreases k
  {
    if k > 0 {
      var path := Join(dirs[0], filename);
      var st := StageAt(host, dirs, filename, 0);
      assert !Decisive(st);
      var rest := dirs[1..];
      forall j | 0 <= j < k - 1
        ensures !Decisive(StageAt(host, rest, filename, j))
      {
        assert StageAt(host, rest, filename, j) == StageAt(host, dirs, filename, j + 1);
      }
      assert StageAt(host, rest, filename, k - 1) == StageAt(host, dirs, filename, k);
      FirstDecisiveWins(host, rest, filename, params, Note(m, dirs[0], path, st), k - 1);
    }
  }

  /** With nothing but skipped directories left, the recorded pairs
      decide. */
  lemma {:induction false} OnlySkippedLeft(host: Host, dirs: seq<string>, filename: string,
                                           params: seq<Download.Field>, m: Marks)
    requires forall j :: 0 <= j < |dirs| ==> dirs[j] == ""
    ensures Run(host, dirs, filename, params, m) == Exhausted(m)
    decreases |dirs|
  {
    if |dirs| > 0 {
      assert StageOf(host, dirs[0], Join(dirs[0], filename)) == Skipped;
      OnlySkippedLeft(host, dirs[1..], filename, params, m);
    }
  }

  /** The error a failed directory leaves to be reported, whatever came
      before it. */
  function FailureOf(st: Stage, dir: string, path: string): Outcome {
    match st
    case DirFailed => NoDirectory(Some(dir))
    case FileFailed => NoFile(Some(path))
    case _ => NotSaved(Some(path))
  }

  /** When no directory is decisive, the three flags only ever describe
      the last directory tried, so the error raised is that directory's own
      failure: the directory it could not make, the file it could not open
      or the file it could not write. */
  lemma {:induction false} LastFailureReported(host: Host, dirs: seq<string>, filename: string,
                                               params: seq<Download.Field>, m: Marks, k: nat)
    requires forall j :: 0 <= j < |dirs| ==> !Decisive(StageAt(host, dirs, filename, j))
    requires k < |dirs| && dirs[k] != ""
    requires forall j :: k < j < |dirs| ==> dirs[j] == ""
    ensures Run(host, dirs, filename, params, m) ==
              FailureOf(StageAt(host, dirs, filename, k), dirs[k], Join(dirs[k], filename))
    decreases k
  {
    var path := Join(dirs[0], filename);
    var st := StageAt(host, dirs, filename, 0);
    var rest := dirs[1..];
    var m' := Note(m, dirs[0], path, st);
    assert Run(host, dirs, filename, params, m) == Run(host, rest, filename, params, m');
    if k == 0 {
      OnlySkippedLeft(host, rest, filename, params, m');
    } else {
      forall j | 0 <= j < |rest|
        ensures !Decisive(StageAt(host, rest, filename, j))
      {
        assert StageAt(host, rest, filename, j) == StageAt(host, dirs, filename, j + 1);
      }
      assert StageAt(host, rest, filename, k - 1) == StageAt(host, dirs, filename, k);
      LastFailureReported(host, rest, filename, params, m', k - 1);
    }
  }

  /** Over the directories the binding searches, a download that never
      succeeds always reports a named directory or file: the temporary
      directory when it is set, else the current directory. */
  lemma SearchFailureNamed(host: Host, home: string, machine: string, tmp: string,
                           filename: string, params: seq<Download.Field>)
    requires var dirs := Directories(home, machine, tmp);
             forall j :: 0 <= j < 4 ==> !Decisive(StageAt(host, dirs, filename, j))
    ensures var dirs := Directories(home, machine, tmp);
            var last := if tmp != "" then 3 else 2;
            Run(host, dirs, filename, params, Initial) ==
              FailureOf(StageAt(host, dirs, filename, last), dirs[last], Join(dirs[last], filename))
  {
    var dirs := Directories(home, machine, tmp);
    var last := if tmp != "" then 3 else 2;
    LastFailureReported(host, dirs, filename, params, Initial, last);
  }
}
