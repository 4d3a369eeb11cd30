/** What the Java loader reads from the JVM's system properties: the
    bit-width of the running JVM (`LibManager.DetectJVM`, `Bits`) and the
    platform file names of a library (`LibManager.mapLibraryName`). The
    system properties are a map: a missing key is Java's `null`. */
module Platform {
  import opened Util

  type SysProps = map<string, string>

  /** `LibManager.Bits`. */
  datatype Bits = B32 | B64 | BUnknown

  /** `Bits.intString()`: "32" for B32, and "64" for both B64 and BUnknown. */
  function IntString(b: Bits): (s: string)
    ensures s == "32" <==> b == B32
    ensures s == "64" <==> b != B32
  {
    match b
    case B32 => "32"
    case _ => "64"
  }

  /** The properties `DetectJVM` consults, in order. */
  const BitKeys: seq<string> := ["sun.arch.data.model", "com.ibm.vm.bitmode", "os.arch"]

  /** The loop of `DetectJVM` from key `keys[0]` on: the first key that is
      present decides, 64-bit exactly when its value contains "64". */
  function DetectFrom(sys: SysProps, keys: seq<string>): (b: Bits)
    ensures b == BUnknown <==> forall i :: 0 <= i < |keys| ==> keys[i] !in sys
    ensures b != BUnknown ==>
              exists i :: 0 <= i < |keys| && keys[i] in sys && (forall j :: 0 <= j < i ==> keys[j] !in sys)
                          && (b == B64 <==> Contains(sys[keys[i]], "64"))
  {
    if |keys| == 0 then BUnknown
    else if keys[0] in sys then
      (if ContainsStr(sys[keys[0]], "64") then B64 else B32)
    else
      var b := DetectFrom(sys, keys[1..]);
      assert forall i :: 1 <= i < |keys| ==> keys[i] == keys[1..][i - 1];
      b
  }

  /** `DetectJVM()`. */
  function DetectJVM(sys: SysProps): (b: Bits)
    ensures b == BUnknown <==> forall i :: 0 <= i < |BitKeys| ==> BitKeys[i] !in sys
  {
    DetectFrom(sys, BitKeys)
  }

  /** `DetectJVM` spelled out key by key. */
  lemma DetectJVMCases(sys: SysProps)
    ensures "sun.arch.data.model" in sys ==>
              DetectJVM(sys) == (if Contains(sys["sun.arch.data.model"], "64") then B64 else B32)
    ensures "sun.arch.data.model" !in sys && "com.ibm.vm.bitmode" in sys ==>
              DetectJVM(sys) == (if Contains(sys["com.ibm.vm.bitmode"], "64") then B64 else B32)
    ensures "sun.arch.data.model" !in sys && "com.ibm.vm.bitmode" !in sys && "os.arch" in sys ==>
              DetectJVM(sys) == (if Contains(sys["os.arch"], "64") then B64 else B32)
    ensures "sun.arch.data.model" !in sys && "com.ibm.vm.bitmode" !in sys && "os.arch" !in sys ==>
              DetectJVM(sys) == BUnknown
  {
    var b := DetectJVM(sys);
    assert BitKeys[0] == "sun.arch.data.model" && BitKeys[1] == "com.ibm.vm.bitmode" && BitKeys[2] == "os.arch";
    if b != BUnknown {
      var i :| 0 <= i < |BitKeys| && BitKeys[i] in sys && (forall j :: 0 <= j < i ==> BitKeys[j] !in sys)
               && (b == B64 <==> Contains(sys[BitKeys[i]], "64"));
      if i == 1 {
        assert BitKeys[0] !in sys;
      } else if i == 2 {
        assert BitKeys[0] !in sys && BitKeys[1] !in sys;
      }
    }
  }

  /** `libnameWithDataModel`: the name with "-64" or "-32" appended, or
      null when the bit-width is unknown. */
  function LibnameWithDataModel(libname: string, sys: SysProps): (m: Option<string>)
    ensures m.None? <==> DetectJVM(sys) == BUnknown
    ensures m.Some? ==> m.value == libname + "-" + IntString(DetectJVM(sys))
  {
    match DetectJVM(sys)
    case B64 => Some(libname + "-64")
    case B32 => Some(libname + "-32")
    case BUnknown => None
  }

  const MacOsX := "Mac OS X"

  /** The names `mapLibraryName` is built from: the data-model name (when
      asked for and known) before the plain name. */
  function BaseNames(libname: string, withDataModel: bool, sys: SysProps): seq<string> {
    var m := if withDataModel then LibnameWithDataModel(libname, sys) else Some(libname);
    (if m.Some? then [m.value] else []) + [libname]
  }

  /** The file names `mapLibraryName` promises: every base name mapped by
      the platform, then, on Mac OS X, every base name with ".dylib". */
  function MappedNames(libname: string, withDataModel: bool, sys: SysProps, mapName: string -> string)
    : seq<string>
  {
    var names := BaseNames(libname, withDataModel, sys);
    var mac := "os.name" in sys && sys["os.name"] == MacOsX;
    seq(|names|, k requires 0 <= k < |names| => mapName(names[k]))
    + (if mac then seq(|names|, k requires 0 <= k < |names| => names[k] + ".dylib") else [])
  }

  /** `mapLibraryName(libname, withDataModel)`; `mapName` is the platform's
      `System.mapLibraryName`. */
  method MapLibraryName(libname: string, withDataModel: bool, sys: SysProps, mapName: string -> string)
    returns (ns: seq<string>)
    ensures var names := BaseNames(libname, withDataModel, sys);
            var mac := "os.name" in sys && sys["os.name"] == MacOsX;
            && |ns| == |names| * (if mac then 2 else 1)
            && (forall k :: 0 <= k < |names| ==> ns[k] == mapName(names[k]))
            && (mac ==> forall k :: 0 <= k < |names| ==> ns[|names| + k] == names[k] + ".dylib")
    ensures ns == MappedNames(libname, withDataModel, sys, mapName)
  {
    var m := Some(libname);
    if withDataModel {
      m := LibnameWithDataModel(libname, sys);
    }
    var dup := 1;
    if "os.name" in sys && sys["os.name"] == MacOsX {
      dup := 2;
    }
    ns := [];
    if m.Some? {
      ns := ns + [mapName(m.value)];
    }
    ns := ns + [mapName(libname)];
    if dup == 2 {
      if m.Some? {
        ns := ns + [m.value + ".dylib"];
      }
      ns := ns + [libname + ".dylib"];
    }
  }
}
