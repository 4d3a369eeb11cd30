/** The remote side of the Java loader (`DownloadManager`): the latest
    version query, the library download and its result classification, the
    URL-encoded request bodies and the one-shot endpoint iterator
    (`SratoolkitCgis`). HTTP is a parameter: `post(url, body)` is the
    response body of a version query (None when it throws an
    HttpException), `postLib(url, body)` the status code of a download. */
module Download {
  import opened Util
  import Platform
  import LMProperties

  /** `DownloadManager.DownloadResult`. */
  datatype DownloadResult = Success | Failed | UnsupportedOs

  const DefaultCgi := "http://trace.ncbi.nlm.nih.gov/Traces/sratoolkit/sratoolkit.cgi"
  const CgiOverrideKey := "/servers/sratookit-cgi"

  /** `SratoolkitCgis`: the endpoint and whether it was handed out. */
  datatype Cgis = Cgis(spec: string, done: bool)

  /** The constructor: the configured override, else the default URL. */
  function NewCgis(c: LMProperties.Cache): (it: Cgis)
    ensures !it.done
    ensures CgiOverrideKey in c.props ==> it.spec == c.props[CgiOverrideKey]
    ensures CgiOverrideKey !in c.props ==> it.spec == DefaultCgi
  {
    Cgis(LMProperties.GetProperty(c, CgiOverrideKey).GetOr(DefaultCgi), false)
  }

  /** `nextSpec()`. */
  function NextSpec(it: Cgis): (Option<string>, Cgis) {
    if !it.done then (Some(it.spec), it.(done := true)) else (None, it)
  }

  /** Every endpoint a `for (...; spec != null; ...)` loop over the
      iterator visits. */
  function Drain(it: Cgis): seq<string>
    decreases if it.done then 0 else 1
  {
    var (s, next) := NextSpec(it);
    if s.None? then [] else [s.value] + Drain(next)
  }

  /** The endpoints a fresh iterator yields. */
  function Endpoints(c: LMProperties.Cache): seq<string> {
    Drain(NewCgis(c))
  }

  /** The iterator yields its one endpoint exactly once; every later call
      answers null and changes nothing. */
  lemma {:induction false} CgisYieldOnce(c: LMProperties.Cache)
    ensures var it := NewCgis(c);
            && NextSpec(it).0 == Some(it.spec)
            && NextSpec(NextSpec(it).1) == (None, NextSpec(it).1)
            && Endpoints(c) == [it.spec]
  {
    var it := NewCgis(c);
    var next := NextSpec(it).1;
    assert Drain(next) == [];
  }

  // ---------------------------------------------------------------- requests

  /** One `name=value` pair of a URL-encoded body. */
  type Field = (string, string)

  /** Pairs joined as `k1=v1&k2=v2...`. */
  function EncodeQuery(fields: seq<Field>): string {
    if |fields| == 0 then ""
    else if |fields| == 1 then fields[0].0 + "=" + fields[0].1
    else fields[0].0 + "=" + fields[0].1 + "&" + EncodeQuery(fields[1..])
  }

  /** One piece split at its first `=`. */
  function DecodeField(piece: string): Field {
    var i := IndexOf(piece, '=');
    if i == |piece| then (piece, "") else (piece[..i], piece[i + 1..])
  }

  /** The body read back: split at `&`, each piece at its first `=`. */
  function DecodeQuery(q: string): seq<Field> {
    var parts := Split(q, '&');
    seq(|parts|, k requires 0 <= k < |parts| => DecodeField(parts[k]))
  }

  /** A pair that survives the encoding: the name has no `&` or `=`, the
      value no `&`. */
  predicate Plain(f: Field) {
    Lacks(f.0, '&') && Lacks(f.0, '=') && Lacks(f.1, '&')
  }

  lemma DecodeEncodedField(f: Field)
    requires Plain(f)
    ensures DecodeField(f.0 + "=" + f.1) == f
    ensures Lacks(f.0 + "=" + f.1, '&')
  {
    IndexOfAfter(f.0, '=', f.1);
    assert f.0 + "=" + f.1 == f.0 + ['='] + f.1;
    var piece := f.0 + "=" + f.1;
    assert piece[..|f.0|] == f.0;
    assert piece[|f.0| + 1..] == f.1;
  }

  /** Encoding then decoding gives the fields back. */
  lemma {:induction false} QueryRoundTrip(fields: seq<Field>)
    requires |fields| >= 1
    requires forall k :: 0 <= k < |fields| ==> Plain(fields[k])
    ensures DecodeQuery(EncodeQuery(fields)) == fields
    decreases |fields|
  {
    var f := fields[0];
    var piece := f.0 + "=" + f.1;
    DecodeEncodedField(f);
    if |fields| == 1 {
      SplitWithout(piece, '&');
    } else {
      var rest := EncodeQuery(fields[1..]);
      QueryRoundTrip(fields[1..]);
      assert EncodeQuery(fields) == piece + ['&'] + rest;
      SplitAt(piece, '&', rest);
      var parts := Split(EncodeQuery(fields), '&');
      assert parts == [piece] + Split(rest, '&');
      var d := DecodeQuery(EncodeQuery(fields));
      assert |d| == |fields|;
      forall k | 0 <= k < |fields|
        ensures d[k] == fields[k]
      {
        if k > 0 {
          assert parts[k] == Split(rest, '&')[k - 1];
          assert DecodeQuery(rest)[k - 1] == fields[1..][k - 1];
        }
      }
    }
  }

  /** Encoding a concatenation joins the two encodings with `&`. */
  lemma {:induction false} EncodeAppend(a: seq<Field>, b: seq<Field>)
    requires |a| >= 1 && |b| >= 1
    ensures EncodeQuery(a + b) == EncodeQuery(a) + "&" + EncodeQuery(b)
    decreases |a|
  {
    if |a| == 1 {
      assert (a + b)[1..] == b;
    } else {
      EncodeAppend(a[1..], b);
      assert (a + b)[1..] == a[1..] + b;
    }
  }

  /** `cmd=vers&libname=<libname>` */
  function VersRequest(libname: string): string {
    "cmd=vers&libname=" + libname
  }

  /** The OS description as a field list: name and bits always, then the
      architecture and then the OS version when the JVM reports them. */
  function OsFields(sys: Platform.SysProps): (fs: seq<Field>)
    requires "os.name" in sys
    ensures |fs| == 2 + (if "os.arch" in sys then 1 else 0) + (if "os.version" in sys then 1 else 0)
    ensures fs[0] == ("os_name", sys["os.name"])
    ensures fs[1] == ("bits", Platform.IntString(Platform.DetectJVM(sys)))
    ensures "os.arch" in sys ==> fs[2] == ("os_arch", sys["os.arch"])
    ensures "os.version" in sys ==> fs[|fs| - 1] == ("os_version", sys["os.version"])
  {
    [("os_name", sys["os.name"]), ("bits", Platform.IntString(Platform.DetectJVM(sys)))]
    + (if "os.arch" in sys then [("os_arch", sys["os.arch"])] else [])
    + (if "os.version" in sys then [("os_version", sys["os.version"])] else [])
  }

  /** `osProperties()`: null stands for the exception thrown when
      `os.name` is unset. The string is the encoding of `OsFields`. */
  function OsProperties(sys: Platform.SysProps): (r: Option<string>)
    ensures r.None? <==> "os.name" !in sys
    ensures r.Some? ==> r.value == EncodeQuery(OsFields(sys))
  {
    if "os.name" !in sys then None
    else
      var request := "os_name=" + sys["os.name"] + "&bits=" + Platform.IntString(Platform.DetectJVM(sys));
      var request := if "os.arch" in sys then request + "&os_arch=" + sys["os.arch"] else request;
      var request := if "os.version" in sys then request + "&os_version=" + sys["os.version"] else request;
      OsPropertiesEncoding(sys);
      Some(request)
  }

  /** Appending `&name=value` to a non-empty list's encoding encodes the
      list with that field appended. */
  lemma AppendField(fs: seq<Field>, name: string, value: string, sep: string)
    requires |fs| >= 1 && sep == "&" + name + "="
    ensures EncodeQuery(fs) + sep + value == EncodeQuery(fs + [(name, value)])
  {
    EncodeAppend(fs, [(name, value)]);
    var a := EncodeQuery(fs);
    assert EncodeQuery([(name, value)]) == name + "=" + value;
    Assoc(a + "&", name + "=", value);
    Assoc(a + "&", name, "=");
    Assoc(a, "&", name);
    Assoc(a, "&" + name, "=");
  }

  lemma OsHeadEncoding(n: string, bits: string)
    ensures EncodeQuery([("os_name", n)] + [("bits", bits)]) == "os_name=" + n + "&bits=" + bits
  {
    var first := [("os_name", n)];
    assert EncodeQuery(first) == "os_name=" + n by {
      assert "os_name" + "=" == "os_name=";
    }
    assert "&bits=" == "&" + "bits" + "=";
    AppendField(first, "bits", bits, "&bits=");
  }

  /** The fields that follow the bitness, each present or not. */
  function Optional(name: string, value: Option<string>): seq<Field> {
    if value.Some? then [(name, value.value)] else []
  }

  /** The string the getter builds, for any name, bitness and optional
      architecture and version. */
  lemma OsEncoding(n: string, bits: string, arch: Option<string>, ver: Option<string>)
    ensures var b0 := "os_name=" + n + "&bits=" + bits;
            var b1 := if arch.Some? then b0 + "&os_arch=" + arch.value else b0;
            var b2 := if ver.Some? then b1 + "&os_version=" + ver.value else b1;
            b2 == EncodeQuery([("os_name", n)] + [("bits", bits)] + Optional("os_arch", arch) + Optional("os_version", ver))
  {
    var head := [("os_name", n)] + [("bits", bits)];
    var b0 := "os_name=" + n + "&bits=" + bits;
    OsHeadEncoding(n, bits);
    var withArch := head + Optional("os_arch", arch);
    var b1 := if arch.Some? then b0 + "&os_arch=" + arch.value else b0;
    assert EncodeQuery(withArch) == b1 by {
      if arch.Some? {
        assert "&os_arch=" == "&" + "os_arch" + "=";
        AppendField(head, "os_arch", arch.value, "&os_arch=");
      } else {
        assert withArch == head;
      }
    }
    if ver.Some? {
      assert "&os_version=" == "&" + "os_version" + "=";
      AppendField(withArch, "os_version", ver.value, "&os_version=");
    } else {
      assert withArch + Optional("os_version", ver) == withArch;
    }
  }

  lemma OsPropertiesEncoding(sys: Platform.SysProps)
    requires "os.name" in sys
    ensures var b0 := "os_name=" + sys["os.name"] + "&bits=" + Platform.IntString(Platform.DetectJVM(sys));
            var b1 := if "os.arch" in sys then b0 + "&os_arch=" + sys["os.arch"] else b0;
            var b2 := if "os.version" in sys then b1 + "&os_version=" + sys["os.version"] else b1;
            b2 == EncodeQuery(OsFields(sys))
  {
    var arch := if "os.arch" in sys then Some(sys["os.arch"]) else None;
    var ver := if "os.version" in sys then Some(sys["os.version"]) else None;
    var bits := Platform.IntString(Platform.DetectJVM(sys));
    OsEncoding(sys["os.name"], bits, arch, ver);
    assert OsFields(sys) == [("os_name", sys["os.name"])] + [("bits", bits)] + Optional("os_arch", arch) + Optional("os_version", ver);
  }

  /** `cmd=lib&version=1.0&libname=<libname>&<osProperties>`: the caller's
      version argument does not appear. */
  function LibRequest(libname: string, osProps: string): string {
    "cmd=lib&version=1.0&libname=" + libname + "&" + osProps
  }

  function LibHead(libname: string): seq<Field> {
    [("cmd", "lib"), ("version", "1.0"), ("libname", libname)]
  }

  /** Putting a field in front of a non-empty list prefixes `name=value&`. */
  lemma ConsField(f: Field, rest: seq<Field>)
    requires |rest| >= 1
    ensures EncodeQuery([f] + rest) == f.0 + "=" + f.1 + "&" + EncodeQuery(rest)
  {
    assert ([f] + rest)[1..] == rest;
  }

  lemma CmdVersionEncoding()
    ensures EncodeQuery([("cmd", "lib"), ("version", "1.0")]) == "cmd=lib&version=1.0"
  {
    var first := [("cmd", "lib")];
    assert EncodeQuery(first) == "cmd=lib";
    assert "&version=" == "&" + "version" + "=";
    AppendField(first, "version", "1.0", "&version=");
    assert first + [("version", "1.0")] == [("cmd", "lib"), ("version", "1.0")];
    assert "cmd=lib" + "&version=" + "1.0" == "cmd=lib&version=1.0";
  }

  lemma LibHeadEncoding(libname: string)
    ensures EncodeQuery(LibHead(libname)) == "cmd=lib&version=1.0&libname=" + libname
  {
    var second := [("cmd", "lib"), ("version", "1.0")];
    CmdVersionEncoding();
    assert "&libname=" == "&" + "libname" + "=";
    AppendField(second, "libname", libname, "&libname=");
    assert second + [("libname", libname)] == LibHead(libname);
    assert "cmd=lib&version=1.0" + "&libname=" == "cmd=lib&version=1.0&libname=";
  }

  /** The download body read back: the command, the fixed protocol version
      1.0, the library name, then the OS fields in order. */
  lemma LibRequestFields(libname: string, sys: Platform.SysProps)
    requires "os.name" in sys
    requires Plain(("libname", libname))
    requires forall k :: 0 <= k < |OsFields(sys)| ==> Plain(OsFields(sys)[k])
    ensures DecodeQuery(LibRequest(libname, OsProperties(sys).value)) == LibHead(libname) + OsFields(sys)
  {
    var head := LibHead(libname);
    var os := OsFields(sys);
    var osStr := OsProperties(sys).value;
    assert osStr == EncodeQuery(os);
    LibHeadEncoding(libname);
    EncodeAppend(head, os);
    assert LibRequest(libname, osStr) == EncodeQuery(head + os);
    var all := head + os;
    assert forall k :: 0 <= k < 3 ==> Plain(all[k]);
    assert forall k :: 3 <= k < |all| ==> all[k] == os[k - 3];
    QueryRoundTrip(all);
  }

  // ------------------------------------------------------------------ trim

  predicate Blank(ch: char) {
    ch <= ' '
  }

  function LeadingBlanks(s: string): (n: nat)
    ensures n <= |s|
    ensures forall k :: 0 <= k < n ==> Blank(s[k])
    ensures n < |s| ==> !Blank(s[n])
  {
    if |s| == 0 || !Blank(s[0]) then 0
    else
      var n := LeadingBlanks(s[1..]);
      assert forall k :: 1 <= k < n + 1 ==> s[k] == s[1..][k - 1];
      1 + n
  }

  function TrailingBlanks(s: string): (n: nat)
    ensures n <= |s|
    ensures forall k :: |s| - n <= k < |s| ==> Blank(s[k])
    ensures n < |s| ==> !Blank(s[|s| - 1 - n])
  {
    if |s| == 0 || !Blank(s[|s| - 1]) then 0
    else
      var n := TrailingBlanks(s[..|s| - 1]);
      assert forall k :: |s| - 1 - n <= k < |s| - 1 ==> s[k] == s[..|s| - 1][k];
      1 + n
  }

  /** Java's `String.trim()`: drops the leading and trailing characters at
      or below U+0020, and nothing else. */
  function Trim(s: string): (r: string)
    ensures |r| > 0 ==> !Blank(r[0]) && !Blank(r[|r| - 1])
    ensures exists i :: OccursAt(s, r, i) && forall k :: 0 <= k < |s| && !(i <= k < i + |r|) ==> Blank(s[k])
  {
    var a := LeadingBlanks(s);
    var t := s[a..];
    var b := TrailingBlanks(t);
    var r := t[..|t| - b];
    assert OccursAt(s, r, a);
    assert forall k :: a + |r| <= k < |s| ==> s[k] == t[k - a];
    r
  }

  // ------------------------------------------------------- remote operations

  /** The loop of `getLatestVersion` over `endpoints`: the trimmed body of
      the first endpoint that answers, or null when every one throws. */
  function LatestFrom(endpoints: seq<string>, request: string, post: (string, string) -> Option<string>)
    : (r: Option<string>)
    ensures r.None? <==> forall i :: 0 <= i < |endpoints| ==> post(endpoints[i], request).None?
    ensures r.Some? ==> exists i :: FirstAnswer(endpoints, request, post, i) && r.value == Trim(post(endpoints[i], request).value)
  {
    if |endpoints| == 0 then None
    else if post(endpoints[0], request).Some? then
      assert FirstAnswer(endpoints, request, post, 0);
      Some(Trim(post(endpoints[0], request).value))
    else
      var r := LatestFrom(endpoints[1..], request, post);
      FirstAnswerShift(endpoints, request, post);
      r
  }

  /** Endpoint `i` is the first whose query does not throw. */
  ghost predicate FirstAnswer(endpoints: seq<string>, request: string, post: (string, string) -> Option<string>, i: int) {
    && 0 <= i < |endpoints| && post(endpoints[i], request).Some?
    && forall j :: 0 <= j < i ==> post(endpoints[j], request).None?
  }

  lemma FirstAnswerShift(endpoints: seq<string>, request: string, post: (string, string) -> Option<string>)
    requires |endpoints| > 0 && post(endpoints[0], request).None?
    ensures forall i :: FirstAnswer(endpoints[1..], request, post, i) ==> FirstAnswer(endpoints, request, post, i + 1)
    ensures (forall i :: 0 <= i < |endpoints[1..]| ==> post(endpoints[1..][i], request).None?)
            ==> forall i :: 0 <= i < |endpoints| ==> post(endpoints[i], request).None?
  {
    forall i | FirstAnswer(endpoints[1..], request, post, i)
      ensures FirstAnswer(endpoints, request, post, i + 1)
    {
      assert forall j :: 1 <= j < i + 1 ==> endpoints[j] == endpoints[1..][j - 1];
    }
    if forall i :: 0 <= i < |endpoints[1..]| ==> post(endpoints[1..][i], request).None? {
      forall i | 0 <= i < |endpoints|
        ensures post(endpoints[i], request).None?
      {
        if i > 0 {
          assert endpoints[i] == endpoints[1..][i - 1];
        }
      }
    }
  }

  /** `getLatestVersion(libname)`. */
  function GetLatestVersion(c: LMProperties.Cache, libname: string, post: (string, string) -> Option<string>)
    : (r: Option<string>)
    ensures var spec := NewCgis(c).spec;
            r == (if post(spec, VersRequest(libname)).Some? then Some(Trim(post(spec, VersRequest(libname)).value)) else None)
  {
    CgisYieldOnce(c);
    LatestFrom(Endpoints(c), VersRequest(libname), post)
  }

  /** A status that sends `downloadLib` on to the next endpoint. */
  predicate Retry(code: int) {
    code != 200 && code != 412
  }

  /** The outcome of `downloadLib`, the body it posted (none when the OS is
      unknown), and the endpoints it posted to, in order. */
  datatype DownloadLog = DownloadLog(result: DownloadResult, request: Option<string>, tried: seq<string>)

  /** `downloadLib(fileCreator, libname, version)` over `endpoints`. */
  method DownloadLib(libname: string, version: string, sys: Platform.SysProps, endpoints: seq<string>,
                     postLib: (string, string) -> int)
    returns (log: DownloadLog)
    ensures "os.name" !in sys ==> log == DownloadLog(Failed, None, [])
    ensures "os.name" in sys ==>
              var req := LibRequest(libname, OsProperties(sys).value);
              && log.request == Some(req)
              && |log.tried| <= |endpoints| && log.tried == endpoints[..|log.tried|]
              && (forall j :: 0 <= j < |log.tried| - 1 ==> Retry(postLib(log.tried[j], req)))
              && (log.result == Success ==> |log.tried| > 0 && postLib(log.tried[|log.tried| - 1], req) == 200)
              && (log.result == UnsupportedOs ==> |log.tried| > 0 && postLib(log.tried[|log.tried| - 1], req) == 412)
              && (log.result == Failed <==>
                    log.tried == endpoints && forall j :: 0 <= j < |endpoints| ==> Retry(postLib(endpoints[j], req)))
  {
    var props := OsProperties(sys);
    if props.None? {
      return DownloadLog(Failed, None, []);
    }
    var request := LibRequest(libname, props.value);
    var i := 0;
    while i < |endpoints|
      invariant 0 <= i <= |endpoints|
      invariant forall j :: 0 <= j < i ==> Retry(postLib(endpoints[j], request))
    {
      var code := postLib(endpoints[i], request);
      if code == 200 {
        return DownloadLog(Success, Some(request), endpoints[..i + 1]);
      } else if code == 412 {
        return DownloadLog(UnsupportedOs, Some(request), endpoints[..i + 1]);
      }
      i := i + 1;
    }
    return DownloadLog(Failed, Some(request), endpoints);
  }
}
