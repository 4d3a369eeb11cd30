/** The one-line protocol between the child JVM the Java loader launches
    and the parent that reads its standard output: the child's `main`
    prints `LibManager: libname='<L>' filename='<P>'` for every library it
    checked, and the parent (`launchLibCheck`) matches each line against
    `^LibManager: libname='(.*)' filename='(.*)'$`, records the file name
    for the library it asked about and echoes every line that does not
    match. */
module ChildProtocol {
  import opened Util

  const Prefix := "LibManager: libname='"
  const Sep := "' filename='"

  /** A name and a path between a prefix, a separator and a closing
      quote. */
  function Framed(pre: string, sep: string, name: string, path: string): string {
    pre + name + sep + path + "'"
  }

  /** The line `main` prints for a library and the path `checkLib` gave. */
  function MainLine(libname: string, path: string): string {
    Framed(Prefix, Sep, libname, path)
  }

  /** The characters Java's regular expressions treat as line terminators
      (without `UNIX_LINES`): `.` matches none of them. */
  predicate Terminator(ch: char) {
    ch == '\n' || ch == '\r' || ch == '\U{85}' || ch == '\U{2028}' || ch == '\U{2029}'
  }

  predicate NoTerminator(s: string) {
    forall k :: 0 <= k < |s| ==> !Terminator(s[k])
  }

  /** Without `MULTILINE`, `$` matches at the end of the input and also
      just before one final line terminator (`\r\n` counts as one). */
  function DropFinalTerminator(line: string): (body: string)
    ensures StartsWith(line, body) && |line| - 2 <= |body| <= |line|
    ensures NoTerminator(line) ==> body == line
  {
    if |line| >= 2 && line[|line| - 2..] == "\r\n" then
      assert Terminator(line[|line| - 1]) by { assert line[|line| - 2..][1] == '\n'; }
      line[..|line| - 2]
    else if |line| >= 1 && Terminator(line[|line| - 1]) then line[..|line| - 1]
    else line
  }

  /** The largest `k` in `[lo, hi]` at which `p` occurs in `s`. */
  function LastOccurrence(s: string, p: string, lo: int, hi: int): (r: Option<int>)
    ensures r.Some? ==> lo <= r.value <= hi && OccursAt(s, p, r.value)
                        && forall j :: r.value < j <= hi ==> !OccursAt(s, p, j)
    ensures r.None? ==> forall j :: lo <= j <= hi ==> !OccursAt(s, p, j)
    decreases hi - lo
  {
    if hi < lo then None
    else if OccursAt(s, p, hi) then Some(hi)
    else LastOccurrence(s, p, lo, hi - 1)
  }

  /** The match on a line without terminators: the prefix, a closing
      quote, and the last separator that leaves room for it. */
  function Unframe(pre: string, sep: string, body: string): (r: Option<(string, string)>)
  {
    if !StartsWith(body, pre) || |body| < |pre| + |sep| + 1 || body[|body| - 1] != '\'' then None
    else
      match LastOccurrence(body, sep, |pre|, |body| - 1 - |sep|)
      case None => None
      case Some(k) => Some((body[|pre|..k], body[k + |sep|..|body| - 1]))
  }

  function ParseBody(body: string): Option<(string, string)> {
    Unframe(Prefix, Sep, body)
  }

  /** The match in `launchLibCheck`: both groups are greedy, so the name
      runs up to the LAST `' filename='` that still leaves room for the
      closing quote, and neither group may contain a line terminator. */
  function ParseLine(line: string): (r: Option<(string, string)>)
  {
    var body := DropFinalTerminator(line);
    if !NoTerminator(body) then None else ParseBody(body)
  }

  /** What the proofs need of the prefix and the separator: neither holds
      a line terminator, and the separator has quotes only at its two
      ends. */
  predicate Delimiters(pre: string, sep: string) {
    && NoTerminator(pre) && NoTerminator(sep)
    && |sep| == 12 && sep[0] == '\'' && sep[11] == '\''
    && forall i :: 1 <= i < 11 ==> sep[i] != '\''
  }

  lemma ConstantChars()
    ensures Delimiters(Prefix, Sep)
  {
  }

  /** Where each character of a framed line comes from. */
  lemma FramedChars(pre: string, sep: string, name: string, path: string)
    ensures var line := Framed(pre, sep, name, path);
            var k0 := |pre| + |name|;
            && |line| == k0 + |sep| + |path| + 1
            && (forall i :: 0 <= i < |pre| ==> line[i] == pre[i])
            && (forall i :: 0 <= i < |name| ==> line[|pre| + i] == name[i])
            && (forall i :: 0 <= i < |sep| ==> line[k0 + i] == sep[i])
            && (forall i :: 0 <= i < |path| ==> line[k0 + |sep| + i] == path[i])
            && line[|line| - 1] == '\''
  {
    var a := pre + name;
    var b := a + sep;
    var c := b + path;
    assert Framed(pre, sep, name, path) == c + "'";
  }

  /** A line with the prefix, a separator at `k` and a closing quote is the
      framed line of the two parts between them. */
  lemma Reassemble(pre: string, sep: string, body: string, k: int)
    requires StartsWith(body, pre) && |pre| <= k && OccursAt(body, sep, k)
    requires k + |sep| <= |body| - 1 && body[|body| - 1] == '\''
    ensures body == Framed(pre, sep, body[|pre|..k], body[k + |sep|..|body| - 1])
  {
    var a, b := body[|pre|..k], body[k + |sep|..|body| - 1];
    var n := |body|;
    assert body[..|pre|] == pre && body[k..k + |sep|] == sep;
    assert body == body[..k + |sep|] + body[k + |sep|..n - 1] + body[n - 1..];
    assert body[..k + |sep|] == body[..k] + body[k..k + |sep|];
    assert body[..k] == body[..|pre|] + body[|pre|..k];
    assert body[n - 1..] == "'";
  }

  /** What the match accepts is a framed line of two parts without
      terminators. */
  lemma UnframedParts(pre: string, sep: string, body: string)
    requires NoTerminator(body) && Unframe(pre, sep, body).Some?
    ensures var r := Unframe(pre, sep, body).value;
            body == Framed(pre, sep, r.0, r.1) && NoTerminator(r.0) && NoTerminator(r.1)
  {
    var k := LastOccurrence(body, sep, |pre|, |body| - 1 - |sep|).value;
    var a, b := body[|pre|..k], body[k + |sep|..|body| - 1];
    assert Unframe(pre, sep, body) == Some((a, b));
    Reassemble(pre, sep, body, k);
    assert NoTerminator(a) by {
      assert forall i :: 0 <= i < |a| ==> a[i] == body[|pre| + i];
    }
    assert NoTerminator(b) by {
      assert forall i :: 0 <= i < |b| ==> b[i] == body[k + |sep| + i];
    }
  }

  /** Whatever the parser accepts is exactly a line `main` could print,
      save for one trailing line terminator. */
  lemma ParsedLinePrints(line: string)
    ensures var r := ParseLine(line);
            r.Some? ==> DropFinalTerminator(line) == MainLine(r.value.0, r.value.1)
                        && NoTerminator(r.value.0) && NoTerminator(r.value.1)
  {
    var body := DropFinalTerminator(line);
    if NoTerminator(body) && ParseBody(body).Some? {
      UnframedParts(Prefix, Sep, body);
    }
  }

  /** No separator starts after the real one in a framed line whose path
      has no quote. */
  lemma NoLaterSep(pre: string, sep: string, name: string, path: string, j: int)
    requires Delimiters(pre, sep) && !('\'' in path)
    requires |pre| + |name| < j && j + |sep| <= |Framed(pre, sep, name, path)| - 1
    ensures !OccursAt(Framed(pre, sep, name, path), sep, j)
  {
    var line := Framed(pre, sep, name, path);
    var k0 := |pre| + |name|;
    FramedChars(pre, sep, name, path);
    if j >= k0 + |sep| {
      assert line[j] != sep[0] by {
        assert line[j] == path[j - k0 - |sep|];
      }
      assert line[j..j + |sep|][0] == line[j];
    } else if j == k0 + 11 {
      assert line[j + 11] != sep[11] by {
        assert line[j + 11] == path[10];
      }
      assert line[j..j + |sep|][11] == line[j + 11];
    } else {
      assert line[j] != sep[0] by {
        assert line[j] == sep[j - k0];
      }
      assert line[j..j + |sep|][0] == line[j];
    }
  }

  /** Where the parts of a framed line sit. */
  lemma FramedShape(pre: string, sep: string, name: string, path: string)
    ensures var line := Framed(pre, sep, name, path);
            var k0 := |pre| + |name|;
            && |line| == k0 + |sep| + |path| + 1
            && StartsWith(line, pre) && line[|line| - 1] == '\''
            && OccursAt(line, sep, k0)
            && line[|pre|..k0] == name && line[k0 + |sep|..|line| - 1] == path
  {
    var line := Framed(pre, sep, name, path);
    var k0 := |pre| + |name|;
    FramedChars(pre, sep, name, path);
    assert line[..|pre|] == pre;
    assert line[k0..k0 + |sep|] == sep;
    assert line[|pre|..k0] == name;
    assert line[k0 + |sep|..|line| - 1] == path;
  }

  /** A framed line has a terminator only where its parts do. */
  lemma FramedNoTerminator(pre: string, sep: string, name: string, path: string)
    requires Delimiters(pre, sep) && NoTerminator(name) && NoTerminator(path)
    ensures NoTerminator(Framed(pre, sep, name, path))
  {
    var line := Framed(pre, sep, name, path);
    var k0 := |pre| + |name|;
    FramedChars(pre, sep, name, path);
    forall i | 0 <= i < |line|
      ensures !Terminator(line[i])
    {
      if i < |pre| {
        assert line[i] == pre[i];
      } else if i < k0 {
        assert line[i] == name[i - |pre|];
      } else if i < k0 + |sep| {
        assert line[i] == sep[i - k0];
      } else if i < |line| - 1 {
        assert line[i] == path[i - k0 - |sep|];
      }
    }
  }

  /** The match reads a framed line back as its two parts. */
  lemma UnframeFramed(pre: string, sep: string, name: string, path: string)
    requires Delimiters(pre, sep) && !('\'' in path)
    ensures Unframe(pre, sep, Framed(pre, sep, name, path)) == Some((name, path))
  {
    var line := Framed(pre, sep, name, path);
    var k0 := |pre| + |name|;
    FramedShape(pre, sep, name, path);
    var hi := |line| - 1 - |sep|;
    assert LastOccurrence(line, sep, |pre|, hi) == Some(k0) by {
      forall j | k0 < j <= hi
        ensures !OccursAt(line, sep, j)
      {
        NoLaterSep(pre, sep, name, path, j);
      }
    }
  }

  /** Round trip: the line `main` prints is read back by the parent as the
      same library name and path, provided the path has no quote and
      neither part has a line terminator. The name may contain quotes. */
  lemma MainLineRoundTrip(libname: string, path: string)
    requires NoTerminator(libname) && NoTerminator(path) && !('\'' in path)
    ensures ParseLine(MainLine(libname, path)) == Some((libname, path))
  {
    ConstantChars();
    FramedNoTerminator(Prefix, Sep, libname, path);
    UnframeFramed(Prefix, Sep, libname, path);
  }

  /** The line reports a path for a library whose name starts with
      `libname`, which is what makes the parent record it. */
  predicate Reports(line: string, libname: string) {
    ParseLine(line).Some? && StartsWith(ParseLine(line).value.0, libname)
  }

  /** One line the parent reads: the paths reported so far (`latestLibPaths`)
      and whether the line is echoed to standard output. A matched line for
      a library whose name does not start with `libname` is neither
      recorded nor echoed. */
  function ReadLine(paths: map<string, string>, libname: string, line: string)
    : (r: (map<string, string>, bool))
    ensures r.1 <==> ParseLine(line).None?
    ensures r.0 != paths ==> && ParseLine(line).Some? && StartsWith(ParseLine(line).value.0, libname)
                             && r.0 == paths[libname := ParseLine(line).value.1]
    ensures ParseLine(line).Some? && StartsWith(ParseLine(line).value.0, libname) ==>
              r.0 == paths[libname := ParseLine(line).value.1]
    ensures ParseLine(line).Some? && !StartsWith(ParseLine(line).value.0, libname) ==> r.0 == paths
  {
    match ParseLine(line)
    case None => (paths, true)
    case Some((found, filename)) =>
      if StartsWith(found, libname) then (paths[libname := filename], false) else (paths, false)
  }

  /** The `while ((line = bri.readLine()) != null)` loop: the paths after
      reading `lines` in order. Only the requested library's entry can
      change. */
  function ReadLines(paths: map<string, string>, libname: string, lines: seq<string>)
    : (r: map<string, string>)
    ensures r.Keys <= paths.Keys + {libname}
    ensures forall k :: k in paths && k != libname ==> k in r && r[k] == paths[k]
    decreases |lines|
  {
    if |lines| == 0 then paths
    else ReadLine(ReadLines(paths, libname, lines[..|lines| - 1]), libname, lines[|lines| - 1]).0
  }

  /** Line `k` is the last of `lines` that reports a path for `libname`. */
  ghost predicate LastReport(lines: seq<string>, libname: string, k: int) {
    && 0 <= k < |lines|
    && Reports(lines[k], libname)
    && forall j :: k < j < |lines| ==> !Reports(lines[j], libname)
  }

  /** Without a line that reports a path for the requested library the
      reported paths stay as they were. */
  lemma {:induction false} ReadLinesNoReport(paths: map<string, string>, libname: string, lines: seq<string>)
    requires forall k :: 0 <= k < |lines| ==> !Reports(lines[k], libname)
    ensures ReadLines(paths, libname, lines) == paths
    decreases |lines|
  {
    if |lines| > 0 {
      var n := |lines| - 1;
      var init := lines[..n];
      forall j | 0 <= j < n
        ensures !Reports(init[j], libname)
      {
        assert init[j] == lines[j];
      }
      ReadLinesNoReport(paths, libname, init);
    }
  }

  /** What the parent keeps from the child's output: the path of the last
      line that reports one for the requested library. */
  lemma {:induction false} ReadLinesKeepsLast(paths: map<string, string>, libname: string, lines: seq<string>, k: int)
    requires LastReport(lines, libname, k)
    ensures ReadLines(paths, libname, lines) == paths[libname := ParseLine(lines[k]).value.1]
    decreases |lines|
  {
    var n := |lines| - 1;
    if k < n {
      var init := lines[..n];
      LastReportInit(lines, libname, k);
      ReadLinesKeepsLast(paths, libname, init, k);
      ReadLineStep(ReadLines(paths, libname, init), libname, lines[n]);
    } else {
      LastLineReports(paths, libname, lines);
    }
  }

  /** A last report before the final line is still the last one once that
      line is dropped, and the final line reports nothing. */
  lemma LastReportInit(lines: seq<string>, libname: string, k: int)
    requires LastReport(lines, libname, k) && k < |lines| - 1
    ensures var init := lines[..|lines| - 1];
            && LastReport(init, libname, k) && init[k] == lines[k]
            && !Reports(lines[|lines| - 1], libname)
  {
    var init := lines[..|lines| - 1];
    forall j | k <= j < |init|
      ensures init[j] == lines[j]
    {
    }
  }

  /** A reporting last line decides, whatever came before it. */
  lemma LastLineReports(paths: map<string, string>, libname: string, lines: seq<string>)
    requires |lines| > 0 && Reports(lines[|lines| - 1], libname)
    ensures ReadLines(paths, libname, lines) == paths[libname := ParseLine(lines[|lines| - 1]).value.1]
  {
    var prev := ReadLines(paths, libname, lines[..|lines| - 1]);
    ReadLineStep(prev, libname, lines[|lines| - 1]);
    SameUpdate(prev, paths, libname, ParseLine(lines[|lines| - 1]).value.1);
  }

  /** One line read, in terms of whether it reports a path. */
  lemma ReadLineStep(paths: map<string, string>, libname: string, line: string)
    ensures Reports(line, libname) ==> ReadLine(paths, libname, line).0 == paths[libname := ParseLine(line).value.1]
    ensures !Reports(line, libname) ==> ReadLine(paths, libname, line).0 == paths
  {
  }

  /** Two maps that agree away from `key` agree once `key` is set. */
  lemma SameUpdate(a: map<string, string>, b: map<string, string>, key: string, v: string)
    requires a.Keys <= b.Keys + {key}
    requires forall k :: k in b && k != key ==> k in a && a[k] == b[k]
    ensures a[key := v] == b[key := v]
  {
  }

  /** The child's report for the requested library reaches the parent:
      the path is recorded under the requested name and the line is not
      echoed; a report for a library whose name does not start with the
      requested one changes nothing. */
  lemma ChildToParent(paths: map<string, string>, requested: string, reported: string, path: string)
    requires NoTerminator(reported) && NoTerminator(path) && !('\'' in path)
    ensures var r := ReadLine(paths, requested, MainLine(reported, path));
            && !r.1
            && (StartsWith(reported, requested) ==> r.0 == paths[requested := path])
            && (!StartsWith(reported, requested) ==> r.0 == paths)
  {
    MainLineRoundTrip(reported, path);
  }

  // ------------------------------------------------------------- main

  /** How `main` walks its arguments: a library name, then its expected
      latest version when one more argument follows. */
  function ArgPairs(args: seq<string>): (ps: seq<(string, Option<string>)>)
    ensures |ps| == (|args| + 1) / 2
    decreases |args|
  {
    if |args| == 0 then []
    else if |args| == 1 then [(args[0], None)]
    else [(args[0], Some(args[1]))] + ArgPairs(args[2..])
  }

  /** The arguments a list of pairs spells out again. */
  function Flatten(ps: seq<(string, Option<string>)>): seq<string> {
    if |ps| == 0 then []
    else [ps[0].0] + (if ps[0].1.Some? then [ps[0].1.value] else []) + Flatten(ps[1..])
  }

  /** The pairing loses and invents nothing: every argument is used once,
      in order, and only the last pair can lack a version. */
  lemma {:induction false} ArgPairsRoundTrip(args: seq<string>)
    ensures Flatten(ArgPairs(args)) == args
    ensures forall k :: 0 <= k < |ArgPairs(args)| - 1 ==> ArgPairs(args)[k].1.Some?
    decreases |args|
  {
    if |args| >= 2 {
      var ps := ArgPairs(args);
      ArgPairsRoundTrip(args[2..]);
      assert ps[1..] == ArgPairs(args[2..]);
      assert args == [args[0], args[1]] + args[2..];
    }
  }

  /** `idx` lists, in increasing order, exactly the positions of the pairs
      whose check produced a path, and line `j` is the one printed for
      pair `idx[j]`. */
  ghost predicate PrintedInOrder(ps: seq<(string, Option<string>)>, check: (string, Option<string>) -> Option<string>,
                                 lines: seq<string>, idx: seq<int>) {
    && |idx| == |lines|
    && (forall j :: 0 <= j < |idx| ==>
          && 0 <= idx[j] < |ps| && check(ps[idx[j]].0, ps[idx[j]].1).Some?
          && lines[j] == MainLine(ps[idx[j]].0, check(ps[idx[j]].0, ps[idx[j]].1).value))
    && (forall j, j' :: 0 <= j < j' < |idx| ==> idx[j] < idx[j'])
    && (forall k :: 0 <= k < |ps| && check(ps[k].0, ps[k].1).Some? ==> k in idx)
  }

  /** The lines `main` prints: one per library whose check produced a
      path (`check` stands for `checkLib`), in argument order, and none
      for the others. */
  function MainOutput(ps: seq<(string, Option<string>)>, check: (string, Option<string>) -> Option<string>)
    : (lines: seq<string>)
    ensures |lines| <= |ps|
    ensures forall i :: 0 <= i < |lines| ==> FromCheckedPair(ps, check, lines[i])
    ensures exists idx :: PrintedInOrder(ps, check, lines, idx)
    decreases |ps|
  {
    if |ps| == 0 then
      assert PrintedInOrder(ps, check, [], []);
      []
    else
      var n := |ps| - 1;
      var init := MainOutput(ps[..n], check);
      var path := check(ps[n].0, ps[n].1);
      assert forall k :: 0 <= k < n ==> ps[..n][k] == ps[k];
      var lines := if path.Some? then init + [MainLine(ps[n].0, path.value)] else init;
      assert exists idx :: PrintedInOrder(ps, check, lines, idx) by {
        var idx' :| PrintedInOrder(ps[..n], check, init, idx');
        PrintedSnoc(ps, check, init, idx');
      }
      PrintedLinesFromPairs(ps, check, lines);
      lines
  }

  /** `line` is the one printed for some pair whose check produced a path. */
  ghost predicate FromCheckedPair(ps: seq<(string, Option<string>)>, check: (string, Option<string>) -> Option<string>,
                                  line: string) {
    exists k :: 0 <= k < |ps| && check(ps[k].0, ps[k].1).Some? && line == MainLine(ps[k].0, check(ps[k].0, ps[k].1).value)
  }

  /** Each printed line belongs to a pair whose check produced a path. */
  lemma PrintedLinesFromPairs(ps: seq<(string, Option<string>)>, check: (string, Option<string>) -> Option<string>,
                              lines: seq<string>)
    requires exists idx :: PrintedInOrder(ps, check, lines, idx)
    ensures forall i :: 0 <= i < |lines| ==> FromCheckedPair(ps, check, lines[i])
  {
    var idx :| PrintedInOrder(ps, check, lines, idx);
    forall i | 0 <= i < |lines|
      ensures FromCheckedPair(ps, check, lines[i])
    {
      var k := idx[i];
      assert 0 <= k < |ps| && check(ps[k].0, ps[k].1).Some?
             && lines[i] == MainLine(ps[k].0, check(ps[k].0, ps[k].1).value);
    }
  }

  /** The printing order extends by one pair at the end. */
  lemma PrintedSnoc(ps: seq<(string, Option<string>)>, check: (string, Option<string>) -> Option<string>,
                    init: seq<string>, idx': seq<int>)
    requires |ps| > 0 && PrintedInOrder(ps[..|ps| - 1], check, init, idx')
    ensures var n := |ps| - 1;
            var path := check(ps[n].0, ps[n].1);
            PrintedInOrder(ps, check, if path.Some? then init + [MainLine(ps[n].0, path.value)] else init,
                           if path.Some? then idx' + [n] else idx')
  {
    var n := |ps| - 1;
    if check(ps[n].0, ps[n].1).Some? {
      PrintedAppend(ps, check, init, idx');
    } else {
      PrintedSkip(ps, check, init, idx');
    }
  }

  /** A last pair whose check produced nothing prints nothing. */
  lemma PrintedSkip(ps: seq<(string, Option<string>)>, check: (string, Option<string>) -> Option<string>,
                    init: seq<string>, idx': seq<int>)
    requires |ps| > 0 && PrintedInOrder(ps[..|ps| - 1], check, init, idx')
    requires check(ps[|ps| - 1].0, ps[|ps| - 1].1).None?
    ensures PrintedInOrder(ps, check, init, idx')
  {
    var n := |ps| - 1;
    forall j | 0 <= j < |idx'|
      ensures 0 <= idx'[j] < n && ps[..n][idx'[j]] == ps[idx'[j]]
    {
    }
    forall k | 0 <= k < |ps| && check(ps[k].0, ps[k].1).Some?
      ensures k in idx'
    {
      assert k < n && ps[..n][k] == ps[k];
    }
  }

  /** A last pair whose check produced a path prints one more line, last. */
  lemma PrintedAppend(ps: seq<(string, Option<string>)>, check: (string, Option<string>) -> Option<string>,
                      init: seq<string>, idx': seq<int>)
    requires |ps| > 0 && PrintedInOrder(ps[..|ps| - 1], check, init, idx')
    requires check(ps[|ps| - 1].0, ps[|ps| - 1].1).Some?
    ensures var n := |ps| - 1;
            PrintedInOrder(ps, check, init + [MainLine(ps[n].0, check(ps[n].0, ps[n].1).value)], idx' + [n])
  {
    var n := |ps| - 1;
    var lines, idx := init + [MainLine(ps[n].0, check(ps[n].0, ps[n].1).value)], idx' + [n];
    forall j | 0 <= j < |idx|
      ensures && 0 <= idx[j] < |ps| && check(ps[idx[j]].0, ps[idx[j]].1).Some?
              && lines[j] == MainLine(ps[idx[j]].0, check(ps[idx[j]].0, ps[idx[j]].1).value)
    {
      if j < |idx'| {
        assert idx[j] == idx'[j] && lines[j] == init[j] && ps[..n][idx'[j]] == ps[idx'[j]];
      }
    }
    forall j, j' | 0 <= j < j' < |idx|
      ensures idx[j] < idx[j']
    {
      assert idx[j] == idx'[j] && idx'[j] < n;
    }
    forall k | 0 <= k < |ps| && check(ps[k].0, ps[k].1).Some?
      ensures k in idx
    {
      if k < n {
        assert ps[..n][k] == ps[k] && k in idx';
      } else {
        assert idx[|idx'|] == k;
      }
    }
  }
}
