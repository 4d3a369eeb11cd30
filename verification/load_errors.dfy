/** The errors the Java loader raises when a native library cannot be
    used: `LibraryLoadError`, whose message joins a text, the cause's
    message and an optional recommendation, and `LibraryTooOldError`,
    whose message lists the outdated library paths one per line. */
module LoadErrors {
  import opened Util

  /** A `LibraryLoadCause`: its message and its recommendation (null for
      some causes). */
  datatype Cause = Cause(message: string, recommendation: Option<string>)

  /** `generateMsg(msg, cause, recommendation)`. */
  function GenerateMsg(msg: string, cause: Option<Cause>, recommendation: Option<string>): (r: string)
    ensures cause.None? ==> r == msg
    ensures cause.Some? ==> StartsWith(r, msg + ", " + cause.value.message)
    ensures cause.Some? && recommendation.None? ==> r == msg + ", " + cause.value.message
    ensures cause.Some? && recommendation.Some? ==>
              r == msg + ", " + cause.value.message + "\n" + recommendation.value
  {
    var result := msg;
    if cause.None? then result
    else
      var result := result + ", " + cause.value.message;
      assert result[..|msg + ", " + cause.value.message|] == msg + ", " + cause.value.message;
      if recommendation.None? then result
      else
        var r := result + "\n" + recommendation.value;
        assert r[..|result|] == result;
        r
  }

  /** The error object: the message the exception carries, the stored
      cause, and `errorMessage` (null after the three-argument
      constructor). */
  datatype LoadError = LoadError(message: string, cause: Option<Cause>, errorMessage: Option<string>)

  /** The two-argument constructor. It asks a null cause for its
      recommendation, so a null cause throws a NullPointerException: None. */
  function NewLoadError(msg: string, cause: Option<Cause>): (r: Option<LoadError>)
    ensures r.None? <==> cause.None?
    ensures r.Some? ==> && r.value.cause == cause
                        && r.value.errorMessage == Some(GenerateMsg(msg, cause, None))
                        && r.value.message == GenerateMsg(msg, cause, cause.value.recommendation)
  {
    if cause.None? then None
    else Some(LoadError(GenerateMsg(msg, cause, cause.value.recommendation), cause, Some(GenerateMsg(msg, cause, None))))
  }

  /** The three-argument constructor: the given recommendation goes into
      the message, and `errorMessage` stays null. */
  function NewLoadErrorWith(msg: string, cause: Option<Cause>, recommendation: Option<string>): (r: LoadError)
    ensures r.cause == cause && r.errorMessage.None?
    ensures r.message == GenerateMsg(msg, cause, recommendation)
  {
    LoadError(GenerateMsg(msg, cause, recommendation), cause, None)
  }

  /** `getRecommendation()`: always the cause's own recommendation; None
      for the NullPointerException of a null cause. */
  function GetRecommendation(e: LoadError): (r: Option<Option<string>>)
    ensures r.None? <==> e.cause.None?
    ensures r.Some? ==> r.value == e.cause.value.recommendation
  {
    if e.cause.None? then None else Some(e.cause.value.recommendation)
  }

  /** The two-argument error's message is its `errorMessage` followed,
      when the cause recommends something, by a line break and the
      recommendation; and when neither the text nor the cause's message
      has a line break, the message cut at its first line break gives the
      two parts back. */
  lemma MessageSplitsIntoParts(msg: string, c: Cause)
    ensures var e := NewLoadError(msg, Some(c)).value;
            && (c.recommendation.None? ==> e.message == e.errorMessage.value)
            && (c.recommendation.Some? ==> e.message == e.errorMessage.value + "\n" + c.recommendation.value)
    ensures var e := NewLoadError(msg, Some(c)).value;
            Lacks(msg, '\n') && Lacks(c.message, '\n') && c.recommendation.Some? ==>
              var i := IndexOf(e.message, '\n');
              e.message[..i] == e.errorMessage.value && e.message[i + 1..] == c.recommendation.value
  {
    var e := NewLoadError(msg, Some(c)).value;
    var head := e.errorMessage.value;
    if Lacks(msg, '\n') && Lacks(c.message, '\n') && c.recommendation.Some? {
      assert head == msg + ", " + c.message;
      assert Lacks(head, '\n') by {
        assert forall k :: 0 <= k < |msg| ==> head[k] == msg[k];
        assert forall k :: 0 <= k < |c.message| ==> head[|msg| + 2 + k] == c.message[k];
      }
      assert e.message == head + ['\n'] + c.recommendation.value;
      IndexOfAfter(head, '\n', c.recommendation.value);
    }
  }

  /** Whichever constructor built it, the error reports its cause's
      recommendation, not the one passed to the three-argument
      constructor, although the message carries the latter. */
  lemma RecommendationFromCause(msg: string, c: Cause, recommendation: Option<string>)
    ensures GetRecommendation(NewLoadErrorWith(msg, Some(c), recommendation)) == Some(c.recommendation)
    ensures GetRecommendation(NewLoadError(msg, Some(c)).value) == Some(c.recommendation)
  {
  }

  // ------------------------------------------------------------- too old

  /** `msg + ". Located libraries are too old:"` */
  function Header(msg: string): string {
    msg + ". Located libraries are too old:"
  }

  /** One line per path, each introduced by a line break. */
  function PathLines(paths: seq<string>): string
    decreases |paths|
  {
    if |paths| == 0 then "" else "\n" + paths[0] + PathLines(paths[1..])
  }

  /** Adding a path at the end adds its line at the end. */
  lemma {:induction false} PathLinesAppend(paths: seq<string>, p: string)
    ensures PathLines(paths + [p]) == PathLines(paths) + "\n" + p
    decreases |paths|
  {
    if |paths| == 0 {
      assert PathLines([p]) == "\n" + p + PathLines([]);
    } else {
      assert (paths + [p])[1..] == paths[1..] + [p];
      PathLinesAppend(paths[1..], p);
    }
  }

  /** `LibraryTooOldError.generateMsg(msg, outdatedLibPaths)`: the header,
      then each path on its own line, in list order. */
  method TooOldMsg(msg: string, paths: seq<string>) returns (result: string)
    ensures result == Header(msg) + PathLines(paths)
    ensures |paths| == 0 ==> result == Header(msg)
  {
    result := msg + ". Located libraries are too old:";
    var i := 0;
    while i < |paths|
      invariant 0 <= i <= |paths|
      invariant result == Header(msg) + PathLines(paths[..i])
    {
      PathLinesAppend(paths[..i], paths[i]);
      assert paths[..i + 1] == paths[..i] + [paths[i]];
      result := result + "\n" + paths[i];
      i := i + 1;
    }
    assert paths[..i] == paths;
  }

  /** The paths can be read back from the message: cut at line breaks it
      is the header followed by the paths, as long as neither the header
      nor any path has a line break of its own. */
  lemma {:induction false} TooOldLinesRoundTrip(head: string, paths: seq<string>)
    requires Lacks(head, '\n')
    requires forall k :: 0 <= k < |paths| ==> Lacks(paths[k], '\n')
    ensures Split(head + PathLines(paths), '\n') == [head] + paths
    decreases |paths|
  {
    if |paths| == 0 {
      assert head + PathLines(paths) == head;
      SplitWithout(head, '\n');
    } else {
      var tail := paths[1..];
      var rest := paths[0] + PathLines(tail);
      assert head + PathLines(paths) == head + ['\n'] + rest by {
        assert PathLines(paths) == "\n" + rest;
      }
      assert Split(head + ['\n'] + rest, '\n') == [head] + Split(rest, '\n') by {
        SplitAt(head, '\n', rest);
      }
      assert Split(rest, '\n') == paths by {
        assert forall k :: 0 <= k < |tail| ==> tail[k] == paths[k + 1];
        TooOldLinesRoundTrip(paths[0], tail);
        assert [paths[0]] + tail == paths;
      }
    }
  }

  /** The too-old error: its message and the list it was given. The
      one-argument `LibraryLoadError` constructor it calls is not part of
      this model, so the inherited cause and `errorMessage` are not
      modelled. */
  datatype TooOldError = TooOldError(message: string, outdatedLibPaths: seq<string>)

  method NewTooOldError(msg: string, paths: seq<string>) returns (e: TooOldError)
    ensures e.outdatedLibPaths == paths
    ensures Lacks(Header(msg), '\n') && (forall k :: 0 <= k < |paths| ==> Lacks(paths[k], '\n')) ==>
              Split(e.message, '\n') == [Header(msg)] + GetOutdateLibPaths(e)
  {
    var m := TooOldMsg(msg, paths);
    e := TooOldError(m, paths);
    if Lacks(Header(msg), '\n') && (forall k :: 0 <= k < |paths| ==> Lacks(paths[k], '\n')) {
      TooOldLinesRoundTrip(Header(msg), paths);
    }
  }

  /** `getOutdateLibPaths()`. */
  function GetOutdateLibPaths(e: TooOldError): seq<string> {
    e.outdatedLibPaths
  }
}
