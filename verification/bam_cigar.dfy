/** `BAMRecord::cigarString`: the CIGAR ops of a record rendered as text
    (SAM/BAM format specification, section 1.4), with adjacent ops of the
    same letter merged into one, and, when `clipped`, the soft (`S`) and
    hard (`H`) clips left out. */
module BamCigar {
  import opened Util
  import opened BamRecord

  /** One rendered op: its letter and its (merged) length. */
  datatype Run = Run(code: char, len: nat)

  predicate Clip(c: char) {
    c == 'S' || c == 'H'
  }

  predicate IsDigit(c: char) {
    '0' <= c <= '9'
  }

  /** The caller's `OPCODE` table: a letter for each of the sixteen 4-bit
      op codes. */
  predicate OpcodeTable(opcode: seq<char>) {
    |opcode| >= 16 && forall k :: 0 <= k < |opcode| ==> opcode[k] != '\0'
  }

  /** One op word as a letter and a length (`op & 0x0F`, `op >> 4`). */
  function OpOf(op: nat, opcode: seq<char>): Run
    requires OpcodeTable(opcode)
  {
    Run(opcode[op % 16], op / 16)
  }

  /** Adds one op: it lengthens the last run when the letters agree and
      starts a new run otherwise. */
  function Extend(rs: seq<Run>, o: Run): (rs': seq<Run>)
    ensures |rs'| > 0 && rs'[|rs'| - 1].code == o.code
  {
    if |rs| > 0 && rs[|rs| - 1].code == o.code then rs[..|rs| - 1] + [Run(o.code, rs[|rs| - 1].len + o.len)]
    else rs + [o]
  }

  /** The runs of a list of ops, folded from the left as the loop does. */
  function Runs(ops: seq<nat>, opcode: seq<char>): (rs: seq<Run>)
    requires OpcodeTable(opcode)
    ensures |rs| <= |ops|
    ensures |rs| == 0 <==> |ops| == 0
    decreases |ops|
  {
    if |ops| == 0 then [] else Extend(Runs(ops[..|ops| - 1], opcode), OpOf(ops[|ops| - 1], opcode))
  }

  /** No two neighbouring runs share a letter. */
  predicate Merged(rs: seq<Run>) {
    forall k :: 0 <= k < |rs| - 1 ==> rs[k].code != rs[k + 1].code
  }

  function TotalLen(rs: seq<Run>): nat
    decreases |rs|
  {
    if |rs| == 0 then 0 else TotalLen(rs[..|rs| - 1]) + rs[|rs| - 1].len
  }

  function OpsLen(ops: seq<nat>): nat
    decreases |ops|
  {
    if |ops| == 0 then 0 else OpsLen(ops[..|ops| - 1]) + ops[|ops| - 1] / 16
  }

  /** One op extends the runs without losing length or leaving two
      neighbours with the same letter. */
  lemma ExtendMerge(rs: seq<Run>, o: Run)
    requires Merged(rs)
    ensures Merged(Extend(rs, o))
    ensures TotalLen(Extend(rs, o)) == TotalLen(rs) + o.len
  {
    if |rs| > 0 && rs[|rs| - 1].code == o.code {
      var init := rs[..|rs| - 1];
      var rs' := init + [Run(o.code, rs[|rs| - 1].len + o.len)];
      assert rs'[..|rs'| - 1] == init;
      assert TotalLen(rs) == TotalLen(init) + rs[|rs| - 1].len;
      assert forall k :: 0 <= k < |rs'| - 1 ==> rs'[k].code == rs[k].code;
    } else {
      var rs' := rs + [o];
      assert rs'[..|rs'| - 1] == rs;
    }
  }

  /** Merging loses no length and leaves no two neighbours with the same
      letter. */
  lemma {:induction false} RunsMerge(ops: seq<nat>, opcode: seq<char>)
    requires OpcodeTable(opcode)
    ensures Merged(Runs(ops, opcode))
    ensures TotalLen(Runs(ops, opcode)) == OpsLen(ops)
    decreases |ops|
  {
    if |ops| > 0 {
      RunsMerge(ops[..|ops| - 1], opcode);
      ExtendMerge(Runs(ops[..|ops| - 1], opcode), OpOf(ops[|ops| - 1], opcode));
    }
  }

  // ------------------------------------------------------------- text

  /** `d + '0'`. */
  function Digit(d: nat): (c: char)
    requires d < 10
    ensures IsDigit(c) && c as int - '0' as int == d
  {
    ('0' as int + d) as char
  }

  /** The decimal digits of `n`, most significant first. */
  function Decimal(n: nat): (s: string)
    ensures |s| > 0 && forall k :: 0 <= k < |s| ==> IsDigit(s[k])
    decreases n
  {
    (if n < 10 then "" else Decimal(n / 10)) + [Digit(n % 10)]
  }

  /** The digit loop of `cigarString`: digits are written right to left
      into the buffer until the number is used up, so zero gives "0". */
  method Digits(n: nat) returns (s: string)
    ensures s == Decimal(n)
  {
    var v := n;
    s := [];
    while true
      invariant v == n || v > 0
      invariant Decimal(n) == Decimal(v) + s
      decreases v
    {
      s := [Digit(v % 10)] + s;
      v := v / 10;
      if v == 0 {
        break;
      }
    }
  }

  /** One op as text: its length, then its letter. */
  function Piece(r: Run): (s: string)
    ensures |s| > 0
  {
    Decimal(r.len) + [r.code]
  }

  /** The text the loop has built after the runs `rs`: every run's piece,
      except that when `clipped` a clip is not written while nothing has
      been written yet. */
  function Out(rs: seq<Run>, clipped: bool): string
    decreases |rs|
  {
    if |rs| == 0 then ""
    else
      var pre := Out(rs[..|rs| - 1], clipped);
      if clipped && |pre| == 0 && Clip(rs[|rs| - 1].code) then pre else pre + Piece(rs[|rs| - 1])
  }

  /** `cigarString(rslt, clipped, OPCODE)` as written: after the loop, a
      final clip run is cut off again when `clipped`. */
  function CigarText(ops: seq<nat>, clipped: bool, opcode: seq<char>): string
    requires OpcodeTable(opcode)
  {
    var rs := Runs(ops, opcode);
    if clipped && |rs| > 0 && Clip(rs[|rs| - 1].code) then Out(rs[..|rs| - 1], clipped) else Out(rs, clipped)
  }

  /** The text after one more run, and the runs before it. */
  lemma OutStep(pre: seq<Run>, r: Run, clipped: bool)
    ensures (pre + [r])[..|pre|] == pre
    ensures Out(pre + [r], clipped) ==
              if clipped && |Out(pre, clipped)| == 0 && Clip(r.code) then Out(pre, clipped)
              else Out(pre, clipped) + Piece(r)
  {
    assert (pre + [r])[..|pre|] == pre;
  }

  /** The text before the last run is a prefix of the text after it. */
  lemma OutPrefix(rs: seq<Run>, clipped: bool)
    requires |rs| > 0
    ensures Out(rs, clipped)[..|Out(rs[..|rs| - 1], clipped)|] == Out(rs[..|rs| - 1], clipped)
  {
    assert rs == rs[..|rs| - 1] + [rs[|rs| - 1]];
    OutStep(rs[..|rs| - 1], rs[|rs| - 1], clipped);
  }

  /** An op with the last run's letter lengthens that run. */
  lemma ExtendMerges(rs: seq<Run>, o: Run)
    requires |rs| > 0 && rs[|rs| - 1].code == o.code
    ensures Extend(rs, o) == rs[..|rs| - 1] + [Run(o.code, rs[|rs| - 1].len + o.len)]
  {
  }

  /** The runs after one more op. */
  lemma RunsStep(ops: seq<nat>, i: nat, opcode: seq<char>)
    requires OpcodeTable(opcode) && i < |ops|
    ensures Runs(ops[..i + 1], opcode) == Extend(Runs(ops[..i], opcode), OpOf(ops[i], opcode))
  {
    assert ops[..i + 1][..i] == ops[..i] && ops[..i + 1][i] == ops[i];
  }

  /** `cigarString` over the record's ops, as the loop computes it: the
      previous run's letter, length and starting offset are kept so that
      an op with the same letter rewrites the previous piece. */
  method CigarString(r: Record, clipped: bool, opcode: seq<char>) returns (rslt: string)
    requires WellFormed(r) && OpcodeTable(opcode)
    ensures rslt == CigarText(Ops(r), clipped, opcode)
    ensures Nc(r) == 0 ==> rslt == ""
  {
    rslt := CigarOfOps(Ops(r), clipped, opcode);
  }

  /** The loop of `cigarString`, over the op words `cigar(0)`, ...,
      `cigar(nc() - 1)`. */
  method CigarOfOps(ops: seq<nat>, clipped: bool, opcode: seq<char>) returns (rslt: string)
    requires OpcodeTable(opcode)
    ensures rslt == CigarText(ops, clipped, opcode)
    ensures |ops| == 0 ==> rslt == ""
  {
    var n := |ops|;
    var lastLen: nat := 0;
    var lastCode: char := '\0';
    var lastSize: nat := 0;
    rslt := "";
    var i := 0;
    ghost var runs: seq<Run> := [];
    while i < n
      invariant 0 <= i <= n
      invariant runs == Runs(ops[..i], opcode)
      invariant Tracks(runs, clipped, rslt, lastCode, lastLen, lastSize)
    {
      RunsStep(ops, i, opcode);
      rslt, lastCode, lastLen, lastSize := AppendOp(ops[i], clipped, opcode, rslt, lastCode, lastLen, lastSize, runs);
      runs := Extend(runs, OpOf(ops[i], opcode));
      i := i + 1;
    }
    assert ops[..i] == ops;
    if clipped && (lastCode == 'S' || lastCode == 'H') {
      OutStep(runs[..|runs| - 1], runs[|runs| - 1], clipped);
      assert runs == runs[..|runs| - 1] + [runs[|runs| - 1]];
      rslt := rslt[..lastSize];
    }
  }

  /** The loop's variables after the runs `runs`: the text so far, and the
      last run's letter, length and the text length before it (a NUL letter
      and zero before the first op). */
  predicate Tracks(runs: seq<Run>, clipped: bool, rslt: string, lastCode: char, lastLen: nat, lastSize: nat) {
    && rslt == Out(runs, clipped)
    && (|runs| == 0 ==> lastCode == '\0' && lastSize == 0)
    && (|runs| > 0 ==> && lastCode == runs[|runs| - 1].code && lastLen == runs[|runs| - 1].len
                       && lastSize == |Out(runs[..|runs| - 1], clipped)|)
  }

  /** One pass of the loop body: an op with the last run's letter cuts the
      text back to where that run started and is written with the summed
      length; when `clipped`, a clip is not written while the text is
      empty. */
  method AppendOp(op: nat, clipped: bool, opcode: seq<char>, rslt: string, lastCode: char, lastLen: nat,
                  lastSize: nat, ghost runs: seq<Run>)
    returns (rslt': string, lastCode': char, lastLen': nat, lastSize': nat)
    requires OpcodeTable(opcode)
    requires Tracks(runs, clipped, rslt, lastCode, lastLen, lastSize)
    ensures Tracks(Extend(runs, OpOf(op, opcode)), clipped, rslt', lastCode', lastLen', lastSize')
  {
    var code := opcode[op % 16];
    var len := op / 16;
    ghost var o := Run(code, len);
    ghost var init := if lastCode == code then runs[..|runs| - 1] else runs;
    rslt' := rslt;
    if lastCode == code {
      len := len + lastLen;
      rslt' := rslt[..lastSize];
    }
    assert Extend(runs, o) == init + [Run(code, len)] && rslt' == Out(init, clipped) by {
      if lastCode == code {
        ExtendMerges(runs, o);
        OutPrefix(runs, clipped);
      }
    }
    OutStep(init, Run(code, len), clipped);
    lastSize' := |rslt'|;
    lastLen' := len;
    lastCode' := code;
    var digits := Digits(len);
    var text := digits + [code];
    if !clipped || lastSize' != 0 || !(lastCode' == 'S' || lastCode' == 'H') {
      rslt' := rslt' + text;
    }
  }

  // ------------------------------------------------------------- reading back

  /** The runs with their leading clips removed. */
  function DropLeadingClips(rs: seq<Run>): (d: seq<Run>)
    ensures |d| > 0 ==> !Clip(d[0].code)
    decreases |rs|
  {
    if |rs| > 0 && Clip(rs[0].code) then DropLeadingClips(rs[1..]) else rs
  }

  /** The runs with their trailing clips removed. */
  function DropTrailingClips(rs: seq<Run>): (d: seq<Run>)
    ensures |d| > 0 ==> !Clip(d[|d| - 1].code)
    decreases |rs|
  {
    if |rs| > 0 && Clip(rs[|rs| - 1].code) then DropTrailingClips(rs[..|rs| - 1]) else rs
  }

  /** Every run's piece, front to back. */
  function Render(rs: seq<Run>): string
    decreases |rs|
  {
    if |rs| == 0 then "" else Piece(rs[0]) + Render(rs[1..])
  }

  lemma {:induction false} RenderAppend(rs: seq<Run>, r: Run)
    ensures Render(rs + [r]) == Render(rs) + Piece(r)
    decreases |rs|
  {
    if |rs| == 0 {
      assert Render([r]) == Piece(r) + Render([]);
    } else {
      assert (rs + [r])[1..] == rs[1..] + [r];
      RenderAppend(rs[1..], r);
    }
  }

  lemma {:induction false} DropLeadingAppend(rs: seq<Run>, r: Run)
    ensures DropLeadingClips(rs + [r]) ==
              if |DropLeadingClips(rs)| == 0 then DropLeadingClips([r]) else DropLeadingClips(rs) + [r]
    decreases |rs|
  {
    if |rs| > 0 {
      assert (rs + [r])[1..] == rs[1..] + [r];
      DropLeadingAppend(rs[1..], r);
    }
  }

  /** The loop's text is the rendering of the runs, minus the leading
      clips when `clipped`. */
  lemma {:induction false} OutIsRender(rs: seq<Run>, clipped: bool)
    ensures Out(rs, clipped) == Render(if clipped then DropLeadingClips(rs) else rs)
    decreases |rs|
  {
    if |rs| > 0 {
      var init, r := rs[..|rs| - 1], rs[|rs| - 1];
      assert rs == init + [r];
      OutIsRender(init, clipped);
      if clipped {
        DropLeadingAppend(init, r);
        var d := DropLeadingClips(init);
        if |d| == 0 {
          assert Out(init, clipped) == "";
          if !Clip(r.code) {
            assert DropLeadingClips([r]) == [r];
            RenderAppend([], r);
          }
        } else {
          RenderAppend(d, r);
          assert |Render(d)| > 0;
        }
      } else {
        RenderAppend(init, r);
      }
    }
  }

  /** The number at the start of `s`: how many digits lead. */
  function LeadingDigits(s: string): (k: nat)
    ensures k <= |s|
    decreases |s|
  {
    if |s| > 0 && IsDigit(s[0]) then 1 + LeadingDigits(s[1..]) else 0
  }

  /** The value of a string of digits. */
  function Value(ds: string): nat
    decreases |ds|
  {
    if |ds| == 0 then 0
    else
      var d := ds[|ds| - 1] as int - '0' as int;
      Value(ds[..|ds| - 1]) * 10 + (if 0 <= d < 10 then d else 0)
  }

  /** A CIGAR text read back into runs: a number, then a non-digit letter,
      repeatedly; None when the text is not of that form. */
  function Parse(s: string): Option<seq<Run>>
    decreases |s|
  {
    if |s| == 0 then Some([])
    else
      var k := LeadingDigits(s);
      if k == 0 || k == |s| then None
      else
        match Parse(s[k + 1..])
        case None => None
        case Some(rest) => Some([Run(s[k], Value(s[..k]))] + rest)
  }

  /** A digit added at the end multiplies the value by ten and adds the
      digit. */
  lemma ValueStep(ds: string, d: nat)
    requires d < 10
    ensures Value(ds + [Digit(d)]) == Value(ds) * 10 + d
  {
    var s := ds + [Digit(d)];
    assert s[..|s| - 1] == ds && s[|s| - 1] == Digit(d);
  }

  lemma {:induction false} DecimalValue(n: nat)
    ensures Value(Decimal(n)) == n
    decreases n
  {
    var pre := if n < 10 then "" else Decimal(n / 10);
    var v := if n < 10 then 0 else n / 10;
    assert Decimal(n) == pre + [Digit(n % 10)];
    assert Value(pre) == v by {
      if n >= 10 {
        DecimalValue(n / 10);
      }
    }
    ValueStep(pre, n % 10);
    assert v * 10 + n % 10 == n;
  }

  lemma {:induction false} LeadingDigitsOf(ds: string, rest: string)
    requires forall k :: 0 <= k < |ds| ==> IsDigit(ds[k])
    requires |rest| > 0 && !IsDigit(rest[0])
    ensures LeadingDigits(ds + rest) == |ds|
    decreases |ds|
  {
    if |ds| > 0 {
      assert (ds + rest)[1..] == ds[1..] + rest;
      LeadingDigitsOf(ds[1..], rest);
    } else {
      assert ds + rest == rest;
    }
  }

  /** Reading one piece off the front of a text. */
  lemma ParseCons(r: Run, tail: string)
    requires !IsDigit(r.code)
    ensures Parse(Piece(r) + tail) == if Parse(tail).Some? then Some([r] + Parse(tail).value) else None
  {
    var ds := Decimal(r.len);
    var s := Piece(r) + tail;
    var k := |ds|;
    assert LeadingDigits(s) == k by {
      assert s == ds + ([r.code] + tail);
      LeadingDigitsOf(ds, [r.code] + tail);
    }
    assert 0 < k < |s|;
    assert s[k] == r.code && s[k + 1..] == tail;
    assert Value(s[..k]) == r.len by {
      assert s[..k] == ds;
      DecimalValue(r.len);
    }
    ParseUnfold(s);
  }

  lemma ParseUnfold(s: string)
    requires 0 < LeadingDigits(s) < |s|
    ensures var k := LeadingDigits(s);
            Parse(s) == if Parse(s[k + 1..]).Some? then Some([Run(s[k], Value(s[..k]))] + Parse(s[k + 1..]).value) else None
  {
  }

  /** Rendering round trip: text rendered from runs whose letters are not
      digits reads back as the same runs. */
  lemma {:induction false} ParseRender(rs: seq<Run>)
    requires forall k :: 0 <= k < |rs| ==> !IsDigit(rs[k].code)
    ensures Parse(Render(rs)) == Some(rs)
    decreases |rs|
  {
    if |rs| > 0 {
      var tail := rs[1..];
      assert forall k :: 0 <= k < |tail| ==> !IsDigit(tail[k].code) by {
        assert forall k :: 0 <= k < |tail| ==> tail[k] == rs[k + 1];
      }
      ParseRender(tail);
      ParseCons(rs[0], Render(tail));
      assert [rs[0]] + tail == rs;
    }
  }

  // ------------------------------------------------------------- clipping

  /** `cigarString` with clipping that removes every trailing clip, as it
      removes every leading one. */
  function CigarTextClipped(ops: seq<nat>, clipped: bool, opcode: seq<char>): string
    requires OpcodeTable(opcode)
  {
    var rs := Runs(ops, opcode);
    Render(if clipped then DropTrailingClips(DropLeadingClips(rs)) else rs)
  }

  /** The corrected text reads back as the merged runs with no clip at
      either end when `clipped`, and as all merged runs otherwise, where
      it agrees with the text as written. */
  lemma ClippedReadsBack(ops: seq<nat>, clipped: bool, opcode: seq<char>)
    requires OpcodeTable(opcode) && forall k :: 0 <= k < 16 ==> !IsDigit(opcode[k])
    ensures var rs := Parse(CigarTextClipped(ops, clipped, opcode));
            && rs.Some?
            && (clipped ==> |rs.value| == 0 || (!Clip(rs.value[0].code) && !Clip(rs.value[|rs.value| - 1].code)))
            && (!clipped ==> rs.value == Runs(ops, opcode))
    ensures !clipped ==> CigarTextClipped(ops, clipped, opcode) == CigarText(ops, clipped, opcode)
  {
    var rs := Runs(ops, opcode);
    RunsLetters(ops, opcode);
    var core := if clipped then DropTrailingClips(DropLeadingClips(rs)) else rs;
    SubLetters(rs, clipped);
    ParseRender(core);
    if clipped && |core| > 0 {
      KeepsFront(DropLeadingClips(rs));
    }
    OutIsRender(rs, clipped);
  }

  /** Every run's letter comes from the op-code table, so none is a
      digit when no table letter is. */
  lemma {:induction false} RunsLetters(ops: seq<nat>, opcode: seq<char>)
    requires OpcodeTable(opcode) && forall j :: 0 <= j < 16 ==> !IsDigit(opcode[j])
    ensures forall k :: 0 <= k < |Runs(ops, opcode)| ==> !IsDigit(Runs(ops, opcode)[k].code)
    decreases |ops|
  {
    if |ops| > 0 {
      RunsLetters(ops[..|ops| - 1], opcode);
      var pre := Runs(ops[..|ops| - 1], opcode);
      var o := OpOf(ops[|ops| - 1], opcode);
      var rs := Extend(pre, o);
      assert forall k :: 0 <= k < |rs| - 1 ==> rs[k] == pre[k];
      assert !IsDigit(rs[|rs| - 1].code);
    }
  }

  /** Dropping runs from the ends keeps only runs that were there. */
  lemma SubLetters(rs: seq<Run>, clipped: bool)
    ensures forall k :: 0 <= k < |DropTrailingClips(DropLeadingClips(rs))| ==>
              DropTrailingClips(DropLeadingClips(rs))[k] in rs
  {
    DropLeadingIsSuffix(rs);
    DropTrailingIsPrefix(DropLeadingClips(rs));
  }

  lemma {:induction false} DropLeadingIsSuffix(rs: seq<Run>)
    ensures forall k :: 0 <= k < |DropLeadingClips(rs)| ==> DropLeadingClips(rs)[k] in rs
    decreases |rs|
  {
    if |rs| > 0 && Clip(rs[0].code) {
      DropLeadingIsSuffix(rs[1..]);
    }
  }

  lemma {:induction false} DropTrailingIsPrefix(rs: seq<Run>)
    ensures forall k :: 0 <= k < |DropTrailingClips(rs)| ==> DropTrailingClips(rs)[k] in rs
    decreases |rs|
  {
    if |rs| > 0 && Clip(rs[|rs| - 1].code) {
      DropTrailingIsPrefix(rs[..|rs| - 1]);
    }
  }

  /** Dropping trailing clips keeps the first run of a list that does not
      start with one. */
  lemma {:induction false} KeepsFront(rs: seq<Run>)
    requires |rs| > 0 && !Clip(rs[0].code)
    ensures |DropTrailingClips(rs)| > 0 && DropTrailingClips(rs)[0] == rs[0]
    decreases |rs|
  {
    if Clip(rs[|rs| - 1].code) {
      KeepsFront(rs[..|rs| - 1]);
    }
  }

  /** The `OPCODE` table of the SAM letters `MIDNSHP=X`. */
  predicate SamLetters(opcode: seq<char>) {
    OpcodeTable(opcode) && opcode[0] == 'M' && opcode[4] == 'S' && opcode[5] == 'H'
  }

  /** As written, `clipped` removes every leading clip but only the last
      trailing one: `10M 5S 3H` (a soft clip inside a hard clip, as section
      1.4 allows at the end of a read) renders as "10M5S", where the
      corrected rendering gives "10M". */
  lemma TrailingClipsKept(opcode: seq<char>)
    requires SamLetters(opcode)
    ensures CigarText([10 * 16 + 0, 5 * 16 + 4, 3 * 16 + 5], true, opcode) == "10M5S"
    ensures CigarTextClipped([10 * 16 + 0, 5 * 16 + 4, 3 * 16 + 5], true, opcode) == "10M"
  {
    var ops := [10 * 16 + 0, 5 * 16 + 4, 3 * 16 + 5];
    assert ops[..2][..1] == [ops[0]] && ops[..2] == [ops[0], ops[1]];
    assert [ops[0]][..0] == [];
    var m, s, h := Run('M', 10), Run('S', 5), Run('H', 3);
    assert Runs([ops[0]], opcode) == [m];
    assert Runs(ops[..2], opcode) == [m, s];
    assert Runs(ops, opcode) == [m, s, h];
    assert Decimal(10) == "10" && Decimal(5) == "5";
    assert [m, s][..1] == [m] && [m][..0] == [];
    assert Out([m], true) == "10M";
    assert Out([m, s], true) == "10M5S";
    assert DropLeadingClips([m, s, h]) == [m, s, h];
    assert [m, s, h][..2] == [m, s] && [m, s][..1] == [m];
    assert DropTrailingClips([m]) == [m];
    assert DropTrailingClips([m, s]) == [m];
    assert DropTrailingClips([m, s, h]) == [m];
    assert Render([m]) == "10M";
  }
}
