/** `BAMFileSlice::Read`: the records of one reference window
    `[start, end)` read from a position the index gave. Records the parent
    file yields are judged one by one: unmapped ones and ones that end at
    or before `start` are skipped, and the first mapped one on another
    reference or at or after `end` ends the slice. */
module BamSlice {
  import opened Util
  import opened BamBytes
  import opened BamRecord

  /** The slice's reference index and window, all `unsigned`. */
  datatype Slice = Slice(refID: nat, start: nat, end: nat)

  datatype Verdict = Skip | Stop | Take

  /** What `Read` does with one record. `refID()` and `pos()` are cast to
      `unsigned` (a mapped record has both non-negative, so the cast keeps
      them), and `POS + LEN` is an `unsigned` sum that wraps at 2^32. */
  function Judge(s: Slice, r: Record): (v: Verdict)
    requires WellFormed(r)
    ensures v == Take ==> IsSelfMapped(r) && RefId(r) == s.refID && Pos(r) < s.end
    ensures v == Skip && IsSelfMapped(r) ==> RefId(r) == s.refID && Pos(r) < s.end
  {
    if !IsSelfMapped(r) then Skip
    else
      var ref, pos := Uint32(RefId(r)), Uint32(Pos(r));
      if ref != s.refID || pos >= s.end then Stop
      else if (pos + RefLenOf(r)) % TwoTo32 <= s.start then Skip
      else Take
  }

  /** The records the parent yields, each well-formed. */
  predicate Stream(rs: seq<Record>) {
    forall k :: 0 <= k < |rs| ==> WellFormed(rs[k])
  }

  /** The records before `used` were all skipped. */
  predicate SkippedBefore(s: Slice, rs: seq<Record>, used: nat)
    requires Stream(rs) && used <= |rs|
  {
    forall k :: 0 <= k < used ==> Judge(s, rs[k]) == Skip
  }

  /** `Read()` over the records the parent yields from here on (the
      parent's null is the end of `rs`): the first record that is neither
      skipped nor a stop, with the number of records consumed; None at a
      stop or when the parent runs out. */
  method Read(s: Slice, rs: seq<Record>) returns (result: Option<Record>, used: nat)
    requires Stream(rs)
    ensures used <= |rs|
    ensures result.Some? ==> && used > 0 && result.value == rs[used - 1]
                             && Judge(s, rs[used - 1]) == Take && SkippedBefore(s, rs, used - 1)
    ensures result.None? ==> || (used == |rs| && SkippedBefore(s, rs, used))
                             || (used > 0 && Judge(s, rs[used - 1]) == Stop && SkippedBefore(s, rs, used - 1))
  {
    used := 0;
    while used < |rs|
      invariant used <= |rs|
      invariant SkippedBefore(s, rs, used)
    {
      var current := rs[used];
      used := used + 1;
      if !IsSelfMapped(current) {
        continue;
      }
      var ref, pos := Uint32(RefId(current)), Uint32(Pos(current));
      if ref != s.refID || pos >= s.end {
        return None, used;
      }
      var len := RefLen(current);
      if (pos + len) % TwoTo32 <= s.start {
        continue;
      }
      return Some(current), used;
    }
    return None, used;
  }

  /** Without wrap-around, a record is taken exactly when it is mapped on
      the slice's reference and its reference span `[pos, pos + refLen)`
      reaches into the window: it starts before `end` and ends after
      `start`. */
  lemma TakeIsOverlap(s: Slice, r: Record)
    requires WellFormed(r)
    requires IsSelfMapped(r) ==> Pos(r) + RefLenOf(r) < TwoTo32
    ensures Judge(s, r) == Take <==>
              && IsSelfMapped(r) && RefId(r) == s.refID
              && Pos(r) < s.end && s.start < Pos(r) + RefLenOf(r)
  {
  }

  /** A record of the window's reference that starts before `end` never
      stops the slice, and an unmapped record is always skipped. */
  lemma StopOnlyOutside(s: Slice, r: Record)
    requires WellFormed(r)
    ensures Judge(s, r) == Stop <==> IsSelfMapped(r) && (RefId(r) != s.refID || Pos(r) >= s.end)
    ensures !IsSelfMapped(r) ==> Judge(s, r) == Skip
  {
  }
}
