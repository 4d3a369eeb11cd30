/** `BAMRecord::OptionalField`: the optional fields after a record's
    qualities (SAM/BAM format specification, section 4.2.4), each a
    two-letter tag, a value type and a value, and the iterator that walks
    from one field to the next up to the end of the record. */
module BamAux {
  import opened Util
  import opened BamBytes

  /** `type_size(type)`: the width of a scalar of the given type letter,
      -1 for letters it does not know. */
  function TypeSize(t: int): (n: int)
    ensures n == -1 || n == 1 || n == 2 || n == 4
  {
    if t == 'A' as int || t == 'C' as int || t == 'c' as int then 1
    else if t == 'S' as int || t == 's' as int then 2
    else if t == 'F' as int || t == 'I' as int || t == 'i' as int then 4
    else -1
  }

  /** The scalar widths of section 4.2.4, where the float letter is `f`;
      `F` stays accepted as before. */
  function TypeSizeFixed(t: int): (n: int)
    ensures n == -1 || n == 1 || n == 2 || n == 4
  {
    if t == 'f' as int then 4 else TypeSize(t)
  }

  /** The width table in use. */
  function Width(t: int, fixed: bool): (n: int)
    ensures n == -1 || n == 1 || n == 2 || n == 4
  {
    if fixed then TypeSizeFixed(t) else TypeSize(t)
  }

  /** The first NUL at or after `k`. */
  function NulFrom(d: seq<Byte>, k: nat): (r: Option<nat>)
    ensures r.Some? ==> k <= r.value < |d| && d[r.value] == 0
    decreases |d| - k
  {
    if k >= |d| then None
    else if d[k] == 0 then Some(k)
    else NulFrom(d, k + 1)
  }

  /** No NUL comes before the one `NulFrom` finds, and there is none at all
      when it finds nothing. */
  lemma {:induction false} NulFromFirst(d: seq<Byte>, k: nat)
    ensures NulFrom(d, k).Some? ==> forall j :: k <= j < NulFrom(d, k).value ==> d[j] != 0
    ensures NulFrom(d, k).None? ==> forall j :: k <= j < |d| ==> d[j] != 0
    decreases |d| - k
  {
    if k < |d| && d[k] != 0 {
      NulFromFirst(d, k + 1);
    }
  }

  /** `size(max)` of the field that starts at `r[at]`, where the record's
      bytes end at `max`, that is at `|r|`: for an array (`B`) the header,
      the count and the elements, -1 when they run past `max`; for a
      string (`Z`, `H`) everything up to and including the NUL, -1 when
      there is none before `max`; for a scalar the tag, the type and the
      value. `fixed` selects the corrected reading: the float letter `f`
      and a scalar that must fit before `max`. Bytes the field would need
      beyond `max` give -1. The array's `elem_size * elem_count` and the
      final `(int)` conversion are C `int` arithmetic and wrap at 32 bits.

      A positive size stays within the record except for a scalar read as
      written. */
  function Size(r: seq<Byte>, at: nat, fixed: bool): (n: int)
    requires at < |r|
    ensures n > 0 && (fixed || (at + 3 <= |r| && (r[at + 2] == 'B' as int || r[at + 2] == 'Z' as int || r[at + 2] == 'H' as int))) ==>
              at + n <= |r|
  {
    if |r| - at < 3 then -1
    else if r[at + 2] == 'B' as int then
      if |r| - at < 8 then -1
      else
        var elemSize := Width(r[at + 3], fixed);
        if elemSize < 0 then -1
        else
          var end := 8 + Wrap32(elemSize * ReadInt32(CountBytes(r, at)));
          if end > |r| - at then -1 else Wrap32(end)
    else if r[at + 2] == 'Z' as int || r[at + 2] == 'H' as int then
      match NulFrom(r, at + 3)
      case None => -1
      case Some(k) => k + 1 - at
    else
      var ts := Width(r[at + 2], fixed);
      if ts < 0 then -1
      else if fixed && at + 3 + ts > |r| then -1
      else 3 + ts
  }

  /** The four bytes after an array field's tag, type and element type:
      its element count. */
  function CountBytes(r: seq<Byte>, at: nat): (bs: seq<Byte>)
    requires at + 8 <= |r|
    ensures |bs| == 4
  {
    [r[at + 4], r[at + 5], r[at + 6], r[at + 7]]
  }

  /** When `size` gives -1 for a scalar or a text: an unknown letter, a
      scalar that does not fit (corrected reading only), or a text with no
      NUL before `max`. */
  lemma SizeFails(r: seq<Byte>, at: nat, fixed: bool)
    requires at + 3 <= |r|
    ensures r[at + 2] != 'B' as int && r[at + 2] != 'Z' as int && r[at + 2] != 'H' as int ==>
              (Size(r, at, fixed) == -1 <==> Width(r[at + 2], fixed) < 0 || (fixed && at + 3 + Width(r[at + 2], fixed) > |r|))
    ensures r[at + 2] == 'Z' as int || r[at + 2] == 'H' as int ==>
              (Size(r, at, fixed) == -1 <==> forall k :: at + 3 <= k < |r| ==> r[k] != 0)
  {
    NulFromFirst(r, at + 3);
  }

  /** `next(max)`: how far the following field lies, None (a null
      pointer) when the size is not positive. */
  function Next(r: seq<Byte>, at: nat, fixed: bool): (b: Option<nat>)
    requires at < |r|
    ensures b.Some? ==> b.value > 0 && b.value == Size(r, at, fixed)
    ensures b.None? <==> Size(r, at, fixed) <= 0
  {
    var bytes := Size(r, at, fixed);
    if bytes <= 0 then None else Some(bytes)
  }

  /** `const_iterator::operator++` on a record `r` whose end is `|r|`:
      before the end it moves to the next field, or to the end when there
      is none; anywhere else it stays put. */
  function Advance(r: seq<Byte>, cur: nat, fixed: bool): (cur': nat)
    ensures cur < |r| ==> cur < cur'
    ensures cur >= |r| ==> cur' == cur
  {
    if cur < |r| then
      match Next(r, cur, fixed)
      case None => |r|
      case Some(bytes) => cur + bytes
    else cur
  }

  // ------------------------------------------------------------- encoding

  /** A field as section 4.2.4 lays it out. */
  datatype Field =
    | Scalar(tag: seq<Byte>, valType: Byte, value: seq<Byte>)
    | Text(tag: seq<Byte>, valType: Byte, text: seq<Byte>)
    | Array(tag: seq<Byte>, subType: Byte, count: nat, values: seq<Byte>)

  /** A field whose parts agree with its type: two tag bytes; a scalar of
      a known letter and its width; a NUL-free text; an array of a known
      element letter holding `count` elements. */
  predicate Valid(f: Field, fixed: bool) {
    |f.tag| == 2 &&
    match f
    case Scalar(_, t, v) =>
      t != 'B' as int && t != 'Z' as int && t != 'H' as int && Width(t, fixed) > 0 && |v| == Width(t, fixed)
    case Text(_, t, s) => (t == 'Z' as int || t == 'H' as int) && forall k :: 0 <= k < |s| ==> s[k] != 0
    case Array(_, t, n, v) => Width(t, fixed) > 0 && n < TwoTo31 && |v| == Width(t, fixed) * n && 8 + |v| < TwoTo31
  }

  /** The bytes of a field. */
  function Encode(f: Field): seq<Byte> {
    match f
    case Scalar(tag, t, v) => tag + [t] + v
    case Text(tag, t, s) => tag + [t] + s + [0]
    case Array(tag, t, n, v) => tag + ['B' as int, t] + EncodeLE(n % TwoTo32, 4) + v
  }

  /** The size of a valid field is its encoded length, whatever comes
      before or after it: an array's count reads back from its four bytes,
      and a text ends at its own NUL. */
  lemma SizeOfEncoded(pre: seq<Byte>, f: Field, rest: seq<Byte>, fixed: bool)
    requires Valid(f, fixed)
    ensures |Encode(f)| >= 3 && Size(pre + Encode(f) + rest, |pre|, fixed) == |Encode(f)|
  {
    match f
    case Scalar(tag, t, v) => SizeOfScalar(pre, tag, t, v, rest, fixed);
    case Text(tag, t, s) => SizeOfText(pre, tag, t, s, rest, fixed);
    case Array(tag, t, n, v) => SizeOfArray(pre, tag, t, n, v, rest, fixed);
  }

  lemma SizeOfScalar(pre: seq<Byte>, tag: seq<Byte>, t: Byte, v: seq<Byte>, rest: seq<Byte>, fixed: bool)
    requires Valid(Scalar(tag, t, v), fixed)
    ensures Size(pre + Encode(Scalar(tag, t, v)) + rest, |pre|, fixed) == 3 + |v|
  {
    var r := pre + (tag + [t] + v + rest);
    assert pre + Encode(Scalar(tag, t, v)) + rest == r;
    assert r[|pre| + 2] == t;
  }

  lemma SizeOfText(pre: seq<Byte>, tag: seq<Byte>, t: Byte, s: seq<Byte>, rest: seq<Byte>, fixed: bool)
    requires Valid(Text(tag, t, s), fixed)
    ensures Size(pre + Encode(Text(tag, t, s)) + rest, |pre|, fixed) == 4 + |s|
  {
    var p := |pre|;
    var r := pre + Encode(Text(tag, t, s)) + rest;
    TextLayout(pre, tag, t, s, rest);
    NulAt(r, p + 3, p + 3 + |s|);
  }

  /** Where the bytes of a text field lie. */
  lemma TextLayout(pre: seq<Byte>, tag: seq<Byte>, t: Byte, s: seq<Byte>, rest: seq<Byte>)
    requires |tag| == 2 && forall k :: 0 <= k < |s| ==> s[k] != 0
    ensures var r := pre + Encode(Text(tag, t, s)) + rest;
            var p := |pre|;
            && p + 3 + |s| < |r| && r[p + 2] == t && r[p + 3 + |s|] == 0
            && forall j :: p + 3 <= j < p + 3 + |s| ==> r[j] != 0
  {
    var p := |pre|;
    var r := pre + (tag + [t] + s + [0] + rest);
    assert pre + Encode(Text(tag, t, s)) + rest == r;
    assert forall j :: p + 3 <= j < p + 3 + |s| ==> r[j] == s[j - p - 3];
  }

  /** The first NUL from `k` on is at `e` when there is one at `e` and
      none before it. */
  lemma NulAt(d: seq<Byte>, k: nat, e: nat)
    requires k <= e < |d| && d[e] == 0
    requires forall j :: k <= j < e ==> d[j] != 0
    ensures NulFrom(d, k) == Some(e)
  {
    NulFromFirst(d, k);
  }

  lemma SizeOfArray(pre: seq<Byte>, tag: seq<Byte>, t: Byte, n: nat, v: seq<Byte>, rest: seq<Byte>, fixed: bool)
    requires Valid(Array(tag, t, n, v), fixed)
    ensures Size(pre + Encode(Array(tag, t, n, v)) + rest, |pre|, fixed) == 8 + |v|
  {
    var p := |pre|;
    var r := pre + Encode(Array(tag, t, n, v)) + rest;
    ArrayHeader(pre, tag, t, n, v, rest);
    CountRoundTrip(n);
    assert Width(t, fixed) * ReadInt32(CountBytes(r, p)) == |v|;
  }

  /** An array whose byte length reaches 2^32 wraps: 2^30 four-byte
      elements multiply to 0 in C `int` arithmetic, so the field claims
      to be just its 8-byte header and the walk steps into its elements. */
  lemma ArrayLengthWraps(tag: seq<Byte>, v: seq<Byte>, rest: seq<Byte>, fixed: bool)
    requires |tag| == 2
    ensures Size(Encode(Array(tag, 'I' as int, 0x4000_0000, v)) + rest, 0, fixed) == 8
  {
    var n := 0x4000_0000;
    var f := Array(tag, 'I' as int, n, v);
    var r := Encode(f) + rest;
    ArrayHeader([], tag, 'I' as int, n, v, rest);
    assert [] + Encode(f) + rest == r;
    CountRoundTrip(n);
    assert Width('I' as int, fixed) * ReadInt32(CountBytes(r, 0)) == TwoTo32;
  }

  /** Where an encoded array's header bytes sit. */
  lemma ArrayHeader(pre: seq<Byte>, tag: seq<Byte>, t: Byte, n: nat, v: seq<Byte>, rest: seq<Byte>)
    requires |tag| == 2
    ensures var r := pre + Encode(Array(tag, t, n, v)) + rest;
            var p := |pre|;
            && |r| == p + 8 + |v| + |rest| && r[p + 2] == 'B' as int && r[p + 3] == t
            && CountBytes(r, p) == EncodeLE(n % TwoTo32, 4)
  {
    var p := |pre|;
    var h := tag + ['B' as int, t];
    var c := EncodeLE(n % TwoTo32, 4);
    var x := h + c;
    var r := pre + (x + v + rest);
    assert pre + Encode(Array(tag, t, n, v)) + rest == r;
    assert r[p + 2] == x[2] == h[2];
    assert r[p + 3] == x[3] == h[3];
    assert CountBytes(r, p) == c by {
      forall i | 0 <= i < 4
        ensures r[p + 4 + i] == c[i]
      {
        assert r[p + 4 + i] == x[4 + i];
      }
    }
  }

  /** A count below 2^31 reads back from its four bytes. */
  lemma CountRoundTrip(n: nat)
    requires n < TwoTo31
    ensures ReadInt32(EncodeLE(n % TwoTo32, 4)) == n
  {
    assert n % TwoTo32 == n;
    assert n < Pow256(4);
    DecodeEncode(n, 4);
  }

  // ------------------------------------------------------------- iteration

  /** Where the corrected iterator stands after `k` increments from `cur`. */
  function Iterate(r: seq<Byte>, cur: nat, k: nat): nat {
    Repeat(Increment(r), cur, k)
  }

  /** One increment of the corrected iterator on `r`. */
  function Increment(r: seq<Byte>): nat -> nat {
    cur => Advance(r, cur, true)
  }

  /** `f` applied `k` times to `x`. */
  function Repeat(f: nat -> nat, x: nat, k: nat): nat {
    if k == 0 then x else f(Repeat(f, x, k - 1))
  }

  /** A step function that takes each of `ps` to the next reaches `ps[k]`
      from `ps[0]` in `k` steps. */
  lemma {:induction false} RepeatAlong(f: nat -> nat, ps: seq<nat>, k: nat)
    requires k < |ps|
    requires forall j :: 0 <= j < k ==> f(ps[j]) == ps[j + 1]
    ensures Repeat(f, ps[0], k) == ps[k]
  {
    if k > 0 {
      RepeatAlong(f, ps, k - 1);
    }
  }

  /** With the corrected sizes every step lands inside the record or on its
      end, so the iteration reaches `end()` after at most `|r| - cur`
      steps. */
  lemma ProgressFixed(r: seq<Byte>, cur: nat)
    requires cur < |r|
    ensures cur < Advance(r, cur, true) <= |r|
  {
  }

  /** All fields' bytes, one after the other. */
  function EncodeAll(fs: seq<Field>): seq<Byte> {
    ConcatFrom(Parts(fs), 0)
  }

  /** Each field's bytes. */
  function Parts(fs: seq<Field>): (ps: seq<seq<Byte>>)
    ensures |ps| == |fs|
  {
    seq(|fs|, i requires 0 <= i < |fs| => Encode(fs[i]))
  }

  /** The parts from `ps[i]` on, one after the other. */
  function ConcatFrom(ps: seq<seq<Byte>>, i: nat): seq<Byte>
    requires i <= |ps|
    decreases |ps| - i
  {
    if i == |ps| then [] else ps[i] + ConcatFrom(ps, i + 1)
  }

  /** The parts before `ps[k]`, one after the other. */
  function ConcatTo(ps: seq<seq<Byte>>, k: nat): seq<Byte>
    requires k <= |ps|
  {
    if k == 0 then [] else ConcatTo(ps, k - 1) + ps[k - 1]
  }

  /** Where field `k` of a run laid end to end from `cur` starts. */
  function Start(cur: nat, fs: seq<Field>, k: nat): nat
    requires k <= |fs|
  {
    cur + |ConcatTo(Parts(fs), k)|
  }

  /** A record whose optional part, after the bytes `pre`, holds valid
      fields end to end is walked field by field: after `k` increments the
      iterator stands at the start of field `k`, and after the last field
      it equals `end()`. */
  lemma WalkEncoded(pre: seq<Byte>, fs: seq<Field>)
    requires forall k :: 0 <= k < |fs| ==> Valid(fs[k], true)
    ensures var r := pre + EncodeAll(fs);
            && (forall k :: 0 <= k <= |fs| ==> Iterate(r, |pre|, k) == Start(|pre|, fs, k))
            && (forall k :: 0 <= k < |fs| ==> Iterate(r, |pre|, k) < |r|)
            && Iterate(r, |pre|, |fs|) == |r|
  {
    var r := pre + EncodeAll(fs);
    forall k | 0 <= k < |fs|
      ensures Start(|pre|, fs, k) < |r| && Increment(r)(Start(|pre|, fs, k)) == Start(|pre|, fs, k + 1)
    {
      StepAt(pre, fs, k);
    }
    EndAt(pre, fs);
    RepeatLaidOut(Increment(r), |pre|, fs);
  }

  /** Where each step from a field's start lands on the next field's
      start, `k` steps reach field `k`. */
  lemma RepeatLaidOut(f: nat -> nat, cur: nat, fs: seq<Field>)
    requires forall k :: 0 <= k < |fs| ==> f(Start(cur, fs, k)) == Start(cur, fs, k + 1)
    ensures forall k :: 0 <= k <= |fs| ==> Repeat(f, cur, k) == Start(cur, fs, k)
  {
    var ps := seq(|fs| + 1, j requires 0 <= j <= |fs| => Start(cur, fs, j));
    forall k | 0 <= k <= |fs|
      ensures Repeat(f, cur, k) == Start(cur, fs, k)
    {
      RepeatAlong(f, ps, k);
    }
  }

  /** One increment from the start of a valid field moves to the start of
      the next. */
  lemma StepAt(pre: seq<Byte>, fs: seq<Field>, k: nat)
    requires k < |fs| && Valid(fs[k], true)
    ensures var r := pre + EncodeAll(fs);
            && Start(|pre|, fs, k) < |r|
            && Increment(r)(Start(|pre|, fs, k)) == Start(|pre|, fs, k + 1)
  {
    var ps := Parts(fs);
    var head, rest := pre + ConcatTo(ps, k), ConcatFrom(ps, k + 1);
    LayoutAt(pre, fs, k);
    FieldStep(head, fs[k], rest);
  }

  /** Field `k` sits between the bytes of the fields before it and those
      of the fields after it. */
  lemma LayoutAt(pre: seq<Byte>, fs: seq<Field>, k: nat)
    requires k < |fs|
    ensures var ps := Parts(fs);
            var head := pre + ConcatTo(ps, k);
            && pre + EncodeAll(fs) == head + Encode(fs[k]) + ConcatFrom(ps, k + 1)
            && Start(|pre|, fs, k) == |head|
            && Start(|pre|, fs, k + 1) == |head| + |Encode(fs[k])|
  {
    var ps := Parts(fs);
    PartAt(pre, ps, k);
    assert ps[k] == Encode(fs[k]);
  }

  /** Part `k` sits between the parts before it and those after it. */
  lemma PartAt(pre: seq<Byte>, ps: seq<seq<Byte>>, k: nat)
    requires k < |ps|
    ensures pre + ConcatFrom(ps, 0) == pre + ConcatTo(ps, k) + ps[k] + ConcatFrom(ps, k + 1)
    ensures |ConcatTo(ps, k + 1)| == |ConcatTo(ps, k)| + |ps[k]|
  {
    SplitAt(ps, k);
    var a, b, c := ConcatTo(ps, k), ps[k], ConcatFrom(ps, k + 1);
    assert ConcatFrom(ps, k) == b + c;
    Associate(pre, a, b, c);
  }

  /** Concatenation regroups freely. */
  lemma Associate(a: seq<Byte>, b: seq<Byte>, c: seq<Byte>, d: seq<Byte>)
    ensures a + (b + (c + d)) == a + b + c + d
  {
  }

  /** An increment from the start of a valid field moves past it. */
  lemma FieldStep(head: seq<Byte>, f: Field, rest: seq<Byte>)
    requires Valid(f, true)
    ensures var r := head + Encode(f) + rest;
            |head| < |r| && Increment(r)(|head|) == |head| + |Encode(f)|
  {
    var r := head + Encode(f) + rest;
    SizeOfEncoded(head, f, rest, true);
    assert Advance(r, |head|, true) == |head| + |Encode(f)|;
  }

  /** After the last field comes the end of the record. */
  lemma EndAt(pre: seq<Byte>, fs: seq<Field>)
    ensures Start(|pre|, fs, |fs|) == |pre + EncodeAll(fs)|
  {
    SplitAt(Parts(fs), |fs|);
  }

  /** The parts split before any of them. */
  lemma {:induction false} SplitAt(ps: seq<seq<Byte>>, k: nat)
    requires k <= |ps|
    ensures ConcatFrom(ps, 0) == ConcatTo(ps, k) + ConcatFrom(ps, k)
  {
    if k > 0 {
      SplitAt(ps, k - 1);
      assert ConcatFrom(ps, k - 1) == ps[k - 1] + ConcatFrom(ps, k);
      Associate([], ConcatTo(ps, k - 1), ps[k - 1], ConcatFrom(ps, k));
    }
  }

  /** As written, the scalar branch does not look at `max`: a record whose
      last field announces an `i` (four bytes) but holds none moves the
      iterator from 0 to 7, past the end at 4, where it stays, so it never
      equals `end()`. The corrected sizes take it to the end instead. */
  lemma TruncatedScalarOvershoots()
    ensures var r := ['X' as int, 'Y' as int, 'i' as int, 1];
            && Advance(r, 0, false) == 7
            && Advance(r, 7, false) == 7
            && Advance(r, 0, true) == 4
  {
  }

  /** Apart from that branch the iterator as written stays inside the
      record: it can pass the end only from a scalar field that does not
      fit. */
  lemma OvershootOnlyFromScalar(r: seq<Byte>, cur: nat)
    requires cur < |r|
    ensures Advance(r, cur, false) > |r| ==>
              && cur + 2 < |r|
              && r[cur + 2] != 'B' as int && r[cur + 2] != 'Z' as int && r[cur + 2] != 'H' as int
              && cur + 3 + TypeSize(r[cur + 2]) > |r|
  {
  }

  /** As written, a float field (`f`, section 4.2.4) has no size: the
      iterator leaves the record at such a field and the fields after it
      are never visited. The corrected table sizes it like any other four
      byte scalar. */
  lemma FloatFieldStops(tag: seq<Byte>, value: seq<Byte>, rest: seq<Byte>)
    requires |tag| == 2 && |value| == 4
    ensures var r := Encode(Scalar(tag, 'f' as int, value)) + rest;
            && Advance(r, 0, false) == |r|
            && Advance(r, 0, true) == 7
  {
    var f := Scalar(tag, 'f' as int, value);
    var r := Encode(f) + rest;
    assert r[2] == 'f' as int;
    SizeOfEncoded([], f, rest, true);
    assert [] + Encode(f) + rest == r;
  }
}
