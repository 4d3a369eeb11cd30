/** A BAM alignment record (SAM/BAM format specification, section 4.2) as
    `BAMRecord` reads it: the bytes from `refID` on, with the eight fixed
    32-bit fields first, then the read name, the CIGAR ops, the packed
    bases, the qualities and the optional fields, each found at an offset
    computed from the fields before it. */
module BamRecord {
  import opened BamBytes

  /** The record's bytes, starting at `refID`; its length is `size`. */
  type Record = seq<Byte>

  const RefIdAt := 0
  const PosAt := 4
  const BinMqNlAt := 8
  const FlagNcAt := 12
  const LSeqAt := 16
  const NextRefIdAt := 20
  const NextPosAt := 24
  const TlenAt := 28
  /** `abs_min_size()`: where the read name starts. */
  const ReadNameAt := 32

  /** The fixed part is present. */
  predicate HasFixed(r: Record) {
    |r| >= ReadNameAt
  }

  /** The unsigned 32-bit word at `at` (`LE2Host<uint32_t>`). */
  function Word(r: Record, at: nat): (w: nat)
    requires at + 4 <= |r|
    ensures w < TwoTo32
  {
    LE4(r[at..at + 4]);
    LE(r[at..at + 4])
  }

  /** The signed 32-bit word at `at` (`LE2Host<int32_t>`). */
  function SWord(r: Record, at: nat): (i: int)
    requires at + 4 <= |r|
    ensures -TwoTo31 <= i < TwoTo31
    ensures i < 0 <==> r[at + 3] >= 128
  {
    ReadInt32(r[at..at + 4])
  }

  function RefId(r: Record): int requires HasFixed(r) { SWord(r, RefIdAt) }
  function Pos(r: Record): int requires HasFixed(r) { SWord(r, PosAt) }
  function LSeq(r: Record): int requires HasFixed(r) { SWord(r, LSeqAt) }
  function NextRefId(r: Record): int requires HasFixed(r) { SWord(r, NextRefIdAt) }
  function NextPos(r: Record): int requires HasFixed(r) { SWord(r, NextPosAt) }
  function Tlen(r: Record): int requires HasFixed(r) { SWord(r, TlenAt) }

  /** `l_read_name()`: byte 0 of `bin_mq_nl`. */
  function LReadName(r: Record): Byte requires HasFixed(r) { r[BinMqNlAt] }

  /** `mq()`: byte 1 of `bin_mq_nl`. */
  function Mq(r: Record): Byte requires HasFixed(r) { r[BinMqNlAt + 1] }

  /** `flag()`: the high half of the `flag_nc` word. */
  function Flag(r: Record): nat requires HasFixed(r) { Word(r, FlagNcAt) / TwoTo16 }

  /** `nc()`: the low half of the `flag_nc` word, the number of CIGAR ops. */
  function Nc(r: Record): nat requires HasFixed(r) { Word(r, FlagNcAt) % TwoTo16 }

  /** The packed fields sit in the bytes the format assigns them: `flag`
      in bytes 14-15 and `nc` in bytes 12-13, each little-endian, and the
      word is the two halves put together. */
  lemma FlagNcBytes(r: Record)
    requires HasFixed(r)
    ensures Flag(r) == r[14] as int + 256 * r[15] as int
    ensures Nc(r) == r[12] as int + 256 * r[13] as int
    ensures Flag(r) < TwoTo16 && Nc(r) < TwoTo16
    ensures Word(r, FlagNcAt) == Flag(r) * TwoTo16 + Nc(r)
  {
    var w := r[12..16];
    LE4(w);
    var hi, lo := r[14] as int + 256 * r[15] as int, r[12] as int + 256 * r[13] as int;
    assert Word(r, FlagNcAt) == hi * TwoTo16 + lo;
    DivMod16(Word(r, FlagNcAt), hi, lo);
  }

  lemma DivMod16(x: int, q: int, m: int)
    requires 0 <= m < TwoTo16 && x == q * TwoTo16 + m
    ensures x / TwoTo16 == q && x % TwoTo16 == m
  {
  }

  // ------------------------------------------------------------- layout

  /** `_cigar()`: right after the read name. */
  function CigarAt(r: Record): nat requires HasFixed(r) { ReadNameAt + LReadName(r) }

  /** `_seq()`: after `nc` four-byte ops. */
  function SeqAt(r: Record): nat requires HasFixed(r) { CigarAt(r) + 4 * Nc(r) }

  /** `qual()`: after `(l_seq + 1) >> 1` bytes of packed bases. */
  function QualAt(r: Record): int requires HasFixed(r) { SeqAt(r) + (LSeq(r) + 1) / 2 }

  /** `extra()`: after `l_seq` quality bytes; also `min_size()`. */
  function ExtraAt(r: Record): int requires HasFixed(r) { QualAt(r) + LSeq(r) }

  /** The record holds every part its fixed fields announce. */
  predicate WellFormed(r: Record) {
    HasFixed(r) && LSeq(r) >= 0 && ExtraAt(r) <= |r|
  }

  /** The parts follow each other in the record without overlapping. */
  lemma LayoutOrdered(r: Record)
    requires WellFormed(r)
    ensures ReadNameAt <= CigarAt(r) <= SeqAt(r) <= QualAt(r) <= ExtraAt(r) <= |r|
    ensures QualAt(r) - SeqAt(r) == (LSeq(r) + 1) / 2 && ExtraAt(r) - QualAt(r) == LSeq(r)
    ensures SeqAt(r) - CigarAt(r) == 4 * Nc(r)
  {
  }

  /** `cigar(i)`: the `i`th op word. */
  function Cigar(r: Record, i: nat): (op: nat)
    requires WellFormed(r) && i < Nc(r)
    ensures op < TwoTo32
  {
    Word(r, CigarAt(r) + 4 * i)
  }

  /** All op words, in order. */
  function Ops(r: Record): (ops: seq<nat>)
    requires WellFormed(r)
    ensures |ops| == Nc(r)
    ensures forall i :: 0 <= i < |ops| ==> ops[i] == Cigar(r, i) && ops[i] < TwoTo32
  {
    seq(Nc(r), i requires 0 <= i < Nc(r) => Cigar(r, i))
  }

  // ------------------------------------------------------------- bases

  /** The 4-bit base codes of section 4.2. */
  const Tr := "=ACMGRSVTWYHKDBN"

  /** `seq(i)`: the high nibble of byte `i / 2` for even `i`, the low
      nibble for odd `i`, looked up in `Tr`. */
  function Seq(r: Record, i: nat): (c: char)
    requires WellFormed(r) && i < LSeq(r)
    ensures c in Tr
  {
    var b := r[SeqAt(r) + i / 2];
    var lo, hi := b % 16, b / 16;
    Tr[if i % 2 == 1 then lo else hi]
  }

  /** Two base codes per byte, the first in the high nibble; an odd last
      code leaves the low nibble zero. */
  function Pack(codes: seq<nat>): (bs: seq<Byte>)
    requires forall k :: 0 <= k < |codes| ==> codes[k] < 16
    ensures |bs| == (|codes| + 1) / 2
    decreases |codes|
  {
    if |codes| == 0 then []
    else if |codes| == 1 then [codes[0] * 16]
    else [codes[0] * 16 + codes[1]] + Pack(codes[2..])
  }

  /** Where each code lands in the packing. */
  lemma {:induction false} PackAt(codes: seq<nat>, i: nat)
    requires forall k :: 0 <= k < |codes| ==> codes[k] < 16
    requires i < |codes|
    ensures i % 2 == 0 ==> Pack(codes)[i / 2] / 16 == codes[i]
    ensures i % 2 == 1 ==> Pack(codes)[i / 2] % 16 == codes[i]
    decreases |codes|
  {
    if i >= 2 {
      PackAt(codes[2..], i - 2);
      assert Pack(codes)[i / 2] == Pack(codes[2..])[(i - 2) / 2];
    }
  }

  /** Reading the bases back: a record whose base bytes pack the codes
      `codes` reads, at every position, the letter of that position's
      code. */
  lemma SeqUnpacks(r: Record, codes: seq<nat>)
    requires WellFormed(r)
    requires forall k :: 0 <= k < |codes| ==> codes[k] < 16
    requires |codes| == LSeq(r)
    requires r[SeqAt(r)..QualAt(r)] == Pack(codes)
    ensures forall i :: 0 <= i < |codes| ==> Seq(r, i) == Tr[codes[i]]
  {
    forall i | 0 <= i < |codes|
      ensures Seq(r, i) == Tr[codes[i]]
    {
      PackAt(codes, i);
      assert r[SeqAt(r) + i / 2] == Pack(codes)[i / 2];
    }
  }

  // ------------------------------------------------------------- refLen

  /** CIGAR codes M, D, N, = and X consume the reference. */
  predicate ConsumesRef(code: nat) {
    code == 0 || code == 2 || code == 3 || code == 7 || code == 8
  }

  /** What one op adds to the reference length. */
  function Consumed(op: nat): nat {
    if ConsumesRef(op % 16) then op / 16 else 0
  }

  /** The reference span of a list of ops, summed from the left. */
  function RefSpan(ops: seq<nat>): nat
    decreases |ops|
  {
    if |ops| == 0 then 0 else RefSpan(ops[..|ops| - 1]) + Consumed(ops[|ops| - 1])
  }

  /** The span of two lists one after the other is the sum of their spans. */
  lemma {:induction false} RefSpanAppend(a: seq<nat>, b: seq<nat>)
    ensures RefSpan(a + b) == RefSpan(a) + RefSpan(b)
    decreases |b|
  {
    if |b| == 0 {
      assert a + b == a;
    } else {
      assert (a + b)[..|a + b| - 1] == a + b[..|b| - 1];
      assert (a + b)[|a + b| - 1] == b[|b| - 1];
      RefSpanAppend(a, b[..|b| - 1]);
    }
  }

  /** Only the reference-consuming ops count: a list none of whose ops
      consumes the reference spans nothing, and a list of one op spans its
      length exactly when its code consumes. */
  lemma RefSpanOnlyConsuming(ops: seq<nat>, op: nat)
    ensures (forall k :: 0 <= k < |ops| ==> !ConsumesRef(ops[k] % 16)) ==> RefSpan(ops) == 0
    ensures RefSpan([op]) == if ConsumesRef(op % 16) then op / 16 else 0
  {
    if forall k :: 0 <= k < |ops| ==> !ConsumesRef(ops[k] % 16) {
      NothingConsumed(ops);
    }
    assert [op][..0] == [];
  }

  lemma {:induction false} NothingConsumed(ops: seq<nat>)
    requires forall k :: 0 <= k < |ops| ==> !ConsumesRef(ops[k] % 16)
    ensures RefSpan(ops) == 0
    decreases |ops|
  {
    if |ops| > 0 {
      NothingConsumed(ops[..|ops| - 1]);
    }
  }

  /** `refLen()`: the unsigned 32-bit total of the consumed lengths. */
  function RefLenOf(r: Record): nat
    requires WellFormed(r)
  {
    RefSpan(Ops(r)) % TwoTo32
  }

  /** Reducing modulo 2^32 before an addition changes nothing after it. */
  lemma ModAdd(a: nat, b: nat)
    ensures (a % TwoTo32 + b) % TwoTo32 == (a + b) % TwoTo32
  {
    var q := a / TwoTo32;
    assert a == q * TwoTo32 + a % TwoTo32;
    assert a + b == (a % TwoTo32 + b) + q * TwoTo32;
  }

  /** One more op extends the span by what that op consumes. */
  lemma RefSpanStep(ops: seq<nat>, i: nat)
    requires i < |ops|
    ensures RefSpan(ops[..i + 1]) == RefSpan(ops[..i]) + Consumed(ops[i])
  {
    assert ops[..i + 1][..i] == ops[..i];
  }

  /** `refLen()` as the loop computes it, wrapping at 2^32 like the
      `unsigned` accumulator. */
  method RefLen(r: Record) returns (rslt: nat)
    requires WellFormed(r)
    ensures rslt == RefSpan(Ops(r)) % TwoTo32
    ensures rslt == RefLenOf(r)
  {
    var n := Nc(r);
    var ops := Ops(r);
    rslt := 0;
    var i := 0;
    while i < n
      invariant 0 <= i <= n
      invariant rslt == RefSpan(ops[..i]) % TwoTo32
    {
      var op := Cigar(r, i);
      var code, len := op % 16, op / 16;
      RefSpanStep(ops, i);
      if code == 0 || code == 2 || code == 3 || code == 7 || code == 8 {
        ModAdd(RefSpan(ops[..i]), len);
        rslt := (rslt + len) % TwoTo32;
      }
      i := i + 1;
    }
    assert ops[..i] == ops;
  }

  // ------------------------------------------------------------- flags

  /** Flag bit `mask` (a power of two) is set. */
  predicate HasBit(flag: nat, mask: nat)
    requires mask > 0
  {
    (flag / mask) % 2 == 1
  }

  /** `isSelfMapped()`. */
  predicate IsSelfMapped(r: Record)
    requires HasFixed(r)
    ensures IsSelfMapped(r) ==> Uint32(RefId(r)) == RefId(r) && Uint32(Pos(r)) == Pos(r) && Nc(r) > 0
  {
    !(HasBit(Flag(r), 4) || RefId(r) < 0 || Pos(r) < 0 || Nc(r) == 0)
  }

  /** `isMateMapped()`. */
  predicate IsMateMapped(r: Record)
    requires HasFixed(r)
    ensures IsMateMapped(r) ==> HasBit(Flag(r), 1) && Uint32(NextRefId(r)) == NextRefId(r)
                                && Uint32(NextPos(r)) == NextPos(r)
  {
    !(!HasBit(Flag(r), 1) || HasBit(Flag(r), 8) || NextRefId(r) < 0 || NextPos(r) < 0)
  }

  /** The low flag bits live in byte 14. */
  lemma LowFlagBits(r: Record)
    requires HasFixed(r)
    ensures HasBit(Flag(r), 1) <==> r[14] % 2 == 1
    ensures HasBit(Flag(r), 4) <==> (r[14] / 4) % 2 == 1
    ensures HasBit(Flag(r), 8) <==> (r[14] / 8) % 2 == 1
  {
    FlagNcBytes(r);
    var lo, hi := r[14] as int, r[15] as int;
    assert (lo + 256 * hi) / 4 == lo / 4 + 64 * hi;
    assert (lo + 256 * hi) / 8 == lo / 8 + 32 * hi;
  }

  /** The record is mapped exactly when it is not flagged unmapped (bit
      0x4), has a non-negative reference and position, and has at least
      one CIGAR op; read off the raw bytes, that is a condition on bytes
      3, 7, 12, 13 and 14 alone. */
  lemma SelfMappedBytes(r: Record)
    requires HasFixed(r)
    ensures IsSelfMapped(r) <==> && (r[14] / 4) % 2 == 0 && r[3] < 128 && r[7] < 128
                                 && (r[12] != 0 || r[13] != 0)
  {
    LowFlagBits(r);
    FlagNcBytes(r);
  }

  /** The mate is mapped exactly when the read is paired (bit 0x1), the
      mate is not flagged unmapped (bit 0x8), and the mate's reference and
      position are non-negative: bytes 14, 23 and 27. */
  lemma MateMappedBytes(r: Record)
    requires HasFixed(r)
    ensures IsMateMapped(r) <==> && r[14] % 2 == 1 && (r[14] / 8) % 2 == 0
                                 && r[23] < 128 && r[27] < 128
  {
    LowFlagBits(r);
  }
}
