/** Byte-level decoding for BAM (SAM/BAM format specification, section
    4.2): little-endian unsigned and two's-complement integers as
    `LE2Host` reads them, and the BGZF virtual file offset
    (`BAMFilePosType`, section 4.1.1 of the same specification). */
module BamBytes {

  type Byte = b: int | 0 <= b < 256

  /** `256^n`. */
  function Pow256(n: nat): (p: nat)
    ensures p >= 1
  {
    if n == 0 then 1 else 256 * Pow256(n - 1)
  }

  const TwoTo16 := 0x1_0000
  const TwoTo31 := 0x8000_0000
  const TwoTo32 := 0x1_0000_0000

  /** The little-endian value of `bs`: the sum of `bs[i] * 256^i`. */
  function LE(bs: seq<Byte>): nat
    decreases |bs|
  {
    if |bs| == 0 then 0 else bs[0] + 256 * LE(bs[1..])
  }

  /** `n` bytes hold any value below `256^n` and nothing larger. */
  lemma {:induction false} LEBound(bs: seq<Byte>)
    ensures LE(bs) < Pow256(|bs|)
    decreases |bs|
  {
    if |bs| > 0 {
      LEBound(bs[1..]);
    }
  }

  /** The `n`-byte little-endian encoding of `v`. */
  function EncodeLE(v: nat, n: nat): (bs: seq<Byte>)
    ensures |bs| == n
    decreases n
  {
    if n == 0 then [] else [v % 256] + EncodeLE(v / 256, n - 1)
  }

  /** Decoding inverts encoding for every value that fits. */
  lemma {:induction false} DecodeEncode(v: nat, n: nat)
    requires v < Pow256(n)
    ensures LE(EncodeLE(v, n)) == v
    decreases n
  {
    if n > 0 {
      var bs := EncodeLE(v, n);
      assert bs[1..] == EncodeLE(v / 256, n - 1);
      DecodeEncode(v / 256, n - 1);
    }
  }

  /** Encoding inverts decoding: the bytes are determined by their value. */
  lemma {:induction false} EncodeDecode(bs: seq<Byte>)
    ensures EncodeLE(LE(bs), |bs|) == bs
    decreases |bs|
  {
    if |bs| > 0 {
      EncodeDecode(bs[1..]);
      assert LE(bs) % 256 == bs[0];
      assert LE(bs) / 256 == LE(bs[1..]);
    }
  }

  /** Four bytes written out. */
  lemma LE4(bs: seq<Byte>)
    requires |bs| == 4
    ensures LE(bs) == bs[0] as int + 0x100 * bs[1] as int + 0x1_0000 * bs[2] as int + 0x100_0000 * bs[3] as int
  {
    var b1, b2, b3 := bs[1..], bs[2..], bs[3..];
    assert b1[1..] == b2 && b2[1..] == b3 && b3[1..] == [];
    assert LE(b3) == bs[3];
    assert LE(b2) == bs[2] as int + 256 * bs[3] as int;
  }

  /** The suffix of `bs` from `j` read most significant byte first, as the
      big-endian branch of `LE2Host` accumulates it. */
  function HighFirst(bs: seq<Byte>, j: nat): nat
    requires j <= |bs|
    decreases |bs| - j
  {
    if j == |bs| then 0 else bs[j] + 256 * HighFirst(bs, j + 1)
  }

  lemma {:induction false} HighFirstIsLE(bs: seq<Byte>, j: nat)
    requires j <= |bs|
    ensures HighFirst(bs, j) == LE(bs[j..])
    decreases |bs| - j
  {
    if j < |bs| {
      HighFirstIsLE(bs, j + 1);
      assert bs[j..][1..] == bs[j + 1..];
    }
  }

  /** `LE2Host<T>` on a big-endian host: `y = (y << 8) | ch[--j]` over
      the `sizeof(T)` bytes. The value never leaves `T`'s range, so no
      bits are lost to the shift, and the result is the little-endian
      value the little-endian host reads directly. */
  method LE2HostSwapped(bs: seq<Byte>) returns (y: nat)
    ensures y == LE(bs)
    ensures y < Pow256(|bs|)
  {
    y := 0;
    var j := |bs|;
    while j > 0
      invariant 0 <= j <= |bs|
      invariant y == HighFirst(bs, j)
    {
      j := j - 1;
      y := y * 256 + bs[j];
    }
    HighFirstIsLE(bs, 0);
    assert bs[0..] == bs;
    LEBound(bs);
  }

  /** The two's-complement reading of an unsigned 32-bit value
      (`int32_t`). */
  function Int32(u: nat): (i: int)
    requires u < TwoTo32
    ensures -TwoTo31 <= i < TwoTo31
    ensures i >= 0 <==> u < TwoTo31
  {
    if u < TwoTo31 then u else u - TwoTo32
  }

  /** The conversion of an `int32_t` to `uint32_t`. */
  function Uint32(i: int): (u: nat)
    requires -TwoTo31 <= i < TwoTo31
    ensures u < TwoTo32
  {
    if i >= 0 then i else i + TwoTo32
  }

  lemma Int32RoundTrip(u: nat, i: int)
    ensures u < TwoTo32 ==> Uint32(Int32(u)) == u
    ensures -TwoTo31 <= i < TwoTo31 ==> Int32(Uint32(i)) == i
  {
  }

  /** A product or sum of C `int`s as the machine leaves it: reduced to
      32 bits and read back as two's complement. Within range it is the
      value itself. */
  function Wrap32(x: int): (w: int)
    ensures -TwoTo31 <= w < TwoTo31
    ensures -TwoTo31 <= x < TwoTo31 ==> w == x
  {
    Int32(x % TwoTo32)
  }

  /** The wrapped value differs from the exact one by a multiple of 2^32. */
  lemma Wrap32Congruent(x: int)
    ensures (x - Wrap32(x)) % TwoTo32 == 0
  {
  }

  /** `LE2Host<int32_t>` on four bytes. */
  function ReadInt32(bs: seq<Byte>): (i: int)
    requires |bs| == 4
    ensures -TwoTo31 <= i < TwoTo31
    ensures i < 0 <==> bs[3] >= 128
  {
    LE4(bs);
    Int32(LE(bs))
  }

  /** `BAMFilePosType`: a 64-bit virtual file offset. */
  datatype FilePos = FilePos(value: nat)

  predicate ValidPos(p: FilePos) {
    p.value < Pow256(8)
  }

  /** `fpos()`: `value >> 16`, the compressed block's file offset. */
  function FPos(p: FilePos): nat {
    p.value / TwoTo16
  }

  /** `bpos()`: `(uint16_t)value`, the offset inside the inflated block. */
  function BPos(p: FilePos): nat {
    p.value % TwoTo16
  }

  /** `hasValue()`. */
  function HasValue(p: FilePos): bool {
    p.value != 0
  }

  /** The virtual offset of a block offset and an in-block offset. */
  function MakePos(fpos: nat, bpos: nat): FilePos
    requires bpos < TwoTo16
  {
    FilePos(fpos * TwoTo16 + bpos)
  }

  /** The two halves determine the offset and are determined by it; an
      offset has a value exactly when one of its halves is non-zero. */
  lemma FilePosParts(p: FilePos, fpos: nat, bpos: nat)
    ensures p.value == FPos(p) * TwoTo16 + BPos(p) && BPos(p) < TwoTo16
    ensures HasValue(p) <==> FPos(p) != 0 || BPos(p) != 0
    ensures bpos < TwoTo16 ==> FPos(MakePos(fpos, bpos)) == fpos && BPos(MakePos(fpos, bpos)) == bpos
    ensures MakePos(FPos(p), BPos(p)) == p
  {
  }

  /** `LE2Host<BAMFilePosType>`: eight little-endian bytes. */
  function ReadFilePos(bs: seq<Byte>): (p: FilePos)
    requires |bs| == 8
    ensures ValidPos(p)
  {
    LEBound(bs);
    FilePos(LE(bs))
  }
}
