/**
 * The LZ sequence format (src/entropy/lz_internal.h, src/entropy/lz.c): LEB128 numbers as in section 7.6
 * of DWARF 5, literal lengths in chained 255s, 2-byte offsets with an escape. Readers are bounded and
 * keep every value in 32 bits, as the decoder does on any input.
 */
module LzFormat {
  import opened Base

  const MIN_MATCH: nat := 3
  const MAX_OFFSET: nat := 0x40_0000
  const HEADER_SIZE: nat := 8

  /** lit literal bytes, then a match of len bytes starting off bytes back. */
  datatype LzSeq = LzSeq(lit: nat, len: nat, off: nat)

  /** A sequence the serializer accepts. */
  predicate SeqOk(s: LzSeq)
  {
    MIN_MATCH <= s.len && 1 <= s.off <= MAX_OFFSET
  }

  /* ---- Numbers ----------------------------------------------------------- */

  function Leb(v: nat): (b: seq<byte>)
    ensures |b| >= 1
  {
    if v < 128 then [v] else [v % 128 + 128] + Leb(v / 128)
  }

  function LebSize(v: nat): (n: nat)
    ensures n == |Leb(v)|
  {
    if v < 128 then 1 else 1 + LebSize(v / 128)
  }

  function Chained(v: nat): (b: seq<byte>)
    ensures |b| == v / 255 + 1
  {
    if v < 255 then [v] else [255] + Chained(v - 255)
  }

  /** A number read and the bytes after it; none when the bytes run out. */
  type reading = Option<(nat, seq<byte>)>

  /** LEB128 from bit position shift on; refused past 32 bits, and cut to 32 bits. */
  function ReadLeb(b: seq<byte>, shift: nat): (r: reading)
    ensures r.Some? ==> |r.value.1| < |b|
    decreases b
  {
    if b == [] || shift >= 32 then None
    else
      var part := LowU32(b[0] % 128 * Pow2(shift));
      if b[0] < 128 then Some((part, b[1..]))
      else
        match ReadLeb(b[1..], shift + 7)
        case None => None
        case Some((v, rest)) => Some((LowU32(part + v), rest))
  }

  /** Chained 255s added to acc in 32 bits. */
  function ReadChained(b: seq<byte>, acc: nat): (r: reading)
    ensures r.Some? ==> |r.value.1| < |b|
    decreases b
  {
    if b == [] then None
    else if b[0] == 255 then ReadChained(b[1..], LowU32(acc + 255))
    else Some((LowU32(acc + b[0]), b[1..]))
  }

  lemma {:induction false} ChainedReads(v: nat, acc: nat, rest: seq<byte>)
    requires acc + v < U32_LIMIT
    ensures ReadChained(Chained(v) + rest, acc) == Some((acc + v, rest))
    decreases v
  {
    var b := Chained(v) + rest;
    if v >= 255 {
      ChainedReads(v - 255, acc + 255, rest);
      assert b[1..] == Chained(v - 255) + rest;
    } else {
      assert b[1..] == rest;
    }
  }

  /** Five LEB128 bytes hold any 32-bit number. */
  lemma {:induction false} LebReads(v: nat, shift: nat, rest: seq<byte>)
    requires v * Pow2(shift) < U32_LIMIT && (v > 0 || shift == 0)
    ensures ReadLeb(Leb(v) + rest, shift) == Some((v * Pow2(shift), rest))
    decreases v
  {
    hide Pow2, LowU32;
    var b, p := Leb(v) + rest, Pow2(shift);
    ShiftBelow(v, shift);
    if v < 128 {
      assert b[1..] == rest && b[0] % 128 == v;
    } else {
      assert b[1..] == Leb(v / 128) + rest && b[0] % 128 == v % 128;
      LebSplit(v, shift);
      LebReads(v / 128, shift + 7, rest);
      LowParts(v % 128 * p, v / 128 * Pow2(shift + 7), v * p);
    }
  }

  lemma LowParts(a: nat, b: nat, sum: nat)
    requires a + b == sum < U32_LIMIT
    ensures LowU32(a) == a && LowU32(a + b) == sum
  {
  }

  lemma ShiftBelow(v: nat, shift: nat)
    requires v * Pow2(shift) < U32_LIMIT && (v > 0 || shift == 0)
    ensures shift < 32
  {
    if shift >= 32 {
      Pow2Monotone(32, shift);
      Pow2Values();
      MulMonotone(1, v, Pow2(shift));
    }
  }

  /** The low seven bits and the rest of a number, at their places. */
  lemma LebSplit(v: nat, shift: nat)
    requires v >= 128
    ensures v / 128 > 0 && Pow2(shift + 7) == 128 * Pow2(shift)
    ensures v % 128 * Pow2(shift) + v / 128 * Pow2(shift + 7) == v * Pow2(shift)
  {
    var p, q, r := Pow2(shift), v / 128, v % 128;
    Pow2Add(7, shift);
    Pow2Values();
    assert v == 128 * q + r;
    MulDistribute(128 * q, r, p);
    MulOctets(q, p);
  }

  lemma MulOctets(q: nat, p: nat)
    ensures q * (128 * p) == (128 * q) * p
  {
  }

  /* ---- Offsets ----------------------------------------------------------- */

  function OffsetBytes(off: nat): (b: seq<byte>)
    requires off >= 1
  {
    if off <= 65535 then LE(off - 1, 2) else [255, 255] + Leb(off - 65536)
  }

  function OffsetSize(off: nat): (n: nat)
    requires off >= 1
    ensures n == |OffsetBytes(off)|
  {
    if off <= 65535 then 2 else 2 + LebSize(off - 65536)
  }

  function ReadOffset(b: seq<byte>): (r: reading)
    ensures r.Some? ==> |r.value.1| < |b|
  {
    if |b| < 2 then None
    else
      var v := LEVal(b[0..2]);
      if v < 0xFFFF then Some((v + 1, b[2..]))
      else
        match ReadLeb(b[2..], 0)
        case None => None
        case Some((ext, rest)) => Some((LowU32(ext + 65536), rest))
  }

  lemma OffsetReads(off: nat, rest: seq<byte>)
    requires 1 <= off < U32_LIMIT
    ensures ReadOffset(OffsetBytes(off) + rest) == Some((off, rest))
  {
    var b := OffsetBytes(off) + rest;
    if off <= 65535 {
      LEFieldRoundTrip(off - 1, 2);
      assert b[0..2] == LE(off - 1, 2) && b[2..] == rest;
    } else {
      assert b[0..2] == [255, 255] && b[2..] == Leb(off - 65536) + rest;
      assert [255, 255][1..] == [255] && LEVal([255]) == 255 + 256 * LEVal([]);
      LebReads(off - 65536, 0, rest);
    }
  }

  /* ---- Sequences --------------------------------------------------------- */

  function LitExt(lit: nat): seq<byte>
  {
    if lit >= 15 then Chained(lit - 15) else []
  }

  function LenExt(m3: nat): seq<byte>
  {
    if m3 >= 15 then Leb(m3 - 15) else []
  }

  function Tag(lit: nat, m3: nat): byte
  {
    16 * Min(lit, 15) + Min(m3, 15)
  }

  function SeqBytes(s: LzSeq): (b: seq<byte>)
    requires SeqOk(s)
  {
    [Tag(s.lit, s.len - MIN_MATCH)] + LitExt(s.lit) + LenExt(s.len - MIN_MATCH) + OffsetBytes(s.off)
  }

  /** The size the cost model charges for a sequence. */
  function SeqSize(s: LzSeq): nat
    requires SeqOk(s)
  {
    1 + OffsetSize(s.off) + (if s.lit >= 15 then (s.lit - 15) / 255 + 1 else 0)
    + (if s.len - MIN_MATCH >= 15 then LebSize(s.len - MIN_MATCH - 15) else 0)
  }

  /** It is exactly the number of bytes written. */
  lemma SizeIsExact(s: LzSeq)
    requires SeqOk(s)
    ensures |SeqBytes(s)| == SeqSize(s)
  {
  }

  /** Literal length, match length and offset, in 32 bits, and the bytes after the sequence. */
  type seqReading = Option<(LzSeq, seq<byte>)>

  function ReadLit(tag: byte, b: seq<byte>): (r: reading)
    ensures r.Some? ==> |r.value.1| <= |b|
  {
    if tag / 16 == 15 then ReadChained(b, 15) else Some((tag / 16, b))
  }

  function ReadLen(tag: byte, b: seq<byte>): (r: reading)
    ensures r.Some? ==> |r.value.1| <= |b|
  {
    if tag % 16 == 15 then
      match ReadLeb(b, 0)
      case None => None
      case Some((v, rest)) => Some((LowU32(15 + v), rest))
    else Some((tag % 16, b))
  }

  function ReadSeq(b: seq<byte>): (r: seqReading)
    ensures r.Some? ==> |r.value.1| < |b|
  {
    if b == [] then None
    else
      match ReadLit(b[0], b[1..])
      case None => None
      case Some((lit, b1)) =>
        match ReadLen(b[0], b1)
        case None => None
        case Some((m3, b2)) =>
          match ReadOffset(b2)
          case None => None
          case Some((off, b3)) => Some((LzSeq(lit, LowU32(m3 + MIN_MATCH), off), b3))
  }

  lemma LitReads(lit: nat, m3: nat, rest: seq<byte>)
    requires lit < U32_LIMIT
    ensures ReadLit(Tag(lit, m3), LitExt(lit) + rest) == Some((lit, rest))
  {
    if lit >= 15 {
      ChainedReads(lit - 15, 15, rest);
    } else {
      assert LitExt(lit) + rest == rest;
    }
  }

  lemma LenReads(lit: nat, m3: nat, rest: seq<byte>)
    requires m3 < U32_LIMIT
    ensures ReadLen(Tag(lit, m3), LenExt(m3) + rest) == Some((m3, rest))
  {
    if m3 >= 15 {
      LebReads(m3 - 15, 0, rest);
    } else {
      assert LenExt(m3) + rest == rest;
    }
  }

  /** A written sequence reads back, whatever follows it. */
  lemma SeqReads(s: LzSeq, rest: seq<byte>)
    requires SeqOk(s) && s.lit < U32_LIMIT && s.len < U32_LIMIT
    ensures ReadSeq(SeqBytes(s) + rest) == Some((s, rest))
  {
    hide ReadLit, ReadLen, ReadOffset, LitExt, LenExt, OffsetBytes, Tag;
    var m3 := s.len - MIN_MATCH;
    var tag := Tag(s.lit, m3);
    var b2 := OffsetBytes(s.off) + rest;
    var b1 := LenExt(m3) + b2;
    var b0 := LitExt(s.lit) + b1;
    assert SeqBytes(s) + rest == [tag] + b0;
    assert ([tag] + b0)[1..] == b0;
    LitReads(s.lit, m3, b1);
    LenReads(s.lit, m3, b2);
    OffsetReads(s.off, rest);
  }

  /** A whole region of sequences. */
  function SeqsBytes(ss: seq<LzSeq>): (b: seq<byte>)
    requires forall i {:trigger ss[i]} :: 0 <= i < |ss| ==> SeqOk(ss[i])
  {
    if ss == [] then [] else SeqBytes(ss[0]) + SeqsBytes(ss[1..])
  }

  function SeqsSize(ss: seq<LzSeq>): (n: nat)
    requires forall i {:trigger ss[i]} :: 0 <= i < |ss| ==> SeqOk(ss[i])
    ensures n == |SeqsBytes(ss)|
  {
    if ss == [] then 0
    else
      SizeIsExact(ss[0]);
      SeqSize(ss[0]) + SeqsSize(ss[1..])
  }
}
