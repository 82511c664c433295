/**
 * Inputs the LZ decoder (src/entropy/lz.c) does not survive, and a test on the sequence headers that
 * rules them out. Each kind of trouble is shown at an input.
 */
module LzTrouble {
  import opened Base
  import opened LzFormat
  import opened LzCopy
  import opened LzDecode

  /* ---- Small inputs ------------------------------------------------------ */

  lemma MoreLeb(x: byte, tail: seq<byte>, shift: nat, p: nat, v: nat, rest: seq<byte>)
    requires x >= 128 && shift < 32 && p == Pow2(shift) && x % 128 * p + v < U32_LIMIT
    requires ReadLeb(tail, shift + 7) == Some((v, rest))
    ensures ReadLeb([x] + tail, shift) == Some((x % 128 * p + v, rest))
  {
    hide ReadLeb, Pow2;
    LebStep([x] + tail, shift);
    assert ([x] + tail)[1..] == tail;
  }

  lemma LebPlaces()
    ensures Pow2(0) == 1 && Pow2(7) == 0x80 && Pow2(14) == 0x4000 && Pow2(21) == 0x20_0000 && Pow2(28) == 0x1000_0000
  {
    Pow2Values();
    Pow2Add(7, 7);
    Pow2Add(7, 14);
    Pow2Add(14, 14);
  }

  /** A five-byte LEB128 number below 2^32. */
  lemma FiveBytes(b0: byte, b1: byte, b2: byte, b3: byte, b4: byte, rest: seq<byte>)
    requires b0 >= 128 && b1 >= 128 && b2 >= 128 && b3 >= 128 && b4 < 16
    ensures ReadLeb([b0] + ([b1] + ([b2] + ([b3] + ([b4] + rest)))), 0) ==
            Some((b0 % 128 + (b1 % 128 * 0x80 + (b2 % 128 * 0x4000 + (b3 % 128 * 0x20_0000 + b4 * 0x1000_0000))), rest))
  {
    hide ReadLeb, Pow2;
    LebPlaces();
    LebStep([b4] + rest, 28);
    assert ([b4] + rest)[1..] == rest;
    var v4 := b4 * 0x1000_0000;
    MoreLeb(b3, [b4] + rest, 21, 0x20_0000, v4, rest);
    var v3 := b3 % 128 * 0x20_0000 + v4;
    MoreLeb(b2, [b3] + ([b4] + rest), 14, 0x4000, v3, rest);
    var v2 := b2 % 128 * 0x4000 + v3;
    MoreLeb(b1, [b2] + ([b3] + ([b4] + rest)), 7, 0x80, v2, rest);
    MoreLeb(b0, [b1] + ([b2] + ([b3] + ([b4] + rest))), 0, 1, b1 % 128 * 0x80 + v2, rest);
  }

  /** One sequence of one literal, whatever its match, and one literal byte behind it. */
  function OneSequence(header: seq<byte>): seq<byte>
  {
    LE(1, 4) + LE(1, 4) + header + [7]
  }

  lemma OneSequenceParts(header: seq<byte>)
    ensures var src := OneSequence(header);
            && |src| == 9 + |header| && LEVal(src[0..4]) == 1 && LEVal(src[4..8]) == 1
            && src[HEADER_SIZE..|src| - 1] == header && src[|src| - 1..] == [7]
  {
    LEFieldRoundTrip(1, 4);
    var src := OneSequence(header);
    assert src[0..4] == LE(1, 4) && src[4..8] == LE(1, 4);
  }

  /** The input's only sequence decides what happens. */
  lemma OneSequenceScan(header: seq<byte>, s: LzSeq, size: nat, avx2: bool)
    requires ReadSeq(header) == Some((s, [])) && s.lit == 1 && 1 < size && |header| < 100 && size < U32_LIMIT
    ensures var f := Frame(size, 1, avx2);
            InputTrouble(OneSequence(header), size, avx2) ==
            if Passes(s, 0, 0, f) then FastTrouble(s, 0, 0, f)
            else if s.off > 1 then Nothing else CopyTrouble(s.off, Min(s.len, size - 1))
    ensures s.off == 1 && s.len >= size - 1 ==> Decoded(OneSequence(header), size) == Ok(Extended([7], 1, size - 1))
  {
    hide ReadSeq, LE, LEVal, Extended, CopyTrouble;
    OneSequenceParts(header);
    var f := Frame(size, 1, avx2);
    ScanStep(header, 0, 0, 1, f, true, s, []);
    SafeScanStep(s, [], 0, 0, 1, f, 1);
    if s.off == 1 && s.len >= size - 1 {
      assert [] + [7][0..1] == [7];
      SafeStep(header, [7], [], 0, 1, size, s, [], 1);
      NoMore([], [7], Extended([7], 1, size - 1), 1, 0, size);
      ConcatEmpty(Extended([7], 1, size - 1));
    }
  }

  /** A header of one literal, then a match length extension and offset 1. */
  lemma LongHeader(tail: seq<byte>, v: nat, rest: seq<byte>)
    requires ReadLeb(tail, 0) == Some((v, [0, 0] + rest))
    ensures ReadSeq([0x1F] + tail) == Some((LzSeq(1, LowU32(LowU32(15 + v) + MIN_MATCH), 1), rest))
  {
    hide ReadLeb, LowU32;
    assert ([0x1F] + tail)[1..] == tail;
    var b := [0, 0] + rest;
    assert b[0..2] == [0, 0] && b[2..] == rest && [0, 0][1..] == [0] && [0][1..] == [];
    assert LEVal([0]) == 0 && LEVal([0, 0]) == 0;
  }

  const LONG_MATCH: seq<byte> := [0x1F] + ([0xDF] + ([0xFF] + ([0xFF] + ([0xFF] + ([0x0F] + [0, 0])))))

  /** A match length near 2^32: the bound check adds up to 1, and the copy starts with 4 GiB to go. */
  lemma WrappedSumOverruns(avx2: bool)
    ensures ReadSeq(LONG_MATCH) == Some((LzSeq(1, 0xFFFF_FFF1, 1), []))
    ensures InputTrouble(OneSequence(LONG_MATCH), 100, avx2) == Overrun
    ensures Decoded(OneSequence(LONG_MATCH), 100) == Ok(Extended([7], 1, 99))
  {
    hide Extended, ReadLeb, ReadSeq, Decoded, InputTrouble;
    FiveBytes(0xDF, 0xFF, 0xFF, 0xFF, 0x0F, [0, 0]);
    assert [0, 0] + [] == [0, 0] && [0x1F] + LONG_MATCH[1..] == LONG_MATCH;
    LongHeader(LONG_MATCH[1..], 0xFFFF_FFDF, []);
    OneSequenceScan(LONG_MATCH, LzSeq(1, 0xFFFF_FFF1, 1), 100, avx2);
  }

  /** A header of one literal and three bytes whose offset is FF FF and the extension ext. */
  lemma FarHeader(ext: seq<byte>, v: nat)
    requires ReadLeb(ext, 0) == Some((v, []))
    ensures ReadSeq([0x10] + ([0xFF, 0xFF] + ext)) == Some((LzSeq(1, 3, LowU32(v + 65536)), []))
  {
    hide ReadLeb;
    assert ([0x10] + ([0xFF, 0xFF] + ext))[1..] == [0xFF, 0xFF] + ext;
    assert ([0xFF, 0xFF] + ext)[0..2] == [0xFF, 0xFF] && ([0xFF, 0xFF] + ext)[2..] == ext;
    assert [0xFF, 0xFF][1..] == [0xFF] && [0xFF][1..] == [];
    assert LEVal([0xFF]) == 0xFF && LEVal([0xFF, 0xFF]) == 0xFFFF;
  }

  const ZERO_OFFSET: seq<byte> := [0x10] + ([0xFF, 0xFF] + ([0x80] + ([0x80] + ([0xFC] + ([0xFF] + ([0x0F] + []))))))

  /** An offset extension of 2^32 - 65536 wraps the offset to 0: the copy never gets anywhere. */
  lemma WrappedOffsetNeverEnds(size: nat, avx2: bool)
    requires 1 < size < U32_LIMIT
    ensures ReadSeq(ZERO_OFFSET) == Some((LzSeq(1, 3, 0), []))
    ensures InputTrouble(OneSequence(ZERO_OFFSET), size, avx2) == Endless
  {
    hide ReadLeb, ReadSeq, InputTrouble;
    FiveBytes(0x80, 0x80, 0xFC, 0xFF, 0x0F, []);
    FarHeader([0x80] + ([0x80] + ([0xFC] + ([0xFF] + ([0x0F] + [])))), 0xFFFF_0000);
    OneSequenceScan(ZERO_OFFSET, LzSeq(1, 3, 0), size, avx2);
  }

  const ZERO_AND_LONG: seq<byte> :=
    [0x1F] + ([0xDF] + ([0xFF] + ([0xFF] + ([0xFF] + ([0x0F] + ([0xFF, 0xFF]
    + ([0x80] + ([0x80] + ([0xFC] + ([0xFF] + ([0x0F] + [])))))))))))

  /** Both at once: the bound check wraps, but at offset 0 the copy never writes a byte past the end. */
  lemma WrappedBothNeverEnds(avx2: bool)
    ensures ReadSeq(ZERO_AND_LONG) == Some((LzSeq(1, 0xFFFF_FFF1, 0), []))
    ensures InputTrouble(OneSequence(ZERO_AND_LONG), 100, avx2) == Endless
  {
    hide ReadLeb, ReadSeq, InputTrouble;
    var ext := [0x80] + ([0x80] + ([0xFC] + ([0xFF] + ([0x0F] + []))));
    FiveBytes(0xDF, 0xFF, 0xFF, 0xFF, 0x0F, [0xFF, 0xFF] + ext);
    FiveBytes(0x80, 0x80, 0xFC, 0xFF, 0x0F, []);
    LongFarHeader(ZERO_AND_LONG[1..], 0xFFFF_FFDF, ext, 0xFFFF_0000);
    assert [0x1F] + ZERO_AND_LONG[1..] == ZERO_AND_LONG;
    OneSequenceScan(ZERO_AND_LONG, LzSeq(1, 0xFFFF_FFF1, 0), 100, avx2);
  }

  lemma LongFarHeader(tail: seq<byte>, v: nat, ext: seq<byte>, w: nat)
    requires ReadLeb(tail, 0) == Some((v, [0xFF, 0xFF] + ext)) && ReadLeb(ext, 0) == Some((w, []))
    ensures ReadSeq([0x1F] + tail)
            == Some((LzSeq(1, LowU32(LowU32(15 + v) + MIN_MATCH), LowU32(w + 65536)), []))
  {
    hide ReadLeb, LowU32;
    assert ([0x1F] + tail)[1..] == tail;
    var b := [0xFF, 0xFF] + ext;
    assert b[0..2] == [0xFF, 0xFF] && b[2..] == ext && [0xFF, 0xFF][1..] == [0xFF] && [0xFF][1..] == [];
    assert LEVal([0xFF]) == 0xFF && LEVal([0xFF, 0xFF]) == 0xFFFF;
  }

  /**
   * An overrun of the fast path is one: the literals are not all there, or a block of literals or of the match
   * ends past the output. Its bound sum wrapped, or the match wrapped to no bytes.
   */
  lemma OverrunPassesTheEnd(s: LzSeq, dp: nat, lp: nat, f: Frame)
    requires lp <= dp <= f.size && lp <= f.litSize && f.size < U32_LIMIT && f.litSize < U32_LIMIT
    requires Passes(s, dp, lp, f) && FastTrouble(s, dp, lp, f) == Overrun
    ensures lp + s.lit > f.litSize || dp + LiteralBlock(s.lit, lp, f.litSize) > f.size
            || ((s.off >= 1 || s.len == 0) && dp + s.lit + Reach(s.off, s.len, f.avx2) > f.size)
    ensures dp + s.lit + s.len + Slack(f.avx2) >= U32_LIMIT || lp + s.lit >= U32_LIMIT
            || (s.len == 0 && s.off > Slack(f.avx2) && dp + s.lit + Slack(f.avx2) == f.size)
  {
  }

  /* ---- Inputs without trouble -------------------------------------------- */

  /** A match of 30 bytes at offset 16. */
  const SHORT_MATCH: seq<byte> := [0x0F] + ([0x0C] + [0x0F, 0])

  const NEARLY_ALL: seq<byte> := [0x1F] + ([0xC5] + ([0xFF] + ([0xFF] + ([0xFF] + ([0x0F] + ([0, 0] + SHORT_MATCH))))))

  /** The two sequences, and ten literals. */
  const EDGE: seq<byte> := LE(2, 4) + LE(10, 4) + NEARLY_ALL + TEN_LITERALS

  const TEN_LITERALS: seq<byte> := [1, 2, 3, 4, 5, 6, 7, 8, 9, 10]

  lemma EdgeHeaders()
    ensures ReadSeq(NEARLY_ALL) == Some((LzSeq(1, 0xFFFF_FFD7, 1), SHORT_MATCH))
    ensures ReadSeq(SHORT_MATCH) == Some((LzSeq(0, 30, 16), []))
  {
    hide ReadLeb, ReadSeq;
    ShortHeader();
    FiveBytes(0xC5, 0xFF, 0xFF, 0xFF, 0x0F, [0, 0] + SHORT_MATCH);
    LongHeader(NEARLY_ALL[1..], 0xFFFF_FFC5, SHORT_MATCH);
    assert [0x1F] + NEARLY_ALL[1..] == NEARLY_ALL;
  }

  lemma ShortHeader()
    ensures ReadSeq(SHORT_MATCH) == Some((LzSeq(0, 30, 16), []))
  {
    LebPlaces();
    LebStep([0x0C] + [0x0F, 0], 0);
    assert SHORT_MATCH[1..] == [0x0C] + [0x0F, 0] && ([0x0C] + [0x0F, 0])[1..] == [0x0F, 0];
    hide ReadLeb, Pow2;
    assert [0x0F, 0][0..2] == [0x0F, 0] && [0x0F, 0][1..] == [0] && [0][1..] == [] && [0x0F, 0][2..] == [];
    assert LEVal([0]) == 0 && LEVal([0x0F, 0]) == 0x0F;
  }

  /**
   * A wrapped bound check need not be trouble: 40 bytes short of the largest output the last match passes it,
   * though with the slack it would end past 2^32; its two blocks fit, and the decoder returns what it should.
   */
  lemma WrappedYetReturns()
    ensures var size, s := 0xFFFF_FFFF, LzSeq(0, 30, 16);
            && Passes(s, 0xFFFF_FFD8, 1, Frame(size, 10, false)) && !Inside(s, 0xFFFF_FFD8, 1, Frame(size, 10, false))
            && InputTrouble(EDGE, size, false) == Nothing && Decoded(EDGE, size).Ok?
  {
    var size, f := 0xFFFF_FFFF, Frame(0xFFFF_FFFF, 10, false);
    EdgeHeaders();
    EdgeParts();
    hide ReadSeq, LE, LEVal, Scan, SafeScan, DecodeFrom, Extended;
    var s, t := LzSeq(1, 0xFFFF_FFD7, 1), LzSeq(0, 30, 16);
    assert Blocks(30, 16) == 16 + Blocks(14, 16) == 32;
    ScanStep(NEARLY_ALL, 0, 0, 2, f, true, s, SHORT_MATCH);
    InsideNoTrouble(s, 0, 0, f);
    ScanStep(SHORT_MATCH, 0xFFFF_FFD8, 1, 1, f, true, t, []);
    ScanEnds([], 0xFFFF_FFF6, 1, 0, f, true);
    FullStep(NEARLY_ALL, TEN_LITERALS, [], 0, 2, f, s, SHORT_MATCH);
    var out := Copied([] + TEN_LITERALS[0..1], 1, 0xFFFF_FFD7);
    FullStep(SHORT_MATCH, TEN_LITERALS, out, 1, 1, f, t, []);
    var end := Copied(out + TEN_LITERALS[1..1], 16, 30);
    NoMore([], TEN_LITERALS, end, 1, 0, size);
  }

  lemma EdgeParts()
    ensures |EDGE| == 30 && LEVal(EDGE[0..4]) == 2 && LEVal(EDGE[4..8]) == 10
    ensures EDGE[HEADER_SIZE..|EDGE| - 10] == NEARLY_ALL && EDGE[|EDGE| - 10..] == TEN_LITERALS
  {
    LEFieldRoundTrip(2, 4);
    LEFieldRoundTrip(10, 4);
    assert EDGE[0..4] == LE(2, 4) && EDGE[4..8] == LE(10, 4);
  }

  /** Every sequence header of the region, in turn, keeps to this. */
  predicate AllModest(b: seq<byte>, left: nat, size: nat)
    decreases left
  {
    if left == 0 then true
    else
      match ReadSeq(b)
      case None => true
      case Some((s, rest)) => Modest(s, size) && AllModest(rest, left - 1, size)
  }

  /** An offset and a length that did not wrap to zero, and a length that cannot wrap the bound check. */
  predicate Modest(s: LzSeq, size: nat)
  {
    s.off >= 1 && s.len >= 1 && s.lit + s.len + size + Slack(true) < U32_LIMIT
  }

  lemma ModestInside(s: LzSeq, dp: nat, lp: nat, f: Frame)
    requires Modest(s, f.size) && Passes(s, dp, lp, f) && lp <= dp <= f.size && lp <= f.litSize
    ensures Inside(s, dp, lp, f)
  {
  }

  /** A sequence the safe path takes: what is left of its match is copied in good order. */
  lemma ModestSafe(s: LzSeq, rest: seq<byte>, dp: nat, lp: nat, left: nat, f: Frame)
    requires s.off >= 1 && f.size <= 0x8000_0000 && lp <= dp <= f.size && lp <= f.litSize && left > 0
    requires var ll := Min(Min(s.lit, f.size - dp), f.litSize - lp);
             Scan(rest, dp + ll + Min(s.len, f.size - dp - ll), lp + ll, left - 1, f, false) == Nothing
    ensures SafeScan(s, rest, dp, lp, left, f) == Nothing
  {
    hide Scan, SafeScan, CopyTrouble;
    var ll := Min(Min(s.lit, f.size - dp), f.litSize - lp);
    SafeScanStep(s, rest, dp, lp, left, f, ll);
    ShortCopies(s.off, Min(s.len, f.size - dp - ll));
  }

  lemma ModestStep(b: seq<byte>, left: nat, size: nat, s: LzSeq, rest: seq<byte>)
    requires AllModest(b, left, size) && left > 0 && ReadSeq(b) == Some((s, rest))
    ensures Modest(s, size) && AllModest(rest, left - 1, size)
  {
    hide ReadSeq;
  }

  lemma {:induction false} ModestScan(b: seq<byte>, dp: nat, lp: nat, left: nat, f: Frame, fast: bool)
    requires AllModest(b, left, f.size) && f.size <= 0x8000_0000 && lp <= dp <= f.size && lp <= f.litSize
    ensures Scan(b, dp, lp, left, f, fast) == Nothing
    decreases left
  {
    hide ReadSeq, AllModest, Scan, SafeScan, FastTrouble, Passes, Inside;
    if left == 0 || ReadSeq(b) == None {
      ScanEnds(b, dp, lp, left, f, fast);
    } else {
      var (s, rest) := ReadSeq(b).value;
      ScanStep(b, dp, lp, left, f, fast, s, rest);
      ModestStep(b, left, f.size, s, rest);
      if fast && Passes(s, dp, lp, f) {
        ModestInside(s, dp, lp, f);
        InsideNoTrouble(s, dp, lp, f);
        ModestScan(rest, dp + s.lit + s.len, lp + s.lit, left - 1, f, true);
      } else {
        var ll := Min(Min(s.lit, f.size - dp), f.litSize - lp);
        ModestScan(rest, dp + ll + Min(s.len, f.size - dp - ll), lp + ll, left - 1, f, false);
        ModestSafe(s, rest, dp, lp, left, f);
      }
    }
  }

  /** A look at the headers before the call: with modest sequences and up to 2 GiB of output nothing goes wrong. */
  lemma ModestInput(src: seq<byte>, size: nat, avx2: bool)
    requires |src| >= HEADER_SIZE && HEADER_SIZE + LEVal(src[4..8]) <= |src| && size <= 0x8000_0000
    requires AllModest(src[HEADER_SIZE..|src| - LEVal(src[4..8])], LEVal(src[0..4]), size)
    ensures InputTrouble(src, size, avx2) == Nothing
  {
    hide LEVal, Scan, AllModest;
    var litSize := LEVal(src[4..8]);
    ModestScan(src[HEADER_SIZE..|src| - litSize], 0, 0, LEVal(src[0..4]), Frame(size, litSize, avx2), true);
  }
}
