/**
 * The LZ encoder (src/entropy/lz.c): parse, serialize, fall back to plain literals when nothing is
 * gained; and the round trip through the decoder at every level.
 */
module Lz {
  import opened Base
  import opened LzFormat
  import opened LzCopy
  import opened LzDecode
  import opened LzTrouble
  import opened LzMatch
  import opened LzParse
  import opened LzRun

  /* ---- Streams ----------------------------------------------------------- */

  predicate AllOk(ss: seq<LzSeq>)
  {
    forall i {:trigger ss[i]} :: 0 <= i < |ss| ==> SeqOk(ss[i])
  }

  /** The literals of the sequences, in order. */
  function Literals(src: seq<byte>, ss: seq<LzSeq>): (b: seq<byte>)
    requires End(ss, 0) <= |src|
    ensures |b| <= End(ss, 0)
  {
    if ss == [] then []
    else
      var front, s := ss[..|ss| - 1], ss[|ss| - 1];
      Literals(src, front) + src[End(front, 0)..End(front, 0) + s.lit]
  }

  function AllLiterals(src: seq<byte>, ss: seq<LzSeq>): (b: seq<byte>)
    requires End(ss, 0) <= |src|
  {
    Literals(src, ss) + src[End(ss, 0)..]
  }

  /** Bytes of the stream of these sequences. */
  function TotalSize(src: seq<byte>, ss: seq<LzSeq>): nat
    requires AllOk(ss) && End(ss, 0) <= |src|
  {
    HEADER_SIZE + SeqsSize(ss) + |AllLiterals(src, ss)|
  }

  function Stream(src: seq<byte>, ss: seq<LzSeq>): (b: seq<byte>)
    requires AllOk(ss) && End(ss, 0) <= |src|
    ensures |b| == TotalSize(src, ss)
  {
    LE(|ss|, 4) + LE(|AllLiterals(src, ss)|, 4) + SeqsBytes(ss) + AllLiterals(src, ss)
  }

  /** The fallback: no sequences, the input as literals. */
  function LiteralStream(src: seq<byte>): (b: seq<byte>)
    ensures |b| == |src| + HEADER_SIZE
  {
    LE(0, 4) + LE(|src|, 4) + src
  }

  /** What the serializer writes for a parse. */
  function Serialized(src: seq<byte>, ss: seq<LzSeq>): (b: seq<byte>)
    requires AllOk(ss) && End(ss, 0) <= |src|
    ensures |b| <= |src| + HEADER_SIZE
  {
    if TotalSize(src, ss) >= |src| then LiteralStream(src) else Stream(src, ss)
  }

  /* ---- Round trip -------------------------------------------------------- */

  /** The first i sequences cover a prefix, and their literals are a prefix of all literals. */
  lemma {:induction false} PrefixFacts(src: seq<byte>, ss: seq<LzSeq>, i: nat)
    requires Tiles(src, ss) && i <= |ss|
    ensures Tiles(src, ss[..i]) && End(ss[..i], 0) <= End(ss, 0) <= |src|
    ensures |Literals(src, ss[..i])| <= |Literals(src, ss)|
    ensures Literals(src, ss)[..|Literals(src, ss[..i])|] == Literals(src, ss[..i])
    decreases |ss|
  {
    TilesInside(src, ss);
    if i < |ss| {
      PrefixFacts(src, ss[..|ss| - 1], i);
      assert ss[..|ss| - 1][..i] == ss[..i];
    } else {
      assert ss[..i] == ss;
    }
  }

  /** The match of a tiling is what the copy produces. */
  lemma MatchExtends(src: seq<byte>, pos: nat, len: nat, off: nat)
    requires IsMatch(src, pos, len, off)
    ensures Extended(src[..pos], off, len) == src[..pos + len]
  {
    var r := src[..pos + len];
    forall k: nat | pos <= k < pos + len ensures r[k] == r[k - off] {
      assert SameAt(src, k, off);
    }
    assert r[..pos] == src[..pos];
    ExtendedUnique(src[..pos], off, len, r);
  }

  lemma SeqAt(src: seq<byte>, ss: seq<LzSeq>, i: nat)
    requires Tiles(src, ss) && i < |ss|
    ensures var e := End(ss[..i], 0);
            && Tiles(src, ss[..i]) && IsMatch(src, e + ss[i].lit, ss[i].len, ss[i].off)
            && End(ss[..i + 1], 0) == e + ss[i].lit + ss[i].len
            && Literals(src, ss[..i + 1]) == Literals(src, ss[..i]) + src[e..e + ss[i].lit]
  {
    PrefixFacts(src, ss, i + 1);
    TilesInside(src, ss[..i + 1]);
    assert ss[..i + 1][..i] == ss[..i];
    TilesInside(src, ss[..i]);
  }

  /** The literals of sequence i stand right after those of the sequences before it. */
  lemma LiteralsAt(src: seq<byte>, ss: seq<LzSeq>, i: nat)
    requires Tiles(src, ss) && i < |ss|
    ensures End(ss, 0) <= |src| && End(ss[..i], 0) + ss[i].lit <= |src|
    ensures var lp := |Literals(src, ss[..i])|;
            && lp + ss[i].lit <= |AllLiterals(src, ss)|
            && AllLiterals(src, ss)[lp..lp + ss[i].lit] == src[End(ss[..i], 0)..End(ss[..i], 0) + ss[i].lit]
  {
    hide Tiles, Literals, End, IsMatch;
    SeqAt(src, ss, i);
    PrefixFacts(src, ss, i + 1);
    var lp, n := |Literals(src, ss[..i])|, |Literals(src, ss[..i + 1])|;
    var all := AllLiterals(src, ss);
    assert all[..n] == Literals(src, ss)[..n] == Literals(src, ss[..i + 1]);
    assert all[lp..n] == all[..n][lp..];
  }

  /** Decoding resumed before any sequence of a tiling ends with the whole input. */
  lemma {:induction false} TilesDecode(src: seq<byte>, ss: seq<LzSeq>, i: nat)
    requires Tiles(src, ss) && AllOk(ss) && |src| < U32_LIMIT && i <= |ss|
    ensures Tiles(src, ss[..i]) && End(ss[..i], 0) <= |src| && End(ss, 0) <= |src|
    ensures |Literals(src, ss[..i])| <= |AllLiterals(src, ss)|
    ensures DecodeFrom(SeqsBytes(ss[i..]), AllLiterals(src, ss), src[..End(ss[..i], 0)], |Literals(src, ss[..i])|,
                       |ss| - i, |src|) == Ok(src)
    decreases |ss| - i
  {
    hide DecodeFrom, SeqBytes, ReadSeq, Extended, IsMatch;
    PrefixFacts(src, ss, i);
    if i == |ss| {
      assert ss[..i] == ss;
      LastLiterals(src, ss);
    } else {
      TilesDecode(src, ss, i + 1);
      OneDecodes(src, ss, i);
    }
  }

  lemma LastLiterals(src: seq<byte>, ss: seq<LzSeq>)
    requires Tiles(src, ss) && End(ss, 0) <= |src|
    ensures DecodeFrom([], AllLiterals(src, ss), src[..End(ss, 0)], |Literals(src, ss)|, 0, |src|) == Ok(src)
  {
    hide Tiles, End, Literals;
    var lits, lp, e := AllLiterals(src, ss), |Literals(src, ss)|, End(ss, 0);
    assert lits[lp..] == src[e..];
    assert lits[lp..lp + Min(|lits| - lp, |src| - e)] == lits[lp..];
    assert src[..e] + src[e..] == src;
  }

  lemma OneDecodes(src: seq<byte>, ss: seq<LzSeq>, i: nat)
    requires Tiles(src, ss) && AllOk(ss) && |src| < U32_LIMIT && i < |ss|
    requires End(ss[..i], 0) <= |src| && End(ss, 0) <= |src| && End(ss[..i + 1], 0) <= |src|
    requires |Literals(src, ss[..i])| <= |AllLiterals(src, ss)|
             && |Literals(src, ss[..i + 1])| <= |AllLiterals(src, ss)|
    ensures DecodeFrom(SeqsBytes(ss[i..]), AllLiterals(src, ss), src[..End(ss[..i], 0)], |Literals(src, ss[..i])|,
                       |ss| - i, |src|)
            == DecodeFrom(SeqsBytes(ss[i + 1..]), AllLiterals(src, ss), src[..End(ss[..i + 1], 0)],
                          |Literals(src, ss[..i + 1])|, |ss| - i - 1, |src|)
  {
    hide DecodeFrom, SeqBytes, ReadSeq, Extended, IsMatch, Tiles, End, Literals, AllLiterals;
    var s, lits, e, lp := ss[i], AllLiterals(src, ss), End(ss[..i], 0), |Literals(src, ss[..i])|;
    SeqAt(src, ss, i);
    LiteralsAt(src, ss, i);
    MatchInside(src, e + s.lit, s.len, s.off);
    assert ss[i..][1..] == ss[i + 1..] && ss[i..][0] == s;
    SeqReads(s, SeqsBytes(ss[i + 1..]));
    SafeStep(SeqsBytes(ss[i..]), lits, src[..e], lp, |ss| - i, |src|, s, SeqsBytes(ss[i + 1..]), s.lit);
    assert src[..e] + src[e..e + s.lit] == src[..e + s.lit];
    MatchExtends(src, e + s.lit, s.len, s.off);
  }

  lemma StreamFields(src: seq<byte>, ss: seq<LzSeq>)
    requires AllOk(ss) && End(ss, 0) <= |src| && |ss| < U32_LIMIT && |AllLiterals(src, ss)| < U32_LIMIT
    ensures var b := Stream(src, ss);
            var lits := AllLiterals(src, ss);
            && LEVal(b[0..4]) == |ss| && LEVal(b[4..8]) == |lits| && HEADER_SIZE + |lits| <= |b|
            && b[HEADER_SIZE..|b| - |lits|] == SeqsBytes(ss) && b[|b| - |lits|..] == lits
  {
    hide SeqsBytes, AllLiterals, SeqsSize;
    LEFieldRoundTrip(|ss|, 4);
    LEFieldRoundTrip(|AllLiterals(src, ss)|, 4);
    var b := Stream(src, ss);
    assert b[0..4] == LE(|ss|, 4) && b[4..8] == LE(|AllLiterals(src, ss)|, 4);
  }

  lemma {:induction false} SequencesFew(src: seq<byte>, ss: seq<LzSeq>)
    requires Tiles(src, ss)
    ensures End(ss, 0) <= |src| && MIN_MATCH * |ss| <= End(ss, 0)
  {
    if ss != [] {
      SequencesFew(src, ss[..|ss| - 1]);
    }
  }

  /** Decoding the serialized form of any tiling gives back the input, as long as its size fits 32 bits. */
  lemma RoundTrip(src: seq<byte>, ss: seq<LzSeq>)
    requires Tiles(src, ss) && AllOk(ss) && End(ss, 0) <= |src| && |src| + HEADER_SIZE < U32_LIMIT
    ensures Decoded(Serialized(src, ss), |src|) == Ok(src)
  {
    if TotalSize(src, ss) >= |src| {
      LiteralRoundTrip(src);
    } else {
      StreamRoundTrip(src, ss);
    }
  }

  lemma StreamRoundTrip(src: seq<byte>, ss: seq<LzSeq>)
    requires Tiles(src, ss) && AllOk(ss) && End(ss, 0) <= |src| && |src| + HEADER_SIZE < U32_LIMIT
    requires TotalSize(src, ss) < |src|
    ensures Decoded(Stream(src, ss), |src|) == Ok(src)
  {
    hide DecodeFrom, SeqsBytes, SeqsSize, AllLiterals, Tiles, LE, LEVal;
    SequencesFew(src, ss);
    StreamFields(src, ss);
    TilesDecode(src, ss, 0);
    assert ss[0..] == ss && ss[..0] == [];
    assert src[..0] == [];
  }

  lemma LiteralRoundTrip(src: seq<byte>)
    requires |src| + HEADER_SIZE < U32_LIMIT
    ensures Decoded(LiteralStream(src), |src|) == Ok(src)
  {
    LEFieldRoundTrip(0, 4);
    LEFieldRoundTrip(|src|, 4);
    var b := LiteralStream(src);
    assert b[0..4] == LE(0, 4) && b[4..8] == LE(|src|, 4) && b[|b| - |src|..] == src;
    assert [] + src[0..|src|] == src;
  }

  /* ---- Sizes that cannot wrap -------------------------------------------- */

  lemma {:induction false} LebSizeBound(v: nat, n: nat)
    requires v < Pow2(7 * n) && n >= 1
    ensures LebSize(v) <= n
  {
    if v >= 128 {
      Pow2Values();
      assert Pow2(7 * 1) == 128;
      Pow2Add(7, 7 * (n - 1));
      assert 7 * n == 7 + 7 * (n - 1);
      DivBelow(v, 128, Pow2(7 * (n - 1)));
      LebSizeBound(v / 128, n - 1);
    }
  }

  /** An offset takes at most six bytes, and the extra bytes of a match length at most five. */
  lemma SeqSizeBound(s: LzSeq)
    requires SeqOk(s) && s.len < U32_LIMIT
    ensures OffsetSize(s.off) <= 6 && (s.len >= 18 ==> LebSize(s.len - 18) <= 5)
    ensures 3 * (SeqSize(s) + s.lit) <= 7 * (s.len + s.lit)
    ensures s.len > MIN_MATCH ==> 4 * (SeqSize(s) + s.lit) <= 7 * (s.len + s.lit)
  {
    Pow2Values();
    Pow2Monotone(32, 35);
    Pow2Add(7, 16);
    Pow2Monotone(23, 28);
    if s.off > 65535 { LebSizeBound(s.off - 65536, 4); }
    if s.len >= 18 { LebSizeBound(s.len - 18, 5); }
  }

  /** A match that gains a byte costs no more than it covers, but for the long literal runs before it. */
  lemma KeptSizeBound(s: LzSeq)
    requires SeqOk(s) && s.len < U32_LIMIT && Kept(s, 1)
    ensures 255 * (SeqSize(s) + s.lit) <= 256 * (s.len + s.lit)
  {
    SeqSizeBound(s);
    hide LebSize, OffsetSize;
    assert s.lit >= 15 ==> 255 * ((s.lit - 15) / 255) <= s.lit - 15;
  }

  lemma {:induction false} SeqsSnoc(ss: seq<LzSeq>, s: LzSeq)
    requires AllOk(ss) && SeqOk(s)
    ensures AllOk(ss + [s]) && SeqsBytes(ss + [s]) == SeqsBytes(ss) + SeqBytes(s)
    ensures SeqsSize(ss + [s]) == SeqsSize(ss) + SeqSize(s)
  {
    SizeIsExact(s);
    if ss == [] {
      assert [s][1..] == [];
    } else {
      SeqsSnoc(ss[1..], s);
      assert (ss + [s])[1..] == ss[1..] + [s];
      ConcatAssociative(SeqBytes(ss[0]), SeqsBytes(ss[1..]), SeqBytes(s));
    }
  }

  /**
   * The bytes of a tiling's stream, against those it covers; the other bounds are for matches of four bytes or
   * more, and for matches that gain.
   */
  lemma {:induction false} TotalBound(src: seq<byte>, ss: seq<LzSeq>)
    requires Tiles(src, ss) && AllOk(ss) && |src| < U32_LIMIT
    ensures End(ss, 0) <= |src| && 3 * (SeqsSize(ss) + |Literals(src, ss)|) <= 7 * End(ss, 0)
    ensures AllLong(ss) ==> 4 * (SeqsSize(ss) + |Literals(src, ss)|) <= 7 * End(ss, 0)
    ensures AllKept(ss, 1) ==> 255 * (SeqsSize(ss) + |Literals(src, ss)|) <= 256 * End(ss, 0)
  {
    TilesInside(src, ss);
    if ss != [] {
      hide SeqSize, Kept, Literals, SeqsSize;
      var front, s := ss[..|ss| - 1], ss[|ss| - 1];
      TotalBound(src, front);
      SeqSizeBound(s);
      TotalStep(src, ss);
      if AllKept(ss, 1) {
        KeptSizeBound(s);
      }
    }
  }

  lemma TotalStep(src: seq<byte>, ss: seq<LzSeq>)
    requires Tiles(src, ss) && AllOk(ss) && ss != []
    ensures var front, s := ss[..|ss| - 1], ss[|ss| - 1];
            && Tiles(src, front) && AllOk(front) && End(front, 0) <= End(ss, 0) <= |src|
            && SeqsSize(ss) == SeqsSize(front) + SeqSize(s)
            && |Literals(src, ss)| == |Literals(src, front)| + s.lit
  {
    hide SeqSize, IsMatch, SeqsSize;
    var front, s := ss[..|ss| - 1], ss[|ss| - 1];
    TilesInside(src, ss);
    TilesInside(src, front);
    LastSplit(ss);
    SeqsSnoc(front, s);
  }

  /** Input sizes for which the totals of no parse at this level reach 2^32. */
  predicate SizeFits(size: nat, level: int)
  {
    if LevelParams(level) == (0, 0) then 7 * size < 4 * (U32_LIMIT - HEADER_SIZE)
    else 256 * size < 255 * (U32_LIMIT - HEADER_SIZE)
  }

  lemma SizeNeverWraps(src: seq<byte>, ss: seq<LzSeq>, level: int)
    requires Tiles(src, ss) && AllOk(ss) && End(ss, 0) <= |src| < U32_LIMIT
    requires if LevelParams(level) == (0, 0) then AllLong(ss) else AllKept(ss, 1)
    ensures SizeFits(|src|, level) ==> TotalSize(src, ss) < U32_LIMIT
    ensures |src| <= 0x8000_0000 ==> SizeFits(|src|, level)
    ensures ss == [] ==> TotalSize(src, ss) == |src| + HEADER_SIZE
  {
    hide Tiles, Literals, SeqsSize, LevelParams, AllKept, AllLong;
    TotalBound(src, ss);
    if ss == [] {
      NoSequencesSize(src);
    }
  }

  lemma NoSequencesSize(src: seq<byte>)
    ensures TotalSize(src, []) == |src| + HEADER_SIZE
  {
  }

  /* ---- The stream in the decoder ----------------------------------------- */

  lemma LiteralNoTrouble(src: seq<byte>)
    requires |src| + HEADER_SIZE < U32_LIMIT
    ensures forall avx2 :: InputTrouble(LiteralStream(src), |src|, avx2) == Nothing
  {
    LEFieldRoundTrip(0, 4);
    LEFieldRoundTrip(|src|, 4);
    var b := LiteralStream(src);
    assert b[0..4] == LE(0, 4) && b[4..8] == LE(|src|, 4);
  }

  /** No match is so long that the doubling copy of the safe path goes past it. */
  predicate AllCopy(ss: seq<LzSeq>)
  {
    forall i {:trigger ss[i]} :: 0 <= i < |ss| ==> CopyTrouble(ss[i].off, ss[i].len) == Nothing
  }

  /** From before any sequence of a tiling on, neither path meets trouble. */
  lemma {:induction false} TilesScan(src: seq<byte>, ss: seq<LzSeq>, i: nat, avx2: bool, fast: bool)
    requires Tiles(src, ss) && AllOk(ss) && AllCopy(ss) && |src| + Slack(true) < U32_LIMIT && i <= |ss|
    ensures End(ss[..i], 0) <= |src| && End(ss, 0) <= |src|
    ensures |Literals(src, ss[..i])| <= |AllLiterals(src, ss)|
    ensures Scan(SeqsBytes(ss[i..]), End(ss[..i], 0), |Literals(src, ss[..i])|, |ss| - i,
                 Frame(|src|, |AllLiterals(src, ss)|, avx2), fast) == Nothing
    decreases |ss| - i
  {
    hide Scan, SeqBytes, ReadSeq, IsMatch, Tiles, End, Literals, CopyTrouble;
    PrefixFacts(src, ss, i);
    var f := Frame(|src|, |AllLiterals(src, ss)|, avx2);
    if i == |ss| {
      ScanEnds(SeqsBytes(ss[i..]), End(ss[..i], 0), |Literals(src, ss[..i])|, 0, f, fast);
    } else {
      TilesScan(src, ss, i + 1, avx2, true);
      TilesScan(src, ss, i + 1, avx2, false);
      OneScans(src, ss, i, f, fast);
    }
  }

  lemma OneScans(src: seq<byte>, ss: seq<LzSeq>, i: nat, f: Frame, fast: bool)
    requires Tiles(src, ss) && AllOk(ss) && AllCopy(ss) && |src| + Slack(true) < U32_LIMIT && i < |ss|
    requires End(ss[..i], 0) <= |src| && End(ss, 0) <= |src| && End(ss[..i + 1], 0) <= |src|
    requires f.size == |src| && f.litSize == |AllLiterals(src, ss)|
    requires |Literals(src, ss[..i])| <= f.litSize && |Literals(src, ss[..i + 1])| <= f.litSize
    requires var b, dp, lp := SeqsBytes(ss[i + 1..]), End(ss[..i + 1], 0), |Literals(src, ss[..i + 1])|;
             Scan(b, dp, lp, |ss| - i - 1, f, true) == Scan(b, dp, lp, |ss| - i - 1, f, false) == Nothing
    ensures Scan(SeqsBytes(ss[i..]), End(ss[..i], 0), |Literals(src, ss[..i])|, |ss| - i, f, fast) == Nothing
  {
    hide Scan, SafeScan, SeqBytes, ReadSeq, IsMatch, Tiles, End, Literals, AllLiterals, CopyTrouble;
    var s, e, lp := ss[i], End(ss[..i], 0), |Literals(src, ss[..i])|;
    var rest := SeqsBytes(ss[i + 1..]);
    SeqAt(src, ss, i);
    LiteralsAt(src, ss, i);
    MatchInside(src, e + s.lit, s.len, s.off);
    assert ss[i..][1..] == ss[i + 1..] && ss[i..][0] == s;
    SeqReads(s, rest);
    ScanStep(SeqsBytes(ss[i..]), e, lp, |ss| - i, f, fast, s, rest);
    if Passes(s, e, lp, f) { InsideNoTrouble(s, e, lp, f); }
    SafeScanStep(s, rest, e, lp, |ss| - i, f, s.lit);
  }

  /** The decoder has no trouble with the stream of an input up to 2 GiB. */
  lemma StreamNoTrouble(src: seq<byte>, ss: seq<LzSeq>)
    requires Tiles(src, ss) && AllOk(ss) && End(ss, 0) <= |src| <= 0x8000_0000
    requires TotalSize(src, ss) < U32_LIMIT
    ensures forall avx2 :: InputTrouble(Stream(src, ss), |src|, avx2) == Nothing
  {
    hide Scan, SeqsBytes, SeqsSize, AllLiterals, Tiles, LE, LEVal;
    SequencesFew(src, ss);
    StreamFields(src, ss);
    forall i | 0 <= i < |ss|
      ensures CopyTrouble(ss[i].off, ss[i].len) == Nothing
    {
      SeqAt(src, ss, i);
      MatchInside(src, End(ss[..i], 0) + ss[i].lit, ss[i].len, ss[i].off);
      ShortCopies(ss[i].off, ss[i].len);
    }
    assert ss[0..] == ss && ss[..0] == [];
    forall avx2: bool
      ensures InputTrouble(Stream(src, ss), |src|, avx2) == Nothing
    {
      TilesScan(src, ss, 0, avx2, true);
    }
  }

  /* ---- An input that is written and does not come back ------------------- */

  function Zeros(n: nat): (s: seq<byte>)
    ensures |s| == n && forall i :: 0 <= i < n ==> s[i] == 0
  {
    seq(n, _ => 0)
  }

  lemma {:induction false} DoublingMeets(k: nat, n: nat)
    requires k <= 31 && n > 0x8000_0000
    ensures 0 < Pow2(k) <= 0x8000_0000 && DoublesPast(Pow2(k), n)
    decreases 31 - k
  {
    assert Pow2(31) == 0x8000_0000 by {
      Pow2Values();
      assert Pow2(32) == 2 * Pow2(31);
    }
    Pow2Monotone(k, 31);
    if k < 31 {
      DoublingMeets(k + 1, n);
    }
  }

  /**
   * 2^31 + 2 zero bytes, parsed as one literal and one match: the stream is a faithful one, but the safe path's
   * doubling copy passes the end of the output.
   */
  lemma LongRunOverruns(avx2: bool)
    ensures var src, ss := Zeros(0x8000_0002), [LzSeq(1, 0x8000_0001, 1)];
            && Tiles(src, ss) && AllOk(ss) && End(ss, 0) == |src| && TotalSize(src, ss) < |src|
            && Decoded(Stream(src, ss), |src|) == Ok(src)
            && InputTrouble(Stream(src, ss), |src|, avx2) == Overrun
  {
    var src, s := Zeros(0x8000_0002), LzSeq(1, 0x8000_0001, 1);
    ZerosTile(src, s);
    ZerosSize(src, s);
    hide Tiles, AllOk, End, Literals, Decoded, SeqsSize, SeqsBytes, Zeros;
    StreamRoundTrip(src, [s]);
    ZerosScan(src, s, avx2);
  }

  lemma ZerosTile(src: seq<byte>, s: LzSeq)
    requires src == Zeros(0x8000_0002) && s == LzSeq(1, 0x8000_0001, 1)
    ensures Tiles(src, [s]) && AllOk([s]) && End([s], 0) == |src| && End([], 0) == 0
    ensures |Literals(src, [s])| == 1 && |AllLiterals(src, [s])| == 1
  {
    assert [s][..0] == [];
    assert Literals(src, []) == [];
    forall k | 1 <= k < |src|
      ensures SameAt(src, k, 1)
    {
    }
  }

  lemma ZerosSize(src: seq<byte>, s: LzSeq)
    requires |src| == 0x8000_0002 && s == LzSeq(1, 0x8000_0001, 1)
    requires AllOk([s]) && End([s], 0) == |src| && |AllLiterals(src, [s])| == 1
    ensures SeqsSize([s]) == SeqSize(s) <= 100 && SeqsBytes([s]) == SeqBytes(s) + [] && TotalSize(src, [s]) < |src|
  {
    hide AllLiterals;
    SeqSizeBound(s);
    assert [s][1..] == [];
    assert SeqsBytes([]) == [];
  }

  lemma ZerosScan(src: seq<byte>, s: LzSeq, avx2: bool)
    requires |src| == 0x8000_0002 && s == LzSeq(1, 0x8000_0001, 1)
    requires AllOk([s]) && End([s], 0) == |src| && |AllLiterals(src, [s])| == 1
    requires SeqsBytes([s]) == SeqBytes(s) + [] && TotalSize(src, [s]) < |src|
    ensures InputTrouble(Stream(src, [s]), |src|, avx2) == Overrun
  {
    hide Scan, SafeScan, SeqBytes, SeqsBytes, SeqsSize, AllLiterals, LE, LEVal, ReadSeq, AllOk, End, DoublesPast;
    StreamFields(src, [s]);
    SeqReads(s, []);
    var f := Frame(|src|, 1, avx2);
    ScanStep(SeqsBytes([s]), 0, 0, 1, f, true, s, []);
    SafeScanStep(s, [], 0, 0, 1, f, 1);
    DoublingMeets(0, s.len);
  }

  /* ---- Serializer -------------------------------------------------------- */

  method WriteChained(p0: seq<byte>, v: nat) returns (p: seq<byte>)
    ensures p == p0 + Chained(v)
  {
    p := p0;
    var extra := v;
    while extra >= 255
      invariant p + Chained(extra) == p0 + Chained(v)
    {
      ConcatAssociative(p, [255], Chained(extra - 255));
      p := p + [255];
      extra := extra - 255;
    }
    p := p + [extra];
  }

  method WriteLeb(p0: seq<byte>, v: nat) returns (p: seq<byte>)
    ensures p == p0 + Leb(v)
  {
    p := p0;
    var extra := v;
    while extra >= 128
      invariant p + Leb(extra) == p0 + Leb(v)
    {
      ConcatAssociative(p, [extra % 128 + 128], Leb(extra / 128));
      p := p + [extra % 128 + 128];
      extra := extra / 128;
    }
    p := p + [extra];
  }

  /** One packed sequence header. */
  method WriteSeq(p0: seq<byte>, s: LzSeq) returns (p: seq<byte>)
    requires SeqOk(s)
    ensures p == p0 + SeqBytes(s)
  {
    hide Leb, Chained, LE;
    var m3 := s.len - MIN_MATCH;
    p := p0 + [16 * Min(s.lit, 15) + Min(m3, 15)];
    if s.lit >= 15 {
      p := WriteChained(p, s.lit - 15);
    }
    assert p == p0 + ([Tag(s.lit, m3)] + LitExt(s.lit));
    if m3 >= 15 {
      p := WriteLeb(p, m3 - 15);
    }
    assert p == p0 + ([Tag(s.lit, m3)] + LitExt(s.lit) + LenExt(m3));
    if s.off <= 65535 {
      p := p + LE(s.off - 1, 2);
    } else {
      p := p + [255, 255];
      p := WriteLeb(p, s.off - 65536);
    }
  }

  /** Checks the sequences and adds up their sizes, in 32 bits. */
  method CheckSeqs(src: seq<byte>, ss: seq<LzSeq>) returns (ok: bool, size: nat, lit: nat, consumed: nat)
    ensures ok <==> AllOk(ss)
    ensures ok ==> size == LowU32(SeqsSize(ss)) && consumed == LowU32(End(ss, 0))
    ensures ok && End(ss, 0) <= |src| ==> lit == LowU32(|Literals(src, ss)|)
  {
    hide SeqSize, LowU32, SeqsSize, End, Literals;
    size, lit, consumed := 0, 0, 0;
    NothingLow(src);
    assert ss[..0] == [];
    for i := 0 to |ss|
      invariant AllOk(ss[..i]) && size == LowU32(SeqsSize(ss[..i])) && consumed == LowU32(End(ss[..i], 0))
      invariant End(ss[..i], 0) <= |src| ==> lit == LowU32(|Literals(src, ss[..i])|)
    {
      if ss[i].len < MIN_MATCH || ss[i].off == 0 || ss[i].off > MAX_OFFSET {
        return false, size, lit, consumed;
      }
      assert ss[..i + 1] == ss[..i] + [ss[i]];
      CheckStep(src, ss[..i], ss[i]);
      size := LowU32(size + SeqSize(ss[i]));
      lit := LowU32(lit + ss[i].lit);
      consumed := LowU32(consumed + ss[i].lit + ss[i].len);
    }
    assert ss[..|ss|] == ss;
    ok := true;
  }

  lemma NothingLow(src: seq<byte>)
    ensures AllOk([]) && LowU32(0) == 0 && SeqsSize([]) == 0 && End([], 0) == 0 && Literals(src, []) == []
  {
  }

  lemma CheckStep(src: seq<byte>, ss: seq<LzSeq>, s: LzSeq)
    requires AllOk(ss) && MIN_MATCH <= s.len && 1 <= s.off <= MAX_OFFSET
    ensures SeqOk(s) && AllOk(ss + [s]) && LowU32(SeqsSize(ss + [s])) == LowU32(LowU32(SeqsSize(ss)) + SeqSize(s))
    ensures LowU32(End(ss + [s], 0)) == LowU32(LowU32(End(ss, 0)) + s.lit + s.len) && End(ss, 0) <= End(ss + [s], 0)
    ensures End(ss + [s], 0) <= |src| ==>
              LowU32(|Literals(src, ss + [s])|) == LowU32(LowU32(|Literals(src, ss)|) + s.lit)
  {
    hide SeqSize, LowU32, SeqsSize;
    assert (ss + [s])[..|ss|] == ss;
    SeqsSnoc(ss, s);
    LowAdd(SeqSize(s), SeqsSize(ss));
    LowAdd(s.lit + s.len, End(ss, 0));
    if End(ss + [s], 0) <= |src| { LowAdd(s.lit, |Literals(src, ss)|); }
  }

  /** The literal runs between the matches, and what follows the last. */
  method WriteLiterals(p0: seq<byte>, src: seq<byte>, ss: seq<LzSeq>) returns (p: seq<byte>)
    requires End(ss, 0) <= |src|
    ensures p == p0 + AllLiterals(src, ss)
  {
    p := p0;
    var pos := 0;
    for i := 0 to |ss|
      invariant End(ss[..i], 0) <= End(ss, 0) && pos == End(ss[..i], 0) && p == p0 + Literals(src, ss[..i])
    {
      assert ss[..i + 1][..i] == ss[..i];
      EndMonotone(ss, i + 1);
      p := p + src[pos..pos + ss[i].lit];
      pos := pos + ss[i].lit + ss[i].len;
    }
    assert ss[..|ss|] == ss;
    p := p + src[pos..];
  }

  lemma {:induction false} EndMonotone(ss: seq<LzSeq>, i: nat)
    requires i <= |ss|
    ensures End(ss[..i], 0) <= End(ss, 0)
    decreases |ss|
  {
    if i < |ss| {
      EndMonotone(ss[..|ss| - 1], i);
      assert ss[..|ss| - 1][..i] == ss[..i];
    } else {
      assert ss[..i] == ss;
    }
  }

  /** How the serializer ends: with a result, or writing past a buffer reserved for a total that wrapped. */
  datatype Writing = Wrote(r: Result<seq<byte>>) | Overran

  /** The wrapped total is too small for the stream and yet promises a gain. */
  predicate TotalWraps(src: seq<byte>, ss: seq<LzSeq>)
    requires AllOk(ss) && End(ss, 0) <= |src|
  {
    TotalSize(src, ss) >= U32_LIMIT && LowU32(TotalSize(src, ss)) < |src|
  }

  lemma TotalsLow(src: seq<byte>, ss: seq<LzSeq>, size: nat, lit: nat)
    requires AllOk(ss) && End(ss, 0) <= |src| && size == LowU32(SeqsSize(ss)) && lit == LowU32(|Literals(src, ss)|)
    ensures LowU32(HEADER_SIZE + size + LowU32(lit + (|src| - End(ss, 0)))) == LowU32(TotalSize(src, ss))
  {
    hide LowU32, SeqsSize, Literals;
    var t := |src| - End(ss, 0);
    LowAdd(t, |Literals(src, ss)|);
    LowAdd(HEADER_SIZE + size, |Literals(src, ss)| + t);
    LowAdd(HEADER_SIZE + |Literals(src, ss)| + t, SeqsSize(ss));
  }

  /**
   * Writes a parse, or the input as literals when the parse gains nothing. The sequences come from a parser,
   * so the bytes they cover do not wrap; the totals may, and then the writes are stopped at what was reserved.
   */
  method Serialize(src: seq<byte>, ss: seq<LzSeq>) returns (w: Writing)
    requires |src| < U32_LIMIT && End(ss, 0) < U32_LIMIT
    ensures w == if !AllOk(ss) || End(ss, 0) > |src| then Wrote(Err(Corrupt))
                 else if TotalWraps(src, ss) then Overran
                 else if LowU32(TotalSize(src, ss)) >= |src| then Wrote(Ok(LiteralStream(src)))
                 else Wrote(Ok(Stream(src, ss)))
  {
    hide Literals, SeqsBytes, LE;
    var ok, size, lit, consumed := CheckSeqs(src, ss);
    if !ok || consumed > |src| {
      return Wrote(Err(Corrupt));
    }
    TotalsLow(src, ss, size, lit);
    var totalLit := LowU32(lit + (|src| - consumed));
    var total := LowU32(HEADER_SIZE + size + totalLit);
    if total >= |src| {
      return Wrote(Ok(LiteralStream(src)));
    }
    var p := LE(|ss|, 4) + LE(totalLit, 4);
    p := WriteSeqs(p, ss);
    p := WriteLiterals(p, src, ss);
    if |p| > total {
      return Overran;
    }
    LiteralsFit(src, ss, lit, totalLit);
    w := Wrote(Ok(p));
  }

  lemma LiteralsFit(src: seq<byte>, ss: seq<LzSeq>, lit: nat, totalLit: nat)
    requires AllOk(ss) && End(ss, 0) <= |src| && TotalSize(src, ss) < U32_LIMIT
    requires lit == LowU32(|Literals(src, ss)|) && totalLit == LowU32(lit + (|src| - End(ss, 0)))
    ensures totalLit == |AllLiterals(src, ss)|
  {
    hide Literals, SeqsSize, AllOk;
    assert |AllLiterals(src, ss)| == |Literals(src, ss)| + (|src| - End(ss, 0));
  }

  method WriteSeqs(p0: seq<byte>, ss: seq<LzSeq>) returns (p: seq<byte>)
    requires AllOk(ss)
    ensures p == p0 + SeqsBytes(ss)
  {
    p := p0;
    for i := 0 to |ss|
      invariant AllOk(ss[..i]) && p == p0 + SeqsBytes(ss[..i])
    {
      assert ss[..i + 1] == ss[..i] + [ss[i]];
      SeqsSnoc(ss[..i], ss[i]);
      ghost var before := p;
      p := WriteSeq(p, ss[i]);
      ConcatAssociative(p0, SeqsBytes(ss[..i]), SeqBytes(ss[i]));
    }
    assert ss[..|ss|] == ss;
  }

  /* ---- Encoder ----------------------------------------------------------- */

  const SINGLE_MIN_GAIN: nat := 1

  /** The positions of the parsers go up to 64 past the end of the input. */
  const POSITION_MARGIN: nat := 64

  function SearchParams(level: int): Params
  {
    var (chainDepth, lazyDepth) := LevelParams(level);
    Params(chainDepth, lazyDepth, SINGLE_MIN_GAIN)
  }

  lemma SizeOfEqual(n: nat)
    requires 5 <= n < U32_LIMIT
    ensures SeqsSize([LzSeq(1, n - 1, 1)]) <= 8
  {
    SeqSizeBound(LzSeq(1, n - 1, 1));
    assert [LzSeq(1, n - 1, 1)][1..] == [];
  }

  /** Equal bytes, however many, come to 17 bytes at any level. */
  lemma EqualBytesSize(src: seq<byte>, level: int, ss: seq<LzSeq>)
    requires Parsed(src, SearchParams(level), ss) && AllEqual(src) && 17 < |src| < NONE
    ensures Tiles(src, ss) && AllOk(ss) && End(ss, 0) <= |src| && TotalSize(src, ss) <= 17
  {
    hide Parsed, Tiles, SeqsSize;
    ParsedTiles(src, SearchParams(level), ss);
    TilesInside(src, ss);
    EqualBytes(src, SearchParams(level), ss);
    SizeOfEqual(|src|);
    assert ss[..0] == [];
  }

  /**
   * The encoder at any level. It writes the parse of the level's search, or the input as literals where that
   * is no shorter. What it writes decodes to the input and is at most eight bytes longer, unless the totals of
   * the parse wrap, which they do for no parse of an input whose size fits the level. Up to 2 GiB the decoder
   * has no trouble with it.
   */
  method Encode(src: seq<byte>, level: int) returns (w: Writing, ghost ss: seq<LzSeq>)
    requires |src| >= U32_LIMIT || |src| + POSITION_MARGIN < U32_LIMIT
    ensures |src| >= U32_LIMIT ==> w == Wrote(Err(Invalid))
    ensures |src| < U32_LIMIT ==>
              && Parsed(src, SearchParams(level), ss) && Tiles(src, ss) && AllOk(ss) && End(ss, 0) <= |src|
              && (w == Overran <==> TotalWraps(src, ss))
              && (SizeFits(|src|, level) ==> w == Wrote(Ok(Serialized(src, ss))))
              && (|src| <= 0x8000_0000 ==> SizeFits(|src|, level))
    ensures 17 < |src| < U32_LIMIT && AllEqual(src) ==> w.Wrote? && w.r.Ok? && |w.r.value| <= 17
    ensures |src| < U32_LIMIT && w.Wrote? ==>
              && w.r.Ok? && |w.r.value| <= |src| + HEADER_SIZE && Decoded(w.r.value, |src|) == Ok(src)
              && (|src| <= 0x8000_0000 ==> forall avx2 :: InputTrouble(w.r.value, |src|, avx2) == Nothing)
  {
    hide Decoded, Literals, Tiles, InputTrouble, Parsed, AllKept, AllLong, SeqsSize, AllEqual;
    if |src| >= U32_LIMIT {
      ss := [];
      return Wrote(Err(Invalid)), ss;
    }
    var (chainDepth, lazyDepth) := LevelParams(level);
    var seqs := ParseGreedy(src, chainDepth, lazyDepth, SINGLE_MIN_GAIN);
    ss := seqs;
    ParsedTiles(src, SearchParams(level), seqs);
    TilesInside(src, seqs);
    if AllEqual(src) && |src| > 17 { EqualBytesSize(src, level, seqs); }
    LiteralRoundTrip(src);
    LiteralNoTrouble(src);
    SizeNeverWraps(src, seqs, level);
    if seqs == [] {
      return Wrote(Ok(LiteralStream(src))), ss;
    }
    if LowU32(TotalSize(src, seqs)) < |src| && !TotalWraps(src, seqs) {
      StreamRoundTrip(src, seqs);
      if |src| <= 0x8000_0000 { StreamNoTrouble(src, seqs); }
    }
    w := Serialize(src, seqs);
  }
}
