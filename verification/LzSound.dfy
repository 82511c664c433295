/**
 * What the LZ decoding means beyond the round trip (src/entropy/lz.c): decoding to a smaller size gives the
 * front of the output, a stream of the encoder decodes to sizes up to its input's and to no larger one, and one
 * that was cut short is refused.
 */
module LzSound {
  import opened Base
  import opened LzFormat
  import opened LzCopy
  import opened LzDecode
  import opened LzMatch
  import opened LzRun
  import opened Lz

  /* ---- Smaller sizes ----------------------------------------------------- */

  /** Decoding only adds to the output, and fills it. */
  lemma {:induction false} Grows(b: seq<byte>, lits: seq<byte>, out: seq<byte>, lp: nat, left: nat, size: nat)
    requires lp <= |lits| && |out| <= size
    ensures var r := DecodeFrom(b, lits, out, lp, left, size); r.Ok? ==> |r.value| == size && out <= r.value
    decreases left
  {
    hide DecodeFrom, ReadSeq, Extended, Copied, Trail;
    if left == 0 || |out| == size {
      NoMore(b, lits, out, lp, left, size);
      TrailGrows(lits, out, lp, size);
    } else if ReadSeq(b).None? {
      Unreadable(b, lits, out, lp, left, size);
    } else {
      var (s, rest) := ReadSeq(b).value;
      var ll := Min(Min(s.lit, size - |out|), |lits| - lp);
      SafeStep(b, lits, out, lp, left, size, s, rest, ll);
      var out1 := out + lits[lp..lp + ll];
      if |out1| == size {
        Grows(rest, lits, out1, lp + ll, left - 1, size);
      } else if !(s.off > |out1| || (s.off == 0 && s.len > 0)) {
        var n := Min(s.len, size - |out1|);
        CopiedExtends(out1, s.off, n);
        Grows(rest, lits, Copied(out1, s.off, n), lp + ll, left - 1, size);
      }
    }
  }

  lemma TrailGrows(lits: seq<byte>, out: seq<byte>, lp: nat, size: nat)
    requires lp <= |lits| && |out| <= size
    ensures var r := Trail(lits, out, lp, size); r.Ok? ==> |r.value| == size && out <= r.value
  {
  }

  lemma CopiedExtends(out: seq<byte>, off: nat, n: nat)
    requires n == 0 || 1 <= off <= |out|
    ensures out <= Copied(out, off, n)
  {
  }

  lemma CopiedStep(out: seq<byte>, off: nat, n: nat)
    requires n > 0 && 1 <= off <= |out|
    ensures Copied(out, off, n - 1) <= Copied(out, off, n)
  {
  }

  /** A shorter copy is the front of a longer one. */
  lemma {:induction false} CopiedFront(out: seq<byte>, off: nat, m: nat, n: nat)
    requires m <= n && (n == 0 || 1 <= off <= |out|)
    ensures Copied(out, off, m) <= Copied(out, off, n)
    decreases n
  {
    if m < n {
      hide Extended;
      CopiedFront(out, off, m, n - 1);
      CopiedStep(out, off, n);
    }
  }

  /** A full output is the result. */
  lemma FullIs(b: seq<byte>, lits: seq<byte>, out: seq<byte>, lp: nat, left: nat, size: nat)
    requires lp <= |lits| && |out| == size
    ensures DecodeFrom(b, lits, out, lp, left, size) == Ok(out)
  {
    NoMore(b, lits, out, lp, left, size);
    assert out + lits[lp..lp] == out;
  }

  lemma Front(a: seq<byte>, r: seq<byte>, k: nat)
    requires a <= r && |a| == k
    ensures r[..k] == a
  {
  }

  lemma {:induction false} FrontFrom(b: seq<byte>, lits: seq<byte>, out: seq<byte>, lp: nat, left: nat, size: nat,
                                     k: nat)
    requires lp <= |lits| && |out| <= k <= size
    ensures var r := DecodeFrom(b, lits, out, lp, left, size);
            r.Ok? ==> |r.value| == size && DecodeFrom(b, lits, out, lp, left, k) == Ok(r.value[..k])
    decreases left, 1
  {
    Grows(b, lits, out, lp, left, size);
    var r := DecodeFrom(b, lits, out, lp, left, size);
    if r.Ok? {
      if |out| == k {
        FullIs(b, lits, out, lp, left, k);
        Front(out, r.value, k);
      } else if left == 0 {
        NoMore(b, lits, out, lp, left, size);
        NoMore(b, lits, out, lp, left, k);
        var t := lits[lp..lp + Min(|lits| - lp, size - |out|)];
        assert (out + t)[..k] == out + lits[lp..lp + (k - |out|)];
      } else {
        FrontStep(b, lits, out, lp, left, size, k);
      }
    }
  }

  lemma FrontStep(b: seq<byte>, lits: seq<byte>, out: seq<byte>, lp: nat, left: nat, size: nat, k: nat)
    requires lp <= |lits| && |out| < k <= size && left > 0
    requires DecodeFrom(b, lits, out, lp, left, size).Ok?
    ensures var r := DecodeFrom(b, lits, out, lp, left, size).value;
            |r| == size && DecodeFrom(b, lits, out, lp, left, k) == Ok(r[..k])
    decreases left, 0
  {
    hide DecodeFrom, ReadSeq, Extended, Copied;
    if ReadSeq(b).None? { Unreadable(b, lits, out, lp, left, size); }
    var (s, rest) := ReadSeq(b).value;
    var ll, lk := Min(Min(s.lit, size - |out|), |lits| - lp), Min(Min(s.lit, k - |out|), |lits| - lp);
    SafeStep(b, lits, out, lp, left, size, s, rest, ll);
    SafeStep(b, lits, out, lp, left, k, s, rest, lk);
    var out1 := out + lits[lp..lp + ll];
    if |out| + lk == k {
      var outk := out + lits[lp..lp + lk];
      assert outk <= out1;
      FullIs(rest, lits, outk, lp + lk, left - 1, k);
      EndsIn(rest, lits, out1, lp + ll, left - 1, size, s);
      Front(outk, DecodeFrom(b, lits, out, lp, left, size).value, k);
    } else {
      FrontMatch(rest, lits, out1, lp + ll, left - 1, size, k, s);
    }
  }

  /** The match of a sequence whose literals stay below the smaller size. */
  lemma FrontMatch(rest: seq<byte>, lits: seq<byte>, out1: seq<byte>, lp: nat, left: nat, size: nat, k: nat, s: LzSeq)
    requires lp <= |lits| && |out1| < k <= size && !(s.off > |out1| || (s.off == 0 && s.len > 0))
    requires DecodeFrom(rest, lits, Copied(out1, s.off, Min(s.len, size - |out1|)), lp, left, size).Ok?
    ensures var r := DecodeFrom(rest, lits, Copied(out1, s.off, Min(s.len, size - |out1|)), lp, left, size).value;
            && |r| == size
            && DecodeFrom(rest, lits, Copied(out1, s.off, Min(s.len, k - |out1|)), lp, left, k) == Ok(r[..k])
    decreases left, 2
  {
    hide DecodeFrom, Extended, Copied;
    var n, m := Min(s.len, size - |out1|), Min(s.len, k - |out1|);
    var outn, outm := Copied(out1, s.off, n), Copied(out1, s.off, m);
    if |out1| + m == k {
      CopiedFront(out1, s.off, m, n);
      FullIs(rest, lits, outm, lp, left, k);
      Grows(rest, lits, outn, lp, left, size);
      Front(outm, DecodeFrom(rest, lits, outn, lp, left, size).value, k);
    } else {
      FrontFrom(rest, lits, outn, lp, left, size, k);
    }
  }

  lemma EndsIn(rest: seq<byte>, lits: seq<byte>, out1: seq<byte>, lp: nat, left: nat, size: nat, s: LzSeq)
    requires lp <= |lits| && |out1| <= size
    ensures var r := DecodeFrom(rest, lits, out1, lp, left, size); r.Ok? ==> |r.value| == size && out1 <= r.value
    ensures |out1| < size && !(s.off > |out1| || (s.off == 0 && s.len > 0)) ==>
              var r := DecodeFrom(rest, lits, Copied(out1, s.off, Min(s.len, size - |out1|)), lp, left, size);
              r.Ok? ==> |r.value| == size && out1 <= r.value
  {
    hide DecodeFrom, Extended;
    Grows(rest, lits, out1, lp, left, size);
    if |out1| < size && !(s.off > |out1| || (s.off == 0 && s.len > 0)) {
      var n := Min(s.len, size - |out1|);
      CopiedExtends(out1, s.off, n);
      Grows(rest, lits, Copied(out1, s.off, n), lp, left, size);
    }
  }

  /** Whatever decodes to some size decodes to any smaller one, as the front of the same output. */
  lemma DecodedFront(src: seq<byte>, size: nat, k: nat)
    requires k <= size && Decoded(src, size).Ok?
    ensures |Decoded(src, size).value| == size && Decoded(src, k) == Ok(Decoded(src, size).value[..k])
  {
    hide DecodeFrom, LEVal;
    var litSize := LEVal(src[4..8]);
    FrontFrom(src[HEADER_SIZE..|src| - litSize], src[|src| - litSize..], [], 0, LEVal(src[0..4]), size, k);
  }

  /* ---- Larger sizes ------------------------------------------------------ */

  /** One sequence of a tiling, decoded to a size that is no smaller than its input's. */
  lemma OneDecodesAt(src: seq<byte>, ss: seq<LzSeq>, i: nat, size: nat)
    requires Tiles(src, ss) && AllOk(ss) && |src| < U32_LIMIT && i < |ss| && |src| <= size
    ensures End(ss[..i], 0) <= |src| && End(ss, 0) <= |src| && End(ss[..i + 1], 0) <= |src|
    ensures |Literals(src, ss[..i])| <= |AllLiterals(src, ss)|
            && |Literals(src, ss[..i + 1])| <= |AllLiterals(src, ss)|
    ensures DecodeFrom(SeqsBytes(ss[i..]), AllLiterals(src, ss), src[..End(ss[..i], 0)], |Literals(src, ss[..i])|,
                       |ss| - i, size)
            == DecodeFrom(SeqsBytes(ss[i + 1..]), AllLiterals(src, ss), src[..End(ss[..i + 1], 0)],
                          |Literals(src, ss[..i + 1])|, |ss| - i - 1, size)
  {
    hide DecodeFrom, SeqBytes, ReadSeq, Extended, IsMatch, Tiles, End, Literals, AllLiterals;
    PrefixFacts(src, ss, i);
    PrefixFacts(src, ss, i + 1);
    var s, lits, e, lp := ss[i], AllLiterals(src, ss), End(ss[..i], 0), |Literals(src, ss[..i])|;
    SeqAt(src, ss, i);
    LiteralsAt(src, ss, i);
    MatchInside(src, e + s.lit, s.len, s.off);
    assert ss[i..][1..] == ss[i + 1..] && ss[i..][0] == s;
    SeqReads(s, SeqsBytes(ss[i + 1..]));
    SafeStep(SeqsBytes(ss[i..]), lits, src[..e], lp, |ss| - i, size, s, SeqsBytes(ss[i + 1..]), s.lit);
    assert src[..e] + src[e..e + s.lit] == src[..e + s.lit];
    MatchExtends(src, e + s.lit, s.len, s.off);
  }

  /** A tiling's sequences and literals fill the input's size and no more. */
  lemma {:induction false} TilesFill(src: seq<byte>, ss: seq<LzSeq>, i: nat, size: nat)
    requires Tiles(src, ss) && AllOk(ss) && |src| < U32_LIMIT && i <= |ss| && |src| < size
    ensures End(ss[..i], 0) <= |src| && End(ss, 0) <= |src| && |Literals(src, ss[..i])| <= |AllLiterals(src, ss)|
    ensures DecodeFrom(SeqsBytes(ss[i..]), AllLiterals(src, ss), src[..End(ss[..i], 0)], |Literals(src, ss[..i])|,
                       |ss| - i, size) == Err(Corrupt)
    decreases |ss| - i
  {
    hide DecodeFrom, SeqBytes, ReadSeq, Extended, IsMatch;
    PrefixFacts(src, ss, i);
    if i == |ss| {
      assert ss[..i] == ss;
      TooLarge(SeqsBytes(ss[i..]), src, ss, size);
    } else {
      TilesFill(src, ss, i + 1, size);
      OneDecodesAt(src, ss, i, size);
    }
  }

  lemma TooLarge(b: seq<byte>, src: seq<byte>, ss: seq<LzSeq>, size: nat)
    requires Tiles(src, ss) && End(ss, 0) <= |src| < size
    ensures DecodeFrom(b, AllLiterals(src, ss), src[..End(ss, 0)], |Literals(src, ss)|, 0, size) == Err(Corrupt)
  {
    hide Tiles, End, Literals;
    NoMore(b, AllLiterals(src, ss), src[..End(ss, 0)], |Literals(src, ss)|, 0, size);
  }

  /** What the encoder writes decodes to every size up to the input's, as the front of the input, and to no other. */
  lemma SizesDecoded(src: seq<byte>, ss: seq<LzSeq>, size: nat)
    requires Tiles(src, ss) && AllOk(ss) && End(ss, 0) <= |src| && |src| + HEADER_SIZE < U32_LIMIT && size < U32_LIMIT
    ensures Decoded(Serialized(src, ss), size) == if size <= |src| then Ok(src[..size]) else Err(Corrupt)
  {
    RoundTrip(src, ss);
    if size <= |src| {
      DecodedFront(Serialized(src, ss), |src|, size);
    } else if TotalSize(src, ss) >= |src| {
      LiteralTooLarge(src, size);
    } else {
      SequencesFew(src, ss);
      StreamFields(src, ss);
      TilesFill(src, ss, 0, size);
      hide DecodeFrom, SeqsBytes, SeqsSize, AllLiterals, Tiles, LE, LEVal, Stream;
      assert ss[0..] == ss && ss[..0] == [] && src[..0] == [];
    }
  }

  lemma LiteralTooLarge(src: seq<byte>, size: nat)
    requires |src| + HEADER_SIZE < U32_LIMIT && |src| < size < U32_LIMIT
    ensures Decoded(LiteralStream(src), size) == Err(Corrupt)
  {
    LEFieldRoundTrip(0, 4);
    LEFieldRoundTrip(|src|, 4);
    var b := LiteralStream(src);
    assert b[0..4] == LE(0, 4) && b[4..8] == LE(|src|, 4) && b[|b| - |src|..] == src;
  }

  /* ---- Streams cut short ------------------------------------------------- */

  lemma {:induction false} CutChained(v: nat, k: nat, acc: nat)
    requires k < |Chained(v)|
    ensures ReadChained(Chained(v)[..k], acc) == None
    decreases v
  {
    if k > 0 && v >= 255 {
      assert Chained(v)[..k][1..] == Chained(v - 255)[..k - 1];
      CutChained(v - 255, k - 1, LowU32(acc + 255));
    }
  }

  lemma {:induction false} CutLeb(v: nat, k: nat, shift: nat)
    requires k < |Leb(v)|
    ensures ReadLeb(Leb(v)[..k], shift) == None
    decreases v
  {
    if k > 0 && v >= 128 {
      assert Leb(v)[..k][1..] == Leb(v / 128)[..k - 1];
      CutLeb(v / 128, k - 1, shift + 7);
    }
  }

  lemma CutOffset(off: nat, k: nat)
    requires 1 <= off && k < |OffsetBytes(off)|
    ensures ReadOffset(OffsetBytes(off)[..k]) == None
  {
    var b := OffsetBytes(off)[..k];
    if off > 65535 && k >= 2 {
      assert b[0..2] == [255, 255] && b[2..] == Leb(off - 65536)[..k - 2];
      assert [255, 255][1..] == [255] && LEVal([255]) == 255 + 256 * LEVal([]);
      CutLeb(off - 65536, k - 2, 0);
    }
  }

  /** The front of two parts. */
  lemma CutTwo(a: seq<byte>, b: seq<byte>, k: nat)
    requires k <= |a| + |b|
    ensures (a + b)[..k] == if k <= |a| then a[..k] else a + b[..k - |a|]
  {
  }

  lemma CutLit(lit: nat, m3: nat, rest: seq<byte>, k: nat)
    requires lit < U32_LIMIT && k <= |LitExt(lit)| + |rest|
    ensures ReadLit(Tag(lit, m3), (LitExt(lit) + rest)[..k])
            == if k < |LitExt(lit)| then None else Some((lit, rest[..k - |LitExt(lit)|]))
  {
    CutTwo(LitExt(lit), rest, k);
    if k < |LitExt(lit)| {
      CutChained(lit - 15, k, 15);
    } else {
      LitReads(lit, m3, rest[..k - |LitExt(lit)|]);
      assert LitExt(lit)[..|LitExt(lit)|] == LitExt(lit);
      ConcatEmpty(LitExt(lit));
    }
  }

  lemma CutLen(lit: nat, m3: nat, rest: seq<byte>, k: nat)
    requires m3 < U32_LIMIT && k <= |LenExt(m3)| + |rest|
    ensures ReadLen(Tag(lit, m3), (LenExt(m3) + rest)[..k])
            == if k < |LenExt(m3)| then None else Some((m3, rest[..k - |LenExt(m3)|]))
  {
    CutTwo(LenExt(m3), rest, k);
    if k < |LenExt(m3)| {
      CutLeb(m3 - 15, k, 0);
    } else {
      LenReads(lit, m3, rest[..k - |LenExt(m3)|]);
      assert LenExt(m3)[..|LenExt(m3)|] == LenExt(m3);
      ConcatEmpty(LenExt(m3));
    }
  }

  /** The front of a sequence is no sequence. */
  lemma CutSeq(s: LzSeq, k: nat)
    requires SeqOk(s) && s.lit < U32_LIMIT && s.len < U32_LIMIT && k < |SeqBytes(s)|
    ensures ReadSeq(SeqBytes(s)[..k]) == None
  {
    hide ReadLit, ReadLen, ReadOffset, LitExt, LenExt, OffsetBytes, Tag;
    if k > 0 {
      var m3 := s.len - MIN_MATCH;
      var b2 := OffsetBytes(s.off);
      var b1 := LenExt(m3) + b2;
      var b0 := LitExt(s.lit) + b1;
      assert SeqBytes(s) == [Tag(s.lit, m3)] + b0;
      var b := SeqBytes(s)[..k];
      assert b[0] == Tag(s.lit, m3) && b[1..] == b0[..k - 1];
      CutLit(s.lit, m3, b1, k - 1);
      var k1 := k - 1 - |LitExt(s.lit)|;
      if k1 >= 0 {
        CutLen(s.lit, m3, b2, k1);
        var k2 := k1 - |LenExt(m3)|;
        if k2 >= 0 { CutOffset(s.off, k2); }
      }
    }
  }

  lemma SeqsFrom(ss: seq<LzSeq>, i: nat)
    requires AllOk(ss) && i <= |ss| && SeqsBytes(ss[i..]) != []
    ensures i < |ss| && SeqsBytes(ss[i..]) == SeqBytes(ss[i]) + SeqsBytes(ss[i + 1..])
  {
    hide SeqBytes;
    if i < |ss| { assert ss[i..][1..] == ss[i + 1..] && ss[i..][0] == ss[i]; }
  }

  /** With its sequences cut short, a tiling's decoding runs out of them, whatever the literals and the output are. */
  lemma {:induction false} CutSeqs(src: seq<byte>, ss: seq<LzSeq>, i: nat, k: nat, lits: seq<byte>, out: seq<byte>)
    requires Tiles(src, ss) && AllOk(ss) && |src| < U32_LIMIT && i <= |ss| && k < |SeqsBytes(ss[i..])|
    requires End(ss, 0) <= |src| && |lits| == |AllLiterals(src, ss)| && |out| == End(ss[..i], 0) <= |src|
    ensures |Literals(src, ss[..i])| <= |lits|
    ensures DecodeFrom(SeqsBytes(ss[i..])[..k], lits, out, |Literals(src, ss[..i])|, |ss| - i, |src|) == Err(Corrupt)
    decreases |ss| - i
  {
    hide DecodeFrom, SeqBytes, SeqsBytes, ReadSeq, Extended, Copied, IsMatch, Tiles, End, Literals, AllLiterals, SeqOk;
    PrefixFacts(src, ss, i);
    LiteralsWithin(src, ss, i);
    SeqsFrom(ss, i);
    PrefixFacts(src, ss, i + 1);
    SeqAt(src, ss, i);
    LiteralsAt(src, ss, i);
    var s, lp := ss[i], |Literals(src, ss[..i])|;
    MatchInside(src, |out| + s.lit, s.len, s.off);
    var rest := SeqsBytes(ss[i + 1..]);
    CutTwo(SeqBytes(s), rest, k);
    if k < |SeqBytes(s)| {
      CutSeq(s, k);
      Unreadable(SeqBytes(s)[..k], lits, out, lp, |ss| - i, |src|);
    } else {
      var j := k - |SeqBytes(s)|;
      SeqReads(s, rest[..j]);
      assert SeqBytes(s)[..|SeqBytes(s)|] + rest[..0] == SeqBytes(s);
      ConcatEmpty(SeqBytes(s));
      SafeStep(SeqBytes(s) + rest[..j], lits, out, lp, |ss| - i, |src|, s, rest[..j], s.lit);
      CutSeqs(src, ss, i + 1, j, lits, Copied(out + lits[lp..lp + s.lit], s.off, s.len));
    }
  }

  lemma LiteralsWithin(src: seq<byte>, ss: seq<LzSeq>, i: nat)
    requires Tiles(src, ss) && i <= |ss| && End(ss, 0) <= |src|
    ensures End(ss[..i], 0) <= |src| && |Literals(src, ss[..i])| <= |AllLiterals(src, ss)|
  {
    PrefixFacts(src, ss, i);
    hide Tiles, Literals;
  }

  /** What the encoder writes, cut short anywhere, is refused at its input's size. */
  lemma TruncatedRefused(src: seq<byte>, ss: seq<LzSeq>, k: nat)
    requires Tiles(src, ss) && AllOk(ss) && End(ss, 0) <= |src| && |src| + HEADER_SIZE < U32_LIMIT
    requires k < |Serialized(src, ss)|
    ensures Decoded(Serialized(src, ss)[..k], |src|) == Err(Corrupt)
  {
    if TotalSize(src, ss) >= |src| {
      LEFieldRoundTrip(|src|, 4);
      var b := LiteralStream(src);
      assert b[4..8] == LE(|src|, 4);
      CutSizes(b, k);
    } else {
      SequencesFew(src, ss);
      StreamFields(src, ss);
      StreamCut(src, ss, k);
    }
  }

  lemma CutSizes(b: seq<byte>, k: nat)
    requires k <= |b|
    ensures k >= HEADER_SIZE ==> b[..k][0..4] == b[0..4] && b[..k][4..8] == b[4..8]
  {
  }

  lemma StreamCut(src: seq<byte>, ss: seq<LzSeq>, k: nat)
    requires Tiles(src, ss) && AllOk(ss) && End(ss, 0) <= |src| && |src| + HEADER_SIZE < U32_LIMIT
    requires k < |Stream(src, ss)| < U32_LIMIT
    requires var b, lits := Stream(src, ss), AllLiterals(src, ss);
             && LEVal(b[0..4]) == |ss| && LEVal(b[4..8]) == |lits| && HEADER_SIZE + |lits| <= |b|
             && b[HEADER_SIZE..|b| - |lits|] == SeqsBytes(ss)
    ensures Decoded(Stream(src, ss)[..k], |src|) == Err(Corrupt)
  {
    hide DecodeFrom, SeqsBytes, SeqsSize, AllLiterals, Tiles, LE, LEVal, Stream, End;
    var b, n := Stream(src, ss), |AllLiterals(src, ss)|;
    CutSizes(b, k);
    if k >= HEADER_SIZE + n {
      var c := b[..k];
      assert c[HEADER_SIZE..k - n] == SeqsBytes(ss)[..k - n - HEADER_SIZE];
      assert ss[0..] == ss && ss[..0] == [];
      NoneYet(src);
      CutSeqs(src, ss, 0, k - n - HEADER_SIZE, c[k - n..], []);
    }
  }

  lemma NoneYet(src: seq<byte>)
    ensures End([], 0) == 0 && Literals(src, []) == []
  {
  }
}
