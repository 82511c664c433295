/**
 * An input whose serialized size wraps 32 bits (src/entropy/lz.c): many matches of three bytes at an offset
 * that takes six bytes to write.
 */
module LzWrap {
  import opened Base
  import opened LzFormat
  import opened LzMatch
  import opened LzParse
  import opened LzRun
  import opened Lz

  /** The nearest offset whose extension takes four LEB128 bytes. */
  const FAR: nat := 0x21_0000

  /** FAR literals and a match of three bytes, then k matches of three bytes as far back. */
  function FarParse(k: nat): (ss: seq<LzSeq>)
    ensures |ss| == k + 1
  {
    if k == 0 then [LzSeq(FAR, 3, 1)] else FarParse(k - 1) + [LzSeq(0, 3, FAR)]
  }

  lemma ZerosMatch(n: nat, pos: nat, off: nat)
    requires 1 <= off <= pos && off <= MAX_OFFSET && pos + 3 <= n
    ensures IsMatch(Zeros(n), pos, 3, off)
  {
    forall i | pos <= i < pos + 3
      ensures SameAt(Zeros(n), i, off)
    {
    }
  }

  lemma FarSizes()
    ensures SeqSize(LzSeq(FAR, 3, 1)) == 8485 && SeqSize(LzSeq(0, 3, FAR)) == 7
  {
    assert LebSize(0x20_0000) == 1 + LebSize(0x4000) && LebSize(0x4000) == 1 + LebSize(0x80) && LebSize(0x80) == 2;
  }

  /** Seven bytes are written for every three covered. */
  lemma {:induction false} FarParseTiles(k: nat, n: nat)
    requires FAR + 3 + 3 * k <= n
    ensures var src, ss := Zeros(n), FarParse(k);
            && Tiles(src, ss) && AllOk(ss) && End(ss, 0) == FAR + 3 + 3 * k
            && SeqsSize(ss) == 8485 + 7 * k && |Literals(src, ss)| == FAR
  {
    hide IsMatch, SeqSize, Zeros;
    var src, ss := Zeros(n), FarParse(k);
    FarSizes();
    if k == 0 {
      ZerosMatch(n, FAR, 1);
      assert ss[..0] == [] && ss[1..] == [];
      assert Literals(src, []) == [];
    } else {
      hide Tiles, SeqsSize, SeqsBytes, End;
      var s := LzSeq(0, 3, FAR);
      FarParseTiles(k - 1, n);
      ZerosMatch(n, FAR + 3 + 3 * (k - 1), FAR);
      TilesSnoc(src, FarParse(k - 1), s);
      SeqsSnoc(FarParse(k - 1), s);
      assert ss[..k] == FarParse(k - 1);
    }
  }

  /**
   * A tiling of 1.84 GB whose serialized size is 2^32 + 1: the 32-bit total says 1 byte, so the serializer takes
   * it for a gain, reserves that, and writes the stream.
   */
  lemma FarParseWraps()
    ensures var n := FAR + 3 + 3 * 613256588;
            var src, ss := Zeros(n), FarParse(613256588);
            && n < U32_LIMIT && Tiles(src, ss) && AllOk(ss) && End(ss, 0) == |src|
            && TotalSize(src, ss) == U32_LIMIT + 1 && TotalWraps(src, ss)
  {
    hide Tiles, AllOk, SeqsSize, Literals, Zeros, FarParse, End, TotalSize;
    FarParseTotal(613256588, FAR + 3 + 3 * 613256588);
  }

  lemma FarParseTotal(k: nat, n: nat)
    requires k == 613256588 && n == FAR + 3 + 3 * k
    ensures var src, ss := Zeros(n), FarParse(k);
            && Tiles(src, ss) && AllOk(ss) && End(ss, 0) == |src| && TotalSize(src, ss) == U32_LIMIT + 1
  {
    FarParseTiles(k, n);
    hide Tiles, AllOk, SeqsSize, Literals, Zeros, FarParse, End;
    assert Zeros(n)[n..] == [];
  }
}
