/**
 * The library's own coders in an entropy chain. A coder is free in the tables or the parse it makes for an
 * input; whatever it chooses, chains of Huffman, four-stream Huffman, rANS and LZ come back.
 */
module EntropyCoders {
  import opened Base
  import opened SidePack
  import opened EntropyChain
  import Huffman
  import Huffman4
  import HuffmanBound
  import HuffmanCode
  import HuffmanLengths
  import HuffmanStream
  import Fse
  import FseTable
  import LzFormat
  import LzCopy
  import LzDecode
  import Lz
  import LzRun

  datatype Coder = Huff | Huff4 | Rans | Lz77

  /** What the encoders choose for an input: code lengths, a normalised table and its log, a parse. */
  datatype Choices = Choices(lens: seq<byte> -> seq<nat>, table: seq<byte> -> (seq<nat>, nat),
                             parse: seq<byte> -> seq<LzFormat.LzSeq>, avx2: bool)
  {
    /** The choices are those the encoders' contracts allow. */
    ghost predicate Valid()
    {
      && (forall s {:trigger lens(s)} :: |s| < U32_LIMIT ==>
            LensOk(lens(s), s) && HuffmanLengths.Economical(Histogram(s, HuffmanCode.NSYMS), lens(s)))
      && (forall s {:trigger table(s)} :: 0 < |s| < U32_LIMIT ==> TableOk(table(s).0, table(s).1, s))
      && (forall s {:trigger parse(s)} :: |s| + Lz.POSITION_MARGIN < U32_LIMIT ==> ParseOk(parse(s), s))
    }
  }

  predicate LensOk(lens: seq<nat>, s: seq<byte>)
  {
    Huffman.LengthsFor(lens, s) && HuffmanStream.Coded(lens, s) && HuffmanCode.ShortLengths(lens)
  }

  predicate TableOk(norm: seq<nat>, log: nat, s: seq<byte>)
  {
    |norm| <= FseTable.NSYMS && Fse.Covers(norm, log, s)
  }

  predicate ParseOk(ss: seq<LzFormat.LzSeq>, s: seq<byte>)
  {
    LzRun.Tiles(s, ss) && Lz.AllOk(ss) && LzRun.End(ss, 0) <= |s|
  }

  /* ---- What each encoder writes ------------------------------------------ */

  function HuffmanBytes(lens: seq<nat>, s: seq<byte>): Result<seq<byte>>
  {
    if |s| >= U32_LIMIT || !LensOk(lens, s) || |HuffmanStream.CodeStream(lens, s)| >= U32_LIMIT then Err(Invalid)
    else Ok(Huffman.Block(s, lens))
  }

  function Huffman4Bytes(lens: seq<nat>, s: seq<byte>): Result<seq<byte>>
  {
    if |s| >= U32_LIMIT || !LensOk(lens, s) then Err(Invalid) else Ok(Huffman4.Encoded(s, lens))
  }

  function RansBytes(norm: seq<nat>, log: nat, s: seq<byte>): Result<seq<byte>>
  {
    if s == [] then Ok(Fse.EmptyBlock)
    else if |s| >= U32_LIMIT || !TableOk(norm, log, s) then Err(Invalid)
    else Ok(Fse.Block(s, norm, log))
  }

  /** An input whose totals wrap leaves no result. */
  function LzBytes(ss: seq<LzFormat.LzSeq>, s: seq<byte>): Result<seq<byte>>
  {
    if |s| + Lz.POSITION_MARGIN >= U32_LIMIT || !ParseOk(ss, s) || Lz.TotalWraps(s, ss) then Err(Invalid)
    else if LowU32(Lz.TotalSize(s, ss)) >= |s| then Ok(Lz.LiteralStream(s))
    else Ok(Lz.Stream(s, ss))
  }

  /** What the LZ decoder returns; a decoder in trouble returns nothing of use. */
  function LzBack(b: seq<byte>, n: nat, avx2: bool): Result<seq<byte>>
  {
    if LzDecode.InputTrouble(b, n, avx2) != LzCopy.Nothing then Err(Corrupt) else LzDecode.Decoded(b, n)
  }

  function StageOf(c: Coder, ch: Choices): Stage
  {
    match c
    case Huff => Stage(s => HuffmanBytes(ch.lens(s), s), (b, n) => Huffman.Decoded(b, n))
    case Huff4 => Stage(s => Huffman4Bytes(ch.lens(s), s), (b, n) => Huffman4.Decoded(b, n))
    case Rans => Stage(s => RansBytes(ch.table(s).0, ch.table(s).1, s), (b, n) => Fse.Decoded(b, n))
    case Lz77 => Stage(s => LzBytes(ch.parse(s), s), (b, n) => LzBack(b, n, ch.avx2))
  }

  function StagesOf(coders: seq<Coder>, ch: Choices): (st: chain)
    ensures |st| == |coders| && forall i :: 0 <= i < |coders| ==> st[i] == Some(StageOf(coders[i], ch))
  {
    seq(|coders|, i requires 0 <= i < |coders| => Some(StageOf(coders[i], ch)))
  }

  /* ---- Where each inverts ------------------------------------------------ */

  /** Exactly the inputs whose encoding, if there is one, comes back; for LZ, some of them. */
  predicate Returns(c: Coder, ch: Choices, s: seq<byte>)
    requires |s| < U32_LIMIT ==> LensOk(ch.lens(s), s)
    requires 0 < |s| < U32_LIMIT ==> TableOk(ch.table(s).0, ch.table(s).1, s)
  {
    if |s| >= U32_LIMIT then true
    else
      match c
      case Huff =>
        var bits := |HuffmanStream.CodeStream(ch.lens(s), s)|;
        bits >= U32_LIMIT || bits < U32_LIMIT - 7 || Huffman.Constant(s)
      case Huff4 => true
      case Rans => s == [] || Fse.PayloadSize(s, ch.table(s).0, ch.table(s).1) < U32_LIMIT
      case Lz77 => |s| <= 0x8000_0000
  }

  lemma HuffmanInverts(lens: seq<nat>, s: seq<byte>)
    requires LensOk(lens, s) && |s| < U32_LIMIT && HuffmanBytes(lens, s).Ok?
    ensures Huffman.Decoded(HuffmanBytes(lens, s).value, |s|) == Ok(s) <==>
            |HuffmanStream.CodeStream(lens, s)| < U32_LIMIT - 7 || Huffman.Constant(s)
  {
    Huffman.RoundTrip(s, lens);
  }

  lemma RansInverts(norm: seq<nat>, log: nat, s: seq<byte>)
    requires |s| < U32_LIMIT && (s != [] ==> TableOk(norm, log, s))
    ensures RansBytes(norm, log, s).Ok?
    ensures Fse.Decoded(RansBytes(norm, log, s).value, |s|) == Ok(s) <==>
            s == [] || Fse.PayloadSize(s, norm, log) < U32_LIMIT
  {
    hide Fse.Decoded, Fse.Block;
    if s == [] {
      Fse.EmptyRoundTrip();
    } else {
      Fse.RoundTrip(s, norm, log);
    }
  }

  lemma LzInverts(ss: seq<LzFormat.LzSeq>, s: seq<byte>, avx2: bool)
    requires |s| <= 0x8000_0000 && ParseOk(ss, s) && LzBytes(ss, s).Ok?
    ensures LzBack(LzBytes(ss, s).value, |s|, avx2) == Ok(s)
  {
    hide LzDecode.Decoded, LzDecode.InputTrouble, LzRun.Tiles;
    if LowU32(Lz.TotalSize(s, ss)) >= |s| {
      Lz.LiteralRoundTrip(s);
      Lz.LiteralNoTrouble(s);
    } else {
      Lz.StreamRoundTrip(s, ss);
      Lz.StreamNoTrouble(s, ss);
    }
  }

  /** A coder inverts an input where its round trip says so; this is exact but for LZ. */
  lemma CoderInverts(c: Coder, ch: Choices, s: seq<byte>)
    requires ch.Valid()
    ensures |s| < U32_LIMIT ==> LensOk(ch.lens(s), s)
    ensures 0 < |s| < U32_LIMIT ==> TableOk(ch.table(s).0, ch.table(s).1, s)
    ensures Returns(c, ch, s) ==> StageOf(c, ch).InvertsAt(s)
    ensures c != Lz77 && StageOf(c, ch).InvertsAt(s) ==> Returns(c, ch, s)
  {
    hide LensOk, TableOk, ParseOk, HuffmanBytes, Huffman4Bytes, RansBytes, LzBytes, LzBack;
    hide Huffman.Decoded, Huffman4.Decoded, Fse.Decoded;
    if |s| >= U32_LIMIT {
      CodersRefuse(ch, s);
    } else {
      match c
      case Huff =>
        if HuffmanBytes(ch.lens(s), s).Ok? { HuffmanInverts(ch.lens(s), s); }
        HuffmanTakes(ch.lens(s), s);
      case Huff4 =>
        Huffman4Inverts(ch.lens(s), s);
      case Rans =>
        RansInverts(ch.table(s).0, ch.table(s).1, s);
      case Lz77 =>
        if |s| <= 0x8000_0000 && LzBytes(ch.parse(s), s).Ok? { LzInverts(ch.parse(s), s, ch.avx2); }
    }
  }

  lemma HuffmanTakes(lens: seq<nat>, s: seq<byte>)
    requires LensOk(lens, s) && |s| < U32_LIMIT
    ensures HuffmanBytes(lens, s).Ok? <==> |HuffmanStream.CodeStream(lens, s)| < U32_LIMIT
  {
  }

  lemma Huffman4Inverts(lens: seq<nat>, s: seq<byte>)
    requires LensOk(lens, s) && |s| < U32_LIMIT
    ensures Huffman4Bytes(lens, s).Ok? && Huffman4.Decoded(Huffman4Bytes(lens, s).value, |s|) == Ok(s)
  {
    hide Huffman4.Decoded;
    Huffman4.RoundTrip(s, lens);
  }

  /** Inputs of 4 GiB and more are refused by every coder. */
  lemma CodersRefuse(ch: Choices, s: seq<byte>)
    requires |s| >= U32_LIMIT
    ensures HuffmanBytes(ch.lens(s), s).Err? && Huffman4Bytes(ch.lens(s), s).Err?
    ensures RansBytes(ch.table(s).0, ch.table(s).1, s).Err? && LzBytes(ch.parse(s), s).Err?
  {
  }

  /** Sizes up to which a coder inverts whatever it chooses: 341 MiB for Huffman codes, 2 GiB for rANS and LZ. */
  predicate Safe(c: Coder, n: nat)
  {
    match c
    case Huff => 12 * n < U32_LIMIT - 7
    case Huff4 => true
    case Rans => n < 0x8000_0000
    case Lz77 => n <= 0x8000_0000
  }

  lemma SafeInverts(c: Coder, ch: Choices, s: seq<byte>)
    requires ch.Valid() && Safe(c, |s|)
    ensures StageOf(c, ch).InvertsAt(s)
  {
    hide HuffmanLengths.Economical, LensOk, TableOk;
    CoderInverts(c, ch, s);
    if |s| < U32_LIMIT {
      StreamIsShort(ch.lens(s), s);
      if s != [] { PayloadIsShort(ch.table(s).0, ch.table(s).1, s); }
    }
  }

  lemma StreamIsShort(lens: seq<nat>, s: seq<byte>)
    requires LensOk(lens, s) && HuffmanLengths.Economical(Histogram(s, HuffmanCode.NSYMS), lens)
    ensures |HuffmanStream.CodeStream(lens, s)| <= 12 * |s|
  {
    hide HuffmanLengths.Economical;
    HuffmanBound.PayloadFits(lens, s);
  }

  lemma PayloadIsShort(norm: seq<nat>, log: nat, s: seq<byte>)
    requires TableOk(norm, log, s)
    ensures Fse.PayloadSize(s, norm, log) <= 2 * |s|
  {
    Fse.PayloadBound(s, norm, log);
  }

  /* ---- Decoders fill their output ---------------------------------------- */

  lemma HuffmanFills(b: seq<byte>, n: nat)
    ensures Huffman.Decoded(b, n).Ok? ==> |Huffman.Decoded(b, n).value| == n
  {
  }

  lemma {:induction false} PartsFill(lens: seq<nat>, streams: seq<seq<byte>>, n: nat, j: nat)
    requires |lens| <= HuffmanCode.NSYMS && j <= 4 && |streams| == 4
    ensures var r := Huffman4.DecodeTo(lens, streams, Huffman4.Sizes(n), j);
            r.Some? ==> |r.value| == Huffman4.Offset(n, j)
  {
    hide HuffmanStream.DecodeSyms, Huffman4.Sizes;
    if j > 0 {
      PartsFill(lens, streams, n, j - 1);
      Huffman4.SizesAreCuts(n, j - 1);
    }
  }

  lemma Huffman4Fills(b: seq<byte>, n: nat)
    ensures Huffman4.Decoded(b, n).Ok? ==> |Huffman4.Decoded(b, n).value| == n
  {
    hide Huffman4.DecodeTo, Huffman.Decoded;
    HuffmanFills(b, n);
    if Huffman4.Decoded(b, n).Ok? && n >= Huffman4.SMALL {
      var k := LEVal(b[8..10]);
      var lens, body := Huffman.StoredLens(b, k), b[Huffman.HDR_PREFIX + k..];
      var s := Huffman4.Streams(body[Huffman4.STREAM_HDR..], LEVal(body[0..4]), LEVal(body[4..8]), LEVal(body[8..12]));
      PartsFill(lens, s, n, 4);
    }
  }

  lemma {:induction false} LzFills(b: seq<byte>, lits: seq<byte>, out: seq<byte>, lp: nat, left: nat, n: nat)
    requires lp <= |lits| && |out| <= n
    ensures var r := LzDecode.DecodeFrom(b, lits, out, lp, left, n); r.Ok? ==> |r.value| == n
    decreases left
  {
    hide LzFormat.ReadSeq, LzDecode.DecodeFrom, LzCopy.Copied;
    if left == 0 || |out| == n {
      LzDecode.NoMore(b, lits, out, lp, left, n);
    } else if LzFormat.ReadSeq(b) == None {
      LzDecode.Unreadable(b, lits, out, lp, left, n);
    } else {
      var (s, rest) := LzFormat.ReadSeq(b).value;
      var ll := Min(Min(s.lit, n - |out|), |lits| - lp);
      var out1 := out + lits[lp..lp + ll];
      LzDecode.SafeStep(b, lits, out, lp, left, n, s, rest, ll);
      if |out1| == n {
        LzFills(rest, lits, out1, lp + ll, left - 1, n);
      } else if s.off <= |out1| && (s.off > 0 || s.len == 0) {
        LzFills(rest, lits, LzCopy.Copied(out1, s.off, Min(s.len, n - |out1|)), lp + ll, left - 1, n);
      }
    }
  }

  /** So the decoding loop can be run with these coders. */
  lemma CodersFill(coders: seq<Coder>, ch: Choices)
    ensures ChainFills(StagesOf(coders, ch))
  {
    hide Huffman.Decoded, Huffman4.Decoded, LzDecode.DecodeFrom, LzDecode.InputTrouble;
    forall i | 0 <= i < |coders|
      ensures StageOf(coders[i], ch).Fills()
    {
      forall b, n
        ensures StageOf(coders[i], ch).decode(b, n).Ok? ==> |StageOf(coders[i], ch).decode(b, n).value| == n
      {
        HuffmanFills(b, n);
        Huffman4Fills(b, n);
        LzBackFills(b, n, ch.avx2);
      }
    }
  }

  lemma LzBackFills(b: seq<byte>, n: nat, avx2: bool)
    ensures LzBack(b, n, avx2).Ok? ==> |LzBack(b, n, avx2).value| == n
  {
    hide LzDecode.DecodeFrom, LzDecode.InputTrouble;
    if LzDecode.Decoded(b, n).Ok? {
      var litSize := LEVal(b[4..8]);
      LzFills(b[LzFormat.HEADER_SIZE..|b| - litSize], b[|b| - litSize..], [], 0, LEVal(b[0..4]), n);
    }
  }

  /* ---- Chains ------------------------------------------------------------ */

  /** If the size table holds only sizes safe for their coders, every stage inverted what reached it. */
  lemma {:induction false} SafeSizesUndone(coders: seq<Coder>, ch: Choices, src: seq<byte>)
    requires ch.Valid() && CodeAll(StagesOf(coders, ch), src).Ok?
    requires forall i :: 0 <= i < |coders| ==> Safe(coders[i], CodeAll(StagesOf(coders, ch), src).value.sizes[i])
    ensures Undone(StagesOf(coders, ch), src)
  {
    hide StageOf;
    var stages := StagesOf(coders, ch);
    if coders != [] {
      var front := coders[..|coders| - 1];
      assert stages[..|coders| - 1] == StagesOf(front, ch);
      var c := CodeAll(stages[..|coders| - 1], src).value;
      assert CodeAll(stages, src).value.sizes == c.sizes + [|c.bytes|];
      forall i | 0 <= i < |front|
        ensures Safe(front[i], c.sizes[i])
      {
        assert CodeAll(stages, src).value.sizes[i] == c.sizes[i];
      }
      SafeSizesUndone(front, ch, src);
      assert CodeAll(stages, src).value.sizes[|front|] == |c.bytes|;
      SafeInverts(coders[|coders| - 1], ch, c.bytes);
    }
  }

  /**
   * Side metadata through any chain of up to four of the library's coders: it comes back whenever the sizes
   * in the section's own table are safe for their coders.
   */
  lemma CodersRoundTrip(coders: seq<Coder>, ch: Choices, packs: bool, meta: seq<byte>)
    requires ch.Valid() && Section(StagesOf(coders, ch), packs, meta).Ok?
    requires meta != [] ==>
               var c := CodeAll(StagesOf(coders, ch), ChainInput(packs, meta).value).value;
               forall i :: 0 <= i < |coders| ==> Safe(coders[i], c.sizes[i])
    ensures ReadSection(StagesOf(coders, ch), packs, false, Section(StagesOf(coders, ch), packs, meta).value)
            == Ok(meta)
  {
    hide CodeAll, Undone, StagesOf, PackedBytes, ReadSection;
    if meta != [] {
      SafeSizesUndone(coders, ch, ChainInput(packs, meta).value);
    }
    SectionRoundTrip(StagesOf(coders, ch), packs, meta);
  }

  /* ---- Chains that cannot fail ------------------------------------------- */

  /** Bytes a coder may make of n. */
  const OVERHEAD: nat := 528

  lemma HuffmanMakes(lens: seq<nat>, s: seq<byte>)
    requires LensOk(lens, s) && HuffmanLengths.Economical(Histogram(s, HuffmanCode.NSYMS), lens) && 12 * |s| < U32_LIMIT
    ensures HuffmanBytes(lens, s).Ok? && |HuffmanBytes(lens, s).value| <= 2 * |s| + OVERHEAD
    ensures Huffman4Bytes(lens, s).Ok? && |Huffman4Bytes(lens, s).value| <= 2 * |s| + OVERHEAD
  {
    hide HuffmanLengths.Economical, Huffman.Block, Huffman4.Encoded;
    Huffman.StaysInBuffer(lens, s);
    Huffman4.StaysInBuffer(lens, s);
  }

  lemma RansMakes(norm: seq<nat>, log: nat, s: seq<byte>)
    requires |s| < U32_LIMIT && (s != [] ==> TableOk(norm, log, s))
    ensures RansBytes(norm, log, s).Ok? && |RansBytes(norm, log, s).value| <= 2 * |s| + OVERHEAD
  {
    if s != [] {
      Fse.PayloadBound(s, norm, log);
      var (x, out) := Fse.EncodeFrom(s, norm, log);
      assert |Rev(out)| == |out|;
      hide Fse.EncodeFrom, Rev, Fse.Header;
    }
  }

  lemma LzMakes(ss: seq<LzFormat.LzSeq>, s: seq<byte>)
    requires ParseOk(ss, s) && |s| < 0x2000_0000
    ensures LzBytes(ss, s).Ok? && |LzBytes(ss, s).value| <= 2 * |s| + OVERHEAD
  {
    hide LzRun.Tiles, Lz.Literals, LzFormat.SeqsSize;
    Lz.TotalBound(s, ss);
  }

  /** Below 2^28 bytes every coder takes its input, and makes no more than twice as much and a header of it. */
  lemma CoderMakes(c: Coder, ch: Choices, s: seq<byte>)
    requires ch.Valid() && |s| < 0x1000_0000
    ensures StageOf(c, ch).encode(s).Ok? && |StageOf(c, ch).encode(s).value| <= 2 * |s| + OVERHEAD
  {
    hide HuffmanLengths.Economical, LensOk, TableOk, ParseOk, HuffmanBytes, Huffman4Bytes, RansBytes, LzBytes;
    match c
    case Huff => HuffmanMakes(ch.lens(s), s);
    case Huff4 => HuffmanMakes(ch.lens(s), s);
    case Rans =>
      if s != [] { assert TableOk(ch.table(s).0, ch.table(s).1, s); }
      RansMakes(ch.table(s).0, ch.table(s).1, s);
    case Lz77 =>
      assert ParseOk(ch.parse(s), s);
      LzMakes(ch.parse(s), s);
  }

  /** k coders one after another, from 16 MiB at most. */
  lemma {:induction false} ChainMakes(coders: seq<Coder>, ch: Choices, src: seq<byte>)
    requires ch.Valid() && |coders| <= MAX_ENTROPY && |src| <= 0x100_0000
    ensures var r := CodeAll(StagesOf(coders, ch), src);
            && r.Ok? && |r.value.bytes| + OVERHEAD <= Pow2(|coders|) * (|src| + OVERHEAD)
            && forall i :: 0 <= i < |coders| ==> r.value.sizes[i] < 0x1000_0000
  {
    hide StageOf, Choices.Valid;
    var stages := StagesOf(coders, ch);
    if coders != [] {
      var front := coders[..|coders| - 1];
      var n := |front|;
      assert stages[..n] == StagesOf(front, ch);
      ChainMakes(front, ch, src);
      var c := CodeAll(stages[..n], src).value;
      PowersOfChain(n, |src| + OVERHEAD);
      CoderMakes(coders[n], ch, c.bytes);
      StepMakes(stages, src, c, StageOf(coders[n], ch));
    } else {
      assert Pow2(0) == 1;
    }
  }

  lemma PowersOfChain(n: nat, m: nat)
    requires n < 4 && m <= 0x100_0000 + OVERHEAD
    ensures Pow2(n + 1) * m == 2 * (Pow2(n) * m) && Pow2(n) * m < 0x1000_0000
  {
    assert Pow2(1) == 2 && Pow2(2) == 4 && Pow2(3) == 8;
  }

  lemma StepMakes(stages: chain, src: seq<byte>, c: Coded, stage: Stage)
    requires stages != [] && CodeAll(stages[..|stages| - 1], src) == Ok(c) && stages[|stages| - 1] == Some(stage)
    requires |c.bytes| < U32_LIMIT && stage.encode(c.bytes).Ok?
    ensures CodeAll(stages, src) == Ok(Coded(c.sizes + [|c.bytes|], stage.encode(c.bytes).value))
  {
  }

  /**
   * Any chain of up to four of the coders takes side metadata of up to 16 MiB, and the section gives it back:
   * nothing is refused, whatever the coders choose.
   */
  lemma CodersAccept(coders: seq<Coder>, ch: Choices, packs: bool, meta: seq<byte>)
    requires ch.Valid() && |coders| <= MAX_ENTROPY
    requires meta != [] ==> ChainInput(packs, meta).Ok? && |ChainInput(packs, meta).value| <= 0x100_0000
    ensures Section(StagesOf(coders, ch), packs, meta).Ok?
    ensures ReadSection(StagesOf(coders, ch), packs, false, Section(StagesOf(coders, ch), packs, meta).value)
            == Ok(meta)
  {
    hide CodeAll, StagesOf, PackedBytes, ReadSection, Choices.Valid;
    if meta != [] {
      var m := ChainInput(packs, meta).value;
      ChainMakes(coders, ch, m);
      var c := CodeAll(StagesOf(coders, ch), m).value;
      forall i | 0 <= i < |coders| ensures Safe(coders[i], c.sizes[i]) {
        assert c.sizes[i] < 0x1000_0000;
      }
    }
    CodersRoundTrip(coders, ch, packs, meta);
  }
}
