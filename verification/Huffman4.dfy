/**
 * The four-stream Huffman coder (src/entropy/huffman4.c). The input is cut into four chunks with one
 * bit stream each; the decoder interleaves the four readers, and still returns what decoding the
 * streams one after the other returns.
 */
module Huffman4 {
  import opened Base
  import opened BitString
  import opened BitIO
  import opened HuffmanCode
  import opened HuffmanTables
  import opened HuffmanLengths
  import opened HuffmanBound
  import opened HuffmanStream
  import opened HuffmanDecode
  import Huffman

  const STREAM_HDR: nat := 12
  const SMALL: nat := 256

  /* ---- Chunks ------------------------------------------------------------ */

  function Chunk(size: nat): nat
  {
    (size + 3) / 4
  }

  /** Where the encoder cuts the input. */
  function Offset(size: nat, j: nat): (o: nat)
    requires j <= 4
    ensures o <= size
  {
    if j == 4 then size else Min(j * Chunk(size), size)
  }

  lemma OffsetsAscend(size: nat, j: nat)
    requires j < 4
    ensures Offset(size, j) <= Offset(size, j + 1)
  {
  }

  lemma OffsetsStart(size: nat)
    ensures Offset(size, 0) == 0
  {
  }

  /** The decoder's chunk sizes. */
  function Sizes(size: nat): (n: seq<nat>)
    ensures |n| == 4
  {
    var chunk := Chunk(size);
    [ if chunk < size then chunk else size,
      if size > chunk then (if 2 * chunk < size then chunk else size - chunk) else 0,
      if size > 2 * chunk then (if 3 * chunk < size then chunk else size - 2 * chunk) else 0,
      if size > 3 * chunk then size - 3 * chunk else 0 ]
  }

  /** Decoder and encoder cut in the same places. */
  lemma SizesAreCuts(size: nat, j: nat)
    requires j < 4
    ensures Offset(size, j) + Sizes(size)[j] == Offset(size, j + 1)
  {
  }

  function Part(src: seq<byte>, j: nat): (p: seq<byte>)
    requires j < 4
    ensures |p| == Sizes(|src|)[j]
  {
    SizesAreCuts(|src|, j);
    src[Offset(|src|, j)..Offset(|src|, j + 1)]
  }

  /* ---- Block layout ------------------------------------------------------ */

  /** One chunk's bit stream. */
  function Packed(src: seq<byte>, lens: seq<nat>, j: nat): (b: seq<byte>)
    requires j < 4 && Coded(lens, src)
  {
    Pack(CodeStream(lens, Part(src, j)))
  }

  function Payload(src: seq<byte>, lens: seq<nat>): (b: seq<byte>)
    requires Coded(lens, src)
  {
    Packed(src, lens, 0) + Packed(src, lens, 1) + Packed(src, lens, 2) + Packed(src, lens, 3)
  }

  function StreamSizes(src: seq<byte>, lens: seq<nat>): (b: seq<byte>)
    requires Coded(lens, src)
    ensures |b| == STREAM_HDR
  {
    LE(|Packed(src, lens, 0)|, 4) + LE(|Packed(src, lens, 1)|, 4) + LE(|Packed(src, lens, 2)|, 4)
  }

  function Block(src: seq<byte>, lens: seq<nat>): (b: seq<byte>)
    requires ShortLengths(lens) && Coded(lens, src)
  {
    Huffman.Header(|src|, 0, lens) + StreamSizes(src, lens) + Payload(src, lens)
  }

  /** The four streams of a payload; the last takes the rest, its size kept in 32 bits. */
  function Streams(payload: seq<byte>, ss0: nat, ss1: nat, ss2: nat): (s: seq<seq<byte>>)
    requires ss0 + ss1 + ss2 <= |payload|
    ensures |s| == 4
  {
    var at := ss0 + ss1 + ss2;
    [payload[..ss0], payload[ss0..ss0 + ss1], payload[ss0 + ss1..at], payload[at..at + LowU32(|payload| - at)]]
  }

  /** Decoding the first j streams one after the other: all must succeed, and the outputs are joined. */
  function DecodeTo(lens: seq<nat>, streams: seq<seq<byte>>, sizes: seq<nat>, j: nat): (r: Option<seq<byte>>)
    requires |lens| <= NSYMS && j <= |streams| == |sizes|
  {
    if j == 0 then Some([])
    else
      match DecodeTo(lens, streams, sizes, j - 1)
      case None => None
      case Some(front) =>
        match DecodeSyms(lens, Stream(streams[j - 1]), 0, sizes[j - 1])
        case None => None
        case Some((last, _)) => Some(front + last)
  }

  function DecodeParts(lens: seq<nat>, streams: seq<seq<byte>>, sizes: seq<nat>): (r: Option<seq<byte>>)
    requires |lens| <= NSYMS && |streams| == |sizes|
  {
    DecodeTo(lens, streams, sizes, |streams|)
  }

  /** What the decoder returns, for every input. */
  function Decoded(src: seq<byte>, dstSize: nat): Result<seq<byte>>
  {
    if |src| < Huffman.HDR_PREFIX then Err(Corrupt)
    else
      var n := LEVal(src[8..10]);
      if LEVal(src[0..4]) != dstSize || n > NSYMS then Err(Corrupt)
      else if dstSize < SMALL then Huffman.Decoded(src, dstSize)
      else if |src| < Huffman.HDR_PREFIX + n + STREAM_HDR then Err(Corrupt)
      else DecodedBody(Huffman.StoredLens(src, n), src[Huffman.HDR_PREFIX + n..], dstSize)
  }

  /** The part after the code lengths: three stream sizes and the payload. */
  function DecodedBody(lens: seq<nat>, body: seq<byte>, dstSize: nat): Result<seq<byte>>
    requires |lens| == NSYMS && |body| >= STREAM_HDR
  {
    var ss0, ss1, ss2 := LEVal(body[0..4]), LEVal(body[4..8]), LEVal(body[8..12]);
    var payload := body[STREAM_HDR..];
    if !Huffman.Usable(lens) || ss0 + ss1 + ss2 > |payload| then Err(Corrupt)
    else
      match DecodeParts(lens, Streams(payload, ss0, ss1, ss2), Sizes(dstSize))
      case None => Err(Corrupt)
      case Some(syms) => Ok(syms)
  }

  /* ---- Round trip -------------------------------------------------------- */

  lemma PackedSize(src: seq<byte>, lens: seq<nat>, j: nat)
    requires j < 4 && |src| < U32_LIMIT && ShortLengths(lens) && Coded(lens, src)
    ensures |Packed(src, lens, j)| < U32_LIMIT
  {
    Huffman.CodeStreamBound(lens, Part(src, j));
  }

  lemma PartReads(lens: seq<nat>, src: seq<byte>, j: nat)
    requires j < 4 && CodeLengths(lens) && Coded(lens, src)
    ensures DecodeSyms(lens, Stream(Packed(src, lens, j)), 0, Sizes(|src|)[j]) ==
            Some((Part(src, j), |CodeStream(lens, Part(src, j))|))
  {
    var code := CodeStream(lens, Part(src, j));
    StreamOfPack(code);
    StreamReads(lens, Stream(Pack(code)), 0, Part(src, j));
  }

  function PackedList(src: seq<byte>, lens: seq<nat>): (s: seq<seq<byte>>)
    requires Coded(lens, src)
    ensures |s| == 4
  {
    [Packed(src, lens, 0), Packed(src, lens, 1), Packed(src, lens, 2), Packed(src, lens, 3)]
  }

  lemma {:induction false} PartsRead(lens: seq<nat>, src: seq<byte>, j: nat)
    requires j <= 4 && CodeLengths(lens) && Coded(lens, src)
    ensures DecodeTo(lens, PackedList(src, lens), Sizes(|src|), j) == Some(src[..Offset(|src|, j)])
  {
    hide DecodeSyms, Packed, PackedList, Offset, Sizes, Part, Coded, Stream, CodeLengths;
    OffsetsStart(|src|);
    if j > 0 {
      PartsRead(lens, src, j - 1);
      PartReads(lens, src, j - 1);
      PackedAt(src, lens, j - 1);
      NextPart(src, j - 1);
    }
  }

  lemma PackedAt(src: seq<byte>, lens: seq<nat>, j: nat)
    requires j < 4 && Coded(lens, src)
    ensures PackedList(src, lens)[j] == Packed(src, lens, j)
  {
    hide Packed, Coded;
  }

  lemma NextPart(src: seq<byte>, j: nat)
    requires j < 4
    ensures src[..Offset(|src|, j)] + Part(src, j) == src[..Offset(|src|, j + 1)]
  {
    OffsetsAscend(|src|, j);
  }

  lemma BodyFields(src: seq<byte>, lens: seq<nat>)
    requires |src| < U32_LIMIT && ShortLengths(lens) && Coded(lens, src)
    ensures var body := StreamSizes(src, lens) + Payload(src, lens);
            && LEVal(body[0..4]) == |Packed(src, lens, 0)| && LEVal(body[4..8]) == |Packed(src, lens, 1)|
            && LEVal(body[8..12]) == |Packed(src, lens, 2)| && body[STREAM_HDR..] == Payload(src, lens)
  {
    var body := StreamSizes(src, lens) + Payload(src, lens);
    PackedSize(src, lens, 0);
    PackedSize(src, lens, 1);
    PackedSize(src, lens, 2);
    LEFieldRoundTrip(|Packed(src, lens, 0)|, 4);
    LEFieldRoundTrip(|Packed(src, lens, 1)|, 4);
    LEFieldRoundTrip(|Packed(src, lens, 2)|, 4);
    assert body[0..4] == LE(|Packed(src, lens, 0)|, 4);
    assert body[4..8] == LE(|Packed(src, lens, 1)|, 4);
    assert body[8..12] == LE(|Packed(src, lens, 2)|, 4);
  }

  lemma StreamsSplit(a: seq<byte>, b: seq<byte>, c: seq<byte>, d: seq<byte>)
    requires |d| < U32_LIMIT
    ensures Streams(a + b + c + d, |a|, |b|, |c|) == [a, b, c, d]
  {
    var p := a + b + c + d;
    assert p[..|a|] == a && p[|a|..|a| + |b|] == b && p[|a| + |b|..|a| + |b| + |c|] == c;
    assert p[|a| + |b| + |c|..|a| + |b| + |c| + |d|] == d;
  }

  lemma BodyRoundTrip(src: seq<byte>, lens: seq<nat>)
    requires |src| < U32_LIMIT && CodeLengths(lens) && Huffman.Usable(lens) && |lens| == NSYMS && Coded(lens, src)
    ensures DecodedBody(lens, StreamSizes(src, lens) + Payload(src, lens), |src|) == Ok(src)
  {
    BodyFields(src, lens);
    PackedSize(src, lens, 3);
    StreamsSplit(Packed(src, lens, 0), Packed(src, lens, 1), Packed(src, lens, 2), Packed(src, lens, 3));
    PartsRead(lens, src, 4);
    assert src[..Offset(|src|, 4)] == src;
  }

  /** The decoder on a block with these fields. */
  lemma DecodedFields(blk: seq<byte>, size: nat, n: nat, lens: seq<nat>, body: seq<byte>)
    requires size >= SMALL && n <= NSYMS && |blk| == Huffman.HDR_PREFIX + n + |body| && |body| >= STREAM_HDR
    requires LEVal(blk[0..4]) == size && LEVal(blk[8..10]) == n
    requires Huffman.StoredLens(blk, n) == lens && blk[Huffman.HDR_PREFIX + n..] == body
    ensures Decoded(blk, size) == DecodedBody(lens, body, size)
  {
  }

  /** The block the encoder makes: small inputs use one stream. */
  function Encoded(src: seq<byte>, lens: seq<nat>): (b: seq<byte>)
    requires ShortLengths(lens) && Coded(lens, src)
  {
    if |src| < SMALL then Huffman.Block(src, lens) else Block(src, lens)
  }

  lemma SmallRoundTrip(src: seq<byte>, lens: seq<nat>)
    requires Huffman.LengthsFor(lens, src) && |src| < SMALL && Coded(lens, src)
    ensures Decoded(Huffman.Block(src, lens), |src|) == Ok(src)
  {
    Huffman.CodeStreamBound(lens, src);
    Huffman.RoundTrip(src, lens);
  }

  lemma LargeRoundTrip(src: seq<byte>, lens: seq<nat>)
    requires Huffman.LengthsFor(lens, src) && SMALL <= |src| < U32_LIMIT && Coded(lens, src)
    ensures Decoded(Block(src, lens), |src|) == Ok(src)
  {
    Huffman.LengthsCode(lens, src);
    var body := StreamSizes(src, lens) + Payload(src, lens);
    Huffman.HeaderFields(|src|, 0, lens, body);
    BlockParts(src, lens);
    DecodedFields(Block(src, lens), |src|, UsedPrefix(lens), lens, body);
    BodyRoundTrip(src, lens);
  }

  lemma BlockParts(src: seq<byte>, lens: seq<nat>)
    requires ShortLengths(lens) && Coded(lens, src)
    ensures Block(src, lens) == Huffman.Header(|src|, 0, lens) + (StreamSizes(src, lens) + Payload(src, lens))
  {
  }

  /** Every input the encoder takes comes back. */
  lemma RoundTrip(src: seq<byte>, lens: seq<nat>)
    requires Huffman.LengthsFor(lens, src) && |src| < U32_LIMIT && Coded(lens, src)
    ensures Decoded(Encoded(src, lens), |src|) == Ok(src)
  {
    if |src| < SMALL {
      SmallRoundTrip(src, lens);
    } else {
      LargeRoundTrip(src, lens);
    }
  }

  /* ---- The encoder's buffer ---------------------------------------------- */

  /** The buffer the encoder reserves. */
  function EncodeBound(n: nat): nat
  {
    Huffman.HDR_PREFIX + NSYMS + STREAM_HDR + n + n / 2 + 32
  }

  function BitsTo(src: seq<byte>, lens: seq<nat>, j: nat): nat
    requires j <= 4 && Coded(lens, src)
  {
    if j == 0 then 0 else BitsTo(src, lens, j - 1) + |CodeStream(lens, Part(src, j - 1))|
  }

  lemma PartCoded(lens: seq<nat>, src: seq<byte>, j: nat)
    requires j < 4 && Coded(lens, src)
    ensures Coded(lens, Part(src, j))
  {
  }

  lemma FourParts(src: seq<byte>, lens: seq<nat>)
    requires Coded(lens, src)
    ensures BitsTo(src, lens, 4) == |CodeStream(lens, Part(src, 0))| + |CodeStream(lens, Part(src, 1))|
                                    + |CodeStream(lens, Part(src, 2))| + |CodeStream(lens, Part(src, 3))|
  {
    PartCoded(lens, src, 0);
    PartCoded(lens, src, 1);
    PartCoded(lens, src, 2);
    PartCoded(lens, src, 3);
    hide CodeStream, Part, Coded;
    assert BitsTo(src, lens, 1) == |CodeStream(lens, Part(src, 0))|;
    assert BitsTo(src, lens, 2) == BitsTo(src, lens, 1) + |CodeStream(lens, Part(src, 1))|;
    assert BitsTo(src, lens, 3) == BitsTo(src, lens, 2) + |CodeStream(lens, Part(src, 2))|;
  }

  /** Cutting the input does not change the number of bits. */
  lemma {:induction false} PartsBits(src: seq<byte>, lens: seq<nat>, j: nat)
    requires j <= 4 && Coded(lens, src)
    ensures Coded(lens, src[..Offset(|src|, j)])
    ensures BitsTo(src, lens, j) == |CodeStream(lens, src[..Offset(|src|, j)])|
  {
    if j > 0 {
      hide CodeStream;
      PartsBits(src, lens, j - 1);
      NextPart(src, j - 1);
      CodeStreamConcat(lens, src[..Offset(|src|, j - 1)], Part(src, j - 1));
    }
  }

  /** Four part streams lose at most seven bits each to padding, so they stay inside the buffer. */
  lemma StaysInBuffer(lens: seq<nat>, src: seq<byte>)
    requires Huffman.LengthsFor(lens, src) && ShortLengths(lens) && Coded(lens, src)
    requires Economical(Histogram(src, NSYMS), lens)
    ensures |Encoded(src, lens)| <= EncodeBound(|src|)
  {
    hide Economical, CodeStream, Pack;
    if |src| < SMALL {
      Huffman.StaysInBuffer(lens, src);
    } else {
      PayloadFits(lens, src);
      PartsBits(src, lens, 4);
      assert src[..|src|] == src;
      FourParts(src, lens);
    }
  }

  /* ---- Encoder ----------------------------------------------------------- */

  /** One chunk's stream; nothing for an empty chunk. */
  method EncodePart(src: seq<byte>, lens: seq<nat>, codes: seq<nat>, j: nat) returns (out: seq<byte>)
    requires j < 4 && Huffman.EncoderTable(lens, codes) && Coded(lens, src)
    requires |src| < U32_LIMIT
    ensures out == Packed(src, lens, j) && LowU32(|out|) == |out|
  {
    PackedSize(src, lens, j);
    var begin, end := Offset(|src|, j), Offset(|src|, j + 1);
    OffsetsAscend(|src|, j);
    if end == begin {
      return [];
    }
    var bw := new BitWriter();
    Huffman.WriteCodes(bw, lens, codes, src, begin, end);
    bw.Flush();
    out := bw.out;
  }

  /** The four streams and their sizes. */
  method EncodeParts(src: seq<byte>, lens: seq<nat>, codes: seq<nat>) returns (payload: seq<byte>, used: seq<nat>)
    requires Huffman.EncoderTable(lens, codes) && Coded(lens, src) && |src| < U32_LIMIT
    ensures payload == Payload(src, lens)
    ensures |used| == 4 && forall j :: 0 <= j < 4 ==> used[j] == |Packed(src, lens, j)|
  {
    hide Packed, CodeStream, LowU32;
    payload, used := [], [];
    for j := 0 to 4
      invariant payload == PayloadTo(src, lens, j) && |used| == j
      invariant forall k {:trigger used[k]} :: 0 <= k < j ==> used[k] == |Packed(src, lens, k)|
    {
      var stream := EncodePart(src, lens, codes, j);
      used := used + [LowU32(|stream|)];
      payload := payload + stream;
    }
    AllPayload(src, lens);
  }

  /** The encoder; only an input too large for 32 bits is refused. */
  method Encode(src: seq<byte>) returns (r: Result<seq<byte>>, ghost lens: seq<nat>)
    ensures |src| >= U32_LIMIT ==> r == Err(Invalid)
    ensures |src| < U32_LIMIT ==>
              Huffman.LengthsFor(lens, src) && ShortLengths(lens) && Coded(lens, src) && r == Ok(Encoded(src, lens))
    ensures r.Ok? ==> |r.value| <= EncodeBound(|src|)
  {
    hide Economical;
    if |src| >= U32_LIMIT {
      return Err(Invalid), [];
    }
    if |src| < SMALL {
      r, lens := Huffman.Encode(src);
      Huffman.CodeStreamBound(lens, src);
      return;
    }
    var table, codes := Huffman.BuildCodes(src);
    lens := table;
    var payload, used := EncodeParts(src, table, codes);
    StaysInBuffer(table, src);
    var head := Huffman.WriteHeader(|src|, 0, table);
    r := Ok(head + (LE(used[0], 4) + LE(used[1], 4) + LE(used[2], 4)) + payload);
  }

  function PayloadTo(src: seq<byte>, lens: seq<nat>, j: nat): seq<byte>
    requires j <= 4 && Coded(lens, src)
  {
    if j == 0 then [] else PayloadTo(src, lens, j - 1) + Packed(src, lens, j - 1)
  }

  lemma AllPayload(src: seq<byte>, lens: seq<nat>)
    requires Coded(lens, src)
    ensures PayloadTo(src, lens, 4) == Payload(src, lens)
  {
    assert PayloadTo(src, lens, 1) == PayloadTo(src, lens, 0) + Packed(src, lens, 0) == Packed(src, lens, 0);
    assert PayloadTo(src, lens, 2) == Packed(src, lens, 0) + Packed(src, lens, 1);
    assert PayloadTo(src, lens, 3) == PayloadTo(src, lens, 2) + Packed(src, lens, 2);
  }

  /* ---- Interleaved decoding ---------------------------------------------- */

  /** One stream: its reader, and where its symbols go. */
  datatype Lane = Lane(br: BitReader, base: nat, n: nat)

  function Readers(lanes: seq<Lane>): set<object>
  {
    set k | 0 <= k < |lanes| :: lanes[k].br
  }

  /** Four separate readers writing four areas that follow each other. */
  predicate Apart(lanes: seq<Lane>)
  {
    && |lanes| == 4
    && (forall a, b :: 0 <= a < b < 4 ==> lanes[a].br != lanes[b].br)
    && (forall a, b :: 0 <= a < b < 4 ==> lanes[a].base + lanes[a].n <= lanes[b].base)
  }

  /** Every stream from lane k on is being decoded, js[i] symbols of it stored. */
  ghost predicate Running(lens: seq<nat>, lanes: seq<Lane>, dst: array<byte>, js: seq<nat>, wholes: seq<run>, k: nat)
    reads dst, Readers(lanes)
  {
    && |lens| <= NSYMS && |lanes| == |js| == |wholes| == 4
    && forall i {:trigger lanes[i]} :: k <= i < 4 ==>
         Decoding(wholes[i], lens, lanes[i].br, dst, lanes[i].base, js[i], lanes[i].n)
  }

  /**
   * Inside a round, the first k streams done: those hold from w to hi - 1 bits and have room for m
   * more symbols; the others still hold what one look-up can use up, and room for what it stores.
   */
  ghost predicate Midway(lanes: seq<Lane>, js: seq<nat>, w: nat, hi: nat, m: nat, most: nat, k: nat)
    reads Readers(lanes)
  {
    && |lanes| == |js| == 4
    && forall i {:trigger lanes[i]} :: 0 <= i < 4 ==>
         if i < k then w <= lanes[i].br.nbits < hi && js[i] + m <= lanes[i].n
         else w + FAST_BITS <= lanes[i].br.nbits <= hi && js[i] + m + most <= lanes[i].n
  }

  /** The decoding of every stream but k, with the output so far given as a value. */
  ghost predicate Others(lens: seq<nat>, lanes: seq<Lane>, out: seq<byte>, js: seq<nat>, wholes: seq<run>, from: nat,
                         k: nat)
    reads set i | 0 <= i < |lanes| && i != k :: lanes[i].br
  {
    && |lens| <= NSYMS && |lanes| == |js| == |wholes| == 4
    && forall i {:trigger lanes[i]} :: from <= i < 4 && i != k ==>
         && lanes[i].br.Valid() && js[i] <= lanes[i].n && lanes[i].base + lanes[i].n <= |out|
         && Progress(wholes[i], lens, Stream(lanes[i].br.src), out[lanes[i].base..lanes[i].base + js[i]],
                     lanes[i].br.pos, lanes[i].n - js[i])
  }

  lemma OtherReaders(lanes: seq<Lane>, k: nat)
    requires Apart(lanes) && k < 4
    ensures forall i {:trigger lanes[i]} :: 0 <= i < 4 && i != k ==> lanes[i].br != lanes[k].br
  {
  }

  /** Writes inside one stream's area leave the other streams' decoding as it was. */
  lemma OthersKeep(lens: seq<nat>, lanes: seq<Lane>, dst: array<byte>, out: seq<byte>, js: seq<nat>, wholes: seq<run>,
                   from: nat, k: nat)
    requires Apart(lanes) && k < 4 && Others(lens, lanes, out, js, wholes, from, k) && |out| == dst.Length
    requires forall x :: 0 <= x < dst.Length && !(lanes[k].base <= x < lanes[k].base + lanes[k].n) ==> dst[x] == out[x]
    ensures forall i {:trigger lanes[i]} :: from <= i < 4 && i != k ==>
              Decoding(wholes[i], lens, lanes[i].br, dst, lanes[i].base, js[i], lanes[i].n)
  {
    forall i | from <= i < 4 && i != k
      ensures Decoding(wholes[i], lens, lanes[i].br, dst, lanes[i].base, js[i], lanes[i].n)
    {
      var b, j := lanes[i].base, js[i];
      assert dst[b..b + j] == out[b..b + j];
    }
  }

  lemma OthersNow(lens: seq<nat>, lanes: seq<Lane>, dst: array<byte>, js: seq<nat>, wholes: seq<run>, from: nat, k: nat)
    requires from < 4 && Running(lens, lanes, dst, js, wholes, from)
    ensures Others(lens, lanes, dst[..], js, wholes, from, k)
  {
    forall i | from <= i < 4 && i != k
      ensures dst[..][lanes[i].base..lanes[i].base + js[i]] == dst[lanes[i].base..lanes[i].base + js[i]]
    {
    }
  }

  lemma EntryBounded(lens: seq<nat>, fast2: seq<Pair>, s: bits, c: nat, p: Pair)
    requires |lens| <= NSYMS && PairTable(lens, fast2) && p == EntryAt(fast2, s, c) && p.total != 0
    ensures p.s0 < NSYMS && p.s1 < NSYMS && p.len1 < p.total <= FAST_BITS
  {
    hide WalkAt, PairTable, EntryAt;
    PairHit(lens, s, c, fast2);
  }

  /** The symbols of an entry, stored, are the next of the run. */
  lemma EntryStored(whole: run, lens: seq<nat>, fast2: seq<Pair>, s: bits, c: nat, done: seq<byte>, next: seq<byte>,
                    n: nat, p: Pair, c': nat, n': nat)
    requires |lens| <= NSYMS && PairTable(lens, fast2) && p == EntryAt(fast2, s, c) && p.total != 0 && n >= 2
    requires Progress(whole, lens, s, done, c, n)
    requires |next| == |done| + (if p.len1 != 0 then 2 else 1) && next[..|done|] == done
    requires next[|done|] == p.s0 && (p.len1 != 0 ==> next[|done| + 1] == p.s1)
    requires c' == c + p.total && n' + |next| == n + |done|
    ensures Progress(whole, lens, s, next, c', n')
  {
    hide WalkAt, PairTable, EntryAt, Progress;
    PairHit(lens, s, c, fast2);
    if p.len1 != 0 {
      BothStored(whole, lens, s, c, done, next, n, Hit(p.s0, p.total - p.len1), Hit(p.s1, p.len1), c', n');
    } else {
      StoredOne(whole, lens, s, done, next, c, n, Hit(p.s0, p.total));
    }
  }

  lemma BothStored(whole: run, lens: seq<nat>, s: bits, c: nat, done: seq<byte>, next: seq<byte>, n: nat, h: Hit,
                   g: Hit, c': nat, n': nat)
    requires |lens| <= NSYMS && n >= 2 && h.sym < NSYMS && g.sym < NSYMS
    requires WalkAt(lens, s, c) == Some(h) && WalkAt(lens, s, c + h.len) == Some(g)
    requires Progress(whole, lens, s, done, c, n)
    requires |next| == |done| + 2 && next[..|done|] == done && next[|done|] == h.sym && next[|done| + 1] == g.sym
    requires c' == c + h.len + g.len && n' == n - 2
    ensures Progress(whole, lens, s, next, c', n')
  {
    hide Progress, WalkAt;
    StoredTwo(whole, lens, s, done, next, c, n, h, g);
  }

  method StorePair(dst: array<byte>, base: nat, i: nat, a: byte, b: byte)
    requires base + i + 2 <= dst.Length
    modifies dst
    ensures dst[base..base + (i + 1)] == old(dst[base..base + i]) + [a]
    ensures dst[base..base + (i + 2)] == old(dst[base..base + i]) + [a, b]
    ensures forall x :: 0 <= x < dst.Length && !(base + i <= x < base + i + 2) ==> dst[x] == old(dst[x])
  {
    dst[base + i] := a;
    dst[base + i + 1] := b;
  }

  /** Stores both symbols of an entry and drops its bits; the second only counts if there is one. */
  method TakePair(br: BitReader, dst: array<byte>, base: nat, i: nat, p: Pair) returns (j: nat)
    requires base + i + 2 <= dst.Length && br.Valid() && p.total <= 64 && br.Ready(p.total)
    requires p.s0 < 256 && p.s1 < 256
    modifies br, dst
    ensures j == (if p.len1 != 0 then i + 2 else i + 1) && br.Valid()
    ensures br.pos == old(br.pos) + p.total && br.nbits == old(br.nbits) - p.total
    ensures dst[base..base + j] == old(dst[base..base + i]) + if p.len1 != 0 then [p.s0, p.s1] else [p.s0]
    ensures forall x :: 0 <= x < dst.Length && !(base + i <= x < base + i + 2) ==> dst[x] == old(dst[x])
  {
    StorePair(dst, base, i, p.s0, p.s1);
    br.Consume(p.total);
    j := if p.len1 != 0 then i + 2 else i + 1;
  }

  /** Stores both bytes of a two-symbol entry and moves past the symbols it holds. */
  method EmitPair(ghost lens: seq<nat>, fast2: seq<Pair>, br: BitReader, dst: array<byte>, base: nat, i: nat, n: nat,
                  ghost whole: run, p: Pair) returns (j: nat)
    requires Decoding(whole, lens, br, dst, base, i, n) && i + 2 <= n && PairTable(lens, fast2)
    requires p == EntryAt(fast2, Stream(br.src), br.pos) && p.total != 0 && br.nbits >= FAST_BITS
    modifies br, dst
    ensures i < j <= i + 2 && Decoding(whole, lens, br, dst, base, j, n)
    ensures old(br.nbits) - FAST_BITS <= br.nbits < old(br.nbits)
    ensures forall x :: 0 <= x < dst.Length && !(base + i <= x < base + i + 2) ==> dst[x] == old(dst[x])
  {
    hide WalkAt, Stream, DecodeSyms, PairTable, Progress, EntryAt, BitReader.Valid;
    ghost var s, c, done := Stream(br.src), br.pos, dst[base..base + i];
    EntryBounded(lens, fast2, s, c, p);
    j := TakePair(br, dst, base, i, p);
    EntryStored(whole, lens, fast2, s, c, done, dst[base..base + j], n - i, p, br.pos, n - j);
  }

  /** The entries each stream from lane k on has looked up, none of them sending it to the walk. */
  ghost predicate Peeked(fast2: seq<Pair>, lanes: seq<Lane>, ps: seq<Pair>, k: nat)
    reads set i | k <= i < |lanes| :: lanes[i].br
  {
    && |lanes| == |ps| == 4 && |fast2| == FAST_SIZE
    && forall i {:trigger lanes[i]} :: k <= i < 4 ==>
         ps[i] == EntryAt(fast2, Stream(lanes[i].br.src), lanes[i].br.pos) && ps[i].total != 0
  }

  lemma PairsPeeked(fast2: seq<Pair>, lanes: seq<Lane>, ps: seq<Pair>, k: nat)
    requires Peeked(fast2, lanes, ps, k) && k < 4
    ensures Peeked(fast2, lanes, ps, k + 1)
    ensures ps[k] == EntryAt(fast2, Stream(lanes[k].br.src), lanes[k].br.pos) && ps[k].total != 0
  {
    hide EntryAt, Stream;
    assert lanes[k] == lanes[k];
  }

  /** EmitPair on lane k, seen from all four lanes. */
  method LanePair(ghost lens: seq<nat>, fast2: seq<Pair>, lanes: seq<Lane>, dst: array<byte>, js: seq<nat>,
                  ghost wholes: seq<run>, k: nat, ps: seq<Pair>, ghost w: nat, ghost hi: nat, ghost m: nat)
    returns (next: seq<nat>)
    requires Apart(lanes) && Running(lens, lanes, dst, js, wholes, 0) && PairTable(lens, fast2) && k < 4
    requires Midway(lanes, js, w, hi, m, 2, k) && Peeked(fast2, lanes, ps, k)
    modifies dst, lanes[k].br
    ensures Running(lens, lanes, dst, next, wholes, 0)
    ensures Midway(lanes, next, w, hi, m, 2, k + 1) && Peeked(fast2, lanes, ps, k + 1)
    ensures js[0] + (if k == 0 then 1 else 0) <= next[0]
  {
    hide PairTable, EntryAt, Stream, Decoding;
    OtherReaders(lanes, k);
    ghost var out := dst[..];
    OthersNow(lens, lanes, dst, js, wholes, 0, k);
    PairsPeeked(fast2, lanes, ps, k);
    var j := EmitPair(lens, fast2, lanes[k].br, dst, lanes[k].base, js[k], lanes[k].n, wholes[k], ps[k]);
    OthersKeep(lens, lanes, dst, out, js, wholes, 0, k);
    next := js[k := j];
  }

  method PeekPairs(fast2: seq<Pair>, lanes: seq<Lane>, ghost js: seq<nat>, ghost w: nat, ghost hi: nat, ghost m: nat)
    returns (ok: bool, ps: seq<Pair>)
    requires |lanes| == 4 && |fast2| == FAST_SIZE && Midway(lanes, js, w, hi, m, 2, 0)
    requires forall i :: 0 <= i < 4 ==> lanes[i].br.Valid()
    ensures ok ==> Peeked(fast2, lanes, ps, 0)
  {
    hide BitReader.Valid, Stream, EntryAt;
    var p0 := PeekPair(fast2, lanes[0].br);
    var p1 := PeekPair(fast2, lanes[1].br);
    var p2 := PeekPair(fast2, lanes[2].br);
    var p3 := PeekPair(fast2, lanes[3].br);
    ps := [p0, p1, p2, p3];
    ok := !(p0.total == 0 || p1.total == 0 || p2.total == 0 || p3.total == 0);
  }

  method EmitPairs(ghost lens: seq<nat>, fast2: seq<Pair>, lanes: seq<Lane>, dst: array<byte>, js: seq<nat>,
                   ghost wholes: seq<run>, ps: seq<Pair>, ghost w: nat, ghost hi: nat, ghost m: nat)
    returns (next: seq<nat>)
    requires Apart(lanes) && Running(lens, lanes, dst, js, wholes, 0) && PairTable(lens, fast2)
    requires Midway(lanes, js, w, hi, m, 2, 0) && Peeked(fast2, lanes, ps, 0)
    modifies dst, Readers(lanes)
    ensures Running(lens, lanes, dst, next, wholes, 0)
    ensures Midway(lanes, next, w, hi, m, 2, 4) && js[0] < next[0]
  {
    hide PairTable, Running, Midway, Peeked;
    next := LanePair(lens, fast2, lanes, dst, js, wholes, 0, ps, w, hi, m);
    next := LanePair(lens, fast2, lanes, dst, next, wholes, 1, ps, w, hi, m);
    next := LanePair(lens, fast2, lanes, dst, next, wholes, 2, ps, w, hi, m);
    next := LanePair(lens, fast2, lanes, dst, next, wholes, 3, ps, w, hi, m);
  }

  /** One round through the two-symbol table; nothing happens when any stream needs the walk. */
  method PairRound(ghost lens: seq<nat>, fast2: seq<Pair>, lanes: seq<Lane>, dst: array<byte>, js: seq<nat>,
                   ghost wholes: seq<run>, ghost w: nat, ghost hi: nat, ghost m: nat)
    returns (again: bool, next: seq<nat>)
    requires Apart(lanes) && Running(lens, lanes, dst, js, wholes, 0) && PairTable(lens, fast2)
    requires Midway(lanes, js, w, hi, m, 2, 0)
    modifies dst, Readers(lanes)
    ensures Running(lens, lanes, dst, next, wholes, 0)
    ensures again ==> Midway(lanes, next, w, hi, m, 2, 4) && js[0] < next[0]
  {
    var ok, ps := PeekPairs(fast2, lanes, js, w, hi, m);
    if !ok {
      return false, js;
    }
    next := EmitPairs(lens, fast2, lanes, dst, js, wholes, ps, w, hi, m);
    again := true;
  }

  ghost predicate PeekedOne(fast: seq<Hit>, lanes: seq<Lane>, hs: seq<Hit>, k: nat)
    reads set i | k <= i < |lanes| :: lanes[i].br
  {
    && |lanes| == |hs| == 4 && |fast| == FAST_SIZE
    && forall i {:trigger lanes[i]} :: k <= i < 4 ==>
         hs[i] == EntryAt(fast, Stream(lanes[i].br.src), lanes[i].br.pos) && hs[i].len != 0
  }

  lemma StillPeeked(fast: seq<Hit>, lanes: seq<Lane>, hs: seq<Hit>, k: nat)
    requires PeekedOne(fast, lanes, hs, k) && k < 4
    ensures PeekedOne(fast, lanes, hs, k + 1) && hs[k] == EntryAt(fast, Stream(lanes[k].br.src), lanes[k].br.pos)
    ensures hs[k].len != 0
  {
    assert lanes[k] == lanes[k];
  }

  /** Stores a one-symbol entry. */
  method EmitFast(ghost lens: seq<nat>, ghost fast: seq<Hit>, br: BitReader, dst: array<byte>, base: nat, i: nat,
                  n: nat, ghost whole: run, h: Hit)
    requires Decoding(whole, lens, br, dst, base, i, n) && i < n && FastTable(lens, fast)
    requires h == EntryAt(fast, Stream(br.src), br.pos) && h.len != 0 && br.nbits >= FAST_BITS
    modifies br, dst
    ensures Decoding(whole, lens, br, dst, base, i + 1, n)
    ensures old(br.nbits) - FAST_BITS <= br.nbits < old(br.nbits)
    ensures forall x :: 0 <= x < dst.Length && x != base + i ==> dst[x] == old(dst[x])
  {
    FastHit(lens, Stream(br.src), br.pos, fast);
    EmitOne(lens, br, dst, base, i, n, whole, h);
  }

  method LaneFast(ghost lens: seq<nat>, fast: seq<Hit>, lanes: seq<Lane>, dst: array<byte>, js: seq<nat>,
                  ghost wholes: seq<run>, k: nat, hs: seq<Hit>, ghost w: nat, ghost hi: nat, ghost m: nat)
    returns (next: seq<nat>)
    requires Apart(lanes) && Running(lens, lanes, dst, js, wholes, 0) && FastTable(lens, fast) && k < 4
    requires Midway(lanes, js, w, hi, m, 1, k) && PeekedOne(fast, lanes, hs, k)
    modifies dst, lanes[k].br
    ensures Running(lens, lanes, dst, next, wholes, 0)
    ensures Midway(lanes, next, w, hi, m, 1, k + 1) && PeekedOne(fast, lanes, hs, k + 1)
    ensures js[0] + (if k == 0 then 1 else 0) <= next[0]
  {
    hide FastTable, EntryAt, Stream, Decoding;
    OtherReaders(lanes, k);
    ghost var out := dst[..];
    OthersNow(lens, lanes, dst, js, wholes, 0, k);
    StillPeeked(fast, lanes, hs, k);
    EmitFast(lens, fast, lanes[k].br, dst, lanes[k].base, js[k], lanes[k].n, wholes[k], hs[k]);
    OthersKeep(lens, lanes, dst, out, js, wholes, 0, k);
    next := js[k := js[k] + 1];
  }

  method PeekOnes(fast: seq<Hit>, lanes: seq<Lane>, ghost js: seq<nat>, ghost w: nat, ghost hi: nat, ghost m: nat)
    returns (ok: bool, hs: seq<Hit>)
    requires |lanes| == 4 && |fast| == FAST_SIZE && Midway(lanes, js, w, hi, m, 1, 0)
    requires forall i :: 0 <= i < 4 ==> lanes[i].br.Valid()
    ensures ok ==> PeekedOne(fast, lanes, hs, 0)
  {
    hide BitReader.Valid, Stream, EntryAt;
    var h0 := PeekFast(fast, lanes[0].br);
    var h1 := PeekFast(fast, lanes[1].br);
    var h2 := PeekFast(fast, lanes[2].br);
    var h3 := PeekFast(fast, lanes[3].br);
    hs := [h0, h1, h2, h3];
    ok := !(h0.len == 0 || h1.len == 0 || h2.len == 0 || h3.len == 0);
  }

  method EmitOnes(ghost lens: seq<nat>, fast: seq<Hit>, lanes: seq<Lane>, dst: array<byte>, js: seq<nat>,
                  ghost wholes: seq<run>, hs: seq<Hit>, ghost w: nat, ghost hi: nat, ghost m: nat)
    returns (next: seq<nat>)
    requires Apart(lanes) && Running(lens, lanes, dst, js, wholes, 0) && FastTable(lens, fast)
    requires Midway(lanes, js, w, hi, m, 1, 0) && PeekedOne(fast, lanes, hs, 0)
    modifies dst, Readers(lanes)
    ensures Running(lens, lanes, dst, next, wholes, 0)
    ensures Midway(lanes, next, w, hi, m, 1, 4) && js[0] < next[0]
  {
    hide FastTable, Running, Midway, PeekedOne;
    next := LaneFast(lens, fast, lanes, dst, js, wholes, 0, hs, w, hi, m);
    next := LaneFast(lens, fast, lanes, dst, next, wholes, 1, hs, w, hi, m);
    next := LaneFast(lens, fast, lanes, dst, next, wholes, 2, hs, w, hi, m);
    next := LaneFast(lens, fast, lanes, dst, next, wholes, 3, hs, w, hi, m);
  }

  lemma RoundReady(lens: seq<nat>, fast: seq<Hit>, lanes: seq<Lane>, dst: array<byte>, js: seq<nat>, wholes: seq<run>)
    requires Apart(lanes) && Running(lens, lanes, dst, js, wholes, 0) && FastTable(lens, fast)
    ensures |fast| == FAST_SIZE && forall i :: 0 <= i < 4 ==> lanes[i].br.Valid()
  {
  }

  /** One round through the one-symbol table. */
  method FastRound(ghost lens: seq<nat>, fast: seq<Hit>, lanes: seq<Lane>, dst: array<byte>, js: seq<nat>,
                   ghost wholes: seq<run>, ghost w: nat, ghost hi: nat, ghost m: nat)
    returns (again: bool, next: seq<nat>)
    requires Apart(lanes) && Running(lens, lanes, dst, js, wholes, 0) && FastTable(lens, fast)
    requires Midway(lanes, js, w, hi, m, 1, 0)
    modifies dst, Readers(lanes)
    ensures Running(lens, lanes, dst, next, wholes, 0)
    ensures again ==> Midway(lanes, next, w, hi, m, 1, 4) && js[0] < next[0]
  {
    RoundReady(lens, fast, lanes, dst, js, wholes);
    var ok, hs := PeekOnes(fast, lanes, js, w, hi, m);
    if !ok {
      return false, js;
    }
    next := EmitOnes(lens, fast, lanes, dst, js, wholes, hs, w, hi, m);
    again := true;
  }

  /** The hot loop may start another iteration: every stream far from its end, in bytes and in symbols. */
  predicate Far(lanes: seq<Lane>, js: seq<nat>)
    requires |lanes| == |js| == 4
    reads Readers(lanes)
  {
    forall i {:trigger lanes[i]} :: 0 <= i < 4 ==>
      js[i] < (if lanes[i].n > 5 then lanes[i].n - 5 else 0) && lanes[i].br.ptr < lanes[i].br.safe
  }

  /** Every register can be refilled: not full, and nothing borrowed. */
  ghost predicate Refillable(lanes: seq<Lane>)
    reads Readers(lanes)
  {
    forall i {:trigger lanes[i]} :: 0 <= i < |lanes| ==> 0 <= lanes[i].br.nbits <= 63
  }

  /** The first k registers are refilled, the others can be; each stream has room for five symbols. */
  ghost predicate Refilling(lanes: seq<Lane>, js: seq<nat>, k: nat)
    reads Readers(lanes)
  {
    && |lanes| == |js| == 4
    && forall i {:trigger lanes[i]} :: 0 <= i < 4 ==>
         && js[i] + 5 <= lanes[i].n
         && if i < k then 57 <= lanes[i].br.nbits <= 64
            else 0 <= lanes[i].br.nbits <= 63 && lanes[i].br.ptr < lanes[i].br.safe
  }

  method RefillLane(ghost lens: seq<nat>, lanes: seq<Lane>, ghost dst: array<byte>, ghost js: seq<nat>,
                    ghost wholes: seq<run>, k: nat)
    requires Apart(lanes) && Running(lens, lanes, dst, js, wholes, 0) && k < 4 && Refilling(lanes, js, k)
    modifies lanes[k].br
    ensures Running(lens, lanes, dst, js, wholes, 0) && Refilling(lanes, js, k + 1)
  {
    ghost var out := dst[..];
    OthersNow(lens, lanes, dst, js, wholes, 0, k);
    lanes[k].br.RefillFast();
    OthersKeep(lens, lanes, dst, out, js, wholes, 0, k);
  }

  /** Refills all four registers by the fast path. */
  method RefillAll(ghost lens: seq<nat>, lanes: seq<Lane>, ghost dst: array<byte>, ghost js: seq<nat>,
                   ghost wholes: seq<run>)
    requires Apart(lanes) && Running(lens, lanes, dst, js, wholes, 0) && Far(lanes, js) && Refillable(lanes)
    modifies Readers(lanes)
    ensures Running(lens, lanes, dst, js, wholes, 0) && Midway(lanes, js, 46, 64, 3, 2, 0)
  {
    RefillLane(lens, lanes, dst, js, wholes, 0);
    RefillLane(lens, lanes, dst, js, wholes, 1);
    RefillLane(lens, lanes, dst, js, wholes, 2);
    RefillLane(lens, lanes, dst, js, wholes, 3);
  }

  /**
   * The interleaved loop. Three rounds take at most 33 bits of the 57 a refill supplies; when any
   * stream needs the walk the loop ends, at whatever symbol each stream has reached.
   */
  method HotLoop(ghost lens: seq<nat>, d: Decoder, lanes: seq<Lane>, dst: array<byte>, start: seq<nat>,
                 ghost wholes: seq<run>) returns (js: seq<nat>)
    requires DecoderFor(lens, d) && Apart(lanes) && Running(lens, lanes, dst, start, wholes, 0) && Refillable(lanes)
    modifies dst, Readers(lanes)
    ensures Running(lens, lanes, dst, js, wholes, 0)
  {
    hide Decoding, PairTable, FastTable;
    js := start;
    while Far(lanes, js)
      invariant Running(lens, lanes, dst, js, wholes, 0) && Refillable(lanes)
      decreases lanes[0].n - js[0]
    {
      RefillAll(lens, lanes, dst, js, wholes);
      var again;
      again, js := PairRound(lens, d.fast2, lanes, dst, js, wholes, 46, 64, 3);
      if !again {
        break;
      }
      again, js := PairRound(lens, d.fast2, lanes, dst, js, wholes, 35, 63, 1);
      if !again {
        break;
      }
      again, js := FastRound(lens, d.fast, lanes, dst, js, wholes, 24, 62, 0);
      if !again {
        break;
      }
    }
  }

  /* ---- The streams' ends ------------------------------------------------- */

  /** One or two symbols near the end of a stream. */
  method FinishStep(ghost lens: seq<nat>, d: Decoder, br: BitReader, dst: array<byte>, base: nat, i: nat, n: nat,
                    ghost whole: run) returns (ok: bool, j: nat)
    requires DecoderFor(lens, d) && Decoding(whole, lens, br, dst, base, i, n) && i + 1 < n
    modifies br, dst
    ensures ok ==> i < j <= n && Decoding(whole, lens, br, dst, base, j, n)
    ensures !ok ==> whole == None
    ensures forall x :: 0 <= x < dst.Length && !(base + i <= x < base + n) ==> dst[x] == old(dst[x])
  {
    hide FastTable, PairTable, TablesFor, CodeLengths, Progress, Stream;
    if br.nbits < FAST_BITS {
      br.Refill();
    }
    if br.nbits >= FAST_BITS {
      j := PairStep(lens, d.fast2, br, dst, base, i, n, whole);
      if j > i {
        return true, j;
      }
    }
    ok := SlowStep(lens, d.tables, br, dst, base, i, n, whole);
    j := i + 1;
  }

  /** Decodes the rest of one stream. */
  method Finish(ghost lens: seq<nat>, d: Decoder, br: BitReader, dst: array<byte>, base: nat, start: nat, n: nat,
                ghost whole: run) returns (ok: bool)
    requires DecoderFor(lens, d) && Decoding(whole, lens, br, dst, base, start, n)
    modifies br, dst
    ensures ok ==> whole.Some? && dst[base..base + n] == whole.value.0
    ensures !ok ==> whole == None
    ensures forall x :: 0 <= x < dst.Length && !(base <= x < base + n) ==> dst[x] == old(dst[x])
  {
    var j := start;
    while j + 1 < n
      invariant j <= n && Decoding(whole, lens, br, dst, base, j, n)
      invariant forall x :: 0 <= x < dst.Length && !(base <= x < base + n) ==> dst[x] == old(dst[x])
      decreases n - j
    {
      ok, j := FinishStep(lens, d, br, dst, base, j, n, whole);
      if !ok {
        return;
      }
    }
    ok := Huffman.Tail(lens, d, br, dst, base, j, n, whole);
    if ok {
      assert dst[base..base + n] + [] == dst[base..base + n];
    }
  }

  /** Each lane's reader starts at its own stream. */
  predicate RunsOf(lens: seq<nat>, streams: seq<seq<byte>>, lanes: seq<Lane>, wholes: seq<run>)
  {
    && |lens| <= NSYMS && |lanes| == |wholes| == |streams| == 4
    && forall i {:trigger wholes[i]} :: 0 <= i < 4 ==> wholes[i] == DecodeSyms(lens, Stream(streams[i]), 0, lanes[i].n)
  }

  /** Areas that follow each other without gaps, from the start to the end of the output. */
  predicate Tiled(lanes: seq<Lane>, size: nat)
  {
    && |lanes| == 4 && lanes[0].base == 0 && lanes[3].base + lanes[3].n == size
    && forall i {:trigger lanes[i]} :: 0 <= i < 3 ==> lanes[i].base + lanes[i].n == lanes[i + 1].base
  }

  function LaneSizes(lanes: seq<Lane>): (n: seq<nat>)
    ensures |n| == |lanes|
  {
    seq(|lanes|, i requires 0 <= i < |lanes| => lanes[i].n)
  }

  /** Finishes stream k, the ones before it done. */
  method FinishLane(ghost lens: seq<nat>, d: Decoder, lanes: seq<Lane>, dst: array<byte>, js: seq<nat>,
                    ghost wholes: seq<run>, k: nat) returns (ok: bool)
    requires DecoderFor(lens, d) && Apart(lanes) && Running(lens, lanes, dst, js, wholes, k) && k < 4
    modifies dst, lanes[k].br
    ensures Running(lens, lanes, dst, js, wholes, k + 1)
    ensures ok ==> wholes[k].Some? && dst[lanes[k].base..lanes[k].base + lanes[k].n] == wholes[k].value.0
    ensures !ok ==> wholes[k] == None
    ensures lanes[k].base <= dst.Length && dst[..lanes[k].base] == old(dst[..lanes[k].base])
  {
    ghost var out := dst[..];
    OthersNow(lens, lanes, dst, js, wholes, k, k);
    ok := Finish(lens, d, lanes[k].br, dst, lanes[k].base, js[k], lanes[k].n, wholes[k]);
    OthersKeep(lens, lanes, dst, out, js, wholes, k, k);
  }

  lemma PartJoins(lens: seq<nat>, streams: seq<seq<byte>>, sizes: seq<nat>, k: nat, front: seq<byte>, r: run)
    requires |lens| <= NSYMS && k < |streams| == |sizes|
    requires DecodeTo(lens, streams, sizes, k) == Some(front)
    requires r == DecodeSyms(lens, Stream(streams[k]), 0, sizes[k])
    ensures DecodeTo(lens, streams, sizes, k + 1) == if r.Some? then Some(front + r.value.0) else None
  {
  }

  function AreaStart(lanes: seq<Lane>, size: nat, k: nat): nat
    requires k <= |lanes|
  {
    if k == |lanes| then size else lanes[k].base
  }

  /** The first k streams are done, and the output up to the next area is their decoding. */
  ghost predicate FinishedTo(lens: seq<nat>, streams: seq<seq<byte>>, lanes: seq<Lane>, dst: array<byte>, js: seq<nat>,
                             wholes: seq<run>, k: nat)
    reads dst, Readers(lanes)
  {
    && Apart(lanes) && Tiled(lanes, dst.Length) && RunsOf(lens, streams, lanes, wholes) && k <= 4
    && Running(lens, lanes, dst, js, wholes, k) && AreaStart(lanes, dst.Length, k) <= dst.Length
    && DecodeTo(lens, streams, LaneSizes(lanes), k) == Some(dst[..AreaStart(lanes, dst.Length, k)])
  }

  /** FinishLane, seen from the output as a whole: it grows by the stream's own decoding. */
  method FinishNext(ghost lens: seq<nat>, d: Decoder, ghost streams: seq<seq<byte>>, lanes: seq<Lane>, dst: array<byte>,
                    js: seq<nat>, ghost wholes: seq<run>, k: nat) returns (ok: bool)
    requires DecoderFor(lens, d) && FinishedTo(lens, streams, lanes, dst, js, wholes, k) && k < 4
    modifies dst, lanes[k].br
    ensures ok ==> FinishedTo(lens, streams, lanes, dst, js, wholes, k + 1)
    ensures !ok ==> DecodeTo(lens, streams, LaneSizes(lanes), k + 1) == None
  {
    hide Decoding, DecodeSyms, DecodeTo, DecoderFor, Stream;
    ghost var front := dst[..lanes[k].base];
    PartJoins(lens, streams, LaneSizes(lanes), k, front, wholes[k]);
    ok := FinishLane(lens, d, lanes, dst, js, wholes, k);
    if ok {
      Extended(dst, lanes[k].base, lanes[k].n, front, wholes[k].value.0);
      Grown(lens, streams, lanes, dst, js, wholes, k);
    }
  }

  lemma Grown(lens: seq<nat>, streams: seq<seq<byte>>, lanes: seq<Lane>, dst: array<byte>, js: seq<nat>,
              wholes: seq<run>, k: nat)
    requires Apart(lanes) && Tiled(lanes, dst.Length) && RunsOf(lens, streams, lanes, wholes) && k < 4
    requires Running(lens, lanes, dst, js, wholes, k + 1) && lanes[k].base + lanes[k].n <= dst.Length
    requires DecodeTo(lens, streams, LaneSizes(lanes), k + 1) == Some(dst[..lanes[k].base + lanes[k].n])
    ensures FinishedTo(lens, streams, lanes, dst, js, wholes, k + 1)
  {
    NextArea(lanes, dst.Length, k);
  }

  lemma Extended(dst: array<byte>, base: nat, n: nat, front: seq<byte>, part: seq<byte>)
    requires base + n <= dst.Length && dst[..base] == front && dst[base..base + n] == part
    ensures dst[..base + n] == front + part
  {
  }

  /** The end of each area is the start of the next. */
  lemma NextArea(lanes: seq<Lane>, size: nat, k: nat)
    requires Tiled(lanes, size) && Apart(lanes) && k < 4
    ensures lanes[k].base + lanes[k].n == AreaStart(lanes, size, k + 1) <= size
  {
  }

  /** A failed stream makes the whole fail. */
  lemma {:induction false} FailureStays(lens: seq<nat>, streams: seq<seq<byte>>, sizes: seq<nat>, k: nat, j: nat)
    requires |lens| <= NSYMS && k <= j <= |streams| == |sizes| && DecodeTo(lens, streams, sizes, k) == None
    ensures DecodeTo(lens, streams, sizes, j) == None
  {
    if k < j {
      FailureStays(lens, streams, sizes, k, j - 1);
    }
  }

  method FinishAll(ghost lens: seq<nat>, d: Decoder, ghost streams: seq<seq<byte>>, lanes: seq<Lane>, dst: array<byte>,
                   js: seq<nat>, ghost wholes: seq<run>) returns (ok: bool)
    requires DecoderFor(lens, d) && FinishedTo(lens, streams, lanes, dst, js, wholes, 0)
    modifies dst, Readers(lanes)
    ensures var r := DecodeParts(lens, streams, LaneSizes(lanes)); ok == r.Some? && (ok ==> dst[..] == r.value)
  {
    for k := 0 to 4
      invariant FinishedTo(lens, streams, lanes, dst, js, wholes, k)
    {
      ok := FinishNext(lens, d, streams, lanes, dst, js, wholes, k);
      if !ok {
        FailureStays(lens, streams, LaneSizes(lanes), k + 1, 4);
        return;
      }
    }
    assert dst[..dst.Length] == dst[..];
    ok := true;
  }

  /* ---- Decoder ----------------------------------------------------------- */

  /** Areas that follow each other, as long as the decoder's sizes. */
  lemma LaidOut(lanes: seq<Lane>, size: nat)
    requires |lanes| == 4 && forall a, b :: 0 <= a < b < 4 ==> lanes[a].br != lanes[b].br
    requires var n := Sizes(size);
             && lanes[0].base == 0 && lanes[1].base == n[0] && lanes[2].base == n[0] + n[1]
             && lanes[3].base == n[0] + n[1] + n[2] && forall i {:trigger lanes[i]} :: 0 <= i < 4 ==> lanes[i].n == n[i]
    ensures Apart(lanes) && Tiled(lanes, size) && LaneSizes(lanes) == Sizes(size)
  {
    SizesAreCuts(size, 0);
    SizesAreCuts(size, 1);
    SizesAreCuts(size, 2);
    SizesAreCuts(size, 3);
    hide Sizes;
  }

  /** A lane for each stream, its area where the encoder cut the input. */
  method OpenLanes(streams: seq<seq<byte>>, size: nat) returns (lanes: seq<Lane>)
    requires |streams| == 4
    ensures Apart(lanes) && Tiled(lanes, size) && LaneSizes(lanes) == Sizes(size)
    ensures fresh(Readers(lanes)) && Refillable(lanes)
    ensures forall i {:trigger lanes[i]} :: 0 <= i < 4 ==>
              lanes[i].br.Valid() && lanes[i].br.src == streams[i] && lanes[i].br.pos == 0
  {
    var n := Sizes(size);
    var br0 := new BitReader(streams[0]);
    var br1 := new BitReader(streams[1]);
    var br2 := new BitReader(streams[2]);
    var br3 := new BitReader(streams[3]);
    hide Sizes, BitReader.Valid;
    lanes := [Lane(br0, 0, n[0]), Lane(br1, n[0], n[1]), Lane(br2, n[0] + n[1], n[2]),
              Lane(br3, n[0] + n[1] + n[2], n[3])];
    LaidOut(lanes, size);
    hide Apart, Tiled, LaneSizes;
  }

  lemma LanesOpened(lens: seq<nat>, streams: seq<seq<byte>>, lanes: seq<Lane>, dst: array<byte>, wholes: seq<run>)
    requires |lens| <= NSYMS && Tiled(lanes, dst.Length) && |streams| == |wholes| == 4
    requires forall i {:trigger lanes[i]} :: 0 <= i < 4 ==>
               lanes[i].br.Valid() && lanes[i].br.src == streams[i] && lanes[i].br.pos == 0
    requires forall i {:trigger wholes[i]} :: 0 <= i < 4 ==>
             wholes[i] == DecodeSyms(lens, Stream(streams[i]), 0, lanes[i].n)
    ensures Running(lens, lanes, dst, [0, 0, 0, 0], wholes, 0) && RunsOf(lens, streams, lanes, wholes)
  {
    hide DecodeSyms, Stream, Decoding, BitReader.Valid;
    forall i | 0 <= i < 4
      ensures Decoding(wholes[i], lens, lanes[i].br, dst, lanes[i].base, 0, lanes[i].n)
    {
      LaneInside(lanes, dst.Length, i);
      LaneOpened(lens, lanes[i].br, dst, lanes[i].base, lanes[i].n);
    }
  }

  lemma LaneOpened(lens: seq<nat>, br: BitReader, dst: array<byte>, base: nat, n: nat)
    requires |lens| <= NSYMS && br.Valid() && br.pos == 0 && base + n <= dst.Length
    ensures Decoding(DecodeSyms(lens, Stream(br.src), 0, n), lens, br, dst, base, 0, n)
  {
    hide DecodeSyms, Stream;
    PrependTwice([], [], DecodeSyms(lens, Stream(br.src), 0, n));
    assert dst[base..base + 0] == [];
  }

  /** Decodes the four streams into the output. */
  method DecodeStreams(ghost lens: seq<nat>, d: Decoder, streams: seq<seq<byte>>, dst: array<byte>) returns (ok: bool)
    requires DecoderFor(lens, d) && |streams| == 4
    modifies dst
    ensures var r := DecodeParts(lens, streams, Sizes(dst.Length)); ok == r.Some? && (ok ==> dst[..] == r.value)
  {
    var lanes := OpenLanes(streams, dst.Length);
    ghost var wholes := seq(4, i requires 0 <= i < 4 => DecodeSyms(lens, Stream(streams[i]), 0, lanes[i].n));
    LanesOpened(lens, streams, lanes, dst, wholes);
    hide Running, RunsOf, DecodeSyms, DecoderFor, Refillable, Apart;
    var js := HotLoop(lens, d, lanes, dst, [0, 0, 0, 0], wholes);
    assert dst[..0] == [];
    ok := FinishAll(lens, d, streams, lanes, dst, js, wholes);
  }

  lemma LaneInside(lanes: seq<Lane>, size: nat, i: nat)
    requires Tiled(lanes, size) && i < 4
    ensures lanes[i].base + lanes[i].n <= size
  {
    assert lanes[0].base + lanes[0].n == lanes[0 + 1].base;
    assert lanes[1].base + lanes[1].n == lanes[1 + 1].base;
    assert lanes[2].base + lanes[2].n == lanes[2 + 1].base;
  }

  /** The decoder: malformed blocks are refused, the rest decode as specified. */
  method Decode(src: seq<byte>, dst: array<byte>) returns (st: Result<()>)
    modifies dst
    ensures match Decoded(src, dst.Length)
            case Ok(syms) => st == Ok(()) && dst[..] == syms
            case Err(e) => st == Err(e)
  {
    if |src| < Huffman.HDR_PREFIX {
      return Err(Corrupt);
    }
    var n := LEVal(src[8..10]);
    if LEVal(src[0..4]) != dst.Length || n > NSYMS {
      return Err(Corrupt);
    }
    if dst.Length < SMALL {
      st := Huffman.Decode(src, dst);
      return;
    }
    if |src| < Huffman.HDR_PREFIX + n + STREAM_HDR {
      return Err(Corrupt);
    }
    st := DecodeBody(Huffman.StoredLens(src, n), src[Huffman.HDR_PREFIX + n..], dst);
  }

  method DecodeBody(lens: seq<nat>, body: seq<byte>, dst: array<byte>) returns (st: Result<()>)
    requires |lens| == NSYMS && |body| >= STREAM_HDR
    modifies dst
    ensures match DecodedBody(lens, body, dst.Length)
            case Ok(syms) => st == Ok(()) && dst[..] == syms
            case Err(e) => st == Err(e)
  {
    var usable, blCount := Huffman.CheckLengths(lens);
    if !usable {
      return Err(Corrupt);
    }
    var d := BuildDecoder(lens, blCount);
    var ss0, ss1, ss2 := LEVal(body[0..4]), LEVal(body[4..8]), LEVal(body[8..12]);
    var payload := body[STREAM_HDR..];
    if ss0 + ss1 + ss2 > |payload| {
      return Err(Corrupt);
    }
    var ok := DecodeStreams(lens, d, Streams(payload, ss0, ss1, ss2), dst);
    st := if ok then Ok(()) else Err(Corrupt);
  }
}
