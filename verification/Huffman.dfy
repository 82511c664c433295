/**
 * The single-stream Huffman coder (src/entropy/huffman.c): histogram, block layout, encoder, decoder,
 * what the decoder accepts, and exactly which inputs survive the round trip.
 */
module Huffman {
  import opened Base
  import opened BitString
  import opened BitIO
  import opened HuffmanCode
  import opened HuffmanTables
  import opened HuffmanLengths
  import opened HuffmanBound
  import opened HuffmanStream
  import opened HuffmanDecode

  /** Size of the fixed part of the block header. */
  const HDR_PREFIX: nat := 10

  /* ---- Histogram --------------------------------------------------------- */

  method Bump(f: array<nat>, s: byte)
    requires f.Length == NSYMS
    modifies f
    ensures f[..] == old(f[..])[s := old(f[s]) + 1]
  {
    f[s] := f[s] + 1;
  }

  lemma CountNext(src: seq<byte>, i: nat, s: int)
    requires i < |src|
    ensures Count(src[..i + 1], s) == Count(src[..i], s) + if src[i] == s then 1 else 0
  {
    assert src[..i + 1][..i] == src[..i];
  }

  /** The four tables together count the first i bytes. */
  predicate Tallied(f0: seq<nat>, f1: seq<nat>, f2: seq<nat>, f3: seq<nat>, src: seq<byte>, i: nat)
  {
    && |f0| == |f1| == |f2| == |f3| == NSYMS && i <= |src|
    && forall s {:trigger f0[s]} {:trigger f1[s]} :: 0 <= s < NSYMS ==>
       f0[s] + f1[s] + f2[s] + f3[s] == Count(src[..i], s)
  }

  /** Counting one more byte in the first table; the table then goes to the back. */
  lemma TallyOne(f0: seq<nat>, f1: seq<nat>, f2: seq<nat>, f3: seq<nat>, src: seq<byte>, i: nat)
    requires Tallied(f0, f1, f2, f3, src, i) && i < |src|
    ensures Tallied(f1, f2, f3, f0[src[i] := f0[src[i]] + 1], src, i + 1)
  {
    var g := f0[src[i] := f0[src[i]] + 1];
    forall s | 0 <= s < NSYMS ensures f1[s] + f2[s] + f3[s] + g[s] == Count(src[..i + 1], s) {
      CountNext(src, i, s);
      assert f0[s] + f1[s] + f2[s] + f3[s] == Count(src[..i], s);
    }
  }

  lemma TallyRotate(f0: seq<nat>, f1: seq<nat>, f2: seq<nat>, f3: seq<nat>, src: seq<byte>, i: nat)
    requires Tallied(f0, f1, f2, f3, src, i)
    ensures Tallied(f3, f0, f1, f2, src, i)
  {
    forall s | 0 <= s < NSYMS ensures f3[s] + f0[s] + f1[s] + f2[s] == Count(src[..i], s) {
      assert f0[s] + f1[s] + f2[s] + f3[s] == Count(src[..i], s);
    }
  }

  lemma NothingTallied(f: seq<nat>, src: seq<byte>)
    requires |f| == NSYMS && forall s :: 0 <= s < NSYMS ==> f[s] == 0
    ensures Tallied(f, f, f, f, src, 0)
  {
  }

  method TallyFour(f0: array<nat>, f1: array<nat>, f2: array<nat>, f3: array<nat>, src: seq<byte>, i: nat)
    requires f0 != f1 && f0 != f2 && f0 != f3 && f1 != f2 && f1 != f3 && f2 != f3
    requires Tallied(f0[..], f1[..], f2[..], f3[..], src, i) && i + 4 <= |src|
    modifies f0, f1, f2, f3
    ensures Tallied(f0[..], f1[..], f2[..], f3[..], src, i + 4)
  {
    TallyOne(f0[..], f1[..], f2[..], f3[..], src, i);
    Bump(f0, src[i]);
    TallyOne(f1[..], f2[..], f3[..], f0[..], src, i + 1);
    Bump(f1, src[i + 1]);
    TallyOne(f2[..], f3[..], f0[..], f1[..], src, i + 2);
    Bump(f2, src[i + 2]);
    TallyOne(f3[..], f0[..], f1[..], f2[..], src, i + 3);
    Bump(f3, src[i + 3]);
  }

  /** The histogram, four tables wide on longer inputs. */
  method CountFreq(src: seq<byte>) returns (freq: seq<nat>)
    ensures freq == Histogram(src, NSYMS)
  {
    hide Tallied;
    var f0 := new nat[NSYMS](_ => 0);
    var f1 := new nat[NSYMS](_ => 0);
    var f2 := new nat[NSYMS](_ => 0);
    var f3 := new nat[NSYMS](_ => 0);
    assert f0[..] == f1[..] == f2[..] == f3[..];
    NothingTallied(f0[..], src);
    var quads := if |src| < 32 then 0 else |src| / 4;
    var i := 0;
    ghost var rounds := 0;
    while i < 4 * quads
      invariant i == 4 * rounds && rounds <= quads
      invariant Tallied(f0[..], f1[..], f2[..], f3[..], src, i)
    {
      TallyFour(f0, f1, f2, f3, src, i);
      i := i + 4;
      rounds := rounds + 1;
    }
    while i < |src|
      invariant i <= |src| && Tallied(f0[..], f1[..], f2[..], f3[..], src, i)
    {
      TallyOne(f0[..], f1[..], f2[..], f3[..], src, i);
      Bump(f0, src[i]);
      TallyRotate(f1[..], f2[..], f3[..], f0[..], src, i + 1);
      i := i + 1;
    }
    freq := MergeTables(f0, f1, f2, f3, src);
  }

  method MergeTables(f0: array<nat>, f1: array<nat>, f2: array<nat>, f3: array<nat>, ghost src: seq<byte>)
    returns (freq: seq<nat>)
    requires Tallied(f0[..], f1[..], f2[..], f3[..], src, |src|)
    ensures freq == Histogram(src, NSYMS)
  {
    freq := seq(NSYMS, s requires 0 <= s < NSYMS reads f0, f1, f2, f3 => f0[s] + f1[s] + f2[s] + f3[s]);
    assert src[..|src|] == src;
    forall s | 0 <= s < NSYMS ensures freq[s] == Count(src, s) {
      assert f0[..][s] + f1[..][s] + f2[..][s] + f3[..][s] == Count(src[..|src|], s);
    }
  }

  /* ---- Block layout ------------------------------------------------------ */

  /** The stored code lengths: none after the last used symbol. */
  function LenBytes(lens: seq<nat>): (b: seq<byte>)
    requires ShortLengths(lens)
    ensures |b| == UsedPrefix(lens)
  {
    seq(UsedPrefix(lens), s requires 0 <= s < |lens| => lens[s])
  }

  function Header(srcSize: nat, payloadBits: nat, lens: seq<nat>): (h: seq<byte>)
    requires ShortLengths(lens)
    ensures |h| == HDR_PREFIX + UsedPrefix(lens)
  {
    LE(srcSize, 4) + LE(payloadBits, 4) + LE(UsedPrefix(lens), 2) + LenBytes(lens)
  }

  function Block(src: seq<byte>, lens: seq<nat>): (b: seq<byte>)
    requires ShortLengths(lens) && Coded(lens, src)
  {
    Header(|src|, |CodeStream(lens, src)|, lens) + Pack(CodeStream(lens, src))
  }

  /** The 256 code lengths a block stores. */
  function StoredLens(src: seq<byte>, n: nat): (lens: seq<nat>)
    requires n <= NSYMS && HDR_PREFIX + n <= |src|
    ensures |lens| == NSYMS
  {
    seq(NSYMS, s requires 0 <= s < NSYMS => if s < n then src[HDR_PREFIX + s] else 0)
  }

  /** Lengths a decoder accepts: within bounds, not over-full, and not all zero. */
  predicate Usable(lens: seq<nat>)
  {
    CodeLengths(lens) && ActiveCount(lens) > 0
  }

  /** Payload bytes the decoder takes for a bit count; the rounding up is done in 32 bits. */
  function PayloadNeed(payloadBits: nat): nat
  {
    (payloadBits + 7) % U32_LIMIT / 8
  }

  lemma NeedExact(payloadBits: nat)
    requires payloadBits < U32_LIMIT
    ensures PayloadNeed(payloadBits) == if payloadBits < U32_LIMIT - 7 then (payloadBits + 7) / 8 else 0
  {
    if payloadBits >= U32_LIMIT - 7 {
      DivModUnique(1, U32_LIMIT, payloadBits + 7 - U32_LIMIT);
    }
  }

  /** What the decoder returns, for every input. */
  function Decoded(src: seq<byte>, dstSize: nat): Result<seq<byte>>
  {
    if |src| < HDR_PREFIX then Err(Corrupt)
    else
      var payloadBits, n := LEVal(src[4..8]), LEVal(src[8..10]);
      if LEVal(src[0..4]) != dstSize || n > NSYMS || |src| < HDR_PREFIX + n then Err(Corrupt)
      else if PayloadNeed(payloadBits) > |src| - HDR_PREFIX - n then Err(Corrupt)
      else if dstSize == 0 then (if payloadBits != 0 || n != 0 then Err(Corrupt) else Ok([]))
      else
        var lens, start := StoredLens(src, n), HDR_PREFIX + n;
        DecodedPayload(lens, src[start..start + PayloadNeed(payloadBits)], dstSize)
  }

  function DecodedPayload(lens: seq<nat>, payload: seq<byte>, dstSize: nat): Result<seq<byte>>
    requires |lens| == NSYMS
  {
    if !Usable(lens) then Err(Corrupt)
    else
      match DecodeSyms(lens, Stream(payload), 0, dstSize)
      case None => Err(Corrupt)
      case Some((syms, _)) => Ok(syms)
  }

  lemma StoredLensRoundTrip(head: seq<byte>, lens: seq<nat>, rest: seq<byte>)
    requires |lens| == NSYMS && ShortLengths(lens) && |head| == HDR_PREFIX
    ensures StoredLens(head + LenBytes(lens) + rest, UsedPrefix(lens)) == lens
  {
    var n := UsedPrefix(lens);
    var b := head + LenBytes(lens) + rest;
    forall s | 0 <= s < NSYMS ensures StoredLens(b, n)[s] == lens[s] {
      if s < n {
        assert b[HDR_PREFIX + s] == LenBytes(lens)[s];
      }
    }
  }

  lemma HeaderFields(a: nat, b: nat, lens: seq<nat>, rest: seq<byte>)
    requires |lens| == NSYMS && ShortLengths(lens) && a < U32_LIMIT && b < U32_LIMIT
    ensures var blk := Header(a, b, lens) + rest;
            && |blk| == HDR_PREFIX + UsedPrefix(lens) + |rest|
            && LEVal(blk[0..4]) == a && LEVal(blk[4..8]) == b && LEVal(blk[8..10]) == UsedPrefix(lens)
            && StoredLens(blk, UsedPrefix(lens)) == lens && blk[HDR_PREFIX + UsedPrefix(lens)..] == rest
  {
    var n := UsedPrefix(lens);
    var head := LE(a, 4) + LE(b, 4) + LE(n, 2);
    var blk := Header(a, b, lens) + rest;
    assert blk == head + LenBytes(lens) + rest;
    LEFieldRoundTrip(a, 4);
    LEFieldRoundTrip(b, 4);
    LEFieldRoundTrip(n, 2);
    assert blk[0..4] == LE(a, 4) && blk[4..8] == LE(b, 4) && blk[8..10] == LE(n, 2);
    StoredLensRoundTrip(head, lens, rest);
  }

  /* ---- Round trip -------------------------------------------------------- */

  /** Lengths made for the input's own histogram. */
  predicate LengthsFor(lens: seq<nat>, src: seq<byte>)
  {
    LimitedLengths(Histogram(src, NSYMS), lens)
  }

  lemma LengthsCode(lens: seq<nat>, src: seq<byte>)
    requires LengthsFor(lens, src)
    ensures |lens| == NSYMS && CodeLengths(lens) && Coded(lens, src)
    ensures src != [] <==> ActiveCount(lens) > 0
  {
    LimitedAreCodes(Histogram(src, NSYMS), lens);
    SameActives(Histogram(src, NSYMS), lens);
    forall i | 0 <= i < |src| ensures lens[src[i]] > 0 {
      CountPositive(src, src[i]);
    }
    if src != [] {
      CountPositive(src, src[0]);
      LeafBound(lens, src[0]);
    } else if ActiveCount(lens) > 0 {
      var s := LeafSymbol(lens, 0);
    }
  }

  /** All bytes of the input are equal. */
  predicate Constant(src: seq<byte>)
  {
    forall i :: 0 <= i < |src| ==> src[i] == src[0]
  }

  /** What the decoder reads from a payload of no bytes: one symbol, over and over. */
  lemma {:induction false} EmptyPayloadRun(lens: seq<nat>, c: nat, n: nat)
    requires |lens| <= NSYMS && n > 0
    decreases n
    ensures var h := Walk(lens, Zeros(MAX_LEN));
            var r := DecodeSyms(lens, [], c, n);
            && (h == None ==> r == None)
            && (h.Some? ==> r.Some? && forall i :: 0 <= i < n ==> r.value.0[i] == h.value.sym)
  {
    hide Walk;
    assert Window([], c, MAX_LEN) == Zeros(MAX_LEN);
    var h := Walk(lens, Zeros(MAX_LEN));
    if h.Some? && n > 1 {
      EmptyPayloadRun(lens, c + h.value.len, n - 1);
    }
  }

  /** With one symbol in use, its code is a single zero bit. */
  lemma OneSymbolCode(lens: seq<nat>, src: seq<byte>)
    requires LengthsFor(lens, src) && src != [] && Constant(src)
    ensures Coded(lens, src) && lens[src[0]] == 1
    ensures Walk(lens, Zeros(MAX_LEN)) == Some(Hit(src[0], 1))
  {
    LengthsCode(lens, src);
    var z := src[0];
    forall s | 0 <= s < NSYMS && s != z ensures lens[s] == 0 {
      CountPositive(src, s);
    }
    OnlyActive(lens, z);
    SameActives(Histogram(src, NSYMS), lens);
    OnlyCode(lens, z);
    assert Zeros(MAX_LEN)[..1] == [false];
    WalkReadsCode(lens, Zeros(MAX_LEN), z);
  }

  lemma OnlyActive(lens: seq<nat>, z: nat)
    requires z < |lens| && lens[z] > 0 && forall s :: 0 <= s < |lens| && s != z ==> lens[s] == 0
    ensures ActiveCount(lens) == 1
  {
    var n := |lens| - 1;
    if z == n {
      NoActives(lens[..n]);
    } else {
      OnlyActive(lens[..n], z);
    }
  }

  lemma {:induction false} NoActives(lens: seq<nat>)
    requires forall s :: 0 <= s < |lens| ==> lens[s] == 0
    ensures ActiveCount(lens) == 0
  {
    if lens != [] {
      NoActives(lens[..|lens| - 1]);
    }
  }

  lemma OnlyCode(lens: seq<nat>, z: nat)
    requires CodeLengths(lens) && z < |lens| && lens[z] == 1
    requires forall s :: 0 <= s < |lens| && s != z ==> lens[s] == 0
    ensures CodeBits(lens, z) == [false]
  {
    NoneOfLength(lens[..z], 1);
    assert First(lens, 1) == 2 * (First(lens, 0) + LenCount(lens, 0)) == 0;
    assert Bits(0, 1) == Bits(0, 0) + [false];
  }

  lemma {:induction false} NoneOfLength(lens: seq<nat>, l: nat)
    requires forall s :: 0 <= s < |lens| ==> lens[s] != l
    ensures LenCount(lens, l) == 0
  {
    if lens != [] {
      NoneOfLength(lens[..|lens| - 1], l);
    }
  }

  /** The decoder's reading of an encoded payload. */
  lemma PayloadReads(lens: seq<nat>, src: seq<byte>)
    requires LengthsFor(lens, src)
    ensures Coded(lens, src)
    ensures DecodeSyms(lens, Stream(Pack(CodeStream(lens, src))), 0, |src|) == Some((src, |CodeStream(lens, src)|))
  {
    LengthsCode(lens, src);
    StreamOfPack(CodeStream(lens, src));
    StreamReads(lens, Stream(Pack(CodeStream(lens, src))), 0, src);
  }

  /** The decoder on a block with these fields. */
  lemma DecodedFields(blk: seq<byte>, size: nat, payloadBits: nat, n: nat, lens: seq<nat>, payload: seq<byte>)
    requires size > 0 && n <= NSYMS && |blk| == HDR_PREFIX + n + |payload|
    requires LEVal(blk[0..4]) == size && LEVal(blk[4..8]) == payloadBits && LEVal(blk[8..10]) == n
    requires StoredLens(blk, n) == lens && blk[HDR_PREFIX + n..] == payload
    requires PayloadNeed(payloadBits) <= |payload|
    ensures Decoded(blk, size) == DecodedPayload(lens, payload[..PayloadNeed(payloadBits)], size)
  {
    hide LEVal, StoredLens, DecodedPayload;
    var start, need := HDR_PREFIX + n, PayloadNeed(payloadBits);
    assert blk[start..start + need] == blk[start..][..need];
  }

  /** How the decoder sees an encoded block. */
  lemma DecodedBlock(lens: seq<nat>, src: seq<byte>)
    requires LengthsFor(lens, src) && 0 < |src| < U32_LIMIT && Coded(lens, src)
    requires |CodeStream(lens, src)| < U32_LIMIT
    ensures |lens| == NSYMS && Usable(lens) && PayloadNeed(|CodeStream(lens, src)|) <= |Pack(CodeStream(lens, src))|
    ensures Decoded(Block(src, lens), |src|) ==
            DecodedPayload(lens, Pack(CodeStream(lens, src))[..PayloadNeed(|CodeStream(lens, src)|)], |src|)
  {
    LengthsCode(lens, src);
    var size := |CodeStream(lens, src)|;
    var payload := Pack(CodeStream(lens, src));
    NeedExact(size);
    HeaderFields(|src|, size, lens, payload);
    DecodedFields(Header(|src|, size, lens) + payload, |src|, size, UsedPrefix(lens), lens, payload);
  }

  lemma WholeNeed(code: bits)
    requires |code| < U32_LIMIT - 7
    ensures PayloadNeed(|code|) == |Pack(code)|
  {
    NeedExact(|code|);
  }

  /** Below 2^32 - 7 bits the decoder reads the whole payload. */
  lemma WholePayload(src: seq<byte>, lens: seq<nat>)
    requires LengthsFor(lens, src) && 0 < |src| < U32_LIMIT && Coded(lens, src)
    requires |CodeStream(lens, src)| < U32_LIMIT - 7
    ensures Decoded(Block(src, lens), |src|) == Ok(src)
  {
    var payload := Pack(CodeStream(lens, src));
    DecodedBlock(lens, src);
    PayloadReads(lens, src);
    WholeNeed(CodeStream(lens, src));
    assert payload[..|payload|] == payload;
  }

  /** From 2^32 - 7 bits on it reads none of it. */
  lemma NoPayload(src: seq<byte>, lens: seq<nat>)
    requires LengthsFor(lens, src) && 0 < |src| < U32_LIMIT && Coded(lens, src)
    requires U32_LIMIT - 7 <= |CodeStream(lens, src)| < U32_LIMIT
    ensures Decoded(Block(src, lens), |src|) == Ok(src) <==> Constant(src)
  {
    var payload := Pack(CodeStream(lens, src));
    DecodedBlock(lens, src);
    NeedExact(|CodeStream(lens, src)|);
    assert payload[..0] == [];
    EmptyPayloadRun(lens, 0, |src|);
    if Constant(src) {
      OneSymbolCode(lens, src);
      assert DecodeSyms(lens, [], 0, |src|).value.0 == src;
    }
  }

  /**
   * Decoding an encoded block gives back the input exactly when its payload is shorter than
   * 2^32 - 7 bits or it repeats one byte. Nearer to 2^32 bits the decoder's 32-bit rounding wraps, it
   * reads no payload at all, and returns one symbol repeated.
   */
  lemma RoundTrip(src: seq<byte>, lens: seq<nat>)
    requires LengthsFor(lens, src) && |src| < U32_LIMIT && Coded(lens, src)
    requires |CodeStream(lens, src)| < U32_LIMIT
    ensures Decoded(Block(src, lens), |src|) == Ok(src) <==>
            |CodeStream(lens, src)| < U32_LIMIT - 7 || Constant(src)
  {
    if src == [] {
      EmptyRoundTrip(lens);
    } else if |CodeStream(lens, src)| < U32_LIMIT - 7 {
      WholePayload(src, lens);
    } else {
      NoPayload(src, lens);
    }
  }

  lemma EmptyRoundTrip(lens: seq<nat>)
    requires LengthsFor(lens, []) && Coded(lens, [])
    ensures Decoded(Block([], lens), 0) == Ok([])
  {
    LengthsCode(lens, []);
    EmptyPrefix(lens);
    HeaderFields(0, 0, lens, []);
    assert Block([], lens) == Header(0, 0, lens) + [];
  }

  lemma EmptyPrefix(lens: seq<nat>)
    requires ActiveCount(lens) == 0
    ensures UsedPrefix(lens) == 0
  {
    if lens != [] {
      EmptyPrefix(lens[..|lens| - 1]);
    }
  }

  /** No code is longer than 15 bits, so inputs below 2^32 / 15 bytes always round-trip. */
  lemma {:induction false} CodeStreamBound(lens: seq<nat>, src: seq<byte>)
    requires ShortLengths(lens) && Coded(lens, src)
    ensures |src| <= |CodeStream(lens, src)| <= MAX_LEN * |src|
  {
    if src != [] {
      CodeStreamBound(lens, src[..|src| - 1]);
    }
  }

  /** The buffer the encoder reserves before it writes a bit. */
  function EncodeBound(n: nat): nat
  {
    HDR_PREFIX + NSYMS + n + n / 2 + 16
  }

  /** All it writes stays inside that buffer, also for an input it then refuses. */
  lemma StaysInBuffer(lens: seq<nat>, src: seq<byte>)
    requires LengthsFor(lens, src) && ShortLengths(lens) && Coded(lens, src) && Economical(Histogram(src, NSYMS), lens)
    ensures |Block(src, lens)| <= EncodeBound(|src|) && |CodeStream(lens, src)| <= 12 * |src|
  {
    hide Economical, CodeStream, Pack;
    PayloadFits(lens, src);
  }

  /** Up to 341 MiB nothing the lengths can be leads to a payload too long for the decoder. */
  lemma ModestReturns(lens: seq<nat>, src: seq<byte>)
    requires LengthsFor(lens, src) && ShortLengths(lens) && Coded(lens, src) && Economical(Histogram(src, NSYMS), lens)
    requires 12 * |src| < U32_LIMIT - 7
    ensures |CodeStream(lens, src)| < U32_LIMIT && Decoded(Block(src, lens), |src|) == Ok(src)
  {
    hide Economical, CodeStream, Decoded, Block;
    StaysInBuffer(lens, src);
    RoundTrip(src, lens);
  }

  /* ---- An input that does not survive ------------------------------------ */

  /** One byte 1 followed by 2^32 - 2 zero bytes: two symbols of one bit each. */
  function NearLimit(): (src: seq<byte>)
    ensures |src| == U32_LIMIT - 1
  {
    seq(U32_LIMIT - 1, i => if i == 0 then 1 else 0)
  }

  lemma {:induction false} OnlyTwo(k: seq<int>, a: nat, b: nat)
    requires a < b < |k| && forall s :: 0 <= s < |k| && s != a && s != b ==> k[s] == 0
    ensures Sum(k) == k[a] + k[b]
  {
    var k1 := k[a := 0];
    SumUpdate(k, a, 0);
    SumUpdate(k1, b, 0);
    SumBounds(k1[b := 0], 0, 0);
  }

  /** Two symbols always get one bit each. */
  lemma TwoSymbolLengths(lens: seq<nat>, a: nat, b: nat)
    requires a < b < |lens| && lens[a] > 0 && lens[b] > 0 && Complete(lens, MAX_LEN)
    requires forall s :: 0 <= s < |lens| && s != a && s != b ==> lens[s] == 0
    ensures lens[a] == 1 && lens[b] == 1
  {
    var k := KraftWeights(lens, MAX_LEN);
    OnlyTwo(k, a, b);
    HalfWeight(lens[a]);
    HalfWeight(lens[b]);
  }

  /** A code takes at most half the code space, and half only with one bit. */
  lemma HalfWeight(l: nat)
    requires 1 <= l <= MAX_LEN
    ensures 2 * Pow2(MAX_LEN - l) <= Pow2(MAX_LEN)
    ensures 2 * Pow2(MAX_LEN - l) == Pow2(MAX_LEN) ==> l == 1
  {
    Pow2Monotone(MAX_LEN - l, MAX_LEN - 1);
    if l > 1 { Pow2Monotone(MAX_LEN - l, MAX_LEN - 2); }
  }

  lemma {:induction false} OneBitStream(lens: seq<nat>, src: seq<byte>)
    requires Coded(lens, src) && forall i {:trigger src[i]} :: 0 <= i < |src| ==> lens[src[i]] == 1
    ensures |CodeStream(lens, src)| == |src|
  {
    if src != [] {
      OneBitStream(lens, src[..|src| - 1]);
    }
  }

  lemma NearLimitLengths(lens: seq<nat>)
    requires LengthsFor(lens, NearLimit())
    ensures |lens| == NSYMS && lens[0] == 1 && lens[1] == 1
  {
    var src := NearLimit();
    LengthsCode(lens, src);
    assert src[0] == 1 && src[1] == 0;
    forall s | 2 <= s < NSYMS ensures lens[s] == 0 {
      CountPositive(src, s);
    }
    CountPositive(src, 0);
    CountPositive(src, 1);
    TwoUsed(Histogram(src, NSYMS), 0, 1);
    TwoSymbolLengths(lens, 0, 1);
  }

  /** The wrap-around seen on a concrete input: the encoder accepts it and its block does not decode back. */
  lemma NearLimitFails(lens: seq<nat>)
    requires LengthsFor(lens, NearLimit())
    ensures Coded(lens, NearLimit()) && |CodeStream(lens, NearLimit())| == U32_LIMIT - 1
    ensures Decoded(Block(NearLimit(), lens), U32_LIMIT - 1) != Ok(NearLimit())
  {
    var src := NearLimit();
    LengthsCode(lens, src);
    NearLimitLengths(lens);
    OneBitStream(lens, src);
    RoundTrip(src, lens);
    assert src[0] != src[1];
  }

  /* ---- Encoder ----------------------------------------------------------- */

  /** The encoder's code table for these lengths. */
  predicate EncoderTable(lens: seq<nat>, codes: seq<nat>)
  {
    && |lens| == |codes| == NSYMS && CodeLengths(lens)
    && forall s {:trigger codes[s]} :: 0 <= s < NSYMS && lens[s] != 0 ==> codes[s] == Code(lens, s)
  }

  /** The writer holds the codes of src[begin..k] and nothing else. */
  ghost predicate Wrote(bw: BitWriter, lens: seq<nat>, src: seq<byte>, begin: nat, k: nat)
    reads bw
  {
    && begin <= k <= |src| && bw.Valid() && Coded(lens, src[begin..k])
    && bw.Written() == CodeStream(lens, src[begin..k])
  }

  lemma NothingWrote(bw: BitWriter, lens: seq<nat>, src: seq<byte>, begin: nat)
    requires bw.Valid() && bw.Written() == [] && begin <= |src|
    ensures Wrote(bw, lens, src, begin, begin)
  {
    assert src[begin..begin] == [];
  }

  lemma CodeStreamNext(lens: seq<nat>, src: seq<byte>, begin: nat, k: nat)
    requires begin <= k < |src| && Coded(lens, src)
    ensures Coded(lens, src[begin..k]) && Coded(lens, src[begin..k + 1])
    ensures CodeStream(lens, src[begin..k + 1]) == CodeStream(lens, src[begin..k]) + CodeBits(lens, src[k])
  {
    assert src[begin..k + 1][..k - begin] == src[begin..k];
  }

  method WriteSymbol(bw: BitWriter, lens: seq<nat>, codes: seq<nat>, src: seq<byte>, ghost begin: nat, k: nat)
    requires EncoderTable(lens, codes) && Coded(lens, src) && k < |src| && Wrote(bw, lens, src, begin, k)
    modifies bw
    ensures Wrote(bw, lens, src, begin, k + 1)
  {
    CodeFits(lens, src[k]);
    CodeStreamNext(lens, src, begin, k);
    bw.Write(codes[src[k]], lens[src[k]]);
  }

  method WriteFour(bw: BitWriter, lens: seq<nat>, codes: seq<nat>, src: seq<byte>, ghost begin: nat, k: nat)
    requires EncoderTable(lens, codes) && Coded(lens, src) && k + 4 <= |src| && Wrote(bw, lens, src, begin, k)
    modifies bw
    ensures Wrote(bw, lens, src, begin, k + 4)
  {
    WriteSymbol(bw, lens, codes, src, begin, k);
    WriteSymbol(bw, lens, codes, src, begin, k + 1);
    WriteSymbol(bw, lens, codes, src, begin, k + 2);
    WriteSymbol(bw, lens, codes, src, begin, k + 3);
  }

  method WriteQuads(bw: BitWriter, lens: seq<nat>, codes: seq<nat>, src: seq<byte>, begin: nat, quads: nat)
    requires EncoderTable(lens, codes) && Coded(lens, src) && begin + 4 * quads <= |src|
    requires Wrote(bw, lens, src, begin, begin)
    modifies bw
    ensures Wrote(bw, lens, src, begin, begin + 4 * quads)
  {
    hide Wrote, EncoderTable, Coded, CodeStream, BitWriter.Valid;
    for q := 0 to quads
      invariant Wrote(bw, lens, src, begin, begin + 4 * q)
    {
      WriteFour(bw, lens, codes, src, begin, begin + 4 * q);
    }
  }

  /** Appends the codes of src[begin..end], four at a time and then one by one. */
  method WriteCodes(bw: BitWriter, lens: seq<nat>, codes: seq<nat>, src: seq<byte>, begin: nat, end: nat)
    requires bw.Valid() && bw.Written() == [] && EncoderTable(lens, codes) && Coded(lens, src)
    requires begin <= end <= |src|
    modifies bw
    ensures Wrote(bw, lens, src, begin, end)
  {
    hide Wrote, EncoderTable, Coded, CodeStream, BitWriter.Valid, BitWriter.Written;
    NothingWrote(bw, lens, src, begin);
    var quads := (end - begin) / 4;
    assert 0 <= 4 * quads <= end - begin;
    WriteQuads(bw, lens, codes, src, begin, quads);
    var k := begin + 4 * quads;
    while k < end
      invariant begin <= k <= end && Wrote(bw, lens, src, begin, k)
    {
      WriteSymbol(bw, lens, codes, src, begin, k);
      k := k + 1;
    }
  }

  /** Lengths and codes for an input. */
  method BuildCodes(src: seq<byte>) returns (lens: seq<nat>, codes: seq<nat>)
    requires |src| < U32_LIMIT
    ensures LengthsFor(lens, src) && EncoderTable(lens, codes) && Coded(lens, src)
    ensures ShortLengths(lens) && Economical(Histogram(src, NSYMS), lens)
  {
    hide Economical;
    var freq := CountFreq(src);
    var nUsed;
    lens, nUsed := ComputeLengthsLimited(freq);
    LengthsCode(lens, src);
    codes := BuildCanonical(lens);
  }

  /** The header, with the lengths after the last used symbol left out. */
  method WriteHeader(srcSize: nat, payloadBits: nat, lens: seq<nat>) returns (h: seq<byte>)
    requires ShortLengths(lens)
    ensures h == Header(srcSize, payloadBits, lens)
  {
    var n := MaxSymbol(lens);
    h := LE(srcSize, 4) + LE(payloadBits, 4) + LE(n, 2) + seq(n, s requires 0 <= s < n <= |lens| => lens[s]);
  }

  /**
   * The encoder; refuses inputs whose size or payload bit count does not fit 32 bits. Its block stays inside the
   * buffer reserved for it, and up to 341 MiB it is made and comes back.
   */
  method Encode(src: seq<byte>) returns (r: Result<seq<byte>>, ghost lens: seq<nat>)
    ensures |src| >= U32_LIMIT ==> r == Err(Invalid)
    ensures |src| < U32_LIMIT ==> LengthsFor(lens, src) && ShortLengths(lens) && Coded(lens, src)
    ensures |src| < U32_LIMIT ==>
              r == if |CodeStream(lens, src)| < U32_LIMIT then Ok(Block(src, lens)) else Err(Invalid)
    ensures |src| < U32_LIMIT ==> |Block(src, lens)| <= EncodeBound(|src|)
    ensures 12 * |src| < U32_LIMIT - 7 ==> r.Ok? && Decoded(r.value, |src|) == Ok(src)
  {
    hide Economical, Decoded, LengthsFor, CodeStream, Coded, EncoderTable, Histogram, UsedPrefix, LenBytes, LE;
    if |src| >= U32_LIMIT {
      return Err(Invalid), [];
    }
    var table, codes := BuildCodes(src);
    lens := table;
    StaysInBuffer(table, src);
    if 12 * |src| < U32_LIMIT - 7 { ModestReturns(table, src); }
    var bw := new BitWriter();
    WriteCodes(bw, table, codes, src, 0, |src|);
    assert src[0..|src|] == src;
    bw.Flush();
    if bw.totalBits >= U32_LIMIT {
      return Err(Invalid), lens;
    }
    var head := WriteHeader(|src|, bw.totalBits, table);
    r := Ok(head + bw.out);
  }

  /* ---- Decoder ----------------------------------------------------------- */

  /** n_used: the number of lengths in use. */
  lemma {:induction false} UsedTotal(lens: seq<nat>)
    requires forall s :: 0 <= s < |lens| ==> lens[s] <= MAX_LEN
    ensures FirstSym(lens, MAX_LEN + 1) == ActiveCount(lens)
  {
    if lens == [] {
      NoSymbols(MAX_LEN + 1);
    } else {
      var n := |lens| - 1;
      UsedTotal(lens[..n]);
      FirstSymStep(lens[..n], lens[n], MAX_LEN + 1);
      assert lens == lens[..n] + [lens[n]];
    }
  }

  /** The decoder's checks on stored lengths. */
  method CheckLengths(lens: seq<nat>) returns (ok: bool, blCount: seq<nat>)
    requires |lens| == NSYMS
    ensures ok <==> Usable(lens)
    ensures ok ==> |blCount| == MAX_LEN + 2 && forall l :: 0 <= l <= MAX_LEN ==> blCount[l] == LenCount(lens, l)
  {
    for s := 0 to NSYMS
      invariant forall k :: 0 <= k < s ==> lens[k] <= MAX_LEN
    {
      if lens[s] > MAX_LEN {
        return false, [];
      }
    }
    blCount := CountLengths(lens);
    var kraft := KraftSum(blCount, lens);
    if kraft > Pow2(MAX_LEN) {
      return false, [];
    }
    var nUsed := 0;
    for l := 1 to MAX_LEN + 1
      invariant nUsed == FirstSym(lens, l)
    {
      nUsed := nUsed + blCount[l];
    }
    UsedTotal(lens);
    ok := nUsed != 0;
  }

  /** One symbol near the end: by the table, or by the walk when fewer than 11 bits are left. */
  method TailStep(ghost lens: seq<nat>, d: Decoder, br: BitReader, dst: array<byte>, base: nat, i: nat, n: nat,
                  ghost whole: run) returns (ok: bool)
    requires DecoderFor(lens, d) && Decoding(whole, lens, br, dst, base, i, n) && i < n
    modifies br, dst
    ensures ok ==> Decoding(whole, lens, br, dst, base, i + 1, n)
    ensures !ok ==> whole == None
    ensures forall k :: 0 <= k < dst.Length && k != base + i ==> dst[k] == old(dst[k])
  {
    if br.nbits < FAST_BITS {
      br.Refill();
    }
    if br.nbits >= FAST_BITS {
      var j := FastStep(lens, d.fast, br, dst, base, i, n, whole);
      if j == i + 1 {
        return true;
      }
    }
    ok := SlowStep(lens, d.tables, br, dst, base, i, n, whole);
  }

  /** The symbols left at the end, one at a time. */
  method Tail(ghost lens: seq<nat>, d: Decoder, br: BitReader, dst: array<byte>, base: nat, start: nat, n: nat,
              ghost whole: run) returns (ok: bool)
    requires DecoderFor(lens, d) && Decoding(whole, lens, br, dst, base, start, n)
    modifies br, dst
    ensures ok ==> Decoding(whole, lens, br, dst, base, n, n)
    ensures !ok ==> whole == None
    ensures forall k :: 0 <= k < dst.Length && !(base + start <= k < base + n) ==> dst[k] == old(dst[k])
  {
    for i: nat := start to n
      invariant Decoding(whole, lens, br, dst, base, i, n)
      invariant forall k :: 0 <= k < dst.Length && !(base + start <= k < base + n) ==> dst[k] == old(dst[k])
    {
      ok := TailStep(lens, d, br, dst, base, i, n, whole);
      if !ok {
        return;
      }
    }
    ok := true;
  }

  /** All symbols, two at a time while at least two are left. */
  method DecodeLoop(ghost lens: seq<nat>, d: Decoder, payload: seq<byte>, dst: array<byte>) returns (ok: bool)
    requires DecoderFor(lens, d)
    modifies dst
    ensures var run := DecodeSyms(lens, Stream(payload), 0, dst.Length);
            ok == run.Some? && (ok ==> dst[..] == run.value.0)
  {
    var br := new BitReader(payload);
    var n := dst.Length;
    ghost var whole := DecodeSyms(lens, Stream(payload), 0, n);
    PrependTwice([], [], whole);
    var i: nat := 0;
    while i + 1 < n
      invariant i <= n && br.src == payload && Decoding(whole, lens, br, dst, 0, i, n)
      decreases n - i
    {
      if br.nbits < 2 * FAST_BITS {
        br.Refill();
      }
      var j := PairStep(lens, d.fast2, br, dst, 0, i, n, whole);
      if j == i {
        var found := SlowStep(lens, d.tables, br, dst, 0, i, n, whole);
        if !found {
          return false;
        }
        j := i + 1;
      }
      i := j;
    }
    ok := Tail(lens, d, br, dst, 0, i, n, whole);
    if ok {
      assert dst[0..0 + n] == dst[..];
      assert whole == Some((dst[..] + [], br.pos));
    }
  }

  /** The decoder: every malformed block is refused as corrupt, and the rest decode as specified. */
  method Decode(src: seq<byte>, dst: array<byte>) returns (st: Result<()>)
    modifies dst
    ensures match Decoded(src, dst.Length)
            case Ok(syms) => st == Ok(()) && dst[..] == syms
            case Err(e) => st == Err(e)
  {
    if |src| < HDR_PREFIX {
      return Err(Corrupt);
    }
    var payloadBits, n := LEVal(src[4..8]), LEVal(src[8..10]);
    if LEVal(src[0..4]) != dst.Length || n > NSYMS || |src| < HDR_PREFIX + n {
      return Err(Corrupt);
    }
    var lens, start := StoredLens(src, n), HDR_PREFIX + n;
    var need := PayloadNeed(payloadBits);
    if need > |src| - start {
      return Err(Corrupt);
    }
    if dst.Length == 0 {
      return if payloadBits != 0 || n != 0 then Err(Corrupt) else Ok(());
    }
    st := DecodePayload(lens, src[start..start + need], dst);
  }

  /** Decoding once the header's fields are known. */
  method DecodePayload(lens: seq<nat>, payload: seq<byte>, dst: array<byte>) returns (st: Result<()>)
    requires |lens| == NSYMS
    modifies dst
    ensures match DecodedPayload(lens, payload, dst.Length)
            case Ok(syms) => st == Ok(()) && dst[..] == syms
            case Err(e) => st == Err(e)
  {
    var usable, blCount := CheckLengths(lens);
    if !usable {
      return Err(Corrupt);
    }
    var d := BuildDecoder(lens, blCount);
    var ok := DecodeLoop(lens, d, payload, dst);
    st := if ok then Ok(()) else Err(Corrupt);
  }
}
