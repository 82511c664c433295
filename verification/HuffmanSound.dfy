/**
 * What the Huffman decoders accept (src/entropy/huffman.c, src/entropy/huffman4.c), without the walk: a block
 * decodes to the bytes whose codes its bits begin with. Blocks that were cut short, and sizes not the block's
 * own, are refused, but for one case of the four-stream coder.
 */
module HuffmanSound {
  import opened Base
  import opened BitString
  import opened HuffmanCode
  import opened HuffmanTables
  import opened HuffmanLengths
  import opened HuffmanStream
  import Huffman
  import Huffman4

  /* ---- Bits and codes ---------------------------------------------------- */

  /** The bits from c on, followed by zeros, begin with the codes of these symbols. */
  predicate Spells(lens: seq<nat>, s: bits, c: nat, syms: seq<byte>)
  {
    Coded(lens, syms) && Window(s, c, |CodeStream(lens, syms)|) == CodeStream(lens, syms)
  }

  lemma WindowJoin(s: bits, c: nat, a: nat, b: nat)
    ensures Window(s, c, a) + Window(s, c + a, b) == Window(s, c, a + b)
  {
  }

  lemma WindowFront(s: bits, c: nat, a: nat, b: nat)
    requires a <= b
    ensures Window(s, c, b)[..a] == Window(s, c, a)
  {
  }

  lemma SpellsNone(lens: seq<nat>, s: bits, c: nat)
    ensures Spells(lens, s, c, []) && CodeStream(lens, []) == []
  {
  }

  lemma CodedCons(lens: seq<nat>, x: byte, rest: seq<byte>)
    ensures Coded(lens, [x] + rest) <==> x < |lens| && lens[x] > 0 && Coded(lens, rest)
  {
    var v := [x] + rest;
    assert v[0] == x;
    assert forall i {:trigger rest[i]} :: 0 <= i < |rest| ==> v[i + 1] == rest[i];
  }

  lemma SpellsParts(s: bits, c: nat, a: bits, b: bits)
    ensures Window(s, c, |a| + |b|) == a + b <==> Window(s, c, |a|) == a && Window(s, c + |a|, |b|) == b
  {
    WindowJoin(s, c, |a|, |b|);
    var w, z := Window(s, c, |a|), Window(s, c + |a|, |b|);
    hide Window;
    assert (w + z)[..|a|] == w && (w + z)[|a|..] == z && (a + b)[..|a|] == a && (a + b)[|a|..] == b;
  }

  /** The first symbol and the rest. */
  lemma SpellsHead(lens: seq<nat>, s: bits, c: nat, x: byte, rest: seq<byte>)
    ensures Coded(lens, [x] + rest) <==> x < |lens| && lens[x] > 0 && Coded(lens, rest)
    ensures Coded(lens, [x] + rest) ==>
              && |CodeStream(lens, [x] + rest)| == |CodeBits(lens, x)| + |CodeStream(lens, rest)|
              && (Spells(lens, s, c, [x] + rest) <==>
                    Window(s, c, |CodeBits(lens, x)|) == CodeBits(lens, x)
                    && Spells(lens, s, c + |CodeBits(lens, x)|, rest))
  {
    hide CodeStream, CodeBits, Coded, Window;
    CodedCons(lens, x, rest);
    var v := [x] + rest;
    assert v[0] == x && v[1..] == rest;
    if Coded(lens, v) {
      CodeStreamHead(lens, v);
      SpellsParts(s, c, CodeBits(lens, x), CodeStream(lens, rest));
    }
  }

  /** The walk reads x exactly when the bits begin with the code of x. */
  lemma WalkSpells(lens: seq<nat>, s: bits, c: nat, x: nat)
    requires CodeLengths(lens) && x < |lens| && lens[x] > 0
    ensures WalkAt(lens, s, c) == Some(Hit(x, lens[x])) <==> Window(s, c, lens[x]) == CodeBits(lens, x)
    ensures |CodeBits(lens, x)| == lens[x]
  {
    WalkExact(lens, Window(s, c, MAX_LEN), x);
    WindowFront(s, c, lens[x], MAX_LEN);
  }

  lemma NoWalk(lens: seq<nat>, s: bits, c: nat, syms: seq<byte>)
    requires CodeLengths(lens) && syms != [] && WalkAt(lens, s, c) == None
    ensures !Spells(lens, s, c, syms) && DecodeSyms(lens, s, c, |syms|) == None
  {
    var x := syms[0];
    assert syms == [x] + syms[1..];
    SpellsHead(lens, s, c, x, syms[1..]);
    if x < |lens| && lens[x] > 0 { WalkSpells(lens, s, c, x); }
    ReadNone(lens, s, c, |syms|);
    hide CodeStream, CodeBits, Walk, CodeLengths;
  }

  /** What a walk reads is the first symbol spelled, if anything is. */
  lemma HeadSpells(lens: seq<nat>, s: bits, c: nat, syms: seq<byte>, h: Hit)
    requires CodeLengths(lens) && syms != [] && WalkAt(lens, s, c) == Some(h)
    ensures Spells(lens, s, c, syms) <==> h.sym == syms[0] as nat && Spells(lens, s, c + h.len, syms[1..])
    ensures Spells(lens, s, c, syms) ==>
              Coded(lens, syms[1..]) && |CodeStream(lens, syms)| == h.len + |CodeStream(lens, syms[1..])|
  {
    hide CodeStream, CodeBits, Walk, CodeLengths, Coded, Spells;
    var x := syms[0];
    assert syms == [x] + syms[1..];
    SpellsHead(lens, s, c, x, syms[1..]);
    SpelledCoded(lens, s, c, syms);
    WalkSpells(lens, s, c, h.sym);
    if x < |lens| && lens[x] > 0 { WalkSpells(lens, s, c, x); }
    CodedCons(lens, x, syms[1..]);
    SpelledCoded(lens, s, c + h.len, syms[1..]);
  }

  lemma SpelledCoded(lens: seq<nat>, s: bits, c: nat, syms: seq<byte>)
    ensures Spells(lens, s, c, syms) ==> Coded(lens, syms)
  {
  }

  /** What n walks read is what the bits spell: both ways, for any bits. */
  lemma {:induction false} StreamExact(lens: seq<nat>, s: bits, c: nat, syms: seq<byte>, end: nat)
    requires CodeLengths(lens) && |lens| <= NSYMS
    ensures Spells(lens, s, c, syms) ==> Coded(lens, syms)
    ensures DecodeSyms(lens, s, c, |syms|) == Some((syms, end)) <==>
            Spells(lens, s, c, syms) && end == c + |CodeStream(lens, syms)|
    decreases |syms|
  {
    hide CodeStream, CodeBits, WalkAt, CodeLengths;
    if syms == [] {
      SpellsNone(lens, s, c);
    } else {
      var w := WalkAt(lens, s, c);
      if w.None? {
        NoWalk(lens, s, c, syms);
      } else {
        StreamExact(lens, s, c + w.value.len, syms[1..], end);
        hide Spells, DecodeSyms;
        HeadRead(lens, s, c, syms, end, w.value);
        HeadSpells(lens, s, c, syms, w.value);
      }
    }
  }

  lemma HeadRead(lens: seq<nat>, s: bits, c: nat, syms: seq<byte>, end: nat, h: Hit)
    requires |lens| <= NSYMS && syms != [] && WalkAt(lens, s, c) == Some(h)
    ensures DecodeSyms(lens, s, c, |syms|) == Some((syms, end)) <==>
            h.sym == syms[0] as nat && DecodeSyms(lens, s, c + h.len, |syms| - 1) == Some((syms[1..], end))
  {
    ReadOne(lens, s, c, |syms|, h);
    assert syms == [syms[0]] + syms[1..];
    var r := DecodeSyms(lens, s, c + h.len, |syms| - 1);
    if r.Some? {
      var v := [Sym(h)] + r.value.0;
      assert v[0] == Sym(h) && v[1..] == r.value.0;
    }
  }

  /* ---- The one-stream decoder -------------------------------------------- */

  /** A block is accepted exactly when its sizes hold and its payload begins with the codes of the output. */
  lemma Accepted(src: seq<byte>, out: seq<byte>)
    requires out != []
    ensures Huffman.Decoded(src, |out|) == Ok(out) <==>
              && |src| >= Huffman.HDR_PREFIX && LEVal(src[0..4]) == |out| && LEVal(src[8..10]) <= NSYMS
              && var start := Huffman.HDR_PREFIX + LEVal(src[8..10]);
              && start + Huffman.PayloadNeed(LEVal(src[4..8])) <= |src|
              && var lens := Huffman.StoredLens(src, LEVal(src[8..10]));
              && Huffman.Usable(lens)
              && Spells(lens, Stream(src[start..start + Huffman.PayloadNeed(LEVal(src[4..8]))]), 0, out)
  {
    hide DecodeSyms, Spells, LEVal, Huffman.StoredLens, Stream;
    if |src| >= Huffman.HDR_PREFIX && LEVal(src[8..10]) <= NSYMS {
      var start := Huffman.HDR_PREFIX + LEVal(src[8..10]);
      if start + Huffman.PayloadNeed(LEVal(src[4..8])) <= |src| {
        var lens := Huffman.StoredLens(src, LEVal(src[8..10]));
        if CodeLengths(lens) {
          PayloadSpells(lens, Stream(src[start..start + Huffman.PayloadNeed(LEVal(src[4..8]))]), out);
        }
      }
    }
  }

  lemma PayloadSpells(lens: seq<nat>, s: bits, out: seq<byte>)
    requires CodeLengths(lens)
    ensures Spells(lens, s, 0, out) <==>
            DecodeSyms(lens, s, 0, |out|).Some? && DecodeSyms(lens, s, 0, |out|).value.0 == out
  {
    var r := DecodeSyms(lens, s, 0, |out|);
    if r.Some? { StreamExact(lens, s, 0, out, r.value.1); }
    if Spells(lens, s, 0, out) { StreamExact(lens, s, 0, out, |CodeStream(lens, out)|); }
  }

  /** A block decodes at its own size and at no other, with one stream as with four. */
  lemma OneSize(src: seq<byte>, a: nat, b: nat)
    ensures Huffman.Decoded(src, a).Ok? && Huffman.Decoded(src, b).Ok? ==> a == b
    ensures Huffman4.Decoded(src, a).Ok? && Huffman4.Decoded(src, b).Ok? ==> a == b
    ensures Huffman.Decoded(src, a).Ok? ==> |Huffman.Decoded(src, a).value| == a
  {
    hide Huffman4.DecodedBody, Huffman.StoredLens;
  }

  /** What a prefix still shows of a block's header. */
  lemma HeaderOfPrefix(b: seq<byte>, k: nat)
    requires Huffman.HDR_PREFIX <= k <= |b|
    ensures b[..k][0..4] == b[0..4] && b[..k][4..8] == b[4..8] && b[..k][8..10] == b[8..10]
    ensures forall n: nat :: n <= NSYMS && Huffman.HDR_PREFIX + n <= k ==>
                               Huffman.StoredLens(b[..k], n) == Huffman.StoredLens(b, n)
  {
  }

  /** A block that was cut short is refused, wherever it was cut. */
  lemma TruncatedRefused(src: seq<byte>, lens: seq<nat>, k: nat)
    requires Huffman.LengthsFor(lens, src) && |src| < U32_LIMIT && Coded(lens, src)
    requires |CodeStream(lens, src)| < U32_LIMIT - 7
    ensures |lens| == NSYMS && ShortLengths(lens)
    ensures k < |Huffman.Block(src, lens)| ==> Huffman.Decoded(Huffman.Block(src, lens)[..k], |src|) == Err(Corrupt)
  {
    Huffman.LengthsCode(lens, src);
    var b, code := Huffman.Block(src, lens), CodeStream(lens, src);
    Huffman.HeaderFields(|src|, |code|, lens, Pack(code));
    Huffman.WholeNeed(code);
    if Huffman.HDR_PREFIX <= k < |b| {
      HeaderOfPrefix(b, k);
    }
    hide Huffman.Block, Huffman.Header, CodeStream, Pack, Huffman.DecodedPayload, Huffman.StoredLens, Coded;
  }

  /* ---- The four-stream decoder ------------------------------------------- */

  /** Lengths that use the whole code space leave no bits unreadable. */
  lemma {:induction false} WalkFromTotal(lens: seq<nat>, b: bits, l: nat)
    requires |b| == MAX_LEN && 1 <= l <= MAX_LEN && KraftTo(lens, MAX_LEN) == Pow2(MAX_LEN)
    requires Val(b[..l - 1]) >= End(lens, l - 1)
    ensures WalkFrom(lens, b, l).Some?
    decreases MAX_LEN - l
  {
    WalkStep(lens, b, l);
    if l < MAX_LEN {
      if Val(b[..l]) >= End(lens, l) { WalkFromTotal(lens, b, l + 1); }
    } else {
      RangeEnd(lens, MAX_LEN);
      assert b[..l] == b;
      ValBound(b);
    }
  }

  /** Every window has a walk: any number of symbols can be read, past the end of the bits too. */
  ghost predicate Endless(lens: seq<nat>, s: bits)
    requires |lens| <= NSYMS
  {
    forall c: nat {:trigger WalkAt(lens, s, c)} :: WalkAt(lens, s, c).Some?
  }

  lemma {:induction false} EndlessReads(lens: seq<nat>, s: bits, c: nat, n: nat)
    requires |lens| <= NSYMS && Endless(lens, s)
    ensures DecodeSyms(lens, s, c, n).Some?
    decreases n
  {
    if n > 0 {
      var h := WalkAt(lens, s, c).value;
      EndlessReads(lens, s, c + h.len, n - 1);
    }
  }

  predicate AllZero(s: bits)
  {
    forall i {:trigger s[i]} :: 0 <= i < |s| ==> !s[i]
  }

  lemma {:induction false} OneSymbolStream(lens: seq<nat>, z: nat, src: seq<byte>)
    requires z < |lens| && CodeBits(lens, z) == [false]
    requires forall i {:trigger src[i]} :: 0 <= i < |src| ==> src[i] as nat == z
    requires Coded(lens, src)
    ensures AllZero(CodeStream(lens, src))
  {
    if src != [] {
      OneSymbolStream(lens, z, src[..|src| - 1]);
    }
  }

  lemma CompleteEndless(lens: seq<nat>, s: bits)
    requires |lens| <= NSYMS && KraftTo(lens, MAX_LEN) == Pow2(MAX_LEN)
    ensures Endless(lens, s)
  {
    forall c: nat ensures WalkAt(lens, s, c).Some? {
      WalkFromTotal(lens, Window(s, c, MAX_LEN), 1);
    }
  }

  lemma ZeroEndless(lens: seq<nat>, s: bits)
    requires |lens| <= NSYMS && AllZero(s) && Walk(lens, Zeros(MAX_LEN)).Some?
    ensures Endless(lens, s)
  {
    forall c: nat ensures WalkAt(lens, s, c).Some? {
      assert Window(s, c, MAX_LEN) == Zeros(MAX_LEN);
    }
  }

  /** One byte value in use: the input repeats it. */
  lemma OneIsConstant(src: seq<byte>)
    requires src != [] && ActiveCount(Histogram(src, NSYMS)) == 1
    ensures Huffman.Constant(src)
  {
    var freq := Histogram(src, NSYMS);
    CountPositive(src, src[0]);
    OthersUnused(freq, src[0]);
    forall i | 0 <= i < |src| ensures src[i] == src[0] {
      CountPositive(src, src[i]);
    }
  }

  lemma CutZeros(code: bits, k: nat)
    requires AllZero(code) && k <= |Pack(code)|
    ensures AllZero(Stream(Pack(code)[..k]))
  {
    StreamOfPack(code);
    StreamSlice(Pack(code), 0, k);
    hide Stream, Pack;
    var p := Pack(code);
    assert p[0..k] == p[..k];
  }

  /** With the encoder's lengths, a stream cut anywhere still reads. */
  lemma CutReads(lens: seq<nat>, src: seq<byte>, j: nat, k: nat)
    requires Huffman.LengthsFor(lens, src) && src != [] && j < 4 && Coded(lens, src)
    requires k <= |Huffman4.Packed(src, lens, j)|
    ensures |lens| == NSYMS && Endless(lens, Stream(Huffman4.Packed(src, lens, j)[..k]))
  {
    Huffman.LengthsCode(lens, src);
    var freq := Histogram(src, NSYMS);
    SameActives(freq, lens);
    var s := Stream(Huffman4.Packed(src, lens, j)[..k]);
    if ActiveCount(freq) >= 2 {
      KraftByLength(lens);
      CompleteEndless(lens, s);
    } else {
      OneIsConstant(src);
      Huffman.OneSymbolCode(lens, src);
      OnlyCodeOf(lens, src);
      var part := Huffman4.Part(src, j);
      OneSymbolStream(lens, src[0], part);
      CutZeros(CodeStream(lens, part), k);
      ZeroEndless(lens, s);
    }
  }

  lemma OnlyCodeOf(lens: seq<nat>, src: seq<byte>)
    requires Huffman.LengthsFor(lens, src) && src != [] && Huffman.Constant(src) && |lens| == NSYMS && CodeLengths(lens)
    requires lens[src[0]] == 1
    ensures CodeBits(lens, src[0]) == [false]
  {
    forall s | 0 <= s < NSYMS && s != src[0] as nat ensures lens[s] == 0 {
      CountPositive(src, s);
    }
    Huffman.OnlyCode(lens, src[0]);
  }

  /** Bytes of a four-stream block before its last stream. */
  function LastStream(src: seq<byte>, lens: seq<nat>): (at: nat)
    requires ShortLengths(lens) && Coded(lens, src)
    ensures at <= |Huffman4.Block(src, lens)|
  {
    |Huffman4.Block(src, lens)| - |Huffman4.Packed(src, lens, 3)|
  }

  /** The parts of a block cut inside its last stream. */
  lemma CutBody(src: seq<byte>, lens: seq<nat>, k: nat)
    requires |src| < U32_LIMIT && ShortLengths(lens) && Coded(lens, src) && k <= |Huffman4.Packed(src, lens, 3)|
    ensures var p := Huffman4.PackedList(src, lens);
            var cut := Huffman4.StreamSizes(src, lens) + (p[0] + p[1] + p[2] + p[3][..k]);
            && LEVal(cut[0..4]) == |p[0]| && LEVal(cut[4..8]) == |p[1]| && LEVal(cut[8..12]) == |p[2]|
            && cut[Huffman4.STREAM_HDR..] == p[0] + p[1] + p[2] + p[3][..k]
            && Huffman4.Streams(p[0] + p[1] + p[2] + p[3][..k], |p[0]|, |p[1]|, |p[2]|) == [p[0], p[1], p[2], p[3][..k]]
  {
    var p := Huffman4.PackedList(src, lens);
    Huffman4.BodyFields(src, lens);
    Huffman4.PackedSize(src, lens, 3);
    Huffman4.StreamsSplit(p[0], p[1], p[2], p[3][..k]);
    hide Huffman4.Packed, LEVal, LE, Huffman4.Streams;
    var whole, cut := Huffman4.StreamSizes(src, lens) + Huffman4.Payload(src, lens),
      Huffman4.StreamSizes(src, lens) + (p[0] + p[1] + p[2] + p[3][..k]);
    assert cut[0..4] == whole[0..4] && cut[4..8] == whole[4..8] && cut[8..12] == whole[8..12];
  }

  lemma {:induction false} SameStreams(lens: seq<nat>, a: seq<seq<byte>>, b: seq<seq<byte>>, sizes: seq<nat>, j: nat)
    requires |lens| <= NSYMS && j <= |a| == |b| == |sizes| && forall i :: 0 <= i < j ==> a[i] == b[i]
    ensures Huffman4.DecodeTo(lens, a, sizes, j) == Huffman4.DecodeTo(lens, b, sizes, j)
  {
    if j > 0 {
      SameStreams(lens, a, b, sizes, j - 1);
    }
  }

  /** Four streams of which the last was cut: the first three decode as before, the last to something. */
  lemma CutStreams(src: seq<byte>, lens: seq<nat>, k: nat)
    requires Huffman.LengthsFor(lens, src) && src != [] && Coded(lens, src) && |src| < U32_LIMIT
    requires k <= |Huffman4.Packed(src, lens, 3)|
    ensures var p := Huffman4.PackedList(src, lens);
            var r := Huffman4.DecodeParts(lens, [p[0], p[1], p[2], p[3][..k]], Huffman4.Sizes(|src|));
            && r.Some? && Huffman4.Offset(|src|, 3) <= |r.value|
            && r.value[..Huffman4.Offset(|src|, 3)] == src[..Huffman4.Offset(|src|, 3)]
  {
    Huffman.LengthsCode(lens, src);
    hide Huffman4.Packed, Coded, DecodeSyms, Stream, Huffman4.Sizes, Huffman4.Offset, Huffman.LengthsFor;
    var p, n := Huffman4.PackedList(src, lens), Huffman4.Sizes(|src|);
    var cut := [p[0], p[1], p[2], p[3][..k]];
    Huffman4.PartsRead(lens, src, 3);
    SameStreams(lens, p, cut, n, 3);
    CutReads(lens, src, 3, k);
    EndlessReads(lens, Stream(cut[3]), 0, n[3]);
    LastOf(lens, cut, n);
  }

  lemma LastOf(lens: seq<nat>, streams: seq<seq<byte>>, sizes: seq<nat>)
    requires |lens| <= NSYMS && |streams| == |sizes| == 4 && Huffman4.DecodeTo(lens, streams, sizes, 3).Some?
    requires DecodeSyms(lens, Stream(streams[3]), 0, sizes[3]).Some?
    ensures Huffman4.DecodeParts(lens, streams, sizes)
            == Some(Huffman4.DecodeTo(lens, streams, sizes, 3).value
                    + DecodeSyms(lens, Stream(streams[3]), 0, sizes[3]).value.0)
  {
    hide DecodeSyms, Stream;
  }

  /** The block's parts, and what a cut leaves of them. */
  lemma BlockLayout(src: seq<byte>, lens: seq<nat>)
    requires |lens| == NSYMS && |src| < U32_LIMIT && ShortLengths(lens) && Coded(lens, src)
    ensures var b, n := Huffman4.Block(src, lens), UsedPrefix(lens);
            var p := Huffman4.PackedList(src, lens);
            && n <= NSYMS && |b| == Huffman.HDR_PREFIX + n + Huffman4.STREAM_HDR + |p[0]| + |p[1]| + |p[2]| + |p[3]|
            && LEVal(b[0..4]) == |src| && LEVal(b[8..10]) == n && Huffman.StoredLens(b, n) == lens
            && b[Huffman.HDR_PREFIX + n..] == Huffman4.StreamSizes(src, lens) + (p[0] + p[1] + p[2] + p[3])
  {
    var body := Huffman4.StreamSizes(src, lens) + Huffman4.Payload(src, lens);
    Huffman4.BlockParts(src, lens);
    Huffman.HeaderFields(|src|, 0, lens, body);
  }

  /** Too short for its stream sizes, or for the streams they give: refused. */
  lemma ShortRefused(b: seq<byte>, size: nat, n: nat)
    requires |b| >= Huffman.HDR_PREFIX && size >= Huffman4.SMALL && n <= NSYMS && LEVal(b[8..10]) == n
    ensures |b| < Huffman.HDR_PREFIX + n + Huffman4.STREAM_HDR ==> Huffman4.Decoded(b, size) == Err(Corrupt)
    ensures |b| >= Huffman.HDR_PREFIX + n + Huffman4.STREAM_HDR ==>
              var body := b[Huffman.HDR_PREFIX + n..];
              LEVal(body[0..4]) + LEVal(body[4..8]) + LEVal(body[8..12]) > |body| - Huffman4.STREAM_HDR ==>
                Huffman4.Decoded(b, size) == Err(Corrupt)
  {
    hide LEVal, Huffman.StoredLens, Huffman4.DecodeParts, Huffman4.Streams, Huffman4.Sizes, CodeLengths;
  }

  /** What a prefix shows of a block once it has the stream sizes. */
  lemma CutFields(src: seq<byte>, lens: seq<nat>, k: nat)
    requires |lens| == NSYMS && |src| < U32_LIMIT && ShortLengths(lens) && Coded(lens, src)
    requires UsedPrefix(lens) <= NSYMS
    requires Huffman.HDR_PREFIX + UsedPrefix(lens) + Huffman4.STREAM_HDR <= k <= |Huffman4.Block(src, lens)|
    ensures var body := Huffman4.Block(src, lens)[..k][Huffman.HDR_PREFIX + UsedPrefix(lens)..];
            var p := Huffman4.PackedList(src, lens);
            && LEVal(body[0..4]) == |p[0]| && LEVal(body[4..8]) == |p[1]| && LEVal(body[8..12]) == |p[2]|
            && body == (Huffman4.StreamSizes(src, lens) + (p[0] + p[1] + p[2] + p[3]))
                       [..k - Huffman.HDR_PREFIX - UsedPrefix(lens)]
  {
    var b, start := Huffman4.Block(src, lens), Huffman.HDR_PREFIX + UsedPrefix(lens);
    BlockLayout(src, lens);
    Huffman4.BodyFields(src, lens);
    hide *;
    DropOfTake(b, start, k);
    CutSizes(b[start..], k - start);
  }

  lemma DropOfTake(b: seq<byte>, start: nat, k: nat)
    requires start <= k <= |b|
    ensures b[..k][start..] == b[start..][..k - start]
  {
  }

  lemma CutHeader(src: seq<byte>, lens: seq<nat>, k: nat)
    requires Huffman.LengthsFor(lens, src) && Huffman4.SMALL <= |src| < U32_LIMIT && Coded(lens, src)
    ensures |lens| == NSYMS && ShortLengths(lens)
    ensures k < LastStream(src, lens) ==> Huffman4.Decoded(Huffman4.Block(src, lens)[..k], |src|).Err?
  {
    Huffman.LengthsCode(lens, src);
    BlockLayout(src, lens);
    CutHeaderRefused(src, lens, k);
  }

  lemma CutHeaderRefused(src: seq<byte>, lens: seq<nat>, k: nat)
    requires |lens| == NSYMS && Huffman4.SMALL <= |src| < U32_LIMIT && ShortLengths(lens) && Coded(lens, src)
    requires var b, n, p := Huffman4.Block(src, lens), UsedPrefix(lens), Huffman4.PackedList(src, lens);
             && n <= NSYMS && LEVal(b[8..10]) == n
             && |b| == Huffman.HDR_PREFIX + n + Huffman4.STREAM_HDR + |p[0]| + |p[1]| + |p[2]| + |p[3]|
    ensures k < LastStream(src, lens) ==> Huffman4.Decoded(Huffman4.Block(src, lens)[..k], |src|).Err?
  {
    hide Huffman4.Block, Huffman4.Packed, Huffman.StoredLens, Coded, CodeStream, LEVal, ShortLengths, Huffman4.Decoded;
    var b, n := Huffman4.Block(src, lens), UsedPrefix(lens);
    if k < Huffman.HDR_PREFIX {
      if k <= |b| { TooShort(b[..k], |src|); }
    } else if k < LastStream(src, lens) {
      HeaderOfPrefix(b, k);
      if Huffman.HDR_PREFIX + n + Huffman4.STREAM_HDR <= k { CutFields(src, lens, k); }
      ShortRefused(b[..k], |src|, n);
    }
  }

  lemma TooShort(b: seq<byte>, size: nat)
    requires |b| < Huffman.HDR_PREFIX
    ensures Huffman4.Decoded(b, size) == Err(Corrupt)
  {
  }

  lemma CutSizes(body: seq<byte>, k: nat)
    requires Huffman4.STREAM_HDR <= k <= |body|
    ensures body[..k][0..4] == body[0..4] && body[..k][4..8] == body[4..8] && body[..k][8..12] == body[8..12]
  {
  }

  lemma CutPayload(src: seq<byte>, lens: seq<nat>, k: nat)
    requires Huffman.LengthsFor(lens, src) && Huffman4.SMALL <= |src| < U32_LIMIT && Coded(lens, src)
    requires |lens| == NSYMS && ShortLengths(lens) && LastStream(src, lens) <= k <= |Huffman4.Block(src, lens)|
    ensures var r := Huffman4.Decoded(Huffman4.Block(src, lens)[..k], |src|);
            && r.Ok? && Huffman4.Offset(|src|, 3) <= |r.value|
            && r.value[..Huffman4.Offset(|src|, 3)] == src[..Huffman4.Offset(|src|, 3)]
  {
    Huffman.LengthsCode(lens, src);
    hide Huffman4.Block, Huffman4.Packed, Huffman.StoredLens, Coded, CodeStream, Huffman4.Streams, Huffman4.Sizes,
      Huffman4.StreamSizes, Huffman4.DecodeParts, Huffman.LengthsFor, LEVal, CodeLengths, ShortLengths,
      Huffman4.Decoded, Huffman4.DecodedBody;
    var b, n := Huffman4.Block(src, lens), UsedPrefix(lens);
    BlockLayout(src, lens);
    HeaderOfPrefix(b, k);
    var p, m := Huffman4.PackedList(src, lens), k - LastStream(src, lens);
    var cut := Huffman4.StreamSizes(src, lens) + (p[0] + p[1] + p[2] + p[3][..m]);
    CutTail(Huffman4.StreamSizes(src, lens), p[0] + p[1] + p[2], p[3], m);
    DropOfTake(b, Huffman.HDR_PREFIX + n, k);
    Huffman4.DecodedFields(b[..k], |src|, n, lens, cut);
    CutBodyReads(src, lens, m);
  }

  lemma CutBodyReads(src: seq<byte>, lens: seq<nat>, m: nat)
    requires Huffman.LengthsFor(lens, src) && src != [] && |src| < U32_LIMIT && Coded(lens, src)
    requires |lens| == NSYMS && ShortLengths(lens) && m <= |Huffman4.Packed(src, lens, 3)|
    ensures var p := Huffman4.PackedList(src, lens);
            var cut := Huffman4.StreamSizes(src, lens) + (p[0] + p[1] + p[2] + p[3][..m]);
            var r := Huffman4.DecodedBody(lens, cut, |src|);
            && r.Ok? && Huffman4.Offset(|src|, 3) <= |r.value|
            && r.value[..Huffman4.Offset(|src|, 3)] == src[..Huffman4.Offset(|src|, 3)]
  {
    Huffman.LengthsCode(lens, src);
    CutBody(src, lens, m);
    CutStreams(src, lens, m);
    hide Huffman4.Packed, Coded, CodeStream, Huffman4.Streams, Huffman4.Sizes, Huffman4.StreamSizes, LEVal,
      Huffman4.DecodeParts, Huffman.LengthsFor, CodeLengths, ShortLengths, Huffman4.Offset;
  }

  lemma CutTail(a: seq<byte>, b: seq<byte>, c: seq<byte>, m: nat)
    requires m <= |c|
    ensures (a + (b + c))[..|a| + |b| + m] == a + (b + c[..m])
  {
  }

  /**
   * A block that was cut short is refused if and only if it was cut before its last stream. That stream's size
   * is not stored and the bits after it read as zeros, so a cut inside it gives an output whose first three
   * parts are right.
   */
  lemma TruncatedExactly(src: seq<byte>, lens: seq<nat>, k: nat)
    requires Huffman.LengthsFor(lens, src) && Huffman4.SMALL <= |src| < U32_LIMIT && Coded(lens, src)
    ensures |lens| == NSYMS && ShortLengths(lens)
    ensures k < |Huffman4.Block(src, lens)| ==>
              var r := Huffman4.Decoded(Huffman4.Block(src, lens)[..k], |src|);
              && (r.Err? <==> k < LastStream(src, lens))
              && (r.Ok? ==> Huffman4.Offset(|src|, 3) <= |r.value|
                            && r.value[..Huffman4.Offset(|src|, 3)] == src[..Huffman4.Offset(|src|, 3)])
  {
    CutHeader(src, lens, k);
    if LastStream(src, lens) <= k < |Huffman4.Block(src, lens)| {
      CutPayload(src, lens, k);
    }
  }
}
