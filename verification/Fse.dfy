/**
 * The rANS coder of src/entropy/fse.c: encoder and decoder state machines, the self-contained
 * block format, and the theorem that decoding undoes encoding and uses the payload exactly.
 */
module Fse {
  import opened Base
  import opened FseTable

  /* ---- State machine ----------------------------------------------------- */

  /** Emits low bytes until the state is below xmax; the bytes are in emission order. */
  function Shrink(x: nat, xmax: nat): (r: (nat, seq<byte>))
    requires xmax > 0
    ensures r.0 < xmax && r.0 <= x
  {
    if x < xmax then (x, [])
    else
      var (y, out) := Shrink(x / 256, xmax);
      (y, [x % 256] + out)
  }

  /** Pulls bytes into the state until it is at least L_MIN. */
  function Refill(x: nat, payload: seq<byte>): (r: Option<(nat, seq<byte>)>)
    ensures r.Some? ==> r.value.0 >= L_MIN
    decreases |payload|
  {
    if x >= L_MIN then Some((x, payload))
    else if payload == [] then None
    else Refill(x * 256 + payload[0], payload[1..])
  }

  /** A table size the format admits, and a symbol's range inside it. */
  predicate SymbolRange(log: nat, f: nat, c: nat)
  {
    5 <= log <= 12 && f > 0 && c + f <= Pow2(log)
  }

  function XMax(log: nat, f: nat): (x: nat)
    requires log <= 16
    ensures f > 0 ==> x > 0
  {
    MulMonotone(if f > 0 then 1 else 0, f, Pow2(16 - log) * 256);
    Pow2(16 - log) * 256 * f
  }

  function Spread(y: nat, t: nat, f: nat, c: nat): (x: nat)
    requires f > 0
  {
    MulMonotone(0, y / f, t);
    (y / f) * t + y % f + c
  }

  function EncodeStep(x: nat, log: nat, f: nat, c: nat): (r: (nat, seq<byte>))
    requires SymbolRange(log, f, c)
  {
    var (y, out) := Shrink(x, XMax(log, f));
    (Spread(y, Pow2(log), f, c), out)
  }

  function DecodeStep(x: nat, t: nat, f: nat, c: nat): (y: nat)
    requires t > 0 && c <= x % t
  {
    MulMonotone(0, f, x / t);
    f * (x / t) + x % t - c
  }

  /** Refilling takes back what shrinking a state below L_MIN gave out. */
  lemma {:induction false} RefillUndoesShrink(x: nat, xmax: nat, tail: seq<byte>)
    requires xmax > 0 && x < L_MIN
    ensures Refill(Shrink(x, xmax).0, Rev(Shrink(x, xmax).1) + tail) == Refill(x, tail)
    decreases x
  {
    var (y, out) := Shrink(x, xmax);
    if x < xmax {
      assert Rev(out) + tail == tail;
    } else {
      var (y', out') := Shrink(x / 256, xmax);
      RefillUndoesShrink(x / 256, xmax, [x % 256] + tail);
      assert out[1..] == out' && out[0] == x % 256;
      assert Rev(out) + tail == Rev(out') + ([x % 256] + tail);
      assert ([x % 256] + tail)[1..] == tail;
    }
  }

  /** A shrunk state is not below the lower end of the symbol's interval. */
  lemma {:induction false} ShrinkNotTooFar(x: nat, lo: nat)
    requires lo > 0 && lo <= x
    ensures lo <= Shrink(x, lo * 256).0
  {
    if x >= lo * 256 {
      ShrinkNotTooFar(x / 256, lo);
    }
  }

  /**
   * One symbol: the encoder's new state is back in [2^16, 2^24), it falls in the symbol's slots,
   * and decoding that symbol restores the old state and pulls back exactly the emitted bytes.
   */
  lemma StepRoundTrip(x: nat, log: nat, f: nat, c: nat, tail: seq<byte>)
    requires SymbolRange(log, f, c) && L_MIN <= x < L_MAX
    ensures var (x', out) := EncodeStep(x, log, f, c);
            && L_MIN <= x' < L_MAX
            && c <= x' % Pow2(log) < c + f
            && Refill(DecodeStep(x', Pow2(log), f, c), Rev(out) + tail) == Some((x, tail))
  {
    var (y, out) := Shrink(x, XMax(log, f));
    ShrunkInterval(x, log, f, c);
    ShrunkStateRange(y, Pow2(16 - log), Pow2(log), f, c);
    SpreadInverse(y, Pow2(log), f, c);
    ShrinkThenRefill(x, XMax(log, f), tail);
  }

  /** The shrunk state lies in [k * f, 256 * k * f) for k = 2^(16 - log). */
  lemma Thrice(k: int, f: int)
    ensures k * 256 * f == (k * f) * 256
  {
  }

  lemma ShrunkInterval(x: nat, log: nat, f: nat, c: nat)
    requires SymbolRange(log, f, c) && L_MIN <= x
    ensures Pow2(16 - log) * Pow2(log) == L_MIN
    ensures Pow2(16 - log) * f <= Shrink(x, XMax(log, f)).0 < (Pow2(16 - log) * f) * 256
  {
    var k := Pow2(16 - log);
    TableLogFits(log);
    MulMonotone(1, f, k);
    Thrice(k, f);
    MulMonotone(f, Pow2(log), k);
    ShrinkNotTooFar(x, k * f);
  }

  lemma SpreadInverse(y: nat, t: nat, f: nat, c: nat)
    requires f > 0 && c + f <= t
    ensures Spread(y, t, f, c) % t == y % f + c
    ensures DecodeStep(Spread(y, t, f, c), t, f, c) == y
  {
    var q, r := y / f, y % f;
    DivModUnique(q, t, r + c);
    assert Spread(y, t, f, c) == q * t + (r + c);
    assert f * q + r == y;
  }

  lemma ShrinkThenRefill(x: nat, xmax: nat, tail: seq<byte>)
    requires xmax > 0 && L_MIN <= x < L_MAX
    ensures var (y, out) := Shrink(x, xmax); Refill(y, Rev(out) + tail) == Some((x, tail))
  {
    var (y, out) := Shrink(x, xmax);
    if x < xmax {
      assert Rev(out) + tail == tail;
    } else {
      var (y', out') := Shrink(x / 256, xmax);
      assert y == y' && out == [x % 256] + out';
      RefillUndoesShrink(x / 256, xmax, [x % 256] + tail);
      assert Rev(out) + tail == Rev(out') + ([x % 256] + tail);
      assert ([x % 256] + tail)[1..] == tail;
    }
  }

  lemma ShrunkStateRange(y: nat, k: nat, t: nat, f: nat, c: nat)
    requires k * t == L_MIN && f > 0 && c + f <= t
    requires k * f <= y < (k * f) * 256
    ensures L_MIN <= Spread(y, t, f, c) < L_MAX
  {
    var q := y / f;
    DivAtLeast(y, f, k);
    assert (k * f) * 256 == (k * 256) * f;
    DivBelow(y, f, k * 256);
    MulMonotone(k, q, t);
    MulMonotone(q + 1, k * 256, t);
    assert (q + 1) * t == q * t + t;
    assert (k * 256) * t == (k * t) * 256;
  }

  /* ---- Whole streams ----------------------------------------------------- */

  /** Every byte of the input has a count in a table of 2^log slots. */
  predicate Covers(norm: seq<nat>, log: nat, src: seq<byte>)
  {
    && 5 <= log <= 12
    && Sum(norm) == Pow2(log)
    && forall i :: 0 <= i < |src| ==> src[i] < |norm| && norm[src[i]] > 0
  }

  lemma RangeOf(norm: seq<nat>, log: nat, s: nat)
    requires 5 <= log <= 12 && Sum(norm) == Pow2(log) && s < |norm| && norm[s] > 0
    ensures SymbolRange(log, norm[s], Cum(norm, s))
  {
    CumStep(norm, s);
    CumMonotone(norm, s + 1, |norm|);
    assert norm[..|norm|] == norm;
  }

  /** The encoder runs over the input from its end: final state and bytes in emission order. */
  function EncodeFrom(src: seq<byte>, norm: seq<nat>, log: nat): (r: (nat, seq<byte>))
    requires Covers(norm, log, src)
  {
    if src == [] then (L_MIN, [])
    else
      var (x, out) := EncodeFrom(src[1..], norm, log);
      RangeOf(norm, log, src[0]);
      var (x', more) := EncodeStep(x, log, norm[src[0]], Cum(norm, src[0]));
      (x', out + more)
  }

  /** The symbol owning a slot of a table whose counts reach it. */
  function Owner(norm: seq<nat>, slot: nat): (s: nat)
    requires slot < Sum(norm)
    ensures Owns(norm, s, slot)
  {
    var n := |norm| - 1;
    if Cum(norm, n) <= slot then n
    else
      assert forall s | 0 <= s <= n :: norm[..n][..s] == norm[..s];
      Owner(norm[..n], slot)
  }

  /** n decode steps: the symbols, the state left and the payload left. */
  function DecodeFrom(x: nat, payload: seq<byte>, norm: seq<nat>, log: nat, n: nat)
    : (r: Option<(seq<byte>, nat, seq<byte>)>)
    requires Sum(norm) == Pow2(log) && |norm| <= NSYMS
    ensures r.Some? ==> |r.value.0| == n
    decreases n
  {
    if n == 0 then Some(([], x, payload))
    else
      var s := Owner(norm, x % Pow2(log));
      var y := DecodeStep(x, Pow2(log), norm[s], Cum(norm, s));
      match Refill(y, payload)
      case None => None
      case Some((x', rest)) =>
        match DecodeFrom(x', rest, norm, log, n - 1)
        case None => None
        case Some((syms, xEnd, left)) => Some(([s] + syms, xEnd, left))
  }

  /** Decoding runs the encoder backwards and leaves its start state and nothing else. */
  lemma {:induction false} StreamRoundTrip(src: seq<byte>, norm: seq<nat>, log: nat, tail: seq<byte>)
    requires Covers(norm, log, src) && |norm| <= NSYMS
    ensures var (x, out) := EncodeFrom(src, norm, log);
            && L_MIN <= x < L_MAX
            && DecodeFrom(x, Rev(out) + tail, norm, log, |src|) == Some((src, L_MIN, tail))
  {
    var (x, out) := EncodeFrom(src, norm, log);
    if src == [] {
      assert Rev(out) + tail == tail;
    } else {
      var (x0, out0) := EncodeFrom(src[1..], norm, log);
      StreamRoundTrip(src[1..], norm, log, tail);
      var s := src[0];
      RangeOf(norm, log, s);
      var more := EncodeStep(x0, log, norm[s], Cum(norm, s)).1;
      StepRoundTrip(x0, log, norm[s], Cum(norm, s), Rev(out0) + tail);
      RevConcat(out0, more);
      assert Rev(out) + tail == Rev(more) + (Rev(out0) + tail);
      OwnerUnique(norm, s, Owner(norm, x % Pow2(log)), x % Pow2(log));
      assert src == [s] + src[1..];
    }
  }

  method EncodeStream(src: seq<byte>, norm: seq<nat>, cum: seq<nat>, log: nat)
      returns (scratch: seq<byte>, state: nat)
    requires Covers(norm, log, src)
    requires |cum| == |norm| && forall k :: 0 <= k < |cum| ==> cum[k] == Cum(norm, k)
    ensures (state, scratch) == EncodeFrom(src, norm, log)
  {
    state := L_MIN;
    scratch := [];
    for k := |src| downto 0
      invariant (state, scratch) == EncodeFrom(src[k..], norm, log)
    {
      var s := src[k];
      RangeOf(norm, log, s);
      assert src[k..][1..] == src[k + 1..];
      state, scratch := EncodeSymbol(state, scratch, log, norm[s], cum[s]);
    }
    assert src[0..] == src;
  }

  method EncodeSymbol(x: nat, out: seq<byte>, log: nat, f: nat, c: nat)
      returns (state: nat, scratch: seq<byte>)
    requires SymbolRange(log, f, c)
    ensures state == EncodeStep(x, log, f, c).0
    ensures scratch == out + EncodeStep(x, log, f, c).1
  {
    state, scratch := x, out;
    var xMax := XMax(log, f);
    while state >= xMax
      invariant Shrink(x, xMax).0 == Shrink(state, xMax).0
      invariant out + Shrink(x, xMax).1 == scratch + Shrink(state, xMax).1
      decreases state
    {
      assert scratch + Shrink(state, xMax).1 == scratch + [state % 256] + Shrink(state / 256, xMax).1;
      scratch := scratch + [state % 256];
      state := state / 256;
    }
    assert scratch + Shrink(state, xMax).1 == scratch;
    state := Spread(state, Pow2(log), f, c);
  }

  /* ---- The block format -------------------------------------------------- */

  function Header(srcSize: nat, payloadSize: nat, state: nat, log: nat, norm: seq<nat>): (h: seq<byte>)
    requires log < 256
    ensures |h| == HDR_PREFIX + 2 * |norm|
  {
    LE(srcSize, 4) + LE(payloadSize, 4) + LE(state, 4) + [log as byte, 0] + LE(|norm|, 2) + U16s(norm)
  }

  const EmptyBlock: seq<byte> := Header(0, 0, L_MIN, 5, [])

  /** The block for a non-empty input; sizes are stored in 32 bits. */
  function Block(src: seq<byte>, norm: seq<nat>, log: nat): (b: seq<byte>)
    requires Covers(norm, log, src)
  {
    var (x, out) := EncodeFrom(src, norm, log);
    Header(|src|, |out|, x, log, norm) + Rev(out)
  }

  function PayloadSize(src: seq<byte>, norm: seq<nat>, log: nat): nat
    requires Covers(norm, log, src)
  {
    |EncodeFrom(src, norm, log).1|
  }

  datatype Fields = Fields(srcSize: nat, payloadSize: nat, state: nat, log: nat, norm: seq<nat>, payload: seq<byte>)

  /** The header fields and the payload, or the first structural fault. */
  function ParseBlock(src: seq<byte>, dstSize: nat): (r: Result<Fields>)
    ensures r.Ok? ==> 5 <= r.value.log <= 12 && |r.value.norm| <= NSYMS
    ensures r.Ok? ==> r.value.srcSize == dstSize && |r.value.payload| == r.value.payloadSize
  {
    if |src| < HDR_PREFIX then Err(Corrupt)
    else
      var srcSize := LEVal(src[0..4]);
      var payloadSize := LEVal(src[4..8]);
      var state := LEVal(src[8..12]);
      var log := src[12];
      var maxSymbol := LEVal(src[14..16]);
      if srcSize != dstSize || log < 5 || log > 12 || maxSymbol > NSYMS then Err(Corrupt)
      else
        var hdr := HDR_PREFIX + 2 * maxSymbol;
        if |src| < hdr || payloadSize + hdr != |src| then Err(Corrupt)
        else Ok(Fields(srcSize, payloadSize, state, log, ParseU16s(src[16..hdr], maxSymbol), src[hdr..]))
  }

  /** The decoder's meaning on every input. */
  function Decoded(src: seq<byte>, dstSize: nat): (r: Result<seq<byte>>)
    ensures r.Ok? ==> |r.value| == dstSize
  {
    match ParseBlock(src, dstSize)
    case Err(e) => Err(e)
    case Ok(h) =>
      if dstSize == 0 then
        if h.payloadSize == 0 && h.norm == [] && h.state == L_MIN then Ok([]) else Err(Corrupt)
      else if Sum(h.norm) != Pow2(h.log) then Err(Corrupt)
      else if h.state < L_MIN || h.state >= L_MAX then Err(Corrupt)
      else
        match DecodeFrom(h.state, h.payload, h.norm, h.log, dstSize)
        case None => Err(Corrupt)
        case Some((syms, _, left)) => if left == [] then Ok(syms) else Err(Corrupt)
  }

  lemma ParseHeader(srcSize: nat, payloadSize: nat, state: nat, log: nat, norm: seq<nat>, payload: seq<byte>)
    requires srcSize < U32_LIMIT && state < U32_LIMIT && 5 <= log <= 12
    requires |norm| <= NSYMS && forall i :: 0 <= i < |norm| ==> norm[i] < U16_LIMIT
    requires |payload| == payloadSize
    ensures var b := Header(srcSize, payloadSize, state, log, norm) + payload;
            ParseBlock(b, srcSize) ==
              if payloadSize < U32_LIMIT then Ok(Fields(srcSize, payloadSize, state, log, norm, payload))
              else Err(Corrupt)
  {
    var b := Header(srcSize, payloadSize, state, log, norm) + payload;
    var hdr := HDR_PREFIX + 2 * |norm|;
    assert b[0..4] == LE(srcSize, 4) && b[4..8] == LE(payloadSize, 4) && b[8..12] == LE(state, 4);
    assert b[12] == log && b[14..16] == LE(|norm|, 2);
    assert b[16..hdr] == U16s(norm) && b[hdr..] == payload;
    LEFieldRoundTrip(srcSize, 4);
    LEFieldRoundTrip(state, 4);
    LEFieldRoundTrip(|norm|, 2);
    U16sRoundTrip(norm);
    if payloadSize < U32_LIMIT {
      LEFieldRoundTrip(payloadSize, 4);
    } else {
      LEBelow(LE(payloadSize, 4));
    }
  }

  /**
   * The round trip, exactly: decoding gives the input back when the payload size fits its 32-bit
   * field, and is refused as corrupt when it does not.
   */
  lemma RoundTrip(src: seq<byte>, norm: seq<nat>, log: nat)
    requires 0 < |src| < U32_LIMIT && |norm| <= NSYMS
    requires Covers(norm, log, src)
    ensures Decoded(Block(src, norm, log), |src|) ==
            if PayloadSize(src, norm, log) < U32_LIMIT then Ok(src) else Err(Corrupt)
  {
    var (x, out) := EncodeFrom(src, norm, log);
    StreamRoundTrip(src, norm, log, []);
    assert Rev(out) + [] == Rev(out);
    TableLogFits(log);
    forall i | 0 <= i < |norm| ensures norm[i] < U16_LIMIT {
      SumAtLeast(norm, i);
    }
    ParseHeader(|src|, |out|, x, log, norm, Rev(out));
  }

  lemma EmptyRoundTrip()
    ensures Decoded(EmptyBlock, 0) == Ok([])
  {
    ParseHeader(0, 0, L_MIN, 5, [], []);
    assert EmptyBlock + [] == EmptyBlock;
  }

  /** No symbol emits more than two bytes, so inputs below 2 GiB always fit. */
  lemma {:induction false} PayloadBound(src: seq<byte>, norm: seq<nat>, log: nat)
    requires Covers(norm, log, src) && |norm| <= NSYMS
    ensures PayloadSize(src, norm, log) <= 2 * |src|
    ensures |src| < 0x8000_0000 ==> PayloadSize(src, norm, log) < U32_LIMIT
  {
    if src != [] {
      PayloadBound(src[1..], norm, log);
      StreamRoundTrip(src[1..], norm, log, []);
      var s := src[0];
      RangeOf(norm, log, s);
      TableSizes();
      Pow2Monotone(4, 16 - log);
      MulMonotone(16, Pow2(16 - log), 256);
      MulMonotone(1, norm[s], Pow2(16 - log) * 256);
      ShrinkLength(EncodeFrom(src[1..], norm, log).0, XMax(log, norm[s]));
    }
  }

  lemma ShrinkLength(x: nat, xmax: nat)
    requires x < L_MAX && xmax >= 256
    ensures |Shrink(x, xmax).1| <= 2
  {
    assert x / 256 / 256 < 256;
    if x >= xmax {
      assert Shrink(x, xmax).1 == [x % 256] + Shrink(x / 256, xmax).1;
      if x / 256 >= xmax {
        assert Shrink(x / 256, xmax).1 == [x / 256 % 256] + Shrink(x / 256 / 256, xmax).1;
      }
    }
  }

  /* ---- Entry points ------------------------------------------------------ */

  method CountFrequencies(src: seq<byte>) returns (freq: seq<nat>)
    ensures freq == Histogram(src, NSYMS)
  {
    var f := new nat[NSYMS](_ => 0);
    for i := 0 to |src|
      invariant forall s :: 0 <= s < NSYMS ==> f[s] == Count(src[..i], s)
    {
      assert src[..i + 1][..i] == src[..i];
      f[src[i]] := f[src[i]] + 1;
    }
    assert src[..|src|] == src;
    freq := f[..];
  }

  method CountActive(freq: seq<nat>) returns (n: nat)
    ensures n == ActiveCount(freq)
  {
    n := 0;
    for i := 0 to |freq|
      invariant n == ActiveCount(freq[..i])
    {
      assert freq[..i + 1][..i] == freq[..i];
      if freq[i] != 0 { n := n + 1; }
    }
    assert freq[..|freq|] == freq;
  }

  /** The table is the one the encoder builds: the histogram up to the last used symbol, quantised. */
  ghost predicate BuiltFor(norm: seq<nat>, log: nat, src: seq<byte>)
  {
    && |norm| == UsedPrefix(Histogram(src, NSYMS))
    && log == PickTableLog(ActiveCount(Histogram(src, |norm|)))
    && Normalized(norm, Histogram(src, |norm|), Pow2(log))
  }

  /** The table the encoder builds for an input: quantised counts that cover every byte of it. */
  method BuildTable(src: seq<byte>) returns (norm: seq<nat>, log: nat)
    requires 0 < |src| < U32_LIMIT
    ensures |norm| <= NSYMS && Covers(norm, log, src) && BuiltFor(norm, log, src)
  {
    var all := CountFrequencies(src);
    var maxSymbol := MaxSymbol(all);
    var freq := all[..maxSymbol];
    assert freq == Histogram(src, maxSymbol);
    forall i | 0 <= i < |src| ensures src[i] < maxSymbol && freq[src[i]] > 0 {
      CountPositive(src, src[i]);
    }
    HistogramTotal(src, maxSymbol);
    var nActive := CountActive(freq);
    log := PickTableLog(nActive);
    var counts := new nat[maxSymbol](_ => 0);
    Normalize(freq, Pow2(log), counts);
    norm := counts[..];
  }

  /** How many of the byte values below k occur. */
  lemma {:induction false} ActiveIsDistinct(src: seq<byte>, k: nat)
    ensures ActiveCount(Histogram(src, k)) == |set b | b in src && b < k|
  {
    var h := Histogram(src, k);
    if k == 0 {
      assert (set b | b in src && b < 0) == {};
    } else {
      ActiveIsDistinct(src, k - 1);
      assert h[..k - 1] == Histogram(src, k - 1);
      CountPositive(src, k - 1);
      var below := set b | b in src && b < k - 1;
      assert (set b | b in src && b < k) == if k - 1 in src then below + {k - 1} else below;
    }
  }

  /** The table's size goes by the number of distinct bytes: four slots for each, and not above sixteen. */
  lemma TableSuits(norm: seq<nat>, log: nat, src: seq<byte>)
    requires BuiltFor(norm, log, src) && |norm| <= NSYMS && forall i :: 0 <= i < |src| ==> src[i] < |norm|
    ensures var n := |set b | b in src|;
            && n <= NSYMS && log == PickTableLog(n)
            && 4 * n <= Pow2(log) && (log > 6 ==> Pow2(log) <= 16 * n)
  {
    ActiveIsDistinct(src, |norm|);
    assert (set b | b in src && b < |norm|) == set b | b in src;
  }

  /** The encoder: fails only on inputs whose size does not fit 32 bits. */
  method Encode(src: seq<byte>) returns (r: Result<seq<byte>>, ghost norm: seq<nat>, ghost log: nat)
    ensures |src| >= U32_LIMIT ==> r == Err(Invalid)
    ensures src == [] ==> r == Ok(EmptyBlock)
    ensures 0 < |src| < U32_LIMIT ==>
              |norm| <= NSYMS && Covers(norm, log, src) && BuiltFor(norm, log, src) && r == Ok(Block(src, norm, log))
    ensures 0 < |src| < U32_LIMIT ==>
              5 <= log <= 11 && 4 * |set b | b in src| <= Pow2(log)
              && (log > 6 ==> Pow2(log) <= 16 * |set b | b in src|)
  {
    hide BuiltFor;
    norm, log := [], 5;
    if |src| >= U32_LIMIT {
      return Err(Invalid), norm, log;
    }
    if src == [] {
      return Ok(EmptyBlock), norm, log;
    }
    var counts, tableLog := BuildTable(src);
    norm, log := counts, tableLog;
    TableSuits(counts, tableLog, src);
    var cum := new nat[|counts|];
    var acc := 0;
    for s := 0 to |counts|
      invariant acc == Cum(counts, s)
      invariant forall k :: 0 <= k < s ==> cum[k] == Cum(counts, k)
    {
      CumStep(counts, s);
      cum[s] := acc;
      acc := acc + counts[s];
    }
    var scratch, state := EncodeStream(src, counts, cum[..], tableLog);
    r := Ok(Header(|src|, |scratch|, state, tableLog, counts) + Rev(scratch));
  }

  /** A decoding run with more symbols in front. */
  function Prepend(front: seq<byte>, run: Option<(seq<byte>, nat, seq<byte>)>)
    : Option<(seq<byte>, nat, seq<byte>)>
  {
    match run
    case None => None
    case Some((syms, x, left)) => Some((front + syms, x, left))
  }

  lemma PrependAssociative(a: seq<byte>, b: seq<byte>, run: Option<(seq<byte>, nat, seq<byte>)>)
    ensures Prepend(a, Prepend(b, run)) == Prepend(a + b, run)
    ensures Prepend([], run) == run
  {
    if run.Some? {
      assert a + (b + run.value.0) == (a + b) + run.value.0;
      assert [] + run.value.0 == run.value.0;
    }
  }

  /** Pulls payload bytes from the cursor into the state; fails when the payload runs out. */
  method PullBytes(x: nat, payload: seq<byte>, start: nat) returns (ok: bool, state: nat, off: nat)
    requires start <= |payload|
    ensures ok <==> Refill(x, payload[start..]).Some?
    ensures ok ==> off <= |payload| && Refill(x, payload[start..]) == Some((state, payload[off..]))
  {
    state, off := x, start;
    while state < L_MIN
      invariant off <= |payload|
      invariant Refill(state, payload[off..]) == Refill(x, payload[start..])
      decreases |payload| - off
    {
      if off >= |payload| {
        return false, state, off;
      }
      assert payload[off..][1..] == payload[off + 1..];
      state := state * 256 + payload[off];
      off := off + 1;
    }
    ok := true;
  }

  /** One symbol of a run, read through the slot table. */
  lemma TableStep(x: nat, p: seq<byte>, norm: seq<nat>, log: nat, n: nat, table: seq<Entry>)
    requires 5 <= log <= 12 && |norm| <= NSYMS && Sum(norm) == Pow2(log) && n > 0
    requires |table| == Pow2(log) && SlotTable(norm, table)
    ensures var slot := x % Pow2(log);
            var e := table[slot];
            && e.cum <= slot && e.symbol < |norm|
            && DecodeFrom(x, p, norm, log, n) ==
               match Refill(DecodeStep(x, Pow2(log), e.freq, e.cum), p)
               case None => None
               case Some((x', rest)) => Prepend([e.symbol], DecodeFrom(x', rest, norm, log, n - 1))
  {
    var slot := x % Pow2(log);
    OwnerUnique(norm, table[slot].symbol, Owner(norm, slot), slot);
  }

  method DecodeLoop(h: Fields, table: seq<Entry>, dstSize: nat) returns (r: Result<seq<byte>>)
    requires 5 <= h.log <= 12 && |h.norm| <= NSYMS && Sum(h.norm) == Pow2(h.log)
    requires |table| == Pow2(h.log) && SlotTable(h.norm, table)
    ensures r == match DecodeFrom(h.state, h.payload, h.norm, h.log, dstSize)
                 case None => Err(Corrupt)
                 case Some((syms, _, left)) => if left == [] then Ok(syms) else Err(Corrupt)
  {
    hide Pow2, SlotTable, Sum, DecodeStep;
    ghost var whole := DecodeFrom(h.state, h.payload, h.norm, h.log, dstSize);
    var state: nat, off: nat := h.state, 0;
    var dst: seq<byte> := [];
    assert h.payload[0..] == h.payload;
    PrependAssociative([], [], whole);
    for i := 0 to dstSize
      invariant off <= |h.payload| && |dst| == i
      invariant whole == Prepend(dst, DecodeFrom(state, h.payload[off..], h.norm, h.log, dstSize - i))
    {
      var e := table[state % Pow2(h.log)];
      TableStep(state, h.payload[off..], h.norm, h.log, dstSize - i, table);
      var ok, x, next := PullBytes(DecodeStep(state, Pow2(h.log), e.freq, e.cum), h.payload, off);
      if !ok {
        return Err(Corrupt);
      }
      state, off := x, next;
      PrependAssociative(dst, [e.symbol], DecodeFrom(state, h.payload[off..], h.norm, h.log, dstSize - i - 1));
      dst := dst + [e.symbol];
    }
    if off != |h.payload| {
      return Err(Corrupt);
    }
    assert dst + [] == dst;
    return Ok(dst);
  }

  method Decode(src: seq<byte>, dstSize: nat) returns (r: Result<seq<byte>>)
    ensures r == Decoded(src, dstSize)
  {
    var parsed := ParseBlock(src, dstSize);
    if parsed.Err? {
      return Err(parsed.error);
    }
    var h := parsed.value;
    if dstSize == 0 {
      if h.payloadSize != 0 || h.norm != [] || h.state != L_MIN {
        return Err(Corrupt);
      }
      return Ok([]);
    }
    var table := BuildFatTable(h.norm, Pow2(h.log));
    if table.Err? {
      return Err(table.error);
    }
    if h.state < L_MIN || h.state >= L_MAX {
      return Err(Corrupt);
    }
    r := DecodeLoop(h, table.value, dstSize);
  }
}
