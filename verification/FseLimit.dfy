/**
 * An input of 2^32 - 1 bytes that the rANS coder of src/entropy/fse.c encodes and then refuses: quantising
 * its nearly flat histogram costs more than eight bits a symbol, and the payload size wraps its 32-bit field.
 */
module FseLimit {
  import opened Base
  import opened FseTable
  import opened Fse

  const RUN: nat := 0xFF_FFFF
  const FIRST_RUN: nat := 0x100_00FE

  function Repeat(b: byte, n: nat): (s: seq<byte>)
    ensures |s| == n && forall i :: 0 <= i < n ==> s[i] == b
  {
    seq(n, _ => b)
  }

  /** A run of each of the bytes 1 to k. */
  function Runs(k: nat): (s: seq<byte>)
    requires k < NSYMS
    ensures |s| == k * RUN && forall i :: 0 <= i < |s| ==> 1 <= s[i] <= k
  {
    if k == 0 then []
    else
      MulDistribute(k - 1, 1, RUN);
      Runs(k - 1) + Repeat(k, RUN)
  }

  /** Every byte about equally often, the byte 0 slightly more. */
  function NearFlat(): (s: seq<byte>)
    ensures |s| == U32_LIMIT - 1
  {
    Repeat(0, FIRST_RUN) + Runs(255)
  }

  /* ---- Its histogram ----------------------------------------------------- */

  lemma {:induction false} CountConcat(a: seq<byte>, b: seq<byte>, x: int)
    ensures Count(a + b, x) == Count(a, x) + Count(b, x)
  {
    if b == [] {
      ConcatEmpty(a);
    } else {
      FrontOfConcat(a, b);
      CountConcat(a, b[..|b| - 1], x);
    }
  }

  lemma {:induction false} CountSame(s: seq<byte>, b: byte, x: int)
    requires forall i :: 0 <= i < |s| ==> s[i] == b
    ensures Count(s, x) == if x == b then |s| else 0
  {
    if s != [] {
      CountSame(s[..|s| - 1], b, x);
    }
  }

  lemma {:induction false} CountRuns(k: nat, x: nat)
    requires k < NSYMS
    ensures Count(Runs(k), x) == if 1 <= x <= k then RUN else 0
  {
    if k > 0 {
      CountRuns(k - 1, x);
      CountConcat(Runs(k - 1), Repeat(k, RUN), x);
      CountSame(Repeat(k, RUN), k, x);
    }
  }

  lemma FlatCounts(x: nat)
    requires x < NSYMS
    ensures Count(NearFlat(), x) == if x == 0 then FIRST_RUN else RUN
  {
    CountConcat(Repeat(0, FIRST_RUN), Runs(255), x);
    CountSame(Repeat(0, FIRST_RUN), 0, x);
    CountRuns(255, x);
  }

  lemma {:induction false} AllActive(freq: seq<nat>)
    requires forall i :: 0 <= i < |freq| ==> freq[i] > 0
    ensures ActiveCount(freq) == |freq|
  {
    if freq != [] {
      AllActive(freq[..|freq| - 1]);
    }
  }

  lemma FlatHistogram()
    ensures var freq := Histogram(NearFlat(), NSYMS);
            && UsedPrefix(freq) == NSYMS && ActiveCount(freq) == NSYMS && Total(freq) == U32_LIMIT - 1
            && forall s :: 0 <= s < NSYMS ==> freq[s] == if s == 0 then FIRST_RUN else RUN
  {
    hide Count;
    var freq := Histogram(NearFlat(), NSYMS);
    forall s: nat | s < NSYMS
      ensures freq[s] == if s == 0 then FIRST_RUN else RUN
    {
      FlatCounts(s);
    }
    AllActive(freq);
    HistogramTotal(NearFlat(), NSYMS);
  }

  /* ---- Its table --------------------------------------------------------- */

  lemma FlatShares()
    ensures Share(RUN, U32_LIMIT - 1, 2048) == 7 && Share(FIRST_RUN, U32_LIMIT - 1, 2048) == 8
  {
    DivModUnique(7, U32_LIMIT - 1, RUN * 2048 - 7 * (U32_LIMIT - 1));
    DivModUnique(8, U32_LIMIT - 1, FIRST_RUN * 2048 - 8 * (U32_LIMIT - 1));
  }

  /** Every byte but 0 gets 7 of the 2048 slots, more than eight bits' worth. */
  lemma FlatTable(norm: seq<nat>, log: nat)
    requires BuiltFor(norm, log, NearFlat())
    ensures log == 11 && |norm| == NSYMS && forall s :: 1 <= s < NSYMS ==> norm[s] == 7
  {
    hide Sum, Count, ActiveCount, UsedPrefix, Share, Used, Levelled;
    FlatHistogram();
    TableSizes();
    FlatShares();
    var freq := Histogram(NearFlat(), NSYMS);
    var shares := Shares(freq, U32_LIMIT - 1, 2048);
    SumBounds(shares, 0, 8);
    SlackToFirst(norm, freq, shares, 2048 - Sum(shares));
  }

  lemma SlackToFirst(norm: seq<nat>, freq: seq<nat>, shares: seq<nat>, slack: nat)
    requires |freq| == |shares| == NSYMS && SlackAdded(norm, freq, shares, slack)
    requires forall s :: 1 <= s < NSYMS ==> freq[s] < freq[0]
    ensures |norm| == NSYMS && forall s :: 1 <= s < NSYMS ==> norm[s] == shares[s]
  {
  }

  /* ---- Its payload ------------------------------------------------------- */

  /** How far the state is on its way to 2^24, in sixteenths of octaves. */
  function Level(x: nat): (v: nat)
    requires L_MIN <= x < L_MAX
    ensures v <= 127
  {
    if x < 0x2_0000 then (x - 0x1_0000) / 0x1000
    else if x < 0x4_0000 then 16 + (x - 0x2_0000) / 0x2000
    else if x < 0x8_0000 then 32 + (x - 0x4_0000) / 0x4000
    else if x < 0x10_0000 then 48 + (x - 0x8_0000) / 0x8000
    else if x < 0x20_0000 then 64 + (x - 0x10_0000) / 0x1_0000
    else if x < 0x40_0000 then 80 + (x - 0x20_0000) / 0x2_0000
    else if x < 0x80_0000 then 96 + (x - 0x40_0000) / 0x4_0000
    else 112 + (x - 0x80_0000) / 0x8_0000
  }

  lemma LevelRises(x: nat, x': nat)
    requires L_MIN <= x && x + x / 16 <= x' < L_MAX
    ensures Level(x') >= Level(x) + 1
  {
  }

  /** With 7 slots a symbol costs one byte and the state rises by a sixteenth, or it costs two bytes. */
  lemma SevenSlots(x: nat, c: nat)
    requires L_MIN <= x < L_MAX && c + 7 <= 2048 && SymbolRange(11, 7, c)
    ensures var (x', out) := EncodeStep(x, 11, 7, c);
            && L_MIN <= x' < L_MAX
            && (|out| == 2 || (|out| == 1 && x + x / 16 <= x'))
  {
    StepRoundTrip(x, 11, 7, c, []);
    TableSizes();
    assert Pow2(16 - 11) == 32;
    assert XMax(11, 7) == 57344;
    var y := x / 256;
    assert Shrink(x, 57344) == (Shrink(y, 57344).0, [x % 256] + Shrink(y, 57344).1);
    if y < 57344 {
      SpreadRises(x, c);
    } else {
      assert Shrink(y, 57344) == (Shrink(y / 256, 57344).0, [y % 256] + Shrink(y / 256, 57344).1);
    }
  }

  lemma SpreadRises(x: nat, c: nat)
    requires x >= L_MIN
    ensures x + x / 16 <= Spread(x / 256, 2048, 7, c)
  {
  }

  /** Two bytes are due at least once in 129 symbols. */
  lemma {:induction false} SevenSlotsPayload(src: seq<byte>, norm: seq<nat>)
    requires Covers(norm, 11, src) && |norm| <= NSYMS && forall i :: 0 <= i < |src| ==> norm[src[i]] == 7
    ensures var (x, out) := EncodeFrom(src, norm, 11);
            L_MIN <= x < L_MAX && 130 * |src| <= 129 * |out| + Level(x)
    decreases |src|
  {
    hide EncodeStep, Level;
    if src != [] {
      var (x, out) := EncodeFrom(src[1..], norm, 11);
      var c := Cum(norm, src[0]);
      SevenSlotsPayload(src[1..], norm);
      RangeOf(norm, 11, src[0]);
      TableSizes();
      SevenSlots(x, c);
      var (x', more) := EncodeStep(x, 11, 7, c);
      if |more| == 1 {
        LevelRises(x, x');
      }
    }
  }

  lemma {:induction false} LaterSymbolsOnlyAdd(a: seq<byte>, b: seq<byte>, norm: seq<nat>, log: nat)
    requires Covers(norm, log, a + b)
    ensures Covers(norm, log, b) && PayloadSize(a + b, norm, log) >= PayloadSize(b, norm, log)
    decreases |a|
  {
    hide EncodeStep;
    CoversLast(a, b, norm, log);
    if a == [] {
      ConcatEmpty(b);
    } else {
      assert (a + b)[1..] == a[1..] + b;
      LaterSymbolsOnlyAdd(a[1..], b, norm, log);
    }
  }

  lemma CoversLast(a: seq<byte>, b: seq<byte>, norm: seq<nat>, log: nat)
    requires Covers(norm, log, a + b)
    ensures Covers(norm, log, b) && (a != [] ==> Covers(norm, log, a[1..] + b))
  {
    forall i | 0 <= i < |b|
      ensures b[i] < |norm| && norm[b[i]] > 0
    {
      assert (a + b)[|a| + i] == b[i];
    }
    if a != [] {
      assert a[1..] + b == (a + b)[1..];
    }
  }

  /** The encoder takes this input, and its block is refused. */
  lemma NearFlatRefused(norm: seq<nat>, log: nat)
    requires BuiltFor(norm, log, NearFlat()) && Covers(norm, log, NearFlat())
    ensures PayloadSize(NearFlat(), norm, log) >= U32_LIMIT
    ensures Decoded(Block(NearFlat(), norm, log), U32_LIMIT - 1) == Err(Corrupt)
  {
    hide EncodeFrom, Runs, Decoded, Block, Covers;
    FlatTable(norm, log);
    LaterSymbolsOnlyAdd(Repeat(0, FIRST_RUN), Runs(255), norm, log);
    SevenSlotsPayload(Runs(255), norm);
    RoundTrip(NearFlat(), norm, log);
  }
}
