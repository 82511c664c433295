/**
 * How many bits the Huffman coder writes (src/entropy/huffman.c). Halving the counts to limit the lengths
 * costs little: at most 12 bits a byte are written, so one and a half bytes a byte are room enough.
 */
module HuffmanBound {
  import opened Base
  import opened BitString
  import opened HuffmanHeap
  import opened HuffmanTree
  import opened HuffmanOptimal
  import opened HuffmanCode
  import opened HuffmanLengths
  import opened HuffmanStream

  /* ---- What halving loses ------------------------------------------------ */

  lemma HalfParts(h: nat, e: nat, c: nat, q: nat)
    requires e < 2 && c < q
    ensures ((2 * h + e) * q + c) / (2 * q) == h
  {
    if e == 0 {
      assert (2 * h + 0) * q + c == h * (2 * q) + c;
      DivModUnique(h, 2 * q, c);
    } else {
      assert (2 * h + 1) * q + c == h * (2 * q) + (q + c);
      DivModUnique(h, 2 * q, q + c);
    }
  }

  lemma HalfQuotient(f: nat, q: nat)
    requires q > 0
    ensures f / q / 2 == f / (2 * q)
  {
    var a := f / q;
    Quotient(f, q);
    assert a == 2 * (a / 2) + a % 2;
    HalfParts(a / 2, a % 2, f % q, q);
  }

  /** Halving divides, but a used symbol keeps a count of one. */
  lemma {:induction false} HalvedIs(f: nat, k: nat)
    ensures Halved(f, k) == if f >= Pow2(k) then f / Pow2(k) else if f > 0 then 1 else 0
    ensures f >= Pow2(k) ==> f / Pow2(k) >= 1
  {
    if k > 0 {
      var q := Pow2(k - 1);
      HalvedIs(f, k - 1);
      if f >= q {
        HalfQuotient(f, q);
        QuotientOne(f, q);
      }
      QuotientOne(f, 2 * q);
    }
  }

  lemma QuotientOne(f: nat, q: nat)
    requires q > 0
    ensures f >= q ==> f / q >= 1
    ensures f >= 2 * q ==> f / q >= 2
    ensures q <= f < 2 * q ==> f / q == 1
  {
    if f >= 2 * q {
      DivAtLeast(f, q, 2);
    } else if f >= q {
      DivModUnique(1, q, f - q);
    }
  }

  /** What one symbol adds to the bits spent, and to the total of the counts, by its count being halved k times. */
  lemma TermLoss(f: nat, k: nat, l: nat) returns (a: nat, b: nat)
    requires l <= MAX_LEN
    ensures f * l <= Pow2(k) * (Halved(f, k) * l) + a && Pow2(k) * Halved(f, k) <= f + b
    ensures a + 8 * b <= 15 * Pow2(k) && b <= Pow2(k)
  {
    var p, g := Pow2(k), Halved(f, k);
    HalvedIs(f, k);
    hide Pow2, Halved;
    if f >= p {
      a, b := 15 * p, 0;
      Quotient(f, p);
      LongTerm(f, g, p, f % p, l);
    } else {
      a, b := 0, p;
      ShortTerm(f, g, p, l);
    }
  }

  lemma Quotient(f: nat, p: nat)
    requires p > 0
    ensures f == f / p * p + f % p
  {
  }

  lemma ShortTerm(f: nat, g: nat, p: nat, l: nat)
    requires f < p && g == if f > 0 then 1 else 0
    ensures f * l <= p * (g * l) && p * g <= f + p
  {
    if f > 0 { MulMonotone(f, p, l); }
  }

  lemma LongTerm(f: nat, g: nat, p: nat, r: nat, l: nat)
    requires f == g * p + r && r < p && l <= 15
    ensures f * l <= p * (g * l) + 15 * p && p * g <= f
  {
    MulDistribute(g * p, r, l);
    assert g * p * l == p * (g * l);
    assert r * l <= p * 15 by {
      MulMonotone(r, p, l);
      MulMonotone(l, 15, p);
    }
  }

  lemma SpentLast(w: seq<nat>, g: seq<nat>)
    requires |w| == |g| > 0
    ensures Spent(w, g) == Spent(w[..|w| - 1], g[..|w| - 1]) + w[|w| - 1] * g[|w| - 1]
  {
    var n := |w| - 1;
    LastSplit(w);
    LastSplit(g);
    hide Costs, Sum;
    CostsAppend(w[..n], g[..n], w[n], g[n]);
    SumAppend(Costs(w[..n], g[..n]), w[n] * g[n]);
  }

  /** The losses of all symbols together. */
  lemma {:induction false} HalvingLoss(freqIn: seq<nat>, k: nat, freq: seq<nat>, lens: seq<nat>)
    returns (a: nat, b: nat)
    requires HalvedCounts(freqIn, k, freq) && |lens| == |freq| && forall s :: 0 <= s < |lens| ==> lens[s] <= MAX_LEN
    ensures Spent(freqIn, lens) <= Pow2(k) * Spent(freq, lens) + a && Pow2(k) * Sum(freq) <= Sum(freqIn) + b
    ensures a + 8 * b <= 15 * (Pow2(k) * |freq|) && b <= Pow2(k) * |freq|
  {
    hide Spent, Pow2, Halved;
    if freq == [] {
      a, b := 0, 0;
      NothingSpent(freqIn, freq, lens);
    } else {
      var n, p := |freq| - 1, Pow2(k);
      a, b := HalvingLoss(freqIn[..n], k, freq[..n], lens[..n]);
      var c, d := TermLoss(freqIn[n], k, lens[n]);
      assert freq[n] == Halved(freqIn[n], k);
      SpentLast(freqIn, lens);
      SpentLast(freq, lens);
      MulSum(p, Spent(freq[..n], lens[..n]), freq[n] * lens[n]);
      MulSum(p, Sum(freq[..n]), freq[n]);
      MulSum(p, n, 1);
      a, b := a + c, b + d;
    }
  }

  lemma NothingSpent(freqIn: seq<nat>, freq: seq<nat>, lens: seq<nat>)
    requires freqIn == freq == lens == []
    ensures Spent(freqIn, lens) == Spent(freq, lens) == Sum(freq) == Sum(freqIn) == 0
  {
  }

  lemma MulSum(p: int, x: int, y: int)
    ensures p * (x + y) == p * x + p * y
  {
  }

  /* ---- At most twelve bits a byte ---------------------------------------- */

  lemma {:induction false} EvenCost(freq: seq<nat>, c: nat)
    ensures Spent(freq, seq(|freq|, _ => c)) == c * Sum(freq)
  {
    var flat := seq(|freq|, _ => c);
    if freq == [] {
      NothingSpent(freq, freq, flat);
    } else {
      var n := |freq| - 1;
      EvenCost(freq[..n], c);
      assert flat[..n] == seq(n, _ => c);
      hide Spent;
      SpentLast(freq, flat);
      MulSum(c, Sum(freq[..n]), freq[n]);
    }
  }

  /** 256 codes of eight bits are a code, so an optimal one spends no more. */
  lemma EightBits(freq: seq<nat>, lens: seq<nat>)
    requires |freq| == CAPACITY && OptimalFor(freq, lens)
    ensures Spent(freq, lens) <= 8 * Sum(freq)
  {
    hide Spent, Sum, Covers;
    FlatCovers(freq);
    EvenCost(freq, 8);
  }

  lemma FlatCovers(freq: seq<nat>)
    requires |freq| == CAPACITY
    ensures Covers(freq, seq(|freq|, _ => 8), 8)
  {
    var flat := seq(|freq|, _ => 8);
    assert Pow2(8) == 256;
    hide Sum, Pow2;
    assert Pow2(0) == 1 by { PowerNone(); }
    SumBounds(KraftWeights(flat, 8), 1, 1);
  }

  lemma PowerNone()
    ensures Pow2(0) == 1
  {
  }

  /** A tree deeper than 15 has many counts. */
  lemma DeepIsHeavy(freq: seq<nat>, ls: seq<nat>)
    requires TooDeep(freq, ls)
    ensures Sum(freq) >= 2584
  {
    var s :| 0 <= s < |ls| && ls[s] > MAX_LEN;
    assert ActiveCount(freq) >= 2 ==> Fib(ls[s] + 2) <= Sum(freq);
    FibMonotone(18, ls[s] + 2);
    Fib14();
    assert Fib(8) == 21 && Fib(9) == 34;
    assert Fib(12) == 144 && Fib(13) == 233;
    assert Fib(16) == 987 && Fib(17) == 1597;
  }

  /** Nor do the halvings cost much: after k of them the counts were heavy enough to pay for what they lose. */
  lemma TwelveBits(freqIn: seq<nat>, lens: seq<nat>)
    requires |freqIn| == CAPACITY && |lens| == |freqIn| && Economical(freqIn, lens)
    requires forall s :: 0 <= s < |lens| ==> lens[s] <= MAX_LEN
    ensures Spent(freqIn, lens) <= 12 * Sum(freqIn)
  {
    hide Spent, Pow2, Halved, Fib, OptimalFor, TooDeep, Sum;
    var k: nat :| k <= 31 && OptimalAfter(freqIn, k, lens) && Needed(freqIn, k);
    var freq: seq<nat> :| HalvedCounts(freqIn, k, freq) && OptimalFor(freq, lens);
    EightBits(freq, lens);
    var a, b := HalvingLoss(freqIn, k, freq, lens);
    MulAtMost(Pow2(k), Spent(freq, lens), 8 * Sum(freq));
    assert Pow2(k) * (8 * Sum(freq)) == 8 * (Pow2(k) * Sum(freq));
    if k == 0 {
      Unhalved(freqIn, freq);
      SumNonNegative(freqIn);
    } else {
      var prev: seq<nat>, ls: seq<nat> :| HalvedCounts(freqIn, k - 1, prev) && TooDeep(prev, ls);
      DeepIsHeavy(prev, ls);
      var _, d := HalvingLoss(freqIn, k - 1, prev, lens);
      MulAtMost(Pow2(k - 1), 2584, Sum(prev));
      assert Pow2(k) == 2 * Pow2(k - 1) by { DoublePower(k); }
    }
  }

  lemma DoublePower(k: nat)
    requires k > 0
    ensures Pow2(k) == 2 * Pow2(k - 1)
  {
  }

  lemma MulAtMost(p: nat, x: int, y: int)
    requires x <= y
    ensures p * x <= p * y
  {
  }

  lemma Unhalved(freqIn: seq<nat>, freq: seq<nat>)
    requires HalvedCounts(freqIn, 0, freq)
    ensures freq == freqIn
  {
  }

  /* ---- The bit stream ---------------------------------------------------- */

  lemma OneMore(front: seq<byte>, b: byte, lens: seq<nat>)
    requires |lens| == NSYMS
    ensures Spent(Histogram(front + [b], NSYMS), lens) == Spent(Histogram(front, NSYMS), lens) + lens[b]
  {
    var h, h' := Histogram(front, NSYMS), Histogram(front + [b], NSYMS);
    assert (front + [b])[..|front|] == front;
    assert h' == h[b := h[b] + 1];
    SumUpdate(Costs(h, lens), b, h[b] * lens[b] + lens[b]);
    assert (h[b] + 1) * lens[b] == h[b] * lens[b] + lens[b];
    assert Costs(h', lens) == Costs(h, lens)[b := h[b] * lens[b] + lens[b]];
  }

  /** The code stream has as many bits as the lengths spend on the histogram. */
  lemma {:induction false} StreamSpends(lens: seq<nat>, src: seq<byte>)
    requires |lens| == NSYMS && Coded(lens, src)
    ensures |CodeStream(lens, src)| == Spent(Histogram(src, NSYMS), lens)
  {
    if src == [] {
      SumBounds(Costs(Histogram(src, NSYMS), lens), 0, 0);
    } else {
      var n := |src| - 1;
      StreamSpends(lens, src[..n]);
      OneMore(src[..n], src[n], lens);
      LastSplit(src);
    }
  }

  /** Every byte costs at most a byte and a half, the last partial byte aside. */
  lemma PayloadFits(lens: seq<nat>, src: seq<byte>)
    requires |lens| == NSYMS && Coded(lens, src) && ShortLengths(lens) && Economical(Histogram(src, NSYMS), lens)
    ensures |CodeStream(lens, src)| <= 12 * |src| && |Pack(CodeStream(lens, src))| <= |src| + |src| / 2 + 1
  {
    hide Spent, Economical, CodeStream, Pack;
    StreamSpends(lens, src);
    TwelveBits(Histogram(src, NSYMS), lens);
    HistogramTotal(src, NSYMS);
  }
}
