/**
 * The tables of src/entropy/huffman.c built by loops: the encoder's canonical codes, the decoder's
 * per-length tables, and the one-symbol and two-symbol tables over 11-bit windows, each proved to
 * answer what the canonical bit walk answers.
 */
module HuffmanTables {
  import opened Base
  import opened BitString
  import opened HuffmanCode

  const FAST_BITS: nat := 11
  const FAST_SIZE: nat := 2048

  /* ---- Per-length tables ------------------------------------------------- */

  /** Where the symbols of length l start in the sorted order. */
  function FirstSym(lens: seq<nat>, l: nat): nat
  {
    if l == 0 then 0 else FirstSym(lens, l - 1) + LenCount(lens, l - 1)
  }

  lemma {:induction false} FirstSymStep(lens: seq<nat>, x: nat, l: nat)
    ensures FirstSym(lens + [x], l) == FirstSym(lens, l) + if 0 < x < l then 1 else 0
  {
    if l > 0 {
      FirstSymStep(lens, x, l - 1);
      assert (lens + [x])[..|lens|] == lens;
    }
  }

  lemma {:induction false} FirstSymBound(lens: seq<nat>, l: nat)
    ensures FirstSym(lens, l) <= |lens|
  {
    if lens == [] {
      NoSymbols(l);
    } else {
      var n := |lens| - 1;
      FirstSymBound(lens[..n], l);
      FirstSymStep(lens[..n], lens[n], l);
      assert lens == lens[..n] + [lens[n]];
    }
  }

  lemma {:induction false} NoSymbols(l: nat)
    ensures FirstSym([], l) == 0
  {
    if l > 0 { NoSymbols(l - 1); }
  }

  lemma {:induction false} FirstSymMonotone(lens: seq<nat>, l: nat, m: nat)
    requires l < m
    ensures FirstSym(lens, l) + LenCount(lens, l) <= FirstSym(lens, m)
    decreases m
  {
    if l < m - 1 {
      FirstSymMonotone(lens, l, m - 1);
    }
  }

  /** Where symbol s belongs in the sorted order. */
  function SortedPos(lens: seq<nat>, s: nat): nat
    requires s < |lens|
  {
    FirstSym(lens, lens[s]) + Rank(lens, s)
  }

  lemma SortedPosInjective(lens: seq<nat>, s: nat, t: nat)
    requires s < t < |lens| && lens[s] > 0 && lens[t] > 0
    ensures SortedPos(lens, s) != SortedPos(lens, t)
  {
    RankBound(lens, s);
    RankBound(lens, t);
    if lens[s] == lens[t] {
      RankStrict(lens, s, t);
    } else if lens[s] < lens[t] {
      FirstSymMonotone(lens, lens[s], lens[t]);
    } else {
      FirstSymMonotone(lens, lens[t], lens[s]);
    }
  }

  lemma SortedPosBound(lens: seq<nat>, s: nat)
    requires s < |lens| && lens[s] > 0
    ensures SortedPos(lens, s) < |lens|
  {
    RankBound(lens, s);
    FirstSymBound(lens, lens[s] + 1);
  }

  /** bl_count: how many symbols have each length, up to length 15. */
  method CountLengths(lens: seq<nat>) returns (blCount: seq<nat>)
    requires ShortLengths(lens)
    ensures |blCount| == MAX_LEN + 2
    ensures forall l :: 0 <= l <= MAX_LEN ==> blCount[l] == LenCount(lens, l)
  {
    var count := new nat[MAX_LEN + 2](_ => 0);
    for s := 0 to |lens|
      invariant forall l :: 0 <= l <= MAX_LEN ==> count[l] == LenCount(lens[..s], l)
    {
      assert lens[..s + 1][..s] == lens[..s];
      if lens[s] != 0 {
        count[lens[s]] := count[lens[s]] + 1;
      }
    }
    assert lens[..|lens|] == lens;
    blCount := count[..];
  }

  lemma LenCountNext(lens: seq<nat>, s: nat)
    requires s < |lens|
    ensures forall k: nat :: LenCount(lens[..s + 1], k) ==
                             LenCount(lens[..s], k) + if k > 0 && lens[s] == k then 1 else 0
  {
    assert lens[..s + 1][..s] == lens[..s];
  }

  lemma FirstFits(lens: seq<nat>, l: nat)
    requires CodeLengths(lens) && 1 <= l <= MAX_LEN
    ensures First(lens, l) < U16_LIMIT
  {
    CodesFit(lens, l);
    Pow2Monotone(l, MAX_LEN);
    FifteenBits();
    hide Pow2, First, LenCount, CodeLengths;
  }

  lemma FifteenBits()
    ensures Pow2(MAX_LEN) == 0x8000
  {
    assert Pow2(5) == 32 && Pow2(10) == 1024;
    Pow2Add(5, 10);
  }

  /** The first code of each length; 16-bit arithmetic does not wrap on these lengths. */
  method FirstCodes(lens: seq<nat>, blCount: seq<nat>) returns (firstCode: seq<nat>)
    requires CodeLengths(lens) && |blCount| == MAX_LEN + 2
    requires forall l :: 0 <= l <= MAX_LEN ==> blCount[l] == LenCount(lens, l)
    ensures |firstCode| == MAX_LEN + 2
    ensures forall l {:trigger firstCode[l]} :: 1 <= l <= MAX_LEN ==> firstCode[l] == First(lens, l) < U16_LIMIT
  {
    var first := new nat[MAX_LEN + 2](_ => 0);
    var code := 0;
    for l := 1 to MAX_LEN + 1
      invariant code == First(lens, l - 1)
      invariant forall k {:trigger first[k]} :: 1 <= k < l ==> first[k] == First(lens, k) < U16_LIMIT
    {
      code := (code + blCount[l - 1]) * 2;
      FirstFits(lens, l);
      first[l] := code;
    }
    firstCode := first[..];
    forall l | 1 <= l <= MAX_LEN ensures firstCode[l] == First(lens, l) < U16_LIMIT {
      assert firstCode[l] == first[l];
    }
  }

  /** The encoder's codes: 0 for unused symbols. */
  method BuildCanonical(lens: seq<nat>) returns (codes: seq<nat>)
    requires CodeLengths(lens)
    ensures |codes| == |lens|
    ensures forall s :: 0 <= s < |lens| ==> codes[s] == if lens[s] != 0 then Code(lens, s) else 0
  {
    var blCount := CountLengths(lens);
    var firstCode := FirstCodes(lens, blCount);
    codes := AssignCodes(lens, firstCode);
  }

  method AssignCodes(lens: seq<nat>, firstCode: seq<nat>) returns (codes: seq<nat>)
    requires ShortLengths(lens) && |firstCode| == MAX_LEN + 2
    requires forall l :: 1 <= l <= MAX_LEN ==> firstCode[l] == First(lens, l)
    ensures |codes| == |lens|
    ensures forall s :: 0 <= s < |lens| ==> codes[s] == if lens[s] != 0 then Code(lens, s) else 0
  {
    var nextCode := new nat[MAX_LEN + 2](i requires 0 <= i < MAX_LEN + 2 => firstCode[i]);
    var out := new nat[|lens|](_ => 0);
    for s := 0 to |lens|
      invariant forall k {:trigger nextCode[k]} :: 1 <= k <= MAX_LEN ==>
                nextCode[k] == firstCode[k] + LenCount(lens[..s], k)
      invariant forall k {:trigger out[k]} :: 0 <= k < s ==> out[k] == if lens[k] != 0 then Code(lens, k) else 0
    {
      LenCountNext(lens, s);
      out[s] := 0;
      if lens[s] != 0 {
        out[s] := nextCode[lens[s]];
        nextCode[lens[s]] := nextCode[lens[s]] + 1;
      }
    }
    codes := out[..];
  }

  datatype Tables = Tables(blCount: seq<nat>, firstCode: seq<nat>, firstSym: seq<nat>, sorted: seq<nat>)

  /** The decoder's tables for these lengths. */
  predicate TablesFor(lens: seq<nat>, t: Tables)
  {
    && |t.blCount| == |t.firstCode| == |t.firstSym| == MAX_LEN + 2
    && |t.sorted| == NSYMS
    && (forall l {:trigger t.blCount[l]} :: 1 <= l <= MAX_LEN ==> t.blCount[l] == LenCount(lens, l))
    && (forall l {:trigger t.firstCode[l]} :: 1 <= l <= MAX_LEN ==> t.firstCode[l] == First(lens, l))
    && (forall l {:trigger t.firstSym[l]} :: 1 <= l <= MAX_LEN ==> t.firstSym[l] == FirstSym(lens, l))
    && Sorted(lens, |lens|, t.sorted)
  }

  lemma SortedIsNth(lens: seq<nat>, t: Tables, l: nat, r: nat)
    requires TablesFor(lens, t) && 1 <= l <= MAX_LEN && r < LenCount(lens, l)
    ensures t.firstSym[l] + r < NSYMS && t.sorted[t.firstSym[l] + r] == Nth(lens, l, r)
  {
    var s := Nth(lens, l, r);
    assert SortedPos(lens, s) == FirstSym(lens, l) + r;
  }

  /** The Kraft check: the code space of the lengths, in units of 2^-15. */
  method KraftSum(blCount: seq<nat>, ghost lens: seq<nat>) returns (kraft: nat)
    requires |blCount| == MAX_LEN + 2
    requires forall l :: 0 <= l <= MAX_LEN ==> blCount[l] == LenCount(lens, l)
    ensures kraft == KraftTo(lens, MAX_LEN)
  {
    kraft := 0;
    for l := 1 to MAX_LEN + 1
      invariant kraft == KraftTo(lens, l - 1)
    {
      MulMonotone(0, blCount[l], Pow2(MAX_LEN - l));
      kraft := kraft + blCount[l] * Pow2(MAX_LEN - l);
    }
  }

  method BuildTables(lens: seq<nat>, blCount: seq<nat>) returns (t: Tables)
    requires CodeLengths(lens) && |blCount| == MAX_LEN + 2
    requires forall l :: 0 <= l <= MAX_LEN ==> blCount[l] == LenCount(lens, l)
    ensures TablesFor(lens, t) && t.blCount == blCount
  {
    var firstCode := FirstCodes(lens, blCount);
    var firstSym := FirstSyms(lens, blCount);
    var sorted := SortSymbols(lens, firstSym);
    t := Tables(blCount, firstCode, firstSym, sorted);
  }

  method FirstSyms(lens: seq<nat>, blCount: seq<nat>) returns (firstSym: seq<nat>)
    requires |blCount| == MAX_LEN + 2
    requires forall l :: 0 <= l <= MAX_LEN ==> blCount[l] == LenCount(lens, l)
    ensures |firstSym| == MAX_LEN + 2
    ensures forall l :: 1 <= l <= MAX_LEN ==> firstSym[l] == FirstSym(lens, l)
  {
    var first := new nat[MAX_LEN + 2](_ => 0);
    var idx := 0;
    for l := 1 to MAX_LEN + 1
      invariant idx == FirstSym(lens, l)
      invariant forall k {:trigger first[k]} :: 1 <= k < l ==> first[k] == FirstSym(lens, k)
    {
      first[l] := idx;
      idx := idx + blCount[l];
    }
    firstSym := first[..];
  }

  method SortSymbols(lens: seq<nat>, firstSym: seq<nat>) returns (sorted: seq<nat>)
    requires ShortLengths(lens) && |firstSym| == MAX_LEN + 2
    requires forall l :: 1 <= l <= MAX_LEN ==> firstSym[l] == FirstSym(lens, l)
    ensures |sorted| == NSYMS && Sorted(lens, |lens|, sorted)
  {
    var cursor := new nat[MAX_LEN + 2](i requires 0 <= i < MAX_LEN + 2 => firstSym[i]);
    var out := new nat[NSYMS](_ => 0);
    for s := 0 to |lens|
      invariant forall k {:trigger cursor[k]} :: 1 <= k <= MAX_LEN ==>
                cursor[k] == FirstSym(lens, k) + LenCount(lens[..s], k)
      invariant Sorted(lens, s, out[..])
    {
      LenCountNext(lens, s);
      var l := lens[s];
      if l != 0 {
        SortedPosBound(lens, s);
        SortNext(lens, s, out[..]);
        out[cursor[l]] := s;
        cursor[l] := cursor[l] + 1;
      }
    }
    sorted := out[..];
  }

  /** The first n symbols that are used stand at their sorted positions. */
  predicate Sorted(lens: seq<nat>, n: nat, sorted: seq<nat>)
    requires n <= |lens|
  {
    forall s {:trigger SortedPos(lens, s)} :: 0 <= s < n && lens[s] > 0 ==>
      SortedPos(lens, s) < |sorted| && sorted[SortedPos(lens, s)] == s
  }

  lemma SortNext(lens: seq<nat>, s: nat, sorted: seq<nat>)
    requires s < |lens| && lens[s] > 0 && SortedPos(lens, s) < |sorted|
    requires Sorted(lens, s, sorted)
    ensures Sorted(lens, s + 1, sorted[SortedPos(lens, s) := s])
  {
    forall k | 0 <= k < s && lens[k] > 0 ensures SortedPos(lens, k) != SortedPos(lens, s) {
      SortedPosInjective(lens, k, s);
    }
  }

  /* ---- One symbol per 11-bit window -------------------------------------- */

  const SLOW := Hit(0, 0)

  /** What the walk finds inside the window j; length 0 sends the decoder to the walk itself. */
  function FastOf(lens: seq<nat>, j: nat): (h: Hit)
  {
    match Walk(lens, Bits(j, FAST_BITS))
    case Some(h) => h
    case None => SLOW
  }

  /** Windows below p hold their walk's answer, the rest are still empty. */
  predicate FilledTo(lens: seq<nat>, p: nat, fast: seq<Hit>)
  {
    && |fast| == FAST_SIZE && p <= FAST_SIZE
    && (forall j {:trigger fast[j]} :: 0 <= j < p ==> fast[j] == FastOf(lens, j))
    && (forall j {:trigger fast[j]} :: p <= j < FAST_SIZE ==> fast[j] == SLOW)
  }

  predicate FastTable(lens: seq<nat>, fast: seq<Hit>)
  {
    FilledTo(lens, FAST_SIZE, fast)
  }

  /** Where the windows of the code First(l) + i start; i may be one past the last code. */
  function SpanStart(lens: seq<nat>, l: nat, i: nat): nat
    requires l <= FAST_BITS
  {
    (First(lens, l) + i) * Pow2(FAST_BITS - l)
  }

  lemma SpanWindows(lens: seq<nat>, l: nat, i: nat, j: nat)
    requires CodeLengths(lens) && 1 <= l <= FAST_BITS && i < LenCount(lens, l)
    requires j < FAST_SIZE && SpanStart(lens, l, i) <= j < SpanStart(lens, l, i + 1)
    ensures FastOf(lens, j) == Hit(Nth(lens, l, i), l)
  {
    SpanValue(lens, l, i, j);
    hide Pow2, Bits, Val, First, LenCount, Nth, Walk, SpanStart, CodeLengths;
    WalkFinds(lens, Bits(j, FAST_BITS), l);
  }

  lemma SpanValue(lens: seq<nat>, l: nat, i: nat, j: nat)
    requires 1 <= l <= FAST_BITS && j < FAST_SIZE && SpanStart(lens, l, i) <= j < SpanStart(lens, l, i + 1)
    ensures |Bits(j, FAST_BITS)| == FAST_BITS && Val(Bits(j, FAST_BITS)[..l]) == First(lens, l) + i
  {
    FastSize();
    hide Pow2, Bits, Val, First;
    ValOfBits(j, FAST_BITS);
    ValPrefix(Bits(j, FAST_BITS), l);
    Quotient(j, Pow2(FAST_BITS - l), First(lens, l) + i);
  }

  lemma FastSize()
    ensures Pow2(FAST_BITS) == FAST_SIZE
  {
  }

  lemma Quotient(j: nat, p: nat, e: nat)
    requires e * p <= j < (e + 1) * p
    ensures p > 0 && j / p == e
  {
    DivAtLeast(j, p, e);
    DivBelow(j, p, e + 1);
  }

  lemma SpansMeet(lens: seq<nat>, l: nat)
    requires l < FAST_BITS
    ensures SpanStart(lens, l, LenCount(lens, l)) == SpanStart(lens, l + 1, 0)
  {
    hide LenCount;
    MulDouble(End(lens, l), Pow2(FAST_BITS - l - 1));
  }

  lemma SpanInTable(lens: seq<nat>, l: nat, i: nat)
    requires CodeLengths(lens) && l <= FAST_BITS && i <= LenCount(lens, l)
    ensures SpanStart(lens, l, i) <= FAST_SIZE
  {
    CodesFit(lens, l);
    MulMonotone(First(lens, l) + i, Pow2(l), Pow2(FAST_BITS - l));
    Pow2Add(l, FAST_BITS - l);
    assert Pow2(l + (FAST_BITS - l)) == Pow2(11) == FAST_SIZE;
  }

  lemma {:induction false} WalkMisses(lens: seq<nat>, b: bits, l: nat)
    requires 1 <= l <= |b| + 1 && |b| <= MAX_LEN
    requires Val(b) >= End(lens, |b|)
    requires Val(b[..l - 1]) >= End(lens, l - 1)
    ensures WalkFrom(lens, b, l) == None
    decreases |b| - l
  {
    assert b[..|b|] == b;
    if l < |b| {
      PastEnds(lens, b, l, |b|);
      WalkMisses(lens, b, l + 1);
    } else if l == |b| {
      WalkMisses(lens, b, l + 1);
    }
  }

  /** Windows past the last 11-bit code hold the start of a longer code, or of none. */
  lemma PastLastSpan(lens: seq<nat>, j: nat)
    requires j < FAST_SIZE && SpanStart(lens, FAST_BITS, LenCount(lens, FAST_BITS)) <= j
    ensures FastOf(lens, j) == SLOW
  {
    assert Pow2(FAST_BITS) == FAST_SIZE && Pow2(0) == 1;
    ValOfBits(j, FAST_BITS);
    assert SpanStart(lens, FAST_BITS, LenCount(lens, FAST_BITS)) == End(lens, FAST_BITS);
    WalkMisses(lens, Bits(j, FAST_BITS), 1);
  }

  /** First window not covered by codes shorter than l. */
  function FirstSpan(lens: seq<nat>, l: nat): nat
    requires 1 <= l <= FAST_BITS + 1
  {
    if l <= FAST_BITS then SpanStart(lens, l, 0) else SpanStart(lens, FAST_BITS, LenCount(lens, FAST_BITS))
  }

  lemma TableComplete(lens: seq<nat>, fast: seq<Hit>)
    requires FilledTo(lens, FirstSpan(lens, FAST_BITS + 1), fast)
    ensures FastTable(lens, fast)
  {
    forall j | FirstSpan(lens, FAST_BITS + 1) <= j < FAST_SIZE
      ensures fast[j] == FastOf(lens, j)
    {
      PastLastSpan(lens, j);
    }
  }

  method BuildFast(ghost lens: seq<nat>, t: Tables) returns (fast: seq<Hit>)
    requires CodeLengths(lens) && TablesFor(lens, t)
    ensures FastTable(lens, fast)
  {
    var table := new Hit[FAST_SIZE](_ => SLOW);
    var code := 0;
    assert First(lens, 1) == 0;
    assert FirstSpan(lens, 1) == 0;
    for l := 1 to FAST_BITS + 1
      invariant code == First(lens, l)
      invariant FilledTo(lens, FirstSpan(lens, l), table[..])
    {
      code := FillLength(lens, t, l, code, table);
      assert FirstSpan(lens, l + 1) == SpanStart(lens, l, LenCount(lens, l)) by {
        if l < FAST_BITS { SpansMeet(lens, l); }
      }
      code := code * 2;
    }
    fast := table[..];
    TableComplete(lens, fast);
  }

  /** Fills the windows of every code of length l, in order, and returns the code after the last. */
  method FillLength(ghost lens: seq<nat>, t: Tables, l: nat, first: nat, table: array<Hit>) returns (code: nat)
    requires CodeLengths(lens) && TablesFor(lens, t) && 1 <= l <= FAST_BITS
    requires first == First(lens, l) && FilledTo(lens, SpanStart(lens, l, 0), table[..])
    modifies table
    ensures code == End(lens, l)
    ensures FilledTo(lens, SpanStart(lens, l, LenCount(lens, l)), table[..])
  {
    code := first;
    for i := 0 to t.blCount[l]
      invariant code == First(lens, l) + i
      invariant FilledTo(lens, SpanStart(lens, l, i), table[..])
    {
      SortedIsNth(lens, t, l, i);
      FillSpan(lens, l, i, code, Hit(t.sorted[t.firstSym[l] + i], l), table);
      code := code + 1;
    }
  }

  method FillSpan(ghost lens: seq<nat>, l: nat, ghost i: nat, code: nat, hit: Hit, table: array<Hit>)
    requires CodeLengths(lens) && 1 <= l <= FAST_BITS && i < LenCount(lens, l)
    requires code == First(lens, l) + i && hit == Hit(Nth(lens, l, i), l)
    requires FilledTo(lens, SpanStart(lens, l, i), table[..])
    modifies table
    ensures FilledTo(lens, SpanStart(lens, l, i + 1), table[..])
  {
    var span := Pow2(FAST_BITS - l);
    var start := code * span;
    var end := start + span;
    assert end == SpanStart(lens, l, i + 1) by { MulDistribute(code, 1, span); }
    SpanInTable(lens, l, i + 1);
    for j := start to end
      invariant FilledTo(lens, j, table[..])
    {
      SpanWindows(lens, l, i, j);
      table[j] := hit;
    }
  }

  /* ---- Up to two symbols per window -------------------------------------- */

  /** total: bits of all symbols decoded, 0 for the walk; len1: bits of the second, 0 for one. */
  datatype Pair = Pair(s0: nat, s1: nat, total: nat, len1: nat)

  /** The entry says what one walk, and then a second, find inside the window w. */
  predicate PairMeans(lens: seq<nat>, w: bits, p: Pair)
  {
    if p.total == 0 then p.len1 == 0 && Walk(lens, w) == None
    else
      && p.s1 < NSYMS && p.len1 < p.total <= |w|
      && Walk(lens, w) == Some(Hit(p.s0, p.total - p.len1))
      && Walk(lens, w[p.total - p.len1..]) == if p.len1 > 0 then Some(Hit(p.s1, p.len1)) else None
  }

  predicate PairTable(lens: seq<nat>, fast2: seq<Pair>)
  {
    |fast2| == FAST_SIZE
    && forall j {:trigger fast2[j]} :: 0 <= j < FAST_SIZE ==> PairMeans(lens, Bits(j, FAST_BITS), fast2[j])
  }

  lemma ShiftValue(b: bits, k: nat)
    requires k <= |b|
    ensures Val(b) * Pow2(k) % Pow2(|b|) == Val(b[k..] + Zeros(k))
  {
    var hi: int, lo: int, p: int, q: int := Val(b[..k]), Val(b[k..]), Pow2(k), Pow2(|b| - k);
    assert Val(b) == hi * q + lo by {
      assert b == b[..k] + b[k..];
      ValConcat(b[..k], b[k..]);
    }
    assert Val(b[k..] + Zeros(k)) == lo * p by {
      ValConcat(b[k..], Zeros(k));
      ValZeros(k);
    }
    assert Pow2(|b|) == q * p by { Pow2Add(|b| - k, k); }
    ValBound(b[k..]);
    ShiftArith(Val(b), hi, lo, p, q, Pow2(|b|));
  }

  /** Shifting a window left by k drops its first k bits and brings in zeros. */
  lemma ShiftWindow(v: nat, n: nat, k: nat)
    requires v < Pow2(n) && k <= n
    ensures 0 <= v * Pow2(k) % Pow2(n) < Pow2(n)
    ensures Bits(v * Pow2(k) % Pow2(n), n) == Bits(v, n)[k..] + Zeros(k)
  {
    ValOfBits(v, n);
    ShiftValue(Bits(v, n), k);
    BitsOfVal(Bits(v, n)[k..] + Zeros(k));
  }

  lemma ShiftArith(v: nat, hi: nat, lo: nat, p: nat, q: nat, m: nat)
    requires v == hi * q + lo && lo < q && p > 0 && m == q * p > 0
    ensures v * p % m == lo * p
  {
    MulMonotone(lo + 1, q, p);
    MulDistribute(lo, 1, p);
    MulDistribute(hi * q, lo, p);
    assert hi * q * p == hi * (q * p);
    DivModUnique(hi, m, lo * p);
  }

  /** A hit inside a window padded with zeros is a hit in the window when it fits, and conversely. */
  lemma PaddedWalk(lens: seq<nat>, w: bits, k: nat)
    requires |w| + k <= FAST_BITS
    ensures Walk(lens, w).Some? ==> Walk(lens, w + Zeros(k)) == Walk(lens, w)
    ensures Walk(lens, w + Zeros(k)).Some? && Walk(lens, w + Zeros(k)).value.len <= |w| ==>
              Walk(lens, w) == Walk(lens, w + Zeros(k))
  {
    var padded := w + Zeros(k);
    if Walk(lens, w).Some? {
      assert padded[..Walk(lens, w).value.len] == w[..Walk(lens, w).value.len];
      WalkPrefix(lens, w, padded);
    } else if Walk(lens, padded).Some? && Walk(lens, padded).value.len <= |w| {
      assert padded[..Walk(lens, padded).value.len] == w[..Walk(lens, padded).value.len];
      WalkPrefix(lens, padded, w);
    }
  }

  method PairEntry(ghost lens: seq<nat>, fast: seq<Hit>, idx: nat) returns (p: Pair)
    requires CodeLengths(lens) && FastTable(lens, fast) && idx < FAST_SIZE
    ensures PairMeans(lens, Bits(idx, FAST_BITS), p)
  {
    ghost var w := Bits(idx, FAST_BITS);
    var e0 := fast[idx];
    if e0.len == 0 {
      return Pair(0, 0, 0, 0);
    }
    var rem := FAST_BITS - e0.len;
    ShiftToSecond(lens, idx, e0.len);
    if rem > 0 {
      var idx2 := idx * Pow2(e0.len) % FAST_SIZE;
      var e1 := fast[idx2];
      if e1.len != 0 && e1.len <= rem {
        return Pair(e0.sym, e1.sym, e0.len + e1.len, e1.len);
      }
    }
    return Pair(e0.sym, 0, e0.len, 0);
  }

  /** The shifted index looks up the walk that starts after the first symbol. */
  lemma ShiftToSecond(lens: seq<nat>, idx: nat, l: nat)
    requires idx < FAST_SIZE && l <= FAST_BITS
    ensures 0 <= idx * Pow2(l) % FAST_SIZE < FAST_SIZE
    ensures var e := FastOf(lens, idx * Pow2(l) % FAST_SIZE);
            var rest := Bits(idx, FAST_BITS)[l..];
            Walk(lens, rest) == if e.len != 0 && e.len <= |rest| then Some(e) else None
  {
    assert Pow2(FAST_BITS) == FAST_SIZE;
    ShiftWindow(idx, FAST_BITS, l);
    PaddedWalk(lens, Bits(idx, FAST_BITS)[l..], l);
  }

  method BuildPairs(ghost lens: seq<nat>, fast: seq<Hit>) returns (fast2: seq<Pair>)
    requires CodeLengths(lens) && FastTable(lens, fast)
    ensures PairTable(lens, fast2)
  {
    var table := new Pair[FAST_SIZE](_ => Pair(0, 0, 0, 0));
    for idx := 0 to FAST_SIZE
      invariant forall j {:trigger table[j]} :: 0 <= j < idx ==> PairMeans(lens, Bits(j, FAST_BITS), table[j])
    {
      table[idx] := PairEntry(lens, fast, idx);
    }
    fast2 := table[..];
  }
}
