/**
 * Canonical Huffman codes (src/entropy/huffman.c), assigned from code lengths as in section 3.2.2
 * of RFC 1951: codes fit their lengths, no code is a prefix of another, and the decoder's bit walk,
 * which tests only the upper bound of each length's code range, finds exactly the code in front.
 */
module HuffmanCode {
  import opened Base
  import opened BitString

  const NSYMS: nat := 256
  const MAX_LEN: nat := 15

  /** How many symbols have length l; length 0 marks unused symbols and is never counted. */
  function LenCount(lens: seq<nat>, l: nat): (c: nat)
    ensures c <= |lens|
    ensures l == 0 ==> c == 0
  {
    if lens == [] || l == 0 then 0
    else LenCount(lens[..|lens| - 1], l) + if lens[|lens| - 1] == l then 1 else 0
  }

  /** The first code of length l. */
  function First(lens: seq<nat>, l: nat): nat
  {
    if l == 0 then 0 else 2 * (First(lens, l - 1) + LenCount(lens, l - 1))
  }

  /** The end of length l's code range; a code at or past it is longer than l. */
  function End(lens: seq<nat>, l: nat): nat
  {
    First(lens, l) + LenCount(lens, l)
  }

  /** Code space used by lengths up to l, in units of 2^-15. */
  function KraftTo(lens: seq<nat>, l: nat): nat
    requires l <= MAX_LEN
  {
    if l == 0 then 0 else KraftTo(lens, l - 1) + LenCount(lens, l) * Pow2(MAX_LEN - l)
  }

  predicate ShortLengths(lens: seq<nat>)
  {
    |lens| <= NSYMS && forall s :: 0 <= s < |lens| ==> lens[s] <= MAX_LEN
  }

  /** Code lengths that satisfy the Kraft inequality. */
  predicate CodeLengths(lens: seq<nat>)
  {
    ShortLengths(lens) && KraftTo(lens, MAX_LEN) <= Pow2(MAX_LEN)
  }

  /** Position of symbol s among the symbols of its length. */
  function Rank(lens: seq<nat>, s: nat): nat
    requires s < |lens|
  {
    LenCount(lens[..s], lens[s])
  }

  function Code(lens: seq<nat>, s: nat): nat
    requires s < |lens|
  {
    First(lens, lens[s]) + Rank(lens, s)
  }

  function CodeBits(lens: seq<nat>, s: nat): (b: bits)
    requires s < |lens|
    ensures |b| == lens[s]
  {
    Bits(Code(lens, s), lens[s])
  }

  /* ---- Code ranges ------------------------------------------------------- */

  lemma {:induction false} KraftMonotone(lens: seq<nat>, l: nat, m: nat)
    requires l <= m <= MAX_LEN
    ensures KraftTo(lens, l) <= KraftTo(lens, m)
  {
    if l < m {
      KraftMonotone(lens, l, m - 1);
      MulMonotone(0, LenCount(lens, m), Pow2(MAX_LEN - m));
    }
  }

  /** The end of a length's code range, scaled to 15 bits, is the code space used so far. */
  lemma {:induction false} RangeEnd(lens: seq<nat>, l: nat)
    requires l <= MAX_LEN
    ensures End(lens, l) * Pow2(MAX_LEN - l) == KraftTo(lens, l)
  {
    if l > 0 {
      RangeEnd(lens, l - 1);
      var e, p := End(lens, l - 1), Pow2(MAX_LEN - l);
      assert Pow2(MAX_LEN - (l - 1)) == 2 * p;
      RangeEndArith(e, LenCount(lens, l), p);
    }
  }

  lemma RangeEndArith(e: nat, c: nat, p: nat)
    ensures (2 * e + c) * p == e * (2 * p) + c * p
  {
    MulDistribute(2 * e, c, p);
    MulDouble(e, p);
  }

  lemma CodesFit(lens: seq<nat>, l: nat)
    requires CodeLengths(lens) && l <= MAX_LEN
    ensures End(lens, l) <= Pow2(l)
  {
    RangeEnd(lens, l);
    KraftMonotone(lens, l, MAX_LEN);
    assert Pow2(l + (MAX_LEN - l)) == Pow2(MAX_LEN);
    Pow2Add(l, MAX_LEN - l);
    MulCancel(End(lens, l), Pow2(l), Pow2(MAX_LEN - l));
  }

  /** Later lengths start past every shorter code: First(m) >= 2^(m - l) * (end of range l). */
  lemma {:induction false} RangesAscend(lens: seq<nat>, l: nat, m: nat)
    requires l < m
    ensures End(lens, l) * Pow2(m - l) <= First(lens, m)
    decreases m
  {
    var e := End(lens, l);
    if l == m - 1 {
      assert Pow2(1) == 2;
    } else {
      RangesAscend(lens, l, m - 1);
      MulDouble(e, Pow2(m - 1 - l));
    }
  }

  lemma {:induction false} LenCountSplit(lens: seq<nat>, k: nat, l: nat)
    requires k <= |lens|
    ensures LenCount(lens[..k], l) <= LenCount(lens, l)
    ensures k < |lens| && lens[k] == l && l > 0 ==> LenCount(lens[..k], l) < LenCount(lens, l)
    decreases |lens|
  {
    var n := |lens| - 1;
    if k == |lens| {
      assert lens[..k] == lens;
    } else if k == n {
    } else {
      LenCountSplit(lens[..n], k, l);
      assert lens[..n][..k] == lens[..k];
    }
  }

  lemma RankBound(lens: seq<nat>, s: nat)
    requires s < |lens| && lens[s] > 0
    ensures Rank(lens, s) < LenCount(lens, lens[s])
  {
    LenCountSplit(lens, s, lens[s]);
  }

  lemma RankStrict(lens: seq<nat>, s: nat, t: nat)
    requires s < t < |lens| && lens[s] == lens[t] > 0
    ensures Rank(lens, s) < Rank(lens, t)
  {
    LenCountSplit(lens[..t], s, lens[s]);
    assert lens[..t][..s] == lens[..s];
  }

  lemma CodeFits(lens: seq<nat>, s: nat)
    requires CodeLengths(lens) && s < |lens| && lens[s] > 0
    ensures Code(lens, s) < Pow2(lens[s])
    ensures Val(CodeBits(lens, s)) == Code(lens, s)
  {
    RankBound(lens, s);
    CodesFit(lens, lens[s]);
    ValOfBits(Code(lens, s), lens[s]);
  }

  /** The first l bits of a longer code lie at or past the end of the codes of length l. */
  lemma LongerCodeIsPast(lens: seq<nat>, l: nat, t: nat)
    requires CodeLengths(lens) && t < |lens| && l < lens[t]
    ensures Val(CodeBits(lens, t)[..l]) >= End(lens, l)
  {
    CodeFits(lens, t);
    RangesAscend(lens, l, lens[t]);
    ValPrefix(CodeBits(lens, t), l);
    DivAtLeast(Code(lens, t), Pow2(lens[t] - l), End(lens, l));
  }

  /** No code is a prefix of another symbol's code. */
  lemma PrefixFree(lens: seq<nat>, s: nat, t: nat)
    requires CodeLengths(lens) && s < |lens| && t < |lens| && s != t
    requires 0 < lens[s] <= lens[t]
    ensures CodeBits(lens, s) != CodeBits(lens, t)[..lens[s]]
  {
    CodeFits(lens, s);
    CodeFits(lens, t);
    RankBound(lens, s);
    if lens[s] == lens[t] {
      if s < t { RankStrict(lens, s, t); } else { RankStrict(lens, t, s); }
      assert CodeBits(lens, t)[..lens[s]] == CodeBits(lens, t);
    } else {
      LongerCodeIsPast(lens, lens[s], t);
    }
  }

  /* ---- The bit walk ------------------------------------------------------ */

  /** The symbol of length l and rank r. */
  function Nth(lens: seq<nat>, l: nat, r: nat): (s: nat)
    requires r < LenCount(lens, l)
    ensures s < |lens| && lens[s] == l && Rank(lens, s) == r
  {
    var n := |lens| - 1;
    if lens[n] == l && r == LenCount(lens[..n], l) then n
    else
      var s := Nth(lens[..n], l, r);
      assert lens[..n][..s] == lens[..s];
      s
  }

  lemma NthOfRank(lens: seq<nat>, s: nat)
    requires s < |lens| && lens[s] > 0
    ensures Rank(lens, s) < LenCount(lens, lens[s])
    ensures Nth(lens, lens[s], Rank(lens, s)) == s
  {
    RankBound(lens, s);
    var t := Nth(lens, lens[s], Rank(lens, s));
    if s < t { RankStrict(lens, s, t); } else if t < s { RankStrict(lens, t, s); }
  }

  datatype Hit = Hit(sym: nat, len: nat)

  /**
   * The decoder's walk: take one more bit until the bits so far are below the end of their length's
   * code range. The test on the low end is not needed, as every walk that gets here is past it.
   */
  function WalkFrom(lens: seq<nat>, b: bits, l: nat): (r: Option<Hit>)
    requires 1 <= l <= |b| + 1
    requires Val(b[..l - 1]) >= End(lens, l - 1)
    ensures r.Some? ==> l <= r.value.len <= |b| && r.value.len <= MAX_LEN
    ensures r.Some? ==> r.value.sym < |lens| && lens[r.value.sym] == r.value.len
    decreases |b| - l
  {
    if l > |b| || l > MAX_LEN then None
    else
      NextBit(b, l);
      if LenCount(lens, l) != 0 && Val(b[..l]) < End(lens, l)
      then Some(Hit(Nth(lens, l, Val(b[..l]) - First(lens, l)), l))
      else WalkFrom(lens, b, l + 1)
  }

  function Walk(lens: seq<nat>, b: bits): (r: Option<Hit>)
    ensures r.Some? ==> 1 <= r.value.len <= |b| && r.value.len <= MAX_LEN
    ensures r.Some? ==> r.value.sym < |lens| && lens[r.value.sym] == r.value.len
  {
    WalkFrom(lens, b, 1)
  }

  lemma NextBit(b: bits, l: nat)
    requires 1 <= l <= |b|
    ensures Val(b[..l]) == 2 * Val(b[..l - 1]) + if b[l - 1] then 1 else 0
  {
    assert b[..l][..l - 1] == b[..l - 1];
  }

  /** One step of the walk: stop here, or go on past this length's range. */
  lemma WalkStep(lens: seq<nat>, b: bits, l: nat)
    requires 1 <= l <= |b| && l <= MAX_LEN
    requires Val(b[..l - 1]) >= End(lens, l - 1)
    ensures Val(b[..l]) >= First(lens, l)
    ensures if LenCount(lens, l) != 0 && Val(b[..l]) < End(lens, l)
            then WalkFrom(lens, b, l) == Some(Hit(Nth(lens, l, Val(b[..l]) - First(lens, l)), l))
            else Val(b[..l]) >= End(lens, l) && WalkFrom(lens, b, l) == WalkFrom(lens, b, l + 1)
  {
    NextBit(b, l);
  }

  /** Bits at or past the end of a range stay there as bits are added. */
  lemma PastEnds(lens: seq<nat>, b: bits, l: nat, m: nat)
    requires l < m <= |b| && Val(b[..m]) >= First(lens, m)
    ensures Val(b[..l]) >= End(lens, l)
  {
    RangesAscend(lens, l, m);
    assert b[..m][..l] == b[..l];
    ValPrefix(b[..m], l);
    DivAtLeast(Val(b[..m]), Pow2(m - l), End(lens, l));
  }

  lemma {:induction false} WalkSkips(lens: seq<nat>, b: bits, l: nat, m: nat)
    requires 1 <= l <= m <= |b| && m <= MAX_LEN && Val(b[..m]) >= First(lens, m)
    requires Val(b[..l - 1]) >= End(lens, l - 1) && Val(b[..m - 1]) >= End(lens, m - 1)
    ensures WalkFrom(lens, b, l) == WalkFrom(lens, b, m)
    decreases m - l
  {
    if l < m {
      PastEnds(lens, b, l, m);
      WalkSkips(lens, b, l + 1, m);
    }
  }

  /** The walk stops at the length whose code range holds the bits. */
  lemma WalkFinds(lens: seq<nat>, b: bits, m: nat)
    requires 1 <= m <= |b| && m <= MAX_LEN
    requires First(lens, m) <= Val(b[..m]) < End(lens, m)
    ensures Walk(lens, b) == Some(Hit(Nth(lens, m, Val(b[..m]) - First(lens, m)), m))
  {
    PastEnds(lens, b, m - 1, m);
    WalkSkips(lens, b, 1, m);
  }

  /** Bits that start with a symbol's code walk to that symbol. */
  lemma WalkReadsCode(lens: seq<nat>, b: bits, s: nat)
    requires CodeLengths(lens) && s < |lens| && lens[s] > 0
    requires lens[s] <= |b| && b[..lens[s]] == CodeBits(lens, s)
    ensures Walk(lens, b) == Some(Hit(s, lens[s]))
  {
    CodeFits(lens, s);
    NthOfRank(lens, s);
    WalkFinds(lens, b, lens[s]);
  }

  /** What the walk finds is a code: the converse. */
  lemma {:induction false} WalkFromSound(lens: seq<nat>, b: bits, l: nat)
    requires 1 <= l <= |b| + 1
    requires Val(b[..l - 1]) >= End(lens, l - 1)
    ensures WalkFrom(lens, b, l).Some? ==>
              var h := WalkFrom(lens, b, l).value;
              && First(lens, h.len) <= Val(b[..h.len]) < End(lens, h.len)
              && b[..h.len] == CodeBits(lens, h.sym)
    decreases |b| - l
  {
    if l <= |b| && l <= MAX_LEN {
      NextBit(b, l);
      if LenCount(lens, l) != 0 && Val(b[..l]) < End(lens, l) {
        BitsOfVal(b[..l]);
      } else {
        WalkFromSound(lens, b, l + 1);
      }
    }
  }

  /** The walk reads s exactly when the bits start with the code of s. */
  lemma WalkExact(lens: seq<nat>, b: bits, s: nat)
    requires CodeLengths(lens) && s < |lens| && lens[s] > 0
    ensures Walk(lens, b) == Some(Hit(s, lens[s])) <==>
            lens[s] <= |b| && b[..lens[s]] == CodeBits(lens, s)
  {
    WalkFromSound(lens, b, 1);
    if lens[s] <= |b| && b[..lens[s]] == CodeBits(lens, s) {
      WalkReadsCode(lens, b, s);
    }
  }

  /** A hit depends only on its own bits. */
  lemma WalkPrefix(lens: seq<nat>, b: bits, c: bits)
    requires Walk(lens, b).Some?
    requires Walk(lens, b).value.len <= |c|
    requires b[..Walk(lens, b).value.len] == c[..Walk(lens, b).value.len]
    ensures Walk(lens, c) == Walk(lens, b)
  {
    WalkFromSound(lens, b, 1);
    var h := Walk(lens, b).value;
    WalkFinds(lens, b, h.len);
    WalkFinds(lens, c, h.len);
  }
}
