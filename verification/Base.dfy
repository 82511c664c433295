/** Bytes, little-endian integers and the few sequence functions every module shares. */
module Base {

  type byte = x: int | 0 <= x < 256

  const U16_LIMIT: nat := 0x1_0000
  const U32_LIMIT: nat := 0x1_0000_0000
  const U64_LIMIT: nat := 0x1_0000_0000_0000_0000

  datatype Option<+T> = None | Some(value: T)

  /** The status codes the modelled functions return. */
  datatype Error = Invalid | Corrupt | Unsupported | Version | IO

  datatype Result<+T> = Ok(value: T) | Err(error: Error)

  function Min(a: int, b: int): int { if a <= b then a else b }

  function Max(a: int, b: int): int { if a <= b then b else a }

  /** The low 32 bits: a value stored in or cast to a 32-bit unsigned integer. */
  function LowU32(n: nat): (r: nat)
    ensures r < U32_LIMIT && (n < U32_LIMIT ==> r == n)
  {
    n % U32_LIMIT
  }

  function Pow2(n: nat): (p: nat)
    ensures p >= 1
  {
    if n == 0 then 1 else 2 * Pow2(n - 1)
  }

  lemma {:induction false} Pow2Add(a: nat, b: nat)
    ensures Pow2(a + b) == Pow2(a) * Pow2(b)
  {
    if a == 0 {
    } else {
      Pow2Add(a - 1, b);
      assert Pow2(a + b) == 2 * Pow2(a - 1 + b);
    }
  }

  lemma Pow2Values()
    ensures Pow2(7) == 128 && Pow2(16) == 0x1_0000 && Pow2(32) == U32_LIMIT
  {
    assert Pow2(7) == 128 && Pow2(8) == 256;
    Pow2Add(8, 8);
    Pow2Add(16, 16);
  }

  lemma {:induction false} Pow2Monotone(a: nat, b: nat)
    requires a <= b
    ensures Pow2(a) <= Pow2(b)
    decreases b
  {
    if a < b {
      Pow2Monotone(a, b - 1);
    }
  }

  lemma {:induction false} Pow2Exceeds(n: nat)
    ensures n < Pow2(n)
  {
    if n > 0 {
      Pow2Exceeds(n - 1);
    }
  }

  function Sum(s: seq<int>): int
  {
    if s == [] then 0 else Sum(s[..|s| - 1]) + s[|s| - 1]
  }

  lemma {:induction false} SumAppend(s: seq<int>, v: int)
    ensures Sum(s + [v]) == Sum(s) + v
  {
    assert (s + [v])[..|s|] == s;
  }

  lemma {:induction false} SumConcat(a: seq<int>, b: seq<int>)
    ensures Sum(a + b) == Sum(a) + Sum(b)
  {
    if b == [] {
      assert a + b == a;
    } else {
      SumConcat(a, b[..|b| - 1]);
      assert (a + b)[..|a + b| - 1] == a + b[..|b| - 1];
    }
  }

  lemma {:induction false} SumUpdate(s: seq<int>, i: nat, v: int)
    requires i < |s|
    ensures Sum(s[i := v]) == Sum(s) - s[i] + v
  {
    if i == |s| - 1 {
      assert s[i := v][..i] == s[..i];
    } else {
      SumUpdate(s[..|s| - 1], i, v);
      assert s[i := v][..|s| - 1] == s[..|s| - 1][i := v];
    }
  }

  lemma {:induction false} SumBounds(s: seq<int>, lo: int, hi: int)
    requires forall i :: 0 <= i < |s| ==> lo <= s[i] <= hi
    ensures lo * |s| <= Sum(s) <= hi * |s|
  {
    if s == [] {
    } else {
      SumBounds(s[..|s| - 1], lo, hi);
      assert lo * (|s| - 1) + lo == lo * |s|;
      assert hi * (|s| - 1) + hi == hi * |s|;
    }
  }

  /** Every term of a sum of non-negative terms is at most the sum. */
  lemma {:induction false} SumAtLeast(s: seq<int>, i: nat)
    requires i < |s|
    requires forall k :: 0 <= k < |s| ==> s[k] >= 0
    ensures 0 <= s[i] <= Sum(s)
  {
    SumNonNegative(s[..|s| - 1]);
    if i < |s| - 1 {
      SumAtLeast(s[..|s| - 1], i);
    }
  }

  lemma {:induction false} SumNonNegative(s: seq<int>)
    requires forall k :: 0 <= k < |s| ==> s[k] >= 0
    ensures Sum(s) >= 0
  {
    if s != [] {
      SumNonNegative(s[..|s| - 1]);
    }
  }

  function Total(s: seq<nat>): (t: nat)
    ensures t == Sum(s)
  {
    SumNonNegative(s);
    Sum(s)
  }

  function Rev(s: seq<byte>): (r: seq<byte>)
    ensures |r| == |s|
    ensures forall i :: 0 <= i < |s| ==> r[i] == s[|s| - 1 - i]
  {
    if s == [] then [] else Rev(s[1..]) + [s[0]]
  }

  lemma RevConcat(a: seq<byte>, b: seq<byte>)
    ensures Rev(a + b) == Rev(b) + Rev(a)
  {
  }

  /** The n low bytes of v, least significant first. */
  function LE(v: nat, n: nat): (b: seq<byte>)
    ensures |b| == n
  {
    if n == 0 then [] else [v % 256] + LE(v / 256, n - 1)
  }

  /** The number whose little-endian bytes are b. */
  function LEVal(b: seq<byte>): nat
  {
    if b == [] then 0 else b[0] + 256 * LEVal(b[1..])
  }

  /** v can be stored in n bytes. */
  predicate Fits(v: nat, n: nat)
  {
    if n == 0 then v == 0 else Fits(v / 256, n - 1)
  }

  lemma {:induction false} LERoundTrip(v: nat, n: nat)
    requires Fits(v, n)
    ensures LEVal(LE(v, n)) == v
  {
    if n > 0 {
      LERoundTrip(v / 256, n - 1);
      assert LE(v, n)[1..] == LE(v / 256, n - 1);
    }
  }

  lemma FitsU16(v: nat)
    ensures Fits(v, 2) <==> v < U16_LIMIT
  {
    assert Fits(v, 2) == Fits(v / 256, 1) == Fits(v / 256 / 256, 0);
  }

  lemma FitsU32(v: nat)
    ensures Fits(v, 4) <==> v < U32_LIMIT
  {
    FitsU16(v / 256 / 256);
    assert Fits(v, 4) == Fits(v / 256, 3) == Fits(v / 256 / 256, 2);
  }

  lemma FitsU64(v: nat)
    ensures Fits(v, 8) <==> v < U64_LIMIT
  {
    var w := v / 256 / 256 / 256 / 256;
    FitsU32(w);
    assert Fits(v, 8) == Fits(v / 256, 7) == Fits(v / 256 / 256, 6)
        == Fits(v / 256 / 256 / 256, 5) == Fits(w, 4);
  }

  /** Reading back any field narrower than its width. */
  lemma LEFieldRoundTrip(v: nat, n: nat)
    requires (n == 2 && v < U16_LIMIT) || (n == 4 && v < U32_LIMIT) || (n == 8 && v < U64_LIMIT)
    ensures LEVal(LE(v, n)) == v
  {
    FitsU16(v);
    FitsU32(v);
    FitsU64(v);
    LERoundTrip(v, n);
  }

  lemma {:induction false} LEFits(b: seq<byte>)
    ensures Fits(LEVal(b), |b|)
    ensures LE(LEVal(b), |b|) == b
  {
    if b != [] {
      LEFits(b[1..]);
      assert LEVal(b) / 256 == LEVal(b[1..]) && LEVal(b) % 256 == b[0];
      assert b == [b[0]] + b[1..];
    }
  }

  /** A field is below its width, and written again gives the same bytes. */
  lemma LEBelow(b: seq<byte>)
    ensures LE(LEVal(b), |b|) == b
    ensures |b| == 2 ==> LEVal(b) < U16_LIMIT
    ensures |b| == 4 ==> LEVal(b) < U32_LIMIT
    ensures |b| == 8 ==> LEVal(b) < U64_LIMIT
  {
    LEFits(b);
    FitsU16(LEVal(b));
    FitsU32(LEVal(b));
    FitsU64(LEVal(b));
  }

  /** A run of 16-bit little-endian fields. */
  function U16s(v: seq<nat>): (b: seq<byte>)
    ensures |b| == 2 * |v|
  {
    if v == [] then [] else LE(v[0], 2) + U16s(v[1..])
  }

  function ParseU16s(b: seq<byte>, n: nat): (v: seq<nat>)
    requires |b| == 2 * n
    ensures |v| == n
  {
    if n == 0 then [] else [LEVal(b[..2])] + ParseU16s(b[2..], n - 1)
  }

  lemma {:induction false} U16sRoundTrip(v: seq<nat>)
    requires forall i :: 0 <= i < |v| ==> v[i] < U16_LIMIT
    ensures ParseU16s(U16s(v), |v|) == v
  {
    if v != [] {
      U16sRoundTrip(v[1..]);
      LEFieldRoundTrip(v[0], 2);
      assert U16s(v)[..2] == LE(v[0], 2) && U16s(v)[2..] == U16s(v[1..]);
    }
  }

  /** How many counts are positive. */
  function ActiveCount(freq: seq<nat>): (n: nat)
    ensures n <= |freq|
  {
    if freq == [] then 0
    else ActiveCount(freq[..|freq| - 1]) + if freq[|freq| - 1] > 0 then 1 else 0
  }

  /** How many times x occurs in s. */
  function Count(s: seq<byte>, x: int): (c: nat)
    ensures c <= |s|
  {
    if s == [] then 0 else Count(s[..|s| - 1], x) + if s[|s| - 1] == x then 1 else 0
  }

  lemma {:induction false} CountPositive(s: seq<byte>, x: int)
    ensures Count(s, x) > 0 <==> x in s
  {
    if s != [] {
      CountPositive(s[..|s| - 1], x);
      assert s == s[..|s| - 1] + [s[|s| - 1]];
    }
  }

  function Histogram(src: seq<byte>, n: nat): (h: seq<nat>)
    ensures |h| == n && forall s :: 0 <= s < n ==> h[s] == Count(src, s)
  {
    seq(n, s requires 0 <= s < n => Count(src, s))
  }

  lemma {:induction false} HistogramTotal(src: seq<byte>, n: nat)
    requires forall i :: 0 <= i < |src| ==> src[i] < n
    ensures Sum(Histogram(src, n)) == |src|
  {
    var h := Histogram(src, n);
    if src == [] {
      SumBounds(h, 0, 0);
    } else {
      var front, last := src[..|src| - 1], src[|src| - 1];
      HistogramTotal(front, n);
      SumUpdate(Histogram(front, n), last, Count(front, last) + 1);
      assert h == Histogram(front, n)[last := Count(front, last) + 1];
    }
  }

  /** One past the last positive count. */
  function UsedPrefix(freq: seq<nat>): (m: nat)
    ensures m <= |freq| && forall s :: m <= s < |freq| ==> freq[s] == 0
    ensures m > 0 ==> freq[m - 1] > 0
  {
    if freq == [] then 0
    else if freq[|freq| - 1] > 0 then |freq|
    else UsedPrefix(freq[..|freq| - 1])
  }

  /** The downward scan both entropy coders use to find it. */
  method MaxSymbol(freq: seq<nat>) returns (m: nat)
    ensures m == UsedPrefix(freq)
  {
    assert freq[..|freq|] == freq;
    for s := |freq| downto 0
      invariant UsedPrefix(freq[..s]) == UsedPrefix(freq)
    {
      assert freq[..s + 1][..s] == freq[..s];
      if freq[s] != 0 {
        return s + 1;
      }
    }
    return 0;
  }

  /* ---- Sequences --------------------------------------------------------- */

  /** Dropping the last element of a concatenation. */
  lemma FrontOfConcat<T>(a: seq<T>, b: seq<T>)
    requires b != []
    ensures (a + b)[..|a + b| - 1] == a + b[..|b| - 1]
    ensures |a + b| == |a| + |b| && (a + b)[|a + b| - 1] == b[|b| - 1]
  {
  }

  lemma LastSplit<T>(s: seq<T>)
    requires s != []
    ensures s == s[..|s| - 1] + [s[|s| - 1]]
  {
  }

  lemma SplitThree<T>(s: seq<T>, i: nat, j: nat)
    requires i <= j <= |s|
    ensures s == s[..i] + s[i..j] + s[j..]
  {
  }

  lemma MiddleOf<T>(a: seq<T>, b: seq<T>, c: seq<T>)
    ensures (a + b + c)[|a|..|a| + |b|] == b
  {
  }

  lemma SliceOfSlice<T>(s: seq<T>, a: nat, b: nat, i: nat, j: nat)
    requires a <= b <= |s| && i <= j <= b - a
    ensures s[a..b][i..j] == s[a + i..a + j]
  {
    var u, v := s[a..b][i..j], s[a + i..a + j];
    forall k | 0 <= k < j - i
      ensures u[k] == v[k]
    {
      assert u[k] == s[a..b][i + k];
    }
  }

  lemma ConcatAssociative<T>(a: seq<T>, b: seq<T>, c: seq<T>)
    ensures a + (b + c) == a + b + c
  {
  }

  lemma ConcatEmpty<T>(a: seq<T>)
    ensures a + [] == a && [] + a == a
  {
  }

  /* ---- Products and quotients -------------------------------------------- */

  lemma MulMonotone(a: nat, b: nat, c: nat)
    requires a <= b
    ensures a * c <= b * c
    ensures c * a <= c * b
  {
    assert (b - a) * c >= 0;
    assert (b - a) * c == b * c - a * c;
  }

  lemma MulCancel(a: nat, b: nat, p: nat)
    requires p > 0 && a * p <= b * p
    ensures a <= b
  {
    if a > b {
      MulMonotone(b + 1, a, p);
    }
  }

  lemma MulDistribute(a: int, b: int, p: int)
    ensures (a + b) * p == a * p + b * p
  {
  }

  lemma MulDouble(x: int, p: int)
    ensures x * (2 * p) == 2 * (x * p)
    ensures (2 * x) * p == 2 * (x * p)
  {
  }

  /** Quotient and remainder are determined by the decomposition. */
  lemma DivModUnique(q: nat, b: nat, r: nat)
    requires r < b
    ensures (q * b + r) / b == q && (q * b + r) % b == r
  {
    var n := q * b + r;
    var q', r' := n / b, n % b;
    assert n == q' * b + r' && 0 <= r' < b;
    if q' < q {
      MulMonotone(q' + 1, q, b);
    } else if q' > q {
      MulMonotone(q + 1, q', b);
    }
  }

  lemma DivBelow(a: nat, b: nat, c: nat)
    requires b > 0 && a < c * b
    ensures a / b < c
  {
    if a / b >= c {
      MulMonotone(c, a / b, b);
    }
  }

  lemma DivAtLeast(a: nat, b: nat, c: nat)
    requires b > 0 && c * b <= a
    ensures c <= a / b
  {
    if a / b < c {
      MulMonotone(a / b + 1, c, b);
    }
  }
}
