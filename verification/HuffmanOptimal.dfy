/**
 * The merged tree is optimal (src/entropy/huffman.c): no code lengths that fit the code space have a
 * smaller weighted sum than the depths of its leaves. Lengths are carried from the leaves to the merged
 * nodes, merge by merge: exchanging lengths makes the two joined nodes the deepest, equally deep pair.
 */
module HuffmanOptimal {
  import opened Base
  import opened HuffmanTree

  /* ---- Code space and cost of lengths given to the roots ----------------- */

  /** The share of the code space each length takes, in units of 2^-h. */
  function Shares(g: seq<nat>, h: nat): (c: seq<nat>)
    requires forall x :: 0 <= x < |g| ==> g[x] <= h
    ensures |c| == |g| && forall x :: 0 <= x < |g| ==> c[x] == Pow2(h - g[x])
  {
    seq(|g|, x requires 0 <= x < |g| => Pow2(h - g[x]))
  }

  function Costs(weight: seq<nat>, g: seq<nat>): (c: seq<nat>)
    requires |weight| == |g|
    ensures |c| == |g| && forall x :: 0 <= x < |g| ==> c[x] == weight[x] * g[x]
  {
    seq(|g|, x requires 0 <= x < |g| => weight[x] * g[x])
  }

  /** The bits a code of these lengths spends on symbols that occur as often as they weigh. */
  function Spent(weight: seq<nat>, g: seq<nat>): int
    requires |weight| == |g|
  {
    Sum(Costs(weight, g))
  }

  lemma CostsAppend(w: seq<nat>, v: seq<nat>, x: nat, y: nat)
    requires |w| == |v|
    ensures Costs(w + [x], v + [y]) == Costs(w, v) + [x * y]
  {
    var n := |w|;
    forall i | 0 <= i < n + 1 ensures Costs(w + [x], v + [y])[i] == (Costs(w, v) + [x * y])[i] {
      if i < n {
        assert (w + [x])[i] == w[i] && (v + [y])[i] == v[i];
      }
    }
  }

  lemma SharesAppend(u: seq<nat>, l: nat, h: nat)
    requires l <= h && forall x :: 0 <= x < |u| ==> u[x] <= h
    ensures Shares(u + [l], h) == Shares(u, h) + [Pow2(h - l)]
  {
  }

  /** Lengths for the roots among the first m nodes that fit the code space. */
  predicate Fitting(f: Forest, g: seq<nat>, h: nat, m: nat)
  {
    && |g| == |f.parent| == |f.weight| && f.n <= m <= |g| && (forall x :: 0 <= x < |g| ==> g[x] <= h)
    && Sum(RootTerms(f, Shares(g, h), m)) <= Pow2(h)
  }

  /** The weighted sum of the roots' lengths. */
  function CostAt(f: Forest, g: seq<nat>, m: nat): int
    requires |g| == |f.parent| == |f.weight| && m <= |g|
  {
    Sum(RootTerms(f, Costs(f.weight, g), m))
  }

  lemma RootUpdate(f: Forest, v: seq<nat>, m: nat, x: nat, y: nat)
    requires |v| == |f.parent| && m <= |v| && x < |v| && IsRoot(f, x, m)
    ensures Sum(RootTerms(f, v[x := y], m)) == Sum(RootTerms(f, v, m)) - v[x] + y
  {
    SumUpdate(RootTerms(f, v, m), x, y);
    assert RootTerms(f, v[x := y], m) == RootTerms(f, v, m)[x := y];
  }

  /** Giving one root another length. */
  lemma Relength(f: Forest, g: seq<nat>, h: nat, m: nat, x: nat, l: nat)
    requires |g| == |f.parent| == |f.weight| && m <= |g| && (forall y :: 0 <= y < |g| ==> g[y] <= h)
    requires x < |g| && IsRoot(f, x, m) && l <= h
    ensures Sum(RootTerms(f, Shares(g[x := l], h), m))
            == Sum(RootTerms(f, Shares(g, h), m)) - Pow2(h - g[x]) + Pow2(h - l)
    ensures CostAt(f, g[x := l], m) == CostAt(f, g, m) - f.weight[x] * g[x] + f.weight[x] * l
  {
    RootUpdate(f, Shares(g, h), m, x, Pow2(h - l));
    RootUpdate(f, Costs(f.weight, g), m, x, f.weight[x] * l);
    assert Shares(g[x := l], h) == Shares(g, h)[x := Pow2(h - l)];
    assert Costs(f.weight, g[x := l]) == Costs(f.weight, g)[x := f.weight[x] * l];
  }

  /* ---- Exchanges --------------------------------------------------------- */

  /** g' fits where g does and costs no more. */
  predicate NoWorse(f: Forest, g: seq<nat>, g': seq<nat>, h: nat, m: nat)
  {
    Fitting(f, g, h, m) && Fitting(f, g', h, m) && CostAt(f, g', m) <= CostAt(f, g, m)
  }

  /** The heavier of two roots takes the shorter length. */
  lemma Swap(f: Forest, g: seq<nat>, h: nat, m: nat, x: nat, y: nat)
    requires Fitting(f, g, h, m) && x < |g| && y < |g| && x != y && IsRoot(f, x, m) && IsRoot(f, y, m)
    requires f.weight[x] <= f.weight[y] && g[x] <= g[y]
    ensures NoWorse(f, g, g[x := g[y]][y := g[x]], h, m)
  {
    Relength(f, g, h, m, x, g[y]);
    Relength(f, g[x := g[y]], h, m, y, g[x]);
    Rearranged(f.weight[x], f.weight[y], g[x], g[y]);
  }

  lemma Rearranged(v: nat, w: nat, k: nat, l: nat)
    requires v <= w && k <= l
    ensures v * l + w * k <= v * k + w * l
  {
    assert (w - v) * (l - k) >= 0;
    assert (w - v) * (l - k) == w * l - w * k - v * l + v * k;
  }

  /** A root of greatest length, not counting one node. */
  lemma Longest(f: Forest, g: seq<nat>, m: nat, no: nat, some: nat) returns (y: nat)
    requires |g| == |f.parent| && m <= |g| && some < |g| && some != no && IsRoot(f, some, m)
    ensures y < m && y != no && IsRoot(f, y, m)
    ensures forall x :: 0 <= x < m && x != no && IsRoot(f, x, m) ==> g[x] <= g[y]
  {
    y := some;
    for k := 0 to m
      invariant y < m && y != no && IsRoot(f, y, m)
      invariant forall x :: 0 <= x < k && x != no && IsRoot(f, x, m) ==> g[x] <= g[y]
    {
      if k != no && IsRoot(f, k, m) && g[k] > g[y] { y := k; }
    }
  }

  /** Roots not joined at a step are at least as heavy as the two that are. */
  lemma Lightest(f: Forest, m: nat, x: nat)
    requires IsTree(f) && f.n <= m < |f.parent| && x < m && IsRoot(f, x, m)
    ensures var (a, b) := f.merges[m - f.n];
            && a < m && b < m && a != b && IsRoot(f, a, m) && IsRoot(f, b, m)
            && (x != a && x != b ==> f.weight[a] <= f.weight[x] && f.weight[b] <= f.weight[x])
  {
    var i := m - f.n;
    var (a, b) := f.merges[i];
    assert MergeOk(f, i) && ParentOk(f, x);
    if x != a && x != b {
      var j := f.parent[x] - f.n;
      assert InOrder(f, i, j);
    }
  }

  lemma {:induction false} SumMultiple(t: seq<int>, p: nat) returns (q: nat)
    requires p > 0 && forall x {:trigger t[x]} :: 0 <= x < |t| ==> t[x] >= 0 && t[x] % p == 0
    ensures Sum(t) == q * p
  {
    if t == [] {
      q := 0;
    } else {
      var last := t[|t| - 1];
      var q0 := SumMultiple(t[..|t| - 1], p);
      q := q0 + last / p;
      MulDistribute(q0, last / p, p);
      assert last == last / p * p;
    }
  }

  lemma SharesDivide(h: nat, k: nat, l: nat)
    requires k <= l <= h
    ensures Pow2(h - k) % Pow2(h - l) == 0
  {
    Pow2Add(l - k, h - l);
    DivModUnique(Pow2(l - k), Pow2(h - l), 0);
  }

  /** The longest length may be cut to the next longest: the others leave a whole share of that size free. */
  lemma Cut(f: Forest, g: seq<nat>, h: nat, m: nat, hi: nat, lo: nat)
    requires Fitting(f, g, h, m) && hi < |g| && lo < |g| && hi != lo && IsRoot(f, hi, m) && IsRoot(f, lo, m)
    requires g[lo] <= g[hi] && forall x :: 0 <= x < m && x != hi && IsRoot(f, x, m) ==> g[x] <= g[lo]
    ensures NoWorse(f, g, g[hi := g[lo]], h, m) && g[lo] >= 1
  {
    CutRoom(f, g, h, m, hi, lo);
    hide CostAt, Sum, Pow2, RootTerms, Shares;
    Relength(f, g, h, m, hi, g[lo]);
    MulMonotone(g[lo], g[hi], f.weight[hi]);
  }

  /** The terms of the other roots are whole shares of the next longest length. */
  lemma TermDivides(f: Forest, g: seq<nat>, h: nat, m: nat, hi: nat, lo: nat, x: nat)
    requires Fitting(f, g, h, m) && hi < m && lo < |g| && x < m && x != hi
    requires IsRoot(f, x, m) ==> g[x] <= g[lo]
    ensures var t := RootTerms(f, Shares(g, h), m)[hi := 0]; t[x] >= 0 && t[x] % Pow2(h - g[lo]) == 0
  {
    if IsRoot(f, x, m) { SharesDivide(h, g[x], g[lo]); }
    hide Pow2, Sum, IsRoot;
  }

  lemma TermsAt(f: Forest, g: seq<nat>, h: nat, m: nat, x: nat)
    requires Fitting(f, g, h, m) && x < |g| && IsRoot(f, x, m)
    ensures x < m && RootTerms(f, Shares(g, h), m)[x] == Pow2(h - g[x])
  {
    hide Pow2, Sum;
  }

  /** With the deepest root as shallow as the next, the shares still fit. */
  lemma CutRoom(f: Forest, g: seq<nat>, h: nat, m: nat, hi: nat, lo: nat)
    requires Fitting(f, g, h, m) && hi < |g| && lo < |g| && hi != lo && IsRoot(f, hi, m) && IsRoot(f, lo, m)
    requires g[lo] <= g[hi] && forall x :: 0 <= x < m && x != hi && IsRoot(f, x, m) ==> g[x] <= g[lo]
    ensures Sum(RootTerms(f, Shares(g, h), m)) - Pow2(h - g[hi]) + Pow2(h - g[lo]) <= Pow2(h) && g[lo] >= 1
  {
    hide Sum, Pow2, RootTerms, Shares, IsRoot;
    TermsAt(f, g, h, m, hi);
    TermsAt(f, g, h, m, lo);
    var all := RootTerms(f, Shares(g, h), m);
    var t := all[hi := 0];
    SumUpdate(all, hi, 0);
    forall x | 0 <= x < |t| ensures t[x] >= 0 && t[x] % Pow2(h - g[lo]) == 0 {
      if x == hi { DivModUnique(0, Pow2(h - g[lo]), 0); } else { TermDivides(f, g, h, m, hi, lo, x); }
    }
    RoomLeft(t, lo, h, g[lo]);
  }

  lemma RoomLeft(t: seq<int>, lo: nat, h: nat, l: nat)
    requires l <= h && lo < |t| && t[lo] == Pow2(h - l) && Sum(t) < Pow2(h)
    requires forall x :: 0 <= x < |t| ==> t[x] >= 0 && t[x] % Pow2(h - l) == 0
    ensures Sum(t) + Pow2(h - l) <= Pow2(h) && l >= 1
  {
    SumAtLeast(t, lo);
    var p := Pow2(h - l);
    Pow2Add(l, h - l);
    assert Pow2(0) == 1;
    hide Sum, Pow2;
    var q := SumMultiple(t, p);
    WholeShare(q, p, Pow2(l));
  }

  lemma WholeShare(q: nat, p: nat, n: nat)
    requires q * p < n * p
    ensures q * p + p <= n * p
  {
    if q >= n { MulMonotone(n, q, p); }
    MulMonotone(q + 1, n, p);
    MulDistribute(q, 1, p);
  }

  /** The two nodes joined next can be made an equally deep pair. */
  lemma Paired(f: Forest, g: seq<nat>, h: nat, m: nat) returns (g': seq<nat>)
    requires IsTree(f) && Fitting(f, g, h, m) && m < |f.parent|
    ensures NoWorse(f, g, g', h, m)
    ensures var (a, b) := f.merges[m - f.n]; a < m && b < m && g'[a] == g'[b] >= 1
  {
    hide Fitting, CostAt, IsTree;
    TreeSizes(f, g, h, m);
    var (a, b) := f.merges[m - f.n];
    Joined(f, m);
    var x := Longest(f, g, m, |g|, a);
    var hi, lo := if x == b then b else a, if x == b then a else b;
    Lightest(f, m, x);
    var g1 := g;
    if x != hi {
      Swap(f, g, h, m, hi, x);
      g1 := g[hi := g[x]][x := g[hi]];
    } else {
      Same(f, g, h, m);
    }
    assert forall z :: 0 <= z < m && IsRoot(f, z, m) ==> g1[z] <= g1[hi];
    var y := Longest(f, g1, m, hi, lo);
    Lightest(f, m, y);
    var g2 := g1;
    if y != lo {
      TreeSizes(f, g1, h, m);
      Swap(f, g1, h, m, lo, y);
      g2 := g1[lo := g1[y]][y := g1[lo]];
    } else {
      Same(f, g1, h, m);
    }
    TreeSizes(f, g2, h, m);
    Cut(f, g2, h, m, hi, lo);
    g' := g2[hi := g2[lo]];
  }

  lemma Same(f: Forest, g: seq<nat>, h: nat, m: nat)
    requires Fitting(f, g, h, m)
    ensures NoWorse(f, g, g, h, m)
  {
  }

  lemma TreeSizes(f: Forest, g: seq<nat>, h: nat, m: nat)
    requires IsTree(f) && Fitting(f, g, h, m)
    ensures |g| == |f.parent| == |f.weight| == f.n + |f.merges| && f.n <= m <= |g|
    ensures forall x :: 0 <= x < |g| ==> g[x] <= h
  {
  }

  lemma Joined(f: Forest, m: nat)
    requires IsTree(f) && f.n <= m < |f.parent|
    ensures var (a, b) := f.merges[m - f.n];
            && a < m && b < m && a != b && IsRoot(f, a, m) && IsRoot(f, b, m)
            && f.weight[m] == f.weight[a] + f.weight[b]
  {
    assert MergeOk(f, m - f.n);
  }

  /* ---- From the last merge back to the leaves ---------------------------- */

  function DepthsOf(f: Forest): (d: seq<nat>)
    requires ForestOk(f)
    ensures |d| == |f.parent| && forall x :: 0 <= x < |d| ==> d[x] == Depth(f, x)
  {
    seq(|f.parent|, x requires 0 <= x < |f.parent| => Depth(f, x))
  }

  /** A merge adds its weight once to the cost of the depths. */
  lemma TreeStep(f: Forest, m: nat)
    requires IsTree(f) && f.n <= m < |f.parent|
    ensures CostAt(f, DepthsOf(f), m) == CostAt(f, DepthsOf(f), m + 1) + f.weight[m]
  {
    hide Sum, RootTerms;
    var d := DepthsOf(f);
    RootSumMerge(f, Costs(f.weight, d), m);
    Joined(f, m);
    var (a, b) := f.merges[m - f.n];
    assert MergeOk(f, m - f.n);
    assert d[a] == d[m] + 1 == d[b];
    JoinedCost(f.weight[a], f.weight[b], d[m]);
  }

  lemma JoinedCost(v: nat, w: nat, d: nat)
    ensures v * (d + 1) + w * (d + 1) == (v + w) * d + (v + w)
  {
  }

  /** Lengths for the roots after a merge, cheaper by its weight. */
  lemma Carried(f: Forest, g: seq<nat>, h: nat, m: nat) returns (g': seq<nat>)
    requires IsTree(f) && Fitting(f, g, h, m) && m < |f.parent|
    ensures Fitting(f, g', h, m + 1) && CostAt(f, g', m + 1) + f.weight[m] <= CostAt(f, g, m)
  {
    hide Sum, RootTerms, IsTree;
    var g1 := Paired(f, g, h, m);
    TreeSizes(f, g1, h, m);
    Joined(f, m);
    var (a, b) := f.merges[m - f.n];
    var l := g1[a];
    g' := g1[m := l - 1];
    SameBelow(f, Shares(g1, h), Shares(g', h), m);
    SameBelow(f, Costs(f.weight, g1), Costs(f.weight, g'), m);
    TreeIsForest(f);
    RootSumMerge(f, Shares(g', h), m);
    RootSumMerge(f, Costs(f.weight, g'), m);
    assert Pow2(h - (l - 1)) == 2 * Pow2(h - l);
    JoinedCost(f.weight[a], f.weight[b], l - 1);
  }

  lemma TreeIsForest(f: Forest)
    requires IsTree(f)
    ensures ForestOk(f) && |f.weight| == |f.parent| == f.n + |f.merges| == 2 * f.n - 1
  {
  }

  lemma SameBelow(f: Forest, u: seq<nat>, v: seq<nat>, m: nat)
    requires |u| == |v| == |f.parent| && m <= |u| && u[..m] == v[..m]
    ensures RootTerms(f, u, m) == RootTerms(f, v, m)
  {
    assert forall x :: 0 <= x < m ==> u[x] == u[..m][x] == v[x];
  }

  /** From any stage on, the tree is as cheap as any lengths that fit. */
  lemma {:induction false} DepthsCheapest(f: Forest, g: seq<nat>, h: nat, m: nat)
    requires IsTree(f) && Fitting(f, g, h, m)
    ensures CostAt(f, DepthsOf(f), m) <= CostAt(f, g, m)
    decreases |f.parent| - m
  {
    if m == |f.parent| {
      RootIsFree(f);
      SumNonNegative(RootTerms(f, Costs(f.weight, g), m));
    } else {
      hide CostAt, Fitting;
      TreeSizes(f, g, h, m);
      var g' := Carried(f, g, h, m);
      DepthsCheapest(f, g', h, m + 1);
      TreeStep(f, m);
    }
  }

  lemma RootIsFree(f: Forest)
    requires IsTree(f)
    ensures CostAt(f, DepthsOf(f), |f.parent|) == 0
  {
    var m := |f.parent|;
    var t := RootTerms(f, Costs(f.weight, DepthsOf(f)), m);
    forall x | 0 <= x < m ensures t[x] == 0 {
      assert ParentOk(f, x);
    }
    SumBounds(t, 0, 0);
  }

  /** No lengths of the leaves that fit the code space have a smaller weighted sum than their depths. */
  lemma TreeOptimal(f: Forest, l: seq<nat>, h: nat)
    requires IsTree(f) && |l| == f.n && (forall x :: 0 <= x < |l| ==> l[x] <= h) && Sum(Shares(l, h)) <= Pow2(h)
    ensures Spent(f.weight[..f.n], DepthsOf(f)[..f.n]) <= Spent(f.weight[..f.n], l)
  {
    TreeIsForest(f);
    hide *;
    var g := l + seq(|f.merges|, _ => 0);
    LeavesFit(f, l, g, h);
    LeafCost(f, g);
    LeafCost(f, DepthsOf(f));
    assert g[..f.n] == l;
    DepthsCheapest(f, g, h, f.n);
  }

  lemma LeavesFit(f: Forest, l: seq<nat>, g: seq<nat>, h: nat)
    requires IsTree(f) && |l| == f.n && (forall x :: 0 <= x < |l| ==> l[x] <= h) && Sum(Shares(l, h)) <= Pow2(h)
    requires |f.parent| == |f.weight| == f.n + |f.merges| && g == l + seq(|f.merges|, _ => 0)
    ensures Fitting(f, g, h, f.n)
  {
    hide Sum, IsTree, RootTerms, Pow2;
    assert forall x :: 0 <= x < |g| ==> g[x] <= h;
    LeavesAreRoots(f, Shares(g, h));
    SharesFront(l, g, h);
  }

  lemma SharesFront(l: seq<nat>, g: seq<nat>, h: nat)
    requires |l| <= |g| && g[..|l|] == l && forall x :: 0 <= x < |g| ==> g[x] <= h
    ensures (forall x :: 0 <= x < |l| ==> l[x] <= h) && Shares(g, h)[..|l|] == Shares(l, h)
  {
    hide Pow2;
    forall x | 0 <= x < |l| ensures l[x] == g[x] {
      assert g[..|l|][x] == g[x];
    }
  }

  lemma LeafCost(f: Forest, g: seq<nat>)
    requires IsTree(f) && |g| == |f.parent| == |f.weight| && f.n <= |g|
    ensures CostAt(f, g, f.n) == Spent(f.weight[..f.n], g[..f.n])
  {
    hide Sum, IsTree, RootTerms;
    LeavesAreRoots(f, Costs(f.weight, g));
    assert Costs(f.weight, g)[..f.n] == Costs(f.weight[..f.n], g[..f.n]);
  }

  lemma LeavesAreRoots(f: Forest, v: seq<nat>)
    requires IsTree(f) && |v| == |f.parent|
    ensures RootTerms(f, v, f.n) == v[..f.n]
  {
    forall x | 0 <= x < f.n ensures IsRoot(f, x, f.n) {
      assert ParentOk(f, x);
    }
  }
}
