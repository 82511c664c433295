/**
 * Huffman code lengths (src/entropy/huffman.c): merging the two lightest nodes until one is left,
 * leaf depths through parent links, and the halve-and-retry loop that limits them to 15.
 * For two or more used symbols the Kraft sum of the lengths is exactly one; a leaf's depth forces
 * Fibonacci growth of the total weight, which is why the retry loop always stops.
 */
module HuffmanTree {
  import opened Base
  import opened HuffmanHeap

  /* ---- The forest of merged nodes ---------------------------------------- */

  /**
   * n leaves and the nodes merged from them so far. merges[k] are the two nodes joined under node
   * n + k, in the order they were popped; parent is -1 for a node not yet joined.
   */
  datatype Forest = Forest(n: nat, weight: seq<nat>, parent: seq<int>, merges: seq<(nat, nat)>)

  predicate MergeOk(f: Forest, k: nat)
    requires k < |f.merges| && |f.weight| == |f.parent| == f.n + |f.merges|
  {
    var (a, b) := f.merges[k];
    var p := f.n + k;
    && a < p && b < p && a != b
    && f.parent[a] == p && f.parent[b] == p
    && f.weight[p] == f.weight[a] + f.weight[b]
  }

  /** A joined node is one of the two its parent was made from. */
  predicate ParentOk(f: Forest, x: nat)
    requires x < |f.parent| && |f.weight| == |f.parent| == f.n + |f.merges|
  {
    f.parent[x] == -1 ||
    (f.n <= f.parent[x] < |f.parent| && x < f.parent[x] &&
     (f.merges[f.parent[x] - f.n].0 == x || f.merges[f.parent[x] - f.n].1 == x))
  }

  /** Nothing joined at step i is heavier than anything joined later. */
  predicate InOrder(f: Forest, i: nat, j: nat)
    requires i < j < |f.merges| && |f.weight| == f.n + |f.merges|
  {
    var (a, b) := f.merges[i];
    var (c, d) := f.merges[j];
    a < |f.weight| && b < |f.weight| && c < |f.weight| && d < |f.weight|
    && f.weight[a] <= f.weight[c] && f.weight[a] <= f.weight[d]
    && f.weight[b] <= f.weight[c] && f.weight[b] <= f.weight[d]
  }

  predicate ForestOk(f: Forest)
  {
    && |f.weight| == |f.parent| == f.n + |f.merges|
    && (forall k {:trigger MergeOk(f, k)} :: 0 <= k < |f.merges| ==> MergeOk(f, k))
    && (forall x {:trigger ParentOk(f, x)} :: 0 <= x < |f.parent| ==> ParentOk(f, x))
    && (forall i, j {:trigger InOrder(f, i, j)} :: 0 <= i < j < |f.merges| ==> InOrder(f, i, j))
  }

  /** One tree: every node but the last is joined. */
  predicate IsTree(f: Forest)
  {
    && ForestOk(f) && f.n >= 2 && |f.merges| == f.n - 1
    && (forall x :: 0 <= x < |f.parent| - 1 ==> f.parent[x] != -1)
    && f.parent[|f.parent| - 1] == -1
  }

  /* ---- Sums over the roots of a forest ----------------------------------- */

  /** Node x is a root of the forest restricted to the first m nodes. */
  predicate IsRoot(f: Forest, x: nat, m: nat)
    requires x < |f.parent|
  {
    x < m && (f.parent[x] == -1 || f.parent[x] >= m)
  }

  function RootTerms(f: Forest, g: seq<nat>, m: nat): (t: seq<int>)
    requires |f.parent| == |g| && m <= |g|
    ensures |t| == m
    ensures forall x :: 0 <= x < m ==> t[x] == if IsRoot(f, x, m) then g[x] else 0
  {
    seq(m, x requires 0 <= x < m => if IsRoot(f, x, m) then g[x] else 0)
  }

  /** g of every merged node is the sum of g of its two parts. */
  predicate Additive(f: Forest, g: seq<nat>)
  {
    && |g| == |f.parent| == f.n + |f.merges|
    && forall k {:trigger f.merges[k]} :: 0 <= k < |f.merges| ==>
         f.merges[k].0 < |g| && f.merges[k].1 < |g| && g[f.n + k] == g[f.merges[k].0] + g[f.merges[k].1]
  }

  /** Which nodes stop being roots when node m is merged from a and b. */
  lemma RootsAfterMerge(f: Forest, m: nat, x: nat)
    requires ForestOk(f) && f.n <= m < |f.parent| && x < m
    ensures var (a, b) := f.merges[m - f.n];
            && (x == a || x == b ==> IsRoot(f, x, m) && !IsRoot(f, x, m + 1))
            && (x != a && x != b ==> (IsRoot(f, x, m + 1) <==> IsRoot(f, x, m)))
  {
    assert MergeOk(f, m - f.n);
    assert ParentOk(f, x);
  }

  /** Merging replaces two terms of the sum over the roots by one. */
  lemma RootSumMerge(f: Forest, g: seq<nat>, m: nat)
    requires ForestOk(f) && |g| == |f.parent| && f.n <= m < |g|
    ensures var (a, b) := f.merges[m - f.n];
            && a < m && b < m && IsRoot(f, a, m) && IsRoot(f, b, m) && a != b
            && Sum(RootTerms(f, g, m + 1)) == Sum(RootTerms(f, g, m)) - g[a] - g[b] + g[m]
  {
    var t := RootTerms(f, g, m);
    var (a, b) := f.merges[m - f.n];
    assert a < m && b < m && a != b by { assert MergeOk(f, m - f.n); }
    RootsAfterMerge(f, m, a);
    RootsAfterMerge(f, m, b);
    var u := t[a := 0];
    var v := u[b := 0];
    SumUpdate(t, a, 0);
    SumUpdate(u, b, 0);
    SumAppend(v, g[m]);
    assert RootTerms(f, g, m + 1) == v + [g[m]] by {
      assert IsRoot(f, m, m + 1) by { assert ParentOk(f, m); }
      forall x | 0 <= x < m ensures RootTerms(f, g, m + 1)[x] == v[x] {
        RootsAfterMerge(f, m, x);
      }
    }
  }

  lemma {:induction false} RootSum(f: Forest, g: seq<nat>, m: nat)
    requires ForestOk(f) && Additive(f, g) && f.n <= m <= |g|
    ensures Sum(RootTerms(f, g, m)) == Sum(RootTerms(f, g, f.n))
    decreases m
  {
    if m > f.n {
      RootSum(f, g, m - 1);
      RootSumMerge(f, g, m - 1);
    }
  }

  /** In a tree the root's value is the sum over the leaves. */
  lemma LeafSum(f: Forest, g: seq<nat>)
    requires IsTree(f) && Additive(f, g)
    ensures Sum(g[..f.n]) == g[|g| - 1]
  {
    var m := |g|;
    RootSum(f, g, m);
    var t := RootTerms(f, g, m);
    forall x | 0 <= x < m - 1 ensures t[x] == 0 {
      assert ParentOk(f, x);
    }
    SumBounds(t[..m - 1], 0, 0);
    assert t == t[..m - 1] + [g[m - 1]];
    var leaves := RootTerms(f, g, f.n);
    forall x | 0 <= x < f.n ensures leaves[x] == g[x] {
      assert ParentOk(f, x);
    }
    assert leaves == g[..f.n];
  }

  /* ---- Depths ------------------------------------------------------------ */

  /** Length of the parent chain from x. */
  function Depth(f: Forest, x: nat): nat
    requires ForestOk(f) && x < |f.parent|
    decreases |f.parent| - x
  {
    assert ParentOk(f, x);
    if f.parent[x] == -1 then 0 else 1 + Depth(f, f.parent[x])
  }

  lemma {:induction false} InnerDepthBound(f: Forest, x: nat)
    requires ForestOk(f) && x < |f.parent|
    ensures Depth(f, x) <= |f.parent| - 1 - x
    decreases |f.parent| - x
  {
    assert ParentOk(f, x);
    if f.parent[x] != -1 {
      InnerDepthBound(f, f.parent[x]);
    }
  }

  /** No leaf is deeper than the number of merges. */
  lemma DepthBound(f: Forest, x: nat)
    requires ForestOk(f) && x < |f.parent|
    ensures Depth(f, x) <= |f.merges|
  {
    assert ParentOk(f, x);
    if f.parent[x] != -1 {
      InnerDepthBound(f, f.parent[x]);
    }
  }

  /** 2^(h - depth) for every node, for any h at least every depth. */
  function KraftTerms(f: Forest, h: nat): (g: seq<nat>)
    requires ForestOk(f) && forall x :: 0 <= x < |f.parent| ==> Depth(f, x) <= h
    ensures |g| == |f.parent| && forall x :: 0 <= x < |g| ==> g[x] == Pow2(h - Depth(f, x))
  {
    seq(|f.parent|, x requires 0 <= x < |f.parent| => Pow2(h - Depth(f, x)))
  }

  lemma KraftAdditive(f: Forest, h: nat)
    requires ForestOk(f) && forall x :: 0 <= x < |f.parent| ==> Depth(f, x) <= h
    ensures Additive(f, KraftTerms(f, h))
  {
    var g := KraftTerms(f, h);
    forall k {:trigger f.merges[k]} | 0 <= k < |f.merges|
      ensures f.merges[k].0 < |g| && f.merges[k].1 < |g|
      ensures g[f.n + k] == g[f.merges[k].0] + g[f.merges[k].1]
    {
      KraftSplit(f, h, k);
    }
  }

  /** The leaves' depths fill the code space exactly. */
  lemma KraftExact(f: Forest, h: nat)
    requires IsTree(f) && forall x :: 0 <= x < |f.parent| ==> Depth(f, x) <= h
    ensures Sum(KraftTerms(f, h)[..f.n]) == Pow2(h)
  {
    hide Depth, ForestOk, Additive, Sum, KraftTerms;
    RootDepth(f);
    KraftAdditive(f, h);
    LeafSum(f, KraftTerms(f, h));
  }

  lemma RootDepth(f: Forest)
    requires IsTree(f)
    ensures |f.parent| > 0 && Depth(f, |f.parent| - 1) == 0
  {
  }

  /** Both parts of a merged node are one level deeper. */
  lemma KraftSplit(f: Forest, h: nat, k: nat)
    requires ForestOk(f) && k < |f.merges|
    requires forall x :: 0 <= x < |f.parent| ==> Depth(f, x) <= h
    ensures var (a, b) := f.merges[k];
            a < |f.parent| && b < |f.parent|
            && Pow2(h - Depth(f, f.n + k)) == Pow2(h - Depth(f, a)) + Pow2(h - Depth(f, b))
  {
    assert MergeOk(f, k);
    var (a, b) := f.merges[k];
    assert Depth(f, a) == Depth(f, f.n + k) + 1 == Depth(f, b);
  }

  /** A bound on the leaves' depths bounds every depth. */
  lemma {:induction false} InnerIsShallower(f: Forest, h: nat, x: nat)
    requires ForestOk(f) && x < |f.parent|
    requires forall y :: 0 <= y < f.n && y < |f.parent| ==> Depth(f, y) <= h
    ensures Depth(f, x) <= h
    decreases x
  {
    if x >= f.n {
      assert MergeOk(f, x - f.n);
      var a := f.merges[x - f.n].0;
      InnerIsShallower(f, h, a);
      assert Depth(f, a) == 1 + Depth(f, x);
    }
  }

  /* ---- Fibonacci growth -------------------------------------------------- */

  function Fib(n: nat): nat
  {
    if n < 2 then n else Fib(n - 1) + Fib(n - 2)
  }

  /** The grandparent weighs at least the parent and the node together. */
  lemma GrandparentWeight(f: Forest, x: nat, p: nat)
    requires ForestOk(f) && x < |f.parent| && f.parent[x] == p
    requires p < |f.parent| && f.parent[p] != -1
    ensures 0 <= f.parent[p] < |f.weight| && f.weight[f.parent[p]] >= f.weight[p] + f.weight[x]
  {
    assert ParentOk(f, x) && ParentOk(f, p);
    var q := f.parent[p];
    var i, j := p - f.n, q - f.n;
    assert MergeOk(f, i) && MergeOk(f, j) && InOrder(f, i, j);
  }

  /** A node k levels below the root and its child x: the root weighs Fib(k+1) and Fib(k) of them. */
  lemma {:induction false} PathWeight(f: Forest, x: nat, p: nat, root: nat)
    requires ForestOk(f) && x < |f.parent| && f.parent[x] == p && p < |f.parent|
    requires root < |f.parent| && f.parent[root] == -1
    requires forall y :: 0 <= y < |f.parent| && f.parent[y] == -1 ==> y == root
    ensures f.weight[root] >= Fib(Depth(f, p) + 1) * f.weight[p] + Fib(Depth(f, p)) * f.weight[x]
    decreases |f.parent| - p
  {
    assert ParentOk(f, p);
    var k := Depth(f, p);
    if f.parent[p] != -1 {
      var q := f.parent[p];
      GrandparentWeight(f, x, p);
      PathWeight(f, p, q, root);
      FibStep(Fib(k), Fib(k - 1), f.weight[q], f.weight[p], f.weight[x]);
    }
  }

  lemma FibStep(a: int, b: int, q: int, p: int, x: int)
    requires a >= 0 && q >= p + x
    ensures a * q + b * p >= (a + b) * p + a * x
  {
    assert a * (q - p - x) >= 0;
    assert a * (q - p - x) == a * q - a * p - a * x;
    MulDistribute(a, b, p);
  }

  /** A leaf at depth d forces a total weight of at least Fib(d + 2). */
  lemma LeafWeight(f: Forest, x: nat)
    requires IsTree(f) && x < f.n
    requires forall y :: 0 <= y < f.n ==> f.weight[y] >= 1
    ensures Sum(f.weight[..f.n]) >= Fib(Depth(f, x) + 2)
  {
    var root := |f.parent| - 1;
    WeightsPositive(f);
    assert Additive(f, f.weight) by {
      forall k | 0 <= k < |f.merges|
        ensures f.merges[k].0 < |f.weight| && f.merges[k].1 < |f.weight|
        ensures f.weight[f.n + k] == f.weight[f.merges[k].0] + f.weight[f.merges[k].1]
      {
        assert MergeOk(f, k);
      }
    }
    LeafSum(f, f.weight);
    assert ParentOk(f, x);
    var p := f.parent[x];
    PathWeight(f, x, p, root);
    assert MergeOk(f, p - f.n);
    var d := Depth(f, p);
    MulMonotone(2, f.weight[p], Fib(d + 1));
    MulMonotone(1, f.weight[x], Fib(d));
    assert Fib(d + 3) == Fib(d + 2) + Fib(d + 1) == 2 * Fib(d + 1) + Fib(d);
  }

  lemma {:induction false} WeightsPositiveTo(f: Forest, m: nat)
    requires ForestOk(f) && f.n <= m <= |f.weight|
    requires forall y :: 0 <= y < f.n ==> f.weight[y] >= 1
    ensures forall y :: 0 <= y < m ==> f.weight[y] >= 1
    decreases m
  {
    if m > f.n {
      WeightsPositiveTo(f, m - 1);
      assert MergeOk(f, m - 1 - f.n);
      var (a, b) := f.merges[m - 1 - f.n];
      assert f.weight[m - 1] == f.weight[a] + f.weight[b];
    }
  }

  lemma WeightsPositive(f: Forest)
    requires ForestOk(f) && forall y :: 0 <= y < f.n ==> f.weight[y] >= 1
    ensures forall y :: 0 <= y < |f.weight| ==> f.weight[y] >= 1
  {
    WeightsPositiveTo(f, |f.weight|);
  }

  /* ---- Merging ----------------------------------------------------------- */

  /** The heap holds each root once, with its weight, and nothing else. */
  ghost predicate RootsHeld(f: Forest, c: multiset<Item>)
    requires |f.weight| == |f.parent|
  {
    forall it: Item {:trigger c[it]} :: c[it] == if IsRootItem(f, it) then 1 else 0
  }

  predicate IsRootItem(f: Forest, it: Item)
    requires |f.weight| == |f.parent|
  {
    it.node < |f.parent| && f.parent[it.node] == -1 && it.key == f.weight[it.node]
  }

  /** No joined node is heavier than anything in the heap. */
  ghost predicate Floor(f: Forest, c: multiset<Item>)
    requires |f.weight| == |f.parent| == f.n + |f.merges|
  {
    forall k, it: Item {:trigger f.merges[k], c[it]} :: 0 <= k < |f.merges| && it in c ==>
      && f.merges[k].0 < |f.weight| && f.merges[k].1 < |f.weight|
      && f.weight[f.merges[k].0] <= it.key && f.weight[f.merges[k].1] <= it.key
  }

  ghost predicate HeapFor(f: Forest, c: multiset<Item>)
    requires |f.weight| == |f.parent| == f.n + |f.merges|
  {
    RootsHeld(f, c) && Floor(f, c)
  }

  function Join(f: Forest, a: nat, b: nat): Forest
    requires |f.weight| == |f.parent| && a < |f.parent| && b < |f.parent|
  {
    var p := |f.parent|;
    Forest(f.n, f.weight + [f.weight[a] + f.weight[b]], f.parent[a := p][b := p] + [-1], f.merges + [(a, b)])
  }

  /** Joining the two lightest roots keeps the forest's invariants. */
  lemma JoinOk(f: Forest, a: nat, b: nat)
    requires ForestOk(f) && a < |f.parent| && b < |f.parent| && a != b
    requires f.parent[a] == -1 && f.parent[b] == -1
    requires forall k :: 0 <= k < |f.merges| ==>
               && f.merges[k].0 < |f.weight| && f.merges[k].1 < |f.weight|
               && f.weight[f.merges[k].0] <= f.weight[a] && f.weight[f.merges[k].1] <= f.weight[a]
               && f.weight[f.merges[k].0] <= f.weight[b] && f.weight[f.merges[k].1] <= f.weight[b]
    ensures ForestOk(Join(f, a, b))
  {
    var g := Join(f, a, b);
    forall k | 0 <= k < |g.merges| ensures MergeOk(g, k) {
      if k < |f.merges| {
        assert MergeOk(f, k);
      }
    }
    forall x | 0 <= x < |g.parent| ensures ParentOk(g, x) {
      if x < |f.parent| {
        assert ParentOk(f, x);
      }
    }
    forall i, j | 0 <= i < j < |g.merges| ensures InOrder(g, i, j) {
      if j < |f.merges| {
        assert InOrder(f, i, j);
      }
    }
  }

  lemma HeapAfterJoin(f: Forest, c: multiset<Item>, a: Item, b: Item)
    requires ForestOk(f) && RootsHeld(f, c) && Floor(f, c)
    requires a in c && b in c - multiset{a}
    requires forall it: Item :: it in c ==> a.key <= it.key
    requires forall it: Item :: it in c - multiset{a} ==> b.key <= it.key
    ensures a.node < |f.parent| && b.node < |f.parent| && a.node != b.node
    ensures a.key == f.weight[a.node] && b.key == f.weight[b.node]
    ensures var g := Join(f, a.node, b.node);
            var c' := c - multiset{a} - multiset{b} + multiset{Item(a.key + b.key, |f.parent|)};
            ForestOk(g) && RootsHeld(g, c') && Floor(g, c')
  {
    assert c[a] == 1 && c[b] == 1;
    assert IsRootItem(f, a) && IsRootItem(f, b);
    assert b in c && a != b;
    JoinOk(f, a.node, b.node) by {
      forall k | 0 <= k < |f.merges|
        ensures f.merges[k].0 < |f.weight| && f.merges[k].1 < |f.weight|
        ensures f.weight[f.merges[k].0] <= a.key && f.weight[f.merges[k].1] <= a.key
        ensures f.weight[f.merges[k].0] <= b.key && f.weight[f.merges[k].1] <= b.key
      {
        assert c[a] > 0 && c[b] > 0;
      }
    }
    JoinedRoots(f, c, a, b);
    JoinedFloor(f, c, a, b);
  }

  lemma JoinedRoots(f: Forest, c: multiset<Item>, a: Item, b: Item)
    requires ForestOk(f) && RootsHeld(f, c)
    requires IsRootItem(f, a) && IsRootItem(f, b) && a != b
    ensures RootsHeld(Join(f, a.node, b.node),
                      c - multiset{a} - multiset{b} + multiset{Item(a.key + b.key, |f.parent|)})
  {
    var g := Join(f, a.node, b.node);
    var c' := c - multiset{a} - multiset{b} + multiset{Item(a.key + b.key, |f.parent|)};
    assert c[a] == 1 && c[b] == 1;
    forall it: Item ensures c'[it] == if IsRootItem(g, it) then 1 else 0 {
      assert c[it] == if IsRootItem(f, it) then 1 else 0;
    }
  }

  lemma JoinedFloor(f: Forest, c: multiset<Item>, a: Item, b: Item)
    requires ForestOk(f) && RootsHeld(f, c) && Floor(f, c)
    requires IsRootItem(f, a) && IsRootItem(f, b) && a != b
    requires forall it: Item :: it in c ==> a.key <= it.key
    requires forall it: Item :: it in c - multiset{a} ==> b.key <= it.key
    ensures Floor(Join(f, a.node, b.node),
                  c - multiset{a} - multiset{b} + multiset{Item(a.key + b.key, |f.parent|)})
  {
    var g := Join(f, a.node, b.node);
    var new_ := Item(a.key + b.key, |f.parent|);
    var c' := c - multiset{a} - multiset{b} + multiset{new_};
    assert c[a] == 1 && c[b] == 1;
    forall k, it: Item {:trigger g.merges[k], c'[it]} | 0 <= k < |g.merges| && it in c'
      ensures g.merges[k].0 < |g.weight| && g.merges[k].1 < |g.weight|
      ensures g.weight[g.merges[k].0] <= it.key && g.weight[g.merges[k].1] <= it.key
    {
      assert it == new_ || (it in c && it in c - multiset{a});
      assert a.key <= b.key by { assert b in c; }
      if k < |f.merges| {
        assert f.merges[k] == g.merges[k];
        assert c[b] > 0 && c[it] >= 0;
      }
    }
  }

  /** The node arrays and the heap hold this forest. */
  ghost predicate Holds(f: Forest, weight: array<nat>, parent: array<int>, heap: Heap)
    reads weight, parent, heap, heap.items
  {
    && weight.Length == parent.Length == 2 * CAPACITY
    && heap.Valid() && 1 <= heap.size && |f.parent| == 2 * f.n - heap.size <= 2 * CAPACITY
    && ForestOk(f)
    && weight[..|f.parent|] == f.weight && parent[..|f.parent|] == f.parent
    && HeapFor(f, heap.Contents())
  }

  /** Writes the node that joins a and b. */
  method WriteNode(a: nat, b: nat, p: nat, weight: array<nat>, parent: array<int>, ghost f: Forest)
      returns (w: nat)
    requires weight.Length == parent.Length == 2 * CAPACITY && |f.weight| == |f.parent| < 2 * CAPACITY
    requires weight[..|f.parent|] == f.weight && parent[..|f.parent|] == f.parent
    requires a < |f.parent| && b < |f.parent| && p == |f.parent|
    modifies weight, parent
    ensures w == f.weight[a] + f.weight[b]
    ensures weight[..|f.parent| + 1] == Join(f, a, b).weight
    ensures parent[..|f.parent| + 1] == Join(f, a, b).parent
  {
    assert weight[a] == f.weight[a] && weight[b] == f.weight[b];
    w := weight[a] + weight[b];
    weight[p] := w;
    parent[p] := -1;
    parent[a] := p;
    parent[b] := p;
  }

  /** Takes the two lightest roots off the heap; it lacks only their join. */
  method PopTwo(heap: Heap, ghost f: Forest) returns (a: nat, b: nat, ghost joined: Item)
    requires heap.Valid() && heap.size >= 2 && ForestOk(f)
    requires HeapFor(f, heap.Contents())
    modifies heap, heap.items
    ensures heap.Valid() && heap.size == old(heap.size) - 2
    ensures a < |f.parent| && b < |f.parent| && ForestOk(Join(f, a, b))
    ensures joined == Item(f.weight[a] + f.weight[b], |f.parent|)
    ensures HeapFor(Join(f, a, b), heap.Contents() + multiset{joined})
  {
    ghost var c := heap.Contents();
    var x := heap.Pop();
    var y := heap.Pop();
    HeapAfterJoin(f, c, x, y);
    a, b := x.node, y.node;
    joined := Item(x.key + y.key, |f.parent|);
  }

  lemma SameHeap(f: Forest, c: multiset<Item>, d: multiset<Item>)
    requires |f.weight| == |f.parent| == f.n + |f.merges| && HeapFor(f, c) && c == d
    ensures HeapFor(f, d)
  {
  }

  /** Joins the two lightest roots under a new node. */
  method MergeOnce(nTotal: nat, weight: array<nat>, parent: array<int>, heap: Heap, ghost f: Forest)
      returns (ghost g: Forest)
    requires Holds(f, weight, parent, heap) && nTotal == |f.parent|
    requires heap.size >= 2 && f.n <= CAPACITY
    modifies weight, parent, heap, heap.items
    ensures Holds(g, weight, parent, heap) && heap.size == old(heap.size) - 1
    ensures g.n == f.n && |g.parent| == nTotal + 1 && g.parent[nTotal] == -1
    ensures g.weight[..nTotal] == f.weight
  {
    var a, b, joined := PopTwo(heap, f);
    g := Join(f, a, b);
    ghost var rest := heap.Contents();
    var w := WriteNode(a, b, nTotal, weight, parent, f);
    assert heap.Contents() == rest;
    assert joined == Item(w, nTotal);
    heap.Push(nTotal, w);
    SameHeap(g, rest + multiset{joined}, heap.Contents());
  }

  method MergeAll(n: nat, weight: array<nat>, parent: array<int>, heap: Heap, ghost start: Forest)
      returns (ghost f: Forest)
    requires 2 <= n <= CAPACITY && Holds(start, weight, parent, heap)
    requires start.n == n == |start.parent|
    modifies weight, parent, heap, heap.items
    ensures IsTree(f) && f.n == n && f.weight[..n] == start.weight
    ensures parent.Length == 2 * CAPACITY && parent[..2 * n - 1] == f.parent
  {
    hide ForestOk, RootsHeld, Floor, IsTree;
    f := start;
    var nTotal := n;
    while heap.size >= 2
      invariant Holds(f, weight, parent, heap)
      invariant f.n == n && nTotal == |f.parent|
      invariant f.weight[..n] == start.weight
      invariant heap.size == n || f.parent[nTotal - 1] == -1
      decreases heap.size
    {
      f := MergeOnce(nTotal, weight, parent, heap, f);
      nTotal := nTotal + 1;
    }
    LastRoot(f, heap.Contents());
  }

  lemma TwoItems(c: multiset<Item>, p: Item, q: Item)
    requires p in c && q in c && p != q
    ensures |c| >= 2
  {
    assert c == multiset{p, q} + (c - multiset{p, q});
  }

  /** One item left: every node but the last has been joined. */
  lemma LastRoot(f: Forest, c: multiset<Item>)
    requires ForestOk(f) && RootsHeld(f, c) && |c| == 1 && f.n >= 2
    requires |f.parent| == 2 * f.n - 1 && f.parent[|f.parent| - 1] == -1
    ensures IsTree(f)
  {
    var last := Item(f.weight[|f.parent| - 1], |f.parent| - 1);
    assert c[last] == 1;
    forall x | 0 <= x < |f.parent| - 1 ensures f.parent[x] != -1 {
      var it := Item(f.weight[x], x);
      assert c[it] == if IsRootItem(f, it) then 1 else 0;
      if it in c {
        TwoItems(c, last, it);
      }
    }
  }
}
