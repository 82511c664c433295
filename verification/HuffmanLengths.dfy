/**
 * From a byte histogram to limited code lengths (src/entropy/huffman.c): optimal tree, leaf depths,
 * and halving the counts until no length exceeds 15.
 */
module HuffmanLengths {
  import opened Base
  import opened HuffmanHeap
  import opened HuffmanTree
  import opened HuffmanOptimal
  import opened HuffmanCode

  /** The positive counts, in symbol order: the leaves' weights. */
  function Actives(freq: seq<nat>): (a: seq<nat>)
    ensures |a| == ActiveCount(freq)
    ensures forall i :: 0 <= i < |a| ==> a[i] >= 1
  {
    if freq == [] then []
    else
      var n := |freq| - 1;
      Actives(freq[..n]) + if freq[n] > 0 then [freq[n]] else []
  }

  /** The leaf of symbol s. */
  function Leaf(freq: seq<nat>, s: nat): nat
    requires s <= |freq|
  {
    ActiveCount(freq[..s])
  }

  lemma {:induction false} LeafBound(freq: seq<nat>, s: nat)
    requires s < |freq| && freq[s] > 0
    ensures Leaf(freq, s) < ActiveCount(freq)
    decreases |freq|
  {
    var n := |freq| - 1;
    if s < n {
      LeafBound(freq[..n], s);
      assert freq[..n][..s] == freq[..s];
    }
  }

  /** k spreads the leaf terms g over the used symbols. */
  predicate Spread(freq: seq<nat>, k: seq<int>, g: seq<int>)
  {
    && |k| == |freq| && ActiveCount(freq) <= |g|
    && forall s {:trigger k[s]} :: 0 <= s < |freq| ==>
         k[s] == if freq[s] > 0 && Leaf(freq, s) < |g| then g[Leaf(freq, s)] else 0
  }

  lemma SpreadFront(freq: seq<nat>, k: seq<int>, g: seq<int>)
    requires Spread(freq, k, g) && freq != []
    ensures Spread(freq[..|freq| - 1], k[..|freq| - 1], g)
  {
    var n := |freq| - 1;
    forall s | 0 <= s < n
      ensures k[..n][s] == if freq[..n][s] > 0 && Leaf(freq[..n], s) < |g| then g[Leaf(freq[..n], s)] else 0
    {
      assert freq[..n][..s] == freq[..s];
      assert k[s] == k[..n][s];
    }
  }

  /** Terms spread over the symbols sum to the terms packed over the leaves. */
  lemma {:induction false} SpreadSum(freq: seq<nat>, k: seq<int>, g: seq<int>)
    requires Spread(freq, k, g)
    ensures Sum(k) == Sum(g[..ActiveCount(freq)])
    decreases |freq|
  {
    if freq != [] {
      var n := |freq| - 1;
      SpreadFront(freq, k, g);
      SpreadSum(freq[..n], k[..n], g);
      var c := Leaf(freq, n);
      assert k[n] == if freq[n] > 0 && c < |g| then g[c] else 0;
      if freq[n] > 0 {
        SumAppend(g[..c], g[c]);
        assert g[..c + 1] == g[..c] + [g[c]];
      }
    }
  }

  lemma {:induction false} ActivesAt(freq: seq<nat>, s: nat)
    requires s < |freq| && freq[s] > 0
    ensures Leaf(freq, s) < |Actives(freq)| && Actives(freq)[Leaf(freq, s)] == freq[s]
    decreases |freq|
  {
    var n := |freq| - 1;
    if s < n {
      ActivesAt(freq[..n], s);
      assert freq[..n][..s] == freq[..s];
    }
  }

  lemma ActivesSum(freq: seq<nat>)
    ensures Sum(Actives(freq)) == Sum(freq)
  {
    forall s | 0 <= s < |freq| && freq[s] > 0
      ensures Leaf(freq, s) < |Actives(freq)| && freq[s] == Actives(freq)[Leaf(freq, s)]
    {
      ActivesAt(freq, s);
    }
    assert Spread(freq, freq, Actives(freq));
    SpreadSum(freq, freq, Actives(freq));
    assert Actives(freq)[..ActiveCount(freq)] == Actives(freq);
  }

  /* ---- Kraft sums over symbols ------------------------------------------- */

  function KraftWeights(lens: seq<nat>, h: nat): (k: seq<nat>)
    requires forall s :: 0 <= s < |lens| ==> lens[s] <= h
    ensures |k| == |lens|
    ensures forall s :: 0 <= s < |lens| ==> k[s] == if lens[s] > 0 then Pow2(h - lens[s]) else 0
  {
    seq(|lens|, s requires 0 <= s < |lens| => if lens[s] > 0 then Pow2(h - lens[s]) else 0)
  }

  /** The lengths use the code space exactly: the sum of 2^(h - length) is 2^h. */
  predicate Complete(lens: seq<nat>, h: nat)
  {
    (forall s :: 0 <= s < |lens| ==> lens[s] <= h) && Sum(KraftWeights(lens, h)) == Pow2(h)
  }

  lemma {:induction false} KraftToEmpty(l: nat)
    requires l <= MAX_LEN
    ensures KraftTo([], l) == 0
  {
    if l > 0 { KraftToEmpty(l - 1); }
  }

  lemma {:induction false} KraftToStep(lens: seq<nat>, x: nat, l: nat)
    requires l <= MAX_LEN
    ensures KraftTo(lens + [x], l) == KraftTo(lens, l) + if 0 < x <= l then Pow2(MAX_LEN - x) else 0
  {
    if l > 0 {
      KraftToStep(lens, x, l - 1);
      assert (lens + [x])[..|lens|] == lens;
      MulDistribute(LenCount(lens, l), 1, Pow2(MAX_LEN - l));
    }
  }

  lemma KraftNext(front: seq<nat>, x: nat)
    requires x <= MAX_LEN && forall s :: 0 <= s < |front| ==> front[s] <= MAX_LEN
    requires Sum(KraftWeights(front, MAX_LEN)) == KraftTo(front, MAX_LEN)
    ensures Sum(KraftWeights(front + [x], MAX_LEN)) == KraftTo(front + [x], MAX_LEN)
  {
    WeightsSum(front, x, MAX_LEN);
    KraftToStep(front, x, MAX_LEN);
    hide *;
  }

  lemma WeightsSum(ls: seq<nat>, l: nat, h: nat)
    requires l <= h && forall s :: 0 <= s < |ls| ==> ls[s] <= h
    ensures Sum(KraftWeights(ls + [l], h)) == Sum(KraftWeights(ls, h)) + if l > 0 then Pow2(h - l) else 0
  {
    WeightsAppend(ls, l, h);
    SumAppend(KraftWeights(ls, h), if l > 0 then Pow2(h - l) else 0);
  }

  /** Summing by symbol and by length agree. */
  lemma {:induction false} KraftByLength(lens: seq<nat>)
    requires forall s :: 0 <= s < |lens| ==> lens[s] <= MAX_LEN
    ensures Sum(KraftWeights(lens, MAX_LEN)) == KraftTo(lens, MAX_LEN)
  {
    if lens == [] {
      KraftToEmpty(MAX_LEN);
    } else {
      hide Sum, KraftWeights, KraftTo;
      KraftByLength(lens[..|lens| - 1]);
      KraftNext(lens[..|lens| - 1], lens[|lens| - 1]);
      LastSplit(lens);
    }
  }

  /* ---- The smallest weighted sum ----------------------------------------- */

  /** Lengths of at most h for all used symbols that do not overfill the code space. */
  predicate Covers(freq: seq<nat>, ls: seq<nat>, h: nat)
  {
    && |ls| == |freq| && (forall s {:trigger ls[s]} :: 0 <= s < |ls| ==> ls[s] <= h && (freq[s] > 0 ==> ls[s] > 0))
    && Sum(KraftWeights(ls, h)) <= Pow2(h)
  }

  /** No code for the used symbols spends fewer bits on this histogram. */
  ghost predicate OptimalFor(freq: seq<nat>, lens: seq<nat>)
  {
    && |lens| == |freq|
    && forall ls: seq<nat>, h: nat {:trigger Covers(freq, ls, h)} ::
         Covers(freq, ls, h) ==> Spent(freq, lens) <= Spent(freq, ls)
  }

  /** The entries of v at the used symbols. */
  function Used(freq: seq<nat>, v: seq<nat>): (u: seq<nat>)
    requires |v| == |freq|
    ensures |u| == ActiveCount(freq)
  {
    if freq == [] then []
    else
      var n := |freq| - 1;
      Used(freq[..n], v[..n]) + if freq[n] > 0 then [v[n]] else []
  }

  lemma {:induction false} UsedAt(freq: seq<nat>, v: seq<nat>, s: nat)
    requires |v| == |freq| && s < |freq| && freq[s] > 0
    ensures Leaf(freq, s) < |Used(freq, v)| && Used(freq, v)[Leaf(freq, s)] == v[s]
    decreases |freq|
  {
    var n := |freq| - 1;
    if s < n {
      UsedAt(freq[..n], v[..n], s);
      assert freq[..n][..s] == freq[..s];
    }
  }

  lemma UsedAppend(freq: seq<nat>, v: seq<nat>, x: nat, y: nat)
    requires |v| == |freq|
    ensures Used(freq + [x], v + [y]) == Used(freq, v) + if x > 0 then [y] else []
    ensures Actives(freq + [x]) == Actives(freq) + if x > 0 then [x] else []
  {
    assert (freq + [x])[..|freq|] == freq && (v + [y])[..|v|] == v;
  }

  lemma UsedCostNext(freq: seq<nat>, v: seq<nat>, x: nat, y: nat)
    requires |v| == |freq| && Spent(Actives(freq), Used(freq, v)) == Spent(freq, v)
    ensures Spent(Actives(freq + [x]), Used(freq + [x], v + [y])) == Spent(freq + [x], v + [y])
  {
    var a, u := Actives(freq), Used(freq, v);
    UsedAppend(freq, v, x, y);
    hide Sum, Costs, Actives, Used;
    CostsAppend(freq, v, x, y);
    SumAppend(Costs(freq, v), x * y);
    if x > 0 {
      CostsAppend(a, u, x, y);
      SumAppend(Costs(a, u), x * y);
    } else {
      assert x * y == 0 && a + [] == a && u + [] == u;
    }
  }

  /** Unused symbols cost nothing. */
  lemma {:induction false} UsedCost(freq: seq<nat>, v: seq<nat>)
    requires |v| == |freq|
    ensures Spent(Actives(freq), Used(freq, v)) == Spent(freq, v)
  {
    if freq != [] {
      var front, back, x, y := freq[..|freq| - 1], v[..|v| - 1], freq[|freq| - 1], v[|v| - 1];
      UsedCost(front, back);
      hide *;
      UsedCostNext(front, back, x, y);
      LastSplit(freq);
      LastSplit(v);
    }
  }

  lemma WeightsAppend(ls: seq<nat>, l: nat, h: nat)
    requires l <= h && forall s :: 0 <= s < |ls| ==> ls[s] <= h
    ensures KraftWeights(ls + [l], h) == KraftWeights(ls, h) + [if l > 0 then Pow2(h - l) else 0]
  {
  }

  predicate AtMost(v: seq<nat>, h: nat)
  {
    forall x :: 0 <= x < |v| ==> v[x] <= h
  }

  lemma SharesNext(freq: seq<nat>, ls: seq<nat>, x: nat, l: nat, h: nat)
    requires |ls| == |freq| && AtMost(ls, h) && AtMost(Used(freq, ls), h) && l <= h && (x > 0 ==> l > 0)
    requires Sum(Shares(Used(freq, ls), h)) <= Sum(KraftWeights(ls, h))
    ensures AtMost(ls + [l], h) && AtMost(Used(freq + [x], ls + [l]), h)
    ensures Sum(Shares(Used(freq + [x], ls + [l]), h)) <= Sum(KraftWeights(ls + [l], h))
  {
    hide Sum, Shares, KraftWeights, Pow2, Used, Actives;
    var u := Used(freq, ls);
    UsedAppend(freq, ls, x, l);
    WeightsSum(ls, l, h);
    if x > 0 {
      SharesAppend(u, l, h);
      SumAppend(Shares(u, h), Pow2(h - l));
    } else {
      ConcatEmpty(u);
    }
  }

  /** Lengths of unused symbols take code space too. */
  lemma {:induction false} UsedShares(freq: seq<nat>, ls: seq<nat>, h: nat)
    requires |ls| == |freq| && AtMost(ls, h) && forall s {:trigger ls[s]} :: 0 <= s < |ls| && freq[s] > 0 ==> ls[s] > 0
    ensures AtMost(Used(freq, ls), h) && Sum(Shares(Used(freq, ls), h)) <= Sum(KraftWeights(ls, h))
  {
    if freq != [] {
      var front, back, x, l := freq[..|freq| - 1], ls[..|ls| - 1], freq[|freq| - 1], ls[|ls| - 1];
      UsedShares(front, back, h);
      assert AtMost(back, h) && l <= h;
      hide *;
      SharesNext(front, back, x, l, h);
      LastSplit(freq);
      LastSplit(ls);
    }
  }

  lemma {:induction false} SumMonotone(a: seq<int>, b: seq<int>)
    requires |a| == |b| && forall i :: 0 <= i < |a| ==> a[i] <= b[i]
    ensures Sum(a) <= Sum(b)
  {
    if a != [] {
      SumMonotone(a[..|a| - 1], b[..|b| - 1]);
    }
  }

  /** One bit for every used symbol is the least a code can spend. */
  lemma OneBitOptimal(freq: seq<nat>, lens: seq<nat>)
    requires |lens| == |freq|
    requires forall s {:trigger lens[s]} :: 0 <= s < |lens| ==> lens[s] <= if freq[s] > 0 then 1 else 0
    ensures OptimalFor(freq, lens)
  {
    forall ls: seq<nat>, h: nat | Covers(freq, ls, h) ensures Spent(freq, lens) <= Spent(freq, ls) {
      forall s | 0 <= s < |freq| ensures Costs(freq, lens)[s] <= Costs(freq, ls)[s] {
        if freq[s] > 0 { MulMonotone(lens[s], ls[s], freq[s]); }
      }
      SumMonotone(Costs(freq, lens), Costs(freq, ls));
    }
  }

  /* ---- Unlimited lengths ------------------------------------------------- */

  /** The leaves of a histogram before any merge. */
  function Leaves(freq: seq<nat>): Forest
  {
    var a := Actives(freq);
    Forest(|a|, a, seq(|a|, _ => -1), [])
  }

  lemma LeavesOk(freq: seq<nat>)
    ensures ForestOk(Leaves(freq))
  {
  }

  /** What one tree gives a histogram of at least two used symbols. */
  ghost predicate TreeLengths(freq: seq<nat>, lens: seq<nat>)
  {
    && |lens| == |freq|
    && (forall s :: 0 <= s < |lens| ==> (lens[s] > 0 <==> freq[s] > 0) && lens[s] <= 255)
    && (forall h: nat {:trigger Complete(lens, h)} :: (forall s :: 0 <= s < |lens| ==> lens[s] <= h) ==>
       Complete(lens, h))
    && (forall s {:trigger lens[s]} :: 0 <= s < |lens| && lens[s] > 0 ==> Fib(lens[s] + 2) <= Sum(freq))
  }

  /** Lengths read off a tree as its leaves' depths. */
  predicate Depths(freq: seq<nat>, lens: seq<nat>, f: Forest)
    requires ForestOk(f)
  {
    && |lens| == |freq| && ActiveCount(freq) == f.n <= |f.parent|
    && forall s {:trigger lens[s]} :: 0 <= s < |freq| ==>
         lens[s] == if freq[s] > 0 && Leaf(freq, s) < f.n then Depth(f, Leaf(freq, s)) else 0
  }

  lemma {:induction false} LeafSymbol(freq: seq<nat>, x: nat) returns (s: nat)
    requires x < ActiveCount(freq)
    ensures s < |freq| && freq[s] > 0 && Leaf(freq, s) == x
    decreases |freq|
  {
    var n := |freq| - 1;
    if x == ActiveCount(freq[..n]) {
      s := n;
    } else {
      s := LeafSymbol(freq[..n], x);
      assert freq[..n][..s] == freq[..s];
    }
  }

  lemma DepthsComplete(freq: seq<nat>, lens: seq<nat>, f: Forest, h: nat)
    requires IsTree(f) && Depths(freq, lens, f)
    requires forall s :: 0 <= s < |lens| ==> lens[s] <= h
    ensures Complete(lens, h)
  {
    forall y | 0 <= y < f.n ensures Depth(f, y) <= h {
      var s := LeafSymbol(freq, y);
      assert lens[s] <= h;
    }
    forall x | 0 <= x < |f.parent| ensures Depth(f, x) <= h {
      InnerIsShallower(f, h, x);
    }
    var g := KraftTerms(f, h);
    KraftExact(f, h);
    var k := KraftWeights(lens, h);
    forall s | 0 <= s < |freq|
      ensures k[s] == if freq[s] > 0 && Leaf(freq, s) < |g| then g[Leaf(freq, s)] else 0
    {
      UsedDepth(freq, lens, f, s);
    }
    assert Spread(freq, k, g);
    SpreadSum(freq, k, g);
  }

  /** A used symbol's leaf is not the root, so its length is positive. */
  lemma UsedDepth(freq: seq<nat>, lens: seq<nat>, f: Forest, s: nat)
    requires IsTree(f) && Depths(freq, lens, f) && s < |freq|
    ensures freq[s] > 0 ==> Leaf(freq, s) < f.n && lens[s] == Depth(f, Leaf(freq, s)) > 0
    ensures freq[s] == 0 ==> lens[s] == 0
  {
    assert lens[s] == if freq[s] > 0 && Leaf(freq, s) < f.n then Depth(f, Leaf(freq, s)) else 0;
    if freq[s] > 0 {
      LeafBound(freq, s);
    }
  }

  lemma DepthsAreTreeLengths(freq: seq<nat>, lens: seq<nat>, f: Forest)
    requires IsTree(f) && Depths(freq, lens, f) && f.weight[..f.n] == Actives(freq)
    requires |f.merges| <= 255
    ensures TreeLengths(freq, lens)
  {
    ActivesSum(freq);
    assert forall y :: 0 <= y < f.n ==> f.weight[y] == f.weight[..f.n][y];
    forall s | 0 <= s < |lens|
      ensures (lens[s] > 0 <==> freq[s] > 0) && lens[s] <= 255
      ensures lens[s] > 0 ==> Fib(lens[s] + 2) <= Sum(freq)
    {
      UsedDepth(freq, lens, f, s);
      if freq[s] > 0 {
        DepthBound(f, Leaf(freq, s));
        LeafWeight(f, Leaf(freq, s));
      }
    }
    forall h: nat | forall s :: 0 <= s < |lens| ==> lens[s] <= h ensures Complete(lens, h) {
      DepthsComplete(freq, lens, f, h);
    }
  }

  /** The depths of a merged tree are an optimal code. */
  lemma DepthsOptimal(freq: seq<nat>, lens: seq<nat>, f: Forest)
    requires IsTree(f) && Depths(freq, lens, f) && f.weight[..f.n] == Actives(freq)
    ensures OptimalFor(freq, lens)
  {
    hide IsTree, ForestOk, Sum, Depth, Spent;
    var n := f.n;
    assert ForestOk(f) by { TreeIsForest(f); }
    TreeIsForest(f);
    var d := DepthsOf(f)[..n];
    forall x | 0 <= x < n ensures Used(freq, lens)[x] == d[x] {
      var s := LeafSymbol(freq, x);
      UsedAt(freq, lens, s);
      UsedDepth(freq, lens, f, s);
    }
    assert Used(freq, lens) == d;
    UsedCost(freq, lens);
    forall ls: seq<nat>, h: nat | Covers(freq, ls, h) ensures Spent(freq, lens) <= Spent(freq, ls) {
      UsedCost(freq, ls);
      UsedShares(freq, ls, h);
      TreeOptimal(f, Used(freq, ls), h);
    }
  }

  /** The node arrays and the heap hold the leaves of the first symbols. */
  ghost predicate HoldsLeaves(freq: seq<nat>, weight: array<nat>, parent: array<int>, heap: Heap)
    reads weight, parent, heap, heap.items
  {
    var n := ActiveCount(freq);
    && weight.Length == parent.Length == 2 * CAPACITY
    && heap.Valid() && heap.size == n
    && HeapFor(Leaves(freq), heap.Contents())
    && weight[..n] == Leaves(freq).weight && parent[..n] == Leaves(freq).parent
  }

  lemma NextLeaf(freq: seq<nat>, s: nat)
    requires s < |freq| && |freq| <= CAPACITY
    ensures freq[..s + 1] == freq[..s] + [freq[s]]
    ensures ActiveCount(freq[..s + 1]) == ActiveCount(freq[..s]) + if freq[s] > 0 then 1 else 0
    ensures ActiveCount(freq[..s]) < CAPACITY
    ensures freq[s] == 0 ==> Leaves(freq[..s + 1]) == Leaves(freq[..s])
  {
    assert freq[..s + 1][..s] == freq[..s];
  }

  /** Leaves in symbol order, each pushed with its count. */
  method PushLeaves(freq: seq<nat>, weight: array<nat>, parent: array<int>, heap: Heap) returns (nUsed: nat)
    requires |freq| <= CAPACITY && weight.Length == parent.Length == 2 * CAPACITY
    requires heap.Valid() && heap.size == 0 && heap.Contents() == multiset{}
    modifies weight, parent, heap, heap.items
    ensures nUsed == ActiveCount(freq) && HoldsLeaves(freq, weight, parent, heap)
  {
    nUsed := 0;
    assert freq[..0] == [];
    for s := 0 to |freq|
      invariant nUsed == ActiveCount(freq[..s]) && HoldsLeaves(freq[..s], weight, parent, heap)
    {
      NextLeaf(freq, s);
      if freq[s] != 0 {
        PushLeaf(freq[..s], freq[s], nUsed, weight, parent, heap);
        nUsed := nUsed + 1;
      }
    }
    assert freq[..|freq|] == freq;
  }

  method PushLeaf(ghost freq: seq<nat>, w: nat, nUsed: nat, weight: array<nat>, parent: array<int>, heap: Heap)
    requires nUsed == ActiveCount(freq) < CAPACITY && w > 0 && HoldsLeaves(freq, weight, parent, heap)
    modifies weight, parent, heap, heap.items
    ensures HoldsLeaves(freq + [w], weight, parent, heap)
  {
    ghost var c := heap.Contents();
    assert (freq + [w])[..|freq|] == freq;
    weight[nUsed] := w;
    parent[nUsed] := -1;
    assert weight[..nUsed + 1] == Leaves(freq + [w]).weight;
    assert parent[..nUsed + 1] == Leaves(freq + [w]).parent;
    assert heap.Contents() == c;
    LeafPushed(freq, w, c);
    heap.Push(nUsed, w);
    SameHeap(Leaves(freq + [w]), c + multiset{Item(w, nUsed)}, heap.Contents());
  }

  lemma LeafPushed(freq: seq<nat>, w: nat, c: multiset<Item>)
    requires HeapFor(Leaves(freq), c) && w > 0
    ensures HeapFor(Leaves(freq + [w]), c + multiset{Item(w, ActiveCount(freq))})
  {
    assert (freq + [w])[..|freq|] == freq;
    var f, g := Leaves(freq), Leaves(freq + [w]);
    LeafHeld(f, g, w, c);
  }

  lemma LeafHeld(f: Forest, g: Forest, w: nat, c: multiset<Item>)
    requires |f.weight| == |f.parent| == f.n && |g.weight| == |g.parent| == g.n && f.merges == g.merges == []
    requires g.weight == f.weight + [w] && g.parent == f.parent + [-1] && RootsHeld(f, c)
    ensures HeapFor(g, c + multiset{Item(w, f.n)})
  {
    var d := c + multiset{Item(w, f.n)};
    forall it: Item ensures d[it] == if IsRootItem(g, it) then 1 else 0 {
      assert c[it] == if IsRootItem(f, it) then 1 else 0;
    }
  }

  /** Length of a leaf's parent chain; the guard against malformed chains never fires. */
  method ChainLength(parent: array<int>, leaf: nat, ghost f: Forest) returns (depth: nat)
    requires ForestOk(f) && leaf < |f.parent| <= parent.Length && parent[..|f.parent|] == f.parent
    requires Depth(f, leaf) <= 255
    ensures depth == Depth(f, leaf)
  {
    depth := 0;
    var i := leaf;
    assert parent[i] == parent[..|f.parent|][i];
    while parent[i] != -1
      invariant i < |f.parent| && parent[i] == f.parent[i]
      invariant depth + Depth(f, i) == Depth(f, leaf)
      decreases |f.parent| - i
    {
      assert ParentOk(f, i);
      i := parent[i];
      assert parent[i] == parent[..|f.parent|][i];
      depth := depth + 1;
      if depth > 255 { break; }
    }
  }

  method ReadDepths(freq: seq<nat>, parent: array<int>, ghost f: Forest) returns (lens: seq<nat>)
    requires ForestOk(f) && f.n == ActiveCount(freq) <= |f.parent| <= parent.Length
    requires parent[..|f.parent|] == f.parent && |f.merges| <= 255
    ensures Depths(freq, lens, f)
  {
    var out := new nat[|freq|](_ => 0);
    var leaf := 0;
    for s := 0 to |freq|
      invariant leaf == Leaf(freq, s)
      invariant forall k {:trigger out[k]} :: 0 <= k < s ==>
                  out[k] == if freq[k] > 0 && Leaf(freq, k) < f.n then Depth(f, Leaf(freq, k)) else 0
      invariant forall k :: s <= k < |freq| ==> out[k] == 0
    {
      assert freq[..s + 1][..s] == freq[..s];
      if freq[s] != 0 {
        LeafBound(freq, s);
        DepthBound(f, leaf);
        out[s] := ChainLength(parent, leaf, f);
        leaf := leaf + 1;
      }
    }
    lens := out[..];
  }

  /** Lengths of no limited size: none used, one used, or a tree. */
  ghost predicate Unlimited(freq: seq<nat>, lens: seq<nat>)
  {
    && |lens| == |freq|
    && (ActiveCount(freq) == 0 ==> forall s :: 0 <= s < |lens| ==> lens[s] == 0)
    && (ActiveCount(freq) == 1 ==> forall s :: 0 <= s < |lens| ==> lens[s] == if freq[s] > 0 then 1 else 0)
    && (ActiveCount(freq) >= 2 ==> TreeLengths(freq, lens))
    && OptimalFor(freq, lens)
  }

  /** Merges the leaves to one tree and reads off its depths. */
  method MergeAndRead(freq: seq<nat>, nUsed: nat, weight: array<nat>, parent: array<int>, heap: Heap)
      returns (lens: seq<nat>)
    requires 2 <= nUsed == ActiveCount(freq) <= CAPACITY && HoldsLeaves(freq, weight, parent, heap)
    modifies weight, parent, heap, heap.items
    ensures |lens| == |freq| && TreeLengths(freq, lens) && OptimalFor(freq, lens)
  {
    hide OptimalFor;
    LeavesOk(freq);
    ghost var f := MergeAll(nUsed, weight, parent, heap, Leaves(freq));
    lens := ReadDepths(freq, parent, f);
    DepthsAreTreeLengths(freq, lens, f);
    DepthsOptimal(freq, lens, f);
  }

  method ComputeLengths(freq: seq<nat>) returns (lens: seq<nat>, nUsed: nat)
    requires |freq| <= CAPACITY
    ensures nUsed == ActiveCount(freq) && Unlimited(freq, lens)
  {
    hide OptimalFor, TreeLengths, HoldsLeaves, ActiveCount;
    var weight := new nat[2 * CAPACITY](_ => 0);
    var parent := new int[2 * CAPACITY](_ => -1);
    var heap := new Heap();
    nUsed := PushLeaves(freq, weight, parent, heap);
    if nUsed == 0 {
      lens := seq(|freq|, _ => 0);
      OneBitOptimal(freq, lens);
      return;
    }
    if nUsed == 1 {
      lens := OneUsed(freq);
      OneBitOptimal(freq, lens);
      return;
    }
    lens := MergeAndRead(freq, nUsed, weight, parent, heap);
  }

  method OneUsed(freq: seq<nat>) returns (lens: seq<nat>)
    requires ActiveCount(freq) == 1
    ensures |lens| == |freq| && forall s :: 0 <= s < |lens| ==> lens[s] == if freq[s] > 0 then 1 else 0
  {
    var out := new nat[|freq|](_ => 0);
    var s := 0;
    while s < |freq| && freq[s] == 0
      invariant 0 <= s <= |freq| && ActiveCount(freq[..s]) == 0
      invariant forall k :: 0 <= k < s ==> freq[k] == 0
    {
      assert freq[..s + 1][..s] == freq[..s];
      s := s + 1;
    }
    assert freq[..|freq|] == freq;
    if s < |freq| {
      OthersUnused(freq, s);
      out[s] := 1;
    }
    lens := out[..];
  }

  lemma TwoUsed(freq: seq<nat>, i: nat, j: nat)
    requires i < j < |freq| && freq[i] > 0 && freq[j] > 0
    ensures ActiveCount(freq) >= 2
  {
    LeafBound(freq, j);
    LeafBound(freq[..j], i);
  }

  lemma OthersUnused(freq: seq<nat>, s: nat)
    requires s < |freq| && freq[s] > 0 && ActiveCount(freq) == 1
    ensures forall k :: 0 <= k < |freq| && k != s ==> freq[k] == 0
  {
    forall k | 0 <= k < |freq| && k != s ensures freq[k] == 0 {
      if freq[k] > 0 {
        TwoUsed(freq, Min(s, k), Max(s, k));
      }
    }
  }

  /* ---- Limiting by halving ----------------------------------------------- */

  function Halve(f: nat): nat
  {
    if f > 1 then f / 2 else f
  }

  function Halved(f: nat, k: nat): nat
  {
    if k == 0 then f else Halve(Halved(f, k - 1))
  }

  /** After k halvings a 32-bit count is below 2^(32 - k), or one at most. */
  lemma {:induction false} HalvedBound(f: nat, k: nat)
    requires f < Pow2(32) && k <= 32
    ensures Halved(f, k) <= 1 || Halved(f, k) < Pow2(32 - k)
    ensures Halved(f, k) > 0 <==> f > 0
  {
    if k > 0 {
      HalvedBound(f, k - 1);
      assert Pow2(32 - (k - 1)) == 2 * Pow2(32 - k);
    }
  }

  lemma {:induction false} SumOfOnes(freq: seq<nat>)
    requires forall s :: 0 <= s < |freq| ==> freq[s] <= 1
    ensures Sum(freq) <= |freq|
  {
    SumBounds(freq, 0, 1);
  }

  /** With every count at most one no tree of 256 symbols is deeper than 11. */
  lemma OnesAreShallow(freq: seq<nat>, lens: seq<nat>)
    requires |freq| <= CAPACITY && forall s :: 0 <= s < |freq| ==> freq[s] <= 1
    requires TreeLengths(freq, lens)
    ensures forall s :: 0 <= s < |lens| ==> lens[s] <= 11
  {
    SumOfOnes(freq);
    forall s | 0 <= s < |lens| ensures lens[s] <= 11 {
      if lens[s] > 11 {
        FibMonotone(14, lens[s] + 2);
        Fib14();
      }
    }
  }

  lemma Fib14()
    ensures Fib(14) == 377
  {
    assert Fib(8) == 21 && Fib(9) == 34;
    assert Fib(12) == 144 && Fib(13) == 233;
  }

  lemma {:induction false} FibMonotone(a: nat, b: nat)
    requires 1 <= a <= b
    ensures Fib(a) <= Fib(b)
    decreases b
  {
    if a < b { FibMonotone(a, b - 1); }
  }

  /** Lengths the coder can use for this histogram. */
  predicate LimitedLengths(freq: seq<nat>, lens: seq<nat>)
  {
    && |lens| == |freq| && ShortLengths(lens)
    && (forall s :: 0 <= s < |lens| ==> (lens[s] > 0 <==> freq[s] > 0))
    && (ActiveCount(freq) == 1 ==> forall s :: 0 <= s < |lens| ==> lens[s] <= 1)
    && (ActiveCount(freq) >= 2 ==> Complete(lens, MAX_LEN))
  }

  method MaxLength(lens: seq<nat>) returns (m: nat)
    ensures forall s :: 0 <= s < |lens| ==> lens[s] <= m
    ensures m > 0 ==> m in lens
  {
    m := 0;
    for s := 0 to |lens|
      invariant forall k :: 0 <= k < s ==> lens[k] <= m
      invariant m > 0 ==> m in lens
    {
      if lens[s] > m { m := lens[s]; }
    }
  }

  lemma SameActives(a: seq<nat>, b: seq<nat>)
    requires |a| == |b| && forall s :: 0 <= s < |a| ==> (a[s] > 0 <==> b[s] > 0)
    ensures ActiveCount(a) == ActiveCount(b)
  {
    if a != [] {
      SameActives(a[..|a| - 1], b[..|b| - 1]);
    }
  }

  /** The counts after k rounds of halving. */
  predicate HalvedCounts(freqIn: seq<nat>, k: nat, freq: seq<nat>)
  {
    |freq| == |freqIn| && forall s {:trigger freq[s]} :: 0 <= s < |freq| ==> freq[s] == Halved(freqIn[s], k)
  }

  lemma HalvedUse(freqIn: seq<nat>, k: nat, freq: seq<nat>)
    requires HalvedCounts(freqIn, k, freq) && k <= 31
    requires forall s :: 0 <= s < |freqIn| ==> freqIn[s] < U32_LIMIT
    ensures forall s :: 0 <= s < |freq| ==> (freq[s] > 0 <==> freqIn[s] > 0)
    ensures ActiveCount(freq) == ActiveCount(freqIn)
    ensures k == 31 ==> forall s :: 0 <= s < |freq| ==> freq[s] <= 1
  {
    assert Pow2(16) == 0x1_0000;
    Pow2Add(16, 16);
    forall s | 0 <= s < |freq| ensures freq[s] > 0 <==> freqIn[s] > 0 ensures k == 31 ==> freq[s] <= 1 {
      HalvedBound(freqIn[s], k);
      assert Pow2(1) == 2;
    }
    SameActives(freq, freqIn);
  }

  /** A round whose longest length is at most 15 answers the caller's histogram. */
  lemma RoundDone(freqIn: seq<nat>, freq: seq<nat>, lens: seq<nat>)
    requires |freq| == |freqIn| <= CAPACITY && Unlimited(freq, lens)
    requires forall s :: 0 <= s < |freq| ==> (freq[s] > 0 <==> freqIn[s] > 0)
    requires forall s :: 0 <= s < |lens| ==> lens[s] <= MAX_LEN
    ensures LimitedLengths(freqIn, lens)
  {
    SameActives(freq, freqIn);
    if ActiveCount(freq) == 0 {
      forall s | 0 <= s < |freq| ensures freq[s] == 0 {
        if freq[s] > 0 { LeafBound(freq, s); }
      }
    }
  }

  /** In the round where every count is one the longest length is small. */
  lemma LastRoundShallow(freq: seq<nat>, lens: seq<nat>)
    requires |freq| <= CAPACITY && Unlimited(freq, lens)
    requires forall s :: 0 <= s < |freq| ==> freq[s] <= 1
    ensures forall s :: 0 <= s < |lens| ==> lens[s] <= 11
  {
    if ActiveCount(freq) >= 2 {
      OnesAreShallow(freq, lens);
    }
  }

  /** The lengths are optimal for the counts after k halvings. */
  ghost predicate OptimalAfter(freqIn: seq<nat>, k: nat, lens: seq<nat>)
  {
    exists freq: seq<nat> :: HalvedCounts(freqIn, k, freq) && OptimalFor(freq, lens)
  }

  /** A merged tree for these counts has a leaf deeper than the limit. */
  ghost predicate TooDeep(freq: seq<nat>, ls: seq<nat>)
  {
    Unlimited(freq, ls) && exists s :: 0 <= s < |ls| && ls[s] > MAX_LEN
  }

  /** The counts were halved only as often as a tree for them was too deep. */
  ghost predicate Needed(freqIn: seq<nat>, k: nat)
  {
    k == 0 || exists prev, ls {:trigger HalvedCounts(freqIn, k - 1, prev), TooDeep(prev, ls)} ::
                HalvedCounts(freqIn, k - 1, prev) && TooDeep(prev, ls)
  }

  /** Optimal for the counts after no more halvings than were needed. */
  ghost predicate Economical(freqIn: seq<nat>, lens: seq<nat>)
  {
    exists k: nat {:trigger OptimalAfter(freqIn, k, lens)} ::
      k <= 31 && OptimalAfter(freqIn, k, lens) && Needed(freqIn, k)
  }

  lemma FirstRound(freqIn: seq<nat>)
    ensures HalvedCounts(freqIn, 0, freqIn) && Needed(freqIn, 0)
  {
  }

  lemma NextRound(freqIn: seq<nat>, k: nat, freq: seq<nat>, lens: seq<nat>, next: seq<nat>)
    requires HalvedCounts(freqIn, k, freq) && TooDeep(freq, lens)
    requires |next| == |freq| && forall s :: 0 <= s < |next| ==> next[s] == Halve(freq[s])
    ensures HalvedCounts(freqIn, k + 1, next) && Needed(freqIn, k + 1)
  {
    hide TooDeep;
  }

  lemma Settled(freqIn: seq<nat>, k: nat, freq: seq<nat>, lens: seq<nat>)
    requires k <= 31 && HalvedCounts(freqIn, k, freq) && Needed(freqIn, k) && Unlimited(freq, lens)
    ensures Economical(freqIn, lens) && OptimalFor(freq, lens)
  {
    hide HalvedCounts, Needed, OptimalFor, TreeLengths;
    assert OptimalAfter(freqIn, k, lens);
  }

  /** The limited lengths; the round count never reaches the loop's bound of 64. */
  method ComputeLengthsLimited(freqIn: seq<nat>) returns (lens: seq<nat>, nUsed: nat)
    requires |freqIn| == CAPACITY && forall s :: 0 <= s < |freqIn| ==> freqIn[s] < U32_LIMIT
    ensures nUsed == ActiveCount(freqIn) && LimitedLengths(freqIn, lens)
    ensures Economical(freqIn, lens)
    ensures OptimalFor(freqIn, lens) || exists ls :: TooDeep(freqIn, ls)
  {
    hide Unlimited, HalvedCounts, OptimalFor, Economical, Needed, LimitedLengths;
    var freq: seq<nat> := freqIn;
    lens, nUsed := [], 0;
    FirstRound(freqIn);
    for iter := 0 to 64
      invariant iter <= 31 && |freq| == CAPACITY && HalvedCounts(freqIn, iter, freq) && Needed(freqIn, iter)
      invariant if iter == 0 then freq == freqIn else exists ls :: TooDeep(freqIn, ls)
    {
      HalvedUse(freqIn, iter, freq);
      lens, nUsed := ComputeLengths(freq);
      var maxLen := MaxLength(lens);
      if maxLen <= MAX_LEN {
        RoundDone(freqIn, freq, lens);
        Settled(freqIn, iter, freq, lens);
        return;
      }
      if iter == 31 { LastRoundShallow(freq, lens); }
      assert TooDeep(freq, lens);
      ghost var was := freq;
      freq := seq(|freq|, s requires 0 <= s < |freq| => Halve(freq[s]));
      NextRound(freqIn, iter, was, lens, freq);
    }
    assert false;
  }

  /** Limited lengths always pass the decoder's Kraft check. */
  lemma LimitedAreCodes(freq: seq<nat>, lens: seq<nat>)
    requires |freq| <= CAPACITY && LimitedLengths(freq, lens)
    ensures CodeLengths(lens)
  {
    KraftByLength(lens);
    if ActiveCount(freq) == 0 {
      forall s | 0 <= s < |freq| ensures lens[s] == 0 {
        if freq[s] > 0 { LeafBound(freq, s); }
      }
      SumBounds(KraftWeights(lens, MAX_LEN), 0, 0);
    } else if ActiveCount(freq) == 1 {
      OneCode(freq, lens);
    }
  }

  /** Every table the decoder accepts, with a code for each used symbol, competes: an optimal one is no larger. */
  lemma AcceptedCompete(freq: seq<nat>, lens: seq<nat>, ls: seq<nat>)
    requires OptimalFor(freq, lens) && CodeLengths(ls) && |ls| == |freq|
    requires forall s :: 0 <= s < |ls| && freq[s] > 0 ==> ls[s] > 0
    ensures Spent(freq, lens) <= Spent(freq, ls)
  {
    KraftByLength(ls);
    assert Covers(freq, ls, MAX_LEN);
  }

  lemma OneCode(freq: seq<nat>, lens: seq<nat>)
    requires LimitedLengths(freq, lens) && ActiveCount(freq) == 1
    ensures Sum(KraftWeights(lens, MAX_LEN)) == Pow2(MAX_LEN - 1)
  {
    var s := LeafSymbol(freq, 0);
    OthersUnused(freq, s);
    var k := KraftWeights(lens, MAX_LEN);
    SumUpdate(k, s, 0);
    SumBounds(k[s := 0], 0, 0);
  }
}
