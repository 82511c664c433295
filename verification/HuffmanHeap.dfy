/** The binary min-heap of src/entropy/huffman.c: tree nodes ordered by weight. */
module HuffmanHeap {
  import opened Base

  const CAPACITY: nat := 256

  /** A node index with its weight, kept beside it for comparison. */
  datatype Item = Item(key: nat, node: nat)

  function Parent(j: nat): (p: nat)
    requires j > 0
    ensures p < j
  {
    (j - 1) / 2
  }

  predicate AtLeastParent(s: seq<Item>, j: nat)
    requires 0 < j < |s|
  {
    s[Parent(j)].key <= s[j].key
  }

  predicate Ordered(s: seq<Item>)
  {
    forall j {:trigger AtLeastParent(s, j)} :: 0 < j < |s| ==> AtLeastParent(s, j)
  }

  /** Ordered but for the item at hole, whose children are still at least the hole's parent. */
  predicate OrderedAbove(s: seq<Item>, hole: nat)
  {
    && (forall j {:trigger AtLeastParent(s, j)} :: 0 < j < |s| && j != hole ==> AtLeastParent(s, j))
    && Bridged(s, hole)
  }

  /** Ordered but for the children of hole, which are still at least the hole's parent. */
  predicate OrderedBelow(s: seq<Item>, hole: nat)
  {
    && (forall j {:trigger AtLeastParent(s, j)} :: 0 < j < |s| && Parent(j) != hole ==> AtLeastParent(s, j))
    && Bridged(s, hole)
  }

  predicate Bridged(s: seq<Item>, hole: nat)
  {
    forall j {:trigger Parent(j)} :: 0 < j < |s| && Parent(j) == hole && hole > 0 ==> s[Parent(hole)].key <= s[j].key
  }

  lemma {:induction false} RootIsLeast(s: seq<Item>, k: nat)
    requires Ordered(s) && k < |s|
    ensures s[0].key <= s[k].key
    decreases k
  {
    if k > 0 {
      RootIsLeast(s, Parent(k));
      assert AtLeastParent(s, k);
    }
  }

  function Exchange(s: seq<Item>, a: nat, b: nat): (r: seq<Item>)
    requires a < |s| && b < |s|
    ensures multiset(r) == multiset(s) && |r| == |s|
  {
    s[a := s[b]][b := s[a]]
  }

  lemma SiftUpStep(s: seq<Item>, i: nat)
    requires 0 < i < |s| && OrderedAbove(s, i) && s[i].key < s[Parent(i)].key
    ensures OrderedAbove(Exchange(s, Parent(i), i), Parent(i))
  {
    var p := Parent(i);
    var t := Exchange(s, p, i);
    forall j | 0 < j < |t| && j != p ensures AtLeastParent(t, j) {
      if j != i { assert AtLeastParent(s, j); }
    }
    forall j | 0 < j < |t| && Parent(j) == p && p > 0 ensures t[Parent(p)].key <= t[j].key {
      assert AtLeastParent(s, p);
      if j != i { assert AtLeastParent(s, j); }
    }
  }

  lemma SiftDownStep(s: seq<Item>, i: nat, c: nat)
    requires i < c < |s| && Parent(c) == i && OrderedBelow(s, i) && s[c].key < s[i].key
    requires forall j {:trigger Parent(j)} :: 0 < j < |s| && Parent(j) == i ==> s[c].key <= s[j].key
    ensures OrderedBelow(Exchange(s, i, c), c)
  {
    var t := Exchange(s, i, c);
    forall j | 0 < j < |t| && Parent(j) != c ensures AtLeastParent(t, j) {
      if Parent(j) != i { assert AtLeastParent(s, j); }
    }
    forall j | 0 < j < |t| && Parent(j) == c ensures t[Parent(c)].key <= t[j].key {
      assert AtLeastParent(s, j);
    }
  }

  class Heap {
    const items: array<Item>
    var size: nat

    ghost predicate Valid()
      reads this, items
    {
      items.Length == CAPACITY && size <= CAPACITY && Ordered(items[..size])
    }

    ghost function Contents(): multiset<Item>
      reads this, items
      requires size <= items.Length
    {
      multiset(items[..size])
    }

    constructor ()
      ensures Valid() && fresh(items) && size == 0 && Contents() == multiset{}
    {
      items := new Item[CAPACITY](_ => Item(0, 0));
      size := 0;
    }

    method Swap(a: nat, b: nat)
      requires a < size <= items.Length && b < size
      modifies items
      ensures items[..size] == Exchange(old(items[..size]), a, b)
    {
      items[a], items[b] := items[b], items[a];
    }

    method Push(node: nat, weight: nat)
      requires Valid() && size < CAPACITY
      modifies this`size, items
      ensures Valid() && size == old(size) + 1
      ensures Contents() == old(Contents()) + multiset{Item(weight, node)}
    {
      ghost var before := items[..size];
      items[size] := Item(weight, node);
      size := size + 1;
      assert items[..size] == before + [Item(weight, node)];
      forall j | 0 < j < |before| ensures AtLeastParent(items[..size], j) {
        assert AtLeastParent(before, j);
      }
      SiftUp();
    }

    method SiftUp()
      requires items.Length == CAPACITY && 0 < size <= CAPACITY
      requires OrderedAbove(items[..size], size - 1)
      modifies items
      ensures Valid() && Contents() == old(Contents())
    {
      var i: nat := size - 1;
      while i > 0
        invariant i < size
        invariant Contents() == old(Contents())
        invariant OrderedAbove(items[..size], i)
      {
        var p := Parent(i);
        if items[p].key <= items[i].key {
          break;
        }
        SiftUpStep(items[..size], i);
        Swap(p, i);
        i := p;
      }
      if i > 0 {
        assert AtLeastParent(items[..size], i);
      }
    }

    method Pop() returns (top: Item)
      requires Valid() && size > 0
      modifies this`size, items
      ensures Valid() && size == old(size) - 1
      ensures top in old(Contents())
      ensures Contents() == old(Contents()) - multiset{top}
      ensures forall it: Item :: it in old(Contents()) ==> top.key <= it.key
    {
      ghost var before := items[..size];
      top := items[0];
      LeastOfAll(before);
      size := size - 1;
      if size > 0 {
        items[0] := items[size];
        ghost var moved := items[..size];
        LastToFront(before, moved);
        SiftDown();
      } else {
        assert before == [top];
      }
    }

    method SiftDown()
      requires items.Length == CAPACITY && 0 < size <= CAPACITY
      requires OrderedBelow(items[..size], 0)
      modifies items
      ensures Valid() && Contents() == old(Contents())
    {
      var i := 0;
      while true
        invariant i < size
        invariant Contents() == old(Contents())
        invariant OrderedBelow(items[..size], i)
        decreases size - i
      {
        var s := SmallestOf(i);
        if s == i {
          ChildrenOrdered(items[..size], i);
          break;
        }
        SiftDownStep(items[..size], i, s);
        Swap(i, s);
        i := s;
      }
    }

    /** The least of an item and its children, the item itself on a tie. */
    method SmallestOf(i: nat) returns (s: nat)
      requires i < size <= items.Length
      ensures s < size && (s == i || (s > i && Parent(s) == i && items[s].key < items[i].key))
      ensures items[s].key <= items[i].key
      ensures forall j {:trigger Parent(j)} :: 0 < j < size && Parent(j) == i ==> items[s].key <= items[j].key
    {
      var l, r := 2 * i + 1, 2 * i + 2;
      s := i;
      if l < size && items[l].key < items[s].key { s := l; }
      if r < size && items[r].key < items[s].key { s := r; }
    }
  }

  lemma ChildrenOrdered(s: seq<Item>, i: nat)
    requires i < |s| && OrderedBelow(s, i)
    requires forall j {:trigger Parent(j)} :: 0 < j < |s| && Parent(j) == i ==> s[i].key <= s[j].key
    ensures Ordered(s)
  {
  }

  lemma LeastOfAll(s: seq<Item>)
    requires Ordered(s) && s != []
    ensures forall it: Item :: it in multiset(s) ==> s[0].key <= it.key
  {
    forall it: Item | it in multiset(s) ensures s[0].key <= it.key {
      var k :| 0 <= k < |s| && s[k] == it;
      RootIsLeast(s, k);
    }
  }

  lemma LastToFront(s: seq<Item>, t: seq<Item>)
    requires |s| > 1 && |t| == |s| - 1 && Ordered(s)
    requires t == s[..|s| - 1][0 := s[|s| - 1]]
    ensures multiset(t) == multiset(s) - multiset{s[0]}
    ensures OrderedBelow(t, 0)
  {
    var n := |s| - 1;
    assert s == [s[0]] + s[1..n] + [s[n]];
    assert t == [s[n]] + s[1..n];
    forall j | 0 < j < |t| && Parent(j) != 0 ensures AtLeastParent(t, j) {
      assert AtLeastParent(s, j);
    }
  }
}
