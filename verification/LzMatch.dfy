/**
 * Finding matches (src/entropy/mf_hashchain.c, src/entropy/lz.c): the 8-byte compare, the hash chain
 * with its bounded walk, and the probe of remembered offsets. Whatever they report is a real match.
 */
module LzMatch {
  import opened Base
  import opened LzFormat

  /* ---- Common prefixes --------------------------------------------------- */

  predicate SameAt(src: seq<byte>, i: nat, off: nat)
    requires off <= i < |src|
  {
    src[i] == src[i - off]
  }

  /** n bytes at pos repeat those off places before them. */
  predicate Repeats(src: seq<byte>, pos: nat, off: nat, n: nat)
    requires off <= pos && pos + n <= |src|
  {
    forall i: nat {:trigger SameAt(src, i, off)} :: pos <= i < pos + n ==> SameAt(src, i, off)
  }

  /** How many bytes at pos repeat those off places before them, up to max. */
  function Common(src: seq<byte>, pos: nat, off: nat, max: nat): (n: nat)
    requires off <= pos && pos + max <= |src|
    ensures n <= max
    decreases max
  {
    if max == 0 || src[pos] != src[pos - off] then 0 else 1 + Common(src, pos + 1, off, max - 1)
  }

  lemma {:induction false} CommonRepeats(src: seq<byte>, pos: nat, off: nat, max: nat)
    requires off <= pos && pos + max <= |src|
    ensures var n := Common(src, pos, off, max);
            Repeats(src, pos, off, n) && (n < max ==> !SameAt(src, pos + n, off))
    decreases max
  {
    if max > 0 && src[pos] == src[pos - off] {
      CommonRepeats(src, pos + 1, off, max - 1);
    }
  }

  lemma CommonIs(src: seq<byte>, pos: nat, off: nat, max: nat, n: nat)
    requires off <= pos && pos + max <= |src| && n <= max
    requires Repeats(src, pos, off, n) && (n < max ==> !SameAt(src, pos + n, off))
    ensures Common(src, pos, off, max) == n
  {
    CommonRepeats(src, pos, off, max);
  }

  /** The index of the first byte in which two 8-byte words differ. */
  method FirstDifference(a: seq<byte>, b: seq<byte>) returns (n: nat)
    requires |a| == |b| == 8 && a != b
    ensures n < 8 && a[..n] == b[..n] && a[n] != b[n]
  {
    n := 0;
    while n < 8 && a[n] == b[n]
      invariant n <= 8 && a[..n] == b[..n]
    {
      n := n + 1;
    }
    if n == 8 { SameWords(a, b); }
  }

  lemma SameWords(a: seq<byte>, b: seq<byte>)
    requires |a| == |b| == 8 && a[..8] == b[..8]
    ensures a == b
  {
  }

  lemma WordsRepeat(src: seq<byte>, pos: nat, off: nat, at: nat, n: nat, w: nat)
    requires off <= pos && n <= w && pos + at + w <= |src| && Repeats(src, pos, off, at)
    requires src[pos + at..pos + at + w][..n] == src[pos + at - off..pos + at + w - off][..n]
    ensures Repeats(src, pos, off, at + n)
  {
    var a, b := src[pos + at..pos + at + w], src[pos + at - off..pos + at + w - off];
    forall i: nat | pos <= i < pos + at + n ensures SameAt(src, i, off) {
      if i >= pos + at {
        assert a[..n][i - pos - at] == b[..n][i - pos - at];
      }
    }
  }

  /** The match length, compared eight bytes at a time. */
  method Extend(src: seq<byte>, pos: nat, off: nat, max: nat) returns (len: nat)
    requires off <= pos && pos + max <= |src|
    ensures len == Common(src, pos, off, max)
  {
    len := 0;
    while len + 8 <= max
      invariant len <= max && Repeats(src, pos, off, len)
      decreases max - len
    {
      var a, b := src[pos + len..pos + len + 8], src[pos + len - off..pos + len - off + 8];
      if a != b {
        var n := FirstDifference(a, b);
        WordsRepeat(src, pos, off, len, n, 8);
        len := len + n;
        CommonIs(src, pos, off, max, len);
        return;
      }
      assert a[..8] == b[..8];
      WordsRepeat(src, pos, off, len, 8, 8);
      len := len + 8;
    }
    while len < max && SameAt(src, pos + len, off)
      invariant len <= max && Repeats(src, pos, off, len)
    {
      len := len + 1;
    }
    CommonIs(src, pos, off, max, len);
  }

  /** A match the format can hold: len bytes at pos repeat those off places before. */
  predicate IsMatch(src: seq<byte>, pos: nat, len: nat, off: nat)
  {
    MIN_MATCH <= len && 1 <= off <= pos && off <= MAX_OFFSET && pos + len <= |src| && Repeats(src, pos, off, len)
  }

  lemma CommonIsMatch(src: seq<byte>, pos: nat, off: nat, max: nat, len: nat)
    requires 1 <= off <= pos && off <= MAX_OFFSET && pos + max <= |src|
    requires MIN_MATCH <= len <= Common(src, pos, off, max)
    ensures IsMatch(src, pos, len, off)
  {
    CommonRepeats(src, pos, off, max);
  }

  /* ---- Hash chains ------------------------------------------------------- */

  const NONE: nat := 0xFFFF_FFFF

  const MULTIPLIER: nat := 2654435761

  /** The 4-byte multiplicative hash: the top bits of the 32-bit product. */
  function Hash4(src: seq<byte>, pos: nat, hashBits: nat): (h: nat)
    requires pos + 4 <= |src| && hashBits <= 32
    ensures h < Pow2(hashBits)
  {
    TopBits(LowU32(LEVal(src[pos..pos + 4]) * MULTIPLIER), hashBits)
  }

  function TopBits(p: nat, n: nat): (h: nat)
    requires p < U32_LIMIT && n <= 32
    ensures h < Pow2(n)
  {
    TopBitsFit(p, n);
    p / Pow2(32 - n)
  }

  lemma TopBitsFit(p: nat, n: nat)
    requires p < U32_LIMIT && n <= 32
    ensures 0 <= p / Pow2(32 - n) < Pow2(n)
  {
    hide Pow2;
    Pow2Add(n, 32 - n);
    Pow2Values();
    DivBelow(p, Pow2(32 - n), Pow2(n));
  }

  /** The top byte of a 32-bit value is its count of 2^24s, modulo 256. */
  lemma TopByte(n: nat, u: nat)
    requires u < 0x100_0000
    ensures LowU32(n * 0x100_0000 + u) / 0x100_0000 == n % 256
  {
    var q, r := n / 256, n % 256;
    assert n * 0x100_0000 + u == q * U32_LIMIT + (r * 0x100_0000 + u);
    DivModUnique(q, U32_LIMIT, r * 0x100_0000 + u);
    DivModUnique(r, 0x100_0000, u);
  }

  /** The multiplier is odd, so it takes different fourth bytes to different top bytes. */
  lemma OddPermutes(c: nat, x: nat, y: nat)
    requires x < 256 && y < 256 && (c + x * MULTIPLIER) % 256 == (c + y * MULTIPLIER) % 256
    ensures x == y
  {
    var k := (c + x * MULTIPLIER) / 256 - (c + y * MULTIPLIER) / 256;
    assert (x - y) * MULTIPLIER == 256 * k;
    assert MULTIPLIER == 256 * 10368889 + 177 && 177 * 81 == 256 * 56 + 1;
    assert x - y == 256 * (81 * (k - 10368889 * (x - y)) - 56 * (x - y));
  }

  /** Values with the same low three bytes and the same 18-bit hash are the same. */
  lemma SameBucket(a: nat, x: nat, y: nat)
    requires a < 0x100_0000 && x < 256 && y < 256
    requires LowU32((a + x * 0x100_0000) * MULTIPLIER) / 0x4000 == LowU32((a + y * 0x100_0000) * MULTIPLIER) / 0x4000
    ensures x == y
  {
    hide LowU32;
    var c, u := a * MULTIPLIER / 0x100_0000, a * MULTIPLIER % 0x100_0000;
    assert (a + x * 0x100_0000) * MULTIPLIER == (c + x * MULTIPLIER) * 0x100_0000 + u;
    assert (a + y * 0x100_0000) * MULTIPLIER == (c + y * MULTIPLIER) * 0x100_0000 + u;
    TopByte(c + x * MULTIPLIER, u);
    TopByte(c + y * MULTIPLIER, u);
    Coarser(LowU32((a + x * 0x100_0000) * MULTIPLIER));
    Coarser(LowU32((a + y * 0x100_0000) * MULTIPLIER));
    OddPermutes(c, x, y);
  }

  lemma Coarser(p: nat)
    ensures p / 0x100_0000 == p / 0x4000 / 0x400
  {
  }

  /** In one bucket of 18 bits, positions with the same three bytes have the same fourth. */
  lemma SameBucketSameFourth(src: seq<byte>, i: nat, j: nat)
    requires i + 4 <= |src| && j + 4 <= |src| && Hash4(src, i, 18) == Hash4(src, j, 18)
    requires src[i] == src[j] && src[i + 1] == src[j + 1] && src[i + 2] == src[j + 2]
    ensures src[i + 3] == src[j + 3]
  {
    var a := ThreeBytes(src[i], src[i + 1], src[i + 2]);
    HashOfFour(src, i);
    HashOfFour(src, j);
    hide *;
    SameBucket(a, src[i + 3], src[j + 3]);
  }

  function ThreeBytes(x: nat, y: nat, z: nat): (a: nat)
    requires x < 256 && y < 256 && z < 256
    ensures a < 0x100_0000
  {
    x + 256 * y + 65536 * z
  }

  lemma HashOfFour(src: seq<byte>, i: nat)
    requires i + 4 <= |src|
    ensures var w: nat := src[i + 3];
            Hash4(src, i, 18)
            == LowU32((ThreeBytes(src[i], src[i + 1], src[i + 2]) + w * 0x100_0000) * MULTIPLIER) / 0x4000
  {
    FourBytes(src[i..i + 4]);
    hide LEVal, LowU32;
    assert Pow2(14) == 0x4000;
  }

  lemma FourBytes(b: seq<byte>)
    requires |b| == 4
    ensures var w: nat := b[3]; LEVal(b) == ThreeBytes(b[0], b[1], b[2]) + w * 0x100_0000
  {
    assert b[1..][1..] == b[2..] && b[2..][1..] == b[3..] && b[3..][1..] == [];
    var x: nat, y: nat, z: nat, w: nat := b[0], b[1], b[2], b[3];
    assert LEVal(b[3..]) == w;
    assert LEVal(b[2..]) == z + 256 * w;
    assert LEVal(b[1..]) == y + 256 * LEVal(b[2..]);
    assert LEVal(b) == x + 256 * LEVal(b[1..]);
  }

  /* ---- Positions entered ------------------------------------------------- */

  /** Room for a match and the byte after it; only such positions are entered and looked up. */
  predicate Room(src: seq<byte>, pos: nat)
  {
    pos + MIN_MATCH + 1 <= |src|
  }

  /** The positions entered under a hash of so many bits, those entered twice, and the links a walk may follow. */
  datatype Chains = Chains(bits: nat, depth: nat, known: set<nat>, twice: set<nat>)

  ghost predicate ChainsOk(src: seq<byte>, c: Chains)
  {
    c.bits <= 32 && c.twice <= c.known && forall p {:trigger p in c.known} :: p in c.known ==> Room(src, p)
  }

  function Enter(src: seq<byte>, c: Chains, pos: nat): (r: Chains)
    ensures c.bits == r.bits && c.depth == r.depth && (ChainsOk(src, c) ==> ChainsOk(src, r))
  {
    if !Room(src, pos) then c
    else if pos in c.known then c.(twice := c.twice + {pos})
    else c.(known := c.known + {pos})
  }

  predicate Under(src: seq<byte>, c: Chains, h: nat, p: nat)
    requires c.bits <= 32
  {
    p in c.known && Room(src, p) && Hash4(src, p, c.bits) == h
  }

  /** The last position before a bound that was entered under a hash. */
  function Newest(src: seq<byte>, c: Chains, h: nat, below: nat): (p: nat)
    requires c.bits <= 32
    ensures p == NONE || (p < below && Under(src, c, h, p))
  {
    if below == 0 then NONE
    else if Under(src, c, h, below - 1) then below - 1
    else Newest(src, c, h, below - 1)
  }

  /** Nothing entered under the hash lies between the one found and the bound. */
  lemma {:induction false} NewestIsLast(src: seq<byte>, c: Chains, h: nat, below: nat, p: nat)
    requires c.bits <= 32 && below <= NONE && p < below && Under(src, c, h, p)
    ensures var q := Newest(src, c, h, below); p <= q < below && Under(src, c, h, q)
  {
    if !Under(src, c, h, below - 1) {
      NewestIsLast(src, c, h, below - 1, p);
    }
  }

  lemma {:induction false} NewestAgrees(src: seq<byte>, c: Chains, d: Chains, h: nat, below: nat)
    requires c.bits == d.bits <= 32
    requires forall p: nat {:trigger p in c.known} :: p < below && Room(src, p) ==> (p in c.known <==> p in d.known)
    ensures Newest(src, c, h, below) == Newest(src, d, h, below)
  {
    hide Hash4;
    if below > 0 {
      assert Room(src, below - 1) ==> (below - 1 in c.known <==> below - 1 in d.known);
      NewestAgrees(src, c, d, h, below - 1);
    }
  }

  /** Past the last position entered the bound makes no difference. */
  lemma {:induction false} NewestBelow(src: seq<byte>, c: Chains, h: nat, last: nat, below: nat)
    requires c.bits <= 32 && last <= below && forall p {:trigger p in c.known} :: p in c.known ==> p < last
    ensures Newest(src, c, h, below) == Newest(src, c, h, last)
    decreases below
  {
    hide Hash4;
    if last < below {
      NewestBelow(src, c, h, last, below - 1);
    }
  }

  /**
   * The candidate a walk goes on to: the last position before it under its hash. A position entered twice
   * leads back to itself, and what was entered before it is out of reach.
   */
  function Link(src: seq<byte>, c: Chains, p: nat): (q: nat)
    requires c.bits <= 32 && Room(src, p)
    ensures p in c.known ==> q == NONE || q in c.known
  {
    if p in c.twice then p else Newest(src, c, Hash4(src, p, c.bits), p)
  }

  lemma {:induction false} NothingKnown(src: seq<byte>, c: Chains, h: nat, below: nat)
    requires c.bits <= 32 && c.known == {}
    ensures Newest(src, c, h, below) == NONE
  {
    if below > 0 {
      NothingKnown(src, c, h, below - 1);
    }
  }

  /** The last position entered under a hash once pos is entered too. */
  lemma HeadAfter(src: seq<byte>, c: Chains, pos: nat, h: nat)
    requires ChainsOk(src, c) && Room(src, pos) && |src| <= NONE
    requires forall p {:trigger p in c.known} :: p in c.known ==> p <= pos
    ensures Newest(src, Enter(src, c, pos), h, |src|)
            == if h == Hash4(src, pos, c.bits) then pos else Newest(src, c, h, |src|)
  {
    hide Hash4;
    var d := Enter(src, c, pos);
    NewestBelow(src, d, h, pos + 1, |src|);
    NewestBelow(src, c, h, pos + 1, |src|);
    NewestAgrees(src, c, d, h, pos);
  }

  /** The links of the positions entered: pos leads to the old head of its hash, the others stay. */
  lemma LinkAfter(src: seq<byte>, c: Chains, pos: nat, p: nat)
    requires ChainsOk(src, c) && Room(src, pos) && |src| <= NONE
    requires forall p {:trigger p in c.known} :: p in c.known ==> p <= pos
    requires p in Enter(src, c, pos).known
    ensures Room(src, p)
    ensures Link(src, Enter(src, c, pos), p)
            == if p == pos then Newest(src, c, Hash4(src, pos, c.bits), |src|) else Link(src, c, p)
  {
    hide Hash4;
    var d := Enter(src, c, pos);
    if p == pos {
      var h := Hash4(src, pos, c.bits);
      NewestBelow(src, c, h, pos + 1, |src|);
      NewestAgrees(src, c, d, h, pos);
    } else {
      NewestAgrees(src, c, d, Hash4(src, p, c.bits), p);
    }
  }

  /** The offsets a walk from a candidate tries: as many candidates as depth says, up to the end of the window. */
  function Reached(src: seq<byte>, c: Chains, cand: nat, pos: nat, depth: nat): (v: seq<nat>)
    requires ChainsOk(src, c) && (cand == NONE || cand in c.known)
    decreases depth
  {
    if cand == NONE || depth == 0 then []
    else if cand < pos && pos - cand > MAX_OFFSET then []
    else
      (if cand < pos then [pos - cand] else []) + Reached(src, c, Link(src, c, cand), pos, depth - 1)
  }

  /** The offsets tried at pos: from the last position with its hash back. */
  function Offered(src: seq<byte>, c: Chains, pos: nat): (v: seq<nat>)
    requires ChainsOk(src, c)
  {
    if Room(src, pos) then Reached(src, c, Newest(src, c, Hash4(src, pos, c.bits), |src|), pos, c.depth + 1) else []
  }

  /** The last earlier position with the hash of pos is the first one tried, if the window reaches it. */
  lemma NewestIsOffered(src: seq<byte>, c: Chains, pos: nat, p: nat)
    requires ChainsOk(src, c) && Room(src, pos) && |src| <= NONE && pos - MAX_OFFSET <= p < pos
    requires Under(src, c, Hash4(src, pos, c.bits), p)
    requires forall q {:trigger q in c.known} :: q in c.known && q > p ==> !Under(src, c, Hash4(src, pos, c.bits), q)
    ensures |Offered(src, c, pos)| >= 1 && Offered(src, c, pos)[0] == pos - p
  {
    hide Hash4;
    NewestIsLast(src, c, Hash4(src, pos, c.bits), |src|, p);
  }

  /** After a second entry a walk from there sees nothing but that position. */
  lemma {:induction false} TwiceCutsOff(src: seq<byte>, c: Chains, p: nat, pos: nat, depth: nat)
    requires ChainsOk(src, c) && p in c.known && p < pos && pos - p <= MAX_OFFSET && p < NONE
    ensures var d := Enter(src, c, p);
            && |Reached(src, d, p, pos, depth)| == depth
            && forall i :: 0 <= i < depth ==> Reached(src, d, p, pos, depth)[i] == pos - p
  {
    if depth > 0 {
      TwiceCutsOff(src, c, p, pos, depth - 1);
    }
  }

  /* ---- The longest match ------------------------------------------------- */

  /** How many bytes at pos repeat those off places before; none for an offset that reaches past the start. */
  function Length(src: seq<byte>, pos: nat, off: nat): (n: nat)
    requires pos <= |src|
    ensures n <= |src| - pos
  {
    if 1 <= off <= pos then Common(src, pos, off, |src| - pos) else 0
  }

  /** Too short for a match, or not better than len at an offset tried before. */
  predicate Beaten(src: seq<byte>, pos: nat, offs: seq<nat>, i: nat, len: nat, off: nat)
    requires pos <= |src| && i < |offs|
  {
    var n := Length(src, pos, offs[i]);
    n < MIN_MATCH || n < len || (n == len && off in offs[..i + 1])
  }

  /** The longest match at these offsets, the first of them on a tie; length 0 when no offset has one. */
  predicate Longest(src: seq<byte>, pos: nat, offs: seq<nat>, len: nat, off: nat)
    requires pos <= |src|
  {
    && (len == 0 || (len >= MIN_MATCH && off in offs && len == Length(src, pos, off)))
    && forall i: nat {:trigger offs[i]} :: i < |offs| ==> Beaten(src, pos, offs, i, len, off)
  }

  lemma FirstOf(offs: seq<nat>, off: nat) returns (i: nat)
    requires off in offs
    ensures i < |offs| && offs[i] == off && forall k {:trigger offs[k]} :: 0 <= k < i ==> offs[k] != off
  {
    i := 0;
    while offs[i] != off
      invariant i < |offs| && forall k {:trigger offs[k]} :: 0 <= k < i ==> offs[k] != off
      decreases |offs| - i
    {
      i := i + 1;
    }
  }

  /** The offsets decide the match. */
  lemma LongestUnique(src: seq<byte>, pos: nat, offs: seq<nat>, len: nat, off: nat, n: nat, o: nat)
    requires pos <= |src| && Longest(src, pos, offs, len, off) && Longest(src, pos, offs, n, o)
    ensures len == n && (len > 0 ==> off == o)
  {
    hide Length, Longest, Beaten;
    if len > 0 || n > 0 {
      LongestFacts(src, pos, offs, len, off);
      LongestFacts(src, pos, offs, n, o);
      if len > 0 { LongestAtLeast(src, pos, offs, n, o, off); }
      if n > 0 { LongestAtLeast(src, pos, offs, len, off, o); }
      var i := FirstOf(offs, off);
      var j := FirstOf(offs, o);
      TieIsLater(src, pos, offs, n, o, i);
      TieIsLater(src, pos, offs, len, off, j);
    }
  }

  lemma LongestFacts(src: seq<byte>, pos: nat, offs: seq<nat>, len: nat, off: nat)
    requires pos <= |src| && Longest(src, pos, offs, len, off)
    ensures len == 0 || (len >= MIN_MATCH && off in offs && len == Length(src, pos, off))
  {
  }

  lemma TieIsLater(src: seq<byte>, pos: nat, offs: seq<nat>, len: nat, off: nat, i: nat)
    requires pos <= |src| && Longest(src, pos, offs, len, off) && i < |offs|
    requires len >= MIN_MATCH && Length(src, pos, offs[i]) == len
    ensures exists k {:trigger offs[k]} :: 0 <= k <= i && offs[k] == off
  {
    assert Beaten(src, pos, offs, i, len, off);
  }

  lemma LongestAtLeast(src: seq<byte>, pos: nat, offs: seq<nat>, len: nat, off: nat, o: nat)
    requires pos <= |src| && Longest(src, pos, offs, len, off) && o in offs && Length(src, pos, o) >= MIN_MATCH
    ensures Length(src, pos, o) <= len
  {
    var i: nat :| i < |offs| && offs[i] == o;
    assert Beaten(src, pos, offs, i, len, off);
  }

  lemma LongestNone(src: seq<byte>, pos: nat, off: nat)
    requires pos <= |src|
    ensures Longest(src, pos, [], 0, off)
  {
  }

  lemma BeatenLeft(src: seq<byte>, pos: nat, a: seq<nat>, b: seq<nat>, i: nat, len: nat, off: nat, l: nat, f: nat)
    requires pos <= |src| && i < |a| && Beaten(src, pos, a, i, len, off) && (l > len || (l == len && f == off))
    ensures Beaten(src, pos, a + b, i, l, f)
  {
    hide Length;
    assert (a + b)[..i + 1] == a[..i + 1];
  }

  lemma BeatenRight(src: seq<byte>, pos: nat, a: seq<nat>, b: seq<nat>, i: nat, n: nat, o: nat, l: nat, f: nat)
    requires pos <= |src| && i < |b| && Beaten(src, pos, b, i, n, o)
    requires l > n || (l == n && (l < MIN_MATCH || f in a || f == o))
    ensures Beaten(src, pos, a + b, |a| + i, l, f)
  {
    hide Length;
    assert (a + b)[..|a| + i + 1] == a + b[..i + 1];
  }

  /** Of two lists, the second counts only when it is strictly better. */
  lemma LongestJoin(src: seq<byte>, pos: nat, a: seq<nat>, b: seq<nat>, len: nat, off: nat, n: nat, o: nat)
    requires pos <= |src| && Longest(src, pos, a, len, off) && Longest(src, pos, b, n, o)
    ensures if len >= n then Longest(src, pos, a + b, len, off) else Longest(src, pos, a + b, n, o)
  {
    hide Length, Beaten;
    var v, l, f := a + b, if len >= n then len else n, if len >= n then off else o;
    forall i: nat | i < |v| ensures Beaten(src, pos, v, i, l, f) {
      if i < |a| {
        assert a[i] == v[i];
        BeatenLeft(src, pos, a, b, i, len, off, l, f);
      } else {
        assert b[i - |a|] == v[i];
        BeatenRight(src, pos, a, b, i - |a|, n, o, l, f);
      }
    }
  }

  /** A match to the end of the input cannot be beaten by what would come after it. */
  lemma LongestFull(src: seq<byte>, pos: nat, a: seq<nat>, b: seq<nat>, len: nat, off: nat)
    requires pos <= |src| && Longest(src, pos, a, len, off) && len == |src| - pos > 0
    ensures Longest(src, pos, a + b, len, off)
  {
    hide Length;
    var v := a + b;
    forall i: nat | i < |v| ensures Beaten(src, pos, v, i, len, off) {
      if i < |a| {
        assert Beaten(src, pos, a, i, len, off) && v[..i + 1] == a[..i + 1];
      } else {
        assert v[..i + 1] == a + b[..i + 1 - |a|];
      }
    }
  }

  /** One more offset is better only when it is strictly longer. */
  lemma LongestOne(src: seq<byte>, pos: nat, o: nat)
    requires pos <= |src|
    ensures var n := Length(src, pos, o); Longest(src, pos, [o], if n >= MIN_MATCH then n else 0, o)
  {
    hide Length;
    var n := Length(src, pos, o);
    assert [o][..1] == [o];
    assert Beaten(src, pos, [o], 0, if n >= MIN_MATCH then n else 0, o);
  }

  /* ---- Hash chains ------------------------------------------------------- */

  class HashChain {
    const src: seq<byte>
    const hashBits: nat
    const chainDepth: nat
    const htab: array<nat>
    const chain: array<nat>
    ghost var chains: Chains

    /** Heads hold the last position entered under their hash, links the position a walk goes on to. */
    ghost predicate Valid()
      reads this, htab, chain
    {
      && |src| < NONE && htab.Length == Pow2(hashBits) && htab != chain
      && chain.Length == (if chainDepth > 0 then |src| else 0)
      && ChainsOk(src, chains) && chains.bits == hashBits && chains.depth == chainDepth
      && (forall h: nat {:trigger htab[h]} :: h < htab.Length ==> htab[h] == Newest(src, chains, h, |src|))
      && (chainDepth > 0 ==>
            forall p {:trigger chain[p]} :: p in chains.known ==> Room(src, p) && chain[p] == Link(src, chains, p))
    }

    constructor (src: seq<byte>, chainDepth: nat, hashBits: nat)
      requires |src| < NONE && hashBits <= 32
      ensures Valid() && fresh(htab) && fresh(chain)
      ensures this.src == src && chains == Chains(hashBits, chainDepth, {}, {})
    {
      this.src, this.chainDepth, this.hashBits := src, chainDepth, hashBits;
      htab := new nat[Pow2(hashBits)](_ => NONE);
      chain := new nat[if chainDepth > 0 then |src| else 0];
      chains := Chains(hashBits, chainDepth, {}, {});
      new;
      forall h: nat ensures Newest(src, chains, h, |src|) == NONE {
        NothingKnown(src, chains, h, |src|);
      }
    }

    /** A position with room for a match becomes the head of its hash, the old head its link. */
    method Insert(pos: nat)
      requires Valid() && forall p {:trigger p in chains.known} :: p in chains.known ==> p <= pos
      modifies this`chains, htab, chain
      ensures Valid() && chains == Enter(src, old(chains), pos)
    {
      hide Hash4;
      if pos + MIN_MATCH + 1 > |src| {
        return;
      }
      var h := Hash4(src, pos, hashBits);
      if chainDepth > 0 {
        chain[pos] := htab[h];
      }
      htab[h] := pos;
      ghost var was := chains;
      chains := Enter(src, chains, pos);
      forall k: nat | k < htab.Length ensures htab[k] == Newest(src, chains, k, |src|) {
        HeadAfter(src, was, pos, k);
      }
      forall p | p in chains.known && chainDepth > 0 ensures Room(src, p) && chain[p] == Link(src, chains, p) {
        LinkAfter(src, was, pos, p);
      }
    }

    /** The link after a candidate; with no chain the walk ends at the head. */
    function Next(cand: nat): nat
      reads chain
    {
      if chainDepth > 0 && cand < chain.Length then chain[cand] else NONE
    }

    lemma HeadIs(pos: nat)
      requires Valid() && Room(src, pos)
      ensures hashBits <= 32 && Hash4(src, pos, hashBits) < htab.Length && ChainsOk(src, chains)
      ensures var cand := htab[Hash4(src, pos, hashBits)];
              && (cand == NONE || cand in chains.known)
              && Offered(src, chains, pos) == Reached(src, chains, cand, pos, chainDepth + 1)
    {
      hide Hash4, Reached;
    }

    lemma LinkIs(cand: nat)
      requires Valid() && cand in chains.known
      ensures ChainsOk(src, chains) && Room(src, cand)
      ensures chainDepth > 0 ==> Next(cand) == Link(src, chains, cand)
      ensures chainDepth == 0 ==> Next(cand) == NONE
    {
    }

    /** What the walk has so far: a real match, and for an uncapped walk the longest among those tried. */
    ghost predicate Best(pos: nat, extendCap: nat, seen: seq<nat>, len: nat, off: nat)
      requires pos <= |src|
    {
      && MIN_MATCH - 1 <= len <= |src| - pos
      && (len >= MIN_MATCH ==> IsMatch(src, pos, len, off))
      && (extendCap == 0 ==> Longest(src, pos, seen, if len < MIN_MATCH then 0 else len, off))
    }

    lemma BestStart(pos: nat, extendCap: nat)
      requires Room(src, pos)
      ensures Best(pos, extendCap, [], MIN_MATCH - 1, 0)
    {
      LongestNone(src, pos, 0);
    }

    /** One more candidate. */
    lemma BestNext(pos: nat, extendCap: nat, seen: seq<nat>, len: nat, off: nat, o: nat, n: nat, f: nat)
      requires pos <= |src| && Best(pos, extendCap, seen, len, off) && 1 <= o <= pos && o <= MAX_OFFSET
      requires len <= n <= |src| - pos && (n > len ==> IsMatch(src, pos, n, f) && f == o) && (n == len ==> f == off)
      requires extendCap == 0 ==> n == Max(len, Common(src, pos, o, |src| - pos))
      ensures Best(pos, extendCap, seen + [o], n, f)
    {
      hide Common, Longest, IsMatch;
      if extendCap == 0 {
        LongestOne(src, pos, o);
        var m := Length(src, pos, o);
        LongestJoin(src, pos, seen, [o], if len < MIN_MATCH then 0 else len, off, if m >= MIN_MATCH then m else 0, o);
      }
    }

    lemma BestFull(pos: nat, extendCap: nat, a: seq<nat>, b: seq<nat>, len: nat, off: nat)
      requires Room(src, pos) && Best(pos, extendCap, a, len, off) && len == |src| - pos
      ensures Best(pos, extendCap, a + b, len, off)
    {
      hide Longest;
      if extendCap == 0 { LongestFull(src, pos, a, b, len, off); }
    }

    lemma BestIs(pos: nat, extendCap: nat, v: seq<nat>, len: nat, off: nat)
      requires pos <= |src| && Best(pos, extendCap, v, len, off)
      ensures var n := if len < MIN_MATCH then 0 else len;
              (n == 0 || IsMatch(src, pos, n, off)) && (extendCap == 0 ==> Longest(src, pos, v, n, off))
    {
      hide Longest, IsMatch;
    }

    lemma ReachedStep(cand: nat, pos: nat, depth: nat, seen: seq<nat>)
      requires Valid() && cand in chains.known && 0 < depth <= chainDepth + 1
      requires cand != NONE && (cand < pos ==> pos - cand <= MAX_OFFSET)
      ensures ChainsOk(src, chains) && Room(src, cand) && (Next(cand) == NONE || Next(cand) in chains.known)
      ensures var here := if cand < pos then [pos - cand] else [];
              seen + Reached(src, chains, cand, pos, depth)
              == seen + here + Reached(src, chains, Next(cand), pos, depth - 1)
    {
      LinkIs(cand);
      var here := if cand < pos then [pos - cand] else [];
      ConcatAssociative(seen, here, Reached(src, chains, Next(cand), pos, depth - 1));
    }

    lemma ReachedEnds(cand: nat, pos: nat, depth: nat)
      requires ChainsOk(src, chains) && (cand == NONE || cand in chains.known)
      requires cand == NONE || depth == 0 || (cand < pos && pos - cand > MAX_OFFSET)
      ensures Reached(src, chains, cand, pos, depth) == []
    {
    }

    lemma Okay()
      requires Valid()
      ensures ChainsOk(src, chains)
    {
    }

    /**
     * The longest match the walk finds, 0 if none. Uncapped (extendCap 0), it is the longest of all the
     * candidates the walk reaches, the nearest of them on a tie.
     */
    method FindBest(pos: nat, extendCap: nat) returns (len: nat, off: nat)
      requires Valid()
      ensures ChainsOk(src, chains) && (len == 0 || IsMatch(src, pos, len, off))
      ensures extendCap == 0 && pos <= |src| ==> Longest(src, pos, Offered(src, chains, pos), len, off)
    {
      hide Hash4, IsMatch, Common, Longest, Valid, Next, Link, Newest, ChainsOk, Best, Reached;
      Okay();
      if pos + MIN_MATCH + 1 > |src| {
        if pos <= |src| { LongestNone(src, pos, 0); }
        return 0, 0;
      }
      HeadIs(pos);
      var cand := htab[Hash4(src, pos, hashBits)];
      var depth: nat := chainDepth + 1;
      var cap := if extendCap > 0 && extendCap < |src| - pos then extendCap else |src| - pos;
      len, off := MIN_MATCH - 1, 0;
      BestStart(pos, extendCap);
      ghost var all := Offered(src, chains, pos);
      ghost var seen: seq<nat> := [];
      if cand == NONE { ReachedEnds(cand, pos, depth); }
      while cand != NONE && depth > 0
        invariant cand == NONE || cand in chains.known
        invariant depth <= chainDepth + 1 && all == seen + Reached(src, chains, cand, pos, depth)
        invariant Best(pos, extendCap, seen, len, off) && MIN_MATCH - 1 <= len < |src| - pos
        invariant cand == NONE || depth == 0 ==> seen == all
        decreases depth
      {
        if cand < pos && pos - cand > MAX_OFFSET {
          ReachedEnds(cand, pos, depth);
          ConcatEmpty(seen);
          break;
        }
        ReachedStep(cand, pos, depth, seen);
        ghost var rest := Reached(src, chains, Next(cand), pos, depth - 1);
        if cand < pos {
          ghost var len0, off0 := len, off;
          len, off := TryCandidate(cand, pos, cap, len, off);
          BestNext(pos, extendCap, seen, len0, off0, pos - cand, len, off);
          seen := seen + [pos - cand];
          if len == |src| - pos {
            BestFull(pos, extendCap, seen, rest, len, off);
            seen := all;
            break;
          }
        } else {
          ConcatEmpty(seen);
        }
        cand := Next(cand);
        depth := depth - 1;
        if cand == NONE || depth == 0 {
          ReachedEnds(cand, pos, depth);
          ConcatEmpty(seen);
        }
      }
      BestIs(pos, extendCap, all, len, off);
      if len < MIN_MATCH {
        len := 0;
      }
    }

    /** One candidate: the one-byte reject, then the compare, then past the cap when it could still win. */
    method TryCandidate(cand: nat, pos: nat, cap: nat, bestLen: nat, bestOff: nat) returns (len: nat, off: nat)
      requires cand < pos && pos + MIN_MATCH + 1 <= |src| && pos - cand <= MAX_OFFSET
      requires 1 <= cap <= |src| - pos && MIN_MATCH - 1 <= bestLen < |src| - pos
      ensures bestLen <= len <= |src| - pos && (len == bestLen ==> off == bestOff)
      ensures len > bestLen ==> IsMatch(src, pos, len, off) && off == pos - cand
      ensures cap == |src| - pos ==> len == Max(bestLen, Common(src, pos, pos - cand, |src| - pos))
    {
      var maxRemain := |src| - pos;
      len, off := bestLen, bestOff;
      CommonRepeats(src, pos, pos - cand, maxRemain);
      if bestLen >= MIN_MATCH && src[cand + bestLen] != src[pos + bestLen] {
        assert !SameAt(src, pos + bestLen, pos - cand);
        return;
      }
      assert SameAt(src, pos, pos - cand) == (src[cand] == src[pos]);
      if src[cand] == src[pos] {
        var n := Extend(src, pos, pos - cand, cap);
        CommonWithin(src, pos, pos - cand, cap, maxRemain);
        if n == cap && cap < maxRemain && n >= bestLen {
          var more := Extend(src, pos + cap, pos - cand, maxRemain - cap);
          CommonSplit(src, pos, pos - cand, cap, maxRemain);
          n := n + more;
        }
        if n > bestLen {
          CommonIsMatch(src, pos, pos - cand, maxRemain, n);
          len, off := n, pos - cand;
        }
      }
    }
  }

  lemma CommonWithin(src: seq<byte>, pos: nat, off: nat, cap: nat, max: nat)
    requires cap <= max && off <= pos && pos + max <= |src|
    ensures Common(src, pos, off, cap) == Min(cap, Common(src, pos, off, max))
  {
    CommonRepeats(src, pos, off, max);
    CommonIs(src, pos, off, cap, Min(cap, Common(src, pos, off, max)));
  }

  /** A repeat that fills the cap goes on past it. */
  lemma CommonSplit(src: seq<byte>, pos: nat, off: nat, cap: nat, max: nat)
    requires cap <= max && off <= pos && pos + max <= |src| && Common(src, pos, off, cap) == cap
    ensures Common(src, pos, off, max) == cap + Common(src, pos + cap, off, max - cap)
  {
    CommonRepeats(src, pos, off, cap);
    CommonRepeats(src, pos + cap, off, max - cap);
    CommonIs(src, pos, off, max, cap + Common(src, pos + cap, off, max - cap));
  }

  /* ---- Remembered offsets ------------------------------------------------ */

  /** The longest repeat at one of the three remembered offsets, 0 if none; empty slots are 0. */
  method RepProbe(src: seq<byte>, pos: nat, rep: seq<nat>) returns (len: nat, off: nat)
    requires |rep| == 3 && forall i :: 0 <= i < 3 ==> rep[i] <= MAX_OFFSET
    ensures len == 0 || (IsMatch(src, pos, len, off) && off in rep)
    ensures pos <= |src| ==> Longest(src, pos, rep, len, off)
  {
    hide Common, Longest, IsMatch;
    len, off := 0, 0;
    if pos + MIN_MATCH > |src| {
      if pos <= |src| { TooLate(src, pos, rep); }
      return;
    }
    var maxLen := |src| - pos;
    LongestNone(src, pos, 0);
    for i := 0 to 3
      invariant len == 0 || (IsMatch(src, pos, len, off) && off in rep)
      invariant Longest(src, pos, rep[..i], len, off)
    {
      var ro := rep[i];
      LongestOne(src, pos, ro);
      var n := 0;
      if ro != 0 && pos >= ro {
        FirstThree(src, pos, ro, maxLen);
        if src[pos..pos + MIN_MATCH] == src[pos - ro..pos - ro + MIN_MATCH] {
          var more := Extend(src, pos + MIN_MATCH, ro, maxLen - MIN_MATCH);
          CommonSplit(src, pos, ro, MIN_MATCH, maxLen);
          n := MIN_MATCH + more;
          CommonIsMatch(src, pos, ro, maxLen, n);
        }
      }
      LongestJoin(src, pos, rep[..i], [ro], len, off, n, ro);
      assert rep[..i + 1] == rep[..i] + [ro];
      if n > len {
        len, off := n, ro;
      }
    }
    assert rep[..3] == rep;
  }

  /** Too near the end for any match. */
  lemma TooLate(src: seq<byte>, pos: nat, offs: seq<nat>)
    requires pos <= |src| < pos + MIN_MATCH
    ensures Longest(src, pos, offs, 0, 0)
  {
    forall i: nat | i < |offs| ensures Beaten(src, pos, offs, i, 0, 0) {
      assert Length(src, pos, offs[i]) < MIN_MATCH;
    }
  }

  /** The three-byte comparison decides whether a repeat is long enough. */
  lemma FirstThree(src: seq<byte>, pos: nat, off: nat, max: nat)
    requires off <= pos && MIN_MATCH <= max && pos + max <= |src|
    ensures src[pos..pos + MIN_MATCH] == src[pos - off..pos - off + MIN_MATCH] <==>
            Common(src, pos, off, max) >= MIN_MATCH
    ensures src[pos..pos + MIN_MATCH] == src[pos - off..pos - off + MIN_MATCH] ==>
            Common(src, pos, off, MIN_MATCH) == MIN_MATCH
  {
    var a, b := src[pos..pos + MIN_MATCH], src[pos - off..pos - off + MIN_MATCH];
    CommonRepeats(src, pos, off, max);
    CommonWithin(src, pos, off, MIN_MATCH, max);
    CommonRepeats(src, pos, off, MIN_MATCH);
    if a == b {
      assert a[0] == b[0] && a[1] == b[1] && a[2] == b[2];
      assert SameAt(src, pos, off) && SameAt(src, pos + 1, off) && SameAt(src, pos + 2, off);
    } else if Common(src, pos, off, max) >= MIN_MATCH {
      ThreeRepeat(src, pos, off);
    }
  }

  lemma ThreeRepeat(src: seq<byte>, pos: nat, off: nat)
    requires off <= pos && pos + MIN_MATCH <= |src| && Repeats(src, pos, off, MIN_MATCH)
    ensures src[pos..pos + MIN_MATCH] == src[pos - off..pos - off + MIN_MATCH]
  {
    assert SameAt(src, pos, off) && SameAt(src, pos + 1, off) && SameAt(src, pos + 2, off);
  }

  /** Moves a used offset to the front, the others one place back. */
  function RepUpdate(rep: seq<nat>, off: nat): (r: seq<nat>)
    requires |rep| == 3
    ensures |r| == 3 && r[0] == off
    ensures forall i :: 0 <= i < 3 ==> r[i] == off || r[i] in rep
  {
    if off == rep[0] then rep
    else if off == rep[1] then [rep[1], rep[0], rep[2]]
    else [off, rep[0], rep[1]]
  }
}
