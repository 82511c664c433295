/**
 * What a canonically coded bit stream means: the concatenation of codes, and reading symbols off it
 * one walk at a time. The stream counts as followed by zeros, as the decoder's register shows it.
 */
module HuffmanStream {
  import opened Base
  import opened BitString
  import opened HuffmanCode
  import opened HuffmanTables

  /** Every byte of the input has a code. */
  predicate Coded(lens: seq<nat>, src: seq<byte>)
  {
    forall i {:trigger src[i]} :: 0 <= i < |src| ==> src[i] < |lens| && lens[src[i]] > 0
  }

  /** The codes of the input, one after the other. */
  function CodeStream(lens: seq<nat>, src: seq<byte>): bits
    requires Coded(lens, src)
  {
    if src == [] then []
    else CodeStream(lens, src[..|src| - 1]) + CodeBits(lens, src[|src| - 1])
  }

  lemma {:induction false} CodeStreamConcat(lens: seq<nat>, a: seq<byte>, b: seq<byte>)
    requires Coded(lens, a) && Coded(lens, b)
    ensures Coded(lens, a + b)
    ensures CodeStream(lens, a + b) == CodeStream(lens, a) + CodeStream(lens, b)
  {
    if b == [] {
      ConcatEmpty(a);
      ConcatEmpty(CodeStream(lens, a));
    } else {
      CodeStreamConcat(lens, a, b[..|b| - 1]);
      FrontOfConcat(a, b);
      ConcatAssociative(CodeStream(lens, a), CodeStream(lens, b[..|b| - 1]), CodeBits(lens, b[|b| - 1]));
    }
  }

  /** The symbols read and the bit position after them. */
  type run = Option<(seq<byte>, nat)>

  function Prepend(front: seq<byte>, r: run): run
  {
    match r
    case None => None
    case Some((syms, c)) => Some((front + syms, c))
  }

  lemma PrependTwice(a: seq<byte>, b: seq<byte>, r: run)
    ensures Prepend(a, Prepend(b, r)) == Prepend(a + b, r)
    ensures Prepend([], r) == r
  {
    if r.Some? {
      assert a + (b + r.value.0) == (a + b) + r.value.0;
      assert [] + r.value.0 == r.value.0;
    }
  }

  /** The walk at bit c of the zero-extended stream. */
  function WalkAt(lens: seq<nat>, s: bits, c: nat): (r: Option<Hit>)
    requires |lens| <= NSYMS
    ensures r.Some? ==> 1 <= r.value.len <= MAX_LEN && r.value.sym < |lens|
  {
    Walk(lens, Window(s, c, MAX_LEN))
  }

  function Sym(h: Hit): byte
    requires h.sym < NSYMS
  {
    h.sym
  }

  /** n symbols from bit c. */
  function DecodeSyms(lens: seq<nat>, s: bits, c: nat, n: nat): (r: run)
    requires |lens| <= NSYMS
    ensures r.Some? ==> |r.value.0| == n
    decreases n
  {
    if n == 0 then Some(([], c))
    else
      match WalkAt(lens, s, c)
      case None => None
      case Some(h) => Prepend([Sym(h)], DecodeSyms(lens, s, c + h.len, n - 1))
  }

  lemma ReadOne(lens: seq<nat>, s: bits, c: nat, n: nat, h: Hit)
    requires |lens| <= NSYMS && n > 0 && WalkAt(lens, s, c) == Some(h)
    ensures h.sym < NSYMS
    ensures DecodeSyms(lens, s, c, n) == Prepend([Sym(h)], DecodeSyms(lens, s, c + h.len, n - 1))
  {
  }

  /** A decoding in progress: the symbols so far followed by those still to be read are the whole. */
  predicate Progress(whole: run, lens: seq<nat>, s: bits, done: seq<byte>, c: nat, n: nat)
    requires |lens| <= NSYMS
  {
    whole == Prepend(done, DecodeSyms(lens, s, c, n))
  }

  lemma Advance(whole: run, lens: seq<nat>, s: bits, done: seq<byte>, c: nat, n: nat, h: Hit)
    requires |lens| <= NSYMS && n > 0 && WalkAt(lens, s, c) == Some(h)
    requires Progress(whole, lens, s, done, c, n)
    ensures h.sym < NSYMS && Progress(whole, lens, s, done + [Sym(h)], c + h.len, n - 1)
  {
    ReadOne(lens, s, c, n, h);
    PrependTwice(done, [Sym(h)], DecodeSyms(lens, s, c + h.len, n - 1));
  }

  lemma ReadNone(lens: seq<nat>, s: bits, c: nat, n: nat)
    requires |lens| <= NSYMS && n > 0 && WalkAt(lens, s, c) == None
    ensures DecodeSyms(lens, s, c, n) == None
  {
  }

  /** A code standing at bit c is what the walk there finds. */
  lemma WalkAtCode(lens: seq<nat>, s: bits, c: nat, sym: nat)
    requires CodeLengths(lens) && sym < |lens| && lens[sym] > 0
    requires c + lens[sym] <= |s| && s[c..c + lens[sym]] == CodeBits(lens, sym)
    ensures WalkAt(lens, s, c) == Some(Hit(sym, lens[sym]))
  {
    assert Window(s, c, MAX_LEN)[..lens[sym]] == s[c..c + lens[sym]];
    WalkReadsCode(lens, Window(s, c, MAX_LEN), sym);
  }

  lemma CodeStreamHead(lens: seq<nat>, src: seq<byte>)
    requires Coded(lens, src) && src != []
    ensures Coded(lens, src[1..])
    ensures CodeStream(lens, src) == CodeBits(lens, src[0]) + CodeStream(lens, src[1..])
  {
    assert src == [src[0]] + src[1..];
    CodeStreamConcat(lens, [src[0]], src[1..]);
    assert CodeStream(lens, [src[0]]) == CodeStream(lens, [src[0]][..0]) + CodeBits(lens, src[0]);
    assert CodeStream(lens, [src[0]][..0]) == [];
  }

  /** A stream of codes reads back as the symbols it was made from. */
  lemma {:induction false} StreamReads(lens: seq<nat>, s: bits, c: nat, src: seq<byte>)
    requires CodeLengths(lens) && Coded(lens, src)
    requires c + |CodeStream(lens, src)| <= |s|
    requires s[c..c + |CodeStream(lens, src)|] == CodeStream(lens, src)
    ensures DecodeSyms(lens, s, c, |src|) == Some((src, c + |CodeStream(lens, src)|))
    decreases |src|
  {
    hide CodeBits, CodeLengths, CodeStream, DecodeSyms, Coded;
    if src == [] {
      ReadEmpty(lens, s, c, src);
    } else {
      CodeStreamHead(lens, src);
      CodedHead(lens, src);
      var head, rest := CodeBits(lens, src[0]), CodeStream(lens, src[1..]);
      SplitSlice(s, c, head, rest);
      StreamReads(lens, s, c + |head|, src[1..]);
      ReadHead(lens, s, c, src, c + |head| + |rest|);
    }
  }

  lemma CodedHead(lens: seq<nat>, src: seq<byte>)
    requires Coded(lens, src) && src != []
    ensures src[0] < |lens| && lens[src[0]] > 0
  {
  }

  lemma ReadEmpty(lens: seq<nat>, s: bits, c: nat, src: seq<byte>)
    requires Coded(lens, src) && src == [] && CodeLengths(lens) && c <= |s|
    ensures CodeStream(lens, src) == [] && DecodeSyms(lens, s, c, 0) == Some(([], c))
  {
  }

  lemma ReadHead(lens: seq<nat>, s: bits, c: nat, src: seq<byte>, end: nat)
    requires CodeLengths(lens) && Coded(lens, src) && src != []
    requires c + |CodeBits(lens, src[0])| <= |s| && s[c..c + |CodeBits(lens, src[0])|] == CodeBits(lens, src[0])
    requires DecodeSyms(lens, s, c + |CodeBits(lens, src[0])|, |src[1..]|) == Some((src[1..], end))
    ensures DecodeSyms(lens, s, c, |src|) == Some((src, end))
  {
    WalkAtCode(lens, s, c, src[0]);
    ReadOne(lens, s, c, |src|, Hit(src[0], lens[src[0]]));
    assert src == [src[0]] + src[1..];
  }

  lemma SplitSlice(s: bits, c: nat, a: bits, b: bits)
    requires c + |a| + |b| <= |s| && s[c..c + |a| + |b|] == a + b
    ensures s[c..c + |a|] == a && s[c + |a|..c + |a| + |b|] == b
  {
    assert s[c..c + |a| + |b|][..|a|] == s[c..c + |a|];
    assert s[c..c + |a| + |b|][|a|..] == s[c + |a|..c + |a| + |b|];
  }

  /* ---- Reading through the window tables --------------------------------- */

  /** A hit inside the 11-bit window is the walk's hit. */
  lemma WindowHit(lens: seq<nat>, s: bits, c: nat, k: nat)
    requires |lens| <= NSYMS && k <= MAX_LEN && Walk(lens, Window(s, c, k)).Some?
    ensures WalkAt(lens, s, c) == Walk(lens, Window(s, c, k))
  {
    var b := Window(s, c, k);
    var h := Walk(lens, b).value;
    assert Window(s, c, MAX_LEN)[..h.len] == b[..h.len];
    WalkPrefix(lens, b, Window(s, c, MAX_LEN));
  }

  lemma WindowIndex(s: bits, c: nat)
    ensures Val(Window(s, c, FAST_BITS)) < FAST_SIZE
    ensures Bits(Val(Window(s, c, FAST_BITS)), FAST_BITS) == Window(s, c, FAST_BITS)
  {
    ValBound(Window(s, c, FAST_BITS));
    assert Pow2(FAST_BITS) == FAST_SIZE;
    BitsOfVal(Window(s, c, FAST_BITS));
  }

  /** The table entry for the window at bit c. */
  function EntryAt<T>(table: seq<T>, s: bits, c: nat): T
    requires |table| == FAST_SIZE
  {
    WindowIndex(s, c);
    table[Val(Window(s, c, FAST_BITS))]
  }

  /** A non-empty entry of the one-symbol table is the walk's hit. */
  lemma FastHit(lens: seq<nat>, s: bits, c: nat, fast: seq<Hit>)
    requires |lens| <= NSYMS && FastTable(lens, fast)
    requires EntryAt(fast, s, c).len != 0
    ensures WalkAt(lens, s, c) == Some(EntryAt(fast, s, c)) && EntryAt(fast, s, c).len <= FAST_BITS
  {
    WindowIndex(s, c);
    assert EntryAt(fast, s, c) == FastOf(lens, Val(Window(s, c, FAST_BITS)));
    WindowHit(lens, s, c, FAST_BITS);
  }

  /** A non-empty entry of the two-symbol table is one walk's hit, or two walks' hits in a row. */
  lemma PairHit(lens: seq<nat>, s: bits, c: nat, fast2: seq<Pair>)
    requires |lens| <= NSYMS && PairTable(lens, fast2)
    requires EntryAt(fast2, s, c).total != 0
    ensures var p := EntryAt(fast2, s, c);
            && p.s1 < NSYMS && p.len1 < p.total <= FAST_BITS
            && WalkAt(lens, s, c) == Some(Hit(p.s0, p.total - p.len1))
            && (p.len1 != 0 ==> WalkAt(lens, s, c + (p.total - p.len1)) == Some(Hit(p.s1, p.len1)))
  {
    WindowIndex(s, c);
    var w := Window(s, c, FAST_BITS);
    var p := EntryAt(fast2, s, c);
    assert PairMeans(lens, w, p);
    WindowHit(lens, s, c, FAST_BITS);
    if p.len1 != 0 {
      SecondHit(lens, s, c, p.total - p.len1);
    }
  }

  lemma SecondHit(lens: seq<nat>, s: bits, c: nat, l: nat)
    requires |lens| <= NSYMS && l <= FAST_BITS
    requires Walk(lens, Window(s, c, FAST_BITS)[l..]).Some?
    ensures WalkAt(lens, s, c + l) == Walk(lens, Window(s, c, FAST_BITS)[l..])
  {
    assert Window(s, c, FAST_BITS)[l..] == Window(s, c + l, FAST_BITS - l);
    WindowHit(lens, s, c + l, FAST_BITS - l);
  }
}
