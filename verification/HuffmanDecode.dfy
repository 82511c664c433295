/**
 * The decoder's reading steps (src/entropy/huffman.c, src/entropy/huffman4.c): the bit-by-bit
 * canonical walk and the table look-ups on the reader's register, each advancing the decoding of the
 * zero-extended stream by exactly the symbols it stores.
 */
module HuffmanDecode {
  import opened Base
  import opened BitString
  import opened BitIO
  import opened HuffmanCode
  import opened HuffmanTables
  import opened HuffmanStream

  /** Everything a decoder builds from the code lengths. */
  datatype Decoder = Decoder(tables: Tables, fast: seq<Hit>, fast2: seq<Pair>)

  predicate DecoderFor(lens: seq<nat>, d: Decoder)
  {
    CodeLengths(lens) && TablesFor(lens, d.tables) && FastTable(lens, d.fast) && PairTable(lens, d.fast2)
  }

  method BuildDecoder(lens: seq<nat>, blCount: seq<nat>) returns (d: Decoder)
    requires CodeLengths(lens) && |blCount| == MAX_LEN + 2
    requires forall l :: 0 <= l <= MAX_LEN ==> blCount[l] == LenCount(lens, l)
    ensures DecoderFor(lens, d)
  {
    var t := BuildTables(lens, blCount);
    var fast := BuildFast(lens, t);
    var fast2 := BuildPairs(lens, fast);
    d := Decoder(t, fast, fast2);
  }

  /** The walk's test at length l, with the bits so far as a number. */
  method TryLength(ghost lens: seq<nat>, t: Tables, ghost w: bits, l: nat, code: nat) returns (hit: bool, sym: byte)
    requires CodeLengths(lens) && TablesFor(lens, t) && 1 <= l <= |w| && l <= MAX_LEN
    requires code == Val(w[..l]) && Val(w[..l - 1]) >= End(lens, l - 1)
    ensures hit ==> WalkFrom(lens, w, l) == Some(Hit(sym, l))
    ensures !hit ==> code >= End(lens, l) && WalkFrom(lens, w, l) == WalkFrom(lens, w, l + 1)
  {
    WalkStep(lens, w, l);
    hit, sym := false, 0;
    if t.blCount[l] != 0 && code < t.firstCode[l] + t.blCount[l] {
      var r := code - t.firstCode[l];
      SortedIsNth(lens, t, l, r);
      hit, sym := true, t.sorted[t.firstSym[l] + r];
    }
  }

  /** One symbol by the canonical bit walk; fails when no code fits in 15 bits. */
  method SlowWalk(ghost lens: seq<nat>, t: Tables, br: BitReader) returns (ok: bool, sym: byte, ghost h: Hit)
    requires CodeLengths(lens) && TablesFor(lens, t) && br.Valid()
    modifies br
    ensures br.Valid()
    ensures ok ==> WalkAt(lens, Stream(br.src), old(br.pos)) == Some(h) && h.sym == sym
    ensures ok ==> br.pos == old(br.pos) + h.len
    ensures !ok ==> WalkAt(lens, Stream(br.src), old(br.pos)) == None
  {
    ghost var p0 := br.pos;
    ghost var w := Window(Stream(br.src), p0, MAX_LEN);
    assert WalkAt(lens, Stream(br.src), p0) == Walk(lens, w);
    var code: nat := 0;
    for l := 1 to MAX_LEN + 1
      invariant br.Valid() && br.pos == p0 + l - 1
      invariant code == Val(w[..l - 1]) >= End(lens, l - 1)
      invariant Walk(lens, w) == WalkFrom(lens, w, l)
    {
      var bit := br.TakeBit();
      assert bit == w[l - 1];
      NextBit(w, l);
      code := 2 * code + if bit then 1 else 0;
      var hit, s := TryLength(lens, t, w, l, code);
      if hit {
        return true, s, Hit(s, l);
      }
    }
    ok, sym, h := false, 0, Hit(0, 0);
  }

  /* ---- Stores ------------------------------------------------------------ */

  /** The i symbols stored from base on, and those still to come, are the whole run. */
  ghost predicate Decoding(whole: run, lens: seq<nat>, br: BitReader, dst: array<byte>, base: nat, i: nat, n: nat)
    reads br, dst
  {
    && |lens| <= NSYMS && br.Valid() && i <= n && base + n <= dst.Length
    && Progress(whole, lens, Stream(br.src), dst[base..base + i], br.pos, n - i)
  }

  /** Storing one more symbol the walk found. */
  lemma StoredOne(whole: run, lens: seq<nat>, s: bits, done: seq<byte>, next: seq<byte>, c: nat, n: nat, h: Hit)
    requires |lens| <= NSYMS && n > 0 && WalkAt(lens, s, c) == Some(h) && h.sym < NSYMS
    requires Progress(whole, lens, s, done, c, n)
    requires |next| == |done| + 1 && next[..|done|] == done && next[|done|] == Sym(h)
    ensures Progress(whole, lens, s, next, c + h.len, n - 1)
  {
    Advance(whole, lens, s, done, c, n, h);
    assert next == done + [Sym(h)];
  }

  lemma StoredTwo(whole: run, lens: seq<nat>, s: bits, done: seq<byte>, next: seq<byte>, c: nat, n: nat, h: Hit, g: Hit)
    requires |lens| <= NSYMS && n > 1 && h.sym < NSYMS && g.sym < NSYMS
    requires WalkAt(lens, s, c) == Some(h) && WalkAt(lens, s, c + h.len) == Some(g)
    requires Progress(whole, lens, s, done, c, n)
    requires |next| == |done| + 2 && next[..|done|] == done && next[|done|] == Sym(h) && next[|done| + 1] == Sym(g)
    ensures Progress(whole, lens, s, next, c + h.len + g.len, n - 2)
  {
    StoredOne(whole, lens, s, done, next[..|done| + 1], c, n, h);
    StoredOne(whole, lens, s, next[..|done| + 1], next, c + h.len, n - 1, g);
  }

  /** The two-symbol entry for the register's window. */
  method PeekPair(fast2: seq<Pair>, br: BitReader) returns (p: Pair)
    requires |fast2| == FAST_SIZE && br.Valid() && br.Ready(FAST_BITS)
    ensures p == EntryAt(fast2, Stream(br.src), br.pos)
  {
    br.ReadyWindow(FAST_BITS);
    WindowIndex(Stream(br.src), br.pos);
    p := fast2[Val(br.reg[..FAST_BITS])];
  }

  method PeekFast(fast: seq<Hit>, br: BitReader) returns (h: Hit)
    requires |fast| == FAST_SIZE && br.Valid() && br.Ready(FAST_BITS)
    ensures h == EntryAt(fast, Stream(br.src), br.pos)
  {
    br.ReadyWindow(FAST_BITS);
    WindowIndex(Stream(br.src), br.pos);
    h := fast[Val(br.reg[..FAST_BITS])];
  }

  /** Stores the symbol the walk finds here and moves past its code. */
  method EmitOne(ghost lens: seq<nat>, br: BitReader, dst: array<byte>, base: nat, i: nat, n: nat,
                 ghost whole: run, h: Hit)
    requires Decoding(whole, lens, br, dst, base, i, n) && i < n
    requires WalkAt(lens, Stream(br.src), br.pos) == Some(h) && br.Ready(h.len) && h.sym < NSYMS
    modifies br, dst
    ensures Decoding(whole, lens, br, dst, base, i + 1, n)
    ensures br.nbits == old(br.nbits) - h.len && br.ptr == old(br.ptr)
    ensures forall k :: 0 <= k < dst.Length && k != base + i ==> dst[k] == old(dst[k])
  {
    ghost var s, c, done := Stream(br.src), br.pos, dst[base..base + i];
    dst[base + i] := h.sym;
    br.Consume(h.len);
    StoredOne(whole, lens, s, done, dst[base..base + i + 1], c, n - i, h);
  }

  method EmitTwo(ghost lens: seq<nat>, br: BitReader, dst: array<byte>, base: nat, i: nat, n: nat,
                 ghost whole: run, h: Hit, g: Hit)
    requires Decoding(whole, lens, br, dst, base, i, n) && i + 1 < n
    requires WalkAt(lens, Stream(br.src), br.pos) == Some(h) && h.sym < NSYMS
    requires WalkAt(lens, Stream(br.src), br.pos + h.len) == Some(g) && g.sym < NSYMS
    requires h.len + g.len <= 64 && br.Ready(h.len + g.len)
    modifies br, dst
    ensures Decoding(whole, lens, br, dst, base, i + 2, n)
    ensures br.nbits == old(br.nbits) - h.len - g.len && br.ptr == old(br.ptr)
    ensures forall k :: 0 <= k < dst.Length && k != base + i && k != base + i + 1 ==> dst[k] == old(dst[k])
  {
    hide WalkAt, Stream, DecodeSyms;
    ghost var s, c, done := Stream(br.src), br.pos, dst[base..base + i];
    dst[base + i] := h.sym;
    dst[base + i + 1] := g.sym;
    br.Consume(h.len + g.len);
    StoredTwo(whole, lens, s, done, dst[base..base + i + 2], c, n - i, h, g);
  }

  /** One or two symbols through the two-symbol table; none when the entry sends us to the walk. */
  method PairStep(ghost lens: seq<nat>, fast2: seq<Pair>, br: BitReader, dst: array<byte>, base: nat, i: nat, n: nat,
                  ghost whole: run) returns (j: nat)
    requires Decoding(whole, lens, br, dst, base, i, n) && i + 1 < n
    requires PairTable(lens, fast2) && br.Ready(FAST_BITS)
    modifies br, dst
    ensures i <= j <= i + 2 && Decoding(whole, lens, br, dst, base, j, n)
    ensures forall k :: 0 <= k < dst.Length && !(base + i <= k < base + j) ==> dst[k] == old(dst[k])
    ensures j == i ==> br.nbits == old(br.nbits)
  {
    var p := PeekPair(fast2, br);
    if p.total == 0 {
      return i;
    }
    PairHit(lens, Stream(br.src), br.pos, fast2);
    hide WalkAt, Stream, DecodeSyms, Progress, PairTable, EntryAt;
    if p.len1 != 0 {
      EmitTwo(lens, br, dst, base, i, n, whole, Hit(p.s0, p.total - p.len1), Hit(p.s1, p.len1));
      j := i + 2;
    } else {
      EmitOne(lens, br, dst, base, i, n, whole, Hit(p.s0, p.total));
      j := i + 1;
    }
  }

  /** One symbol through the one-symbol table; none when the entry sends us to the walk. */
  method FastStep(ghost lens: seq<nat>, fast: seq<Hit>, br: BitReader, dst: array<byte>, base: nat, i: nat, n: nat,
                  ghost whole: run) returns (j: nat)
    requires Decoding(whole, lens, br, dst, base, i, n) && i < n
    requires FastTable(lens, fast) && br.Ready(FAST_BITS)
    modifies br, dst
    ensures i <= j <= i + 1 && Decoding(whole, lens, br, dst, base, j, n)
    ensures forall k :: 0 <= k < dst.Length && !(base + i <= k < base + j) ==> dst[k] == old(dst[k])
  {
    var h := PeekFast(fast, br);
    if h.len == 0 {
      return i;
    }
    FastHit(lens, Stream(br.src), br.pos, fast);
    EmitOne(lens, br, dst, base, i, n, whole, h);
    j := i + 1;
  }

  /** One symbol by the walk; failure means the whole run fails. */
  method SlowStep(ghost lens: seq<nat>, t: Tables, br: BitReader, dst: array<byte>, base: nat, i: nat, n: nat,
                  ghost whole: run) returns (ok: bool)
    requires Decoding(whole, lens, br, dst, base, i, n) && i < n
    requires CodeLengths(lens) && TablesFor(lens, t)
    modifies br, dst
    ensures ok ==> Decoding(whole, lens, br, dst, base, i + 1, n)
    ensures !ok ==> whole == None
    ensures forall k :: 0 <= k < dst.Length && k != base + i ==> dst[k] == old(dst[k])
  {
    ghost var s, c, done := Stream(br.src), br.pos, dst[base..base + i];
    var found, sym, h := SlowWalk(lens, t, br);
    assert dst[base..base + i] == done;
    if !found {
      ReadNone(lens, s, c, n - i);
      return false;
    }
    StoreWalked(lens, br, dst, base, i, n, whole, h, sym, c);
    ok := true;
  }

  /** Stores a symbol whose code has just been read. */
  method StoreWalked(ghost lens: seq<nat>, br: BitReader, dst: array<byte>, base: nat, i: nat, n: nat,
                     ghost whole: run, ghost h: Hit, sym: byte, ghost c: nat)
    requires |lens| <= NSYMS && br.Valid() && i < n && base + n <= dst.Length
    requires Progress(whole, lens, Stream(br.src), dst[base..base + i], c, n - i)
    requires WalkAt(lens, Stream(br.src), c) == Some(h) && h.sym == sym && br.pos == c + h.len
    modifies dst
    ensures Decoding(whole, lens, br, dst, base, i + 1, n)
    ensures forall k :: 0 <= k < dst.Length && k != base + i ==> dst[k] == old(dst[k])
  {
    ghost var done := dst[base..base + i];
    dst[base + i] := sym;
    StoredOne(whole, lens, Stream(br.src), done, dst[base..base + i + 1], c, n - i, h);
  }
}
