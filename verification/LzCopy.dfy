/**
 * Overlapping match copies (src/core/simd.h, src/entropy/lz.c): the wide copies and the doubling copies
 * all equal the byte-by-byte copy of LZ77, and spill at most a fixed slack past the match.
 */
module LzCopy {
  import opened Base

  /** What can go wrong in a copy: it never ends, or it goes past the bytes that were checked for. */
  datatype Trouble = Nothing | Endless | Overrun

  /** Bytes the widest copy may write past the end of a match. */
  function Slack(avx2: bool): nat
  {
    if avx2 then 31 else 15
  }

  /** The LZ77 copy: each byte is the one off places before it. */
  function Extended(out: seq<byte>, off: nat, n: nat): (r: seq<byte>)
    requires 1 <= off <= |out|
    ensures |r| == |out| + n && r[..|out|] == out
    ensures forall k {:trigger r[k]} :: |out| <= k < |r| ==> r[k] == r[k - off]
  {
    if n == 0 then out
    else
      var r := Extended(out, off, n - 1);
      r + [r[|r| - off]]
  }

  /** Nothing else satisfies the description of that copy. */
  lemma {:induction false} ExtendedUnique(out: seq<byte>, off: nat, n: nat, r: seq<byte>)
    requires 1 <= off <= |out| && |r| == |out| + n && r[..|out|] == out
    requires forall k {:trigger r[k]} :: |out| <= k < |r| ==> r[k] == r[k - off]
    ensures r == Extended(out, off, n)
  {
    if n > 0 {
      var s := r[..|r| - 1];
      assert s[..|out|] == out;
      forall k | |out| <= k < |s| ensures s[k] == s[k - off] {
        assert r[k] == r[k - off];
      }
      ExtendedUnique(out, off, n - 1, s);
      assert r == s + [r[|r| - 1]];
    } else {
      assert r == r[..|out|];
    }
  }

  /** Up to position op + n the array continues with the off-byte pattern before op. */
  ghost predicate Patterned(dst: array<byte>, before: seq<byte>, op: nat, off: nat, n: nat)
    reads dst
  {
    && 1 <= off <= op <= |before| && |before| == dst.Length && op + n <= dst.Length
    && dst[..op] == before[..op]
    && forall k {:trigger dst[k]} :: op <= k < op + n ==> dst[k] == before[op - off + (k - op) % off]
  }

  /** Outside [lo, hi) the array is as it was. */
  ghost predicate Only(dst: array<byte>, before: seq<byte>, lo: nat, hi: nat)
    reads dst
  {
    |before| == dst.Length && forall k {:trigger dst[k]} :: 0 <= k < dst.Length && !(lo <= k < hi) ==>
      dst[k] == before[k]
  }

  lemma ModShift(k: nat, off: nat)
    requires off >= 1
    ensures (k + off) % off == k % off
  {
    var q, r := k / off, k % off;
    assert k + off == (q + 1) * off + r by { MulDistribute(q, 1, off); }
    DivModUnique(q + 1, off, r);
  }

  lemma {:induction false} ModMultiple(k: nat, off: nat, c: nat)
    requires off >= 1
    ensures c * off >= 0 && (k + c * off) % off == k % off
  {
    if c > 0 {
      ModMultiple(k, off, c - 1);
      MulDistribute(c - 1, 1, off);
      ModShift(k + (c - 1) * off, off);
    }
  }

  /** A repeated pattern is the LZ77 copy. */
  lemma PatternIsExtended(dst: array<byte>, before: seq<byte>, op: nat, off: nat, n: nat)
    requires Patterned(dst, before, op, off, n)
    ensures dst[..op + n] == Extended(before[..op], off, n)
  {
    var r := dst[..op + n];
    assert r[..op] == dst[..op];
    forall k | op <= k < op + n ensures r[k] == r[k - off] {
      if k - op < off {
        assert (k - op) % off == k - op by { DivModUnique(0, off, k - op); }
        assert before[..op][k - off] == dst[..op][k - off];
      } else {
        ModShift(k - op - off, off);
        assert dst[k - off] == before[op - off + (k - off - op) % off];
      }
    }
    ExtendedUnique(before[..op], off, n, r);
  }

  /** A block copied a whole number of periods forward continues the pattern. */
  lemma PatternGrows(dst: array<byte>, was: seq<byte>, before: seq<byte>, op: nat, off: nat, n: nat, filled: nat,
                     c: nat, w: nat)
    requires |was| == dst.Length == |before| && 1 <= off <= op && filled == c * off && w <= filled <= n
    requires op + n + w <= dst.Length && op <= |before|
    requires forall k {:trigger was[k]} :: op <= k < op + n ==> was[k] == before[op - off + (k - op) % off]
    requires was[..op] == before[..op]
    requires forall k {:trigger dst[k]} :: 0 <= k < dst.Length ==>
               dst[k] == if op + n <= k < op + n + w then was[k - filled] else was[k]
    ensures Patterned(dst, before, op, off, n + w)
  {
    forall k | op <= k < op + n + w ensures dst[k] == before[op - off + (k - op) % off] {
      if k >= op + n {
        ModMultiple(k - filled - op, off, c);
        assert was[k - filled] == before[op - off + (k - filled - op) % off];
      }
    }
    assert dst[..op] == was[..op];
  }

  /** Copies w bytes at once: all of them are read before any is written. */
  method CopyBlock(dst: array<byte>, to: nat, from: nat, w: nat)
    requires to + w <= dst.Length && from + w <= dst.Length
    modifies dst
    ensures forall k {:trigger dst[k]} :: 0 <= k < dst.Length ==>
              dst[k] == if to <= k < to + w then old(dst[..])[from + (k - to)] else old(dst[k])
  {
    var block := dst[from..from + w];
    forall k | 0 <= k < w {
      dst[to + k] := block[k];
    }
  }

  /** Bytes written for n in blocks of w: the last block in full, and one block even for none. */
  function Blocks(n: nat, w: nat): (r: nat)
    requires w >= 1
    ensures n <= r < Max(n, 1) + w
  {
    if n <= w then w else w + Blocks(n - w, w)
  }

  /** Copies in blocks of w bytes from off >= w back; end is where the last block ends. */
  method WildCopy(dst: array<byte>, op: nat, off: nat, n: nat, w: nat) returns (end: nat)
    requires 1 <= w <= off <= op && op + Blocks(n, w) <= dst.Length
    modifies dst
    ensures end == op + Blocks(n, w)
    ensures dst[..op + n] == Extended(old(dst[..op]), off, n) && Only(dst, old(dst[..]), op, end)
  {
    ghost var before := dst[..];
    end := op;
    var done := false;
    while !done
      invariant op <= end && if done then end == op + Blocks(n, w) else end <= op + n
      invariant !done ==> end + Blocks(op + n - end, w) == op + Blocks(n, w)
      invariant dst[..op] == before[..op] && Only(dst, before, op, end)
      invariant forall k {:trigger dst[k]} :: op <= k < end ==> dst[k] == dst[k - off]
      decreases op + n + w - end, !done
    {
      ghost var was := dst[..];
      CopyBlock(dst, end, end - off, w);
      forall k | op <= k < end + w ensures dst[k] == dst[k - off] {
        if k < end {
          assert was[k] == was[k - off];
        }
      }
      assert dst[..op] == was[..op];
      end := end + w;
      done := end >= op + n;
    }
    ghost var r := dst[..op + n];
    assert r[..op] == before[..op];
    forall k | op <= k < op + n ensures r[k] == r[k - off] {
      assert dst[k] == dst[k - off];
    }
    ExtendedUnique(before[..op], off, n, r);
  }

  /** Seeds the pattern: the first off bytes, one at a time. */
  method SeedPattern(dst: array<byte>, op: nat, off: nat)
    requires 1 <= off <= op && op + off <= dst.Length
    modifies dst
    ensures Patterned(dst, old(dst[..]), op, off, off) && Only(dst, old(dst[..]), op, op + off)
  {
    ghost var before := dst[..];
    for k := 0 to off
      invariant Only(dst, before, op, op + k) && dst[..op] == before[..op]
      invariant forall i {:trigger dst[i]} :: op <= i < op + k ==> dst[i] == before[i - off]
    {
      dst[op + k] := dst[op + k - off];
    }
    forall i | op <= i < op + off ensures dst[i] == before[op - off + (i - op) % off] {
      DivModUnique(0, off, i - op);
    }
  }

  /** One more block of a pattern of whole periods; c of them are in place. */
  method GrowPattern(dst: array<byte>, ghost before: seq<byte>, op: nat, off: nat, n: nat, filled: nat, ghost c: nat,
                     w: nat)
    requires Patterned(dst, before, op, off, n) && filled == c * off && w <= filled <= n && op + n + w <= dst.Length
    requires Only(dst, before, op, op + n)
    modifies dst
    ensures Patterned(dst, before, op, off, n + w) && Only(dst, before, op, op + n + w)
  {
    ghost var was := dst[..];
    CopyBlock(dst, op + n, op + n - filled, w);
    PatternGrows(dst, was, before, op, off, n, filled, c, w);
  }

  /** Twice as many periods. */
  lemma DoublePeriods(c: nat, off: nat)
    ensures (2 * c) * off == c * off + c * off
  {
  }

  /** Bytes of pattern after doubling: 16 or more, or all n. */
  function Doubled(filled: nat, n: nat): (r: nat)
    requires filled >= 1
    ensures filled <= r <= Max(filled, n) && (r < n ==> r >= 16)
    decreases n - filled
  {
    if filled >= 16 || filled >= n then filled else Doubled(Min(2 * filled, n), n)
  }

  /** Bytes written for a match at an offset below 8; the seed is written in full. */
  function SmallReach(off: nat, n: nat): (r: nat)
    requires off >= 1
    ensures n <= r < Max(off, n) + 16
  {
    var filled := Doubled(off, n);
    if filled >= n then filled else filled + Blocks(n - filled, 16)
  }

  /** Seeds the pattern and doubles it to 16 bytes or all n. */
  method DoubleUp(dst: array<byte>, op: nat, off: nat, n: nat) returns (filled: nat, ghost c: nat)
    requires 1 <= off <= op && op + Doubled(off, n) <= dst.Length
    modifies dst
    ensures filled == Doubled(off, n) && Patterned(dst, old(dst[..]), op, off, filled)
    ensures Only(dst, old(dst[..]), op, op + filled) && (filled < n ==> filled == c * off)
  {
    ghost var before := dst[..];
    SeedPattern(dst, op, off);
    filled := off;
    c := 1;
    while filled < 16 && filled < n
      invariant off <= filled && Patterned(dst, before, op, off, filled)
      invariant Doubled(filled, n) == Doubled(off, n)
      invariant Only(dst, before, op, op + filled) && (filled < n ==> filled == c * off)
      decreases n - filled
    {
      var chunk := filled;
      if filled + chunk > n { chunk := n - filled; }
      GrowPattern(dst, before, op, off, filled, filled, c, chunk);
      DoublePeriods(c, off);
      filled := filled + chunk;
      c := 2 * c;
    }
  }

  /** Offsets below 8: a pattern of 16 bytes, then copies of 16 at a time. */
  method SmallCopy(dst: array<byte>, op: nat, off: nat, n: nat) returns (end: nat)
    requires 1 <= off < 8 && off <= op && op + SmallReach(off, n) <= dst.Length
    modifies dst
    ensures end == op + SmallReach(off, n)
    ensures dst[..op + n] == Extended(old(dst[..op]), off, n) && Only(dst, old(dst[..]), op, end)
  {
    hide Doubled, Extended;
    ghost var before := dst[..];
    ghost var c;
    var filled;
    filled, c := DoubleUp(dst, op, off, n);
    var done := filled;
    while done < n
      invariant filled <= done && Patterned(dst, before, op, off, done)
      invariant Only(dst, before, op, op + done) && (done < n ==> filled >= 16 && filled == c * off)
      invariant SmallReach(off, n) == if done < n then done + Blocks(n - done, 16) else done
      decreases n - done
    {
      GrowPattern(dst, before, op, off, done, filled, c, 16);
      done := done + 16;
    }
    ShorterPattern(dst, before, op, off, done, n);
    end := op + done;
  }

  lemma ShorterPattern(dst: array<byte>, before: seq<byte>, op: nat, off: nat, done: nat, n: nat)
    requires Patterned(dst, before, op, off, done) && n <= done
    ensures dst[..op + n] == Extended(before[..op], off, n)
  {
    assert Patterned(dst, before, op, off, n);
    PatternIsExtended(dst, before, op, off, n);
  }

  /** The match of a sequence; a length that wrapped to 0 copies nothing, whatever the offset. */
  function Copied(out: seq<byte>, off: nat, n: nat): (r: seq<byte>)
    requires n == 0 || 1 <= off <= |out|
    ensures |r| == |out| + n
  {
    if n == 0 then out else Extended(out, off, n)
  }

  /** Bytes the fast decoder's copy writes for a match, past its end included; nothing ever at offset 0. */
  function Reach(off: nat, n: nat, avx2: bool): (r: nat)
    ensures off >= 1 ==> n <= r <= Max(n, 1) + Slack(avx2)
  {
    if avx2 && off >= 32 then Blocks(n, 32)
    else if off >= 16 then Blocks(n, 16)
    else if off >= 8 then Blocks(n, 8)
    else if off >= 1 then SmallReach(off, n)
    else 0
  }

  /**
   * The fast decoder's copy, by offset: blocks of 32, 16 or 8 bytes, or the seeded pattern. Of a match of no
   * bytes it still copies one block, which can be a byte wider than the slack. It ends where Reach says.
   */
  method MatchCopy(dst: array<byte>, op: nat, off: nat, n: nat, avx2: bool) returns (end: nat)
    requires off <= op && (off >= 1 || n == 0) && op + Reach(off, n, avx2) <= dst.Length
    modifies dst
    ensures end == op + Reach(off, n, avx2)
    ensures dst[..op + n] == Copied(old(dst[..op]), off, n) && Only(dst, old(dst[..]), op, end)
  {
    if avx2 && off >= 32 {
      end := WildCopy(dst, op, off, n, 32);
    } else if off >= 16 {
      end := WildCopy(dst, op, off, n, 16);
    } else if off >= 8 {
      end := WildCopy(dst, op, off, n, 8);
    } else if off >= 1 {
      end := SmallCopy(dst, op, off, n);
    } else {
      end := op;
    }
  }

  /** Doubling from `filled` bytes reaches 2^31 short of n: the next sum no longer fits 32 bits. */
  predicate DoublesPast(filled: nat, n: nat)
    decreases n - filled
  {
    0 < filled < n && (filled >= 0x8000_0000 || DoublesPast(2 * filled, n))
  }

  /** What the safe decoder's copy runs into. */
  function CopyTrouble(off: nat, n: nat): Trouble
  {
    if n <= off then Nothing
    else if off == 0 then Endless
    else if DoublesPast(off, n) then Overrun
    else Nothing
  }

  lemma {:induction false} ShortDoubles(filled: nat, n: nat)
    requires n <= 0x8000_0000
    ensures !DoublesPast(filled, n)
    decreases n - filled
  {
    if 0 < filled < n {
      ShortDoubles(2 * filled, n);
    }
  }

  /** Matches of up to 2^31 bytes at a real offset are copied without trouble. */
  lemma ShortCopies(off: nat, n: nat)
    requires off >= 1 && n <= 0x8000_0000
    ensures CopyTrouble(off, n) == Nothing
  {
    ShortDoubles(off, n);
  }

  /** The next block of the doubling: 32-bit sums clamp it exactly when doubling has not gone past. */
  lemma NextBlock(filled: nat, n: nat)
    requires 0 < filled < n < U32_LIMIT
    ensures var chunk := if LowU32(filled + filled) > n then n - filled else filled;
            if filled >= 0x8000_0000 then DoublesPast(filled, n) && filled + chunk > n
            else filled + chunk <= n && DoublesPast(filled, n) == DoublesPast(filled + chunk, n)
                 && (filled + chunk < n ==> chunk == filled)
  {
  }

  /** Doubles the seeded pattern up to n bytes; stopped where a block would pass the end of the match. */
  method DoublePattern(dst: array<byte>, ghost before: seq<byte>, op: nat, off: nat, n: nat) returns (ok: bool)
    requires off < n < U32_LIMIT && Patterned(dst, before, op, off, off) && Only(dst, before, op, op + off)
    requires op + n <= dst.Length
    modifies dst
    ensures ok == !DoublesPast(off, n)
    ensures ok ==> Patterned(dst, before, op, off, n) && Only(dst, before, op, op + n)
  {
    hide DoublesPast, LowU32;
    var filled := off;
    ghost var c := 1;
    while filled < n
      invariant off <= filled <= n && Patterned(dst, before, op, off, filled)
      invariant Only(dst, before, op, op + filled) && (filled < n ==> filled == c * off)
      invariant DoublesPast(off, n) == DoublesPast(filled, n)
    {
      NextBlock(filled, n);
      var chunk := filled;
      if LowU32(filled + chunk) > n { chunk := n - filled; }
      if filled + chunk > n {
        return false;
      }
      GrowPattern(dst, before, op, off, filled, filled, c, chunk);
      DoublePeriods(c, off);
      filled := filled + chunk;
      c := 2 * c;
    }
    NoneLeft(n);
    ok := true;
  }

  lemma NoneLeft(n: nat)
    ensures !DoublesPast(n, n)
  {
  }

  /**
   * The safe decoder's copy: exact, by doubling when source and destination overlap. Its sums have 32 bits;
   * it is stopped where a block of no bytes would repeat, or a block would pass the end of the match.
   */
  method SafeCopy(dst: array<byte>, op: nat, off: nat, n: nat) returns (t: Trouble)
    requires off <= op && op + n <= dst.Length < U32_LIMIT
    modifies dst
    ensures t == CopyTrouble(off, n)
    ensures t == Nothing ==> dst[..op + n] == Copied(old(dst[..op]), off, n) && Only(dst, old(dst[..]), op, op + n)
  {
    hide DoublesPast, Patterned;
    ghost var before := dst[..];
    if off >= n {
      CopyBlock(dst, op, op - off, n);
      if n > 0 {
        PlainPattern(dst, before, op, off, n);
      }
      return Nothing;
    }
    CopyBlock(dst, op, op - off, off);
    if off == 0 {
      return Endless;
    }
    PlainPattern(dst, before, op, off, off);
    var ok := DoublePattern(dst, before, op, off, n);
    if !ok {
      return Overrun;
    }
    ShorterPattern(dst, before, op, off, n, n);
    return Nothing;
  }

  /** At most one period, copied in one go. */
  lemma PlainPattern(dst: array<byte>, before: seq<byte>, op: nat, off: nat, n: nat)
    requires 1 <= off <= op && n <= off && op + n <= dst.Length == |before|
    requires forall k {:trigger dst[k]} :: 0 <= k < dst.Length ==>
               dst[k] == if op <= k < op + n then before[op - off + (k - op)] else before[k]
    ensures Patterned(dst, before, op, off, n) && dst[..op + n] == Extended(before[..op], off, n)
  {
    forall i | op <= i < op + n ensures dst[i] == before[op - off + (i - op) % off] {
      DivModUnique(0, off, i - op);
    }
    assert dst[..op] == before[..op];
    PatternIsExtended(dst, before, op, off, n);
  }
}
