/**
 * The LZ decoder (src/entropy/lz.c): a fast path over wide copies that hands over to a bounds-checked
 * safe path. Together they compute one simple byte-level decoding, except where a scan of the sequence
 * headers says that a 32-bit sum lets the decoder run past its buffer or that it never ends.
 */
module LzDecode {
  import opened Base
  import opened LzFormat
  import opened LzCopy

  /* ---- What decoding means ----------------------------------------------- */

  /** The literals after the last match; the output must then be full. */
  function Trail(lits: seq<byte>, out: seq<byte>, lp: nat, size: nat): Result<seq<byte>>
    requires lp <= |lits| && |out| <= size
  {
    var r := out + lits[lp..lp + Min(|lits| - lp, size - |out|)];
    if |r| != size then Err(Corrupt) else Ok(r)
  }

  /**
   * Decoding `left` sequences from the bytes b, with out decoded and lp literals used; everything is clamped
   * to size. An offset that wrapped to 0 names no earlier byte; a length that wrapped to 0 copies nothing.
   */
  function DecodeFrom(b: seq<byte>, lits: seq<byte>, out: seq<byte>, lp: nat, left: nat, size: nat): Result<seq<byte>>
    requires lp <= |lits| && |out| <= size
    decreases left
  {
    if left == 0 || |out| == size then Trail(lits, out, lp, size)
    else
      match ReadSeq(b)
      case None => Err(Corrupt)
      case Some((s, rest)) =>
        var ll := Min(Min(s.lit, size - |out|), |lits| - lp);
        var out1 := out + lits[lp..lp + ll];
        if |out1| == size then DecodeFrom(rest, lits, out1, lp + ll, left - 1, size)
        else if s.off > |out1| || (s.off == 0 && s.len > 0) then Err(Corrupt)
        else DecodeFrom(rest, lits, Copied(out1, s.off, Min(s.len, size - |out1|)), lp + ll, left - 1, size)
  }

  /** What the decoder should return for an output of `size` bytes. */
  function Decoded(src: seq<byte>, size: nat): Result<seq<byte>>
  {
    if |src| >= U32_LIMIT || size >= U32_LIMIT then Err(Invalid)
    else if |src| < HEADER_SIZE then Err(Corrupt)
    else
      var n, litSize := LEVal(src[0..4]), LEVal(src[4..8]);
      if HEADER_SIZE + litSize > |src| then Err(Corrupt)
      else DecodeFrom(src[HEADER_SIZE..|src| - litSize], src[|src| - litSize..], [], 0, n, size)
  }

  /* ---- What goes wrong --------------------------------------------------- */

  /** The numbers a scan needs besides the sequence headers. */
  datatype Frame = Frame(size: nat, litSize: nat, avx2: bool)

  /** The tests of the fast path, in 32 bits. */
  predicate Passes(s: LzSeq, dp: nat, lp: nat, f: Frame)
  {
    && LowU32(dp + s.lit + s.len + Slack(f.avx2)) <= f.size
    && LowU32(lp + s.lit) <= f.litSize
    && s.off <= LowU32(dp + s.lit)
  }

  /** Bytes of output the literal copy writes: 16 at once when few and the literals have the room. */
  function LiteralBlock(n: nat, lp: nat, litSize: nat): nat
  {
    if n == 0 then 0 else if n <= 16 && LowU32(lp + 16) <= litSize then 16 else n
  }

  /** What those tests are there for. */
  predicate Inside(s: LzSeq, dp: nat, lp: nat, f: Frame)
  {
    dp + s.lit + s.len + Slack(f.avx2) <= f.size && lp + s.lit <= f.litSize && s.off <= dp + s.lit
  }

  /**
   * What a sequence that passed the tests runs into, in the order its bytes are copied: literals that are not
   * there or do not fit, a match at offset 0 that never ends, or a last block past the end of the output.
   */
  function FastTrouble(s: LzSeq, dp: nat, lp: nat, f: Frame): Trouble
  {
    if s.lit > 0 && (lp + s.lit > f.litSize || dp + LiteralBlock(s.lit, lp, f.litSize) > f.size) then Overrun
    else if s.off == 0 && s.len > 0 then Endless
    else if dp + s.lit + Reach(s.off, s.len, f.avx2) > f.size then Overrun
    else Nothing
  }

  /** Without trouble the sequence stays inside both buffers. */
  lemma FitsWithoutTrouble(s: LzSeq, dp: nat, lp: nat, f: Frame)
    requires dp <= f.size && lp <= f.litSize
    ensures FastTrouble(s, dp, lp, f) == Nothing ==>
              dp + s.lit + s.len <= f.size && lp + s.lit <= f.litSize && (s.off >= 1 || s.len == 0)
  {
  }

  /** A real match whose bounds hold without a wrap meets none. */
  lemma InsideNoTrouble(s: LzSeq, dp: nat, lp: nat, f: Frame)
    requires Inside(s, dp, lp, f) && s.off >= 1 && s.len >= 1
    ensures FastTrouble(s, dp, lp, f) == Nothing
  {
  }

  /**
   * The first trouble met in `left` sequences of the bytes b, at output position dp and literal lp, by the fast
   * path and, from the first sequence that fails its tests on, by the safe path. Only headers are looked at.
   */
  function Scan(b: seq<byte>, dp: nat, lp: nat, left: nat, f: Frame, fast: bool): Trouble
    requires dp <= f.size && lp <= f.litSize
    decreases left
  {
    if left == 0 then Nothing
    else
      match ReadSeq(b)
      case None => Nothing
      case Some((s, rest)) =>
        if fast && Passes(s, dp, lp, f) then
          FitsWithoutTrouble(s, dp, lp, f);
          var t := FastTrouble(s, dp, lp, f);
          if t != Nothing then t
          else Scan(rest, dp + s.lit + s.len, lp + s.lit, left - 1, f, true)
        else SafeScan(s, rest, dp, lp, left, f)
  }

  function SafeScan(s: LzSeq, rest: seq<byte>, dp: nat, lp: nat, left: nat, f: Frame): Trouble
    requires dp <= f.size && lp <= f.litSize && left > 0
    decreases left, 0
  {
    var ll := Min(Min(s.lit, f.size - dp), f.litSize - lp);
    if dp + ll == f.size || s.off > dp + ll then Nothing
    else
      var len := Min(s.len, f.size - dp - ll);
      var t := CopyTrouble(s.off, len);
      if t != Nothing then t
      else Scan(rest, dp + ll + len, lp + ll, left - 1, f, false)
  }

  /** The trouble an input gets the decoder into, found by looking at its sequence headers alone. */
  function InputTrouble(src: seq<byte>, size: nat, avx2: bool): Trouble
  {
    if |src| >= U32_LIMIT || size >= U32_LIMIT || |src| < HEADER_SIZE then Nothing
    else
      var n, litSize := LEVal(src[0..4]), LEVal(src[4..8]);
      if HEADER_SIZE + litSize > |src| then Nothing
      else Scan(src[HEADER_SIZE..|src| - litSize], 0, 0, n, Frame(size, litSize, avx2), true)
  }

  /* ---- Reading sequences ------------------------------------------------- */

  lemma LowAdd(a: nat, b: nat)
    ensures LowU32(a + LowU32(b)) == LowU32(a + b)
  {
    var q := b / U32_LIMIT;
    assert b == q * U32_LIMIT + LowU32(b);
    var t := a + LowU32(b);
    assert a + b == (q + t / U32_LIMIT) * U32_LIMIT + t % U32_LIMIT;
    DivModUnique(q + t / U32_LIMIT, U32_LIMIT, t % U32_LIMIT);
  }

  /** What is read so far, added to what is still to be read. */
  function Plus(val: nat, r: reading): reading
  {
    match r
    case None => None
    case Some((v, rest)) => Some((LowU32(val + v), rest))
  }

  lemma PlusTwice(a: nat, p: nat, r: reading)
    ensures Plus(a, Plus(p, r)) == Plus(LowU32(a + p), r)
  {
    if r.Some? {
      var v := r.value.0;
      LowAdd(a, p + v);
      LowAdd(v, a + p);
    }
  }

  lemma LebStep(b: seq<byte>, shift: nat)
    requires b != [] && shift < 32
    ensures ReadLeb(b, shift) == if b[0] < 128 then Some((LowU32(b[0] % 128 * Pow2(shift)), b[1..]))
                                 else Plus(LowU32(b[0] % 128 * Pow2(shift)), ReadLeb(b[1..], shift + 7))
  {
  }

  method LebLoop(b: seq<byte>, start: nat) returns (ok: bool, val: nat, sp: nat)
    requires start <= |b|
    ensures ok == ReadLeb(b[start..], 0).Some?
    ensures ok ==> sp <= |b| && ReadLeb(b[start..], 0) == Some((val, b[sp..]))
  {
    hide ReadLeb, LowU32, Pow2;
    val, sp := 0, start;
    var shift := 0;
    ghost var whole := ReadLeb(b[start..], 0);
    PlusNothing(b[start..]);
    while true
      invariant sp <= |b| && val < U32_LIMIT && whole == Plus(val, ReadLeb(b[sp..], shift))
      decreases |b| - sp
    {
      if sp >= |b| || shift >= 32 {
        LebEnds(b[sp..], shift);
        return false, val, sp;
      }
      LebStep(b[sp..], shift);
      assert b[sp..][1..] == b[sp + 1..];
      var part := LowU32(b[sp] % 128 * Pow2(shift));
      PlusTwice(val, part, ReadLeb(b[sp + 1..], shift + 7));
      var more := b[sp] >= 128;
      val := LowU32(val + part);
      sp, shift := sp + 1, shift + 7;
      if !more {
        return true, val, sp;
      }
    }
  }

  lemma PlusNothing(b: seq<byte>)
    ensures ReadLeb(b, 0) == Plus(0, ReadLeb(b, 0))
  {
    LebBelow(b, 0);
  }

  lemma LebBelow(b: seq<byte>, shift: nat)
    ensures ReadLeb(b, shift).Some? ==> ReadLeb(b, shift).value.0 < U32_LIMIT
  {
  }

  lemma LebEnds(b: seq<byte>, shift: nat)
    requires b == [] || shift >= 32
    ensures ReadLeb(b, shift) == None
  {
  }

  method ChainedLoop(b: seq<byte>, start: nat, acc: nat) returns (ok: bool, val: nat, sp: nat)
    requires start <= |b|
    ensures ok == ReadChained(b[start..], acc).Some?
    ensures ok ==> sp <= |b| && ReadChained(b[start..], acc) == Some((val, b[sp..]))
  {
    hide LowU32;
    val, sp := acc, start;
    while true
      invariant sp <= |b| && ReadChained(b[start..], acc) == ReadChained(b[sp..], val)
      decreases |b| - sp
    {
      if sp >= |b| {
        return false, val, sp;
      }
      assert b[sp..][1..] == b[sp + 1..];
      var extra := b[sp];
      val, sp := LowU32(val + extra), sp + 1;
      if extra != 255 {
        return true, val, sp;
      }
    }
  }

  method OffsetLoop(b: seq<byte>, start: nat) returns (ok: bool, off: nat, sp: nat)
    requires start <= |b|
    ensures ok == ReadOffset(b[start..]).Some?
    ensures ok ==> sp <= |b| && ReadOffset(b[start..]) == Some((off, b[sp..]))
  {
    hide ReadLeb, LowU32;
    if |b| - start < 2 {
      return false, 0, start;
    }
    assert b[start..][0..2] == b[start..start + 2] && b[start..][2..] == b[start + 2..];
    var v := LEVal(b[start..start + 2]);
    if v < 0xFFFF {
      return true, v + 1, start + 2;
    }
    var ext;
    ok, ext, sp := LebLoop(b, start + 2);
    off := LowU32(ext + 65536);
  }

  /** One sequence, every byte of it bounded by the end of the region. */
  method ParseSeq(b: seq<byte>, start: nat) returns (ok: bool, s: LzSeq, sp: nat)
    requires start <= |b|
    ensures ok == ReadSeq(b[start..]).Some?
    ensures ok ==> start < sp <= |b| && ReadSeq(b[start..]) == Some((s, b[sp..]))
  {
    hide ReadLeb, ReadChained, ReadOffset, LowU32;
    ghost var whole := ReadSeq(b[start..]);
    s := LzSeq(0, 0, 0);
    if start >= |b| {
      return false, s, start;
    }
    var tag := b[start];
    assert b[start..][1..] == b[start + 1..];
    var lit, m3, off: nat := tag / 16, tag % 16, 0;
    sp := start + 1;
    if lit == 15 {
      ok, lit, sp := ChainedLoop(b, sp, 15);
      if !ok {
        return;
      }
    }
    if m3 == 15 {
      ok, m3, sp := LebLoop(b, sp);
      if !ok {
        return;
      }
      m3 := LowU32(15 + m3);
    }
    ok, off, sp := OffsetLoop(b, sp);
    s := LzSeq(lit, LowU32(m3 + MIN_MATCH), off);
  }

  /* ---- Fast path --------------------------------------------------------- */

  /** Literals, 16 at once when few and the literals have the room; lp is never past dp. */
  method CopyLiterals(dst: array<byte>, dp: nat, lits: seq<byte>, lp: nat, n: nat)
    requires lp <= dp && lp + n <= |lits| && dp + LiteralBlock(n, lp, |lits|) <= dst.Length < U32_LIMIT
    modifies dst
    ensures dst[..dp + n] == old(dst[..dp]) + lits[lp..lp + n]
    ensures Only(dst, old(dst[..]), dp, dp + LiteralBlock(n, lp, |lits|))
  {
    ghost var before := dst[..];
    if n > 0 {
      var w := if n <= 16 && LowU32(lp + 16) <= |lits| then 16 else n;
      forall k | 0 <= k < w {
        dst[dp + k] := lits[lp + k];
      }
    }
    assert dst[..dp] == before[..dp];
    assert dst[dp..dp + n] == lits[lp..lp + n];
  }

  /** A sequence without trouble is decoded in full. */
  lemma FullStep(b: seq<byte>, lits: seq<byte>, out: seq<byte>, lp: nat, left: nat, f: Frame, s: LzSeq, rest: seq<byte>)
    requires lp <= |lits| == f.litSize && left > 0 && ReadSeq(b) == Some((s, rest)) && |out| <= f.size
    requires FastTrouble(s, |out|, lp, f) == Nothing && s.off <= |out| + s.lit
    ensures lp + s.lit <= |lits| && (s.off >= 1 || s.len == 0) && |out| + s.lit + s.len <= f.size
    ensures var out1 := out + lits[lp..lp + s.lit];
            DecodeFrom(b, lits, out, lp, left, f.size) ==
            DecodeFrom(rest, lits, Copied(out1, s.off, s.len), lp + s.lit, left - 1, f.size)
  {
    hide ReadSeq, Trail, Extended, FastTrouble;
    FitsWithoutTrouble(s, |out|, lp, f);
    if |out| == f.size { assert out + lits[lp..lp] == out; }
  }

  /** The scan before a readable sequence. */
  lemma ScanStep(b: seq<byte>, dp: nat, lp: nat, left: nat, f: Frame, fast: bool, s: LzSeq, rest: seq<byte>)
    requires dp <= f.size && lp <= f.litSize && left > 0 && ReadSeq(b) == Some((s, rest))
    ensures FastTrouble(s, dp, lp, f) == Nothing ==> dp + s.lit + s.len <= f.size && lp + s.lit <= f.litSize
    ensures Scan(b, dp, lp, left, f, fast) ==
            if fast && Passes(s, dp, lp, f) then
              if FastTrouble(s, dp, lp, f) != Nothing then FastTrouble(s, dp, lp, f)
              else Scan(rest, dp + s.lit + s.len, lp + s.lit, left - 1, f, true)
            else SafeScan(s, rest, dp, lp, left, f)
  {
    hide ReadSeq, LowU32, SafeScan, FastTrouble;
    FitsWithoutTrouble(s, dp, lp, f);
  }

  lemma ScanEnds(b: seq<byte>, dp: nat, lp: nat, left: nat, f: Frame, fast: bool)
    requires dp <= f.size && lp <= f.litSize && (left == 0 || ReadSeq(b) == None)
    ensures Scan(b, dp, lp, left, f, fast) == Nothing
  {
    hide ReadSeq;
  }

  /** The fast path: it stops where it has to hand over, or in the trouble the scan foresees. */
  method FastDecode(dst: array<byte>, b: seq<byte>, lits: seq<byte>, n: nat, avx2: bool)
    returns (t: Trouble, sp: nat, dp: nat, lp: nat, si: nat)
    requires dst.Length < U32_LIMIT
    modifies dst
    ensures sp <= |b| && lp <= dp <= dst.Length && lp <= |lits| && si <= n
    ensures var f := Frame(dst.Length, |lits|, avx2);
            if t != Nothing then t == Scan(b, 0, 0, n, f, true)
            else Scan(b[sp..], dp, lp, n - si, f, false) == Scan(b, 0, 0, n, f, true)
    ensures t == Nothing ==>
              DecodeFrom(b[sp..], lits, dst[..dp], lp, n - si, dst.Length) == DecodeFrom(b, lits, [], 0, n, dst.Length)
  {
    hide DecodeFrom, ReadSeq, Scan, SafeScan, Copied, Only, LowU32;
    t, sp, dp, lp, si := Nothing, 0, 0, 0, 0;
    ghost var f := Frame(dst.Length, |lits|, avx2);
    ghost var whole := DecodeFrom(b, lits, [], 0, n, dst.Length);
    ghost var trouble := Scan(b, 0, 0, n, f, true);
    assert b[0..] == b && dst[..0] == [];
    while si < n
      invariant t == Nothing && sp <= |b| && lp <= dp <= dst.Length && lp <= |lits| && si <= n
      invariant DecodeFrom(b[sp..], lits, dst[..dp], lp, n - si, dst.Length) == whole
      invariant Scan(b[sp..], dp, lp, n - si, f, true) == trouble
    {
      var ok, s, next := ParseSeq(b, sp);
      if !ok {
        ScanEnds(b[sp..], dp, lp, n - si, f, true);
        ScanEnds(b[sp..], dp, lp, n - si, f, false);
        return;
      }
      ScanStep(b[sp..], dp, lp, n - si, f, true, s, b[next..]);
      if LowU32(dp + s.lit + s.len + Slack(avx2)) > dst.Length || LowU32(lp + s.lit) > |lits|
         || s.off > LowU32(dp + s.lit) {
        ScanStep(b[sp..], dp, lp, n - si, f, false, s, b[next..]);
        return;
      }
      t := FastTrouble(s, dp, lp, Frame(dst.Length, |lits|, avx2));
      if t != Nothing {
        return;
      }
      FullStep(b[sp..], lits, dst[..dp], lp, n - si, f, s, b[next..]);
      CopyLiterals(dst, dp, lits, lp, s.lit);
      lp, dp := lp + s.lit, dp + s.lit;
      var _ := MatchCopy(dst, dp, s.off, s.len, avx2);
      dp := dp + s.len;
      sp, si := next, si + 1;
    }
    ScanEnds(b[sp..], dp, lp, 0, f, true);
    ScanEnds(b[sp..], dp, lp, 0, f, false);
  }

  /* ---- Safe path --------------------------------------------------------- */

  lemma SafeStep(b: seq<byte>, lits: seq<byte>, out: seq<byte>, lp: nat, left: nat, size: nat, s: LzSeq,
                 rest: seq<byte>, ll: nat)
    requires lp <= |lits| && left > 0 && |out| < size && ReadSeq(b) == Some((s, rest))
    requires ll == Min(Min(s.lit, size - |out|), |lits| - lp)
    ensures var out1 := out + lits[lp..lp + ll];
            DecodeFrom(b, lits, out, lp, left, size) ==
            if |out1| == size then DecodeFrom(rest, lits, out1, lp + ll, left - 1, size)
            else if s.off > |out1| || (s.off == 0 && s.len > 0) then Err(Corrupt)
            else DecodeFrom(rest, lits, Copied(out1, s.off, Min(s.len, size - |out1|)), lp + ll, left - 1, size)
  {
    hide ReadSeq, Trail, Copied;
  }

  lemma Unreadable(b: seq<byte>, lits: seq<byte>, out: seq<byte>, lp: nat, left: nat, size: nat)
    requires lp <= |lits| && left > 0 && |out| < size && ReadSeq(b) == None
    ensures DecodeFrom(b, lits, out, lp, left, size) == Err(Corrupt)
  {
  }

  lemma NoMore(b: seq<byte>, lits: seq<byte>, out: seq<byte>, lp: nat, left: nat, size: nat)
    requires lp <= |lits| && |out| <= size && (left == 0 || |out| == size)
    ensures DecodeFrom(b, lits, out, lp, left, size) == Trail(lits, out, lp, size)
  {
  }

  /** The scan of a sequence the safe path takes. */
  lemma SafeScanStep(s: LzSeq, rest: seq<byte>, dp: nat, lp: nat, left: nat, f: Frame, ll: nat)
    requires dp <= f.size && lp <= f.litSize && left > 0
    requires ll == Min(Min(s.lit, f.size - dp), f.litSize - lp)
    ensures SafeScan(s, rest, dp, lp, left, f) ==
            if dp + ll == f.size || s.off > dp + ll then Nothing
            else
              var len := Min(s.len, f.size - dp - ll);
              if CopyTrouble(s.off, len) != Nothing then CopyTrouble(s.off, len)
              else Scan(rest, dp + ll + len, lp + ll, left - 1, f, false)
  {
    hide Scan, CopyTrouble;
  }

  lemma ScanFull(b: seq<byte>, lp: nat, left: nat, f: Frame)
    requires lp <= f.litSize
    ensures Scan(b, f.size, lp, left, f, false) == Nothing
  {
    hide ReadSeq;
  }

  /** How the safe path's handling of one sequence ends. */
  datatype SeqEnd = Went | Refused | Stopped(t: Trouble)

  /** One sequence with every length clamped. */
  method SafeSeq(dst: array<byte>, lits: seq<byte>, dp0: nat, lp0: nat, s: LzSeq, ghost b: seq<byte>,
                 ghost rest: seq<byte>, ghost left: nat, ghost f: Frame)
    returns (r: SeqEnd, dp: nat, lp: nat)
    requires lp0 <= dp0 < dst.Length < U32_LIMIT && lp0 <= |lits| && left > 0 && ReadSeq(b) == Some((s, rest))
    requires f.size == dst.Length && f.litSize == |lits| < U32_LIMIT
    modifies dst
    ensures r.Stopped? ==> r.t != Nothing && r.t == SafeScan(s, rest, dp0, lp0, left, f)
    ensures r.Refused? ==> SafeScan(s, rest, dp0, lp0, left, f) == Nothing
                           && old(DecodeFrom(b, lits, dst[..dp0], lp0, left, dst.Length)) == Err(Corrupt)
    ensures r.Went? ==>
              && lp <= dp <= dst.Length && lp <= |lits|
              && Scan(rest, dp, lp, left - 1, f, false) == SafeScan(s, rest, dp0, lp0, left, f)
              && DecodeFrom(rest, lits, dst[..dp], lp, left - 1, dst.Length)
                 == old(DecodeFrom(b, lits, dst[..dp0], lp0, left, dst.Length))
  {
    hide DecodeFrom, ReadSeq, Copied, Only, Scan, SafeScan, CopyTrouble;
    dp, lp := dp0, lp0;
    var ll := s.lit;
    if ll > dst.Length - dp { ll := dst.Length - dp; }
    if LowU32(lp + ll) > |lits| { ll := |lits| - lp; }
    SafeStep(b, lits, dst[..dp], lp, left, dst.Length, s, rest, ll);
    SafeScanStep(s, rest, dp, lp, left, f, ll);
    if ll > 0 {
      forall k | 0 <= k < ll {
        dst[dp + k] := lits[lp + k];
      }
    }
    assert dst[..dp + ll] == old(dst[..dp0]) + lits[lp..lp + ll];
    lp, dp := lp + ll, dp + ll;
    if dp < dst.Length {
      if dp < s.off {
        return Refused, dp, lp;
      }
      var mlen := s.len;
      if mlen > dst.Length - dp { mlen := dst.Length - dp; }
      var t := SafeCopy(dst, dp, s.off, mlen);
      if t != Nothing {
        return Stopped(t), dp, lp;
      }
      EndlessOnly(s.off, mlen);
      dp := dp + mlen;
    } else {
      ScanFull(rest, lp, left - 1, f);
    }
    r := Went;
  }

  /** An offset of 0 is harmless only in a match of no bytes. */
  lemma EndlessOnly(off: nat, n: nat)
    requires CopyTrouble(off, n) == Nothing
    ensures off == 0 ==> n == 0
  {
  }

  /** The literals left at the end, clamped. */
  method CopyTrail(dst: array<byte>, lits: seq<byte>, dp: nat, lp: nat) returns (end: nat)
    requires lp <= |lits| && dp <= dst.Length
    modifies dst
    ensures end <= dst.Length && dst[..end] == old(dst[..dp]) + lits[lp..lp + Min(|lits| - lp, dst.Length - dp)]
  {
    end := dp;
    if lp < |lits| && dp < dst.Length {
      var trail := |lits| - lp;
      if trail > dst.Length - dp { trail := dst.Length - dp; }
      forall k | 0 <= k < trail {
        dst[dp + k] := lits[lp + k];
      }
      end := dp + trail;
      assert dst[..end] == old(dst[..dp]) + lits[lp..lp + trail];
    }
  }

  /** How the decoder ends: it returns, or it is stopped in trouble. */
  datatype Ending = Returned(st: Result<()>) | Broken(t: Trouble)

  /** The ending an expected result and a trouble foreseen amount to, dst holding the output. */
  ghost predicate EndsAs(e: Ending, dst: array<byte>, trouble: Trouble, r: Result<seq<byte>>)
    reads dst
  {
    if trouble != Nothing then e == Broken(trouble)
    else
      match r
      case Ok(out) => e == Returned(Ok(())) && dst[..] == out
      case Err(error) => e == Returned(Err(error))
  }

  /** Picks up wherever the fast path stopped. */
  method SafeDecode(dst: array<byte>, b: seq<byte>, lits: seq<byte>, n: nat, sp0: nat, dp0: nat, lp0: nat, si0: nat,
                    ghost f: Frame) returns (e: Ending)
    requires sp0 <= |b| && lp0 <= dp0 <= dst.Length < U32_LIMIT && lp0 <= |lits| < U32_LIMIT && si0 <= n
    requires f.size == dst.Length && f.litSize == |lits|
    modifies dst
    ensures EndsAs(e, dst, Scan(b[sp0..], dp0, lp0, n - si0, f, false),
                   old(DecodeFrom(b[sp0..], lits, dst[..dp0], lp0, n - si0, dst.Length)))
  {
    hide DecodeFrom, ReadSeq, Scan, SafeScan;
    ghost var whole := DecodeFrom(b[sp0..], lits, dst[..dp0], lp0, n - si0, dst.Length);
    ghost var trouble := Scan(b[sp0..], dp0, lp0, n - si0, f, false);
    var sp: nat, dp: nat, lp: nat, si: nat := sp0, dp0, lp0, si0;
    while si < n && dp < dst.Length
      invariant sp <= |b| && lp <= dp <= dst.Length && lp <= |lits| && si <= n
      invariant DecodeFrom(b[sp..], lits, dst[..dp], lp, n - si, dst.Length) == whole
      invariant Scan(b[sp..], dp, lp, n - si, f, false) == trouble
      decreases n - si
    {
      var ok, s, next := ParseSeq(b, sp);
      if !ok {
        Unreadable(b[sp..], lits, dst[..dp], lp, n - si, dst.Length);
        ScanEnds(b[sp..], dp, lp, n - si, f, false);
        return Returned(Err(Corrupt));
      }
      ScanStep(b[sp..], dp, lp, n - si, f, false, s, b[next..]);
      var r;
      r, dp, lp := SafeSeq(dst, lits, dp, lp, s, b[sp..], b[next..], n - si, f);
      match r {
        case Stopped(t) =>
          return Broken(t);
        case Refused =>
          return Returned(Err(Corrupt));
        case Went =>
      }
      sp, si := next, si + 1;
    }
    NoMore(b[sp..], lits, dst[..dp], lp, n - si, dst.Length);
    if dp == dst.Length { ScanFull(b[sp..], lp, n - si, f); } else { ScanEnds(b[sp..], dp, lp, 0, f, false); }
    dp := CopyTrail(dst, lits, dp, lp);
    if dp != dst.Length {
      return Returned(Err(Corrupt));
    }
    assert dst[..dst.Length] == dst[..];
    e := Returned(Ok(()));
  }

  /**
   * The decoder, with or without the 32-byte copies: on every input it returns what it should if and only if
   * the scan of the input's headers finds no trouble.
   */
  method Decode(dst: array<byte>, src: seq<byte>, avx2: bool) returns (e: Ending)
    modifies dst
    ensures EndsAs(e, dst, InputTrouble(src, dst.Length, avx2), Decoded(src, dst.Length))
  {
    hide DecodeFrom, Scan;
    if |src| >= U32_LIMIT || dst.Length >= U32_LIMIT {
      return Returned(Err(Invalid));
    }
    if |src| < HEADER_SIZE {
      return Returned(Err(Corrupt));
    }
    var n, litSize := LEVal(src[0..4]), LEVal(src[4..8]);
    if HEADER_SIZE + litSize > |src| {
      return Returned(Err(Corrupt));
    }
    var b, lits := src[HEADER_SIZE..|src| - litSize], src[|src| - litSize..];
    var sp: nat, dp: nat, lp: nat, si: nat := 0, 0, 0, 0;
    ghost var f := Frame(dst.Length, |lits|, avx2);
    assert b[0..] == b && dst[..0] == [];
    if n > 0 {
      var t;
      t, sp, dp, lp, si := FastDecode(dst, b, lits, n, avx2);
      if t != Nothing {
        return Broken(t);
      }
    } else {
      ScanEnds(b, 0, 0, 0, f, true);
      ScanEnds(b, 0, 0, 0, f, false);
    }
    e := SafeDecode(dst, b, lits, n, sp, dp, lp, si, f);
  }
}
