/**
 * What the rANS decoder accepts (src/entropy/fse.c): decoding undone by encoding, symbol by symbol, so that a
 * payload is accepted exactly when an encoder run over the output gives it; and blocks that are refused.
 */
module FseSound {
  import opened Base
  import opened FseTable
  import opened Fse

  /* ---- One symbol -------------------------------------------------------- */

  lemma ShrinkPulled(z: nat, b: byte, xmax: nat)
    requires 0 < xmax <= 256 * z
    ensures Shrink(z * 256 + b, xmax) == (Shrink(z, xmax).0, [b] + Shrink(z, xmax).1)
  {
    var w: nat := z * 256 + b;
    assert w / 256 == z && w % 256 == b as nat;
  }

  lemma PulledBytes(o: seq<byte>, p: seq<byte>)
    requires p != []
    ensures Rev([p[0]] + o) + p[1..] == Rev(o) + p
  {
    RevConcat([p[0]], o);
    assert Rev([p[0]]) == [p[0]];
    hide Rev;
    assert Rev(o) + [p[0]] + p[1..] == Rev(o) + p;
  }

  /** Shrinking a refilled state gives back the bytes it pulled. */
  lemma {:induction false} RefillThenShrink(z: nat, p: seq<byte>, xmax: nat)
    requires 0 < xmax <= 256 * z && z < L_MAX && Refill(z, p).Some?
    ensures var (x, rest) := Refill(z, p).value;
            && L_MIN <= x < L_MAX && Shrink(x, xmax).0 == Shrink(z, xmax).0
            && Rev(Shrink(x, xmax).1) + rest == Rev(Shrink(z, xmax).1) + p
    decreases |p|
  {
    hide Shrink, Rev;
    if z < L_MIN {
      ShrinkPulled(z, p[0], xmax);
      RefillThenShrink(z * 256 + p[0], p[1..], xmax);
      PulledBytes(Shrink(z, xmax).1, p);
    }
  }

  /** Where a decode step leaves the state, before it is refilled. */
  lemma DecodedRange(x: nat, log: nat, f: nat, c: nat)
    requires SymbolRange(log, f, c) && L_MIN <= x < L_MAX && c <= x % Pow2(log) < c + f
    ensures var y := DecodeStep(x, Pow2(log), f, c);
            0 < XMax(log, f) <= 256 * y && y < XMax(log, f) && y < L_MAX && Spread(y, Pow2(log), f, c) == x
  {
    var t, k := Pow2(log), Pow2(16 - log);
    TableLogFits(log);
    Quotient(x, k, t);
    StepBounds(x / t, x % t - c, k, t, f);
    SpreadBack(x, t, f, c);
    hide Pow2;
  }

  lemma Quotient(x: nat, k: nat, t: nat)
    requires k * t == L_MIN && t > 0 && L_MIN <= x < L_MAX
    ensures k <= x / t < 256 * k
  {
    MulShift(k, t);
    DivAtLeast(x, t, k);
    DivBelow(x, t, 256 * k);
  }

  lemma SpreadBack(x: nat, t: nat, f: nat, c: nat)
    requires t > 0 && c <= x % t < c + f
    ensures Spread(DecodeStep(x, t, f, c), t, f, c) == x
  {
    var q, r := x / t, x % t;
    var y := DecodeStep(x, t, f, c);
    assert y == q * f + (r - c);
    DivModUnique(q, f, r - c);
    assert y / f == q && y % f == r - c;
    assert x == q * t + r;
  }

  lemma MulShift(k: nat, t: nat)
    requires k * t == L_MIN
    ensures (256 * k) * t == L_MAX
  {
    assert (256 * k) * t == 256 * (k * t);
  }

  lemma StepBounds(q: nat, r: nat, k: nat, t: nat, f: nat)
    requires k <= q < 256 * k && r < f <= t && k * t == L_MIN
    ensures k * 256 * f <= 256 * (f * q + r) && f * q + r < k * 256 * f && f * q + r < L_MAX
  {
    MulMonotone(k, q, f);
    MulMonotone(q + 1, 256 * k, f);
    MulMonotone(f, t, 256 * k);
    assert (q + 1) * f == f * q + f;
    assert k * 256 * f == (256 * k) * f == 256 * (k * f);
    assert (256 * k) * t == 256 * (k * t);
  }

  /** Encoding the symbol just decoded, from the state it left, gives back state and bytes. */
  lemma StepBack(x: nat, log: nat, f: nat, c: nat, p: seq<byte>)
    requires SymbolRange(log, f, c) && L_MIN <= x < L_MAX && c <= x % Pow2(log) < c + f
    requires Refill(DecodeStep(x, Pow2(log), f, c), p).Some?
    ensures var (x', rest) := Refill(DecodeStep(x, Pow2(log), f, c), p).value;
            && L_MIN <= x' < L_MAX && EncodeStep(x', log, f, c).0 == x && Rev(EncodeStep(x', log, f, c).1) + rest == p
  {
    var y := DecodeStep(x, Pow2(log), f, c);
    DecodedRange(x, log, f, c);
    RefillThenShrink(y, p, XMax(log, f));
    assert Shrink(y, XMax(log, f)) == (y, []);
    assert Rev([]) + p == p;
    hide Pow2, XMax, Spread, DecodeStep, Refill;
  }

  /* ---- Whole streams ----------------------------------------------------- */

  /** The encoder's run, begun in any state. */
  function EncodeOn(src: seq<byte>, norm: seq<nat>, log: nat, x0: nat): (r: (nat, seq<byte>))
    requires Covers(norm, log, src)
  {
    if src == [] then (x0, [])
    else
      var (x, out) := EncodeOn(src[1..], norm, log, x0);
      RangeOf(norm, log, src[0]);
      var (x', more) := EncodeStep(x, log, norm[src[0]], Cum(norm, src[0]));
      (x', out + more)
  }

  lemma {:induction false} EncodeOnIs(src: seq<byte>, norm: seq<nat>, log: nat)
    requires Covers(norm, log, src)
    ensures EncodeOn(src, norm, log, L_MIN) == EncodeFrom(src, norm, log)
  {
    if src != [] {
      EncodeOnIs(src[1..], norm, log);
    }
  }

  lemma EncodeOnStep(src: seq<byte>, norm: seq<nat>, log: nat, x0: nat)
    requires Covers(norm, log, src) && src != []
    ensures Covers(norm, log, src[1..]) && SymbolRange(log, norm[src[0]], Cum(norm, src[0]))
    ensures var (x, out) := EncodeOn(src[1..], norm, log, x0);
            var (x', more) := EncodeStep(x, log, norm[src[0]], Cum(norm, src[0]));
            EncodeOn(src, norm, log, x0) == (x', out + more)
  {
    RangeOf(norm, log, src[0]);
    hide EncodeStep, Sum, Cum;
  }

  lemma JoinBytes(out: seq<byte>, more: seq<byte>, tail: seq<byte>)
    ensures Rev(out + more) + tail == Rev(more) + (Rev(out) + tail)
  {
    RevConcat(out, more);
    hide Rev;
    assert Rev(out + more) + tail == Rev(more) + (Rev(out) + tail);
  }

  lemma DecodeOwned(x: nat, p: seq<byte>, norm: seq<nat>, log: nat, n: nat, s: byte, x': nat, rest: seq<byte>)
    requires 5 <= log <= 12 && Sum(norm) == Pow2(log) && |norm| <= NSYMS && n > 0
    requires Owns(norm, s, x % Pow2(log)) && SymbolRange(log, norm[s], Cum(norm, s))
    requires Refill(DecodeStep(x, Pow2(log), norm[s], Cum(norm, s)), p) == Some((x', rest))
    requires DecodeFrom(x', rest, norm, log, n - 1).Some?
    ensures var (syms, x0, left) := DecodeFrom(x', rest, norm, log, n - 1).value;
            DecodeFrom(x, p, norm, log, n) == Some(([s] + syms, x0, left))
  {
    OwnerUnique(norm, s, Owner(norm, x % Pow2(log)), x % Pow2(log));
  }

  /** What encoding lays down from any state, decoding takes back to that state. */
  lemma {:induction false} Forth(src: seq<byte>, norm: seq<nat>, log: nat, x0: nat, tail: seq<byte>)
    requires Covers(norm, log, src) && |norm| <= NSYMS && L_MIN <= x0 < L_MAX
    ensures var (x, out) := EncodeOn(src, norm, log, x0);
            L_MIN <= x < L_MAX && DecodeFrom(x, Rev(out) + tail, norm, log, |src|) == Some((src, x0, tail))
  {
    if src == [] {
      assert Rev([]) + tail == tail;
    } else {
      hide EncodeOn, EncodeStep, DecodeFrom, DecodeStep, Refill, Rev, Pow2, Sum, Cum;
      var s := src[0];
      EncodeOnStep(src, norm, log, x0);
      Forth(src[1..], norm, log, x0, tail);
      var (x1, out1) := EncodeOn(src[1..], norm, log, x0);
      var (x, more) := EncodeStep(x1, log, norm[s], Cum(norm, s));
      StepRoundTrip(x1, log, norm[s], Cum(norm, s), Rev(out1) + tail);
      JoinBytes(out1, more, tail);
      DecodeOwned(x, Rev(out1 + more) + tail, norm, log, |src|, s, x1, Rev(out1) + tail);
      assert src == [s] + src[1..];
    }
  }

  /** One step of decoding, undone. */
  lemma BackOne(x: nat, p: seq<byte>, norm: seq<nat>, log: nat, n: nat, s: nat)
    requires 5 <= log <= 12 && Sum(norm) == Pow2(log) && |norm| <= NSYMS && L_MIN <= x < L_MAX && n > 0
    requires DecodeFrom(x, p, norm, log, n).Some? && s == Owner(norm, x % Pow2(log))
    ensures s < |norm| && norm[s] > 0 && SymbolRange(log, norm[s], Cum(norm, s))
    ensures var r := DecodeFrom(x, p, norm, log, n).value;
            var next := Refill(DecodeStep(x, Pow2(log), norm[s], Cum(norm, s)), p);
            && next.Some? && L_MIN <= next.value.0 < L_MAX && r.0 != [] && r.0[0] as nat == s
            && DecodeFrom(next.value.0, next.value.1, norm, log, n - 1) == Some((r.0[1..], r.1, r.2))
            && EncodeStep(next.value.0, log, norm[s], Cum(norm, s)).0 == x
            && Rev(EncodeStep(next.value.0, log, norm[s], Cum(norm, s)).1) + next.value.1 == p
  {
    RangeOf(norm, log, s);
    StepBack(x, log, norm[s], Cum(norm, s), p);
    var next := Refill(DecodeStep(x, Pow2(log), norm[s], Cum(norm, s)), p);
    var rest := DecodeFrom(next.value.0, next.value.1, norm, log, n - 1);
    assert ([s as byte] + rest.value.0)[1..] == rest.value.0;
    hide EncodeStep, DecodeStep, Refill, Owner, Sum, Cum, Pow2;
  }

  /** What decoding takes up, encoding the output from the state it left lays down again. */
  lemma {:induction false} Back(x: nat, p: seq<byte>, norm: seq<nat>, log: nat, n: nat)
    requires 5 <= log <= 12 && Sum(norm) == Pow2(log) && |norm| <= NSYMS && L_MIN <= x < L_MAX
    requires DecodeFrom(x, p, norm, log, n).Some?
    ensures var (syms, x0, left) := DecodeFrom(x, p, norm, log, n).value;
            && Covers(norm, log, syms) && L_MIN <= x0 < L_MAX
            && EncodeOn(syms, norm, log, x0).0 == x && Rev(EncodeOn(syms, norm, log, x0).1) + left == p
    decreases n
  {
    if n == 0 {
      assert Rev([]) + p == p;
    } else {
      var s := Owner(norm, x % Pow2(log));
      BackOne(x, p, norm, log, n, s);
      var (x', rest) := Refill(DecodeStep(x, Pow2(log), norm[s], Cum(norm, s)), p).value;
      hide DecodeFrom, EncodeStep, Refill, Owner, Cum, DecodeStep, EncodeOn, Rev, Covers;
      Back(x', rest, norm, log, n - 1);
      var (syms, x0, left) := DecodeFrom(x, p, norm, log, n).value;
      CoversHead(norm, log, syms);
      EncodeOnStep(syms, norm, log, x0);
      JoinBytes(EncodeOn(syms[1..], norm, log, x0).1, EncodeStep(x', log, norm[s], Cum(norm, s)).1, left);
    }
  }

  lemma CoversHead(norm: seq<nat>, log: nat, syms: seq<byte>)
    requires syms != [] && Covers(norm, log, syms[1..]) && syms[0] < |norm| && norm[syms[0]] > 0
    ensures Covers(norm, log, syms)
  {
    forall i | 0 <= i < |syms| ensures syms[i] < |norm| && norm[syms[i]] > 0 {
      if i > 0 { assert syms[i] == syms[1..][i - 1]; }
    }
  }

  /**
   * A payload decodes to an output exactly when an encoder run over that output, begun in some state, ends in
   * the block's state and lays down the payload. The encoder begins in the lowest state; the decoder does not
   * ask where the run began.
   */
  lemma Accepted(x: nat, p: seq<byte>, norm: seq<nat>, log: nat, out: seq<byte>, x0: nat)
    requires 5 <= log <= 12 && Sum(norm) == Pow2(log) && |norm| <= NSYMS && L_MIN <= x < L_MAX
    ensures DecodeFrom(x, p, norm, log, |out|) == Some((out, x0, [])) <==>
              && Covers(norm, log, out) && L_MIN <= x0 < L_MAX
              && EncodeOn(out, norm, log, x0).0 == x && Rev(EncodeOn(out, norm, log, x0).1) == p
  {
    hide EncodeOn, DecodeFrom, Sum;
    var d := DecodeFrom(x, p, norm, log, |out|);
    if d.Some? { Back(x, p, norm, log, |out|); }
    if Covers(norm, log, out) && L_MIN <= x0 < L_MAX {
      Forth(out, norm, log, x0, []);
    }
    ConcatEmpty(p);
    ConcatEmpty(Rev(EncodeOnBytes(out, norm, log, x0)));
  }

  function EncodeOnBytes(out: seq<byte>, norm: seq<nat>, log: nat, x0: nat): seq<byte>
  {
    if Covers(norm, log, out) then EncodeOn(out, norm, log, x0).1 else []
  }

  /* ---- Blocks that are refused ------------------------------------------- */

  /** A block decodes at its own size and at no other. */
  lemma OneSize(src: seq<byte>, a: nat, b: nat)
    ensures Decoded(src, a).Ok? && Decoded(src, b).Ok? ==> a == b
  {
    hide DecodeFrom, ParseU16s, LEVal;
  }

  /** The header of a block that parses gives the block's length. */
  lemma LengthTold(b: seq<byte>, size: nat)
    ensures ParseBlock(b, size).Ok? ==> |b| >= HDR_PREFIX && |b| == HDR_PREFIX + 2 * LEVal(b[14..16]) + LEVal(b[4..8])
    ensures ParseBlock(b, size).Err? ==> Decoded(b, size).Err?
  {
    hide LEVal, ParseU16s, DecodeFrom;
  }

  lemma BlockParses(src: seq<byte>, norm: seq<nat>, log: nat)
    requires 0 < |src| < U32_LIMIT && |norm| <= NSYMS && Covers(norm, log, src)
    requires PayloadSize(src, norm, log) < U32_LIMIT
    ensures ParseBlock(Block(src, norm, log), |src|).Ok?
  {
    var (x, out) := EncodeFrom(src, norm, log);
    StreamRoundTrip(src, norm, log, []);
    TableLogFits(log);
    forall i | 0 <= i < |norm| ensures norm[i] < U16_LIMIT {
      SumAtLeast(norm, i);
    }
    ParseHeader(|src|, |out|, x, log, norm, Rev(out));
  }

  lemma SameHeader(a: seq<byte>, b: seq<byte>)
    requires (a <= b || b <= a) && |a| >= HDR_PREFIX && |b| >= HDR_PREFIX
    ensures a[14..16] == b[14..16] && a[4..8] == b[4..8] && (|a| == |b| ==> a == b)
  {
  }

  /** A block that was cut short, or has bytes after it, is refused. */
  lemma OneLength(src: seq<byte>, norm: seq<nat>, log: nat, b: seq<byte>)
    requires 0 < |src| < U32_LIMIT && |norm| <= NSYMS && Covers(norm, log, src)
    requires PayloadSize(src, norm, log) < U32_LIMIT
    ensures var whole := Block(src, norm, log);
            b != whole && (b <= whole || whole <= b) ==> Decoded(b, |src|).Err?
  {
    hide Block, Decoded, ParseBlock, LEVal, PayloadSize, Covers;
    var whole := Block(src, norm, log);
    BlockParses(src, norm, log);
    LengthTold(whole, |src|);
    LengthTold(b, |src|);
    if |b| >= HDR_PREFIX && (b <= whole || whole <= b) { SameHeader(b, whole); }
  }
}
