/**
 * The two LZ parsers (src/entropy/lz.c): a flat-hash parser that skips ahead on misses, and the
 * hash-chain parser with remembered offsets and lazy matching. Each computes the run over its input.
 */
module LzParse {
  import opened Base
  import opened LzFormat
  import opened LzMatch
  import opened LzRun

  /* ---- Flat hash --------------------------------------------------------- */

  /** The table holds the last position entered under each hash. */
  ghost predicate Hashed(src: seq<byte>, c: Chains, htab: array<nat>)
    reads htab
  {
    && ChainsOk(src, c) && c.bits == HASH_BITS && htab.Length == Pow2(HASH_BITS) && |src| < NONE
    && forall h: nat {:trigger htab[h]} :: h < htab.Length ==> htab[h] == Newest(src, c, h, |src|)
  }

  /** The single candidate of the flat hash, compared in full. */
  method ProbeFlat(src: seq<byte>, sp: nat, cand: nat, ghost c: Chains) returns (len: nat, off: nat)
    requires Room(src, sp) && ChainsOk(src, c) && c.bits == HASH_BITS && c.depth == 0
    requires cand == Newest(src, c, Hash4(src, sp, HASH_BITS), |src|)
    ensures Longest(src, sp, Offered(src, c, sp), len, off)
  {
    hide Hash4, Newest, Common, Longest, Offered;
    len, off := 0, 0;
    FlatOffered(src, c, sp, cand);
    LongestNone(src, sp, 0);
    if cand != NONE && cand < sp {
      LongestOne(src, sp, sp - cand);
      if sp - cand <= MAX_OFFSET {
        FirstDiffers(src, sp, sp - cand);
        if src[cand] == src[sp] {
          var n := Extend(src, sp, sp - cand, |src| - sp);
          if n >= MIN_MATCH {
            len, off := n, sp - cand;
            return;
          }
        }
        AnyOffset(src, sp, [sp - cand], sp - cand, 0);
      }
    }
  }

  lemma FlatOffered(src: seq<byte>, c: Chains, sp: nat, cand: nat)
    requires Room(src, sp) && ChainsOk(src, c) && c.bits == HASH_BITS && c.depth == 0
    requires cand == Newest(src, c, Hash4(src, sp, HASH_BITS), |src|)
    ensures Offered(src, c, sp) == if cand != NONE && cand < sp && sp - cand <= MAX_OFFSET then [sp - cand] else []
  {
    hide Hash4, Newest;
  }

  lemma FirstDiffers(src: seq<byte>, pos: nat, off: nat)
    requires 1 <= off <= pos < |src|
    ensures src[pos - off] != src[pos] ==> Common(src, pos, off, |src| - pos) == 0
  {
  }

  lemma AnyOffset(src: seq<byte>, pos: nat, offs: seq<nat>, off: nat, o: nat)
    requires pos <= |src| && Longest(src, pos, offs, 0, off)
    ensures Longest(src, pos, offs, 0, o)
  {
    hide Length;
    forall i: nat | i < |offs| ensures Beaten(src, pos, offs, i, 0, o) {
      assert Beaten(src, pos, offs, i, 0, off);
    }
  }

  /** A position becomes the head of its hash. */
  method EnterFlat(src: seq<byte>, htab: array<nat>, pos: nat, h: nat, ghost c: Chains)
    requires Hashed(src, c, htab) && Room(src, pos) && Behind(c, pos) && h == Hash4(src, pos, HASH_BITS)
    modifies htab
    ensures Hashed(src, Enter(src, c, pos), htab)
  {
    hide Hash4;
    htab[h] := pos;
    forall k: nat | k < htab.Length ensures htab[k] == Newest(src, Enter(src, c, pos), k, |src|) {
      HeadAfter(src, c, pos, k);
    }
  }

  /** Every fourth position inside a match enters the table. */
  method InsertInside(src: seq<byte>, htab: array<nat>, sp: nat, len: nat, ghost c: Chains)
    requires Hashed(src, c, htab) && sp + len <= |src| && Behind(c, sp + 1)
    modifies htab
    ensures Hashed(src, EnterInside(src, c, sp, len, 1), htab)
  {
    hide Hashed, Behind, Enter;
    var i := 1;
    ghost var d := c;
    while i < len && sp + i + MIN_MATCH + 1 <= |src|
      invariant Hashed(src, d, htab) && Behind(d, sp + i)
      invariant EnterInside(src, d, sp, len, i) == EnterInside(src, c, sp, len, 1)
      decreases len - i
    {
      EnterFlat(src, htab, sp + i, Hash4(src, sp + i, HASH_BITS), d);
      EnterBehind(src, d, sp + i, sp + i + 4);
      d := Enter(src, d, sp + i);
      i := i + 4;
    }
  }

  lemma EnterBehind(src: seq<byte>, c: Chains, pos: nat, next: nat)
    requires Behind(c, pos) && pos < next
    ensures Behind(Enter(src, c, pos), next)
  {
  }

  /** One candidate a position; after misses the step grows to at most 8. */
  method ParseFast(src: seq<byte>) returns (seqs: seq<LzSeq>)
    requires |src| + 64 < U32_LIMIT
    ensures Parsed(src, Params(0, 0, 0), seqs)
  {
    hide FlatOk, FlatAllowed, Hashed, Hash4, Newest, Pow2, End, EnterInside, FlatRun, FlatState;
    hide ChainsOk, Offered, Longest, Enter, Behind, IsMatch;
    seqs := [];
    if |src| < MIN_MATCH + 1 {
      return;
    }
    var htab := new nat[Pow2(HASH_BITS)](_ => NONE);
    var sp, litStart, step := 0, 0, 1;
    ghost var log: seq<Found> := [];
    ghost var p := FLAT_START;
    NewTable(src, htab);
    while sp + MIN_MATCH + 1 <= |src|
      invariant FlatRun(src, log) && p == FlatState(src, log)
      invariant p.sp == sp && p.seqs == seqs && p.step == step && litStart == End(seqs, 0)
      invariant Hashed(src, p.chains, htab)
      decreases |src| - sp
    {
      FlatFacts(src, p);
      var h := Hash4(src, sp, HASH_BITS);
      HeadIs(src, htab, h, p.chains);
      var cand := htab[h];
      EnterFlat(src, htab, sp, h, p.chains);
      var len, off := ProbeFlat(src, sp, cand, p.chains);
      FlatGoesOn(src, log, Found(len, off));
      LongestFacts(src, sp, Offered(src, p.chains, sp), len, off);
      log := log + [Found(len, off)];
      if len >= MIN_MATCH {
        seqs := seqs + [LzSeq(sp - litStart, len, off)];
        EndSnoc(seqs[..|seqs| - 1], seqs[|seqs| - 1]);
        EnterBehind(src, p.chains, sp, sp + 1);
        InsertInside(src, htab, sp, len, Enter(src, p.chains, sp));
        sp := sp + len;
        litStart := sp;
        step := 1;
      } else {
        sp := sp + step;
        if step < 8 { step := step + 1; }
      }
      p := FlatState(src, log);
    }
    assert FlatParse(src, log, seqs);
  }

  lemma NewTable(src: seq<byte>, htab: array<nat>)
    requires htab.Length == Pow2(HASH_BITS) && |src| < NONE
    requires forall h {:trigger htab[h]} :: 0 <= h < htab.Length ==> htab[h] == NONE
    ensures Hashed(src, FLAT_START.chains, htab) && End([], 0) == 0
    ensures FlatRun(src, []) && FlatState(src, []) == FLAT_START
  {
    forall h: nat | h < htab.Length ensures htab[h] == Newest(src, FLAT_START.chains, h, |src|) {
      NothingKnown(src, FLAT_START.chains, h, |src|);
    }
  }

  lemma FlatFacts(src: seq<byte>, p: Flat)
    requires FlatOk(src, p)
    ensures ChainsOk(src, p.chains) && p.chains.bits == HASH_BITS && p.chains.depth == 0 && Behind(p.chains, p.sp)
    ensures End(p.seqs, 0) <= p.sp && p.step >= 1
  {
  }

  lemma FlatGoesOn(src: seq<byte>, log: seq<Found>, m: Found)
    requires FlatRun(src, log) && Room(src, FlatState(src, log).sp)
    requires var p := FlatState(src, log);
             ChainsOk(src, p.chains) && Longest(src, p.sp, Offered(src, p.chains, p.sp), m.len, m.off)
    ensures FlatRun(src, log + [m]) && FlatState(src, log + [m]) == FlatAfter(src, FlatState(src, log), m)
    ensures m.len > 0 ==> IsMatch(src, FlatState(src, log).sp, m.len, m.off)
  {
    var p := FlatState(src, log);
    if m.len > 0 { FlatIsLong(src, p, m); }
    hide FlatOk, FlatAfter, Longest, Offered, ChainsOk, IsMatch;
    assert (log + [m])[..|log|] == log;
  }

  lemma HeadIs(src: seq<byte>, htab: array<nat>, h: nat, c: Chains)
    requires Hashed(src, c, htab) && h < htab.Length
    ensures ChainsOk(src, c) && c.bits == HASH_BITS && htab[h] == Newest(src, c, h, |src|)
  {
    hide Newest;
  }

  lemma EndSnoc(ss: seq<LzSeq>, s: LzSeq)
    ensures End(ss + [s], 0) == End(ss, 0) + s.lit + s.len
  {
    assert (ss + [s])[..|ss|] == ss;
  }

  /* ---- Hash chains, remembered offsets, lazy matching --------------------- */

  /** The better of the remembered offsets and the chain; ties go to the remembered offset. */
  method BestAt(mf: HashChain, pos: nat, rep: seq<nat>) returns (len: nat, off: nat)
    requires mf.Valid() && RepsOk(rep) && pos <= |mf.src|
    ensures ChainsOk(mf.src, mf.chains) && (len == 0 || IsMatch(mf.src, pos, len, off))
    ensures Longest(mf.src, pos, rep + Offered(mf.src, mf.chains, pos), len, off)
  {
    hide Longest, Offered, IsMatch, HashChain.Valid;
    var repLen, repOff := RepProbe(mf.src, pos, rep);
    var hashLen, hashOff := mf.FindBest(pos, 0);
    LongestJoin(mf.src, pos, rep, Offered(mf.src, mf.chains, pos), repLen, repOff, hashLen, hashOff);
    if repLen >= MIN_MATCH && repLen >= hashLen {
      return repLen, repOff;
    }
    LongestFacts(mf.src, pos, rep, repLen, repOff);
    if repLen == hashLen {
      AnyOffset(mf.src, pos, rep + Offered(mf.src, mf.chains, pos), repOff, hashOff);
    }
    return hashLen, hashOff;
  }

  /** Moves on while the next position has a strictly longer match, entering the positions passed. */
  method Lazy(mf: HashChain, pos: nat, len: nat, off: nat, depth: nat)
    returns (at: nat, n: nat, o: nat, ghost found: seq<Found>)
    requires mf.Valid() && IsMatch(mf.src, pos, len, off) && ChainsOk(mf.src, mf.chains) && Behind(mf.chains, pos)
    modifies mf`chains, mf.htab, mf.chain
    ensures mf.Valid() && 1 <= |found| <= 1 + depth && found[0] == Found(len, off) && found[|found| - 1] == Found(n, o)
    ensures at == pos + |found| - 1 && n >= len && IsMatch(mf.src, at, n, o) && ChainsOk(mf.src, old(mf.chains))
    ensures at < |mf.src| && AllMoved(mf.src, old(mf.chains), pos, found)
    ensures Settled(mf.src, depth, old(mf.chains), pos, found)
    ensures mf.chains == EnterRun(mf.src, old(mf.chains), pos, if |found| <= depth then |found| else |found| - 1)
  {
    hide IsMatch, Longest, Offered, HashChain.Valid, Behind, ChainsOk, Enter;
    ghost var src, c := mf.src, mf.chains;
    at, n, o := pos, len, off;
    found := [Found(len, off)];
    MatchInside(src, pos, len, off);
    for lazy := 0 to depth
      invariant mf.Valid() && |found| == lazy + 1 && found[0] == Found(len, off) && found[lazy] == Found(n, o)
      invariant at == pos + lazy && IsMatch(src, at, n, o) && n >= len && at < |src| && AllMoved(src, c, pos, found)
      invariant mf.chains == EnterRun(src, c, pos, lazy)
    {
      EnterRunBehind(src, c, pos, lazy);
      mf.Insert(at);
      assert mf.chains == EnterRun(src, c, pos, lazy + 1);
      var nextLen, nextOff := mf.FindBest(at + 1, 0);
      if nextLen > n {
        LongestFits(src, at + 1, Offered(src, mf.chains, at + 1), nextLen, nextOff);
        MovedOnce(src, c, pos, found, Found(nextLen, nextOff));
        found := found + [Found(nextLen, nextOff)];
        at, n, o := at + 1, nextLen, nextOff;
        MatchInside(src, at, n, o);
      } else {
        MatchInside(src, at, n, o);
        StaysPut(src, depth, c, pos, found, nextLen, nextOff);
        break;
      }
    }
  }

  lemma EnterRunBehind(src: seq<byte>, c: Chains, pos: nat, n: nat)
    requires Behind(c, pos)
    ensures forall p {:trigger p in EnterRun(src, c, pos, n).known} ::
              p in EnterRun(src, c, pos, n).known ==> p < pos + n
  {
    hide EnterRun;
    assert Behind(EnterRun(src, c, pos, n), pos + n);
  }

  lemma MovedOnce(src: seq<byte>, c: Chains, pos: nat, found: seq<Found>, m: Found)
    requires ChainsOk(src, c) && 1 <= |found| && pos + |found| < |src| && AllMoved(src, c, pos, found)
    requires 0 < found[|found| - 1].len < m.len
    requires Longest(src, pos + |found|, Offered(src, EnterRun(src, c, pos, |found|), pos + |found|), m.len, m.off)
    ensures AllMoved(src, c, pos, found + [m])
  {
    hide Longest, Offered, ChainsOk, EnterRun;
    var v := found + [m];
    forall i: nat | 0 < i < |v| ensures Moved(src, c, pos, v, i) {
      if i < |found| {
        assert Moved(src, c, pos, found, i);
      }
    }
  }

  lemma StaysPut(src: seq<byte>, depth: nat, c: Chains, pos: nat, found: seq<Found>, len: nat, off: nat)
    requires ChainsOk(src, c) && 1 <= |found| && pos + |found| <= |src|
    requires MIN_MATCH <= found[|found| - 1].len && len <= found[|found| - 1].len
    requires Longest(src, pos + |found|, Offered(src, EnterRun(src, c, pos, |found|), pos + |found|), len, off)
    ensures Settled(src, depth, c, pos, found)
  {
    hide Longest, Offered, ChainsOk, EnterRun, Length;
    var at := pos + |found|;
    var v := Offered(src, EnterRun(src, c, pos, |found|), at);
    forall o: nat | o in v ensures Length(src, at, o) <= found[|found| - 1].len {
      if Length(src, at, o) >= MIN_MATCH { LongestAtLeast(src, at, v, len, off, o); }
    }
  }

  /** Every fourth position inside a match enters the chains. */
  method ChainInside(mf: HashChain, sp: nat, len: nat)
    requires mf.Valid() && Behind(mf.chains, sp + 1)
    modifies mf`chains, mf.htab, mf.chain
    ensures mf.Valid() && mf.chains == EnterInside(mf.src, old(mf.chains), sp, len, 1)
  {
    hide HashChain.Valid, Enter;
    var i := 1;
    while i < len && sp + i + MIN_MATCH + 1 <= |mf.src|
      invariant mf.Valid() && Behind(mf.chains, sp + i)
      invariant EnterInside(mf.src, mf.chains, sp, len, i) == EnterInside(mf.src, old(mf.chains), sp, len, 1)
      decreases len - i
    {
      EnterBehind(mf.src, mf.chains, sp + i, sp + i + 4);
      mf.Insert(sp + i);
      i := i + 4;
    }
  }

  /** The hash-chain parser; with neither chain nor lazy matching the flat-hash parser runs instead. */
  method ParseGreedy(src: seq<byte>, chainDepth: nat, lazyDepth: nat, minGain: nat) returns (seqs: seq<LzSeq>)
    requires |src| + 64 < U32_LIMIT
    ensures Parsed(src, Params(chainDepth, lazyDepth, minGain), seqs)
  {
    hide IsMatch, Tiles, End, AllKept, RepsOk, RepUpdate, HashChain.Valid, Enter, EnterRun, EnterInside;
    hide ParseOk, Allowed, Run, State, ChainsOk, Behind, Longest, Offered, AllMoved, Settled, Gain, MissStep;
    hide After, EnteredBy, Worth;
    seqs := [];
    ghost var prm := Params(chainDepth, lazyDepth, minGain);
    if chainDepth == 0 && lazyDepth == 0 {
      seqs := ParseFast(src);
      AnyGain(src, minGain, seqs);
      return;
    }
    if |src| < MIN_MATCH + 1 {
      return;
    }
    var mf := new HashChain(src, chainDepth, HASH_BITS);
    var sp, litStart := 0, 0;
    var rep: seq<nat> := [0, 0, 0];
    ghost var log: seq<seq<Found>> := [];
    ghost var p := Start(chainDepth);
    NoSteps(src, prm);
    while sp < |src|
      invariant mf.Valid() && mf.src == src && fresh(mf) && fresh(mf.htab) && fresh(mf.chain)
      invariant Run(src, prm, log) && p == State(src, prm, log)
      invariant p == Parse(sp, seqs, mf.chains, rep) && litStart == End(seqs, 0)
      decreases |src| - sp
    {
      ParseFacts(src, prm, p);
      ghost var c := mf.chains;
      var len, off := BestAt(mf, sp, rep);
      ghost var found := [Found(len, off)];
      LongestFacts(src, sp, rep + Offered(src, c, sp), len, off);
      FirstSettled(src, lazyDepth, c, sp, found);
      if len >= MIN_MATCH && lazyDepth > 0 {
        sp, len, off, found := Lazy(mf, sp, len, off, lazyDepth);
      }
      EntersAt(src, prm, c, p.sp, found, mf.chains);
      mf.Insert(sp);
      if len >= MIN_MATCH { MatchInside(src, sp, len, off); }
      GoesOn(src, prm, log, found);
      AfterIs(src, prm, p, found, sp, len, off);
      log := log + [found];
      if len >= MIN_MATCH && minGain > 0 && Gain(len, off) < minGain {
        len := 0;
      }
      if len >= MIN_MATCH {
        seqs := seqs + [LzSeq(sp - litStart, len, off)];
        rep := RepUpdate(rep, off);
        ChainInside(mf, sp, len);
        sp := sp + len;
        litStart := sp;
      } else {
        sp := sp + MissStep(sp - litStart);
      }
      p := State(src, prm, log);
    }
    assert GreedyParse(src, prm, log, seqs);
  }

  lemma AnyGain(src: seq<byte>, minGain: nat, ss: seq<LzSeq>)
    requires Parsed(src, Params(0, 0, 0), ss)
    ensures Parsed(src, Params(0, 0, minGain), ss)
  {
  }

  lemma NoSteps(src: seq<byte>, prm: Params)
    ensures Run(src, prm, []) && State(src, prm, []) == Start(prm.depth) && End([], 0) == 0
  {
  }

  /** Without a lazy search the first find is the last. */
  lemma FirstSettled(src: seq<byte>, lazy: nat, c: Chains, pos: nat, found: seq<Found>)
    requires ChainsOk(src, c) && |found| == 1 && pos < |src|
    ensures AllMoved(src, c, pos, found) && EnterRun(src, c, pos, 0) == c
    ensures found[0].len == 0 || lazy == 0 ==> Settled(src, lazy, c, pos, found)
  {
  }

  /** The position whose match is taken up is entered last, after a search that looked past it for a second time. */
  lemma EntersAt(src: seq<byte>, prm: Params, c: Chains, pos: nat, found: seq<Found>, d: Chains)
    requires ChainsOk(src, c) && Behind(c, pos) && |found| >= 1
    requires d == EnterRun(src, c, pos, if Looks(prm.lazy, found) then |found| else |found| - 1)
    ensures Enter(src, d, pos + |found| - 1) == EnteredBy(src, prm, c, pos, found)
    ensures forall p {:trigger p in d.known} :: p in d.known ==> p <= pos + |found| - 1
  {
    hide ChainsOk, Enter;
    EnterRunBehind(src, c, pos, if Looks(prm.lazy, found) then |found| else |found| - 1);
  }

  /** What a step comes to, as the code goes about it. */
  lemma AfterIs(src: seq<byte>, prm: Params, p: Parse, found: seq<Found>, at: nat, len: nat, off: nat)
    requires |found| >= 1 && End(p.seqs, 0) <= p.sp && |p.reps| == 3 && at == p.sp + |found| - 1
    requires found[|found| - 1] == Found(len, off) && (len == 0 || (len >= MIN_MATCH && off >= 1))
    ensures var lit, c := at - End(p.seqs, 0), EnteredBy(src, prm, p.chains, p.sp, found);
            if len == 0 || (prm.minGain > 0 && Gain(len, off) < prm.minGain)
            then After(src, prm, p, found) == Parse(at + MissStep(lit), p.seqs, c, p.reps)
            else
              var ss := p.seqs + [LzSeq(lit, len, off)];
              && After(src, prm, p, found)
                 == Parse(at + len, ss, EnterInside(src, c, at, len, 1), RepUpdate(p.reps, off))
              && End(ss, 0) == at + len
  {
    hide EnterInside, EnteredBy, RepUpdate, Gain, MissStep;
    EndSnoc(p.seqs, LzSeq(at - End(p.seqs, 0), len, off));
  }

  lemma GoesOn(src: seq<byte>, prm: Params, log: seq<seq<Found>>, found: seq<Found>)
    requires Run(src, prm, log) && State(src, prm, log).sp < |src|
    requires var p := State(src, prm, log);
             && ChainsOk(src, p.chains) && 1 <= |found| <= 1 + prm.lazy && p.sp + |found| <= |src|
             && Longest(src, p.sp, p.reps + Offered(src, p.chains, p.sp), found[0].len, found[0].off)
             && AllMoved(src, p.chains, p.sp, found) && Settled(src, prm.lazy, p.chains, p.sp, found)
    ensures Run(src, prm, log + [found])
    ensures State(src, prm, log + [found]) == After(src, prm, State(src, prm, log), found)
  {
    hide ParseOk, After, Longest, Offered, AllMoved, Settled, ChainsOk;
    assert Allowed(src, prm, State(src, prm, log), found);
    assert (log + [found])[..|log|] == log;
  }

  /** Chain depth and lazy depth of a compression level. */
  function LevelParams(level: int): (nat, nat)
  {
    if level == 1 then (0, 0)
    else if level == 2 then (4, 0)
    else if level == 4 then (8, 1)
    else if level == 5 then (16, 1)
    else if level == 6 then (32, 2)
    else if level >= 7 then (64, 2)
    else (4, 1)
  }

  /** Above the default, which is level 3 by another name, a higher level looks at least as far. */
  lemma LevelsLookFurther(a: int, b: int)
    requires 1 <= a <= b
    ensures LevelParams(a).0 <= LevelParams(b).0 && LevelParams(a).1 <= LevelParams(b).1
    ensures LevelParams(0) == LevelParams(3) && (LevelParams(a) == (0, 0) <==> a == 1)
  {
  }
}
