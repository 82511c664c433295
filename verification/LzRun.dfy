/**
 * What an LZ parse is (src/entropy/lz.c): the positions looked at one after the other, the offsets tried at
 * each, the longest match among them, the lazy moves, and the matches kept. The parsers compute such runs;
 * what holds of every run is proved here.
 */
module LzRun {
  import opened Base
  import opened LzFormat
  import opened LzMatch

  const HASH_BITS: nat := 18

  /* ---- Parses ------------------------------------------------------------ */

  /** One past the last byte a list of sequences covers, starting at pos. */
  function End(ss: seq<LzSeq>, pos: nat): (e: nat)
    ensures e >= pos
  {
    if ss == [] then pos else End(ss[..|ss| - 1], pos) + ss[|ss| - 1].lit + ss[|ss| - 1].len
  }

  /** The sequences cut the input into literal runs and true matches. */
  predicate Tiles(src: seq<byte>, ss: seq<LzSeq>)
  {
    if ss == [] then true
    else
      var front, s := ss[..|ss| - 1], ss[|ss| - 1];
      Tiles(src, front) && IsMatch(src, End(front, 0) + s.lit, s.len, s.off)
  }

  lemma TilesSnoc(src: seq<byte>, ss: seq<LzSeq>, s: LzSeq)
    requires Tiles(src, ss) && IsMatch(src, End(ss, 0) + s.lit, s.len, s.off)
    ensures Tiles(src, ss + [s]) && End(ss + [s], 0) == End(ss, 0) + s.lit + s.len
  {
    assert (ss + [s])[..|ss|] == ss;
  }

  lemma {:induction false} TilesInside(src: seq<byte>, ss: seq<LzSeq>)
    requires Tiles(src, ss)
    ensures End(ss, 0) <= |src|
    ensures forall i {:trigger ss[i]} :: 0 <= i < |ss| ==> SeqOk(ss[i])
  {
    if ss != [] {
      TilesInside(src, ss[..|ss| - 1]);
    }
  }

  lemma MatchInside(src: seq<byte>, pos: nat, len: nat, off: nat)
    requires IsMatch(src, pos, len, off)
    ensures pos + len <= |src| && MIN_MATCH <= len && 1 <= off <= MAX_OFFSET && off <= pos
  {
  }

  /** Matches of four bytes or more. */
  predicate AllLong(ss: seq<LzSeq>)
  {
    forall i {:trigger ss[i]} :: 0 <= i < |ss| ==> ss[i].len > MIN_MATCH
  }

  /* ---- Which matches are kept -------------------------------------------- */

  /** The probe after a miss lands further on the longer the pending literal run is. */
  function MissStep(run: nat): (s: nat)
    ensures 1 <= s <= 64 && (run < 64 ==> s == 1)
  {
    Min(1 + run / 64, 64)
  }

  /** Bytes a match saves over its literals, less its tag and offset. */
  function Gain(len: nat, off: nat): int
    requires off >= 1
  {
    len - 1 - OffsetSize(off)
  }

  /** A match worth keeping for this minimum gain; 0 keeps every match. */
  predicate Kept(s: LzSeq, minGain: nat)
  {
    s.off >= 1 && (minGain > 0 ==> Gain(s.len, s.off) >= minGain)
  }

  predicate AllKept(ss: seq<LzSeq>, minGain: nat)
  {
    forall i {:trigger ss[i]} :: 0 <= i < |ss| ==> Kept(ss[i], minGain)
  }

  /** A match found at pos or later extends the parse. */
  lemma NextMatch(src: seq<byte>, ss: seq<LzSeq>, pos: nat, len: nat, off: nat, minGain: nat)
    requires Tiles(src, ss) && AllKept(ss, minGain) && End(ss, 0) <= pos && IsMatch(src, pos, len, off)
    requires off >= 1 && (minGain == 0 || Gain(len, off) >= minGain)
    ensures var s := LzSeq(pos - End(ss, 0), len, off);
            Tiles(src, ss + [s]) && End(ss + [s], 0) == pos + len && AllKept(ss + [s], minGain)
  {
    hide IsMatch, Tiles, End, AllKept;
    var s := LzSeq(pos - End(ss, 0), len, off);
    TilesSnoc(src, ss, s);
    Keeps(ss, s, minGain);
  }

  lemma Keeps(ss: seq<LzSeq>, s: LzSeq, minGain: nat)
    requires AllKept(ss, minGain) && Kept(s, minGain)
    ensures AllKept(ss + [s], minGain)
  {
    hide Kept;
  }

  /** Three remembered offsets the format can hold. */
  predicate RepsOk(rep: seq<nat>)
  {
    |rep| == 3 && forall i :: 0 <= i < 3 ==> rep[i] <= MAX_OFFSET
  }

  lemma RepsStayOk(rep: seq<nat>, off: nat)
    requires RepsOk(rep) && off <= MAX_OFFSET
    ensures |rep| == 3 && RepsOk(RepUpdate(rep, off))
  {
  }

  /* ---- Runs of the hash-chain parser ------------------------------------- */

  datatype Params = Params(depth: nat, lazy: nat, minGain: nat)

  datatype Found = Found(len: nat, off: nat)

  /** Where the parser stands: the next position, the sequences so far, what was entered, the remembered offsets. */
  datatype Parse = Parse(sp: nat, seqs: seq<LzSeq>, chains: Chains, reps: seq<nat>)

  function Start(depth: nat): Parse
  {
    Parse(0, [], Chains(HASH_BITS, depth, {}, {}), [0, 0, 0])
  }

  ghost predicate Behind(c: Chains, pos: nat)
  {
    forall p {:trigger p in c.known} :: p in c.known ==> p < pos
  }

  ghost predicate ParseOk(src: seq<byte>, prm: Params, p: Parse)
  {
    && ChainsOk(src, p.chains) && p.chains.bits == HASH_BITS && p.chains.depth == prm.depth && Behind(p.chains, p.sp)
    && RepsOk(p.reps) && Tiles(src, p.seqs) && AllKept(p.seqs, prm.minGain) && End(p.seqs, 0) <= p.sp
  }

  /** n positions from pos on entered. */
  function EnterRun(src: seq<byte>, c: Chains, pos: nat, n: nat): (r: Chains)
    ensures r.bits == c.bits && r.depth == c.depth && (ChainsOk(src, c) ==> ChainsOk(src, r))
    ensures Behind(c, pos) ==> Behind(r, pos + n)
  {
    if n == 0 then c else Enter(src, EnterRun(src, c, pos, n - 1), pos + n - 1)
  }

  /** Every fourth position inside a match entered, from the i-th on. */
  function EnterInside(src: seq<byte>, c: Chains, sp: nat, len: nat, i: nat): (r: Chains)
    ensures r.bits == c.bits && r.depth == c.depth && (ChainsOk(src, c) ==> ChainsOk(src, r))
    ensures Behind(c, sp + len) ==> Behind(r, sp + len)
    decreases len - i
  {
    if i >= len || !Room(src, sp + i) then c else EnterInside(src, Enter(src, c, sp + i), sp, len, i + 4)
  }

  /** The matches found at p.sp and at the positions the lazy search moves on to. */
  ghost predicate Allowed(src: seq<byte>, prm: Params, p: Parse, found: seq<Found>)
    requires ChainsOk(src, p.chains)
  {
    && 1 <= |found| <= 1 + prm.lazy && p.sp + |found| <= |src|
    && Longest(src, p.sp, p.reps + Offered(src, p.chains, p.sp), found[0].len, found[0].off)
    && AllMoved(src, p.chains, p.sp, found) && Settled(src, prm.lazy, p.chains, p.sp, found)
  }

  /** A strictly longer match one position further on: the match before it is given up. */
  ghost predicate Moved(src: seq<byte>, c: Chains, pos: nat, found: seq<Found>, i: nat)
    requires ChainsOk(src, c) && 0 < i < |found| && pos + |found| <= |src|
  {
    && 0 < found[i - 1].len < found[i].len
    && Longest(src, pos + i, Offered(src, EnterRun(src, c, pos, i), pos + i), found[i].len, found[i].off)
  }

  ghost predicate AllMoved(src: seq<byte>, c: Chains, pos: nat, found: seq<Found>)
    requires ChainsOk(src, c) && pos + |found| <= |src|
  {
    forall i: nat {:trigger Moved(src, c, pos, found, i)} :: 0 < i < |found| ==> Moved(src, c, pos, found, i)
  }

  /** The search stops where it may go no further, or where the next position has no longer match. */
  ghost predicate Settled(src: seq<byte>, lazy: nat, c: Chains, pos: nat, found: seq<Found>)
    requires ChainsOk(src, c) && 1 <= |found| && pos + |found| <= |src|
  {
    Looks(lazy, found) ==>
      forall o: nat {:trigger Length(src, pos + |found|, o)} ::
        o in Offered(src, EnterRun(src, c, pos, |found|), pos + |found|) ==>
          Length(src, pos + |found|, o) <= found[|found| - 1].len
  }

  /** Whether the position after the last one found is looked at too. */
  predicate Looks(lazy: nat, found: seq<Found>)
    requires |found| >= 1
  {
    found[0].len > 0 && |found| <= lazy
  }

  /** A position the lazy search looked past is entered a second time when its match is taken up. */
  function EnteredBy(src: seq<byte>, prm: Params, c: Chains, sp: nat, found: seq<Found>): (r: Chains)
    requires |found| >= 1
    ensures r.bits == c.bits && r.depth == c.depth && (ChainsOk(src, c) ==> ChainsOk(src, r))
    ensures Behind(c, sp) ==> Behind(r, sp + |found|)
  {
    var r := EnterRun(src, c, sp, |found|);
    if Looks(prm.lazy, found) then Enter(src, r, sp + |found| - 1) else r
  }

  predicate Worth(m: Found, minGain: nat)
  {
    m.len > 0 && m.off >= 1 && (minGain == 0 || Gain(m.len, m.off) >= minGain)
  }

  /** The match taken, or the step past the positions looked at. */
  function After(src: seq<byte>, prm: Params, p: Parse, found: seq<Found>): (q: Parse)
    requires |found| >= 1 && End(p.seqs, 0) <= p.sp && |p.reps| == 3
    ensures q.sp > p.sp
  {
    var at, m := p.sp + |found| - 1, found[|found| - 1];
    var c := EnteredBy(src, prm, p.chains, p.sp, found);
    if Worth(m, prm.minGain) then
      Parse(at + m.len, p.seqs + [LzSeq(at - End(p.seqs, 0), m.len, m.off)], EnterInside(src, c, at, m.len, 1),
            RepUpdate(p.reps, m.off))
    else p.(sp := at + MissStep(at - End(p.seqs, 0)), chains := c)
  }

  /** A list of what was found, from the start of the input on. */
  ghost predicate Run(src: seq<byte>, prm: Params, log: seq<seq<Found>>)
    decreases |log|, 0
  {
    log != [] ==>
      var front := log[..|log| - 1];
      && Run(src, prm, front) && State(src, prm, front).sp < |src|
      && Allowed(src, prm, State(src, prm, front), log[|log| - 1])
  }

  ghost function State(src: seq<byte>, prm: Params, log: seq<seq<Found>>): (p: Parse)
    requires Run(src, prm, log)
    ensures ParseOk(src, prm, p)
    decreases |log|, 1
  {
    if log == [] then StartOk(src, prm); Start(prm.depth)
    else
      var p := State(src, prm, log[..|log| - 1]);
      AfterOk(src, prm, p, log[|log| - 1]);
      After(src, prm, p, log[|log| - 1])
  }

  lemma StartOk(src: seq<byte>, prm: Params)
    ensures ParseOk(src, prm, Start(prm.depth))
  {
  }

  /** The longest match is one the format can hold. */
  lemma LongestIsMatch(src: seq<byte>, pos: nat, offs: seq<nat>, len: nat, off: nat)
    requires pos <= |src| && Longest(src, pos, offs, len, off) && len > 0
    requires forall o {:trigger o in offs} :: o in offs ==> o <= MAX_OFFSET
    ensures IsMatch(src, pos, len, off)
  {
    hide Common, IsMatch, Beaten;
    CommonIsMatch(src, pos, off, |src| - pos, len);
  }

  lemma {:induction false} ReachedInWindow(src: seq<byte>, c: Chains, cand: nat, pos: nat, depth: nat)
    requires ChainsOk(src, c) && (cand == NONE || cand in c.known)
    ensures forall o {:trigger o in Reached(src, c, cand, pos, depth)} ::
              o in Reached(src, c, cand, pos, depth) ==> 1 <= o <= MAX_OFFSET
    decreases depth
  {
    hide Hash4;
    if cand != NONE && depth > 0 && !(cand < pos && pos - cand > MAX_OFFSET) {
      ReachedInWindow(src, c, Link(src, c, cand), pos, depth - 1);
    }
  }

  lemma OfferedInWindow(src: seq<byte>, c: Chains, pos: nat)
    requires ChainsOk(src, c)
    ensures forall o {:trigger o in Offered(src, c, pos)} :: o in Offered(src, c, pos) ==> 1 <= o <= MAX_OFFSET
  {
    hide Hash4;
    if Room(src, pos) {
      ReachedInWindow(src, c, Newest(src, c, Hash4(src, pos, c.bits), |src|), pos, c.depth + 1);
    }
  }

  /** What was found last is a match where it was found. */
  lemma LastIsMatch(src: seq<byte>, prm: Params, p: Parse, found: seq<Found>)
    requires ParseOk(src, prm, p) && Allowed(src, prm, p, found)
    ensures var m := found[|found| - 1]; m.len > 0 ==> IsMatch(src, p.sp + |found| - 1, m.len, m.off)
  {
    hide Longest, Offered, EnterRun, Tiles, AllKept, IsMatch;
    var n := |found| - 1;
    var m := found[n];
    if n == 0 {
      OfferedInWindow(src, p.chains, p.sp);
      if m.len > 0 { LongestIsMatch(src, p.sp, p.reps + Offered(src, p.chains, p.sp), m.len, m.off); }
    } else {
      assert Moved(src, p.chains, p.sp, found, n);
      var c := EnterRun(src, p.chains, p.sp, n);
      OfferedInWindow(src, c, p.sp + n);
      LongestIsMatch(src, p.sp + n, Offered(src, c, p.sp + n), m.len, m.off);
    }
  }

  lemma AfterOk(src: seq<byte>, prm: Params, p: Parse, found: seq<Found>)
    requires ParseOk(src, prm, p) && Allowed(src, prm, p, found)
    ensures ParseOk(src, prm, After(src, prm, p, found))
  {
    LastIsMatch(src, prm, p, found);
    hide ParseOk, After, IsMatch, Longest, Offered, Moved, Settled, RepsOk, Tiles, AllKept, End;
    ParseFacts(src, prm, p);
    MatchKeepsOk(src, prm, p, found);
  }

  lemma MatchKeepsOk(src: seq<byte>, prm: Params, p: Parse, found: seq<Found>)
    requires ParseOk(src, prm, p) && |found| >= 1
    requires var m := found[|found| - 1]; m.len > 0 ==> IsMatch(src, p.sp + |found| - 1, m.len, m.off)
    ensures ParseOk(src, prm, After(src, prm, p, found))
  {
    hide *;
    ParseFacts(src, prm, p);
    var at, m := p.sp + |found| - 1, found[|found| - 1];
    var c := EnteredBy(src, prm, p.chains, p.sp, found);
    if Worth(m, prm.minGain) {
      WorthFacts(m, prm.minGain);
      NextMatch(src, p.seqs, at, m.len, m.off, prm.minGain);
      MatchInside(src, at, m.len, m.off);
      RepsStayOk(p.reps, m.off);
      BehindFurther(c, at + 1, at + m.len);
      TakenOk(src, prm, p, found);
    } else {
      MissedOk(src, prm, p, found);
    }
  }

  lemma WorthFacts(m: Found, minGain: nat)
    requires Worth(m, minGain)
    ensures m.len > 0 && m.off >= 1 && (minGain == 0 || Gain(m.len, m.off) >= minGain)
  {
  }

  lemma ParseFacts(src: seq<byte>, prm: Params, p: Parse)
    requires ParseOk(src, prm, p)
    ensures ChainsOk(src, p.chains) && p.chains.bits == HASH_BITS && p.chains.depth == prm.depth
    ensures Behind(p.chains, p.sp) && |p.reps| == 3
    ensures RepsOk(p.reps) && Tiles(src, p.seqs) && AllKept(p.seqs, prm.minGain) && End(p.seqs, 0) <= p.sp
  {
  }

  lemma TakenOk(src: seq<byte>, prm: Params, p: Parse, found: seq<Found>)
    requires ParseOk(src, prm, p) && |found| >= 1 && Worth(found[|found| - 1], prm.minGain)
    requires var at, m := p.sp + |found| - 1, found[|found| - 1];
             var s := p.seqs + [LzSeq(at - End(p.seqs, 0), m.len, m.off)];
             && Tiles(src, s) && End(s, 0) == at + m.len && AllKept(s, prm.minGain)
             && RepsOk(RepUpdate(p.reps, m.off)) && m.len > 0
             && Behind(EnteredBy(src, prm, p.chains, p.sp, found), at + m.len)
    ensures ParseOk(src, prm, After(src, prm, p, found))
  {
    hide Tiles, AllKept, RepsOk, RepUpdate, ChainsOk, Behind, EnteredBy, EnterInside, End, Worth;
  }

  lemma MissedOk(src: seq<byte>, prm: Params, p: Parse, found: seq<Found>)
    requires ParseOk(src, prm, p) && |found| >= 1 && !Worth(found[|found| - 1], prm.minGain)
    ensures ParseOk(src, prm, After(src, prm, p, found))
  {
    BehindFurther(EnteredBy(src, prm, p.chains, p.sp, found), p.sp + |found|, After(src, prm, p, found).sp);
    hide Tiles, AllKept, RepsOk, ChainsOk, Behind, EnteredBy, End, Worth;
  }

  lemma BehindFurther(c: Chains, a: nat, b: nat)
    requires Behind(c, a) && a <= b
    ensures Behind(c, b)
  {
  }

  /** Every step of a run is one the state before it allows. */
  lemma {:induction false} RunStep(src: seq<byte>, prm: Params, log: seq<seq<Found>>, k: nat)
    requires Run(src, prm, log) && k < |log|
    ensures Run(src, prm, log[..k]) && Run(src, prm, log[..k + 1])
    ensures var p := State(src, prm, log[..k]);
            p.sp < |src| && Allowed(src, prm, p, log[k]) && State(src, prm, log[..k + 1]) == After(src, prm, p, log[k])
    decreases |log|
  {
    hide Allowed, ParseOk, After;
    var front := log[..|log| - 1];
    if k == |log| - 1 {
      assert log[..k] == front && log[..k + 1] == log;
    } else {
      RunStep(src, prm, front, k);
      assert front[..k] == log[..k] && front[..k + 1] == log[..k + 1];
    }
  }

  /* ---- Nothing better is missed ------------------------------------------ */

  /** The offsets tried at the i-th position looked at. */
  ghost function Tried(src: seq<byte>, p: Parse, i: nat): (v: seq<nat>)
    requires ChainsOk(src, p.chains)
  {
    if i == 0 then p.reps + Offered(src, p.chains, p.sp) else Offered(src, EnterRun(src, p.chains, p.sp, i), p.sp + i)
  }

  lemma LongestFits(src: seq<byte>, pos: nat, offs: seq<nat>, len: nat, off: nat)
    requires pos <= |src| && Longest(src, pos, offs, len, off)
    ensures len <= |src| - pos
  {
    hide Common, Beaten;
  }

  lemma FoundIsLongest(src: seq<byte>, prm: Params, p: Parse, found: seq<Found>, i: nat)
    requires ChainsOk(src, p.chains) && Allowed(src, prm, p, found) && i < |found|
    ensures p.sp + i <= |src| && Longest(src, p.sp + i, Tried(src, p, i), found[i].len, found[i].off)
    ensures i > 0 ==> 0 < found[i - 1].len < found[i].len
    ensures found[i].len <= |src| - p.sp - i
  {
    hide Longest, Offered, EnterRun, Length, Settled;
    assert i > 0 ==> Moved(src, p.chains, p.sp, found, i);
    LongestFits(src, p.sp + i, Tried(src, p, i), found[i].len, found[i].off);
  }

  lemma FoundSome(src: seq<byte>, prm: Params, p: Parse, found: seq<Found>)
    requires ChainsOk(src, p.chains) && Allowed(src, prm, p, found)
    ensures 1 <= |found| <= 1 + prm.lazy && p.sp + |found| <= |src|
  {
  }

  lemma {:induction false} LengthsGrow(src: seq<byte>, prm: Params, p: Parse, found: seq<Found>, i: nat)
    requires ChainsOk(src, p.chains) && Allowed(src, prm, p, found) && i < |found|
    ensures found[i].len <= found[|found| - 1].len
    decreases |found| - i
  {
    hide Allowed;
    if i + 1 < |found| {
      FoundIsLongest(src, prm, p, found, i + 1);
      LengthsGrow(src, prm, p, found, i + 1);
    }
  }

  /** The position after the last one looked at has no longer match either, as far as the search may look. */
  lemma NoLongerNext(src: seq<byte>, prm: Params, p: Parse, found: seq<Found>, o: nat)
    requires ChainsOk(src, p.chains) && Allowed(src, prm, p, found) && Looks(prm.lazy, found)
    requires o in Tried(src, p, |found|)
    ensures p.sp + |found| <= |src| && Length(src, p.sp + |found|, o) <= found[|found| - 1].len
  {
    hide Longest, Offered, EnterRun, Length, AllMoved, Settled;
    SettledAt(src, prm.lazy, p.chains, p.sp, found, o);
  }

  lemma SettledAt(src: seq<byte>, lazy: nat, c: Chains, pos: nat, found: seq<Found>, o: nat)
    requires ChainsOk(src, c) && 1 <= |found| && pos + |found| <= |src| && Looks(lazy, found)
    requires Settled(src, lazy, c, pos, found) && o in Offered(src, EnterRun(src, c, pos, |found|), pos + |found|)
    ensures Length(src, pos + |found|, o) <= found[|found| - 1].len
  {
    hide Offered, EnterRun, Length;
  }

  /**
   * Where no match is taken, each offset tried has too short a repeat, or one no longer than the last match
   * found; and that one, its offset taken into account, gains too little. So no offset tried gains enough,
   * unless the longest match has an offset of more than two bytes and another has a shorter one.
   */
  lemma MissedNothing(src: seq<byte>, prm: Params, p: Parse, found: seq<Found>, i: nat, o: nat)
    requires ParseOk(src, prm, p) && Allowed(src, prm, p, found) && !Worth(found[|found| - 1], prm.minGain)
    requires i < |found| && o in Tried(src, p, i)
    ensures p.sp + i <= |src|
    ensures var n, m := Length(src, p.sp + i, o), found[|found| - 1];
            n >= MIN_MATCH ==>
              && n <= m.len && o >= 1 && m.off >= 1
              && Gain(n, o) + OffsetSize(o) < prm.minGain + OffsetSize(m.off)
              && (m.off <= 65535 ==> Gain(n, o) < prm.minGain)
  {
    hide ParseOk, Allowed, Longest, Common, IsMatch, Tried, Worth, Gain, OffsetSize;
    ParseFacts(src, prm, p);
    LastIsMatch(src, prm, p, found);
    LengthsGrow(src, prm, p, found, i);
    FoundIsLongest(src, prm, p, found, i);
    var n, m := Length(src, p.sp + i, o), found[|found| - 1];
    if n >= MIN_MATCH {
      LongestAtLeast(src, p.sp + i, Tried(src, p, i), found[i].len, found[i].off, o);
      MatchInside(src, p.sp + |found| - 1, m.len, m.off);
      TooSmallGain(n, o, m, prm.minGain);
    }
  }

  lemma TooSmallGain(n: nat, o: nat, m: Found, minGain: nat)
    requires !Worth(m, minGain) && MIN_MATCH <= n <= m.len && o >= 1 && m.off >= 1
    ensures Gain(n, o) + OffsetSize(o) < minGain + OffsetSize(m.off)
    ensures m.off <= 65535 ==> Gain(n, o) < minGain
  {
    assert OffsetSize(o) >= 2;
  }

  /* ---- A run is determined ----------------------------------------------- */

  predicate SameFound(f: Found, g: Found)
  {
    f.len == g.len && (f.len > 0 ==> f.off == g.off)
  }

  /** What is found at a position does not depend on how the search goes on. */
  lemma FoundSame(src: seq<byte>, prm: Params, p: Parse, f: seq<Found>, g: seq<Found>, i: nat)
    requires ChainsOk(src, p.chains) && Allowed(src, prm, p, f) && Allowed(src, prm, p, g) && i < |f| && i < |g|
    ensures SameFound(f[i], g[i])
  {
    hide Allowed, ChainsOk, Longest, Tried;
    FoundIsLongest(src, prm, p, f, i);
    FoundIsLongest(src, prm, p, g, i);
    LongestUnique(src, p.sp + i, Tried(src, p, i), f[i].len, f[i].off, g[i].len, g[i].off);
  }

  /** One search cannot stop where another moves on. */
  lemma NotShorter(src: seq<byte>, prm: Params, p: Parse, f: seq<Found>, g: seq<Found>)
    requires ChainsOk(src, p.chains) && Allowed(src, prm, p, f) && Allowed(src, prm, p, g)
    ensures |f| >= |g|
  {
    hide Allowed, ChainsOk, Longest, Tried, Length;
    FoundSome(src, prm, p, f);
    FoundSome(src, prm, p, g);
    var n := |f|;
    if n < |g| {
      FoundIsLongest(src, prm, p, g, n);
      FoundSame(src, prm, p, f, g, n - 1);
      FoundSame(src, prm, p, f, g, 0);
      FirstFound(src, prm, p, g);
      LongestFacts(src, p.sp + n, Tried(src, p, n), g[n].len, g[n].off);
      NoLongerNext(src, prm, p, f, g[n].off);
    }
  }

  lemma FirstFound(src: seq<byte>, prm: Params, p: Parse, found: seq<Found>)
    requires ChainsOk(src, p.chains) && Allowed(src, prm, p, found) && |found| > 1
    ensures found[0].len > 0
  {
    hide Allowed, ChainsOk;
    FoundIsLongest(src, prm, p, found, 1);
  }

  lemma AfterSame(src: seq<byte>, prm: Params, p: Parse, f: seq<Found>, g: seq<Found>)
    requires ParseOk(src, prm, p) && Allowed(src, prm, p, f) && Allowed(src, prm, p, g)
    ensures |f| >= 1 && |g| >= 1 && End(p.seqs, 0) <= p.sp && |p.reps| == 3
    ensures After(src, prm, p, f) == After(src, prm, p, g)
  {
    hide ParseOk, Allowed, EnterInside, EnterRun, Gain, RepUpdate, MissStep;
    ParseFacts(src, prm, p);
    NotShorter(src, prm, p, f, g);
    NotShorter(src, prm, p, g, f);
    FoundSome(src, prm, p, f);
    FoundSame(src, prm, p, f, g, 0);
    FoundSame(src, prm, p, f, g, |f| - 1);
  }

  /** Runs over one input with one set of parameters are at the same point after the same number of steps. */
  lemma {:induction false} RunsAgree(src: seq<byte>, prm: Params, a: seq<seq<Found>>, b: seq<seq<Found>>)
    requires Run(src, prm, a) && Run(src, prm, b) && |a| == |b|
    ensures State(src, prm, a) == State(src, prm, b)
    decreases |a|
  {
    hide ParseOk, Allowed, After;
    if a != [] {
      var f, g := a[..|a| - 1], b[..|b| - 1];
      RunsAgree(src, prm, f, g);
      AfterSame(src, prm, State(src, prm, f), a[|a| - 1], b[|b| - 1]);
    }
  }

  /** So the sequences of a run over the whole input are determined. */
  lemma RunsEndAlike(src: seq<byte>, prm: Params, a: seq<seq<Found>>, b: seq<seq<Found>>)
    requires Run(src, prm, a) && Run(src, prm, b) && State(src, prm, a).sp >= |src| && State(src, prm, b).sp >= |src|
    ensures State(src, prm, a) == State(src, prm, b)
  {
    hide ParseOk, Allowed, After;
    assert a[..|a|] == a && b[..|b|] == b;
    if |a| < |b| {
      RunStep(src, prm, b, |a|);
      RunsAgree(src, prm, a, b[..|a|]);
    } else if |b| < |a| {
      RunStep(src, prm, a, |b|);
      RunsAgree(src, prm, a[..|b|], b);
    } else {
      RunsAgree(src, prm, a, b);
    }
  }

  /* ---- Equal bytes ------------------------------------------------------- */

  predicate AllEqual(src: seq<byte>)
  {
    forall i: nat {:trigger src[i]} :: i < |src| ==> src[i] == src[0]
  }

  lemma EqualLength(src: seq<byte>, pos: nat, off: nat)
    requires AllEqual(src) && 1 <= off <= pos <= |src|
    ensures Length(src, pos, off) == |src| - pos
  {
    CommonIs(src, pos, off, |src| - pos, |src| - pos);
  }

  lemma EqualHash(src: seq<byte>, i: nat, j: nat, bits: nat)
    requires AllEqual(src) && i + 4 <= |src| && j + 4 <= |src| && bits <= 32
    ensures Hash4(src, i, bits) == Hash4(src, j, bits)
  {
    assert src[i..i + 4] == src[j..j + 4];
  }

  /** With a single position entered, that is the one tried. */
  lemma OneOffered(src: seq<byte>, c: Chains, p: nat, pos: nat)
    requires AllEqual(src) && ChainsOk(src, c) && c.known == {p} && c.twice == {} && |src| <= NONE
    requires p < pos <= p + MAX_OFFSET && Room(src, pos)
    ensures Offered(src, c, pos) == [pos - p]
  {
    EqualHash(src, p, pos, c.bits);
    var h := Hash4(src, pos, c.bits);
    hide Hash4;
    NewestIsLast(src, c, h, |src|, p);
    assert Newest(src, c, h, |src|) == p;
    assert Newest(src, c, h, p) == NONE;
    assert Reached(src, c, NONE, pos, c.depth) == [];
  }

  lemma {:induction false} NothingOffered(src: seq<byte>, c: Chains, pos: nat)
    requires ChainsOk(src, c) && c.known == {}
    ensures Offered(src, c, pos) == []
  {
    hide Hash4;
    if Room(src, pos) { NothingKnown(src, c, Hash4(src, pos, c.bits), |src|); }
  }

  function ManyZeros(): (z: seq<byte>)
    ensures |z| == 70004 && AllEqual(z)
  {
    seq(70004, _ => 0)
  }

  /**
   * Only the longest match is tested for its gain: here four bytes repeat at a remembered offset of 70000,
   * which takes four bytes to write, and at an offset of 1, which takes two; the match is given up.
   */
  lemma GainPassedUp()
    ensures var prm, found := Params(4, 0, 1), [Found(4, 70000)];
            var p := Parse(70000, [], Chains(HASH_BITS, 4, {69999}, {}), [70000, 0, 0]);
            && ParseOk(ManyZeros(), prm, p) && Allowed(ManyZeros(), prm, p, found) && !Worth(found[0], 1)
            && 1 in Tried(ManyZeros(), p, 0) && Gain(Length(ManyZeros(), 70000, 1), 1) >= 1
  {
    hide ManyZeros, AllEqual, ParseOk, Allowed, Longest, Length, Tried, Offered, Worth, Gain, Room, ChainsOk;
    var z, c := ManyZeros(), Chains(HASH_BITS, 4, {69999}, {});
    var p := Parse(70000, [], c, [70000, 0, 0]);
    ZerosOk(z, Params(4, 0, 1), p);
    OneOffered(z, c, 69999, 70000);
    EqualLength(z, 70000, 70000);
    EqualLength(z, 70000, 1);
    assert [70000, 0, 0] + [1] == [70000, 0, 0, 1];
    TieAtFront(z, [70000, 0, 0, 1]);
    ZerosAllowed(z, Params(4, 0, 1), p);
  }

  lemma ZerosOk(z: seq<byte>, prm: Params, p: Parse)
    requires |z| == 70004 && prm == Params(4, 0, 1)
    requires p == Parse(70000, [], Chains(HASH_BITS, 4, {69999}, {}), [70000, 0, 0])
    ensures ParseOk(z, prm, p) && ChainsOk(z, p.chains) && Room(z, 70000)
  {
  }

  lemma ZerosAllowed(z: seq<byte>, prm: Params, p: Parse)
    requires |z| == 70004 && prm == Params(4, 0, 1) && ChainsOk(z, p.chains)
    requires p.sp == 70000 && p.reps == [70000, 0, 0] && Offered(z, p.chains, 70000) == [1]
    requires Longest(z, 70000, [70000, 0, 0, 1], 4, 70000) && Length(z, 70000, 1) == 4
    ensures Allowed(z, prm, p, [Found(4, 70000)]) && !Worth(Found(4, 70000), 1)
    ensures 1 in Tried(z, p, 0) && Gain(Length(z, 70000, 1), 1) >= 1
  {
    hide Longest, Offered, Length;
    assert p.reps + Offered(z, p.chains, p.sp) == [70000, 0, 0, 1];
    assert [70000, 0, 0, 1][3] == 1;
    assert OffsetSize(70000) == 4 && OffsetSize(1) == 2;
  }

  lemma TieAtFront(src: seq<byte>, v: seq<nat>)
    requires |src| == 70004 && v == [70000, 0, 0, 1]
    requires Length(src, 70000, 70000) == 4 && Length(src, 70000, 1) == 4
    ensures Longest(src, 70000, v, 4, 70000)
  {
    hide Common;
    forall i: nat | i < |v| ensures Beaten(src, 70000, v, i, 4, 70000) {
      assert v[..i + 1][0] == 70000;
    }
  }

  /** At the first position nothing is found. */
  lemma FirstFindsNothing(src: seq<byte>, prm: Params, found: seq<Found>)
    requires |src| > 0 && Allowed(src, prm, Start(prm.depth), found)
    ensures |found| == 1 && found[0].len == 0
  {
    var p := Start(prm.depth);
    NothingOffered(src, p.chains, 0);
    FoundIsLongest(src, prm, p, found, 0);
    if |found| > 1 { FoundIsLongest(src, prm, p, found, 1); }
    hide Allowed, Offered, Common, Longest;
    assert Tried(src, p, 0) == [0, 0, 0];
    LongestFacts(src, 0, [0, 0, 0], found[0].len, found[0].off);
  }

  lemma AfterFirst(src: seq<byte>, prm: Params, found: seq<Found>)
    requires |src| >= 5 && |found| == 1 && found[0].len == 0
    ensures After(src, prm, Start(prm.depth), found) == Parse(1, [], Chains(HASH_BITS, prm.depth, {0}, {}), [0, 0, 0])
  {
    assert EnterRun(src, Start(prm.depth).chains, 0, 0) == Start(prm.depth).chains;
  }

  /** At the second, the rest of the input repeats at offset 1. */
  lemma SecondFindsAll(src: seq<byte>, prm: Params, p: Parse, found: seq<Found>)
    requires AllEqual(src) && 5 <= |src| <= NONE && ChainsOk(src, p.chains) && Allowed(src, prm, p, found)
    requires p.sp == 1 && p.reps == [0, 0, 0] && p.chains.known == {0} && p.chains.twice == {}
    ensures found == [Found(|src| - 1, 1)]
  {
    hide AllEqual, Allowed, Longest, Offered, Common, EnterRun, ChainsOk;
    FoundSome(src, prm, p, found);
    FoundIsLongest(src, prm, p, found, 0);
    if |found| > 1 { FoundIsLongest(src, prm, p, found, 1); }
    OneOffered(src, p.chains, 0, 1);
    EqualLength(src, 1, 1);
    var v := Tried(src, p, 0);
    assert v == [0, 0, 0, 1];
    assert v[3] == 1;
    LongestAtLeast(src, 1, v, found[0].len, found[0].off, 1);
    LongestFacts(src, 1, v, found[0].len, found[0].off);
  }

  lemma AfterSecond(src: seq<byte>, prm: Params, p: Parse)
    requires 5 <= |src| && prm.minGain <= |src| - 4 && p.sp == 1 && p.seqs == [] && |p.reps| == 3
    ensures var q := After(src, prm, p, [Found(|src| - 1, 1)]); q.sp == |src| && q.seqs == [LzSeq(1, |src| - 1, 1)]
  {
    hide EnteredBy, EnterInside;
    assert OffsetSize(1) == 2;
  }

  /** Equal bytes, however many, parse into one byte and one match. */
  lemma EqualBytesRun(src: seq<byte>, prm: Params, log: seq<seq<Found>>)
    requires AllEqual(src) && 5 <= |src| <= NONE && prm.minGain <= |src| - 4
    requires Run(src, prm, log) && State(src, prm, log).sp >= |src|
    ensures State(src, prm, log).seqs == [LzSeq(1, |src| - 1, 1)]
  {
    hide AllEqual, Allowed, After, ParseOk;
    RunStep(src, prm, log, 0);
    FirstFindsNothing(src, prm, log[0]);
    AfterFirst(src, prm, log[0]);
    assert log[..0] == [] && log[..|log|] == log;
    RunStep(src, prm, log, 1);
    ParseFacts(src, prm, State(src, prm, log[..1]));
    SecondFindsAll(src, prm, State(src, prm, log[..1]), log[1]);
    AfterSecond(src, prm, State(src, prm, log[..1]));
    if |log| > 2 {
      RunStep(src, prm, log, 2);
    }
  }

  /* ---- What a run remembers ---------------------------------------------- */

  lemma {:induction false} EnterRunKnows(src: seq<byte>, c: Chains, pos: nat, n: nat)
    ensures c.known <= EnterRun(src, c, pos, n).known
    ensures forall k: nat {:trigger k in EnterRun(src, c, pos, n).known} ::
              pos <= k < pos + n && Room(src, k) ==> k in EnterRun(src, c, pos, n).known
  {
    if n > 0 {
      EnterRunKnows(src, c, pos, n - 1);
    }
  }

  lemma {:induction false} EnterInsideKnows(src: seq<byte>, c: Chains, sp: nat, len: nat, i: nat)
    ensures c.known <= EnterInside(src, c, sp, len, i).known
    decreases len - i
  {
    if i < len && Room(src, sp + i) {
      EnterInsideKnows(src, Enter(src, c, sp + i), sp, len, i + 4);
    }
  }

  /** Of the positions inside a match every fourth is entered, from the second on, and no other. */
  lemma {:induction false} EveryFourth(src: seq<byte>, c: Chains, sp: nat, len: nat, i: nat, k: nat)
    requires i % 4 == 1
    ensures k in EnterInside(src, c, sp, len, i).known <==>
            k in c.known || (sp + i <= k < sp + len && (k - sp) % 4 == 1 && Room(src, k))
    decreases len - i
  {
    if i < len && Room(src, sp + i) {
      EveryFourth(src, Enter(src, c, sp + i), sp, len, i + 4, k);
    }
  }

  /** A step enters every position it looked at and forgets none. */
  lemma AfterKnows(src: seq<byte>, prm: Params, p: Parse, found: seq<Found>)
    requires |found| >= 1 && End(p.seqs, 0) <= p.sp && |p.reps| == 3
    ensures var q := After(src, prm, p, found);
            && p.chains.known <= q.chains.known
            && forall k: nat {:trigger k in q.chains.known} ::
                 p.sp <= k < p.sp + |found| && Room(src, k) ==> k in q.chains.known
  {
    hide EnterRun, EnterInside;
    EnterRunKnows(src, p.chains, p.sp, |found|);
    EnterInsideKnows(src, EnteredBy(src, prm, p.chains, p.sp, found), p.sp + |found| - 1, found[|found| - 1].len, 1);
  }

  /** Every position looked at is among the positions entered in all later states. */
  lemma {:induction false} Remembers(src: seq<byte>, prm: Params, log: seq<seq<Found>>, k: nat, i: nat)
    requires Run(src, prm, log) && k < |log| && i < |log[k]|
    ensures Run(src, prm, log[..k])
    ensures var at := State(src, prm, log[..k]).sp + i; Room(src, at) ==> at in State(src, prm, log).chains.known
    decreases |log|
  {
    hide ParseOk, Allowed, After, EnterRun, EnterInside;
    var front := log[..|log| - 1];
    RunStep(src, prm, log, k);
    var p := State(src, prm, front);
    ParseFacts(src, prm, p);
    FoundSome(src, prm, p, log[|log| - 1]);
    AfterKnows(src, prm, p, log[|log| - 1]);
    if k == |log| - 1 {
      assert log[..k] == front;
    } else {
      Remembers(src, prm, front, k, i);
      assert front[..k] == log[..k];
    }
  }

  /* ---- Runs of the flat-hash parser -------------------------------------- */

  /** Where the flat-hash parser stands; step: how far a miss moves it. */
  datatype Flat = Flat(sp: nat, seqs: seq<LzSeq>, chains: Chains, step: nat)

  const FLAT_START: Flat := Flat(0, [], Chains(HASH_BITS, 0, {}, {}), 1)

  ghost predicate FlatOk(src: seq<byte>, p: Flat)
  {
    && ChainsOk(src, p.chains) && p.chains.bits == HASH_BITS && p.chains.depth == 0 && Behind(p.chains, p.sp)
    && Tiles(src, p.seqs) && AllLong(p.seqs) && End(p.seqs, 0) <= p.sp && 1 <= p.step <= 8
  }

  /** The one candidate: the last position entered under the hash. */
  ghost predicate FlatAllowed(src: seq<byte>, p: Flat, m: Found)
    requires ChainsOk(src, p.chains)
  {
    Room(src, p.sp) && Longest(src, p.sp, Offered(src, p.chains, p.sp), m.len, m.off)
  }

  /** Any match is taken; a miss moves on by one more than the miss before it, by at most eight. */
  function FlatAfter(src: seq<byte>, p: Flat, m: Found): (q: Flat)
    requires End(p.seqs, 0) <= p.sp && p.step >= 1
    ensures q.sp > p.sp
  {
    var c := Enter(src, p.chains, p.sp);
    if m.len > 0 then
      Flat(p.sp + m.len, p.seqs + [LzSeq(p.sp - End(p.seqs, 0), m.len, m.off)],
           EnterInside(src, c, p.sp, m.len, 1), 1)
    else Flat(p.sp + p.step, p.seqs, c, if p.step < 8 then p.step + 1 else p.step)
  }

  ghost predicate FlatRun(src: seq<byte>, log: seq<Found>)
    decreases |log|, 0
  {
    log != [] ==>
      var front := log[..|log| - 1];
      FlatRun(src, front) && FlatAllowed(src, FlatState(src, front), log[|log| - 1])
  }

  ghost function FlatState(src: seq<byte>, log: seq<Found>): (p: Flat)
    requires FlatRun(src, log)
    ensures FlatOk(src, p)
    decreases |log|, 1
  {
    if log == [] then FLAT_START
    else
      var p := FlatState(src, log[..|log| - 1]);
      FlatAfterOk(src, p, log[|log| - 1]);
      FlatAfter(src, p, log[|log| - 1])
  }

  /** The candidate has the hash of sp: if its first three bytes are the same, so is the fourth. */
  lemma ThreeMeansFour(src: seq<byte>, sp: nat, cand: nat)
    requires cand < sp && sp + 4 <= |src| && Hash4(src, cand, HASH_BITS) == Hash4(src, sp, HASH_BITS)
    ensures Common(src, sp, sp - cand, |src| - sp) != 3
  {
    hide Hash4;
    var off := sp - cand;
    CommonRepeats(src, sp, off, |src| - sp);
    if Common(src, sp, off, |src| - sp) == 3 {
      assert SameAt(src, sp, off) && SameAt(src, sp + 1, off) && SameAt(src, sp + 2, off) && !SameAt(src, sp + 3, off);
      SameBucketSameFourth(src, cand, sp);
    }
  }

  /** The offset tried leads to a position with the same hash, so a match is of four bytes or more. */
  lemma FlatIsLong(src: seq<byte>, p: Flat, m: Found)
    requires FlatOk(src, p) && FlatAllowed(src, p, m) && m.len > 0
    ensures IsMatch(src, p.sp, m.len, m.off) && m.len > MIN_MATCH
  {
    hide Hash4, Common, IsMatch, Tiles, AllLong, End;
    OfferedInWindow(src, p.chains, p.sp);
    LongestIsMatch(src, p.sp, Offered(src, p.chains, p.sp), m.len, m.off);
    var cand := Newest(src, p.chains, Hash4(src, p.sp, HASH_BITS), |src|);
    assert Reached(src, p.chains, cand, p.sp, 1) == [p.sp - cand];
    ThreeMeansFour(src, p.sp, cand);
  }

  lemma FlatAfterOk(src: seq<byte>, p: Flat, m: Found)
    requires FlatOk(src, p) && FlatAllowed(src, p, m)
    ensures FlatOk(src, FlatAfter(src, p, m))
  {
    hide FlatAllowed, Tiles, AllLong, End, EnterInside, IsMatch;
    var c := Enter(src, p.chains, p.sp);
    if m.len > 0 {
      FlatIsLong(src, p, m);
      MatchInside(src, p.sp, m.len, m.off);
      TilesSnoc(src, p.seqs, LzSeq(p.sp - End(p.seqs, 0), m.len, m.off));
      LongSnoc(p.seqs, LzSeq(p.sp - End(p.seqs, 0), m.len, m.off));
      BehindFurther(c, p.sp + 1, p.sp + m.len);
    } else {
      BehindFurther(c, p.sp + 1, p.sp + p.step);
    }
  }

  lemma LongSnoc(ss: seq<LzSeq>, s: LzSeq)
    requires AllLong(ss) && s.len > MIN_MATCH
    ensures AllLong(ss + [s])
  {
  }

  lemma {:induction false} FlatStep(src: seq<byte>, log: seq<Found>, k: nat)
    requires FlatRun(src, log) && k < |log|
    ensures FlatRun(src, log[..k]) && FlatRun(src, log[..k + 1])
    ensures var p := FlatState(src, log[..k]);
            FlatAllowed(src, p, log[k]) && FlatState(src, log[..k + 1]) == FlatAfter(src, p, log[k])
    decreases |log|
  {
    hide FlatAllowed, FlatOk, FlatAfter;
    var front := log[..|log| - 1];
    if k == |log| - 1 {
      assert log[..k] == front && log[..k + 1] == log;
    } else {
      FlatStep(src, front, k);
      assert front[..k] == log[..k] && front[..k + 1] == log[..k + 1];
    }
  }

  lemma FlatAfterSame(src: seq<byte>, p: Flat, f: Found, g: Found)
    requires FlatOk(src, p) && FlatAllowed(src, p, f) && FlatAllowed(src, p, g)
    ensures FlatAfter(src, p, f) == FlatAfter(src, p, g)
  {
    hide EnterInside, Longest, Offered;
    LongestUnique(src, p.sp, Offered(src, p.chains, p.sp), f.len, f.off, g.len, g.off);
  }

  lemma {:induction false} FlatRunsAgree(src: seq<byte>, a: seq<Found>, b: seq<Found>)
    requires FlatRun(src, a) && FlatRun(src, b) && |a| == |b|
    ensures FlatState(src, a) == FlatState(src, b)
    decreases |a|
  {
    hide FlatOk, FlatAllowed, FlatAfter;
    if a != [] {
      var f, g := a[..|a| - 1], b[..|b| - 1];
      FlatRunsAgree(src, f, g);
      FlatAfterSame(src, FlatState(src, f), a[|a| - 1], b[|b| - 1]);
    }
  }

  lemma FlatRunsEndAlike(src: seq<byte>, a: seq<Found>, b: seq<Found>)
    requires FlatRun(src, a) && FlatRun(src, b)
    requires !Room(src, FlatState(src, a).sp) && !Room(src, FlatState(src, b).sp)
    ensures FlatState(src, a) == FlatState(src, b)
  {
    hide FlatOk, FlatAfter, Longest;
    assert a[..|a|] == a && b[..|b|] == b;
    if |a| < |b| {
      FlatStep(src, b, |a|);
      FlatRunsAgree(src, a, b[..|a|]);
    } else if |b| < |a| {
      FlatStep(src, a, |b|);
      FlatRunsAgree(src, a[..|b|], b);
    } else {
      FlatRunsAgree(src, a, b);
    }
  }

  /** Equal bytes take the flat-hash parser two steps too. */
  lemma EqualBytesFlat(src: seq<byte>, log: seq<Found>)
    requires AllEqual(src) && 5 <= |src| <= NONE && FlatRun(src, log) && !Room(src, FlatState(src, log).sp)
    ensures FlatState(src, log).seqs == [LzSeq(1, |src| - 1, 1)]
  {
    hide AllEqual, FlatOk, Longest, EnterInside, Offered;
    assert log[..0] == [] && log[..|log|] == log;
    FlatStep(src, log, 0);
    NothingOffered(src, FLAT_START.chains, 0);
    LongestFacts(src, 0, [], log[0].len, log[0].off);
    var p := FlatState(src, log[..1]);
    assert p == Flat(1, [], Chains(HASH_BITS, 0, {0}, {}), 2);
    FlatStep(src, log, 1);
    OneOffered(src, p.chains, 0, 1);
    EqualLength(src, 1, 1);
    LongestAtLeast(src, 1, [1], log[1].len, log[1].off, 1);
    LongestFacts(src, 1, [1], log[1].len, log[1].off);
    if |log| > 2 {
      FlatStep(src, log, 2);
    }
  }

  /* ---- The parse of an input --------------------------------------------- */

  /** The sequences of a run over the whole input; inputs too short for a match have none. */
  ghost predicate Parsed(src: seq<byte>, prm: Params, ss: seq<LzSeq>)
  {
    if |src| < MIN_MATCH + 1 then ss == []
    else if prm.depth == 0 && prm.lazy == 0 then exists log :: FlatParse(src, log, ss)
    else exists log :: GreedyParse(src, prm, log, ss)
  }

  ghost predicate GreedyParse(src: seq<byte>, prm: Params, log: seq<seq<Found>>, ss: seq<LzSeq>)
  {
    Run(src, prm, log) && State(src, prm, log).sp >= |src| && State(src, prm, log).seqs == ss
  }

  ghost predicate FlatParse(src: seq<byte>, log: seq<Found>, ss: seq<LzSeq>)
  {
    FlatRun(src, log) && !Room(src, FlatState(src, log).sp) && FlatState(src, log).seqs == ss
  }

  /** The parameters and the input determine the parse. */
  lemma ParsedOnce(src: seq<byte>, prm: Params, a: seq<LzSeq>, b: seq<LzSeq>)
    requires Parsed(src, prm, a) && Parsed(src, prm, b)
    ensures a == b
  {
    hide Run, State, FlatRun, FlatState;
    if |src| >= MIN_MATCH + 1 {
      if prm.depth == 0 && prm.lazy == 0 {
        var l, m :| FlatParse(src, l, a) && FlatParse(src, m, b);
        FlatRunsEndAlike(src, l, m);
      } else {
        var l, m :| GreedyParse(src, prm, l, a) && GreedyParse(src, prm, m, b);
        RunsEndAlike(src, prm, l, m);
      }
    }
  }

  /** A parse cuts the input into literals and true matches, each of them long enough or gaining enough. */
  lemma ParsedTiles(src: seq<byte>, prm: Params, ss: seq<LzSeq>)
    requires Parsed(src, prm, ss)
    ensures Tiles(src, ss)
    ensures if prm.depth > 0 || prm.lazy > 0 then AllKept(ss, prm.minGain) else AllLong(ss)
  {
    hide Run, State, FlatRun, FlatState, Tiles, AllKept, AllLong, ChainsOk, Behind;
    NoSequences(src, prm.minGain);
    if |src| >= MIN_MATCH + 1 {
      if prm.depth == 0 && prm.lazy == 0 {
        var l :| FlatParse(src, l, ss);
        assert FlatOk(src, FlatState(src, l));
      } else {
        var l :| GreedyParse(src, prm, l, ss);
        ParseFacts(src, prm, State(src, prm, l));
      }
    }
  }

  /** n equal bytes parse into a literal and a match of the rest at offset 1. */
  lemma EqualBytes(src: seq<byte>, prm: Params, ss: seq<LzSeq>)
    requires Parsed(src, prm, ss) && AllEqual(src) && 5 <= |src| <= NONE && prm.minGain <= |src| - 4
    ensures ss == [LzSeq(1, |src| - 1, 1)]
  {
    hide Run, State, FlatRun, FlatState, AllEqual;
    if prm.depth == 0 && prm.lazy == 0 {
      var l :| FlatParse(src, l, ss);
      EqualBytesFlat(src, l);
    } else {
      var l :| GreedyParse(src, prm, l, ss);
      EqualBytesRun(src, prm, l);
    }
  }

  lemma NoSequences(src: seq<byte>, minGain: nat)
    ensures Tiles(src, []) && End([], 0) == 0 && AllKept([], minGain) && AllLong([])
  {
  }
}
