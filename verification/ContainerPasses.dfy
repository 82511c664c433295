/**
 * Whole passes over a container file, and passes over passes: what a pass leaves is given by the calls
 * made, whatever offsets were used, and every file any pass can leave may start the next one.
 */
module ContainerPasses {
  import opened Base
  import opened ContainerFormat
  import opened ContainerGrowth
  import opened ContainerEntries
  import opened ContainerIo
  import opened ContainerEncoder
  import opened ContainerTable

  lemma ContentMatched(enc: Encoder)
    requires enc.Content()
    ensures Matched(enc.entries, enc.records)
  {
  }

  /* ---- Running calls ----------------------------------------------------- */

  /** The table an encoder has so far. */
  ghost function Now(enc: Encoder): Table
    reads enc`entries, enc`records, enc`nBlocks
  {
    TableOf(enc.entries, enc.records, enc.nBlocks)
  }

  /**
   * The calls the encoder takes: blocks while a row group is open to them, columns for row groups with room for
   * one more; a group ends with a block at least, when extending with as many as the schema has columns.
   */
  predicate Accepts(mode: Mode, nCols: nat, t: Table, op: Op)
  {
    match op
    case Block(_) => mode != Widen && t.openStats == None
    case EndGroup(_) => mode != Widen && t.open != [] && (mode == Extend ==> |t.open| == nCols)
    case Stats(_, n) => t.open != [] && t.openStats == None && n == |t.open|
    case Column(rg, _, _) => mode == Widen && rg < |t.groups| && |t.groups[rg].blocks| != U16_LIMIT - 1
  }

  predicate AcceptsAll(mode: Mode, nCols: nat, t: Table, ops: seq<Op>)
  {
    if ops == [] then true
    else
      var front := ops[..|ops| - 1];
      AcceptsAll(mode, nCols, t, front) && Accepts(mode, nCols, ApplyAll(t, front), ops[|ops| - 1])
  }

  lemma {:induction false} AcceptsNext(mode: Mode, nCols: nat, t: Table, ops: seq<Op>, i: nat)
    requires i < |ops|
    ensures AcceptsAll(mode, nCols, t, ops[..i + 1]) ==
            (AcceptsAll(mode, nCols, t, ops[..i]) && Accepts(mode, nCols, ApplyAll(t, ops[..i]), ops[i]))
    ensures AcceptsAll(mode, nCols, t, ops) ==> AcceptsAll(mode, nCols, t, ops[..i + 1])
    decreases |ops|
  {
    hide Accepts, ApplyAll;
    var front := ops[..|ops| - 1];
    assert ops[..i + 1][..i] == ops[..i];
    if i == |ops| - 1 {
      assert ops[..i + 1] == ops;
    } else {
      AcceptsNext(mode, nCols, t, front, i);
      assert front[..i + 1] == ops[..i + 1] && front[..i] == ops[..i];
    }
  }

  /** What an accepted call tells besides: it suits the mode, and whether all columns were counted. */
  ghost predicate AfterCall(enc: Encoder, op: Op, counted: bool, open: nat)
    reads enc`counted
  {
    op.Column? == (enc.mode == Widen) && enc.counted == (counted && (op.EndGroup? ==> open < U16_LIMIT))
  }

  /**
   * A call that went through was one the encoder takes, and wrote its record; one it takes that did not go
   * through met a fault or the limit of the disk.
   */
  ghost predicate Ruled(enc: Encoder, op: Op, ok: bool, t: Table, pos: nat, faults: nat)
    reads enc`writePos, enc.io`faults
  {
    && (ok ==> Accepts(enc.mode, enc.schemaNCols, t, op) && enc.writePos == pos + OpBytes(op))
    && enc.io.faults >= faults
       + Blame(ok || !Accepts(enc.mode, enc.schemaNCols, t, op) || !enc.Reaches(pos + OpBytes(op)))
  }

  lemma NearIs(enc: Encoder, n: nat)
    ensures enc.Near(n) == enc.Reaches(enc.writePos + n)
  {
  }

  lemma Written(enc: Encoder, op: Op, ok: bool, t: Table, pos: nat, faults: nat)
    requires Accepts(enc.mode, enc.schemaNCols, t, op) && (ok ==> enc.writePos == pos + OpBytes(op))
    requires enc.io.faults >= faults + Blame(ok || !enc.Reaches(pos + OpBytes(op)))
    ensures Ruled(enc, op, ok, t, pos, faults)
  {
  }

  /** A call that writes nothing is decided by the rules alone. */
  lemma Unwritten(enc: Encoder, op: Op, ok: bool, t: Table)
    requires ok <==> Accepts(enc.mode, enc.schemaNCols, t, op)
    requires ok ==> OpBytes(op) == 0
    ensures Ruled(enc, op, ok, t, enc.writePos, enc.io.faults)
  {
    hide Accepts;
  }

  /** One call. A record never follows the statistics of its own row group. */
  method Call(enc: Encoder, op: Op) returns (ok: bool)
    requires enc.Valid() && Matched(enc.entries, enc.records) && OpFits(op)
    modifies enc, enc.io
    ensures enc.Guarded()
    ensures Ruled(enc, op, ok, old(Now(enc)), old(enc.writePos), old(enc.io.faults))
    ensures ok ==> enc.Valid() && Matched(enc.entries, enc.records)
    ensures ok ==> Now(enc) == Apply(old(Now(enc)), op) && AfterCall(enc, op, old(enc.counted), |old(enc.records.cur)|)
  {
    ValidGuarded(enc);
    ghost var e, r := enc.entries, enc.records;
    match op
    case Block(rec) =>
      ok := CallBlock(enc, rec);
    case EndGroup(n) =>
      ok := CallEnd(enc, n);
    case Stats(s, n) =>
      ok := CallStats(enc, s, n);
    case Column(rg, rec, s) =>
      ok := CallColumn(enc, rg, rec, s);
  }

  lemma ValidGuarded(enc: Encoder)
    requires enc.Valid()
    ensures enc.Guarded() && enc.Content()
  {
  }

  method CallBlock(enc: Encoder, rec: seq<byte>) returns (ok: bool)
    requires enc.Valid() && Matched(enc.entries, enc.records)
    modifies enc, enc.io
    ensures enc.Guarded()
    ensures Ruled(enc, Block(rec), ok, old(Now(enc)), old(enc.writePos), old(enc.io.faults))
    ensures ok ==> enc.Valid() && Matched(enc.entries, enc.records)
    ensures ok ==> Now(enc) == Apply(old(Now(enc)), Block(rec))
    ensures ok ==> AfterCall(enc, Block(rec), old(enc.counted), |old(enc.records.cur)|)
  {
    hide *;
    ValidGuarded(enc);
    ghost var t, faults := Now(enc), enc.io.faults;
    NowIs(enc);
    if enc.mode == Widen || enc.entries.stats.Some? {
      BlockRule(enc, t, rec);
      Unwritten(enc, Block(rec), false, t);
      return false;
    }
    ghost var e, r, at, n := enc.entries, enc.records, enc.writePos, enc.nBlocks;
    NearIs(enc, |rec|);
    BlockRule(enc, t, rec);
    ok := enc.AppendRecord(rec);
    Written(enc, Block(rec), ok, t, at, faults);
    if ok {
      ValidGuarded(enc);
      ContentMatched(enc);
      BlockCalled(enc, e, r, n, at, rec);
    }
  }

  lemma BlockRule(enc: Encoder, t: Table, rec: seq<byte>)
    ensures Accepts(enc.mode, enc.schemaNCols, t, Block(rec)) <==> enc.mode != Widen && t.openStats == None
    ensures OpBytes(Block(rec)) == |rec|
  {
  }

  lemma NowIs(enc: Encoder)
    ensures Now(enc) == TableOf(enc.entries, enc.records, enc.nBlocks) && Now(enc).open == enc.records.cur
    ensures Now(enc).openStats == enc.entries.stats
  {
  }

  lemma BlockCalled(enc: Encoder, e: Entries, r: Records, n: nat, at: nat, rec: seq<byte>)
    requires Matched(e, r) && enc.mode != Widen && enc.nBlocks == NextCount(n)
    requires enc.entries == Appended(e, at, |rec|) && enc.records == r.(cur := r.cur + [rec])
    ensures Now(enc) == Apply(TableOf(e, r, n), Block(rec)) && AfterCall(enc, Block(rec), enc.counted, |r.cur|)
  {
    BlockApplies(e, r, at, rec, n);
  }

  method CallEnd(enc: Encoder, n: nat) returns (ok: bool)
    requires enc.Valid() && Matched(enc.entries, enc.records) && n < U64_LIMIT
    modifies enc, enc.io
    ensures enc.Guarded()
    ensures Ruled(enc, EndGroup(n), ok, old(Now(enc)), old(enc.writePos), old(enc.io.faults))
    ensures ok ==> enc.Valid() && Matched(enc.entries, enc.records)
    ensures ok ==> Now(enc) == Apply(old(Now(enc)), EndGroup(n))
    ensures ok ==> AfterCall(enc, EndGroup(n), old(enc.counted), |old(enc.records.cur)|)
  {
    hide *;
    ghost var e, r, t, c := enc.entries, enc.records, Now(enc), enc.counted;
    NowIs(enc);
    EndRule(enc, n);
    ok := enc.EndRowgroup(n);
    Unwritten(enc, EndGroup(n), ok, t);
    ValidGuarded(enc);
    ContentMatched(enc);
    NowIs(enc);
    if ok {
      EndCalled(enc, e, r, n, c);
    }
  }

  lemma EndRule(enc: Encoder, n: nat)
    requires Matched(enc.entries, enc.records)
    ensures Accepts(enc.mode, enc.schemaNCols, Now(enc), EndGroup(n)) <==>
            && enc.mode != Widen && enc.entries.cols != []
            && (enc.mode == Extend ==> |enc.entries.cols| == enc.schemaNCols)
    ensures OpBytes(EndGroup(n)) == 0 && |enc.entries.cols| == |enc.records.cur|
  {
  }

  lemma EndCalled(enc: Encoder, e: Entries, r: Records, n: nat, counted: bool)
    requires enc.mode != Widen && enc.counted == (counted && |e.cols| < U16_LIMIT)
    requires Matched(e, r) && enc.entries == Ended(e, n) && enc.records == Records(r.groups + [Counted(r.cur)], [])
    ensures Now(enc) == Apply(TableOf(e, r, enc.nBlocks), EndGroup(n))
    ensures AfterCall(enc, EndGroup(n), counted, |r.cur|)
  {
    EndApplies(e, r, n, enc.nBlocks);
  }

  lemma StatsRule(enc: Encoder, s: seq<byte>, n: nat)
    requires Matched(enc.entries, enc.records)
    ensures Accepts(enc.mode, enc.schemaNCols, Now(enc), Stats(s, n)) <==>
            enc.entries.cols != [] && enc.entries.stats == None && n == |enc.entries.cols|
    ensures OpBytes(Stats(s, n)) == 0
  {
  }

  method CallStats(enc: Encoder, s: seq<byte>, n: nat) returns (ok: bool)
    requires enc.Valid() && Matched(enc.entries, enc.records) && n < U16_LIMIT && |s| == STATS_ENTRY * n
    modifies enc, enc.io
    ensures enc.Guarded()
    ensures Ruled(enc, Stats(s, n), ok, old(Now(enc)), old(enc.writePos), old(enc.io.faults))
    ensures ok ==> enc.Valid() && Matched(enc.entries, enc.records)
    ensures ok ==> Now(enc) == Apply(old(Now(enc)), Stats(s, n))
    ensures ok ==> AfterCall(enc, Stats(s, n), old(enc.counted), |old(enc.records.cur)|)
  {
    ghost var t := Now(enc);
    StatsRule(enc, s, n);
    ok := enc.SetStats(s, n);
    Unwritten(enc, Stats(s, n), ok, t);
    ValidGuarded(enc);
    ContentMatched(enc);
  }

  method CallColumn(enc: Encoder, rg: nat, rec: seq<byte>, s: Option<seq<byte>>) returns (ok: bool)
    requires enc.Valid() && Matched(enc.entries, enc.records) && (s.Some? ==> |s.value| == STATS_ENTRY)
    modifies enc, enc.io
    ensures enc.Guarded()
    ensures Ruled(enc, Column(rg, rec, s), ok, old(Now(enc)), old(enc.writePos), old(enc.io.faults))
    ensures ok ==> enc.Valid() && Matched(enc.entries, enc.records)
    ensures ok ==> Now(enc) == Apply(old(Now(enc)), Column(rg, rec, s))
    ensures ok ==> AfterCall(enc, Column(rg, rec, s), old(enc.counted), |old(enc.records.cur)|)
  {
    hide *;
    ghost var e, r, at, n := enc.entries, enc.records, enc.writePos, enc.nBlocks;
    ghost var t, faults := Now(enc), enc.io.faults;
    NowIs(enc);
    NearIs(enc, |rec|);
    ColumnRule(enc, rg, rec, s);
    ok := enc.WidenBlock(rg, rec, s);
    ColumnRuled(enc, rg, rec, s, ok, t, at, faults);
    if ok {
      ValidGuarded(enc);
      ContentMatched(enc);
      ColumnCalled(enc, e, r, n, at, rg, rec, s);
    }
  }

  lemma ColumnRule(enc: Encoder, rg: nat, rec: seq<byte>, s: Option<seq<byte>>)
    requires Matched(enc.entries, enc.records)
    ensures Accepts(enc.mode, enc.schemaNCols, Now(enc), Column(rg, rec, s)) <==>
            enc.mode == Widen && rg < |enc.entries.groups| && |enc.entries.groups[rg].cols| != U16_LIMIT - 1
    ensures OpBytes(Column(rg, rec, s)) == |rec|
  {
  }

  lemma ColumnRuled(enc: Encoder, rg: nat, rec: seq<byte>, s: Option<seq<byte>>, ok: bool, t: Table, pos: nat,
                    faults: nat)
    requires enc.io.faults >= faults && OpBytes(Column(rg, rec, s)) == |rec|
    requires ok ==> Accepts(enc.mode, enc.schemaNCols, t, Column(rg, rec, s)) && enc.writePos == pos + |rec|
    requires Accepts(enc.mode, enc.schemaNCols, t, Column(rg, rec, s)) ==>
               enc.io.faults >= faults + Blame(ok || !enc.Reaches(pos + |rec|))
    ensures Ruled(enc, Column(rg, rec, s), ok, t, pos, faults)
  {
    hide Accepts;
  }

  lemma ColumnCalled(enc: Encoder, e: Entries, r: Records, n: nat, at: nat, rg: nat, rec: seq<byte>,
                     s: Option<seq<byte>>)
    requires Matched(e, r) && enc.mode == Widen && enc.nBlocks == NextCount(n) && rg < |e.groups|
    requires enc.entries == Widened(e, rg, at, |rec|, s)
    requires enc.records == r.(groups := r.groups[rg := r.groups[rg] + [rec]])
    ensures Now(enc) == Apply(TableOf(e, r, n), Column(rg, rec, s))
    ensures AfterCall(enc, Column(rg, rec, s), enc.counted, |r.cur|)
  {
    WidenApplies(e, r, rg, at, rec, s, n);
  }

  /** Calls in order, stopping at the first that is refused or fails. */
  method RunCalls(enc: Encoder, ops: seq<Op>) returns (ok: bool)
    requires enc.Valid() && Matched(enc.entries, enc.records) && forall i :: 0 <= i < |ops| ==> OpFits(ops[i])
    modifies enc, enc.io
    ensures enc.Guarded()
    ensures ok ==> enc.Valid() && Matched(enc.entries, enc.records)
    ensures ok ==> Now(enc) == ApplyAll(old(Now(enc)), ops)
    ensures ok ==> enc.counted == (old(enc.counted) && AllCounted(old(Now(enc)), ops))
    ensures ok ==> forall i {:trigger ops[i]} :: 0 <= i < |ops| ==> ops[i].Column? == (enc.mode == Widen)
    ensures ok ==> AcceptsAll(enc.mode, enc.schemaNCols, old(Now(enc)), ops)
    ensures ok ==> enc.writePos == old(enc.writePos) + TotalBytes(ops)
    ensures enc.io.faults >= old(enc.io.faults)
                             + Blame(ok || !AcceptsAll(enc.mode, enc.schemaNCols, old(Now(enc)), ops)
                                     || !enc.Reaches(old(enc.writePos) + TotalBytes(ops)))
  {
    hide *;
    ghost var t, c, pos, faults := Now(enc), enc.counted, enc.writePos, enc.io.faults;
    ValidGuarded(enc);
    ApplyNone(t, ops);
    NoCalls(enc.mode, enc.schemaNCols, t, ops);
    for i := 0 to |ops|
      invariant enc.Valid() && Matched(enc.entries, enc.records)
      invariant Now(enc) == ApplyAll(t, ops[..i]) && enc.counted == (c && AllCounted(t, ops[..i]))
      invariant forall k {:trigger ops[k]} :: 0 <= k < i ==> ops[k].Column? == (enc.mode == Widen)
      invariant AcceptsAll(enc.mode, enc.schemaNCols, t, ops[..i]) && enc.writePos == pos + TotalBytes(ops[..i])
      invariant enc.io.faults >= faults
    {
      ghost var before, at, faulted := enc.records.cur, enc.writePos, enc.io.faults;
      NowIs(enc);
      ok := Call(enc, ops[i]);
      CallRuled(enc, ops, i, ok, t, pos, at, faulted);
      if !ok {
        return;
      }
      CallTells(enc, ops[i], c && AllCounted(t, ops[..i]), |before|);
      ApplyNext(t, ops, i);
    }
    ValidGuarded(enc);
    assert ops[..|ops|] == ops;
    ok := true;
  }

  lemma NoCalls(mode: Mode, nCols: nat, t: Table, ops: seq<Op>)
    ensures AcceptsAll(mode, nCols, t, ops[..0]) && TotalBytes(ops[..0]) == 0
  {
  }

  /** What one call comes to among all of them. */
  lemma CallRuled(enc: Encoder, ops: seq<Op>, i: nat, ok: bool, t: Table, pos: nat, at: nat, faults: nat)
    requires i < |ops| && AcceptsAll(enc.mode, enc.schemaNCols, t, ops[..i]) && at == pos + TotalBytes(ops[..i])
    requires Ruled(enc, ops[i], ok, ApplyAll(t, ops[..i]), at, faults)
    ensures ok ==> AcceptsAll(enc.mode, enc.schemaNCols, t, ops[..i + 1])
    ensures ok ==> enc.writePos == pos + TotalBytes(ops[..i + 1])
    ensures enc.io.faults >= faults + Blame(ok || !AcceptsAll(enc.mode, enc.schemaNCols, t, ops)
                                            || !enc.Reaches(pos + TotalBytes(ops)))
  {
    hide Accepts, AcceptsAll, ApplyAll, TotalBytes, OpBytes;
    AcceptsNext(enc.mode, enc.schemaNCols, t, ops, i);
    TotalGrows(ops, i);
  }

  lemma CallTells(enc: Encoder, op: Op, counted: bool, open: nat)
    requires AfterCall(enc, op, counted, open)
    ensures op.Column? == (enc.mode == Widen) && enc.counted == (counted && (op.EndGroup? ==> open < U16_LIMIT))
  {
  }

  /* ---- Whole passes ------------------------------------------------------ */

  /** Where a pass over a file starts: the row groups and the block count found, no row group open. */
  function Start(b: seq<byte>): Table
  {
    if Read(b).Ok? then Table(RowsOf(Read(b).value), [], None, Read(b).value.nBlocks) else Table([], [], None, 0)
  }

  /** The file reads as the finished row groups of t, with its block count, under this schema. */
  predicate Holds(b: seq<byte>, t: Table, schema: seq<byte>)
  {
    && Read(b).Ok? && RowsOf(Read(b).value) == t.groups && Read(b).value.nBlocks == t.count
    && Read(b).value.schema == schema
  }

  /** What one pass over the container base may leave: a container reading as before, or one reading as t. */
  predicate PassOutcome(base: seq<byte>, img: seq<byte>, t: Table, schema: seq<byte>)
    requires Container(base)
  {
    Sound(img) && (Recovers(base, img) || (Holds(img, t, schema) && (t.groups != [] ==> Container(img))))
  }

  /** Every file in the set is a possible outcome. */
  ghost predicate AllOutcomes(base: seq<byte>, images: iset<seq<byte>>, t: Table, schema: seq<byte>)
    requires Container(base)
  {
    forall img {:trigger img in images} :: img in images ==> PassOutcome(base, img, t, schema)
  }

  lemma RecoveredOutcomes(base: seq<byte>, now: seq<byte>, images: iset<seq<byte>>, t: Table, schema: seq<byte>)
    requires Container(base) && Recovers(base, now) && AllRecover(base, images)
    ensures PassOutcome(base, now, t, schema) && AllOutcomes(base, images, t, schema)
  {
    hide Container, Read, ReopenCheck;
  }

  lemma GuardedRecovers(enc: Encoder)
    requires enc.mode != Create && enc.Recoverable()
    ensures Container(enc.base) && Recovers(enc.base, enc.io.bytes) && AllRecover(enc.base, enc.io.crash)
  {
    hide Container, Read, ParseHeader, LiveOf, Intact, Recovers;
    IntactReads(enc.base, enc.io.bytes, enc.named);
  }

  lemma GuardedIsRecoverable(enc: Encoder)
    requires enc.mode != Create && enc.Guarded()
    ensures enc.Recoverable()
  {
  }

  /** Gives up on a pass: the file and every crash image read as before it. */
  method GiveUp(enc: Encoder, ghost t: Table, ghost schema: seq<byte>)
    requires enc.mode != Create && enc.Guarded()
    modifies enc, enc.io
    ensures Container(enc.base) && Recovers(enc.base, enc.io.bytes) && AllRecover(enc.base, enc.io.crash)
    ensures PassOutcome(enc.base, enc.io.bytes, t, schema) && AllOutcomes(enc.base, enc.io.crash, t, schema)
    ensures enc.io.faults >= old(enc.io.faults)
  {
    hide Encoder.Recoverable, Encoder.AsFound, Container, Recovers, AllRecover, PassOutcome, AllOutcomes,
      Encoder.Restored;
    GuardedIsRecoverable(enc);
    var ok := enc.Abort();
    GuardedRecovers(enc);
    RecoveredOutcomes(enc.base, enc.io.bytes, enc.io.crash, t, schema);
  }

  lemma ClosedOutcome(base: seq<byte>, img: seq<byte>, view: View, t: Table)
    requires Container(base) && Outcome(base, img, view) && RowsOf(view) == t.groups && view.nBlocks == t.count
    requires |view.groups| == |t.groups|
    ensures PassOutcome(base, img, t, view.schema)
  {
    hide Container, Read, Recovers, RowsOf, ReopenCheck, Sound;
    OutcomeSound(base, img, view);
  }

  /** The file is a container whose index comes right after its live data, or after blocks of a group never ended. */
  predicate IndexInPlace(b: seq<byte>, allEnded: bool)
  {
    && Container(b) && LiveOf(b) <= ParseHeader(b).indexOffset
    && (allEnded ==> LiveOf(b) == ParseHeader(b).indexOffset)
  }

  /**
   * A closed pass wrote the header once for each time the index moved and once to finish. With k >= 2 moves it
   * wrote more than 2^(k-1) of the original's index sizes between the original's live data and its own index's end.
   */
  predicate FewMoves(base: seq<byte>, b: seq<byte>, headerWrites: nat)
    requires Container(base)
  {
    headerWrites >= 3 ==>
      |b| >= HEADER_SIZE && Pow2(headerWrites - 2) * ParseHeader(base).indexSize < IndexEnd(b) - LiveOf(base)
  }

  /** What close writes besides the header. */
  function TailBytes(mode: Mode, t: Table, schema: seq<byte>): nat
  {
    IndexSize(t.groups) + if mode == Widen then |schema| else 0
  }

  lemma TailIs(enc: Encoder)
    requires enc.Valid() && Matched(enc.entries, enc.records)
    ensures enc.TailSize() == TailBytes(enc.mode, Now(enc), enc.schemaBuf)
  {
    hide Describes, EndOf, AllColumned, Encoder.Growing, Encoder.Building, IndexBytes, IndexSize;
    IndexSizeIs(enc.entries.groups, enc.records.groups);
  }

  /** Closing: what is left, or could have been left, is the old container or the calls applied to it. */
  method Commit(enc: Encoder, ghost t: Table, ghost schema: seq<byte>) returns (ok: bool)
    requires enc.Valid() && enc.mode != Create && Matched(enc.entries, enc.records) && Now(enc) == t
    requires Container(enc.base) && (enc.mode == Extend ==> schema == Read(enc.base).value.schema)
    requires enc.mode == Widen ==> schema == enc.schemaBuf
    modifies enc, enc.io
    ensures PassOutcome(enc.base, enc.io.bytes, t, schema) && AllOutcomes(enc.base, enc.io.crash, t, schema)
    ensures ok ==> Holds(enc.io.bytes, t, schema)
    ensures ok && t.groups != [] ==> IndexInPlace(enc.io.bytes, enc.mode == Widen || t.open == [])
    ensures ok && t.groups != [] ==> FewMoves(enc.base, enc.io.bytes, enc.io.headerWrites)
    ensures enc.io.faults >= old(enc.io.faults)
                             + Blame(ok || !enc.Reaches(old(enc.writePos) + TailBytes(enc.mode, t, schema)))
  {
    hide Encoder.Valid, Container, Read, Recovers, Sound, LiveOf, ParseHeader, Outcome, PassOutcome, FewMoves,
      IndexEnd, Encoder.Paid, IndexBytes;
    enc.ValidFound();
    ghost var view, base := enc.Finished(), enc.base;
    FinishedRows(enc);
    FoundAt(enc);
    TailIs(enc);
    NearIs(enc, enc.TailSize());
    ok := enc.CloseGrown();
    ClosedOutcome(base, enc.io.bytes, view, t);
    forall img | img in enc.io.crash ensures PassOutcome(base, img, t, schema) {
      ClosedOutcome(base, img, view, t);
    }
    if ok && t.groups != [] { PaidFor(enc, enc.io.bytes); }
  }

  lemma FoundAt(enc: Encoder)
    requires enc.Valid() && enc.mode != Create
    ensures Container(enc.base) && enc.origHdr == ParseHeader(enc.base) && enc.reuseStart == LiveOf(enc.base)
  {
    hide Container, ParseHeader, LiveOf, Read;
  }

  lemma PaidFor(enc: Encoder, b: seq<byte>)
    requires Container(enc.base) && enc.origHdr == ParseHeader(enc.base) && enc.reuseStart == LiveOf(enc.base)
    requires Container(b) && enc.Paid(IndexEnd(b) - enc.reuseStart) && enc.io.headerWrites == enc.moves + 1
    ensures FewMoves(enc.base, b, enc.io.headerWrites)
  {
    hide Read, ParseHeader, Pow2, LiveOf;
  }

  lemma FinishedRows(enc: Encoder)
    requires Matched(enc.entries, enc.records) && (enc.mode == Extend ==> Read(enc.base).Ok?)
    ensures RowsOf(enc.Finished()) == Now(enc).groups && enc.Finished().nBlocks == Now(enc).count
    ensures enc.mode == Extend ==> enc.Finished().schema == Read(enc.base).value.schema
    ensures enc.mode != Extend ==> enc.Finished().schema == enc.schemaBuf
    ensures |enc.Finished().groups| == |enc.entries.groups| == |Now(enc).groups|
    ensures |enc.entries.cols| == |Now(enc).open|
  {
    hide Read;
  }

  lemma OpenedTable(enc: Encoder, io: Io, mode: Mode, schema: seq<byte>)
    requires Container(io.bytes) && Opened(enc, io, mode, schema)
    ensures Matched(enc.entries, enc.records) && Now(enc) == Start(io.bytes) && enc.counted
    ensures enc.Valid() && enc.io == io && enc.mode == mode && enc.base == io.bytes && enc.schemaBuf == schema
  {
    hide ParseHeader, Container;
    ValidGuarded(enc);
    ContentMatched(enc);
    ContainerCount(io.bytes);
  }

  lemma ContainerCount(b: seq<byte>)
    requires Container(b)
    ensures Read(b).Ok? && |b| >= HEADER_SIZE && Read(b).value.nBlocks == ParseHeader(b).nBlocks
  {
  }

  /** How a pass ends when its calls went through. */
  datatype Ending = CloseIt | AbortIt

  /** Runs an opened pass to its end. What shows is what the caller meant: no block is lost to a column count. */
  method Finish(enc: Encoder, ops: seq<Op>, ending: Ending, ghost schema: seq<byte>) returns (done: bool)
    requires enc.Valid() && enc.mode != Create && enc.counted && Matched(enc.entries, enc.records)
    requires forall i :: 0 <= i < |ops| ==> OpFits(ops[i])
    requires Container(enc.base) && (enc.mode == Extend ==> schema == Read(enc.base).value.schema)
    requires enc.mode == Widen ==> schema == enc.schemaBuf
    modifies enc, enc.io
    ensures var t := MeantAll(old(Now(enc)), ops);
            && PassOutcome(enc.base, enc.io.bytes, t, schema) && AllOutcomes(enc.base, enc.io.crash, t, schema)
            && (done ==> ending == CloseIt && Holds(enc.io.bytes, t, schema))
            && (ending == AbortIt ==> Recovers(enc.base, enc.io.bytes) && AllRecover(enc.base, enc.io.crash))
            && (done && t.groups != [] ==> IndexInPlace(enc.io.bytes, enc.mode == Widen || t.open == []))
            && (done && t.groups != [] ==> FewMoves(enc.base, enc.io.bytes, enc.io.headerWrites))
    ensures done ==> AcceptsAll(enc.mode, enc.schemaNCols, old(Now(enc)), ops)
    ensures enc.io.faults >= old(enc.io.faults)
                             + Blame(done || ending == AbortIt
                                     || !Feasible(enc, old(Now(enc)), old(enc.writePos), ops, schema))
  {
    hide *;
    ghost var start, pos := Now(enc), enc.writePos;
    ghost var t := MeantAll(start, ops);
    if Feasible(enc, start, pos, ops, schema) { FeasibleIs(enc, start, pos, ops, schema); }
    var ok := RunCalls(enc, ops);
    if !ok || ending == AbortIt {
      GiveUp(enc, t, schema);
      return false;
    }
    GrownCounted(enc);
    CountedIsMeant(start, ops);
    done := Commit(enc, t, schema);
  }

  /** The encoder takes all the calls, and the disk has room for what they and close write. */
  predicate Feasible(enc: Encoder, t: Table, pos: nat, ops: seq<Op>, schema: seq<byte>)
  {
    && AcceptsAll(enc.mode, enc.schemaNCols, t, ops)
    && enc.Reaches(pos + TotalBytes(ops) + TailBytes(enc.mode, ApplyAll(t, ops), schema))
  }

  lemma FeasibleIs(enc: Encoder, t: Table, pos: nat, ops: seq<Op>, schema: seq<byte>)
    requires Feasible(enc, t, pos, ops, schema)
    ensures AcceptsAll(enc.mode, enc.schemaNCols, t, ops) && enc.Reaches(pos + TotalBytes(ops))
    ensures enc.Reaches(pos + TotalBytes(ops) + TailBytes(enc.mode, ApplyAll(t, ops), schema))
  {
    hide AcceptsAll, TotalBytes, TailBytes, ApplyAll;
  }

  lemma GrownCounted(enc: Encoder)
    requires enc.Valid() && enc.mode != Create
    ensures enc.counted
  {
    hide Describes, EndOf, Encoder.Growing;
  }

  /**
   * One pass that adds columns or row groups to whatever the file holds. Whenever it is cut off, the file is a
   * container that reads as before, or as the caller's calls applied to it with every block kept.
   */
  method GrowPass(io: Io, mode: Mode, hooked: bool, schema: seq<byte>, ops: seq<Op>, ending: Ending)
    returns (done: bool)
    requires mode != Create && Sound(io.bytes) && (schema == [] || SchemaReadable(schema))
    requires forall i :: 0 <= i < |ops| ==> OpFits(ops[i])
    modifies io
    ensures Sound(io.bytes) && forall img {:trigger img in io.crash} :: img in io.crash ==> Sound(img)
    ensures done ==> Container(old(io.bytes)) && ending == CloseIt
    ensures Container(old(io.bytes)) ==>
              var t := MeantAll(Start(old(io.bytes)), ops);
              var s := if mode == Widen then schema else Read(old(io.bytes)).value.schema;
              && PassOutcome(old(io.bytes), io.bytes, t, s) && AllOutcomes(old(io.bytes), io.crash, t, s)
              && (done ==> Holds(io.bytes, t, s))
              && (ending == AbortIt ==> Recovers(old(io.bytes), io.bytes) && AllRecover(old(io.bytes), io.crash))
              && (done && t.groups != [] ==> IndexInPlace(io.bytes, mode == Widen || t.open == []))
              && (done && t.groups != [] ==> FewMoves(old(io.bytes), io.bytes, io.headerWrites))
    ensures done ==> CanGrow(old(io.bytes), mode, schema, ops)
    ensures io.faults >= old(io.faults)
                         + Blame(done || ending == AbortIt || !CanGrow(old(io.bytes), mode, schema, ops)
                                 || !RoomToGrow(old(io.bytes), mode, schema, ops))
  {
    hide CanGrow, RoomToGrow, Feasible, AcceptsAll, TotalBytes, TailBytes, ApplyAll, FarIndex, SchemaColumns;
    hide ParseHeader, LiveOf, ReopenCheck;
    hide Container, Recovers, AllRecover, Holds, Sound, MeantAll, Start, Opened, Matched, Now, Encoder.Valid,
      SchemaReadable, Read, IndexInPlace, FewMoves, PassOutcome, AllOutcomes;
    var found;
    ghost var base := io.bytes;
    if mode == Widen {
      found := OpenWiden(io, hooked, schema);
    } else {
      found := OpenExtend(io, hooked);
    }
    if found.Err? {
      NothingDone(io.bytes, io.crash);
      if found.error != IO || FarIndex(base) { NotOpened(base, mode, schema, ops, found.error); }
      return false;
    }
    var enc := found.value;
    ContainerOk(base);
    OpenedColumns(enc, io, mode);
    OpenedCanGrow(enc, io, mode, schema, ops);
    OpenedTable(enc, io, mode, if mode == Widen then schema else []);
    done := Finish(enc, ops, ending, if mode == Widen then schema else Read(base).value.schema);
    OutcomesSound(base, io.bytes, io.crash, MeantAll(Start(base), ops),
                  if mode == Widen then schema else Read(base).value.schema);
  }

  /** The schema column count an extending pass goes by. */
  function ColumnsOf(b: seq<byte>): nat
  {
    if Read(b).Ok? && SchemaColumns(Read(b).value.schema).Ok? then SchemaColumns(Read(b).value.schema).value else 0
  }

  /** The file can be opened for the pass, and every call is one the encoder takes. */
  predicate CanGrow(b: seq<byte>, mode: Mode, schema: seq<byte>, ops: seq<Op>)
  {
    && Container(b) && AcceptsAll(mode, if mode == Extend then ColumnsOf(b) else 0, Start(b), ops)
    && if mode == Widen then 0 < |schema| < U32_LIMIT else ParseHeader(b).schemaSize > 0 && ColumnsOf(b) > 0
  }

  /** What the pass writes, and the copies of the index that it calls for, stay within what the disk accepts. */
  predicate RoomToGrow(b: seq<byte>, mode: Mode, schema: seq<byte>, ops: seq<Op>)
    requires Container(b)
  {
    var bytes := TotalBytes(ops) + TailBytes(mode, ApplyAll(Start(b), ops), schema);
    ParseHeader(b).indexOffset <= MAX_OFFSET && LiveOf(b) + 2 * bytes + 3 * ParseHeader(b).indexSize <= MAX_OFFSET
  }

  lemma OpenedColumns(enc: Encoder, io: Io, mode: Mode)
    requires Container(io.bytes) && Read(io.bytes).Ok?
    requires mode != Create && exists schema :: Opened(enc, io, mode, schema)
    requires mode == Extend ==> SchemaColumns(Read(io.bytes).value.schema) == Ok(enc.schemaNCols)
    ensures enc.schemaNCols == if mode == Extend then ColumnsOf(io.bytes) else 0
    ensures mode == Extend ==> enc.schemaNCols > 0
  {
    hide Describes, Encoder.Growing, EndOf, AllColumned;
    hide Container, Read, SchemaColumns, ParseHeader, LiveOf;
  }

  /** An opened pass takes the calls it was said to take. */
  lemma OpenedCanGrow(enc: Encoder, io: Io, mode: Mode, schema: seq<byte>, ops: seq<Op>)
    requires Container(io.bytes) && Read(io.bytes).Ok? && |io.bytes| >= HEADER_SIZE && mode != Create
    requires Opened(enc, io, mode, if mode == Widen then schema else [])
    requires enc.schemaNCols == if mode == Extend then ColumnsOf(io.bytes) else 0
    requires if mode == Widen then 0 < |schema| < U32_LIMIT
             else ParseHeader(io.bytes).schemaSize > 0 && ColumnsOf(io.bytes) > 0
    ensures CanGrow(io.bytes, mode, schema, ops) <==> AcceptsAll(enc.mode, enc.schemaNCols, Start(io.bytes), ops)
    ensures CanGrow(io.bytes, mode, schema, ops) && RoomToGrow(io.bytes, mode, schema, ops) ==>
              Feasible(enc, Start(io.bytes), enc.writePos, ops,
                       if mode == Widen then schema else Read(io.bytes).value.schema)
  {
    hide Container, Read, SchemaColumns, ParseHeader, LiveOf, AcceptsAll, ApplyAll, TotalBytes, Start;
  }

  /** Why opening failed, when no call did. */
  lemma NotOpened(b: seq<byte>, mode: Mode, schema: seq<byte>, ops: seq<Op>, e: Error)
    requires FarIndex(b) || ReopenCheck(b) == Err(e) || (mode == Widen && (schema == [] || |schema| >= U32_LIMIT))
             || (mode == Extend && |b| >= HEADER_SIZE && ParseHeader(b).schemaSize == 0)
             || (mode == Extend && Container(b) && SchemaColumns(Read(b).value.schema) in {Err(Corrupt), Ok(0)})
    ensures CanGrow(b, mode, schema, ops) ==> !RoomToGrow(b, mode, schema, ops)
  {
  }

  lemma OutcomesSound(base: seq<byte>, now: seq<byte>, images: iset<seq<byte>>, t: Table, schema: seq<byte>)
    requires Container(base) && PassOutcome(base, now, t, schema) && AllOutcomes(base, images, t, schema)
    ensures Sound(now) && forall img {:trigger img in images} :: img in images ==> Sound(img)
  {
    hide Container, Recovers, Holds, Sound;
  }

  /** A file that was not touched. */
  lemma NothingDone(b: seq<byte>, images: iset<seq<byte>>)
    requires Sound(b) && images == iset{b}
    ensures forall img {:trigger img in images} :: img in images ==> Sound(img)
    ensures Container(b) ==> Recovers(b, b) && AllRecover(b, images) && Read(b).Ok?
    ensures Container(b) ==> forall t, s :: PassOutcome(b, b, t, s) && AllOutcomes(b, images, t, s)
  {
    hide ReopenCheck;
  }

  /* ---- Building ---------------------------------------------------------- */

  /** Every row group kept at least one block. */
  predicate NoneEmpty(rows: seq<RowGroup>)
  {
    forall i {:trigger rows[i]} :: 0 <= i < |rows| ==> rows[i].blocks != []
  }

  lemma NoneEmptyColumned(e: Entries, r: Records, n: nat)
    requires Matched(e, r)
    ensures AllColumned(e.groups) <==> NoneEmpty(TableOf(e, r, n).groups)
  {
    var rows := TableOf(e, r, n).groups;
    forall i | 0 <= i < |rows| ensures rows[i].blocks == [] <==> e.groups[i].cols == [] {
      assert |e.groups[i].cols| == |r.groups[i]|;
    }
    if NoneEmpty(rows) {
      forall i | 0 <= i < |e.groups| ensures e.groups[i].cols != [] { assert rows[i].blocks != []; }
    }
    if AllColumned(e.groups) {
      forall i | 0 <= i < |rows| ensures rows[i].blocks != [] { assert e.groups[i].cols != []; }
    }
  }

  /** What a closed new container holds: the calls made, or nothing readable. */
  predicate Built(b: seq<byte>, flags: nat, schema: seq<byte>, t: Table, m: Table)
    requires flags < U16_LIMIT
  {
    && (if NoneEmpty(t.groups) then Holds(b, t, schema) else Read(b) == Err(Corrupt))
    && (Holds(b, m, schema) <==> GroupsSmall(m.groups))
    && (t.groups != [] && NoneEmpty(t.groups) && HasFlag(flags, HETEROGENEOUS) ==>
          IndexInPlace(b, GroupsSmall(m.groups) && t.open == []))
  }

  /**
   * Builds a container in an emptied file. Closed, it reads as what the caller meant if and only if every row
   * group had fewer than 65536 blocks; it cannot be read if one of a multiple of 65536 blocks lost them all.
   */
  method BuildPass(io: Io, flags: nat, shape: Shape, schema: seq<byte>, ops: seq<Op>, ending: Ending)
    returns (done: bool)
    requires flags < U16_LIMIT && ShapeFits(shape) && (schema == [] || SchemaReadable(schema))
    requires forall i :: 0 <= i < |ops| ==> OpFits(ops[i])
    modifies io
    ensures Sound(io.bytes) && forall img {:trigger img in io.crash} :: img in io.crash ==> Sound(img)
    ensures done ==> ending == CloseIt && Built(io.bytes, flags, schema, ApplyAll(EMPTY, ops), MeantAll(EMPTY, ops))
    ensures done ==> CanBuild(schema, ops)
    ensures io.faults >= old(io.faults)
                         + Blame(done || ending == AbortIt || !CanBuild(schema, ops) || !RoomToBuild(schema, ops))
  {
    hide AcceptsAll, TotalBytes, TailBytes, CanBuild, RoomToBuild, FarIndex;
    hide Encoder.Valid, Encoder.Building, Encoder.Content, Sound, Read, Early, SchemaReadable, Matched, ApplyAll,
      NoneEmpty, Now, AllColumned, Encoder.Finished, Container, LiveOf, ParseHeader, Built, AllCounted;
    io.Truncate();
    var begun := OpenCreate(io, flags, shape, schema);
    if begun.Err? {
      EarlySound(io.bytes, io.crash);
      BuildRules(schema, ops);
      return false;
    }
    var enc := begun.value;
    FreshTable(enc);
    FreshRules(enc, schema, ops);
    var ok := RunCalls(enc, ops);
    if !ok || ending == AbortIt {
      EarlySound(io.bytes, io.crash);
      return false;
    }
    BuiltRows(enc);
    ghost var view, t, counted, columned := enc.Finished(), Now(enc), enc.counted, AllColumned(enc.entries.groups);
    FinishedRows(enc);
    TailIs(enc);
    NearIs(enc, enc.TailSize());
    done := enc.CloseNew();
    if done { BuiltHolds(io.bytes, flags, view, ops, columned, counted); }
  }

  /** The calls a new container takes. */
  predicate CanBuild(schema: seq<byte>, ops: seq<Op>)
  {
    |schema| < U32_LIMIT && AcceptsAll(Create, 0, EMPTY, ops)
  }

  /** Header, schema, records and index fit the disk. */
  predicate RoomToBuild(schema: seq<byte>, ops: seq<Op>)
  {
    HEADER_SIZE + |schema| + TotalBytes(ops) + TailBytes(Create, ApplyAll(EMPTY, ops), schema) <= MAX_OFFSET
  }

  lemma BuildRules(schema: seq<byte>, ops: seq<Op>)
    ensures CanBuild(schema, ops) <==> |schema| < U32_LIMIT && AcceptsAll(Create, 0, EMPTY, ops)
  {
  }

  lemma FreshRules(enc: Encoder, schema: seq<byte>, ops: seq<Op>)
    requires enc.mode == Create && enc.schemaNCols == 0 && |schema| < U32_LIMIT
    requires enc.writePos == HEADER_SIZE + |schema|
    ensures CanBuild(schema, ops) <==> AcceptsAll(enc.mode, enc.schemaNCols, EMPTY, ops)
    ensures RoomToBuild(schema, ops) ==>
              && enc.Reaches(enc.writePos + TotalBytes(ops))
              && enc.Reaches(enc.writePos + TotalBytes(ops) + TailBytes(Create, ApplyAll(EMPTY, ops), schema))
  {
    hide AcceptsAll, TotalBytes, ApplyAll, TailBytes;
  }

  lemma FreshTable(enc: Encoder)
    requires enc.entries == Entries([], [], 0, None, false) && enc.records == Records([], []) && enc.nBlocks == 0
    ensures Matched(enc.entries, enc.records) && Now(enc) == EMPTY
  {
    assert Rows([], []) == [];
  }

  lemma BuiltRows(enc: Encoder)
    requires enc.Valid() && Matched(enc.entries, enc.records)
    ensures AllColumned(enc.entries.groups) <==> NoneEmpty(Now(enc).groups)
    ensures enc.counted ==> AllColumned(enc.entries.groups)
  {
    hide Describes, EndOf, AllColumned, Encoder.Building, Encoder.Growing;
    NoneEmptyColumned(enc.entries, enc.records, enc.nBlocks);
  }

  lemma BuiltHolds(b: seq<byte>, flags: nat, view: View, ops: seq<Op>, columned: bool, counted: bool)
    requires flags < U16_LIMIT && Read(b) == if columned then Ok(view) else Err(Corrupt)
    requires var t := ApplyAll(EMPTY, ops);
             && RowsOf(view) == t.groups && view.nBlocks == t.count && columned == NoneEmpty(t.groups)
             && (t.groups != [] && columned && HasFlag(flags, HETEROGENEOUS) ==>
                IndexInPlace(b, counted && t.open == []))
    requires counted == AllCounted(EMPTY, ops) && (counted ==> columned)
    requires forall i {:trigger ops[i]} :: 0 <= i < |ops| ==> !ops[i].Column?
    ensures Built(b, flags, view.schema, ApplyAll(EMPTY, ops), MeantAll(EMPTY, ops))
  {
    hide Read, RowsOf, ApplyAll, MeantAll, AllCounted, IndexInPlace, NoneEmpty, HasFlag;
    EveryBlockKept(EMPTY, ops);
  }

  /* ---- Passes over passes ------------------------------------------------ */

  datatype Pass =
    | NewFile(flags: nat, shape: Shape, schema: seq<byte>, ops: seq<Op>, ending: Ending)
    | WidenFile(hooked: bool, schema: seq<byte>, ops: seq<Op>, ending: Ending)
    | ExtendFile(hooked: bool, ops: seq<Op>, ending: Ending)

  predicate PassFits(p: Pass)
  {
    && (forall i :: 0 <= i < |p.ops| ==> OpFits(p.ops[i]))
    && (p.NewFile? ==> p.flags < U16_LIMIT && ShapeFits(p.shape))
    && (!p.ExtendFile? ==> p.schema == [] || SchemaReadable(p.schema))
  }

  /** What a file holds: its table, no row group open, and its schema. */
  datatype Contents = Contents(t: Table, schema: seq<byte>)

  function ContentsOf(b: seq<byte>): Contents
  {
    Contents(Start(b), if Read(b).Ok? then Read(b).value.schema else [])
  }

  /** A pass with all its calls; blocks of a row group never ended do not show. */
  function Added(c: Contents, p: Pass): Contents
  {
    Contents(MeantAll(c.t, p.ops).(open := [], openStats := None), if p.ExtendFile? then c.schema else p.schema)
  }

  /** The passes that came through, one after another. */
  function AddedAll(c: Contents, passes: seq<Pass>, took: seq<bool>): Contents
    requires |took| == |passes|
  {
    if passes == [] then c
    else
      var n := |passes| - 1;
      var before := AddedAll(c, passes[..n], took[..n]);
      if took[n] then Added(before, passes[n]) else before
  }

  predicate AllGrow(passes: seq<Pass>)
  {
    forall i {:trigger passes[i]} :: 0 <= i < |passes| ==> !passes[i].NewFile?
  }

  /** One pass, and then a restart from what it left or from any crash image of it. */
  method RunPass(io: Io, p: Pass) returns (ghost took: bool)
    requires Sound(io.bytes) && PassFits(p)
    modifies io
    ensures Sound(io.bytes) && (took ==> p.ending == CloseIt)
    ensures !p.NewFile? && Container(old(io.bytes)) && Start(old(io.bytes)).groups != [] ==>
              Container(io.bytes) && Start(io.bytes).groups != []
              && ContentsOf(io.bytes) == if took then Added(ContentsOf(old(io.bytes)), p) else ContentsOf(old(io.bytes))
  {
    hide *;
    ghost var base := io.bytes;
    FitsParts(p);
    var done;
    match p {
      case NewFile(flags, shape, schema, ops, ending) =>
        done := BuildPass(io, flags, shape, schema, ops, ending);
      case WidenFile(hooked, schema, ops, ending) =>
        done := GrowPass(io, Widen, hooked, schema, ops, ending);
      case ExtendFile(hooked, ops, ending) =>
        done := GrowPass(io, Extend, hooked, [], ops, ending);
    }
    ghost var left, images := io.bytes, io.crash;
    io.Restart();
    took := !p.NewFile? && Container(base) && !Recovers(base, io.bytes);
    if !p.NewFile? && Container(base) && p.ending == AbortIt { AbortedRecovers(base, left, images, io.bytes); }
    if !p.NewFile? && Container(base) && Start(base).groups != [] {
      ContainerOk(base);
      AnyOutcome(base, left, images, io.bytes, p);
      PassStep(base, io.bytes, p);
    }
  }

  lemma AbortedRecovers(base: seq<byte>, left: seq<byte>, images: iset<seq<byte>>, img: seq<byte>)
    requires Container(base) && Recovers(base, left) && AllRecover(base, images) && (img == left || img in images)
    ensures Recovers(base, img)
  {
    hide Container, Recovers;
  }

  lemma FitsParts(p: Pass)
    requires PassFits(p)
    ensures forall i :: 0 <= i < |p.ops| ==> OpFits(p.ops[i])
    ensures p.NewFile? ==> p.flags < U16_LIMIT && ShapeFits(p.shape)
    ensures !p.ExtendFile? ==> p.schema == [] || SchemaReadable(p.schema)
  {
  }

  lemma AnyOutcome(base: seq<byte>, left: seq<byte>, images: iset<seq<byte>>, img: seq<byte>, p: Pass)
    requires Container(base) && (img == left || img in images) && Read(base).Ok? && !p.NewFile?
    requires var t := MeantAll(Start(base), p.ops);
             var s := if p.WidenFile? then p.schema else Read(base).value.schema;
             PassOutcome(base, left, t, s) && AllOutcomes(base, images, t, s)
    ensures PassOutcome(base, img, MeantAll(Start(base), p.ops), Added(ContentsOf(base), p).schema)
  {
    hide Container, Read, PassOutcome, MeantAll, Start;
  }

  /** One pass: the container is another container with the old contents, or with the pass's calls added. */
  lemma PassStep(base: seq<byte>, img: seq<byte>, p: Pass)
    requires Container(base) && Start(base).groups != []
    requires PassOutcome(base, img, MeantAll(Start(base), p.ops), Added(ContentsOf(base), p).schema)
    ensures Container(img) && Start(img).groups != []
    ensures ContentsOf(img) == if Recovers(base, img) then ContentsOf(base) else Added(ContentsOf(base), p)
  {
    hide Container, Read, MeantAll, RowsOf;
    GroupsStayed(Start(base), p.ops);
  }

  /** No call removes a row group. */
  lemma {:induction false} GroupsStayed(t: Table, ops: seq<Op>)
    ensures |MeantAll(t, ops).groups| >= |t.groups|
  {
    if ops != [] {
      GroupsStayed(t, ops[..|ops| - 1]);
    }
  }

  /**
   * Any sequence of passes, completed, aborted, failed or cut off and resumed from any crash image. However
   * files are created in between, each reopening finds a proper container or refuses the file. Passes that
   * grow a container with a row group leave a container, and it holds the original with the calls of some
   * of the passes added in order: each pass came through as a whole or not at all, an aborted one never.
   */
  method RunPasses(io: Io, passes: seq<Pass>) returns (ghost took: seq<bool>)
    requires Sound(io.bytes) && forall i :: 0 <= i < |passes| ==> PassFits(passes[i])
    modifies io
    ensures Sound(io.bytes) && |took| == |passes|
    ensures forall i {:trigger took[i]} :: 0 <= i < |took| && took[i] ==> passes[i].ending == CloseIt
    ensures AllGrow(passes) && Container(old(io.bytes)) && Start(old(io.bytes)).groups != [] ==>
              Container(io.bytes) && ContentsOf(io.bytes) == AddedAll(ContentsOf(old(io.bytes)), passes, took)
  {
    hide Sound, PassFits, Container, Start, ContentsOf, AddedAll, Read, Added;
    took := [];
    ghost var base := io.bytes;
    NoneAdded(ContentsOf(base), passes, took);
    for i := 0 to |passes|
      invariant Sound(io.bytes) && |took| == i
      invariant forall k {:trigger took[k]} :: 0 <= k < i && took[k] ==> passes[k].ending == CloseIt
      invariant AllGrow(passes) && Container(base) && Start(base).groups != [] ==>
                  Container(io.bytes) && Start(io.bytes).groups != []
                  && ContentsOf(io.bytes) == AddedAll(ContentsOf(base), passes[..i], took)
    {
      ghost var one := RunPass(io, passes[i]);
      NextAdded(ContentsOf(base), passes, i, took, one);
      took := took + [one];
    }
    assert passes[..|passes|] == passes;
  }

  lemma NoneAdded(c: Contents, passes: seq<Pass>, took: seq<bool>)
    requires took == []
    ensures AddedAll(c, passes[..0], took) == c
  {
  }

  lemma NextAdded(c: Contents, passes: seq<Pass>, i: nat, took: seq<bool>, one: bool)
    requires i < |passes| && |took| == i
    ensures var before := AddedAll(c, passes[..i], took);
            AddedAll(c, passes[..i + 1], took + [one]) == if one then Added(before, passes[i]) else before
  {
    assert passes[..i + 1][..i] == passes[..i] && (took + [one])[..i] == took;
  }
}
