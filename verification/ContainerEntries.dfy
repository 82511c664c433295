/**
 * The encoder's bookkeeping as values (src/api/stream_encode.c): the row groups and the open group it
 * accumulates, and what they say about the file.
 */
module ContainerEntries {
  import opened Base
  import opened ContainerFormat
  import opened ContainerGrowth

  /** Finished row groups; columns, first offset and statistics of the open one; whether any statistics were given. */
  datatype Entries = Entries(groups: seq<Group>, cols: seq<Col>, offset: nat, stats: Option<seq<byte>>, anyStats: bool)

  /** The records the entries stand for. */
  datatype Records = Records(groups: seq<seq<seq<byte>>>, cur: seq<seq<byte>>)

  /** The file holds the records where the entries say, all before pos; fixed is the end of what precedes them. */
  predicate Describes(b: seq<byte>, pos: nat, e: Entries, r: Records, fixed: nat, flagged: bool)
  {
    && HEADER_SIZE <= pos <= |b| && e.offset < U64_LIMIT && pos < U64_LIMIT
    && GroupsHold(b, e.groups, r.groups, pos) && ColsHold(b, e.cols, r.cur, pos)
    && GroupsStored(e.groups, e.anyStats || flagged)
    && (e.stats.Some? ==> e.anyStats && |e.stats.value| == STATS_ENTRY * |e.cols|)
    && EndOf(e, fixed) <= pos && (e.cols != [] ==> e.offset == e.cols[0].offset)
  }

  function EndOf(e: Entries, fixed: nat): nat
  {
    Max(fixed, Max(GroupsEnd(e.groups), ColsEnd(e.cols)))
  }

  lemma DescribesElsewhere(a: seq<byte>, b: seq<byte>, pos: nat, e: Entries, r: Records, fixed: nat, flagged: bool)
    requires Describes(a, pos, e, r, fixed, flagged) && Agree(a, b, HEADER_SIZE, pos)
    ensures Describes(b, pos, e, r, fixed, flagged)
  {
    GroupsStay(a, b, e.groups, r.groups, pos, pos);
    ColsStay(a, b, e.cols, r.cur, pos, pos);
  }

  /** The block count is kept in 64 bits. */
  function NextCount(n: nat): (r: nat)
    ensures r < U64_LIMIT
  {
    (n + 1) % U64_LIMIT
  }

  /** One more record in the open row group. */
  function Appended(e: Entries, pos: nat, n: nat): (e': Entries)
  {
    e.(cols := e.cols + [Col(pos, n)], offset := if e.cols == [] then pos else e.offset)
  }

  lemma AppendDescribes(b: seq<byte>, pos: nat, e: Entries, r: Records, fixed: nat, flagged: bool, rec: seq<byte>)
    requires Describes(b, pos, e, r, fixed, flagged) && e.stats == None
    requires pos + |rec| <= |b| && pos + |rec| < U64_LIMIT && b[pos..pos + |rec|] == rec
    ensures var e' := Appended(e, pos, |rec|);
            && Describes(b, pos + |rec|, e', r.(cur := r.cur + [rec]), fixed, flagged)
            && (EndOf(e, fixed) == pos ==> EndOf(e', fixed) == pos + |rec|)
  {
    hide GroupsHold, ColsHold, GroupsStored, GroupsEnd, ColsEnd;
    GroupsStay(b, b, e.groups, r.groups, pos, pos + |rec|);
    ColAdded(b, e.cols, r.cur, pos, rec);
    ColsEndSnoc(e.cols, Col(pos, |rec|));
  }

  /** The entries a 16-bit column count keeps. */
  function Counted<T>(s: seq<T>): (c: seq<T>)
    ensures |c| <= |s| && |c| < U16_LIMIT && c == s[..|c|] && (|s| < U16_LIMIT ==> c == s)
  {
    s[..|s| % U16_LIMIT]
  }

  /** The row group the open entries become. */
  function ClosedGroup(e: Entries, nRows: nat): (g: Group)
    requires e.stats.Some? ==> |e.stats.value| == STATS_ENTRY * |e.cols|
    ensures g.cols == Counted(e.cols) && g.nRows == nRows
  {
    Group(e.offset, nRows, Counted(e.cols),
          if e.stats.Some? then Some(e.stats.value[..STATS_ENTRY * |Counted(e.cols)|]) else None)
  }

  function Ended(e: Entries, nRows: nat): (e': Entries)
    requires e.stats.Some? ==> |e.stats.value| == STATS_ENTRY * |e.cols|
  {
    Entries(e.groups + [ClosedGroup(e, nRows)], [], 0, None, e.anyStats)
  }

  lemma EndDescribes(b: seq<byte>, pos: nat, e: Entries, r: Records, fixed: nat, flagged: bool, nRows: nat)
    requires Describes(b, pos, e, r, fixed, flagged) && nRows < U64_LIMIT
    ensures Describes(b, pos, Ended(e, nRows), Records(r.groups + [Counted(r.cur)], []), fixed, flagged)
    ensures |e.cols| < U16_LIMIT ==> EndOf(Ended(e, nRows), fixed) == EndOf(e, fixed)
    ensures var g := ClosedGroup(e, nRows); g.cols != [] ==> g.offset == g.cols[0].offset
  {
    hide ColsHold, GroupStored, GroupsEnd, ColsEnd;
    var g, e' := ClosedGroup(e, nRows), Ended(e, nRows);
    var held := r.groups + [Counted(r.cur)];
    ClosedFits(b, pos, e, r, fixed, flagged, nRows);
    GroupsEndSnoc(e.groups, g);
    NothingHeld(b, pos);
    forall i | 0 <= i < |e'.groups|
      ensures ColsHold(b, e'.groups[i].cols, held[i], pos) && GroupStored(e'.groups[i], e.anyStats || flagged)
    {
      if i < |e.groups| { assert e'.groups[i] == e.groups[i]; }
    }
  }

  lemma NothingHeld(b: seq<byte>, pos: nat)
    requires pos <= |b|
    ensures ColsHold(b, [], [], pos) && ColsEnd([]) == 0
  {
  }

  lemma ClosedFits(b: seq<byte>, pos: nat, e: Entries, r: Records, fixed: nat, flagged: bool, nRows: nat)
    requires Describes(b, pos, e, r, fixed, flagged) && nRows < U64_LIMIT
    ensures var g := ClosedGroup(e, nRows);
            && GroupStored(g, e.anyStats || flagged) && ColsHold(b, g.cols, Counted(r.cur), pos)
               && ColsEnd(g.cols) <= pos
  {
    var g := ClosedGroup(e, nRows);
    forall i | 0 <= i < |g.cols|
      ensures g.cols[i] == e.cols[i] && ColFits(g.cols[i]) && Counted(r.cur)[i] == r.cur[i]
    {
    }
    ColsEndBound(g.cols, pos);
  }

  lemma StatsDescribe(b: seq<byte>, pos: nat, e: Entries, r: Records, fixed: nat, flagged: bool, stats: seq<byte>)
    requires Describes(b, pos, e, r, fixed, flagged) && |stats| == STATS_ENTRY * |e.cols|
    ensures Describes(b, pos, e.(stats := Some(stats), anyStats := true), r, fixed, flagged)
  {
  }

  /** A row group with one more column; statistics of columns without any read as absent. */
  function WiderGroup(g: Group, pos: nat, n: nat, stats: Option<seq<byte>>): (g': Group)
    ensures g'.cols == g.cols + [Col(pos, n)]
  {
    var had := if g.stats.Some? then g.stats.value else NoStats(|g.cols|);
    g.(cols := g.cols + [Col(pos, n)],
       stats := if stats.Some? then Some(had + stats.value)
                else if g.stats.Some? then Some(had + NoStats(1)) else None)
  }

  /** The statistics entry of column k; one that reads as absent where there is none. */
  function StatsEntry(stats: Option<seq<byte>>, k: nat): (s: seq<byte>)
    requires stats.Some? ==> STATS_ENTRY * (k + 1) <= |stats.value|
    ensures |s| == STATS_ENTRY
  {
    if stats.Some? then stats.value[STATS_ENTRY * k..STATS_ENTRY * (k + 1)] else NoStats(1)
  }

  /** Statistics for one more column, entries being given for the columns before it. */
  lemma EntriesKept(had: Option<seq<byte>>, n: nat, more: Option<seq<byte>>, now: Option<seq<byte>>, k: nat)
    requires (had.Some? ==> |had.value| == STATS_ENTRY * n) && (more.Some? ==> |more.value| == STATS_ENTRY) && k <= n
    requires now == if more.Some? then Some((if had.Some? then had.value else NoStats(n)) + more.value)
                    else if had.Some? then Some(had.value + NoStats(1)) else None
    ensures now.Some? ==> |now.value| == STATS_ENTRY * (n + 1)
    ensures StatsEntry(now, k)
            == if k < n then StatsEntry(had, k) else if more.Some? then more.value else NoStats(1)
  {
    if now.Some? {
      var base := if had.Some? then had.value else NoStats(n);
      var tail := if more.Some? then more.value else NoStats(1);
      var lo, hi := STATS_ENTRY * k, STATS_ENTRY * k + STATS_ENTRY;
      assert now.value == base + tail && |base| == STATS_ENTRY * n && STATS_ENTRY * (k + 1) == hi;
      hide StatsEntry;
      if k < n {
        assert (base + tail)[lo..hi] == base[lo..hi];
        if had.None? { assert base[lo..hi] == NoStats(1); }
      } else {
        assert (base + tail)[lo..hi] == tail;
      }
      EntryIs(now, k);
      if k < n { EntryIs(had, k); }
    }
  }

  lemma EntryIs(stats: Option<seq<byte>>, k: nat)
    requires stats.Some? ==> STATS_ENTRY * (k + 1) <= |stats.value|
    ensures StatsEntry(stats, k)
            == if stats.Some? then stats.value[STATS_ENTRY * k..STATS_ENTRY * k + STATS_ENTRY] else NoStats(1)
  {
  }

  /** An added column leaves the statistics of the columns before it as they were, and has its own. */
  lemma WiderStats(g: Group, pos: nat, n: nat, stats: Option<seq<byte>>, k: nat)
    requires (g.stats.Some? ==> |g.stats.value| == STATS_ENTRY * |g.cols|) && k <= |g.cols|
    requires stats.Some? ==> |stats.value| == STATS_ENTRY
    ensures var w := WiderGroup(g, pos, n, stats);
            && (w.stats.Some? <==> g.stats.Some? || stats.Some?)
            && (w.stats.Some? ==> |w.stats.value| == STATS_ENTRY * (|g.cols| + 1))
            && StatsEntry(w.stats, k) == (if k < |g.cols| then StatsEntry(g.stats, k) else StatsEntry(stats, 0))
  {
    EntriesKept(g.stats, |g.cols|, stats, WiderGroup(g, pos, n, stats).stats, k);
  }

  function NoStats(n: nat): (s: seq<byte>)
    ensures |s| == STATS_ENTRY * n
  {
    seq(STATS_ENTRY * n, _ => 0)
  }

  function Widened(e: Entries, rg: nat, pos: nat, n: nat, stats: Option<seq<byte>>): (e': Entries)
    requires rg < |e.groups|
  {
    e.(groups := e.groups[rg := WiderGroup(e.groups[rg], pos, n, stats)], anyStats := e.anyStats || stats.Some?)
  }

  lemma WidenDescribes(b: seq<byte>, pos: nat, e: Entries, r: Records, fixed: nat, flagged: bool, rg: nat,
                       rec: seq<byte>, stats: Option<seq<byte>>)
    requires Describes(b, pos, e, r, fixed, flagged) && rg < |e.groups| && |e.groups[rg].cols| < U16_LIMIT - 1
    requires stats.Some? ==> |stats.value| == STATS_ENTRY
    requires pos + |rec| <= |b| && pos + |rec| < U64_LIMIT && b[pos..pos + |rec|] == rec
    ensures var e' := Widened(e, rg, pos, |rec|, stats);
            && Describes(b, pos + |rec|, e', r.(groups := r.groups[rg := r.groups[rg] + [rec]]), fixed, flagged)
            && (EndOf(e, fixed) == pos ==> EndOf(e', fixed) == pos + |rec|)
  {
    hide GroupStored, ColsEnd, GroupsEnd;
    var e' := Widened(e, rg, pos, |rec|, stats);
    var g, g' := e.groups[rg], e'.groups[rg];
    var held := r.groups[rg := r.groups[rg] + [rec]];
    ColAdded(b, g.cols, r.groups[rg], pos, rec);
    WiderStored(g, pos, |rec|, stats, e.anyStats || flagged);
    GroupsEndGrow(e.groups, rg, g', Col(pos, |rec|));
    GroupsStay(b, b, e.groups, r.groups, pos, pos + |rec|);
    ColsStay(b, b, e.cols, r.cur, pos, pos + |rec|);
    forall i | 0 <= i < |e'.groups|
      ensures ColsHold(b, e'.groups[i].cols, held[i], pos + |rec|) && GroupStored(e'.groups[i], e'.anyStats || flagged)
    {
      if i != rg { StoredMore(e.groups[i], e.anyStats || flagged, e'.anyStats || flagged); }
    }
  }

  lemma StoredMore(g: Group, before: bool, after: bool)
    requires GroupStored(g, before) && (before ==> after)
    ensures GroupStored(g, after)
  {
  }

  lemma WiderStored(g: Group, pos: nat, n: nat, stats: Option<seq<byte>>, hasStats: bool)
    requires GroupStored(g, hasStats) && |g.cols| < U16_LIMIT - 1 && pos < U64_LIMIT && n < U64_LIMIT
    requires stats.Some? ==> |stats.value| == STATS_ENTRY
    ensures GroupStored(WiderGroup(g, pos, n, stats), hasStats || stats.Some?)
  {
    var g' := WiderGroup(g, pos, n, stats);
    forall i | 0 <= i < |g'.cols| ensures ColFits(g'.cols[i]) {
      if i < |g.cols| { assert g'.cols[i] == g.cols[i]; }
    }
  }

  /** Every group has a column, so the index can be read back. */
  predicate AllColumned(gs: seq<Group>)
  {
    forall i {:trigger gs[i]} :: 0 <= i < |gs| ==> gs[i].cols != []
  }

  lemma ColumnedFit(gs: seq<Group>, hasStats: bool)
    requires GroupsStored(gs, hasStats)
    ensures GroupsFit(gs, hasStats) <==> AllColumned(gs)
  {
    if AllColumned(gs) {
      forall i | 0 <= i < |gs| ensures GroupFits(gs[i], hasStats) {
        assert gs[i].cols != [];
      }
    }
    if GroupsFit(gs, hasStats) {
      forall i | 0 <= i < |gs| ensures gs[i].cols != [] {
        assert GroupFits(gs[i], hasStats);
      }
    }
  }

  /** The header that makes a rebuilt index visible; without row groups it names none. */
  function FinalHeader(flags: nat, shape: Shape, e: Entries, schemaSize: nat, blocksStart: nat, nBlocks: nat,
                       indexOffset: nat, schemaOffset: nat): Header
  {
    NewHeader(flags, shape, e.anyStats, schemaSize, blocksStart, nBlocks, if e.groups != [] then indexOffset else 0,
              if e.groups != [] then |IndexBytes(e.groups)| else 0, schemaOffset)
  }

  /** The complete index stands at an offset of the file. */
  predicate IndexAt(f: seq<byte>, e: Entries, off: nat)
  {
    e.groups != [] ==>
      off + |IndexBytes(e.groups)| <= |f| && f[off..off + |IndexBytes(e.groups)|] == IndexBytes(e.groups)
                       && off + |IndexBytes(e.groups)| <= MAX_OFFSET
  }

  /** The schema stands at an offset of the file. */
  predicate SchemaAt(f: seq<byte>, schema: seq<byte>, off: nat)
  {
    HEADER_SIZE <= off && off + |schema| <= |f| && f[off..off + |schema|] == schema
      && (schema == [] || SchemaReadable(schema))
  }

  /** Patching the header over a file that holds schema, blocks and index. */
  lemma FinalReads(f: seq<byte>, pos: nat, e: Entries, r: Records, fixed: nat, flags: nat, shape: Shape,
                   schema: seq<byte>, schemaOffset: nat, blocksStart: nat, nBlocks: nat, indexOffset: nat)
    requires Describes(f, pos, e, r, fixed, HasFlag(flags, HAS_STATS)) && AllColumned(e.groups)
    requires flags < U16_LIMIT && ShapeFits(shape) && nBlocks < U64_LIMIT && |schema| < U32_LIMIT
    requires schemaOffset < U64_LIMIT && (schemaOffset != 0 ==> 0 < blocksStart < U64_LIMIT)
    requires schemaOffset != 0 ==> HasFlag(flags, HETEROGENEOUS)
    requires SchemaAt(f, schema, if schemaOffset != 0 then schemaOffset else HEADER_SIZE)
    requires HEADER_SIZE <= indexOffset <= MAX_OFFSET && IndexAt(f, e, indexOffset)
    ensures var h := FinalHeader(flags, shape, e, |schema|, blocksStart, nBlocks, indexOffset, schemaOffset);
            var b := Written(f, 0, HeaderBytes(h));
            && HeaderFits(h) && Read(b) == Ok(View(schema, nBlocks, e.groups, r.groups)) && ParseHeader(b) == h
            && (e.groups != [] && HasFlag(flags, HETEROGENEOUS) && LiveEnd(h, e.groups) <= indexOffset ==>
                  Container(b) && LiveOf(b) == LiveEnd(h, e.groups))
  {
    hide Describes, SchemaReadable, ParseHeader, HeaderBytes, Read, Container, LiveOf, LiveEnd, Written, GroupsHold,
      IndexBytes, HeaderFits, GroupsStored, CheckGeneration;
    DescribesFacts(f, pos, e, r, fixed, HasFlag(flags, HAS_STATS));
    var size := if e.groups != [] then |IndexBytes(e.groups)| else 0;
    var at := if e.groups != [] then indexOffset else 0;
    var start := if schemaOffset != 0 then blocksStart else 0;
    NewHeaderStart(flags, shape, e.anyStats, |schema|, blocksStart, nBlocks, at, size, schemaOffset);
    NewHeaderFacts(flags, shape, e.anyStats, |schema|, start, nBlocks, at, size, schemaOffset);
    var h := FinalHeader(flags, shape, e, |schema|, blocksStart, nBlocks, indexOffset, schemaOffset);
    ColumnedFit(e.groups, HasFlag(h.flags, HAS_STATS));
    PatchedReads(f, h, schema, e.groups, r.groups, pos);
  }

  lemma NewHeaderStart(flags: nat, shape: Shape, anyStats: bool, schemaSize: nat, blocksStart: nat,
                       nBlocks: nat, indexOffset: nat, indexSize: nat, schemaOffset: nat)
    ensures NewHeader(flags, shape, anyStats, schemaSize, blocksStart, nBlocks, indexOffset, indexSize, schemaOffset)
            == NewHeader(flags, shape, anyStats, schemaSize, if schemaOffset != 0 then blocksStart else 0,
                         nBlocks, indexOffset, indexSize, schemaOffset)
  {
  }

  lemma DescribesFacts(b: seq<byte>, pos: nat, e: Entries, r: Records, fixed: nat, flagged: bool)
    requires Describes(b, pos, e, r, fixed, flagged)
    ensures HEADER_SIZE <= pos <= |b| && GroupsHold(b, e.groups, r.groups, pos)
            && GroupsStored(e.groups, e.anyStats || flagged)
    ensures |IndexBytes(e.groups)| >= 8 + GROUP_HEADER * |e.groups|
  {
  }

  /** A row group that lost all its columns to the 16-bit count makes the file unreadable. */
  lemma FinalRefused(f: seq<byte>, pos: nat, e: Entries, r: Records, fixed: nat, flags: nat, shape: Shape,
                     schema: seq<byte>, blocksStart: nat, nBlocks: nat, indexOffset: nat)
    requires Describes(f, pos, e, r, fixed, HasFlag(flags, HAS_STATS)) && !AllColumned(e.groups)
    requires flags < U16_LIMIT && ShapeFits(shape) && nBlocks < U64_LIMIT && |schema| < U32_LIMIT
    requires SchemaAt(f, schema, HEADER_SIZE) && HEADER_SIZE <= indexOffset <= MAX_OFFSET && IndexAt(f, e, indexOffset)
    ensures var h := FinalHeader(flags, shape, e, |schema|, blocksStart, nBlocks, indexOffset, 0);
            var b := Written(f, 0, HeaderBytes(h));
            HeaderFits(h) && Read(b) == Err(Corrupt) && ReopenCheck(b).Err?
  {
    hide Describes, SchemaReadable, ParseHeader, HeaderBytes, Written, GroupsHold, IndexBytes, HeaderFits,
      GroupsStored, ParseIndex;
    DescribesFacts(f, pos, e, r, fixed, HasFlag(flags, HAS_STATS));
    var size := |IndexBytes(e.groups)|;
    NewHeaderStart(flags, shape, e.anyStats, |schema|, blocksStart, nBlocks, indexOffset, size, 0);
    NewHeaderFacts(flags, shape, e.anyStats, |schema|, 0, nBlocks, indexOffset, size, 0);
    var h := FinalHeader(flags, shape, e, |schema|, blocksStart, nBlocks, indexOffset, 0);
    ColumnedFit(e.groups, HasFlag(h.flags, HAS_STATS));
    IndexReadsBack(e.groups, HasFlag(h.flags, HAS_STATS));
    HeaderWritten(f, h);
    PatchKeeps(f, h, indexOffset, size);
    PatchKeeps(f, h, HEADER_SIZE, |schema|);
  }
}
