/**
 * What a container holds, without file offsets: row groups of blocks, and what each encoder call does to
 * them (src/api/stream_encode.c), as the 16-bit column count allows and as the caller meant it.
 */
module ContainerTable {
  import opened Base
  import opened ContainerFormat
  import opened ContainerEntries

  /* ---- What the calls mean ----------------------------------------------- */

  /** A row group without any file offsets. */
  datatype RowGroup = RowGroup(nRows: nat, blocks: seq<seq<byte>>, stats: Option<seq<byte>>)

  /** Finished row groups, the blocks and statistics of the open one, and the header's count of all blocks. */
  datatype Table = Table(groups: seq<RowGroup>, open: seq<seq<byte>>, openStats: Option<seq<byte>>, count: nat)

  const EMPTY := Table([], [], None, 0)

  datatype Op =
    | Block(rec: seq<byte>)
    | EndGroup(nRows: nat)
    | Stats(stats: seq<byte>, nCols: nat)
    | Column(rg: nat, rec: seq<byte>, colStats: Option<seq<byte>>)

  predicate OpFits(op: Op)
  {
    match op
    case Block(_) => true
    case EndGroup(n) => n < U64_LIMIT
    case Stats(s, n) => n < U16_LIMIT && |s| == STATS_ENTRY * n
    case Column(_, _, s) => s.Some? ==> |s.value| == STATS_ENTRY
  }

  function AddColumn(g: RowGroup, rec: seq<byte>, stats: Option<seq<byte>>): RowGroup
  {
    var had := if g.stats.Some? then g.stats.value else NoStats(|g.blocks|);
    RowGroup(g.nRows, g.blocks + [rec],
             if stats.Some? then Some(had + stats.value) else if g.stats.Some? then Some(had + NoStats(1)) else None)
  }

  /** An added block leaves the statistics of the blocks before it as they were, and has its own. */
  lemma AddedStats(g: RowGroup, rec: seq<byte>, stats: Option<seq<byte>>, k: nat)
    requires (g.stats.Some? ==> |g.stats.value| == STATS_ENTRY * |g.blocks|) && k <= |g.blocks|
    requires stats.Some? ==> |stats.value| == STATS_ENTRY
    ensures var w := AddColumn(g, rec, stats);
            && w.blocks == g.blocks + [rec] && w.nRows == g.nRows && (w.stats.Some? <==> g.stats.Some? || stats.Some?)
            && (w.stats.Some? ==> |w.stats.value| == STATS_ENTRY * (|g.blocks| + 1))
            && StatsEntry(w.stats, k) == (if k < |g.blocks| then StatsEntry(g.stats, k) else StatsEntry(stats, 0))
  {
    EntriesKept(g.stats, |g.blocks|, stats, AddColumn(g, rec, stats).stats, k);
  }

  /** The statistics kept with some of a row group's blocks. */
  function StatsFor(stats: Option<seq<byte>>, kept: seq<seq<byte>>): Option<seq<byte>>
  {
    if stats.Some? then Some(stats.value[..Min(STATS_ENTRY * |kept|, |stats.value|)]) else None
  }

  /** What one accepted call does to the table; a row group's column count has 16 bits. */
  function Apply(t: Table, op: Op): Table
  {
    match op
    case Block(rec) => t.(open := t.open + [rec], count := NextCount(t.count))
    case EndGroup(n) =>
      var kept := Counted(t.open);
      Table(t.groups + [RowGroup(n, kept, StatsFor(t.openStats, kept))], [], None, t.count)
    case Stats(s, _) => t.(openStats := Some(s))
    case Column(rg, rec, s) =>
      t.(groups := if rg < |t.groups| then t.groups[rg := AddColumn(t.groups[rg], rec, s)] else t.groups,
         count := NextCount(t.count))
  }

  function ApplyAll(t: Table, ops: seq<Op>): Table
  {
    if ops == [] then t else Apply(ApplyAll(t, ops[..|ops| - 1]), ops[|ops| - 1])
  }

  function Rows(gs: seq<Group>, data: seq<seq<seq<byte>>>): (r: seq<RowGroup>)
    requires |gs| == |data|
    ensures |r| == |gs|
  {
    seq(|gs|, i requires 0 <= i < |gs| => RowGroup(gs[i].nRows, data[i], gs[i].stats))
  }

  /** The row groups a reader finds. */
  function RowsOf(v: View): seq<RowGroup>
  {
    if |v.groups| == |v.blocks| then Rows(v.groups, v.blocks) else []
  }

  function TableOf(e: Entries, r: Records, n: nat): Table
  {
    Table(if |e.groups| == |r.groups| then Rows(e.groups, r.groups) else [], r.cur, e.stats, n)
  }

  lemma EndApplies(e: Entries, r: Records, n: nat, count: nat)
    requires |e.groups| == |r.groups| && |e.cols| == |r.cur|
    requires e.stats.Some? ==> |e.stats.value| == STATS_ENTRY * |e.cols|
    ensures TableOf(Ended(e, n), Records(r.groups + [Counted(r.cur)], []), count)
            == Apply(TableOf(e, r, count), EndGroup(n))
  {
    SameCount(e.cols, r.cur);
    assert Rows(Ended(e, n).groups, r.groups + [Counted(r.cur)])
        == Rows(e.groups, r.groups) + [RowGroup(n, Counted(r.cur), ClosedGroup(e, n).stats)];
  }

  lemma SameCount(cs: seq<Col>, data: seq<seq<byte>>)
    requires |cs| == |data|
    ensures |Counted(cs)| == |Counted(data)|
  {
  }

  lemma WidenApplies(e: Entries, r: Records, rg: nat, pos: nat, rec: seq<byte>, s: Option<seq<byte>>, count: nat)
    requires |e.groups| == |r.groups| && rg < |e.groups| && |e.groups[rg].cols| == |r.groups[rg]|
    ensures TableOf(Widened(e, rg, pos, |rec|, s), r.(groups := r.groups[rg := r.groups[rg] + [rec]]), NextCount(count))
            == Apply(TableOf(e, r, count), Column(rg, rec, s))
  {
    assert Rows(Widened(e, rg, pos, |rec|, s).groups, r.groups[rg := r.groups[rg] + [rec]])
        == Rows(e.groups, r.groups)[rg := AddColumn(Rows(e.groups, r.groups)[rg], rec, s)];
  }

  /** Entries and records line up. */
  predicate Matched(e: Entries, r: Records)
  {
    && |e.groups| == |r.groups| && |e.cols| == |r.cur|
    && (forall g {:trigger e.groups[g]} :: 0 <= g < |e.groups| ==> |e.groups[g].cols| == |r.groups[g]|)
    && (e.stats.Some? ==> |e.stats.value| == STATS_ENTRY * |e.cols|)
  }

  lemma BlockApplies(e: Entries, r: Records, pos: nat, rec: seq<byte>, count: nat)
    requires Matched(e, r)
    ensures var r' := r.(cur := r.cur + [rec]);
            |Appended(e, pos, |rec|).groups| == |r'.groups|
            && TableOf(Appended(e, pos, |rec|), r', NextCount(count)) == Apply(TableOf(e, r, count), Block(rec))
  {
  }

  /** No row group ended with more blocks than its count can hold. */
  predicate AllCounted(t: Table, ops: seq<Op>)
  {
    if ops == [] then true
    else
      var front := ops[..|ops| - 1];
      AllCounted(t, front) && (ops[|ops| - 1].EndGroup? ==> |ApplyAll(t, front).open| < U16_LIMIT)
  }

  lemma ApplyNone(t: Table, ops: seq<Op>)
    ensures ApplyAll(t, ops[..0]) == t && AllCounted(t, ops[..0])
  {
  }

  lemma ApplyNext(t: Table, ops: seq<Op>, i: nat)
    requires i < |ops|
    ensures ApplyAll(t, ops[..i + 1]) == Apply(ApplyAll(t, ops[..i]), ops[i])
    ensures AllCounted(t, ops[..i + 1]) ==
            (AllCounted(t, ops[..i]) && (ops[i].EndGroup? ==> |ApplyAll(t, ops[..i]).open| < U16_LIMIT))
  {
    assert ops[..i + 1][..i] == ops[..i];
  }

  /* ---- Sizes ------------------------------------------------------------- */

  /** Record bytes a call writes. */
  function OpBytes(op: Op): nat
  {
    if op.Block? || op.Column? then |op.rec| else 0
  }

  function TotalBytes(ops: seq<Op>): nat
  {
    if ops == [] then 0 else TotalBytes(ops[..|ops| - 1]) + OpBytes(ops[|ops| - 1])
  }

  lemma {:induction false} TotalGrows(ops: seq<Op>, i: nat)
    requires i < |ops|
    ensures TotalBytes(ops[..i + 1]) == TotalBytes(ops[..i]) + OpBytes(ops[i])
    ensures TotalBytes(ops[..i + 1]) <= TotalBytes(ops)
    decreases |ops|
  {
    var front := ops[..|ops| - 1];
    assert ops[..i + 1][..i] == ops[..i];
    if i == |ops| - 1 {
      assert ops[..i + 1] == ops;
    } else {
      TotalGrows(front, i);
      assert front[..i + 1] == ops[..i + 1] && front[..i] == ops[..i];
    }
  }

  /** Bytes of the index of these row groups: per group a header, its columns and its statistics. */
  function IndexSize(rows: seq<RowGroup>): nat
  {
    if rows == [] then 8
    else
      var g := rows[|rows| - 1];
      IndexSize(rows[..|rows| - 1]) + GROUP_HEADER + COL_SIZE * |g.blocks|
      + if g.stats.Some? then |g.stats.value| else 0
  }

  lemma {:induction false} GroupsBytesSnoc(gs: seq<Group>, g: Group)
    ensures GroupsBytes(gs + [g]) == GroupsBytes(gs) + GroupBytes(g)
  {
    hide GroupBytes;
    if gs == [] {
      assert gs + [g] == [g] && [g][1..] == [];
    } else {
      GroupsBytesSnoc(gs[1..], g);
      assert (gs + [g])[1..] == gs[1..] + [g];
      ConcatAssociative(GroupBytes(gs[0]), GroupsBytes(gs[1..]), GroupBytes(g));
    }
  }

  lemma {:induction false} IndexSizeIs(gs: seq<Group>, data: seq<seq<seq<byte>>>)
    requires |gs| == |data| && forall i {:trigger gs[i]} :: 0 <= i < |gs| ==> |gs[i].cols| == |data[i]|
    ensures |IndexBytes(gs)| == IndexSize(Rows(gs, data))
  {
    if gs != [] {
      var n := |gs| - 1;
      IndexSizeIs(gs[..n], data[..n]);
      GroupsBytesSnoc(gs[..n], gs[n]);
      assert gs == gs[..n] + [gs[n]];
      assert Rows(gs, data)[..n] == Rows(gs[..n], data[..n]);
    }
  }

  /* ---- Every block ------------------------------------------------------- */

  /** What the caller meant: a row group is all of its blocks. */
  function Meant(t: Table, op: Op): Table
  {
    if op.EndGroup? then
      Table(t.groups + [RowGroup(op.nRows, t.open, StatsFor(t.openStats, t.open))], [], None, t.count)
    else Apply(t, op)
  }

  function MeantAll(t: Table, ops: seq<Op>): Table
  {
    if ops == [] then t else Meant(MeantAll(t, ops[..|ops| - 1]), ops[|ops| - 1])
  }

  /** While every row group ends small enough to be counted, the calls do what was meant. */
  lemma {:induction false} CountedIsMeant(t: Table, ops: seq<Op>)
    requires AllCounted(t, ops)
    ensures ApplyAll(t, ops) == MeantAll(t, ops)
  {
    if ops != [] {
      CountedIsMeant(t, ops[..|ops| - 1]);
    }
  }

  predicate GroupsSmall(rows: seq<RowGroup>)
  {
    forall i {:trigger rows[i]} :: 0 <= i < |rows| ==> |rows[i].blocks| < U16_LIMIT
  }

  /** Without columns added, the row groups are those meant if and only if each had fewer than 65536 blocks. */
  lemma {:induction false} EveryBlockKept(t: Table, ops: seq<Op>)
    requires GroupsSmall(t.groups) && forall i {:trigger ops[i]} :: 0 <= i < |ops| ==> !ops[i].Column?
    ensures var a, m := ApplyAll(t, ops), MeantAll(t, ops);
            && |a.groups| == |m.groups| && a.open == m.open && a.openStats == m.openStats && a.count == m.count
            && GroupsSmall(a.groups) && (AllCounted(t, ops) <==> GroupsSmall(m.groups))
            && (a.groups == m.groups <==> GroupsSmall(m.groups))
  {
    if ops != [] {
      var front, op := ops[..|ops| - 1], ops[|ops| - 1];
      EveryBlockKept(t, front);
      if op.EndGroup? {
        GroupEnds(ApplyAll(t, front), MeantAll(t, front), op.nRows);
      }
    }
  }

  lemma GroupEnds(a: Table, m: Table, n: nat)
    requires |a.groups| == |m.groups| && a.open == m.open && a.openStats == m.openStats
    requires GroupsSmall(a.groups) && (a.groups == m.groups <==> GroupsSmall(m.groups))
    ensures var a', m' := Apply(a, EndGroup(n)), Meant(m, EndGroup(n));
            && GroupsSmall(a'.groups) && (GroupsSmall(m'.groups) <==> GroupsSmall(m.groups) && |m.open| < U16_LIMIT)
            && (a'.groups == m'.groups <==> GroupsSmall(m'.groups))
  {
    var a', m' := Apply(a, EndGroup(n)), Meant(m, EndGroup(n));
    var k := |m.groups|;
    assert a'.groups[..k] == a.groups && m'.groups[..k] == m.groups;
    assert a'.groups[k].blocks == Counted(a.open) && m'.groups[k].blocks == m.open;
    if GroupsSmall(m'.groups) {
      forall i | 0 <= i < k
        ensures |m.groups[i].blocks| < U16_LIMIT
      {
        assert m'.groups[i] == m.groups[i];
      }
    }
    if a'.groups == m'.groups {
      assert Counted(a.open) == m.open;
    }
  }

  /** The same thing k times. */
  function Repeated<T>(x: T, k: nat): (s: seq<T>)
    ensures |s| == k
  {
    seq(k, _ => x)
  }

  /** A row group of 65537 blocks reads back as its first block alone. */
  lemma BlocksLost(rec: seq<byte>, n: nat)
    ensures var ops := Repeated(Block(rec), 65537) + [EndGroup(n)];
            var t := ApplyAll(EMPTY, ops);
            && |MeantAll(EMPTY, ops).groups[0].blocks| == 65537
            && t.groups == [RowGroup(n, [rec], None)] && t.count == 65537
  {
    ManyBlocks(EMPTY, rec, 65537);
    LastCall(EMPTY, Repeated(Block(rec), 65537), EndGroup(n));
    hide ApplyAll, MeantAll;
    var open := EMPTY.open + Repeated(rec, 65537);
    assert open == Repeated(rec, 65537);
    assert Counted(open) == [rec];
  }

  lemma LastCall(t: Table, ops: seq<Op>, op: Op)
    ensures ApplyAll(t, ops + [op]) == Apply(ApplyAll(t, ops), op)
    ensures MeantAll(t, ops + [op]) == Meant(MeantAll(t, ops), op)
  {
    assert (ops + [op])[..|ops|] == ops;
  }

  lemma {:induction false} ManyBlocks(t: Table, rec: seq<byte>, k: nat)
    requires t.count + k < U64_LIMIT
    ensures var ops := Repeated(Block(rec), k);
            ApplyAll(t, ops) == MeantAll(t, ops) == t.(open := t.open + Repeated(rec, k), count := t.count + k)
  {
    if k == 0 {
      assert t.open + Repeated(rec, 0) == t.open;
    } else {
      ManyBlocks(t, rec, k - 1);
      assert Repeated(Block(rec), k)[..k - 1] == Repeated(Block(rec), k - 1);
      assert t.open + Repeated(rec, k) == t.open + Repeated(rec, k - 1) + [rec];
    }
  }
}
