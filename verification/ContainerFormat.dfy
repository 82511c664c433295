/**
 * What a container file means (include/tdc/format.h, src/format/header.c, src/format/rowgroup.c,
 * src/api/stream_decode.c): the 64-byte header, the trailing row-group index, and the reader that
 * decides, for any file contents, which schema, row groups and block bytes it holds.
 */
module ContainerFormat {
  import opened Base

  const HEADER_SIZE: nat := 64
  const MAGIC: nat := 0x46434454
  const VERSION: nat := 1
  const LEGACY_MAGIC: nat := 0x31434454
  const LEGACY_VERSION: nat := 1
  const LEGACY_VERSION_WIDENED: nat := 2

  const HETEROGENEOUS: nat := 1
  const HAS_STATS: nat := 2
  const WIDENED: nat := 4

  /* ---- Header ------------------------------------------------------------ */

  /** The last three fields are the relocated-schema view of the header's union. */
  datatype Header = Header(magic: nat, version: nat, flags: nat, nBlocks: nat, indexOffset: nat, indexSize: nat,
                           dtype: byte, layout: byte, rank: byte, reserved0: byte, schemaSize: nat,
                           schemaOffset: nat, blocksStart: nat, reserved1: nat)

  /** Every field fits its place. */
  predicate HeaderFits(h: Header)
  {
    && h.magic < U32_LIMIT && h.version < U16_LIMIT && h.flags < U16_LIMIT && h.nBlocks < U64_LIMIT
    && h.indexOffset < U64_LIMIT && h.indexSize < U64_LIMIT && h.schemaSize < U32_LIMIT
    && h.schemaOffset < U64_LIMIT && h.blocksStart < U64_LIMIT && h.reserved1 < U64_LIMIT
  }

  /** The first 32 bytes. */
  function FrontBytes(h: Header): (b: seq<byte>)
    ensures |b| == 32
  {
    LE(h.magic, 4) + LE(h.version, 2) + LE(h.flags, 2) + LE(h.nBlocks, 8) + LE(h.indexOffset, 8) + LE(h.indexSize, 8)
  }

  /** The last 28 bytes. */
  function BackBytes(h: Header): (b: seq<byte>)
    ensures |b| == 28
  {
    LE(h.schemaSize, 4) + LE(h.schemaOffset, 8) + LE(h.blocksStart, 8) + LE(h.reserved1, 8)
  }

  function HeaderBytes(h: Header): (b: seq<byte>)
    ensures |b| == HEADER_SIZE
  {
    FrontBytes(h) + [h.dtype, h.layout, h.rank, h.reserved0] + BackBytes(h)
  }

  function ParseHeader(b: seq<byte>): (h: Header)
    requires |b| >= HEADER_SIZE
    ensures HeaderFits(h)
  {
    LEBelow(b[0..4]);
    LEBelow(b[4..6]);
    LEBelow(b[6..8]);
    LEBelow(b[8..16]);
    LEBelow(b[16..24]);
    LEBelow(b[24..32]);
    LEBelow(b[36..40]);
    LEBelow(b[40..48]);
    LEBelow(b[48..56]);
    LEBelow(b[56..64]);
    Header(LEVal(b[0..4]), LEVal(b[4..6]), LEVal(b[6..8]), LEVal(b[8..16]), LEVal(b[16..24]), LEVal(b[24..32]),
           b[32], b[33], b[34], b[35], LEVal(b[36..40]), LEVal(b[40..48]), LEVal(b[48..56]), LEVal(b[56..64]))
  }

  lemma FrontFields(h: Header)
    ensures var b := FrontBytes(h);
            && b[0..4] == LE(h.magic, 4) && b[4..6] == LE(h.version, 2) && b[6..8] == LE(h.flags, 2)
            && b[8..16] == LE(h.nBlocks, 8) && b[16..24] == LE(h.indexOffset, 8) && b[24..32] == LE(h.indexSize, 8)
  {
  }

  lemma BackFields(h: Header)
    ensures var b := BackBytes(h);
            && b[0..4] == LE(h.schemaSize, 4) && b[4..12] == LE(h.schemaOffset, 8)
            && b[12..20] == LE(h.blocksStart, 8) && b[20..28] == LE(h.reserved1, 8)
  {
  }

  /** A slice inside one of three joined parts. */
  lemma PartSlices(a: seq<byte>, b: seq<byte>, c: seq<byte>, lo: nat, hi: nat)
    requires lo <= hi
    ensures hi <= |a| ==> (a + b + c)[lo..hi] == a[lo..hi]
    ensures |a| + |b| <= lo && hi <= |a| + |b| + |c| ==>
              (a + b + c)[lo..hi] == c[lo - |a| - |b|..hi - |a| - |b|]
  {
  }

  lemma HeaderFieldBytes(h: Header)
    ensures var b := HeaderBytes(h);
            && b[0..4] == LE(h.magic, 4) && b[4..6] == LE(h.version, 2) && b[6..8] == LE(h.flags, 2)
            && b[8..16] == LE(h.nBlocks, 8) && b[16..24] == LE(h.indexOffset, 8) && b[24..32] == LE(h.indexSize, 8)
            && b[32] == h.dtype && b[33] == h.layout && b[34] == h.rank && b[35] == h.reserved0
            && b[36..40] == LE(h.schemaSize, 4) && b[40..48] == LE(h.schemaOffset, 8)
            && b[48..56] == LE(h.blocksStart, 8) && b[56..64] == LE(h.reserved1, 8)
  {
    hide LE, FrontBytes, BackBytes;
    var f, m, t := FrontBytes(h), [h.dtype, h.layout, h.rank, h.reserved0], BackBytes(h);
    FrontFields(h);
    BackFields(h);
    PartSlices(f, m, t, 0, 4);
    PartSlices(f, m, t, 4, 6);
    PartSlices(f, m, t, 6, 8);
    PartSlices(f, m, t, 8, 16);
    PartSlices(f, m, t, 16, 24);
    PartSlices(f, m, t, 24, 32);
    PartSlices(f, m, t, 36, 40);
    PartSlices(f, m, t, 40, 48);
    PartSlices(f, m, t, 48, 56);
    PartSlices(f, m, t, 56, 64);
  }

  /** The header survives being written and read, whatever follows it. */
  lemma HeaderRoundTrip(h: Header, rest: seq<byte>)
    requires HeaderFits(h)
    ensures ParseHeader(HeaderBytes(h) + rest) == h
  {
    HeaderFieldBytes(h);
    LEFieldRoundTrip(h.magic, 4);
    LEFieldRoundTrip(h.version, 2);
    LEFieldRoundTrip(h.flags, 2);
    LEFieldRoundTrip(h.nBlocks, 8);
    LEFieldRoundTrip(h.indexOffset, 8);
    LEFieldRoundTrip(h.indexSize, 8);
    LEFieldRoundTrip(h.schemaSize, 4);
    LEFieldRoundTrip(h.schemaOffset, 8);
    LEFieldRoundTrip(h.blocksStart, 8);
    LEFieldRoundTrip(h.reserved1, 8);
    SamePrefix(HeaderBytes(h) + rest, HeaderBytes(h));
  }

  lemma JoinFront(b: seq<byte>)
    requires |b| == HEADER_SIZE
    ensures b[0..4] + b[4..6] + b[6..8] + b[8..16] + b[16..24] + b[24..32] == b[0..32]
  {
  }

  lemma JoinBack(b: seq<byte>)
    requires |b| == HEADER_SIZE
    ensures b[36..40] + b[40..48] + b[48..56] + b[56..64] == b[36..64]
  {
  }

  lemma JoinAll(b: seq<byte>)
    requires |b| == HEADER_SIZE
    ensures b[0..32] + [b[32], b[33], b[34], b[35]] + b[36..64] == b
  {
  }

  /** A header read and written back is the same 64 bytes. */
  lemma HeaderRewrite(b: seq<byte>)
    requires |b| == HEADER_SIZE
    ensures HeaderBytes(ParseHeader(b)) == b
  {
    hide LE, LEVal;
    var h := ParseHeader(b);
    LEFits(b[0..4]);
    LEFits(b[4..6]);
    LEFits(b[6..8]);
    LEFits(b[8..16]);
    LEFits(b[16..24]);
    LEFits(b[24..32]);
    LEFits(b[36..40]);
    LEFits(b[40..48]);
    LEFits(b[48..56]);
    LEFits(b[56..64]);
    JoinFront(b);
    JoinBack(b);
    JoinAll(b);
  }

  /** Only the first 64 bytes matter. */
  lemma HeaderOfPrefix(a: seq<byte>, b: seq<byte>)
    requires |a| >= HEADER_SIZE && |b| >= HEADER_SIZE && a[..HEADER_SIZE] == b[..HEADER_SIZE]
    ensures ParseHeader(a) == ParseHeader(b)
  {
    var p := a[..HEADER_SIZE];
    SamePrefix(a, p);
    SamePrefix(b, p);
  }

  lemma SamePrefix(a: seq<byte>, p: seq<byte>)
    requires |p| == HEADER_SIZE <= |a| && a[..HEADER_SIZE] == p
    ensures ParseHeader(a) == ParseHeader(p)
  {
    assert forall i :: 0 <= i < HEADER_SIZE ==> a[i] == p[i];
    assert a[0..4] == p[0..4] && a[4..6] == p[4..6] && a[6..8] == p[6..8] && a[8..16] == p[8..16];
    assert a[16..24] == p[16..24] && a[24..32] == p[24..32] && a[36..40] == p[36..40];
    assert a[40..48] == p[40..48] && a[48..56] == p[48..56] && a[56..64] == p[56..64];
  }

  /* ---- Flags and generations --------------------------------------------- */

  predicate HasFlag(flags: nat, bit: nat)
    requires bit > 0
  {
    flags / bit % 2 == 1
  }

  function SetFlag(flags: nat, bit: nat): nat
    requires bit > 0
  {
    if HasFlag(flags, bit) then flags else flags + bit
  }

  function ClearFlag(flags: nat, bit: nat): nat
    requires bit > 0
  {
    if HasFlag(flags, bit) then flags - bit else flags
  }

  /** The three flags are the low three bits. */
  lemma FlagBits(flags: nat)
    ensures HasFlag(flags, HETEROGENEOUS) == (flags % 8 in {1, 3, 5, 7})
    ensures HasFlag(flags, HAS_STATS) == (flags % 8 in {2, 3, 6, 7})
    ensures HasFlag(flags, WIDENED) == (flags % 8 >= 4)
  {
    var q, r := flags / 8, flags % 8;
    assert flags == 8 * q + r;
    assert flags / 2 == 4 * q + r / 2 && flags / 4 == 2 * q + r / 4;
  }

  /** The bits below and above a changed bit stay. */
  lemma BitAlone(flags: nat)
    ensures var w, c := SetFlag(flags, WIDENED), ClearFlag(flags, WIDENED);
            w % 4 == c % 4 == flags % 4 && w / 8 == c / 8 == flags / 8
  {
    var q, r := flags / 8, flags % 8;
    FlagBits(flags);
    hide HasFlag;
    if r < 4 {
      Octet(q, r);
      Octet(q, r + 4);
    } else {
      Octet(q, r);
      Octet(q, r - 4);
    }
  }

  lemma Octet(q: nat, r: nat)
    requires r < 8
    ensures (8 * q + r) / 8 == q && (8 * q + r) % 4 == r % 4
  {
    DivModUnique(q, 8, r);
    DivModUnique(2 * q + r / 4, 4, r % 4);
  }

  /** Setting or clearing a flag changes that bit and no other. */
  lemma WidenedSet(flags: nat)
    requires flags < U16_LIMIT
    ensures var w := SetFlag(flags, WIDENED);
            && w < U16_LIMIT && HasFlag(w, WIDENED) && HasFlag(w, HETEROGENEOUS) == HasFlag(flags, HETEROGENEOUS)
            && HasFlag(w, HAS_STATS) == HasFlag(flags, HAS_STATS) && w % 4 == flags % 4 && w / 8 == flags / 8
  {
    BitAlone(flags);
    FlagBits(flags);
    FlagBits(SetFlag(flags, WIDENED));
  }

  lemma WidenedCleared(flags: nat)
    requires flags < U16_LIMIT
    ensures var c := ClearFlag(flags, WIDENED);
            && c < U16_LIMIT && !HasFlag(c, WIDENED) && HasFlag(c, HETEROGENEOUS) == HasFlag(flags, HETEROGENEOUS)
            && HasFlag(c, HAS_STATS) == HasFlag(flags, HAS_STATS) && c % 4 == flags % 4 && c / 8 == flags / 8
  {
    BitAlone(flags);
    FlagBits(flags);
    FlagBits(ClearFlag(flags, WIDENED));
  }

  lemma StatsSet(flags: nat)
    requires flags < U16_LIMIT
    ensures var s := SetFlag(flags, HAS_STATS);
            && s < U16_LIMIT && HasFlag(s, HAS_STATS) && HasFlag(s, HETEROGENEOUS) == HasFlag(flags, HETEROGENEOUS)
            && HasFlag(s, WIDENED) == HasFlag(flags, WIDENED) && s % 2 == flags % 2 && s / 4 == flags / 4
  {
    FlagBits(flags);
    FlagBits(SetFlag(flags, HAS_STATS));
  }

  /** Magic and version of either generation. */
  function CheckGeneration(h: Header): Result<()>
  {
    if h.magic == MAGIC then (if h.version != VERSION then Err(Version) else Ok(()))
    else if h.magic == LEGACY_MAGIC then
      if h.version != LEGACY_VERSION && h.version != LEGACY_VERSION_WIDENED then Err(Version)
      else if HasFlag(h.flags, WIDENED) then Err(Corrupt)
      else Ok(())
    else Err(Corrupt)
  }

  predicate IsWidened(h: Header)
  {
    if h.magic == LEGACY_MAGIC then h.version == LEGACY_VERSION_WIDENED else HasFlag(h.flags, WIDENED)
  }

  function SchemaOffset(h: Header): nat
  {
    if IsWidened(h) then h.schemaOffset else HEADER_SIZE
  }

  function BlocksStart(h: Header): nat
  {
    if IsWidened(h) then h.blocksStart else HEADER_SIZE + h.schemaSize
  }

  /* ---- Row-group index --------------------------------------------------- */

  const GROUP_HEADER: nat := 24
  const COL_SIZE: nat := 16
  const STATS_ENTRY: nat := 41

  datatype Col = Col(offset: nat, total: nat)

  /** Per-column statistics are kept as their 41-byte wire entries. */
  datatype Group = Group(offset: nat, nRows: nat, cols: seq<Col>, stats: Option<seq<byte>>)

  predicate ColFits(c: Col)
  {
    c.offset < U64_LIMIT && c.total < U64_LIMIT
  }

  /** A group whose fields fit the index: its columns counted in 16 bits. */
  predicate GroupStored(g: Group, hasStats: bool)
  {
    && g.offset < U64_LIMIT && g.nRows < U64_LIMIT && |g.cols| < U16_LIMIT
    && (forall i {:trigger g.cols[i]} :: 0 <= i < |g.cols| ==> ColFits(g.cols[i]))
    && (g.stats.Some? ==> hasStats && |g.stats.value| == STATS_ENTRY * |g.cols|)
  }

  /** A group the index gives back: it has at least one column. */
  predicate GroupFits(g: Group, hasStats: bool)
  {
    GroupStored(g, hasStats) && g.cols != []
  }

  predicate GroupsStored(gs: seq<Group>, hasStats: bool)
  {
    forall i {:trigger gs[i]} :: 0 <= i < |gs| ==> GroupStored(gs[i], hasStats)
  }

  predicate GroupsFit(gs: seq<Group>, hasStats: bool)
  {
    forall i {:trigger gs[i]} :: 0 <= i < |gs| ==> GroupFits(gs[i], hasStats)
  }

  function ColsBytes(cs: seq<Col>): (b: seq<byte>)
    ensures |b| == COL_SIZE * |cs|
  {
    if cs == [] then [] else LE(cs[0].offset, 8) + LE(cs[0].total, 8) + ColsBytes(cs[1..])
  }

  function StatsBytes(g: Group): seq<byte>
  {
    if g.stats.Some? then g.stats.value else []
  }

  function GroupBytes(g: Group): (b: seq<byte>)
    ensures |b| == GROUP_HEADER + COL_SIZE * |g.cols| + |StatsBytes(g)|
  {
    LE(g.offset, 8) + LE(g.nRows, 8) + LE(|g.cols|, 2) + LE(0, 2) + LE(|StatsBytes(g)|, 4)
    + ColsBytes(g.cols) + StatsBytes(g)
  }

  function GroupsBytes(gs: seq<Group>): (b: seq<byte>)
    ensures |b| >= GROUP_HEADER * |gs|
  {
    if gs == [] then [] else GroupBytes(gs[0]) + GroupsBytes(gs[1..])
  }

  function IndexBytes(gs: seq<Group>): (b: seq<byte>)
    ensures |b| >= 8 + GROUP_HEADER * |gs|
  {
    LE(|gs|, 8) + GroupsBytes(gs)
  }

  function ParseCols(b: seq<byte>, n: nat): (cs: seq<Col>)
    requires |b| == COL_SIZE * n
    ensures |cs| == n
    decreases n
  {
    if n == 0 then [] else [Col(LEVal(b[0..8]), LEVal(b[8..16]))] + ParseCols(b[16..], n - 1)
  }

  /** One group and the bytes after it. */
  function ParseGroup(b: seq<byte>, hasStats: bool): (r: Result<(Group, seq<byte>)>)
    ensures if r.Ok? then |r.value.1| < |b| && 0 < |r.value.0.cols| else r.error == Corrupt
  {
    if GROUP_HEADER > |b| then Err(Corrupt)
    else
      var nc, pad, statsSize := LEVal(b[16..18]), LEVal(b[18..20]), LEVal(b[20..24]);
      var colsEnd := GROUP_HEADER + COL_SIZE * nc;
      if pad != 0 || nc == 0 then Err(Corrupt)
      else if statsSize != 0 && (!hasStats || statsSize != STATS_ENTRY * nc) then Err(Corrupt)
      else if colsEnd + statsSize > |b| then Err(Corrupt)
      else Ok((Group(LEVal(b[0..8]), LEVal(b[8..16]), ParseCols(b[GROUP_HEADER..colsEnd], nc),
                     if statsSize != 0 then Some(b[colsEnd..colsEnd + statsSize]) else None),
               b[colsEnd + statsSize..]))
  }

  function ParseGroups(b: seq<byte>, n: nat, hasStats: bool): (r: Result<seq<Group>>)
    ensures if r.Ok? then |r.value| == n else r.error == Corrupt
    decreases n
  {
    if n == 0 then Ok([])
    else
      match ParseGroup(b, hasStats)
      case Err(e) => Err(e)
      case Ok((g, rest)) =>
        match ParseGroups(rest, n - 1, hasStats)
        case Err(e) => Err(e)
        case Ok(gs) => Ok([g] + gs)
  }

  /** Bytes after the last group are ignored. */
  function ParseIndex(b: seq<byte>, hasStats: bool): (r: Result<seq<Group>>)
    ensures r.Err? ==> r.error == Corrupt
  {
    if |b| < 8 then Err(Corrupt)
    else
      var n := LEVal(b[0..8]);
      if n == 0 then Ok([])
      else if n > (|b| - 8) / GROUP_HEADER then Err(Corrupt)
      else ParseGroups(b[8..], n, hasStats)
  }

  lemma {:induction false} ColsRoundTrip(cs: seq<Col>)
    requires forall i {:trigger cs[i]} :: 0 <= i < |cs| ==> ColFits(cs[i])
    ensures ParseCols(ColsBytes(cs), |cs|) == cs
  {
    if cs != [] {
      ColsRoundTrip(cs[1..]);
      var b := ColsBytes(cs);
      LEFieldRoundTrip(cs[0].offset, 8);
      LEFieldRoundTrip(cs[0].total, 8);
      assert b[0..8] == LE(cs[0].offset, 8) && b[8..16] == LE(cs[0].total, 8) && b[16..] == ColsBytes(cs[1..]);
    }
  }

  lemma GroupSlices(g: Group, rest: seq<byte>)
    ensures var b := GroupBytes(g) + rest;
            var colsEnd := GROUP_HEADER + COL_SIZE * |g.cols|;
            && b[0..8] == LE(g.offset, 8) && b[8..16] == LE(g.nRows, 8) && b[16..18] == LE(|g.cols|, 2)
            && b[18..20] == LE(0, 2) && b[20..24] == LE(|StatsBytes(g)|, 4)
            && b[GROUP_HEADER..colsEnd] == ColsBytes(g.cols)
            && b[colsEnd..colsEnd + |StatsBytes(g)|] == StatsBytes(g)
            && b[colsEnd + |StatsBytes(g)|..] == rest
  {
    hide LE, ColsBytes, StatsBytes;
  }

  lemma GroupRoundTrip(g: Group, rest: seq<byte>, hasStats: bool)
    requires GroupFits(g, hasStats)
    ensures ParseGroup(GroupBytes(g) + rest, hasStats) == Ok((g, rest))
  {
    GroupSlices(g, rest);
    LEFieldRoundTrip(g.offset, 8);
    LEFieldRoundTrip(g.nRows, 8);
    LEFieldRoundTrip(|g.cols|, 2);
    LEFieldRoundTrip(0, 2);
    LEFieldRoundTrip(|StatsBytes(g)|, 4);
    ColsRoundTrip(g.cols);
    hide LE, LEVal, ColsBytes, ParseCols, GroupBytes;
  }

  lemma ParseCons(b: seq<byte>, g: Group, rest: seq<byte>, gs: seq<Group>, hasStats: bool)
    requires ParseGroup(b, hasStats) == Ok((g, rest)) && ParseGroups(rest, |gs|, hasStats) == Ok(gs)
    ensures ParseGroups(b, |gs| + 1, hasStats) == Ok([g] + gs)
  {
    hide ParseGroup;
  }

  lemma FitsCons(gs: seq<Group>, hasStats: bool)
    requires GroupsFit(gs, hasStats) && gs != []
    ensures GroupFits(gs[0], hasStats) && GroupsFit(gs[1..], hasStats)
    ensures GroupsBytes(gs) == GroupBytes(gs[0]) + GroupsBytes(gs[1..]) && gs == [gs[0]] + gs[1..]
  {
    hide GroupFits, GroupBytes;
  }

  lemma {:induction false} GroupsRoundTrip(gs: seq<Group>, rest: seq<byte>, hasStats: bool)
    requires GroupsFit(gs, hasStats)
    ensures ParseGroups(GroupsBytes(gs) + rest, |gs|, hasStats) == Ok(gs)
  {
    if gs != [] {
      hide *;
      FitsCons(gs, hasStats);
      GroupsRoundTrip(gs[1..], rest, hasStats);
      GroupRoundTrip(gs[0], GroupsBytes(gs[1..]) + rest, hasStats);
      ConcatAssociative(GroupBytes(gs[0]), GroupsBytes(gs[1..]), rest);
      ParseCons(GroupsBytes(gs) + rest, gs[0], GroupsBytes(gs[1..]) + rest, gs[1..], hasStats);
    }
  }

  /** An index holding a group without columns is refused. */
  lemma {:induction false} EmptyGroupRefused(gs: seq<Group>, k: nat, rest: seq<byte>, hasStats: bool)
    requires GroupsStored(gs, hasStats) && k < |gs| && gs[k].cols == []
    ensures ParseGroups(GroupsBytes(gs) + rest, |gs|, hasStats) == Err(Corrupt)
  {
    hide GroupBytes, ParseGroup, LE, LEVal;
    var tail := GroupsBytes(gs[1..]) + rest;
    ConcatAssociative(GroupBytes(gs[0]), GroupsBytes(gs[1..]), rest);
    if gs[0].cols == [] {
      GroupRefused(gs[0], tail, hasStats);
    } else {
      GroupRoundTrip(gs[0], tail, hasStats);
      EmptyGroupRefused(gs[1..], k - 1, rest, hasStats);
    }
  }

  lemma GroupRefused(g: Group, rest: seq<byte>, hasStats: bool)
    requires GroupStored(g, hasStats) && g.cols == []
    ensures ParseGroup(GroupBytes(g) + rest, hasStats) == Err(Corrupt)
  {
    GroupSlices(g, rest);
    LEFieldRoundTrip(0, 2);
  }

  /** A stored index reads back exactly when each of its groups has a column. */
  lemma IndexReadsBack(gs: seq<Group>, hasStats: bool)
    requires GroupsStored(gs, hasStats) && |gs| < U64_LIMIT
    ensures ParseIndex(IndexBytes(gs), hasStats) == if GroupsFit(gs, hasStats) then Ok(gs) else Err(Corrupt)
  {
    if GroupsFit(gs, hasStats) {
      IndexRoundTrip(gs, hasStats);
    } else {
      var k :| 0 <= k < |gs| && !GroupFits(gs[k], hasStats);
      var b := IndexBytes(gs);
      LEFieldRoundTrip(|gs|, 8);
      assert b[0..8] == LE(|gs|, 8) && b[8..] == GroupsBytes(gs) + [];
      EmptyGroupRefused(gs, k, [], hasStats);
      DivAtLeast(|b| - 8, GROUP_HEADER, |gs|);
    }
  }

  /** Any index of groups that fit reads back. */
  lemma IndexRoundTrip(gs: seq<Group>, hasStats: bool)
    requires GroupsFit(gs, hasStats) && |gs| < U64_LIMIT
    ensures ParseIndex(IndexBytes(gs), hasStats) == Ok(gs)
  {
    var b := IndexBytes(gs);
    LEFieldRoundTrip(|gs|, 8);
    assert b[0..8] == LE(|gs|, 8) && b[8..] == GroupsBytes(gs) + [];
    GroupsRoundTrip(gs, [], hasStats);
    DivAtLeast(|b| - 8, GROUP_HEADER, |gs|);
  }

  /** Groups read from an index can be written to one again. */
  lemma {:induction false} ParsedGroupsFit(b: seq<byte>, n: nat, hasStats: bool)
    ensures ParseGroups(b, n, hasStats).Ok? ==> GroupsFit(ParseGroups(b, n, hasStats).value, hasStats)
    decreases n
  {
    if n > 0 && ParseGroup(b, hasStats).Ok? {
      ParsedGroupFits(b, hasStats);
      ParsedGroupsFit(ParseGroup(b, hasStats).value.1, n - 1, hasStats);
    }
  }

  lemma ParsedGroupFits(b: seq<byte>, hasStats: bool)
    requires ParseGroup(b, hasStats).Ok?
    ensures GroupFits(ParseGroup(b, hasStats).value.0, hasStats)
  {
    LEBelow(b[0..8]);
    LEBelow(b[8..16]);
    LEBelow(b[16..18]);
    var nc := LEVal(b[16..18]);
    ParsedColsFit(b[GROUP_HEADER..GROUP_HEADER + COL_SIZE * nc], nc);
  }

  lemma {:induction false} ParsedColsFit(b: seq<byte>, n: nat)
    requires |b| == COL_SIZE * n
    ensures forall i {:trigger ParseCols(b, n)[i]} :: 0 <= i < n ==> ColFits(ParseCols(b, n)[i])
    decreases n
  {
    if n > 0 {
      LEBelow(b[0..8]);
      LEBelow(b[8..16]);
      ParsedColsFit(b[16..], n - 1);
    }
  }

  lemma ParsedIndexFits(b: seq<byte>, hasStats: bool)
    requires ParseIndex(b, hasStats).Ok?
    ensures GroupsFit(ParseIndex(b, hasStats).value, hasStats)
  {
    if LEVal(b[0..8]) != 0 {
      ParsedGroupsFit(b[8..], LEVal(b[0..8]), hasStats);
    }
  }

  lemma ColRewritten(b: seq<byte>, n: nat)
    requires n > 0 && |b| == COL_SIZE * n
    ensures ColsBytes(ParseCols(b, n)) == b[0..8] + b[8..16] + ColsBytes(ParseCols(b[16..], n - 1))
    ensures b == b[0..8] + b[8..16] + b[16..]
  {
    LEBelow(b[0..8]);
    LEBelow(b[8..16]);
    assert ParseCols(b, n)[1..] == ParseCols(b[16..], n - 1);
  }

  lemma {:induction false} ColsRewritten(b: seq<byte>, n: nat)
    requires |b| == COL_SIZE * n
    ensures ColsBytes(ParseCols(b, n)) == b
    decreases n
  {
    if n > 0 {
      hide ColsBytes, ParseCols;
      ColRewritten(b, n);
      ColsRewritten(b[16..], n - 1);
    }
  }

  lemma GroupRewritten(b: seq<byte>, hasStats: bool)
    requires ParseGroup(b, hasStats).Ok?
    ensures var (g, rest) := ParseGroup(b, hasStats).value; b == GroupBytes(g) + rest
  {
    hide LE, LEVal, ColsBytes, ParseCols;
    var (g, rest) := ParseGroup(b, hasStats).value;
    var colsEnd := GROUP_HEADER + COL_SIZE * |g.cols|;
    FieldsRewritten(b);
    ColsRewritten(b[GROUP_HEADER..colsEnd], |g.cols|);
    GroupJoined(g, b, colsEnd, colsEnd + |StatsBytes(g)|);
  }

  lemma GroupJoined(g: Group, b: seq<byte>, colsEnd: nat, end: nat)
    requires GROUP_HEADER <= colsEnd <= end <= |b|
    requires LE(g.offset, 8) == b[0..8] && LE(g.nRows, 8) == b[8..16] && LE(|g.cols|, 2) == b[16..18]
    requires LE(0, 2) == b[18..20] && LE(|StatsBytes(g)|, 4) == b[20..24]
    requires ColsBytes(g.cols) == b[GROUP_HEADER..colsEnd] && StatsBytes(g) == b[colsEnd..end]
    ensures b == GroupBytes(g) + b[end..]
  {
    hide LE, ColsBytes, StatsBytes;
    FieldsJoin(b, colsEnd, end);
  }

  lemma FieldsJoin(b: seq<byte>, colsEnd: nat, end: nat)
    requires GROUP_HEADER <= colsEnd <= end <= |b|
    ensures b == b[0..8] + b[8..16] + b[16..18] + b[18..20] + b[20..24] + b[GROUP_HEADER..colsEnd] + b[colsEnd..end]
                 + b[end..]
  {
    assert b[..24] == b[0..8] + b[8..16] + b[16..18] + b[18..20] + b[20..24];
    assert b[24..] == b[24..colsEnd] + b[colsEnd..end] + b[end..];
  }

  lemma FieldsRewritten(b: seq<byte>)
    requires |b| >= GROUP_HEADER
    ensures LE(LEVal(b[0..8]), 8) == b[0..8] && LE(LEVal(b[8..16]), 8) == b[8..16]
    ensures LE(LEVal(b[16..18]), 2) == b[16..18] && LE(LEVal(b[18..20]), 2) == b[18..20]
    ensures LE(LEVal(b[20..24]), 4) == b[20..24]
  {
    hide LE, LEVal;
    LEBelow(b[0..8]);
    LEBelow(b[8..16]);
    LEBelow(b[16..18]);
    LEBelow(b[18..20]);
    LEBelow(b[20..24]);
  }

  lemma GroupsStep(b: seq<byte>, n: nat, hasStats: bool)
    requires n > 0 && ParseGroups(b, n, hasStats).Ok?
    ensures ParseGroup(b, hasStats).Ok?
    ensures var (g, rest) := ParseGroup(b, hasStats).value;
            var gs := ParseGroups(rest, n - 1, hasStats);
            gs.Ok? && ParseGroups(b, n, hasStats).value == [g] + gs.value
  {
    hide ParseGroup;
  }

  lemma GroupsCons(g: Group, gs: seq<Group>)
    ensures GroupsBytes([g] + gs) == GroupBytes(g) + GroupsBytes(gs)
  {
    assert ([g] + gs)[1..] == gs;
  }

  lemma NoneParsed(b: seq<byte>, hasStats: bool)
    ensures ParseGroups(b, 0, hasStats) == Ok([]) && GroupsBytes([]) <= b
  {
  }

  lemma PrefixUnder(a: seq<byte>, x: seq<byte>, y: seq<byte>)
    requires x <= y
    ensures a + x <= a + y
  {
    assert a + y == a + x + y[|x|..];
  }

  lemma {:induction false} GroupsRewritten(b: seq<byte>, n: nat, hasStats: bool)
    ensures ParseGroups(b, n, hasStats).Ok? ==> GroupsBytes(ParseGroups(b, n, hasStats).value) <= b
    decreases n
  {
    hide *;
    if n == 0 {
      NoneParsed(b, hasStats);
    } else if ParseGroups(b, n, hasStats).Ok? {
      GroupsStep(b, n, hasStats);
      var (g, rest) := ParseGroup(b, hasStats).value;
      var gs := ParseGroups(rest, n - 1, hasStats).value;
      GroupRewritten(b, hasStats);
      GroupsRewritten(rest, n - 1, hasStats);
      GroupsCons(g, gs);
      PrefixUnder(GroupBytes(g), GroupsBytes(gs), rest);
    }
  }

  /** An index read and written again gives the bytes it was read from, up to where the last group ends. */
  lemma IndexRewritten(b: seq<byte>, hasStats: bool)
    requires ParseIndex(b, hasStats).Ok?
    ensures IndexBytes(ParseIndex(b, hasStats).value) <= b
  {
    hide LE, GroupsBytes, ParseGroups;
    var n := LEVal(b[0..8]);
    LEBelow(b[0..8]);
    assert b == b[0..8] + b[8..];
    if n == 0 {
      NoGroups();
    } else {
      GroupsRewritten(b[8..], n, hasStats);
    }
  }

  lemma NoGroups()
    ensures GroupsBytes([]) == []
  {
  }

  /* ---- Schema section ---------------------------------------------------- */

  /** Whether n column descriptors are all there; in strict form also well named, typed and nothing else. */
  predicate ColumnsParse(b: seq<byte>, n: nat, strict: bool)
    decreases n
  {
    if n == 0 then !strict || b == []
    else
      && |b| >= 2
      && var nameLen := LEVal(b[0..2]);
      && (strict ==> nameLen > 0) && |b| >= 2 + nameLen + 1
      && (strict ==> 1 <= b[2 + nameLen] <= 12) && |b| >= 5 + nameLen
      && var annLen := LEVal(b[3 + nameLen..5 + nameLen]);
      && |b| >= 5 + nameLen + annLen
      && ColumnsParse(b[5 + nameLen + annLen..], n - 1, strict)
  }

  /** The reader's test: bytes after the last column are ignored. */
  predicate SchemaReadable(b: seq<byte>)
  {
    |b| >= 2 && ColumnsParse(b[2..], LEVal(b[0..2]), false)
  }

  /** The number of columns, as the extending encoder reads it. */
  function SchemaColumns(b: seq<byte>): Result<nat>
  {
    if |b| < 2 then Err(Corrupt)
    else if LEVal(b[0..2]) == 0 then Ok(0)
    else if ColumnsParse(b[2..], LEVal(b[0..2]), true) then Ok(LEVal(b[0..2]))
    else Err(Corrupt)
  }

  /** A column as the schema describes it. */
  datatype ColumnDesc = ColumnDesc(name: seq<byte>, dtype: byte, note: seq<byte>)

  predicate DescFits(c: ColumnDesc)
  {
    0 < |c.name| < U16_LIMIT && 1 <= c.dtype <= 12 && |c.note| < U16_LIMIT
  }

  predicate DescsFit(cs: seq<ColumnDesc>)
  {
    forall i {:trigger cs[i]} :: 0 <= i < |cs| ==> DescFits(cs[i])
  }

  function DescBytes(c: ColumnDesc): (b: seq<byte>)
    ensures |b| == 5 + |c.name| + |c.note|
  {
    LE(|c.name|, 2) + c.name + [c.dtype] + LE(|c.note|, 2) + c.note
  }

  function DescsBytes(cs: seq<ColumnDesc>): (b: seq<byte>)
  {
    if cs == [] then [] else DescBytes(cs[0]) + DescsBytes(cs[1..])
  }

  function SchemaBytes(cs: seq<ColumnDesc>): (b: seq<byte>)
  {
    LE(|cs|, 2) + DescsBytes(cs)
  }

  lemma DescSlices(c: ColumnDesc, rest: seq<byte>)
    ensures var b, n := DescBytes(c) + rest, |c.name|;
            && b[0..2] == LE(n, 2) && b[2..2 + n] == c.name && b[2 + n] == c.dtype
            && b[3 + n..5 + n] == LE(|c.note|, 2) && b[5 + n + |c.note|..] == rest
  {
    hide LE;
  }

  lemma DescParses(c: ColumnDesc, tail: seq<byte>, n: nat, strict: bool)
    requires DescFits(c) && n > 0
    ensures ColumnsParse(DescBytes(c) + tail, n, strict) == ColumnsParse(tail, n - 1, strict)
  {
    hide LE, LEVal, DescBytes;
    DescSlices(c, tail);
    LEFieldRoundTrip(|c.name|, 2);
    LEFieldRoundTrip(|c.note|, 2);
  }

  /** Written columns are all there; nothing may follow them in strict form. */
  lemma {:induction false} DescsParse(cs: seq<ColumnDesc>, rest: seq<byte>, strict: bool)
    requires DescsFit(cs)
    ensures ColumnsParse(DescsBytes(cs) + rest, |cs|, strict) <==> !strict || rest == []
  {
    hide DescBytes, DescFits;
    if cs != [] {
      DescsParse(cs[1..], rest, strict);
      ConcatAssociative(DescBytes(cs[0]), DescsBytes(cs[1..]), rest);
      DescParses(cs[0], DescsBytes(cs[1..]) + rest, |cs|, strict);
    }
  }

  /** A written schema gives its column count back, and readers accept it whatever follows. */
  lemma SchemaCounts(cs: seq<ColumnDesc>, rest: seq<byte>)
    requires DescsFit(cs) && |cs| < U16_LIMIT
    ensures SchemaColumns(SchemaBytes(cs)) == Ok(|cs|) && SchemaReadable(SchemaBytes(cs) + rest)
    ensures cs != [] && rest != [] ==> SchemaColumns(SchemaBytes(cs) + rest) == Err(Corrupt)
  {
    hide LE, LEVal, ColumnsParse;
    var b := SchemaBytes(cs);
    LEFieldRoundTrip(|cs|, 2);
    DescsParse(cs, [], true);
    DescsParse(cs, rest, true);
    DescsParse(cs, rest, false);
    ConcatEmpty(DescsBytes(cs));
    assert b[0..2] == LE(|cs|, 2) && b[2..] == DescsBytes(cs);
    assert (b + rest)[0..2] == LE(|cs|, 2) && (b + rest)[2..] == DescsBytes(cs) + rest;
  }

  /** One column read from the front. */
  lemma DescRead(b: seq<byte>, n: nat) returns (c: ColumnDesc, rest: seq<byte>)
    requires n > 0 && ColumnsParse(b, n, true)
    ensures DescFits(c) && b == DescBytes(c) + rest && ColumnsParse(rest, n - 1, true)
  {
    var k := LEVal(b[0..2]);
    var m := LEVal(b[3 + k..5 + k]);
    LEBelow(b[0..2]);
    LEBelow(b[3 + k..5 + k]);
    c, rest := ColumnDesc(b[2..2 + k], b[2 + k], b[5 + k..5 + k + m]), b[5 + k + m..];
    hide *;
    assert b == b[0..2] + b[2..2 + k] + [b[2 + k]] + b[3 + k..5 + k] + b[5 + k..5 + k + m] + rest;
  }

  lemma DescsCons(c: ColumnDesc, cs: seq<ColumnDesc>)
    requires DescFits(c) && DescsFit(cs)
    ensures DescsFit([c] + cs) && DescsBytes([c] + cs) == DescBytes(c) + DescsBytes(cs)
  {
    assert ([c] + cs)[1..] == cs;
  }

  lemma {:induction false} DescsRead(b: seq<byte>, n: nat) returns (cs: seq<ColumnDesc>)
    requires ColumnsParse(b, n, true)
    ensures |cs| == n && DescsFit(cs) && b == DescsBytes(cs)
    decreases n
  {
    if n == 0 {
      cs := [];
    } else {
      var c, rest := DescRead(b, n);
      hide *;
      cs := DescsRead(rest, n - 1);
      DescsCons(c, cs);
      cs := [c] + cs;
    }
  }

  /** A section that counts as n columns is the schema of n columns. */
  lemma CountedSchema(b: seq<byte>) returns (cs: seq<ColumnDesc>)
    requires SchemaColumns(b).Ok? && SchemaColumns(b).value > 0
    ensures DescsFit(cs) && |cs| == SchemaColumns(b).value && b == SchemaBytes(cs)
  {
    LEBelow(b[0..2]);
    cs := DescsRead(b[2..], LEVal(b[0..2]));
    assert b == b[0..2] + b[2..];
  }

  /* ---- The reader -------------------------------------------------------- */

  /** Up to n bytes from an offset, as many as the file has. */
  function Slice(b: seq<byte>, off: nat, n: nat): (s: seq<byte>)
    ensures |s| <= n && (off + n <= |b| ==> s == b[off..off + n])
  {
    b[Min(off, |b|)..Min(off + n, |b|)]
  }

  /** What a reader finds: the schema section, the row groups, and the bytes of every block they list. */
  datatype View = View(schema: seq<byte>, nBlocks: nat, groups: seq<Group>, blocks: seq<seq<seq<byte>>>)

  function ColBlocks(b: seq<byte>, cs: seq<Col>): (d: seq<seq<byte>>)
    ensures |d| == |cs|
  {
    seq(|cs|, i requires 0 <= i < |cs| => Slice(b, cs[i].offset, cs[i].total))
  }

  function GroupBlocks(b: seq<byte>, gs: seq<Group>): (d: seq<seq<seq<byte>>>)
    ensures |d| == |gs|
  {
    seq(|gs|, i requires 0 <= i < |gs| => ColBlocks(b, gs[i].cols))
  }

  /** The schema section of a file with this header. */
  function ReadSchema(b: seq<byte>, h: Header): Result<seq<byte>>
  {
    if h.schemaSize == 0 then Ok([])
    else if SchemaOffset(h) + h.schemaSize > |b| then Err(Corrupt)
    else if !SchemaReadable(Slice(b, SchemaOffset(h), h.schemaSize)) then Err(Corrupt)
    else Ok(Slice(b, SchemaOffset(h), h.schemaSize))
  }

  /** The row groups of a file with this header; none when it names no index. */
  function ReadIndex(b: seq<byte>, h: Header): Result<seq<Group>>
  {
    if h.indexOffset == 0 || h.indexSize == 0 then Ok([])
    else if h.indexOffset + h.indexSize > |b| then Err(Corrupt)
    else ParseIndex(Slice(b, h.indexOffset, h.indexSize), HasFlag(h.flags, HAS_STATS))
  }

  /** Opening a seekable file with the stream decoder, and every block it can reach. */
  function Read(b: seq<byte>): Result<View>
  {
    if |b| < HEADER_SIZE then Err(Corrupt)
    else
      var h := ParseHeader(b);
      match CheckGeneration(h)
      case Err(e) => Err(e)
      case Ok(_) =>
        if IsWidened(h) && (h.schemaOffset == 0 || h.blocksStart == 0) then Err(Corrupt)
        else
          match (ReadSchema(b, h), ReadIndex(b, h))
          case (Err(e), _) => Err(e)
          case (_, Err(e)) => Err(e)
          case (Ok(schema), Ok(gs)) => Ok(View(schema, h.nBlocks, gs, GroupBlocks(b, gs)))
  }

  /* ---- Where the live data ends ------------------------------------------ */

  function ColsEnd(cs: seq<Col>): (e: nat)
    ensures forall i {:trigger cs[i]} :: 0 <= i < |cs| ==> cs[i].offset + cs[i].total <= e
  {
    if cs == [] then 0
    else Max(ColsEnd(cs[..|cs| - 1]), cs[|cs| - 1].offset + cs[|cs| - 1].total)
  }

  function GroupsEnd(gs: seq<Group>): (e: nat)
    ensures forall i {:trigger gs[i]} :: 0 <= i < |gs| ==> ColsEnd(gs[i].cols) <= e
  {
    if gs == [] then 0 else Max(GroupsEnd(gs[..|gs| - 1]), ColsEnd(gs[|gs| - 1].cols))
  }

  /** One past the last schema or block byte the container refers to. */
  function LiveEnd(h: Header, gs: seq<Group>): (e: nat)
  {
    Max(Max(SchemaOffset(h) + h.schemaSize, BlocksStart(h)), GroupsEnd(gs))
  }

  predicate PastHeader(gs: seq<Group>)
  {
    forall g, c {:trigger gs[g].cols[c]} :: 0 <= g < |gs| && 0 <= c < |gs[g].cols| ==>
      gs[g].cols[c].offset >= HEADER_SIZE
  }

  /**
   * A container that can be grown in place: readable, heterogeneous, with an index, every section past
   * the header, and the index at or past the end of the live data.
   */
  predicate Container(b: seq<byte>)
  {
    && |b| >= HEADER_SIZE && Read(b).Ok?
    && var h := ParseHeader(b);
    && var gs := Read(b).value.groups;
    && HasFlag(h.flags, HETEROGENEOUS) && h.indexOffset > 0 && h.indexSize > 0
    && SchemaOffset(h) >= HEADER_SIZE && PastHeader(gs)
    && LiveEnd(h, gs) <= h.indexOffset
  }
}
