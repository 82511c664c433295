/**
 * The container header validator (src/format/header.c) and the headers the encoder writes: which of them it
 * accepts, and that the shape of a homogeneous container stands where a reader looks for it.
 */
module ContainerHeader {
  import opened Base
  import opened ContainerFormat
  import opened ContainerGrowth
  import opened ContainerEntries

  const I64_LIMIT: nat := 0x8000_0000_0000_0000

  /* ---- The validator ----------------------------------------------------- */

  function LayoutRank(layout: byte): (r: int)
    ensures -1 <= r <= 3
  {
    if layout == 1 then 1 else if layout == 2 then 2 else if layout == 3 || layout == 4 then 3 else -1
  }

  /** Dimensions read as signed numbers, none negative, their product within 63 bits at every step. */
  predicate DimsFit(dims: seq<nat>, n: nat)
  {
    dims != [] ==>
      var d := dims[0];
      d < I64_LIMIT && (d == 0 || n <= (I64_LIMIT - 1) / d) && DimsFit(dims[1..], n * d)
  }

  /** The last 24 bytes of a homogeneous container's header are its dimensions. */
  function Dims(h: Header): (d: seq<nat>)
    ensures |d| == 3
  {
    [h.schemaOffset, h.blocksStart, h.reserved1]
  }

  predicate HeterogeneousOk(h: Header)
  {
    && h.dtype == 0 && h.layout == 0 && h.rank == 0 && h.reserved1 == 0
    && if IsWidened(h) then
         HEADER_SIZE <= h.blocksStart < h.schemaOffset && h.schemaSize != 0
       else h.schemaOffset == 0 && h.blocksStart == 0
  }

  predicate HomogeneousOk(h: Header)
  {
    && !IsWidened(h) && 1 <= h.dtype <= 11 && LayoutRank(h.layout) == h.rank as int && 0 < h.rank <= 3
    && DimsFit(Dims(h)[..h.rank], 1) && forall i {:trigger Dims(h)[i]} :: h.rank as int <= i < 3 ==> Dims(h)[i] == 0
  }

  function Validate(h: Header): Result<()>
  {
    match CheckGeneration(h)
    case Err(e) => Err(e)
    case Ok(_) =>
      if h.reserved0 != 0 then Err(Corrupt)
      else if !(if HasFlag(h.flags, HETEROGENEOUS) then HeterogeneousOk(h) else HomogeneousOk(h)) then Err(Corrupt)
      else if h.nBlocks == 0 && (h.indexOffset != 0 || h.indexSize != 0) then Err(Corrupt)
      else if h.nBlocks != 0 && (h.indexOffset == 0 || h.indexSize == 0) then Err(Corrupt)
      else Ok(())
  }

  /* ---- The headers the encoder writes ------------------------------------ */

  /** A known element type, the layout's rank, and dimensions whose product fits. */
  predicate ShapeValid(s: Shape)
  {
    && 1 <= s.dtype <= 11 && LayoutRank(s.layout) == s.rank as int && 0 < s.rank <= 3
    && DimsFit([s.dim0, s.dim1, s.dim2][..s.rank], 1)
  }

  /** A homogeneous header holds element type, layout, rank, and the dimensions the rank counts, in order. */
  lemma ShapeKept(flags: nat, s: Shape, anyStats: bool, schemaSize: nat, nBlocks: nat, indexOffset: nat, indexSize: nat)
    requires flags < U16_LIMIT && ShapeFits(s) && schemaSize < U32_LIMIT && nBlocks < U64_LIMIT
    requires indexOffset < U64_LIMIT && indexSize < U64_LIMIT && !HasFlag(flags, HETEROGENEOUS)
    ensures var w := NewHeader(flags, s, anyStats, schemaSize, 0, nBlocks, indexOffset, indexSize, 0);
            var h := ParseHeader(HeaderBytes(w));
            && h.dtype == s.dtype && h.layout == s.layout && h.rank == s.rank && h.reserved0 == 0
            && forall i {:trigger Dims(h)[i]} :: 0 <= i < 3 ==>
                 Dims(h)[i] == if i < s.rank as int then [s.dim0, s.dim1, s.dim2][i] else 0
  {
    var w := NewHeader(flags, s, anyStats, schemaSize, 0, nBlocks, indexOffset, indexSize, 0);
    NewHeaderFacts(flags, s, anyStats, schemaSize, 0, nBlocks, indexOffset, indexSize, 0);
    HeaderRoundTrip(w, []);
    ConcatEmpty(HeaderBytes(w));
    hide ParseHeader, HeaderBytes, ClearFlag, SetFlag, HasFlag;
  }

  /**
   * The headers the validator accepts: an index exactly when there are blocks; for a homogeneous container a
   * valid shape; for one grown in place a schema that stands past the start of the blocks.
   */
  lemma NewHeaderValid(flags: nat, s: Shape, anyStats: bool, schemaSize: nat, blocksStart: nat,
                       nBlocks: nat, indexOffset: nat, indexSize: nat, schemaOffset: nat)
    requires flags < U16_LIMIT && ShapeFits(s) && schemaSize < U32_LIMIT && blocksStart < U64_LIMIT
    requires nBlocks < U64_LIMIT && indexOffset < U64_LIMIT && indexSize < U64_LIMIT && schemaOffset < U64_LIMIT
    requires schemaOffset != 0 ==> HasFlag(flags, HETEROGENEOUS)
    ensures var h := NewHeader(flags, s, anyStats, schemaSize, blocksStart, nBlocks, indexOffset, indexSize,
                               schemaOffset);
            Validate(h).Ok? <==>
              && (nBlocks == 0 <==> indexOffset == 0) && (nBlocks == 0 <==> indexSize == 0)
              && if !HasFlag(flags, HETEROGENEOUS) then ShapeValid(s)
                 else schemaOffset != 0 ==> HEADER_SIZE <= blocksStart < schemaOffset && schemaSize != 0
  {
    NewHeaderFacts(flags, s, anyStats, schemaSize, blocksStart, nBlocks, indexOffset, indexSize, schemaOffset);
    var h := NewHeader(flags, s, anyStats, schemaSize, blocksStart, nBlocks, indexOffset, indexSize, schemaOffset);
    hide ClearFlag, SetFlag, HasFlag, DimsFit, CheckGeneration, IsWidened;
    if !HasFlag(flags, HETEROGENEOUS) {
      if 0 < s.rank <= 3 {
        assert Dims(h)[..s.rank] == [s.dim0, s.dim1, s.dim2][..s.rank];
      }
    }
  }

  /* ---- Containers grown by row groups ------------------------------------ */

  /**
   * The validator takes a relocated schema to stand after the blocks. A container that has only had its index
   * moved, or row groups added, keeps its schema before them: every such header is refused, though the reader
   * opens the file.
   */
  lemma ExtendedRefused(h: Header, s: Shape, e: Entries, nBlocks: nat, indexOffset: nat)
    requires HeaderFits(h) && HasFlag(h.flags, HETEROGENEOUS) && !IsWidened(h) && ShapeFits(s)
    requires nBlocks < U64_LIMIT && indexOffset < U64_LIMIT && |IndexBytes(e.groups)| < U64_LIMIT
    ensures Validate(FinalHeader(h.flags, s, e, h.schemaSize, BlocksStart(h), nBlocks, indexOffset, SchemaOffset(h)))
            == Err(Corrupt)
    ensures Validate(Moved(h, indexOffset)) == Err(Corrupt)
  {
    var size := if e.groups != [] then |IndexBytes(e.groups)| else 0;
    var at := if e.groups != [] then indexOffset else 0;
    NewHeaderValid(h.flags, s, e.anyStats, h.schemaSize, BlocksStart(h), nBlocks, at, size, SchemaOffset(h));
    NewHeaderFacts(h.flags, s, e.anyStats, h.schemaSize, BlocksStart(h), nBlocks, at, size, SchemaOffset(h));
    MovedFacts(h, indexOffset);
    hide ClearFlag, SetFlag, HasFlag, CheckGeneration, IndexBytes, DimsFit;
  }
}
