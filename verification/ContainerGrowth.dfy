/**
 * Growing a container in place, on file contents (src/api/stream_encode.c): what a file may look like
 * while a pass is running, why every such file reads as the container the pass started from, and what
 * the finished file reads as.
 */
module ContainerGrowth {
  import opened Base
  import opened ContainerFormat

  /* ---- Writes, whole and torn -------------------------------------------- */

  /** Offsets the disk accepts; below this bound none of the encoder's 64-bit sums wraps. */
  const MAX_OFFSET: nat := 0x4000_0000_0000_0000

  /** The file after a write; a gap before it reads as zeros. */
  function Written(old_: seq<byte>, off: nat, data: seq<byte>): (b: seq<byte>)
    ensures |b| == Max(|old_|, off + |data|) && b[off..off + |data|] == data
    ensures forall i :: 0 <= i < |old_| && !(off <= i < off + |data|) ==> b[i] == old_[i]
  {
    var padded := if |old_| < off then old_ + seq(off - |old_|, _ => 0) else old_;
    padded[..off] + data + if off + |data| <= |old_| then old_[off + |data|..] else []
  }

  /**
   * A file a crash in the middle of a write may leave: anything in the bytes being written and past the
   * old end. The 64 bytes of the header are written in one step.
   */
  predicate Torn(old_: seq<byte>, off: nat, data: seq<byte>, img: seq<byte>)
  {
    if off == 0 && |data| == HEADER_SIZE then img == old_ || img == Written(old_, off, data)
    else
      |img| >= |old_| && forall i {:trigger img[i]} {:trigger old_[i]} ::
        0 <= i < |old_| && !(off <= i < off + |data|) ==> img[i] == old_[i]
  }

  lemma WholeIsTorn(old_: seq<byte>, off: nat, data: seq<byte>)
    ensures Torn(old_, off, data, Written(old_, off, data))
    ensures Torn(old_, off, data, old_)
  {
  }

  /** A range a write does not touch. */
  lemma TornKeeps(old_: seq<byte>, off: nat, data: seq<byte>, img: seq<byte>, lo: nat, hi: nat)
    requires Torn(old_, off, data, img) && lo <= hi <= |old_| && (off + |data| <= lo || hi <= off)
    ensures hi <= |img| && img[lo..hi] == old_[lo..hi]
  {
    assert |img| >= |old_|;
    forall i | lo <= i < hi ensures img[i] == old_[i] {
    }
  }

  /** Two files agree on a range. */
  predicate Agree(a: seq<byte>, b: seq<byte>, lo: nat, hi: nat)
  {
    lo <= hi <= |a| && hi <= |b| && a[lo..hi] == b[lo..hi]
  }

  lemma AgreeSlice(a: seq<byte>, b: seq<byte>, lo: nat, hi: nat, off: nat, n: nat)
    requires Agree(a, b, lo, hi) && lo <= off && off + n <= hi
    ensures Slice(a, off, n) == Slice(b, off, n) == a[off..off + n]
  {
    forall i | off <= i < off + n ensures a[i] == b[i] {
      assert a[lo..hi][i - lo] == b[lo..hi][i - lo];
    }
    assert a[off..off + n] == b[off..off + n];
  }

  lemma AgreeNarrow(a: seq<byte>, b: seq<byte>, lo: nat, hi: nat, lo': nat, hi': nat)
    requires Agree(a, b, lo, hi) && lo <= lo' <= hi' <= hi
    ensures Agree(a, b, lo', hi')
  {
    AgreeSlice(a, b, lo, hi, lo', hi' - lo');
  }

  /* ---- A container whose index has moved --------------------------------- */

  /** One past the live data of a container. */
  function LiveOf(b: seq<byte>): (e: nat)
    requires Container(b)
    ensures HEADER_SIZE <= e <= ParseHeader(b).indexOffset
  {
    LiveEnd(ParseHeader(b), Read(b).value.groups)
  }

  function IndexOf(b: seq<byte>): (x: seq<byte>)
    requires Container(b)
    ensures |x| == ParseHeader(b).indexSize > 0
  {
    var h := ParseHeader(b);
    b[h.indexOffset..h.indexOffset + h.indexSize]
  }

  /** One past the index the header names. */
  function IndexEnd(b: seq<byte>): nat
    requires |b| >= HEADER_SIZE
  {
    ParseHeader(b).indexOffset + ParseHeader(b).indexSize
  }

  /** The header naming a copy of the index: current format, stamped as grown in place. */
  function Moved(h: Header, at: nat): Header
  {
    h.(magic := MAGIC, version := VERSION, flags := SetFlag(h.flags, WIDENED),
       schemaOffset := SchemaOffset(h), blocksStart := BlocksStart(h), indexOffset := at)
  }

  lemma MovedFacts(h: Header, at: nat)
    requires HeaderFits(h) && at < U64_LIMIT && SchemaOffset(h) < U64_LIMIT && BlocksStart(h) < U64_LIMIT
    ensures HeaderFits(Moved(h, at)) && IsWidened(Moved(h, at)) && CheckGeneration(Moved(h, at)) == Ok(())
    ensures SchemaOffset(Moved(h, at)) == SchemaOffset(h) && BlocksStart(Moved(h, at)) == BlocksStart(h)
    ensures HasFlag(Moved(h, at).flags, HAS_STATS) == HasFlag(h.flags, HAS_STATS)
    ensures HasFlag(Moved(h, at).flags, HETEROGENEOUS) == HasFlag(h.flags, HETEROGENEOUS)
  {
    WidenedSet(h.flags);
  }

  /** img is the container base with its index named at `named`: its own place, or a copy's. */
  predicate Intact(base: seq<byte>, img: seq<byte>, named: nat)
    requires Container(base)
  {
    var h := ParseHeader(base);
    && |img| >= HEADER_SIZE
    && (ParseHeader(img) == Moved(h, named) || (ParseHeader(img) == h && named == h.indexOffset))
    && Agree(base, img, HEADER_SIZE, LiveOf(base))
    && LiveOf(base) <= named && named + h.indexSize <= |img| && img[named..named + h.indexSize] == IndexOf(base)
  }

  lemma UnmovedIntact(base: seq<byte>)
    requires Container(base)
    ensures Intact(base, base, ParseHeader(base).indexOffset)
  {
  }

  /** img reads as the container base, and can itself be grown. */
  predicate Recovers(base: seq<byte>, img: seq<byte>)
    requires Container(base)
  {
    Container(img) && Read(img) == Read(base) && LiveOf(img) == LiveOf(base)
  }

  /** Blocks inside a range on which two files agree. */
  lemma SameColBlocks(a: seq<byte>, b: seq<byte>, cs: seq<Col>, hi: nat)
    requires Agree(a, b, HEADER_SIZE, hi) && ColsEnd(cs) <= hi
    requires forall i {:trigger cs[i]} :: 0 <= i < |cs| ==> cs[i].offset >= HEADER_SIZE
    ensures ColBlocks(a, cs) == ColBlocks(b, cs)
  {
    forall i | 0 <= i < |cs| ensures Slice(a, cs[i].offset, cs[i].total) == Slice(b, cs[i].offset, cs[i].total) {
      AgreeSlice(a, b, HEADER_SIZE, hi, cs[i].offset, cs[i].total);
    }
  }

  lemma SameGroupBlocks(a: seq<byte>, b: seq<byte>, gs: seq<Group>, hi: nat)
    requires Agree(a, b, HEADER_SIZE, hi) && GroupsEnd(gs) <= hi && PastHeader(gs)
    ensures GroupBlocks(a, gs) == GroupBlocks(b, gs)
  {
    forall i | 0 <= i < |gs| ensures ColBlocks(a, gs[i].cols) == ColBlocks(b, gs[i].cols) {
      assert forall c {:trigger gs[i].cols[c]} :: 0 <= c < |gs[i].cols| ==> gs[i].cols[c].offset >= HEADER_SIZE;
      SameColBlocks(a, b, gs[i].cols, hi);
    }
  }

  lemma SameSchema(base: seq<byte>, img: seq<byte>, h: Header)
    requires Container(base) && Agree(base, img, HEADER_SIZE, LiveOf(base))
    requires h.schemaSize == ParseHeader(base).schemaSize && SchemaOffset(h) == SchemaOffset(ParseHeader(base))
    ensures ReadSchema(img, h) == ReadSchema(base, ParseHeader(base))
  {
    var h0 := ParseHeader(base);
    AgreeSlice(base, img, HEADER_SIZE, LiveOf(base), SchemaOffset(h0), h0.schemaSize);
  }

  lemma SameIndex(base: seq<byte>, img: seq<byte>, h: Header)
    requires Container(base) && h.indexSize == ParseHeader(base).indexSize && h.indexOffset > 0
    requires HasFlag(h.flags, HAS_STATS) == HasFlag(ParseHeader(base).flags, HAS_STATS)
    requires h.indexOffset + h.indexSize <= |img|
    requires img[h.indexOffset..h.indexOffset + h.indexSize] == IndexOf(base)
    ensures ReadIndex(img, h) == ReadIndex(base, ParseHeader(base))
  {
    hide ParseHeader, ParseIndex, HasFlag, GroupBlocks, LiveEnd;
  }

  /** Every file a pass can leave before its last header write reads as the original container. */
  lemma IntactReads(base: seq<byte>, img: seq<byte>, named: nat)
    requires Container(base) && Intact(base, img, named)
    ensures Recovers(base, img) && ParseHeader(img).indexOffset == named
  {
    hide ParseHeader, ReadSchema, ReadIndex, GroupBlocks, Agree, IndexOf;
    var h, h' := ParseHeader(base), ParseHeader(img);
    if h' == Moved(h, named) {
      MovedKeeps(base, img, named);
    }
    SameSchema(base, img, h');
    SameIndex(base, img, h');
    SameGroupBlocks(base, img, Read(base).value.groups, LiveOf(base));
  }

  lemma MovedKeeps(base: seq<byte>, img: seq<byte>, named: nat)
    requires Container(base) && |img| >= HEADER_SIZE && ParseHeader(img) == Moved(ParseHeader(base), named)
    ensures var h, h' := ParseHeader(base), ParseHeader(img);
            && IsWidened(h') && CheckGeneration(h') == Ok(()) && h'.schemaOffset > 0 && h'.blocksStart > 0
            && SchemaOffset(h') == SchemaOffset(h) && BlocksStart(h') == BlocksStart(h)
            && HasFlag(h'.flags, HAS_STATS) == HasFlag(h.flags, HAS_STATS)
            && HasFlag(h'.flags, HETEROGENEOUS)
  {
    WidenedSet(ParseHeader(base).flags);
  }

  /* ---- What one write of a pass can do ----------------------------------- */

  /** A write in the free space, whole or torn. */
  lemma TornIntact(base: seq<byte>, old_: seq<byte>, off: nat, data: seq<byte>, img: seq<byte>, named: nat)
    requires Container(base) && Intact(base, old_, named) && Torn(old_, off, data, img)
    requires LiveOf(base) <= off
    requires off + |data| <= named || named + ParseHeader(base).indexSize <= off
    ensures Intact(base, img, named)
  {
    var n := ParseHeader(base).indexSize;
    TornKeeps(old_, off, data, img, 0, HEADER_SIZE);
    TornKeeps(old_, off, data, img, HEADER_SIZE, LiveOf(base));
    TornKeeps(old_, off, data, img, named, named + n);
    assert old_[..HEADER_SIZE] == old_[0..HEADER_SIZE] && img[..HEADER_SIZE] == img[0..HEADER_SIZE];
    HeaderOfPrefix(old_, img);
  }

  /** The header write changes which index is named and nothing else. */
  lemma HeaderWritten(old_: seq<byte>, h: Header)
    requires HeaderFits(h) && |old_| >= HEADER_SIZE
    ensures var b := Written(old_, 0, HeaderBytes(h));
            && ParseHeader(b) == h && |b| == |old_|
            && forall lo: nat, hi: nat {:trigger b[lo..hi]} :: HEADER_SIZE <= lo <= hi <= |old_| ==>
               b[lo..hi] == old_[lo..hi]
  {
    var b := Written(old_, 0, HeaderBytes(h));
    assert b == HeaderBytes(h) + old_[HEADER_SIZE..];
    HeaderRoundTrip(h, old_[HEADER_SIZE..]);
  }

  /** Naming a complete copy of the index. */
  lemma SwitchIntact(base: seq<byte>, old_: seq<byte>, named: nat, h: Header, at: nat)
    requires Container(base) && Intact(base, old_, named) && HeaderFits(h)
    requires h == Moved(ParseHeader(base), at) || (h == ParseHeader(base) && at == h.indexOffset)
    requires LiveOf(base) <= at && at + h.indexSize <= |old_| && old_[at..at + h.indexSize] == IndexOf(base)
    ensures Intact(base, Written(old_, 0, HeaderBytes(h)), at)
  {
    hide ParseHeader, HeaderBytes, Written, Read, LiveOf, Container, IndexOf, HeaderFits, Moved;
    HeaderWritten(old_, h);
    var b := Written(old_, 0, HeaderBytes(h));
    assert b[at..at + h.indexSize] == old_[at..at + h.indexSize];
    assert b[HEADER_SIZE..LiveOf(base)] == old_[HEADER_SIZE..LiveOf(base)];
  }

  /* ---- Block data held by a file ----------------------------------------- */

  /** The file holds these blocks at the places the entries say, all of them before hi. */
  predicate ColsHold(b: seq<byte>, cs: seq<Col>, data: seq<seq<byte>>, hi: nat)
  {
    && |cs| == |data| && hi <= |b|
    && forall i {:trigger cs[i]} :: 0 <= i < |cs| ==>
         HEADER_SIZE <= cs[i].offset && cs[i].offset + cs[i].total <= hi
           && Slice(b, cs[i].offset, cs[i].total) == data[i]
  }

  predicate GroupsHold(b: seq<byte>, gs: seq<Group>, data: seq<seq<seq<byte>>>, hi: nat)
  {
    && |gs| == |data| && hi <= |b|
    && forall i {:trigger gs[i]} :: 0 <= i < |gs| ==> ColsHold(b, gs[i].cols, data[i], hi)
  }

  lemma ColsStay(a: seq<byte>, b: seq<byte>, cs: seq<Col>, data: seq<seq<byte>>, hi: nat, hi': nat)
    requires ColsHold(a, cs, data, hi) && Agree(a, b, HEADER_SIZE, hi) && hi <= hi' <= |b|
    ensures ColsHold(b, cs, data, hi')
  {
    forall i | 0 <= i < |cs| ensures Slice(b, cs[i].offset, cs[i].total) == data[i] {
      AgreeSlice(a, b, HEADER_SIZE, hi, cs[i].offset, cs[i].total);
    }
  }

  lemma GroupsStay(a: seq<byte>, b: seq<byte>, gs: seq<Group>, data: seq<seq<seq<byte>>>, hi: nat, hi': nat)
    requires GroupsHold(a, gs, data, hi) && Agree(a, b, HEADER_SIZE, hi) && hi <= hi' <= |b|
    ensures GroupsHold(b, gs, data, hi')
  {
    forall i | 0 <= i < |gs| ensures ColsHold(b, gs[i].cols, data[i], hi') {
      ColsStay(a, b, gs[i].cols, data[i], hi, hi');
    }
  }

  /** One more block, just written. */
  lemma ColAdded(b: seq<byte>, cs: seq<Col>, data: seq<seq<byte>>, hi: nat, rec: seq<byte>)
    requires ColsHold(b, cs, data, hi) && HEADER_SIZE <= hi && hi + |rec| <= |b| && b[hi..hi + |rec|] == rec
    ensures ColsHold(b, cs + [Col(hi, |rec|)], data + [rec], hi + |rec|)
  {
    var cs', data' := cs + [Col(hi, |rec|)], data + [rec];
    forall i | 0 <= i < |cs'|
      ensures HEADER_SIZE <= cs'[i].offset && cs'[i].offset + cs'[i].total <= hi + |rec|
      ensures Slice(b, cs'[i].offset, cs'[i].total) == data'[i]
    {
      if i < |cs| { assert cs'[i] == cs[i]; }
    }
  }

  lemma ColsWithin(b: seq<byte>, cs: seq<Col>, data: seq<seq<byte>>, hi: nat)
    requires ColsHold(b, cs, data, hi)
    ensures ColsEnd(cs) <= hi && ColBlocks(b, cs) == data
  {
    ColsEndBound(cs, hi);
  }

  lemma {:induction false} ColsEndBound(cs: seq<Col>, hi: nat)
    requires forall i {:trigger cs[i]} :: 0 <= i < |cs| ==> cs[i].offset + cs[i].total <= hi
    ensures ColsEnd(cs) <= hi
  {
    if cs != [] {
      ColsEndBound(cs[..|cs| - 1], hi);
    }
  }

  lemma GroupsWithin(b: seq<byte>, gs: seq<Group>, data: seq<seq<seq<byte>>>, hi: nat)
    requires GroupsHold(b, gs, data, hi)
    ensures GroupsEnd(gs) <= hi && GroupBlocks(b, gs) == data && PastHeader(gs)
  {
    forall i | 0 <= i < |gs| ensures ColsEnd(gs[i].cols) <= hi && ColBlocks(b, gs[i].cols) == data[i] {
      ColsWithin(b, gs[i].cols, data[i], hi);
    }
    GroupsEndBound(gs, hi);
  }

  lemma {:induction false} GroupsEndBound(gs: seq<Group>, hi: nat)
    requires forall i {:trigger gs[i]} :: 0 <= i < |gs| ==> ColsEnd(gs[i].cols) <= hi
    ensures GroupsEnd(gs) <= hi
  {
    if gs != [] {
      GroupsEndBound(gs[..|gs| - 1], hi);
    }
  }

  /** What a container's own index lists is held by it. */
  lemma ContainerHolds(b: seq<byte>)
    requires Container(b)
    ensures GroupsHold(b, Read(b).value.groups, Read(b).value.blocks, LiveOf(b))
    ensures GroupsFit(Read(b).value.groups, HasFlag(ParseHeader(b).flags, HAS_STATS))
  {
    var gs := Read(b).value.groups;
    forall i | 0 <= i < |gs| ensures ColsHold(b, gs[i].cols, Read(b).value.blocks[i], LiveOf(b)) {
      assert forall c {:trigger gs[i].cols[c]} :: 0 <= c < |gs[i].cols| ==> gs[i].cols[c].offset >= HEADER_SIZE;
    }
    var h := ParseHeader(b);
    ParsedIndexFits(Slice(b, h.indexOffset, h.indexSize), HasFlag(h.flags, HAS_STATS));
  }

  /* ---- The finished file ------------------------------------------------- */

  /** Element type and shape of a homogeneous container. */
  datatype Shape = Shape(dtype: byte, layout: byte, rank: byte, dim0: nat, dim1: nat, dim2: nat)

  /** The header an encoder writes; schemaOffset 0 means the schema sits at its default place. */
  function NewHeader(flags: nat, shape: Shape, anyStats: bool, schemaSize: nat, blocksStart: nat,
                     nBlocks: nat, indexOffset: nat, indexSize: nat, schemaOffset: nat): Header
  {
    var cleared := ClearFlag(flags, WIDENED);
    var stamped := if schemaOffset != 0 then SetFlag(cleared, WIDENED) else cleared;
    var h := Header(MAGIC, VERSION, if anyStats then SetFlag(stamped, HAS_STATS) else stamped, nBlocks, indexOffset,
                    indexSize, 0, 0, 0, 0, schemaSize,
                    schemaOffset, if schemaOffset != 0 then blocksStart else 0, 0);
    if HasFlag(flags, HETEROGENEOUS) then h
    else h.(dtype := shape.dtype, layout := shape.layout, rank := shape.rank,
            schemaOffset := if shape.rank > 0 then shape.dim0 else 0,
            blocksStart := if shape.rank > 1 then shape.dim1 else 0,
            reserved1 := if shape.rank > 2 then shape.dim2 else 0)
  }

  predicate ShapeFits(s: Shape)
  {
    s.dim0 < U64_LIMIT && s.dim1 < U64_LIMIT && s.dim2 < U64_LIMIT
  }

  lemma NewHeaderFacts(flags: nat, shape: Shape, anyStats: bool, schemaSize: nat, blocksStart: nat,
                       nBlocks: nat, indexOffset: nat, indexSize: nat, schemaOffset: nat)
    requires flags < U16_LIMIT && ShapeFits(shape) && schemaSize < U32_LIMIT && blocksStart < U64_LIMIT
    requires nBlocks < U64_LIMIT && indexOffset < U64_LIMIT && indexSize < U64_LIMIT && schemaOffset < U64_LIMIT
    ensures var h := NewHeader(flags, shape, anyStats, schemaSize, blocksStart, nBlocks, indexOffset, indexSize,
                               schemaOffset);
            && HeaderFits(h) && CheckGeneration(h) == Ok(()) && IsWidened(h) == (schemaOffset != 0)
            && HasFlag(h.flags, HETEROGENEOUS) == HasFlag(flags, HETEROGENEOUS)
            && HasFlag(h.flags, HAS_STATS) == (anyStats || HasFlag(flags, HAS_STATS))
  {
    var cleared := ClearFlag(flags, WIDENED);
    WidenedCleared(flags);
    WidenedSet(cleared);
    StatsSet(cleared);
    StatsSet(SetFlag(cleared, WIDENED));
  }

  /** A file with a complete index behind its header reads as the groups and blocks it holds. */
  lemma FinishedReads(b: seq<byte>, h: Header, schema: seq<byte>, gs: seq<Group>, data: seq<seq<seq<byte>>>, hi: nat)
    requires |b| >= HEADER_SIZE && ParseHeader(b) == h && CheckGeneration(h) == Ok(())
    requires IsWidened(h) ==> h.schemaOffset > 0 && h.blocksStart > 0
    requires h.schemaSize == |schema| && SchemaOffset(h) + |schema| <= |b|
             && Slice(b, SchemaOffset(h), |schema|) == schema
    requires schema == [] || SchemaReadable(schema)
    requires GroupsHold(b, gs, data, hi) && GroupsFit(gs, HasFlag(h.flags, HAS_STATS)) && |gs| < U64_LIMIT
    requires gs == [] ==> h.indexOffset == 0
    requires gs != [] ==> h.indexOffset > 0 && h.indexSize == |IndexBytes(gs)| && h.indexOffset + h.indexSize <= |b|
                          && Slice(b, h.indexOffset, h.indexSize) == IndexBytes(gs)
    ensures Read(b) == Ok(View(schema, h.nBlocks, gs, data))
  {
    IndexRoundTrip(gs, HasFlag(h.flags, HAS_STATS));
    GroupsWithin(b, gs, data, hi);
  }

  /** Only the last header write makes the new index visible; with it the file is complete. */
  lemma PatchedReads(f: seq<byte>, h: Header, schema: seq<byte>, gs: seq<Group>, data: seq<seq<seq<byte>>>, hi: nat)
    requires |f| >= HEADER_SIZE && HeaderFits(h) && CheckGeneration(h) == Ok(())
    requires IsWidened(h) ==> h.schemaOffset > 0 && h.blocksStart > 0
    requires h.schemaSize == |schema| && SchemaOffset(h) >= HEADER_SIZE && SchemaOffset(h) + |schema| <= |f|
    requires f[SchemaOffset(h)..SchemaOffset(h) + |schema|] == schema && (schema == [] || SchemaReadable(schema))
    requires GroupsHold(f, gs, data, hi) && HEADER_SIZE <= hi
    requires GroupsFit(gs, HasFlag(h.flags, HAS_STATS)) && |gs| < U64_LIMIT
    requires gs == [] ==> h.indexOffset == 0
    requires gs != [] ==> h.indexOffset >= HEADER_SIZE && h.indexSize == |IndexBytes(gs)|
                          && h.indexOffset + h.indexSize <= |f|
                          && f[h.indexOffset..h.indexOffset + h.indexSize] == IndexBytes(gs)
    ensures var b := Written(f, 0, HeaderBytes(h));
            && Read(b) == Ok(View(schema, h.nBlocks, gs, data)) && ParseHeader(b) == h
            && (gs != [] && HasFlag(h.flags, HETEROGENEOUS) && LiveEnd(h, gs) <= h.indexOffset ==>
                  Container(b) && LiveOf(b) == LiveEnd(h, gs))
  {
    hide Read, ParseHeader, HeaderBytes, IndexBytes, HeaderFits, GroupsHold, GroupsFit, SchemaReadable, Container,
      LiveOf;
    var b := Written(f, 0, HeaderBytes(h));
    HeaderWritten(f, h);
    PatchKeeps(f, h, SchemaOffset(h), |schema|);
    if gs != [] { PatchKeeps(f, h, h.indexOffset, h.indexSize); }
    PatchHolds(f, h, gs, data, hi);
    FinishedReads(b, h, schema, gs, data, hi);
    NewContainer(b, h, schema, gs, data, hi);
  }

  lemma PatchKeeps(f: seq<byte>, h: Header, off: nat, n: nat)
    requires HEADER_SIZE <= off && off + n <= |f| && HeaderFits(h)
    ensures off + n <= |Written(f, 0, HeaderBytes(h))|
    ensures Slice(Written(f, 0, HeaderBytes(h)), off, n) == f[off..off + n]
  {
    var b := Written(f, 0, HeaderBytes(h));
    HeaderWritten(f, h);
    assert b[off..off + n] == f[off..off + n];
  }

  lemma PatchHolds(f: seq<byte>, h: Header, gs: seq<Group>, data: seq<seq<seq<byte>>>, hi: nat)
    requires HeaderFits(h) && HEADER_SIZE <= hi && GroupsHold(f, gs, data, hi)
    ensures GroupsHold(Written(f, 0, HeaderBytes(h)), gs, data, hi)
  {
    PatchKeeps(f, h, HEADER_SIZE, hi - HEADER_SIZE);
    GroupsStay(f, Written(f, 0, HeaderBytes(h)), gs, data, hi, hi);
  }

  lemma NewContainer(b: seq<byte>, h: Header, schema: seq<byte>, gs: seq<Group>, data: seq<seq<seq<byte>>>, hi: nat)
    requires |b| >= HEADER_SIZE && ParseHeader(b) == h && Read(b) == Ok(View(schema, h.nBlocks, gs, data))
    requires SchemaOffset(h) >= HEADER_SIZE && GroupsHold(b, gs, data, hi)
    requires gs != [] ==> h.indexOffset > 0 && h.indexSize == |IndexBytes(gs)|
    ensures gs != [] && HasFlag(h.flags, HETEROGENEOUS) && LiveEnd(h, gs) <= h.indexOffset ==>
              Container(b) && LiveOf(b) == LiveEnd(h, gs)
  {
    GroupsWithin(b, gs, data, hi);
  }

  /** A file whose front, up to the end of the named index, is as it was. */
  lemma FrontIntact(base: seq<byte>, old_: seq<byte>, img: seq<byte>, named: nat)
    requires Container(base) && Intact(base, old_, named)
    requires var end := named + ParseHeader(base).indexSize; end <= |img| && img[..end] == old_[..end]
    ensures Intact(base, img, named)
  {
    var n := ParseHeader(base).indexSize;
    var end := named + n;
    FrontSlice(old_, img, end, 0, HEADER_SIZE);
    FrontSlice(old_, img, end, HEADER_SIZE, LiveOf(base));
    FrontSlice(old_, img, end, named, end);
    assert old_[..HEADER_SIZE] == old_[0..HEADER_SIZE] && img[..HEADER_SIZE] == img[0..HEADER_SIZE];
    HeaderOfPrefix(old_, img);
  }

  lemma FrontSlice(a: seq<byte>, b: seq<byte>, end: nat, lo: nat, hi: nat)
    requires end <= |a| && end <= |b| && b[..end] == a[..end] && lo <= hi <= end
    ensures b[lo..hi] == a[lo..hi]
  {
    forall i | lo <= i < hi ensures b[i] == a[i] {
      assert b[..end][i] == a[..end][i];
    }
  }

  /* ---- Ends of lists ----------------------------------------------------- */

  lemma ColsEndSnoc(cs: seq<Col>, c: Col)
    ensures ColsEnd(cs + [c]) == Max(ColsEnd(cs), c.offset + c.total)
  {
    assert (cs + [c])[..|cs|] == cs;
  }

  lemma GroupsEndSnoc(gs: seq<Group>, g: Group)
    ensures GroupsEnd(gs + [g]) == Max(GroupsEnd(gs), ColsEnd(g.cols))
  {
    assert (gs + [g])[..|gs|] == gs;
  }

  /** A column added to any group. */
  lemma {:induction false} GroupsEndGrow(gs: seq<Group>, i: nat, g: Group, c: Col)
    requires i < |gs| && g.cols == gs[i].cols + [c]
    ensures GroupsEnd(gs[i := g]) == Max(GroupsEnd(gs), c.offset + c.total)
  {
    var n := |gs| - 1;
    ColsEndSnoc(gs[i].cols, c);
    if i == n {
      assert gs[i := g][..n] == gs[..n];
    } else {
      GroupsEndGrow(gs[..n], i, g, c);
      assert gs[i := g][..n] == gs[..n][i := g];
    }
  }

  /* ---- Which files a pass accepts ---------------------------------------- */

  /** What reopening a file checks before anything is written. */
  function ReopenCheck(b: seq<byte>): Result<seq<Group>>
  {
    if |b| < HEADER_SIZE then Err(Corrupt)
    else
      var h := ParseHeader(b);
      match CheckGeneration(h)
      case Err(e) => Err(e)
      case Ok(_) =>
        if !HasFlag(h.flags, HETEROGENEOUS) then Err(Invalid)
        else if h.indexOffset == 0 || h.indexSize == 0 then Err(Invalid)
        else if h.indexOffset + h.indexSize > |b| then Err(Corrupt)
        else ParseIndex(b[h.indexOffset..h.indexOffset + h.indexSize], HasFlag(h.flags, HAS_STATS))
  }

  /** A file a pass may be started on: whatever reopening accepts is a proper container. */
  predicate Sound(b: seq<byte>)
  {
    ReopenCheck(b).Ok? ==> Container(b)
  }

  lemma ContainerReopens(b: seq<byte>)
    requires Container(b)
    ensures ReopenCheck(b) == Ok(Read(b).value.groups)
  {
  }

  /** What a file may read as once close has started its last header write. */
  predicate Outcome(base: seq<byte>, img: seq<byte>, view: View)
    requires Container(base)
  {
    || Recovers(base, img)
    || (Read(img) == Ok(view) && if view.groups != [] then Container(img) else ParseHeader(img).indexOffset == 0)
  }

  lemma OutcomeSound(base: seq<byte>, img: seq<byte>, view: View)
    requires Container(base) && Outcome(base, img, view)
    ensures Sound(img)
  {
  }
}
