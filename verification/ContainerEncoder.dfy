/**
 * The stream encoder of src/api/stream_encode.c: building a container, and growing one in place by
 * columns (widen) or row groups (extend). While a pass runs, every file a crash could leave reads as
 * the container before it; only the last header write of close makes the rebuilt container visible.
 */
module ContainerEncoder {
  import opened Base
  import opened ContainerFormat
  import opened ContainerGrowth
  import opened ContainerEntries
  import opened ContainerIo

  datatype Mode = Create | Widen | Extend

  /* ---- Crash images of one write ----------------------------------------- */

  /** Every one of these files reads as the container the pass started from. */
  ghost predicate AllRecover(base: seq<byte>, images: iset<seq<byte>>)
    requires Container(base)
  {
    forall img {:trigger img in images} :: img in images ==> Recovers(base, img)
  }

  /** A write into free space adds only crash images that recover, and leaves the named index intact. */
  lemma WriteRecovers(base: seq<byte>, old_: seq<byte>, off: nat, data: seq<byte>, now: seq<byte>, named: nat)
    requires Container(base) && Intact(base, old_, named) && Torn(old_, off, data, now)
    requires LiveOf(base) <= off
    requires off + |data| <= named || named + ParseHeader(base).indexSize <= off
    ensures Intact(base, now, named) && AllRecover(base, CrashImages(old_, off, data))
  {
    hide ParseHeader, Container, LiveOf, Intact, Torn, Recovers;
    TornIntact(base, old_, off, data, now, named);
    forall img | img in CrashImages(old_, off, data) ensures Recovers(base, img) {
      TornIntact(base, old_, off, data, img, named);
      IntactReads(base, img, named);
    }
  }

  /** Repointing the header at a complete index, whether or not the write succeeds. */
  lemma SwitchRecovers(base: seq<byte>, was: seq<byte>, named: nat, h: Header, at: nat, now: seq<byte>)
    requires Container(base) && Intact(base, was, named) && LiveOf(base) <= at && HeaderFits(h)
    requires h == Moved(ParseHeader(base), at) || (h == ParseHeader(base) && at == h.indexOffset)
    requires at + h.indexSize <= |was| && was[at..at + h.indexSize] == IndexOf(base)
    requires Torn(was, 0, HeaderBytes(h), now)
    ensures AllRecover(base, CrashImages(was, 0, HeaderBytes(h)))
    ensures Intact(base, now, if now == was then named else at)
    ensures now == Written(was, 0, HeaderBytes(h)) ==> Intact(base, now, at)
    ensures Agree(was, now, HEADER_SIZE, |was|)
  {
    hide ParseHeader, HeaderBytes, Container, Read, LiveOf, IndexOf, Intact, Recovers;
    SwitchIntact(base, was, named, h, at);
    IntactSpan(base, was, named);
    IntactReads(base, was, named);
    IntactReads(base, Written(was, 0, HeaderBytes(h)), at);
    HeaderWritten(was, h);
  }

  lemma MovedFits(base: seq<byte>, at: nat)
    requires Container(base) && at <= MAX_OFFSET
    ensures HeaderFits(Moved(ParseHeader(base), at))
            && Moved(ParseHeader(base), at).indexSize == ParseHeader(base).indexSize
  {
    MovedFacts(ParseHeader(base), at);
  }

  lemma HookRecovers(base: seq<byte>, old_: seq<byte>, now: seq<byte>, named: nat, end: nat)
    requires Container(base) && Intact(base, old_, named) && end == named + ParseHeader(base).indexSize
    requires SameFront(old_, now, end)
    ensures Intact(base, now, named) && AllRecover(base, FrontImages(old_, end))
  {
    hide ParseHeader, Container, LiveOf, Intact, Recovers;
    FrontIntact(base, old_, now, named);
    forall img | img in FrontImages(old_, end) ensures Recovers(base, img) {
      FrontIntact(base, old_, img, named);
      IntactReads(base, img, named);
    }
  }

  lemma IntactSpan(base: seq<byte>, img: seq<byte>, named: nat)
    requires Container(base) && Intact(base, img, named)
    ensures HEADER_SIZE <= LiveOf(base) <= named && named + ParseHeader(base).indexSize <= |img|
    ensures |IndexOf(base)| == ParseHeader(base).indexSize > 0
  {
  }

  lemma AgreeChain(a: seq<byte>, b: seq<byte>, c: seq<byte>, h1: nat, h2: nat, hi: nat)
    requires Agree(a, b, HEADER_SIZE, h1) && Agree(b, c, HEADER_SIZE, h2) && HEADER_SIZE <= hi <= h1 && hi <= h2
    ensures Agree(a, c, HEADER_SIZE, hi)
  {
    AgreeNarrow(a, b, HEADER_SIZE, h1, HEADER_SIZE, hi);
    AgreeNarrow(b, c, HEADER_SIZE, h2, HEADER_SIZE, hi);
  }

  lemma AgreeFront(a: seq<byte>, b: seq<byte>, hi: nat, n: nat)
    requires Agree(a, b, HEADER_SIZE, hi) && HEADER_SIZE + n <= hi
    ensures b[HEADER_SIZE..HEADER_SIZE + n] == a[HEADER_SIZE..HEADER_SIZE + n]
  {
    AgreeNarrow(a, b, HEADER_SIZE, hi, HEADER_SIZE, HEADER_SIZE + n);
  }

  lemma AgreeSelf(b: seq<byte>, hi: nat)
    ensures HEADER_SIZE <= hi <= |b| ==> Agree(b, b, HEADER_SIZE, hi)
  {
  }

  /** Where the data that no pass moves ends: the schema as found and the start of the blocks. */
  function FixedEnd(h: Header): nat
  {
    Max(SchemaOffset(h) + h.schemaSize, BlocksStart(h))
  }

  /** What finding a container establishes. */
  lemma FoundFacts(base: seq<byte>)
    requires Container(base)
    ensures var h, v := ParseHeader(base), Read(base).value;
            var e := Entries(v.groups, [], 0, None, HasFlag(h.flags, HAS_STATS));
            && HeaderFits(h) && HasFlag(h.flags, HETEROGENEOUS)
            && Intact(base, base, h.indexOffset) && AllRecover(base, iset{base})
            && HEADER_SIZE <= LiveOf(base) <= h.indexOffset && LiveOf(base) <= |base|
            && AllColumned(v.groups) && EndOf(e, FixedEnd(h)) == LiveOf(base)
            && (LiveOf(base) < U64_LIMIT ==>
                  Describes(base, LiveOf(base), e, Records(v.blocks, []), FixedEnd(h), HasFlag(h.flags, HAS_STATS)))
  {
    UnmovedIntact(base);
    ContainerHolds(base);
    ColumnedFit(Read(base).value.groups, HasFlag(ParseHeader(base).flags, HAS_STATS));
  }

  /** A file whose header, if there is one, names no index. */
  predicate Early(img: seq<byte>)
  {
    |img| >= HEADER_SIZE ==> ParseHeader(img).indexOffset == 0
  }

  /** Writes after the header leave it as it is. */
  lemma EarlyStays(old_: seq<byte>, off: nat, data: seq<byte>, now: seq<byte>)
    requires Early(old_) && HEADER_SIZE <= off && HEADER_SIZE <= |old_| && Torn(old_, off, data, now)
    ensures Early(now) && |now| >= HEADER_SIZE
    ensures forall img {:trigger img in CrashImages(old_, off, data)} ::
              img in CrashImages(old_, off, data) ==> Early(img)
  {
    EarlyTorn(old_, off, data, now);
    forall img | img in CrashImages(old_, off, data) ensures Early(img) {
      EarlyTorn(old_, off, data, img);
    }
  }

  lemma EarlyTorn(old_: seq<byte>, off: nat, data: seq<byte>, img: seq<byte>)
    requires Early(old_) && HEADER_SIZE <= off && HEADER_SIZE <= |old_| && Torn(old_, off, data, img)
    ensures Early(img) && |img| >= HEADER_SIZE
  {
    TornKeeps(old_, off, data, img, 0, HEADER_SIZE);
    assert old_[..HEADER_SIZE] == old_[0..HEADER_SIZE] && img[..HEADER_SIZE] == img[0..HEADER_SIZE];
    HeaderOfPrefix(old_, img);
  }

  class Encoder {
    const io: Io
    const mode: Mode
    const hooked: bool
    const shape: Shape
    const flags: nat
    var nBlocks: nat
    var writePos: nat
    var entries: Entries
    const blocksStart: nat
    const schemaBuf: seq<byte>
    const schemaSize: nat
    const keptSchemaOffset: nat
    const schemaNCols: nat
    const origHdr: Header
    const origIndex: seq<byte>
    const reuseStart: nat
    var liveIndexOff: nat
    var indexMoved: bool

    /** The file when the pass began. */
    ghost const base: seq<byte>
    /** The index the header names. */
    ghost var named: nat
    /** How often the index has been moved: before close each move, and nothing else, wrote the header. */
    ghost var moves: nat
    /** The records behind the entries. */
    ghost var records: Records
    /** Every row group ended so far kept all its columns. */
    ghost var counted: bool

    /** A container found at the file, the cursor at the end of its live data. */
    constructor Found(io: Io, mode: Mode, hooked: bool, h: Header, index: seq<byte>, groups: seq<Group>, liveEnd: nat,
                      schemaBuf: seq<byte>, schemaSize: nat, schemaNCols: nat, ghost view: View)
      requires mode != Create && Container(io.bytes) && io.crash == iset{io.bytes} && io.cursor == liveEnd <= MAX_OFFSET
      requires io.headerWrites == 0
      requires h == ParseHeader(io.bytes) && index == IndexOf(io.bytes)
      requires Read(io.bytes) == Ok(view) && groups == view.groups
      requires liveEnd == LiveOf(io.bytes) && schemaSize < U32_LIMIT
      requires mode == Widen ==> |schemaBuf| == schemaSize > 0 && SchemaReadable(schemaBuf)
      requires mode == Extend ==> schemaSize == h.schemaSize > 0 && 0 < schemaNCols < U16_LIMIT
      ensures Valid() && this.io == io && this.mode == mode && base == io.bytes && moves == 0 && !indexMoved
      ensures entries == Entries(groups, [], 0, None, HasFlag(h.flags, HAS_STATS)) && nBlocks == h.nBlocks
      ensures records == Records(view.blocks, []) && this.schemaBuf == schemaBuf
      ensures this.schemaNCols == schemaNCols && counted
      ensures writePos == reuseStart == liveEnd && origHdr == h
    {
      hide ParseHeader, Container, Read, LiveOf, IndexOf, Intact, Recovers, SchemaOffset, BlocksStart, Describes,
        EndOf, FixedEnd;
      this.io, this.mode, this.hooked := io, mode, hooked;
      shape := Shape(0, 0, 0, 0, 0, 0);
      flags, nBlocks := h.flags, h.nBlocks;
      entries := Entries(groups, [], 0, None, HasFlag(h.flags, HAS_STATS));
      records := Records(view.blocks, []);
      blocksStart, keptSchemaOffset := BlocksStart(h), SchemaOffset(h);
      this.schemaBuf, this.schemaSize, this.schemaNCols := schemaBuf, schemaSize, schemaNCols;
      origHdr, origIndex := h, index;
      reuseStart, writePos, liveIndexOff, indexMoved := liveEnd, liveEnd, h.indexOffset, false;
      base, named, moves, counted := io.bytes, h.indexOffset, 0, true;
      new;
      FoundFacts(base);
    }

    /** A container being built: header and schema written. */
    constructor Fresh(io: Io, flags: nat, shape: Shape, schema: seq<byte>)
      requires io.cursor == |io.bytes| == HEADER_SIZE + |schema| <= MAX_OFFSET && io.bytes[HEADER_SIZE..] == schema
      requires flags < U16_LIMIT && ShapeFits(shape) && |schema| < U32_LIMIT && (schema == [] || SchemaReadable(schema))
      requires Early(io.bytes) && forall img {:trigger img in io.crash} :: img in io.crash ==> Early(img)
      ensures Valid() && this.io == io && mode == Create && nBlocks == 0 && this.schemaBuf == schema && counted
      ensures entries == Entries([], [], 0, None, false) && records == Records([], [])
      ensures this.flags == flags && this.shape == shape && writePos == HEADER_SIZE + |schema| && schemaNCols == 0
    {
      this.io, mode, hooked := io, Create, false;
      this.flags, this.shape, nBlocks := flags, shape, 0;
      entries, records := Entries([], [], 0, None, false), Records([], []);
      blocksStart, keptSchemaOffset, schemaNCols := 0, 0, 0;
      schemaBuf, schemaSize := schema, |schema|;
      origHdr, origIndex := ParseHeader(io.bytes), [];
      reuseStart, writePos, liveIndexOff, indexMoved := 0, HEADER_SIZE + |schema|, 0, false;
      base, named, moves, counted := [], 0, 0, true;
      new;
      hide ParseHeader, SchemaReadable;
      assert io.bytes[HEADER_SIZE..HEADER_SIZE + schemaSize] == schema;
    }

    /* ---- Invariants ------------------------------------------------------ */

    /** The container as found. */
    ghost predicate AsFound()
    {
      && mode != Create && Container(base) && origHdr == ParseHeader(base) && origIndex == IndexOf(base)
      && keptSchemaOffset == SchemaOffset(origHdr) && blocksStart == BlocksStart(origHdr) && reuseStart == LiveOf(base)
    }

    /** The header names an intact index, and so does every crash image's. */
    ghost predicate Recoverable()
      reads this`named, io`bytes, io`crash
    {
      AsFound() && Intact(base, io.bytes, named) && AllRecover(base, io.crash)
    }

    /** Holds after every call, failed ones too; a copy lies clear of the original index, within the disk's reach. */
    ghost predicate Safe()
      reads this`named, this`indexMoved, io`bytes, io`crash
    {
      && Recoverable()
      && (indexMoved ==> origHdr.indexOffset + origHdr.indexSize <= named && named <= MAX_OFFSET)
    }

    /** While a container is built its header names no index, and neither does any crash image's. */
    ghost predicate Unfinished()
      reads io`bytes, io`crash
    {
      && Early(io.bytes) && |io.bytes| >= HEADER_SIZE
      && forall img {:trigger img in io.crash} :: img in io.crash ==> Early(img)
    }

    /** Holds after every call, successful or not. */
    ghost predicate Guarded()
      reads this`named, this`indexMoved, io`bytes, io`crash
    {
      if mode == Create then Unfinished() else Safe()
    }

    /** The free space before the index doubles with every move. */
    ghost predicate Doubled()
      reads this`moves, this`indexMoved, this`liveIndexOff
    {
      && (moves > 0 <==> indexMoved)
      && (moves > 0 ==> Pow2(moves) * origHdr.indexSize <= liveIndexOff - reuseStart)
    }

    /** A second or later move happens only once d bytes of new data have called for the space. */
    ghost predicate Paid(d: int)
      reads this`moves
    {
      moves >= 2 ==> Pow2(moves - 1) * origHdr.indexSize < d
    }

    /** A pass in progress, in free space before the named index, with n bytes at the cursor not yet accounted for. */
    ghost predicate Growing(n: nat)
      reads this`named, this`indexMoved, this`moves, this`liveIndexOff, this`writePos, io
    {
      && Safe() && named == liveIndexOff && Doubled() && Paid(writePos + n - reuseStart)
      && (!indexMoved ==> liveIndexOff == origHdr.indexOffset) && io.headerWrites == moves
      && reuseStart <= writePos && writePos + n <= liveIndexOff && io.cursor == writePos + n <= |io.bytes|
    }

    /** A container being built: the file ends n bytes past the accounted data. */
    ghost predicate Building(n: nat)
      reads this`writePos, io
    {
      && mode == Create && Unfinished() && io.cursor == writePos + n == |io.bytes|
      && |schemaBuf| == schemaSize && HEADER_SIZE + schemaSize <= writePos
      && io.bytes[HEADER_SIZE..HEADER_SIZE + schemaSize] == schemaBuf
      && (schemaBuf == [] || SchemaReadable(schemaBuf))
    }

    /** One past the last byte laid down before any block of this pass. */
    ghost function Fixed(): nat
    {
      if mode == Create then HEADER_SIZE + schemaSize else FixedEnd(origHdr)
    }

    /** The entries describe the records written, and nothing lies between the last of them and the cursor. */
    ghost predicate Content()
      reads this`nBlocks, this`writePos, this`entries, this`records, this`counted, io
    {
      && flags < U16_LIMIT && nBlocks < U64_LIMIT && schemaSize < U32_LIMIT && ShapeFits(shape)
      && HEADER_SIZE <= writePos <= MAX_OFFSET
      && Describes(io.bytes, writePos, entries, records, Fixed(), HasFlag(flags, HAS_STATS))
      && (counted ==> EndOf(entries, Fixed()) == writePos && AllColumned(entries.groups))
      && (mode != Create ==> counted)
    }

    /** What each way of reopening keeps for close. */
    ghost predicate Kept()
      reads this`entries
    {
      && (mode != Create ==> flags == origHdr.flags && HasFlag(flags, HETEROGENEOUS))
      && (mode == Widen ==> |schemaBuf| == schemaSize > 0 && SchemaReadable(schemaBuf) && entries.cols == [])
      && (mode == Extend ==> schemaSize == origHdr.schemaSize > 0 && 0 < schemaNCols < U16_LIMIT)
    }

    ghost predicate Valid()
      reads this, io
    {
      Content() && Kept() && if mode == Create then Building(0) else Growing(0)
    }

    /* ---- Making room ----------------------------------------------------- */

    /** The disk accepts data up to pos, and the copies of the index that data may call for. */
    predicate Reaches(pos: nat)
    {
      if mode == Create then pos <= MAX_OFFSET
      else reuseStart + 2 * (pos - reuseStart) + 3 * origHdr.indexSize <= MAX_OFFSET
    }

    /** It accepts n more bytes at the cursor. */
    predicate Near(n: nat)
      reads this`writePos
    {
      Reaches(writePos + n)
    }

    /** Where the next copy of the index goes. */
    function NextCopy(need: nat): (at: nat)
      requires reuseStart <= writePos
      reads this`writePos, this`liveIndexOff
    {
      var room := if liveIndexOff > reuseStart then liveIndexOff - reuseStart else 0;
      var next := 2 * (room + origHdr.indexSize);
      reuseStart + if next < writePos + need - reuseStart then writePos + need - reuseStart else next
    }

    /** The copy lies past the write, past the named index and past the original one, twice as far out as before. */
    lemma NextCopyFar(need: nat)
      requires reuseStart <= writePos && reuseStart <= liveIndexOff && Doubled() && writePos + need > liveIndexOff
      requires indexMoved ==> origHdr.indexOffset + origHdr.indexSize <= liveIndexOff
      requires !indexMoved ==> liveIndexOff == origHdr.indexOffset
      ensures var at := NextCopy(need);
              && writePos + need <= at && liveIndexOff + origHdr.indexSize <= at
              && origHdr.indexOffset + origHdr.indexSize <= at
              && Pow2(moves + 1) * origHdr.indexSize <= at - reuseStart
              && at <= reuseStart + 2 * (writePos + need - reuseStart + origHdr.indexSize)
    {
      MulDouble(origHdr.indexSize, Pow2(moves));
    }

    /** The move was called for: the data outgrew the free space the last move made. */
    lemma MoveIsPaid(need: nat)
      requires Doubled() && liveIndexOff < writePos + need
      ensures moves >= 1 ==> Pow2(moves) * origHdr.indexSize < writePos + need - reuseStart
    {
    }

    /**
     * Makes room for need bytes at the cursor without overwriting the index the header names: when the
     * write would reach it, a copy goes further out, the header is repointed, and the hook runs.
     */
    method MakeRoom(need: nat) returns (ok: bool)
      requires Growing(0)
      modifies this`liveIndexOff, this`indexMoved, this`named, this`moves, io
      ensures Safe()
      ensures ok ==> named == liveIndexOff && Doubled() && Paid(writePos + need - reuseStart)
      ensures ok ==> (!indexMoved ==> liveIndexOff == origHdr.indexOffset)
      ensures ok ==> writePos + need <= liveIndexOff && io.cursor == writePos
      ensures Agree(old(io.bytes), io.bytes, HEADER_SIZE, writePos)
      ensures ok ==> moves == old(moves) + (if old(writePos + need <= liveIndexOff) then 0 else 1)
      ensures ok ==> io.headerWrites == moves
      ensures io.faults >= old(io.faults) + Blame(ok || !Near(need))
    {
      hide AsFound, Intact, AllRecover, Agree, Pow2;
      ghost var was, front := io.bytes, writePos;
      FoundPast();
      AgreeSelf(was, front);
      if writePos + need <= liveIndexOff {
        return true;
      }
      NextCopyFar(need);
      MoveIsPaid(need);
      var at := NextCopy(need);
      ok := CopyIndex(at);
      AgreeChain(was, was, io.bytes, front, Min(at, |was|), front);
      if !ok {
        return;
      }
      ghost var copied := io.bytes;
      ok := NameCopy(at);
      AgreeChain(was, copied, io.bytes, front, |copied|, front);
      if !ok {
        return;
      }
      liveIndexOff := at;
      indexMoved := true;
      moves := moves + 1;
      if hooked {
        ghost var pointed := io.bytes;
        ok := RunHook();
        AgreeChain(was, pointed, io.bytes, front, at, front);
        if !ok {
          return;
        }
      }
      ok := io.Seek(writePos);
    }

    lemma FoundPast()
      requires AsFound()
      ensures mode != Create && HEADER_SIZE <= reuseStart <= origHdr.indexOffset
    {
    }

    /** Writes the original index at a place past everything. */
    method CopyIndex(at: nat) returns (ok: bool)
      requires Safe() && reuseStart <= at && named + origHdr.indexSize <= at
      modifies io
      ensures Safe()
      ensures Agree(old(io.bytes), io.bytes, HEADER_SIZE, Min(at, |old(io.bytes)|))
      ensures ok ==> at + origHdr.indexSize <= |io.bytes| && io.bytes[at..at + origHdr.indexSize] == origIndex
      ensures ok ==> at + origHdr.indexSize <= MAX_OFFSET
      ensures io.headerWrites == old(io.headerWrites)
      ensures io.faults >= old(io.faults) + Blame(ok || at + origHdr.indexSize > MAX_OFFSET)
    {
      FoundPast();
      hide ParseHeader, Intact, Container, Torn, IndexOf, LiveOf, Recovers;
      ghost var was := io.bytes;
      IntactSpan(base, was, named);
      ok := io.Seek(at);
      if !ok {
        AgreeSelf(was, Min(at, |was|));
        return;
      }
      ok := io.Write(origIndex);
      WriteRecovers(base, was, at, origIndex, io.bytes, named);
      TornKeeps(was, at, origIndex, io.bytes, HEADER_SIZE, Min(at, |was|));
    }

    /** Points the header at a complete copy. */
    method NameCopy(at: nat) returns (ok: bool)
      requires Safe() && reuseStart <= at && origHdr.indexOffset + origHdr.indexSize <= at
      requires at + origHdr.indexSize <= |io.bytes| && at + origHdr.indexSize <= MAX_OFFSET
      requires io.bytes[at..at + origHdr.indexSize] == origIndex
      modifies io, this`named
      ensures Safe()
      ensures Agree(old(io.bytes), io.bytes, HEADER_SIZE, |old(io.bytes)|)
      ensures ok ==> named == at && io.headerWrites == old(io.headerWrites) + 1
      ensures io.faults >= old(io.faults) + Blame(ok)
    {
      hide ParseHeader, HeaderBytes, HeaderFits, Intact, Container, Torn, Moved, IndexOf, LiveOf, Written, Recovers;
      ghost var was := io.bytes;
      IntactSpan(base, was, named);
      MovedFits(base, at);
      ok := io.Seek(0);
      if !ok {
        AgreeSelf(was, |was|);
        return;
      }
      ok := io.Write(HeaderBytes(Moved(origHdr, at)));
      SwitchRecovers(base, was, named, Moved(origHdr, at), at, io.bytes);
      if ok || io.bytes != was { named := at; }
    }

    method RunHook() returns (ok: bool)
      requires Safe() && named == liveIndexOff
      modifies io
      ensures Safe() && Agree(old(io.bytes), io.bytes, HEADER_SIZE, named)
      ensures io.headerWrites == old(io.headerWrites)
      ensures io.faults >= old(io.faults) + Blame(ok)
    {
      hide ParseHeader, Intact, Container, IndexOf, LiveOf, Recovers;
      ghost var was := io.bytes;
      ghost var end := named + origHdr.indexSize;
      IntactSpan(base, was, named);
      ok := io.Relocated(liveIndexOff + origHdr.indexSize);
      HookRecovers(base, was, io.bytes, named, end);
      FrontSlice(was, io.bytes, end, HEADER_SIZE, named);
    }

    /**
     * In a pass the header has been written once for each move; with k >= 2 moves more than 2^(k-1) index sizes
     * of new data were written, and the named copy lies at least 2^k index sizes past the live data.
     */
    lemma MovesAreLogarithmic()
      requires Valid() && mode != Create && io.headerWrites >= 2
      ensures Pow2(io.headerWrites - 1) * origHdr.indexSize < writePos - reuseStart
      ensures io.headerWrites - 1 < writePos - reuseStart
      ensures Pow2(io.headerWrites) * origHdr.indexSize <= named - reuseStart
    {
      hide Content, Kept, Container, Read, ParseHeader, LiveOf, IndexOf, Intact, AllRecover, Pow2;
      FoundHasIndex();
      Pow2Exceeds(io.headerWrites - 1);
      MulMonotone(1, origHdr.indexSize, Pow2(io.headerWrites - 1));
    }

    lemma FoundHasIndex()
      requires AsFound()
      ensures origHdr.indexSize > 0
    {
    }

    /* ---- Writing blocks -------------------------------------------------- */

    /** A write at the cursor, inside the free space: it disturbs neither the container nor earlier blocks. */
    method WriteHere(data: seq<byte>) returns (ok: bool)
      requires Safe() && reuseStart <= writePos && writePos + |data| <= named && io.cursor == writePos
      modifies io
      ensures Safe()
      ensures Agree(old(io.bytes), io.bytes, HEADER_SIZE, writePos)
      ensures ok ==> writePos + |data| <= |io.bytes| && io.bytes[writePos..writePos + |data|] == data
      ensures ok ==> io.cursor == writePos + |data| <= MAX_OFFSET
      ensures io.headerWrites == old(io.headerWrites)
      ensures io.faults >= old(io.faults) + Blame(ok || writePos + |data| > MAX_OFFSET)
    {
      FoundPast();
      hide ParseHeader, Intact, Container, IndexOf, LiveOf, Recovers, Torn;
      ghost var was, at := io.bytes, writePos;
      IntactSpan(base, was, named);
      ok := io.Write(data);
      WriteRecovers(base, was, at, data, io.bytes, named);
      TornKeeps(was, at, data, io.bytes, HEADER_SIZE, at);
    }

    /** A write at the end of a container being built. */
    method WriteEnd(data: seq<byte>) returns (ok: bool)
      requires Building(0)
      modifies io
      ensures Unfinished()
      ensures ok ==> Building(|data|) && Agree(old(io.bytes), io.bytes, HEADER_SIZE, writePos)
      ensures ok ==> io.bytes[writePos..writePos + |data|] == data && writePos + |data| <= MAX_OFFSET
      ensures io.faults >= old(io.faults) + Blame(ok || writePos + |data| > MAX_OFFSET)
    {
      hide SchemaReadable, Early, Torn, CrashImages;
      ghost var was := io.bytes;
      ok := io.Write(data);
      EarlyStays(was, writePos, data, io.bytes);
      if ok {
        TornKeeps(was, writePos, data, io.bytes, HEADER_SIZE, writePos);
        AgreeFront(was, io.bytes, writePos, schemaSize);
      }
    }

    /** Room, then the record itself. */
    method PutRecord(rec: seq<byte>) returns (ok: bool)
      requires Valid()
      modifies this`liveIndexOff, this`indexMoved, this`named, this`moves, io
      ensures Guarded()
      ensures ok ==> Content() && if mode == Create then Building(|rec|) else Growing(|rec|)
      ensures ok ==> writePos + |rec| <= |io.bytes| && io.bytes[writePos..writePos + |rec|] == rec
      ensures ok ==> writePos + |rec| <= MAX_OFFSET
      ensures io.faults >= old(io.faults) + Blame(ok || !Near(|rec|))
    {
      hide Safe, Doubled, Paid, Agree, Describes, EndOf, FixedEnd, SchemaReadable, AllColumned;
      ghost var was := io.bytes;
      if mode != Create {
        ok := MakeRoom(|rec|);
        if !ok {
          return;
        }
        ghost var roomy := io.bytes;
        ok := WriteHere(rec);
        if ok { AgreeChain(was, roomy, io.bytes, writePos, writePos, writePos); }
      } else {
        ok := WriteEnd(rec);
      }
      if ok {
        DescribesElsewhere(was, io.bytes, writePos, entries, records, Fixed(), HasFlag(flags, HAS_STATS));
      }
    }

    /** Appends one record to the open row group. */
    method AppendRecord(rec: seq<byte>) returns (ok: bool)
      requires Valid() && mode != Widen && entries.stats == None
      modifies this`writePos, this`nBlocks, this`entries, this`records
      modifies this`liveIndexOff, this`indexMoved, this`named, this`moves, io
      ensures Guarded()
      ensures ok ==> Valid() && records == old(records).(cur := old(records).cur + [rec])
      ensures ok ==> nBlocks == NextCount(old(nBlocks)) && entries == Appended(old(entries), old(writePos), |rec|)
      ensures ok ==> writePos == old(writePos) + |rec|
      ensures io.faults >= old(io.faults) + Blame(ok || !old(Near(|rec|)))
    {
      hide Safe, Doubled, Paid, Describes, EndOf, FixedEnd, SchemaReadable, AllColumned, NextCount;
      ok := PutRecord(rec);
      if ok { EnterRecord(rec); }
    }

    /** The bookkeeping for a record just written. */
    method EnterRecord(rec: seq<byte>)
      requires Content() && Kept() && mode != Widen && entries.stats == None
      requires if mode == Create then Building(|rec|) else Growing(|rec|)
      requires writePos + |rec| <= |io.bytes| && io.bytes[writePos..writePos + |rec|] == rec
      requires writePos + |rec| <= MAX_OFFSET
      modifies this`writePos, this`nBlocks, this`entries, this`records
      ensures Valid() && records == old(records).(cur := old(records).cur + [rec])
      ensures nBlocks == NextCount(old(nBlocks)) && entries == Appended(old(entries), old(writePos), |rec|)
      ensures writePos == old(writePos) + |rec|
    {
      hide Safe, Doubled, Paid, Describes, EndOf, FixedEnd, SchemaReadable, AllColumned, NextCount;
      AppendDescribes(io.bytes, writePos, entries, records, Fixed(), HasFlag(flags, HAS_STATS), rec);
      entries := Appended(entries, writePos, |rec|);
      records := records.(cur := records.cur + [rec]);
      writePos := writePos + |rec|;
      nBlocks := NextCount(nBlocks);
    }

    /** Closes the open row group; its column count is kept in 16 bits. */
    method EndRowgroup(nRows: nat) returns (ok: bool)
      requires Valid() && nRows < U64_LIMIT
      modifies this`entries, this`records, this`counted
      ensures Valid()
      ensures ok <==>
                mode != Widen && old(entries).cols != [] && (mode == Extend ==> |old(entries).cols| == schemaNCols)
      ensures ok ==> Content() && entries == Ended(old(entries), nRows)
      ensures ok ==> records == Records(old(records).groups + [Counted(old(records).cur)], [])
      ensures ok ==> counted == (old(counted) && |old(entries).cols| < U16_LIMIT)
      ensures ok ==> var g := entries.groups[|entries.groups| - 1]; g.cols != [] ==> g.offset == g.cols[0].offset
      ensures !ok ==> entries == old(entries) && records == old(records) && counted == old(counted)
    {
      hide Growing, Building, FixedEnd, SchemaReadable, Counted, Describes, EndOf, AllColumned;
      if mode == Widen || entries.cols == [] || (mode == Extend && |entries.cols| != schemaNCols) {
        return false;
      }
      StatsSized();
      EndDescribes(io.bytes, writePos, entries, records, Fixed(), HasFlag(flags, HAS_STATS), nRows);
      EndColumned(entries, nRows);
      counted := counted && |entries.cols| < U16_LIMIT;
      records := Records(records.groups + [Counted(records.cur)], []);
      entries := Ended(entries, nRows);
      ok := true;
    }

    lemma StatsSized()
      requires Content()
      ensures entries.stats.Some? ==> |entries.stats.value| == STATS_ENTRY * |entries.cols|
    {
    }

    /** Attaches statistics to the open row group, one entry per block written so far. */
    method SetStats(stats: seq<byte>, nCols: nat) returns (ok: bool)
      requires Valid() && nCols < U16_LIMIT && |stats| == STATS_ENTRY * nCols
      modifies this`entries
      ensures Valid()
      ensures ok <==> old(entries).cols != [] && old(entries).stats == None && nCols == |old(entries).cols|
      ensures entries == if ok then old(entries).(stats := Some(stats), anyStats := true) else old(entries)
    {
      hide Growing, Building, FixedEnd, SchemaReadable, Describes;
      if entries.cols == [] || entries.stats.Some? || nCols != |entries.cols| {
        return false;
      }
      StatsDescribe(io.bytes, writePos, entries, records, Fixed(), HasFlag(flags, HAS_STATS), stats);
      entries := entries.(stats := Some(stats), anyStats := true);
      ok := true;
    }

    /** Appends one record as a new last column of an existing row group. */
    method WidenBlock(rg: nat, rec: seq<byte>, stats: Option<seq<byte>>) returns (ok: bool)
      requires Valid() && (stats.Some? ==> |stats.value| == STATS_ENTRY)
      modifies this`writePos, this`nBlocks, this`entries, this`records
      modifies this`liveIndexOff, this`indexMoved, this`named, this`moves, io
      ensures Guarded()
      ensures mode != Widen || rg >= |old(entries).groups| || |old(entries).groups[rg].cols| == U16_LIMIT - 1 ==>
                !ok && Valid() && entries == old(entries) && records == old(records) && io.bytes == old(io.bytes)
      ensures ok ==> Valid() && rg < |old(records).groups|
      ensures ok ==> records == old(records).(groups := old(records).groups[rg := old(records).groups[rg] + [rec]])
      ensures ok ==> nBlocks == NextCount(old(nBlocks)) && rg < |old(entries).groups|
      ensures ok ==> entries == Widened(old(entries), rg, old(writePos), |rec|, stats)
      ensures ok ==> writePos == old(writePos) + |rec|
      ensures mode == Widen && rg < |old(entries).groups| && |old(entries).groups[rg].cols| != U16_LIMIT - 1 ==>
                io.faults >= old(io.faults) + Blame(ok || !old(Near(|rec|)))
      ensures io.faults >= old(io.faults)
    {
      hide Safe, Doubled, Paid, EndOf, FixedEnd, SchemaReadable, NextCount, GroupsHold, GroupStored, GroupsStored;
      if mode != Widen || rg >= |entries.groups| || |entries.groups[rg].cols| == U16_LIMIT - 1 {
        return false;
      }
      RecordsMatch(rg);
      ok := PutRecord(rec);
      if ok {
        EnterColumn(rg, rec, stats);
      }
    }

    lemma RecordsMatch(rg: nat)
      requires Content() && rg < |entries.groups|
      ensures rg < |records.groups| && |entries.groups[rg].cols| < U16_LIMIT
    {
    }

    /** The bookkeeping for a column just written. */
    method EnterColumn(rg: nat, rec: seq<byte>, stats: Option<seq<byte>>)
      requires Content() && Kept() && Growing(|rec|) && mode == Widen && rg < |entries.groups| && rg < |records.groups|
      requires |entries.groups[rg].cols| < U16_LIMIT - 1 && (stats.Some? ==> |stats.value| == STATS_ENTRY)
      requires io.bytes[writePos..writePos + |rec|] == rec && writePos + |rec| <= MAX_OFFSET
      modifies this`writePos, this`nBlocks, this`entries, this`records
      ensures Valid() && records == old(records).(groups := old(records).groups[rg := old(records).groups[rg] + [rec]])
      ensures nBlocks == NextCount(old(nBlocks)) && entries == Widened(old(entries), rg, old(writePos), |rec|, stats)
      ensures writePos == old(writePos) + |rec|
    {
      hide Safe, Doubled, Paid, Describes, EndOf, FixedEnd, SchemaReadable, NextCount;
      WidenDescribes(io.bytes, writePos, entries, records, Fixed(), HasFlag(flags, HAS_STATS), rg, rec, stats);
      entries := Widened(entries, rg, writePos, |rec|, stats);
      records := records.(groups := records.groups[rg := records.groups[rg] + [rec]]);
      writePos := writePos + |rec|;
      nBlocks := NextCount(nBlocks);
    }

    /* ---- Closing and aborting -------------------------------------------- */

    /** The schema of the container close leaves. */
    ghost function FinalSchema(): seq<byte>
      requires mode == Extend ==> Read(base).Ok?
    {
      if mode == Extend then Read(base).value.schema else schemaBuf
    }

    /** What the closed container reads as: every group with every record, old and new. */
    ghost function Finished(): View
      requires mode == Extend ==> Read(base).Ok?
      reads this`nBlocks, this`entries, this`records
    {
      View(FinalSchema(), nBlocks, entries.groups, records.groups)
    }

    /** Bytes close writes besides the header. */
    function TailSize(): nat
      reads this`entries
    {
      |IndexBytes(entries.groups)| + if mode == Widen then schemaSize else 0
    }

    /** The new schema (widening) and the rebuilt index, written in one run of free space. */
    method WriteTail() returns (ok: bool, schemaOffset: nat, indexOffset: nat)
      requires Valid() && mode != Create
      modifies this`writePos, this`liveIndexOff, this`indexMoved, this`named, this`moves, io
      ensures Safe()
      ensures ok ==> Describes(io.bytes, old(writePos), entries, records, Fixed(), HasFlag(flags, HAS_STATS))
      ensures ok ==> indexOffset <= MAX_OFFSET && IndexAt(io.bytes, entries, indexOffset)
      ensures ok ==> schemaOffset == (if mode == Widen then old(writePos) else keptSchemaOffset)
      ensures ok ==> indexOffset == old(writePos) + if mode == Widen then schemaSize else 0
      ensures ok && mode == Widen ==> SchemaAt(io.bytes, schemaBuf, schemaOffset)
      ensures ok ==> Paid(old(writePos) + TailSize() - reuseStart) && io.headerWrites == moves
      ensures io.faults >= old(io.faults) + Blame(ok || !old(Near(TailSize())))
    {
      hide Safe, Doubled, Paid, Agree, Describes, EndOf, FixedEnd, SchemaReadable, AllColumned, IndexBytes;
      ghost var was, start := io.bytes, writePos;
      var index := IndexBytes(entries.groups);
      schemaOffset, indexOffset := keptSchemaOffset, writePos;
      ok := MakeRoom(TailSize());
      if !ok {
        return;
      }
      if mode == Widen {
        ghost var roomy := io.bytes;
        schemaOffset := writePos;
        ok := WriteHere(schemaBuf);
        if !ok {
          return;
        }
        AgreeChain(was, roomy, io.bytes, start, start, start);
        writePos := writePos + schemaSize;
        indexOffset := writePos;
      }
      ghost var schemed := io.bytes;
      if entries.groups != [] {
        ok := WriteHere(index);
        if !ok {
          return;
        }
        AgreeChain(was, schemed, io.bytes, start, writePos, start);
        if mode == Widen { AgreePart(schemed, io.bytes, writePos, start, schemaSize); }
      }
      DescribesElsewhere(was, io.bytes, start, entries, records, Fixed(), HasFlag(flags, HAS_STATS));
    }

    /** Finishes a pass over a reopened container: the header patch comes last and is the only write that shows. */
    method CloseGrown() returns (ok: bool)
      requires Valid() && mode != Create
      modifies this, io
      ensures Container(base)
      ensures ok ==> Read(io.bytes) == Ok(old(Finished()))
      ensures Outcome(base, io.bytes, old(Finished()))
      ensures ok ==> Paid(old(writePos + TailSize()) - reuseStart) && io.headerWrites == moves + 1
      ensures ok && old(entries).groups != [] ==> IndexEnd(io.bytes) == old(writePos + TailSize())
      ensures forall img {:trigger img in io.crash} :: img in io.crash ==> Outcome(base, img, old(Finished()))
      ensures ok && old(entries).groups != [] ==>
                Container(io.bytes) && LiveOf(io.bytes) <= ParseHeader(io.bytes).indexOffset
                && (mode == Widen || old(entries).cols == [] ==> LiveOf(io.bytes) == ParseHeader(io.bytes).indexOffset)
      ensures io.faults >= old(io.faults) + Blame(ok || !old(Near(TailSize())))
    {
      hide Safe, Doubled, Paid, Describes, EndOf, FixedEnd, SchemaReadable, AllColumned, IndexBytes, FinalHeader,
        HeaderBytes, IndexAt, SchemaAt, Outcome, Container, Read, ParseHeader, LiveOf, Written, Torn, HeaderFits,
        Intact, AllRecover;
      ValidFound();
      ghost var view, start := Finished(), writePos;
      var schemaOffset, indexOffset: nat;
      ok, schemaOffset, indexOffset := WriteTail();
      SafeOutcome(view);
      if !ok {
        return;
      }
      ok := io.Seek(0);
      if !ok {
        return;
      }
      var h := FinalHeader(flags, shape, entries, schemaSize, blocksStart, nBlocks, indexOffset, schemaOffset);
      ghost var was := io.bytes;
      PatchOutcome(start, schemaOffset, indexOffset, h, view);
      FinalIndexEnd(schemaOffset, indexOffset);
      ok := io.Write(HeaderBytes(h));
    }

    lemma FinalIndexEnd(schemaOffset: nat, indexOffset: nat)
      ensures var h := FinalHeader(flags, shape, entries, schemaSize, blocksStart, nBlocks, indexOffset, schemaOffset);
              entries.groups != [] ==> h.indexOffset == indexOffset && h.indexSize == |IndexBytes(entries.groups)|
    {
    }

    /** Before the last header write everything still reads as the original. */
    lemma SafeOutcome(view: View)
      requires Safe()
      ensures Container(base) && Read(base).Ok? && Outcome(base, io.bytes, view)
      ensures forall img {:trigger img in io.crash} :: img in io.crash ==> Outcome(base, img, view)
    {
      hide Container, Read, ParseHeader, LiveOf, Intact, Recovers;
      FoundOk();
      IntactReads(base, io.bytes, named);
    }

    lemma FoundOk()
      requires AsFound()
      ensures Container(base) && Read(base).Ok?
    {
    }

    lemma ValidFound()
      requires Valid() && mode != Create
      ensures Safe() && Container(base) && Read(base).Ok? && schemaSize < U32_LIMIT && nBlocks < U64_LIMIT
    {
    }

    /** The last header write shows the old container or the finished one. */
    lemma PatchOutcome(start: nat, schemaOffset: nat, indexOffset: nat, h: Header, view: View)
      requires Safe() && Kept() && Read(base).Ok? && start <= MAX_OFFSET && nBlocks < U64_LIMIT
      requires Describes(io.bytes, start, entries, records, FixedEnd(origHdr), HasFlag(flags, HAS_STATS))
      requires AllColumned(entries.groups) && EndOf(entries, FixedEnd(origHdr)) == start
      requires indexOffset <= MAX_OFFSET && IndexAt(io.bytes, entries, indexOffset)
      requires schemaOffset == (if mode == Widen then start else keptSchemaOffset)
      requires indexOffset == start + if mode == Widen then schemaSize else 0
      requires mode == Widen ==> SchemaAt(io.bytes, schemaBuf, schemaOffset)
      requires h == FinalHeader(flags, shape, entries, schemaSize, blocksStart, nBlocks, indexOffset, schemaOffset)
      requires view == Finished() && ShapeFits(shape) && flags < U16_LIMIT && schemaSize < U32_LIMIT
      ensures forall img {:trigger Torn(io.bytes, 0, HeaderBytes(h), img)} ::
                Torn(io.bytes, 0, HeaderBytes(h), img) ==> Outcome(base, img, view)
      ensures var b := Written(io.bytes, 0, HeaderBytes(h));
              && Read(b) == Ok(view) && ParseHeader(b) == h
              && (entries.groups != [] ==>
                    Container(b) && LiveOf(b) <= ParseHeader(b).indexOffset
                    && (mode == Widen || entries.cols == [] ==> LiveOf(b) == ParseHeader(b).indexOffset))
    {
      hide Container, Read, ParseHeader, LiveOf, Intact, Recovers, Describes, EndOf, FixedEnd, IndexAt, SchemaAt,
        FinalHeader, HeaderBytes, Written, AllColumned, SchemaReadable, IndexBytes;
      IntactReads(base, io.bytes, named);
      if mode == Extend { KeptSchema(base, io.bytes, named); }
      GrownFinal(base, io.bytes, named, start, entries, records, mode == Widen, FinalSchema(), schemaOffset, nBlocks,
                 indexOffset, shape);
    }

    /** Finishes a container built from nothing: index, then the header that names it. */
    method CloseNew() returns (ok: bool)
      requires Valid() && mode == Create
      modifies this, io
      ensures ok ==> Read(io.bytes) == if AllColumned(old(entries).groups) then Ok(old(Finished())) else Err(Corrupt)
      ensures ok && old(entries).groups != [] && AllColumned(old(entries).groups) && HasFlag(flags, HETEROGENEOUS) ==>
                Container(io.bytes) && LiveOf(io.bytes) <= ParseHeader(io.bytes).indexOffset
                && (old(counted) && old(entries).cols == [] ==> LiveOf(io.bytes) == ParseHeader(io.bytes).indexOffset)
      ensures Sound(io.bytes) && forall img {:trigger img in io.crash} :: img in io.crash ==> Sound(img)
      ensures io.faults >= old(io.faults) + Blame(ok || !old(Near(TailSize())))
    {
      hide Describes, EndOf, SchemaReadable, AllColumned, IndexBytes, FinalHeader, HeaderBytes, IndexAt, SchemaAt,
        Container, Read, ParseHeader, LiveOf, Written, Torn, HeaderFits, Sound, Early;
      ghost var view, start, was := Finished(), writePos, io.bytes;
      if entries.groups != [] {
        var index := IndexBytes(entries.groups);
        ok := WriteEnd(index);
        EarlySound(io.bytes, io.crash);
        if !ok {
          return;
        }
        EntriesStand(was);
      } else {
        EarlySound(io.bytes, io.crash);
        NoIndex(io.bytes, entries, writePos);
        SchemaStands();
      }
      ok := io.Seek(0);
      if !ok {
        return;
      }
      var h := FinalHeader(flags, shape, entries, schemaSize, blocksStart, nBlocks, writePos, 0);
      NewOutcome(h, view);
      ok := io.Write(HeaderBytes(h));
    }

    lemma SchemaStands()
      requires Building(0)
      ensures SchemaAt(io.bytes, schemaBuf, HEADER_SIZE)
    {
    }

    /** With the index written, the entries and the schema still stand. */
    lemma EntriesStand(was: seq<byte>)
      requires Agree(was, io.bytes, HEADER_SIZE, writePos) && HEADER_SIZE <= writePos
      requires Describes(was, writePos, entries, records, Fixed(), HasFlag(flags, HAS_STATS))
      requires Building(|IndexBytes(entries.groups)|) && writePos + |IndexBytes(entries.groups)| <= MAX_OFFSET
      requires io.bytes[writePos..writePos + |IndexBytes(entries.groups)|] == IndexBytes(entries.groups)
      ensures Describes(io.bytes, writePos, entries, records, Fixed(), HasFlag(flags, HAS_STATS))
      ensures IndexAt(io.bytes, entries, writePos) && SchemaAt(io.bytes, schemaBuf, HEADER_SIZE)
    {
      hide Describes, SchemaReadable, IndexBytes;
      DescribesElsewhere(was, io.bytes, writePos, entries, records, Fixed(), HasFlag(flags, HAS_STATS));
    }

    lemma NewOutcome(h: Header, view: View)
      requires mode == Create && Unfinished() && view == Finished() && writePos <= MAX_OFFSET && HEADER_SIZE <= writePos
      requires Describes(io.bytes, writePos, entries, records, Fixed(), HasFlag(flags, HAS_STATS))
      requires IndexAt(io.bytes, entries, writePos) && SchemaAt(io.bytes, schemaBuf, HEADER_SIZE)
               && |schemaBuf| == schemaSize
      requires h == FinalHeader(flags, shape, entries, schemaSize, blocksStart, nBlocks, writePos, 0)
      requires ShapeFits(shape) && flags < U16_LIMIT && schemaSize < U32_LIMIT && nBlocks < U64_LIMIT
      requires counted ==> EndOf(entries, Fixed()) == writePos
      ensures var b := Written(io.bytes, 0, HeaderBytes(h));
              && Sound(b) && Read(b) == (if AllColumned(entries.groups) then Ok(view) else Err(Corrupt))
              && (entries.groups != [] && AllColumned(entries.groups) && HasFlag(flags, HETEROGENEOUS) ==>
                    Container(b) && LiveOf(b) <= ParseHeader(b).indexOffset
                    && (counted && entries.cols == [] ==> LiveOf(b) == ParseHeader(b).indexOffset))
      ensures forall img {:trigger Torn(io.bytes, 0, HeaderBytes(h), img)} ::
                Torn(io.bytes, 0, HeaderBytes(h), img) ==> Sound(img)
    {
      hide Container, Read, ParseHeader, LiveOf, LiveEnd, Describes, IndexAt, SchemaAt, FinalHeader, HeaderBytes,
        Written, AllColumned, SchemaReadable, IndexBytes, Sound, Early, HeaderFits, ReopenCheck;
      var b := Written(io.bytes, 0, HeaderBytes(h));
      EarlyIsSound(io.bytes);
      if AllColumned(entries.groups) {
        FinalReads(io.bytes, writePos, entries, records, Fixed(), flags, shape, schemaBuf, 0, blocksStart, nBlocks,
                   writePos);
        DescribesEnd(io.bytes, writePos, entries, records, Fixed(), HasFlag(flags, HAS_STATS));
        if HasFlag(flags, HETEROGENEOUS) {
          NewEnd(flags, entries, shape, schemaSize, blocksStart, nBlocks, writePos);
        }
        NewSound(b, flags, shape, entries, schemaSize, blocksStart, nBlocks, writePos);
      } else {
        FinalRefused(io.bytes, writePos, entries, records, Fixed(), flags, shape, schemaBuf, blocksStart, nBlocks,
                     writePos);
        RefusedSound(b);
      }
    }

    /**
     * Gives up a pass. The original index is written back at its own offset, then the original header;
     * until that lands the header still names the copy.
     */
    method Abort() returns (ok: bool)
      requires mode != Create ==> Safe()
      modifies this`named, io
      ensures mode == Create || !indexMoved ==> ok && io.bytes == old(io.bytes)
      ensures mode != Create ==> Recoverable()
      ensures mode != Create && indexMoved && ok ==> Container(base) && Restored()
      ensures io.faults >= old(io.faults) + Blame(ok)
    {
      hide ParseHeader, HeaderBytes, HeaderFits, Intact, Container, Torn, IndexOf, LiveOf, Written, Recovers;
      if mode == Create || !indexMoved {
        return true;
      }
      ghost var was := io.bytes;
      IntactSpan(base, was, named);
      FoundFits();
      ok := io.Seek(origHdr.indexOffset);
      if !ok {
        return;
      }
      ok := io.Write(origIndex);
      WriteRecovers(base, was, origHdr.indexOffset, origIndex, io.bytes, named);
      if !ok {
        return;
      }
      ok := io.Seek(0);
      if !ok {
        return;
      }
      was := io.bytes;
      IntactSpan(base, was, named);
      ok := io.Write(HeaderBytes(origHdr));
      SwitchRecovers(base, was, named, origHdr, origHdr.indexOffset, io.bytes);
      if ok || io.bytes != was { named := origHdr.indexOffset; }
      if ok { PutBack(was); }
    }

    /** Header, live data and index are back as the pass found them, each at its own place. */
    ghost predicate Restored()
      requires Container(base)
      reads io`bytes
    {
      && SameFront(base, io.bytes, HEADER_SIZE) && Agree(base, io.bytes, HEADER_SIZE, LiveOf(base))
      && Slice(io.bytes, ParseHeader(base).indexOffset, ParseHeader(base).indexSize) == IndexOf(base)
    }

    lemma PutBack(was: seq<byte>)
      requires AsFound() && Intact(base, io.bytes, origHdr.indexOffset)
      requires io.bytes == Written(was, 0, HeaderBytes(origHdr))
      ensures Restored()
    {
      hide LE, LEVal, Read, LiveOf, HeaderBytes, ParseHeader;
      SamePrefix(base, base[..HEADER_SIZE]);
      HeaderRewrite(base[..HEADER_SIZE]);
    }

    lemma FoundFits()
      requires AsFound()
      ensures HeaderFits(origHdr) && LiveOf(base) <= origHdr.indexOffset
    {
    }
  }

  lemma EarlyIsSound(b: seq<byte>)
    requires Early(b)
    ensures Sound(b)
  {
  }

  lemma RefusedSound(b: seq<byte>)
    requires ReopenCheck(b).Err?
    ensures Sound(b)
  {
  }

  lemma EarlySound(b: seq<byte>, images: iset<seq<byte>>)
    requires Early(b) && forall img {:trigger img in images} :: img in images ==> Early(img)
    ensures Sound(b) && forall img {:trigger img in images} :: img in images ==> Sound(img)
  {
    hide Early, Sound;
    EarlyIsSound(b);
    forall img | img in images ensures Sound(img) {
      EarlyIsSound(img);
    }
  }

  lemma NoIndex(f: seq<byte>, e: Entries, off: nat)
    ensures e.groups == [] ==> IndexAt(f, e, off)
  {
  }

  lemma DescribesEnd(b: seq<byte>, pos: nat, e: Entries, r: Records, fixed: nat, flagged: bool)
    requires Describes(b, pos, e, r, fixed, flagged)
    ensures fixed <= EndOf(e, fixed) <= pos && GroupsEnd(e.groups) <= pos
  {
  }

  /** Where the live data of a container built from nothing ends. */
  lemma NewEnd(flags: nat, e: Entries, shape: Shape, schemaSize: nat, blocksStart: nat, nBlocks: nat, indexOffset: nat)
    requires flags < U16_LIMIT && HasFlag(flags, HETEROGENEOUS)
    ensures var h := FinalHeader(flags, shape, e, schemaSize, blocksStart, nBlocks, indexOffset, 0);
            && LiveEnd(h, e.groups) == Max(HEADER_SIZE + schemaSize, GroupsEnd(e.groups))
            && h.indexOffset == (if e.groups != [] then indexOffset else 0)
  {
    WidenedCleared(flags);
    StatsSet(ClearFlag(flags, WIDENED));
  }

  lemma NewSound(b: seq<byte>, flags: nat, shape: Shape, e: Entries, schemaSize: nat, blocksStart: nat, nBlocks: nat,
                 indexOffset: nat)
    requires flags < U16_LIMIT && |b| >= HEADER_SIZE
    requires ParseHeader(b) == FinalHeader(flags, shape, e, schemaSize, blocksStart, nBlocks, indexOffset, 0)
    requires e.groups != [] && HasFlag(flags, HETEROGENEOUS) ==> Container(b)
    ensures Sound(b)
  {
    hide Container, ParseIndex;
    WidenedCleared(flags);
    StatsSet(ClearFlag(flags, WIDENED));
  }

  /* ---- Opening ----------------------------------------------------------- */

  /** The end of the live data grown by one group's columns. */
  method EndOfCols(start: nat, cols: seq<Col>) returns (e: nat)
    ensures e == Max(start, ColsEnd(cols))
  {
    e := start;
    for k := 0 to |cols|
      invariant e == Max(start, ColsEnd(cols[..k]))
    {
      assert cols[..k + 1] == cols[..k] + [cols[k]];
      ColsEndSnoc(cols[..k], cols[k]);
      if cols[k].offset + cols[k].total > e { e := cols[k].offset + cols[k].total; }
    }
    assert cols[..|cols|] == cols;
  }

  /** Where the live data ends, found by walking every entry of the index. */
  method EndOfLive(h: Header, groups: seq<Group>) returns (e: nat)
    ensures e == LiveEnd(h, groups)
  {
    hide SchemaOffset, BlocksStart;
    e := SchemaOffset(h) + h.schemaSize;
    if e < BlocksStart(h) { e := BlocksStart(h); }
    ghost var fixed := e;
    for g := 0 to |groups|
      invariant e == Max(fixed, GroupsEnd(groups[..g]))
    {
      e := EndOfCols(e, groups[g].cols);
      assert groups[..g + 1] == groups[..g] + [groups[g]];
      GroupsEndSnoc(groups[..g], groups[g]);
    }
    assert groups[..|groups|] == groups;
  }

  /** What reopening finds. */
  datatype Reopened = Reopened(h: Header, index: seq<byte>, groups: seq<Group>, liveEnd: nat)

  /** The header names an index further out than the disk accepts. */
  predicate FarIndex(b: seq<byte>)
  {
    |b| >= HEADER_SIZE && ParseHeader(b).indexOffset > MAX_OFFSET
  }

  /** Validates an existing container and leaves the cursor at the end of its live data; nothing is written. */
  method Reopen(io: Io) returns (r: Result<Reopened>)
    requires Sound(io.bytes)
    modifies io`cursor, io`faults
    ensures r.Ok? ==> Container(io.bytes) && r.value.h == ParseHeader(io.bytes) && r.value.index == IndexOf(io.bytes)
    ensures r.Ok? ==> Read(io.bytes).value.groups == r.value.groups && r.value.liveEnd == LiveOf(io.bytes)
    ensures r.Ok? ==> io.cursor == r.value.liveEnd <= MAX_OFFSET
    ensures r.Err? ==> r.error == IO || ReopenCheck(io.bytes) == Err(r.error)
    ensures io.faults >= old(io.faults) + Blame(r != Err(IO) || FarIndex(io.bytes))
  {
    hide LE, LEVal, ParseIndex;
    var ok := io.Seek(0);
    if !ok {
      return Err(IO);
    }
    var head := io.Read(HEADER_SIZE);
    if head.Err? {
      return Err(head.error);
    }
    SamePrefix(io.bytes, head.value);
    var h := ParseHeader(head.value);
    var generation := CheckGeneration(h);
    if generation.Err? {
      return Err(generation.error);
    }
    if !HasFlag(h.flags, HETEROGENEOUS) || h.indexOffset == 0 || h.indexSize == 0 {
      return Err(Invalid);
    }
    ok := io.Seek(h.indexOffset);
    if !ok {
      return Err(IO);
    }
    var index := io.Read(h.indexSize);
    if index.Err? {
      return Err(index.error);
    }
    var groups := ParseIndex(index.value, HasFlag(h.flags, HAS_STATS));
    if groups.Err? {
      return Err(groups.error);
    }
    ContainerReopens(io.bytes);
    var liveEnd := EndOfLive(h, groups.value);
    ok := io.Seek(liveEnd);
    if !ok {
      return Err(IO);
    }
    r := Ok(Reopened(h, index.value, groups.value, liveEnd));
  }

  /** Opens a container to append columns; schema is the serialized replacement schema, empty for none. */
  method OpenWiden(io: Io, hooked: bool, schema: seq<byte>) returns (r: Result<Encoder>)
    requires Sound(io.bytes) && (schema == [] || SchemaReadable(schema))
    modifies io`cursor, io`crash, io`headerWrites, io`faults
    ensures r.Ok? ==> Container(io.bytes) && schema != [] && Opened(r.value, io, Widen, schema)
    ensures r.Ok? ==> fresh(r.value) && r.value.io == io
    ensures io.crash == iset{io.bytes}
    ensures r.Err? ==> r.error == IO || ReopenCheck(io.bytes) == Err(r.error)
                       || (r.error == Invalid && (schema == [] || |schema| >= U32_LIMIT))
    ensures r.Ok? ==> |schema| < U32_LIMIT
    ensures io.faults >= old(io.faults) + Blame(r.Ok? || r.error != IO || FarIndex(io.bytes))
  {
    hide Container, ReopenCheck, SchemaReadable, Sound, LiveOf, IndexOf, ParseHeader, Read, Encoder.Valid;
    io.Mark();
    if schema == [] {
      return Err(Invalid);
    }
    var found := Reopen(io);
    if found.Err? {
      return Err(found.error);
    }
    if |schema| >= U32_LIMIT {
      return Err(Invalid);
    }
    var f := found.value;
    ContainerOk(io.bytes);
    var enc := new Encoder.Found(io, Widen, hooked, f.h, f.index, f.groups, f.liveEnd, schema, |schema|, 0,
                                 Read(io.bytes).value);
    r := Ok(enc);
  }

  lemma ContainerOk(b: seq<byte>)
    requires Container(b)
    ensures Read(b).Ok? && |b| >= HEADER_SIZE && HeaderFits(ParseHeader(b))
  {
  }

  /** A fresh pass over the container found in the file. */
  ghost predicate Opened(enc: Encoder, io: Io, mode: Mode, schema: seq<byte>)
    requires Container(io.bytes)
    reads enc, enc.io, io
  {
    && enc.Valid() && enc.io == io && enc.mode == mode && enc.base == io.bytes && enc.moves == 0 && enc.counted
    && enc.entries == Entries(Read(io.bytes).value.groups, [], 0, None, HasFlag(ParseHeader(io.bytes).flags, HAS_STATS))
    && enc.records == Records(Read(io.bytes).value.blocks, []) && enc.nBlocks == ParseHeader(io.bytes).nBlocks
    && enc.schemaBuf == schema && enc.origHdr == ParseHeader(io.bytes)
    && enc.writePos == enc.reuseStart == LiveOf(io.bytes) && (mode == Widen ==> enc.schemaNCols == 0)
  }

  /** How many columns the schema section declares, read from the file. */
  method ReadSchemaColumns(io: Io, offset: nat, size: nat) returns (r: Result<nat>)
    modifies io`cursor, io`faults
    ensures r.Ok? ==> 0 < r.value < U16_LIMIT && offset + size <= |io.bytes|
                      && SchemaColumns(io.bytes[offset..offset + size]) == Ok(r.value)
    ensures r.Err? ==> r.error == IO || r.error == Corrupt
    ensures r == Err(Corrupt) && offset + size <= |io.bytes| ==>
              SchemaColumns(io.bytes[offset..offset + size]) in {Err(Corrupt), Ok(0)}
    ensures io.faults >= old(io.faults) + Blame(r != Err(IO) || offset > MAX_OFFSET)
  {
    var ok := io.Seek(offset);
    if !ok {
      return Err(IO);
    }
    var buf := io.Read(size);
    if buf.Err? {
      return Err(buf.error);
    }
    var cols := SchemaColumns(buf.value);
    if cols.Err? {
      return Err(cols.error);
    }
    if cols.value == 0 {
      return Err(Corrupt);
    }
    LEBelow(buf.value[0..2]);
    r := Ok(cols.value);
  }

  /** Opens a container to append row groups of the columns its schema declares. */
  method OpenExtend(io: Io, hooked: bool) returns (r: Result<Encoder>)
    requires Sound(io.bytes)
    modifies io`cursor, io`crash, io`headerWrites, io`faults
    ensures r.Ok? ==> Container(io.bytes) && Opened(r.value, io, Extend, [])
    ensures r.Ok? ==> fresh(r.value) && r.value.io == io
    ensures r.Ok? ==> SchemaColumns(Read(io.bytes).value.schema) == Ok(r.value.schemaNCols)
    ensures io.crash == iset{io.bytes}
    ensures r.Err? ==> r.error == IO || ReopenCheck(io.bytes) == Err(r.error)
                       || (r.error == Invalid && |io.bytes| >= HEADER_SIZE && ParseHeader(io.bytes).schemaSize == 0)
                       || (r.error == Corrupt && Container(io.bytes)
                           && SchemaColumns(Read(io.bytes).value.schema) in {Err(Corrupt), Ok(0)})
    ensures r.Ok? ==> ParseHeader(io.bytes).schemaSize > 0
    ensures io.faults >= old(io.faults) + Blame(r.Ok? || r.error != IO || FarIndex(io.bytes))
  {
    hide Container, ReopenCheck, Sound, LiveOf, IndexOf, ParseHeader, Read, SchemaColumns, SchemaOffset,
      Encoder.Valid, HeaderFits, HasFlag;
    io.Mark();
    var found := Reopen(io);
    if found.Err? {
      return Err(found.error);
    }
    var f := found.value;
    ContainerOk(io.bytes);
    if f.h.schemaSize == 0 {
      return Err(Invalid);
    }
    SchemaFound(io.bytes);
    var cols := ReadSchemaColumns(io, SchemaOffset(f.h), f.h.schemaSize);
    if cols.Err? {
      return Err(cols.error);
    }
    var ok := io.Seek(f.liveEnd);
    if !ok {
      return Err(IO);
    }
    var enc := new Encoder.Found(io, Extend, hooked, f.h, f.index, f.groups, f.liveEnd, [], f.h.schemaSize, cols.value,
                                 Read(io.bytes).value);
    r := Ok(enc);
  }

  lemma SchemaFound(b: seq<byte>)
    requires Container(b) && ParseHeader(b).schemaSize > 0
    ensures var h := ParseHeader(b);
            SchemaOffset(h) + h.schemaSize <= |b| && SchemaOffset(h) <= h.indexOffset
              && Read(b).value.schema == b[SchemaOffset(h)..SchemaOffset(h) + h.schemaSize]
  {
  }

  /** Starts a container in an empty file: the header, naming no index yet, and the schema if there is one. */
  method OpenCreate(io: Io, flags: nat, shape: Shape, schema: seq<byte>) returns (r: Result<Encoder>)
    requires io.bytes == [] && io.cursor == 0 && flags < U16_LIMIT && ShapeFits(shape)
    requires schema == [] || SchemaReadable(schema)
    modifies io
    ensures r.Ok? ==> fresh(r.value) && r.value.Valid() && r.value.io == io && r.value.mode == Create && r.value.counted
    ensures r.Ok? ==> r.value.entries == Entries([], [], 0, None, false) && r.value.records == Records([], [])
    ensures r.Ok? ==> r.value.schemaBuf == schema && r.value.flags == flags && r.value.nBlocks == 0
    ensures r.Ok? ==> r.value.writePos == HEADER_SIZE + |schema| && |schema| < U32_LIMIT && r.value.schemaNCols == 0
    ensures r.Err? ==> Early(io.bytes) && forall img {:trigger img in io.crash} :: img in io.crash ==> Early(img)
    ensures r.Err? ==> r.error == IO || (r.error == Invalid && |schema| >= U32_LIMIT)
    ensures io.faults >= old(io.faults) + Blame(r.Ok? || |schema| >= U32_LIMIT)
  {
    hide SchemaReadable, HeaderBytes, NewHeader, ParseHeader, HeaderFits;
    io.Mark();
    if |schema| >= U32_LIMIT {
      return Err(Invalid);
    }
    var h := NewHeader(flags, shape, false, |schema|, 0, 0, 0, 0, 0);
    FirstHeader(flags, shape, |schema|);
    var ok := io.Write(HeaderBytes(h));
    if !ok {
      return Err(IO);
    }
    ghost var begun := io.bytes;
    if schema != [] {
      ok := io.Write(schema);
      EarlyStays(begun, HEADER_SIZE, schema, io.bytes);
      if !ok {
        return Err(IO);
      }
    }
    assert io.bytes[HEADER_SIZE..] == schema;
    var enc := new Encoder.Fresh(io, flags, shape, schema);
    r := Ok(enc);
  }

  /** The first header write: before it the file is empty, after it the header names no index. */
  lemma FirstHeader(flags: nat, shape: Shape, schemaSize: nat)
    requires flags < U16_LIMIT && ShapeFits(shape) && schemaSize < U32_LIMIT
    ensures var h := NewHeader(flags, shape, false, schemaSize, 0, 0, 0, 0, 0);
            && Written([], 0, HeaderBytes(h)) == HeaderBytes(h) && Early(HeaderBytes(h))
            && forall img {:trigger Torn([], 0, HeaderBytes(h), img)} :: Torn([], 0, HeaderBytes(h), img) ==> Early(img)
  {
    var h := NewHeader(flags, shape, false, schemaSize, 0, 0, 0, 0, 0);
    NewHeaderFacts(flags, shape, false, schemaSize, 0, 0, 0, 0, 0);
    HeaderRoundTrip(h, []);
    assert HeaderBytes(h) + [] == HeaderBytes(h);
    assert Written([], 0, HeaderBytes(h)) == HeaderBytes(h);
  }

  /** The schema a pass by row groups keeps is still where it was. */
  lemma KeptSchema(base: seq<byte>, f: seq<byte>, named: nat)
    requires Container(base) && Intact(base, f, named) && ParseHeader(base).schemaSize > 0
    ensures SchemaAt(f, Read(base).value.schema, SchemaOffset(ParseHeader(base)))
    ensures |Read(base).value.schema| == ParseHeader(base).schemaSize
  {
    var h := ParseHeader(base);
    AgreeSlice(base, f, HEADER_SIZE, LiveOf(base), SchemaOffset(h), h.schemaSize);
  }

  lemma FoundHeader(base: seq<byte>)
    requires Container(base)
    ensures var h := ParseHeader(base);
            && HeaderFits(h) && HasFlag(h.flags, HETEROGENEOUS) && 0 < BlocksStart(h) < U64_LIMIT
            && HEADER_SIZE <= SchemaOffset(h) < U64_LIMIT
  {
  }

  /** The finished file of a grown container: its last header over the tail just written. */
  lemma GrownFinal(base: seq<byte>, f: seq<byte>, named: nat, pos: nat, e: Entries, r: Records, widen: bool,
                   schema: seq<byte>, schemaOffset: nat, nBlocks: nat, indexOffset: nat, shape: Shape)
    requires Container(base) && Intact(base, f, named) && pos <= MAX_OFFSET && ShapeFits(shape) && nBlocks < U64_LIMIT
    requires Describes(f, pos, e, r, FixedEnd(ParseHeader(base)), HasFlag(ParseHeader(base).flags, HAS_STATS))
    requires AllColumned(e.groups) && EndOf(e, FixedEnd(ParseHeader(base))) == pos
    requires indexOffset <= MAX_OFFSET && IndexAt(f, e, indexOffset)
    requires widen ==> schema != [] && |schema| < U32_LIMIT && schemaOffset == pos && indexOffset == pos + |schema|
                       && SchemaAt(f, schema, pos)
    requires !widen ==> schema == Read(base).value.schema && ParseHeader(base).schemaSize > 0 && indexOffset == pos
                        && schemaOffset == SchemaOffset(ParseHeader(base))
    ensures var h0 := ParseHeader(base);
            var h := FinalHeader(h0.flags, shape, e, |schema|, BlocksStart(h0), nBlocks, indexOffset, schemaOffset);
            var b := Written(f, 0, HeaderBytes(h));
            && Read(b) == Ok(View(schema, nBlocks, e.groups, r.groups)) && ParseHeader(b) == h
            && (e.groups == [] ==> h.indexOffset == 0)
            && (e.groups != [] ==> Container(b) && h.indexOffset == indexOffset && LiveOf(b) <= indexOffset
                                   && (widen || e.cols == [] ==> LiveOf(b) == indexOffset))
  {
    hide Read, ParseHeader, Intact, Describes, IndexAt, SchemaAt, HeaderBytes, Written, AllColumned, IndexBytes,
      LiveOf, NewHeader, FinalHeader, LiveEnd;
    var h0 := ParseHeader(base);
    var flagged := HasFlag(h0.flags, HAS_STATS);
    FoundHeader(base);
    if !widen { KeptSchema(base, f, named); }
    DescribesFacts(f, pos, e, r, FixedEnd(h0), flagged);
    FinalReads(f, pos, e, r, FixedEnd(h0), h0.flags, shape, schema, schemaOffset, BlocksStart(h0), nBlocks,
               indexOffset);
    FinalEnd(h0, e, shape, |schema|, nBlocks, indexOffset, schemaOffset);
  }

  /** Where the live data of the finished container ends. */
  lemma FinalEnd(h0: Header, e: Entries, shape: Shape, schemaSize: nat, nBlocks: nat, indexOffset: nat,
                 schemaOffset: nat)
    requires HeaderFits(h0) && HasFlag(h0.flags, HETEROGENEOUS) && schemaOffset > 0
    ensures var h := FinalHeader(h0.flags, shape, e, schemaSize, BlocksStart(h0), nBlocks, indexOffset, schemaOffset);
            && LiveEnd(h, e.groups) == Max(Max(schemaOffset + schemaSize, BlocksStart(h0)), GroupsEnd(e.groups))
            && h.indexOffset == (if e.groups != [] then indexOffset else 0)
  {
    WidenedCleared(h0.flags);
    var cleared := ClearFlag(h0.flags, WIDENED);
    WidenedSet(cleared);
    StatsSet(SetFlag(cleared, WIDENED));
  }

  lemma AgreePart(a: seq<byte>, b: seq<byte>, hi: nat, off: nat, n: nat)
    requires Agree(a, b, HEADER_SIZE, hi) && HEADER_SIZE <= off && off + n <= hi
    ensures off + n <= |b| && b[off..off + n] == a[off..off + n]
  {
    AgreeSlice(a, b, HEADER_SIZE, hi, off, n);
  }

  /** An extended group has the schema's columns, so its count is not cut short. */
  lemma EndColumned(e: Entries, nRows: nat)
    requires e.stats.Some? ==> |e.stats.value| == STATS_ENTRY * |e.cols|
    requires e.cols != []
    ensures AllColumned(e.groups) && |e.cols| < U16_LIMIT ==> AllColumned(Ended(e, nRows).groups)
  {
    var gs := Ended(e, nRows).groups;
    if AllColumned(e.groups) && |e.cols| < U16_LIMIT {
      forall i | 0 <= i < |gs| ensures gs[i].cols != [] {
        if i < |e.groups| { assert gs[i] == e.groups[i]; }
      }
    }
  }
}
