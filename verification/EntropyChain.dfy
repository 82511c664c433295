/**
 * A block's entropy chain (src/api/entropy_chain.c): up to four coders run one after another between two
 * scratch buffers, with a table of the stages' input sizes in front; and the side metadata section that
 * goes through it (src/api/encode.c, src/api/decode_impl.c).
 */
module EntropyChain {
  import opened Base
  import opened SidePack

  const MAX_ENTROPY: nat := 4

  /** One entropy coder; its decoder fills a buffer of the given size. */
  datatype Stage = Stage(encode: seq<byte> -> Result<seq<byte>>, decode: (seq<byte>, nat) -> Result<seq<byte>>)
  {
    /** These bytes, if they encode at all, come back. */
    predicate InvertsAt(s: seq<byte>)
    {
      encode(s).Ok? ==> decode(encode(s).value, |s|) == Ok(s)
    }

    ghost predicate Fills()
    {
      forall s, n :: decode(s, n).Ok? ==> |decode(s, n).value| == n
    }
  }

  /** The coders a chain's ids stand for; an id nothing is registered under has none. */
  type chain = seq<Option<Stage>>

  ghost predicate ChainFills(stages: chain)
  {
    forall i :: 0 <= i < |stages| && stages[i].Some? ==> stages[i].value.Fills()
  }

  /* ---- Meaning ----------------------------------------------------------- */

  /** The size of every stage's input, and what the last stage leaves. */
  datatype Coded = Coded(sizes: seq<nat>, bytes: seq<byte>)

  /** One more stage. */
  function CodeStep(stage: Option<Stage>, c: Coded): Result<Coded>
  {
    if |c.bytes| >= U32_LIMIT then Err(Invalid)
    else
      match stage
      case None => Err(Unsupported)
      case Some(s) =>
        match s.encode(c.bytes)
        case Err(e) => Err(e)
        case Ok(b) => Ok(Coded(c.sizes + [|c.bytes|], b))
  }

  function CodeAll(stages: chain, src: seq<byte>): (r: Result<Coded>)
    ensures r.Ok? ==> |r.value.sizes| == |stages|
  {
    if stages == [] then Ok(Coded([], src))
    else
      match CodeAll(stages[..|stages| - 1], src)
      case Err(e) => Err(e)
      case Ok(c) => CodeStep(stages[|stages| - 1], c)
  }

  /** The stages undone, last first. */
  function UncodeAll(stages: chain, sizes: seq<nat>, b: seq<byte>): Result<seq<byte>>
    requires |sizes| == |stages|
  {
    if stages == [] then Ok(b)
    else
      match stages[|stages| - 1]
      case None => Err(Unsupported)
      case Some(s) =>
        match s.decode(b, sizes[|stages| - 1])
        case Err(e) => Err(e)
        case Ok(d) => UncodeAll(stages[..|stages| - 1], sizes[..|stages| - 1], d)
  }

  /** Every stage inverts the bytes that reach it. */
  predicate Undone(stages: chain, src: seq<byte>)
  {
    if stages == [] then true
    else
      var front, last := stages[..|stages| - 1], stages[|stages| - 1];
      && Undone(front, src)
      && (CodeAll(front, src).Ok? && last.Some? ==> last.value.InvertsAt(CodeAll(front, src).value.bytes))
  }

  lemma {:induction false} UncodeUndoes(stages: chain, src: seq<byte>)
    requires Undone(stages, src) && CodeAll(stages, src).Ok?
    ensures var c := CodeAll(stages, src).value;
            && UncodeAll(stages, c.sizes, c.bytes) == Ok(src)
            && (stages != [] ==> c.sizes[0] == |src|)
            && forall i :: 0 <= i < |c.sizes| ==> c.sizes[i] < U32_LIMIT
  {
    if stages != [] {
      var front, last := stages[..|stages| - 1], stages[|stages| - 1];
      var c, c' := CodeAll(front, src).value, CodeAll(stages, src).value;
      UncodeUndoes(front, src);
      assert last.value.InvertsAt(c.bytes);
      assert c'.sizes[..|front|] == c.sizes;
      assert front == [] ==> c.bytes == src;
    }
  }

  /** The bytes a chain writes: the size table and the last stage's output, or src itself for no stages. */
  function Chained(stages: chain, src: seq<byte>): Result<seq<byte>>
  {
    if |stages| > MAX_ENTROPY then Err(Invalid)
    else
      match CodeAll(stages, src)
      case Err(e) => Err(e)
      case Ok(c) => Ok(U32s(c.sizes) + c.bytes)
  }

  function Sizes(payload: seq<byte>, n: nat): (v: seq<nat>)
    requires 4 * n <= |payload|
    ensures |v| == n
  {
    seq(n, i requires 0 <= i < n => U32At(payload, i))
  }

  function Unchained(stages: chain, payload: seq<byte>, outSize: nat): Result<seq<byte>>
  {
    if |stages| > MAX_ENTROPY then Err(Invalid)
    else if stages == [] then
      if |payload| == outSize then Ok(payload) else Err(Corrupt)
    else if |payload| < 4 * |stages| then Err(Corrupt)
    else
      var sizes := Sizes(payload, |stages|);
      if sizes[0] != outSize then Err(Corrupt)
      else UncodeAll(stages, sizes, payload[4 * |stages|..])
  }

  /** A chain is undone when each of its coders inverts the bytes that reach it. */
  lemma ChainRoundTrip(stages: chain, src: seq<byte>)
    requires Undone(stages, src) && Chained(stages, src).Ok?
    ensures Unchained(stages, Chained(stages, src).value, |src|) == Ok(src)
  {
    hide CodeAll, UncodeAll, U32At, LE, LEVal;
    UncodeUndoes(stages, src);
    var c := CodeAll(stages, src).value;
    var payload := U32s(c.sizes) + c.bytes;
    if stages == [] {
      NoStages(src);
      assert payload == src;
    } else {
      forall i | 0 <= i < |stages|
        ensures Sizes(payload, |stages|)[i] == c.sizes[i]
      {
        U32sAt(c.sizes, c.bytes, i);
      }
      assert Sizes(payload, |stages|) == c.sizes && payload[4 * |stages|..] == c.bytes;
    }
  }

  lemma NoStages(src: seq<byte>)
    ensures CodeAll([], src) == Ok(Coded([], src)) && U32s([]) + src == src
  {
  }

  /* ---- The two scratch buffers ------------------------------------------- */

  /** Where a stage reads from: the caller's bytes, or one of the two buffers. */
  datatype Source = Caller(bytes: seq<byte>) | Slot(i: nat)

  predicate SourceOk(bufs: array<seq<byte>>, from: Source)
  {
    bufs.Length == 2 && (from.Slot? ==> from.i < 2)
  }

  function View(bufs: array<seq<byte>>, from: Source): seq<byte>
    requires SourceOk(bufs, from)
    reads bufs
  {
    match from
    case Caller(b) => b
    case Slot(i) => bufs[i]
  }

  /** A coder writes its target while it reads its source, so the two must not be one buffer. */
  method EncodeInto(stage: Stage, bufs: array<seq<byte>>, from: Source, to: nat) returns (st: Result<()>)
    requires SourceOk(bufs, from) && to < 2 && from != Slot(to)
    modifies bufs
    ensures bufs[1 - to] == old(bufs[1 - to])
    ensures match old(stage.encode(View(bufs, from)))
            case Err(e) => st == Err(e)
            case Ok(b) => st == Ok(()) && bufs[to] == b
  {
    bufs[to] := [];
    match stage.encode(View(bufs, from)) {
      case Err(e) =>
        return Err(e);
      case Ok(b) =>
        bufs[to] := b;
        return Ok(());
    }
  }

  method DecodeInto(stage: Stage, bufs: array<seq<byte>>, from: Source, to: nat, size: nat) returns (st: Result<()>)
    requires SourceOk(bufs, from) && to < 2 && from != Slot(to) && stage.Fills()
    modifies bufs
    ensures bufs[1 - to] == old(bufs[1 - to])
    ensures match old(stage.decode(View(bufs, from), size))
            case Err(e) => st == Err(e)
            case Ok(b) => st == Ok(()) && bufs[to] == b && |b| == size
  {
    bufs[to] := [];
    match stage.decode(View(bufs, from), size) {
      case Err(e) =>
        return Err(e);
      case Ok(b) =>
        bufs[to] := b;
        return Ok(());
    }
  }

  /** driver_entropy_chain_encode. */
  method Encode(stages: chain, src: seq<byte>) returns (r: Result<seq<byte>>)
    ensures r == Chained(stages, src)
  {
    hide CodeAll, U32s;
    if |stages| > MAX_ENTROPY {
      return Err(Invalid);
    }
    NoStages(src);
    if |stages| == 0 {
      return Ok(src);
    }
    var bufs := new seq<byte>[2](_ => []);
    var cur := 0;
    var from := Caller(src);
    var sizes: seq<nat> := [];
    assert stages[..0] == [];
    for i := 0 to |stages|
      invariant cur < 2 && SourceOk(bufs, from) && from != Slot(cur) && |sizes| == i
      invariant CodeAll(stages[..i], src) == Ok(Coded(sizes, View(bufs, from)))
    {
      CodeNext(stages, src, i);
      var size := |View(bufs, from)|;
      if size >= U32_LIMIT {
        CodeFails(stages, src, i + 1);
        return Err(Invalid);
      }
      if stages[i].None? {
        CodeFails(stages, src, i + 1);
        return Err(Unsupported);
      }
      var st := EncodeInto(stages[i].value, bufs, from, cur);
      if st.Err? {
        CodeFails(stages, src, i + 1);
        return Err(st.error);
      }
      sizes := sizes + [size];
      from := Slot(cur);
      cur := 1 - cur;
    }
    assert stages[..|stages|] == stages;
    var last := View(bufs, from);
    assert CodeAll(stages, src) == Ok(Coded(sizes, last));
    var out := [];
    ConcatEmpty(U32s(sizes));
    assert sizes[..0] == [];
    for i := 0 to |sizes|
      invariant out == U32s(sizes[..i])
    {
      assert sizes[..i + 1] == sizes[..i] + [sizes[i]];
      U32sAppend(sizes[..i], sizes[i]);
      out := out + LE(sizes[i], 4);
    }
    assert sizes[..|sizes|] == sizes;
    return Ok(out + last);
  }

  lemma CodeNext(stages: chain, src: seq<byte>, i: nat)
    requires i < |stages| && CodeAll(stages[..i], src).Ok?
    ensures CodeAll(stages[..i + 1], src) == CodeStep(stages[i], CodeAll(stages[..i], src).value)
  {
    assert stages[..i + 1][..i] == stages[..i];
  }

  /** A stage that fails fails the chain. */
  lemma {:induction false} CodeFails(stages: chain, src: seq<byte>, n: nat)
    requires n <= |stages| && CodeAll(stages[..n], src).Err?
    ensures CodeAll(stages, src) == CodeAll(stages[..n], src)
    decreases |stages|
  {
    if n == |stages| {
      assert stages[..n] == stages;
    } else {
      var front := stages[..|stages| - 1];
      assert front[..n] == stages[..n];
      CodeFails(front, src, n);
    }
  }

  /** driver_entropy_chain_decode: the bytes end up in buffer number last. */
  method Decode(stages: chain, payload: seq<byte>, outSize: nat, bufs: array<seq<byte>>, cur: nat)
    returns (st: Result<()>, last: nat)
    requires bufs.Length == 2 && cur < 2 && ChainFills(stages)
    modifies bufs
    ensures last < 2
    ensures match Unchained(stages, payload, outSize)
            case Err(e) => st == Err(e)
            case Ok(b) => st == Ok(()) && bufs[last] == b
  {
    hide UncodeAll, U32At;
    last := cur;
    if |stages| > MAX_ENTROPY {
      return Err(Invalid), last;
    }
    if |stages| == 0 {
      if |payload| != outSize {
        return Err(Corrupt), last;
      }
      bufs[last] := payload;
      return Ok(()), last;
    }
    if |payload| < 4 * |stages| {
      return Err(Corrupt), last;
    }
    var sizes := Sizes(payload, |stages|);
    if sizes[0] != outSize {
      return Err(Corrupt), last;
    }
    var from := Caller(payload[4 * |stages|..]);
    assert stages[..|stages|] == stages && sizes[..|stages|] == sizes;
    for i := |stages| downto 0
      invariant last < 2 && SourceOk(bufs, from) && from != Slot(1 - last)
      invariant i < |stages| ==> from == Slot(last) && |bufs[last]| == sizes[i]
      invariant UncodeAll(stages[..i], sizes[..i], View(bufs, from))
             == UncodeAll(stages, sizes, payload[4 * |stages|..])
    {
      UncodeNext(stages, sizes, i, View(bufs, from));
      if stages[i].None? {
        return Err(Unsupported), last;
      }
      var next := 1 - last;
      st := DecodeInto(stages[i].value, bufs, from, next, sizes[i]);
      if st.Err? {
        return;
      }
      from := Slot(next);
      last := next;
    }
    UncodeDone(View(bufs, from));
    assert stages[..0] == [] && sizes[..0] == [];
    if |bufs[last]| != outSize {
      return Err(Corrupt), last;
    }
    return Ok(()), last;
  }

  lemma UncodeNext(stages: chain, sizes: seq<nat>, i: nat, b: seq<byte>)
    requires i < |stages| == |sizes|
    ensures UncodeAll(stages[..i + 1], sizes[..i + 1], b) ==
            match stages[i]
            case None => Err(Unsupported)
            case Some(s) =>
              match s.decode(b, sizes[i])
              case Err(e) => Err(e)
              case Ok(d) => UncodeAll(stages[..i], sizes[..i], d)
  {
    assert stages[..i + 1][..i] == stages[..i] && sizes[..i + 1][..i] == sizes[..i];
  }

  lemma UncodeDone(b: seq<byte>)
    ensures UncodeAll([], [], b) == Ok(b)
  {
  }

  /* ---- The side metadata section ----------------------------------------- */

  /** The bytes of side metadata that go through the chain. */
  function ChainInput(packs: bool, meta: seq<byte>): Result<seq<byte>>
  {
    if packs then PackedBytes(meta) else Ok(meta)
  }

  /** What the section of a block holds; packs says that the block's model has a packed form. */
  function Section(stages: chain, packs: bool, meta: seq<byte>): Result<seq<byte>>
  {
    if meta == [] then Ok([])
    else
      match ChainInput(packs, meta)
      case Err(e) => Err(e)
      case Ok(m) =>
        if |m| >= U32_LIMIT then Err(Invalid)
        else
          match Chained(stages, m)
          case Err(e) => Err(e)
          case Ok(b) => Ok(LE(|m|, 4) + b)
  }

  /** Reading a section; a legacy record stores the form in memory as it is. */
  function ReadSection(stages: chain, packs: bool, legacy: bool, section: seq<byte>): Result<seq<byte>>
  {
    if section == [] || legacy then Ok(section)
    else if |section| < 4 then Err(Corrupt)
    else
      match Unchained(stages, section[4..], U32At(section, 0))
      case Err(e) => Err(e)
      case Ok(m) => if packs then UnpackedBytes(m) else Ok(m)
  }

  /** The section of a block gives back its side metadata, when each coder inverts the bytes that reach it. */
  lemma SectionRoundTrip(stages: chain, packs: bool, meta: seq<byte>)
    requires Section(stages, packs, meta).Ok?
    requires meta != [] ==> Undone(stages, ChainInput(packs, meta).value)
    ensures ReadSection(stages, packs, false, Section(stages, packs, meta).value) == Ok(meta)
  {
    hide Chained, Unchained, PackedBytes, UnpackedBytes, LE, LEVal;
    if meta != [] {
      var m := if packs then PackedBytes(meta).value else meta;
      var section := Section(stages, packs, meta).value;
      var b := Chained(stages, m).value;
      ChainRoundTrip(stages, m);
      LEFieldRoundTrip(|m|, 4);
      assert section[0..4] == LE(|m|, 4) && section[4..] == b;
      if packs {
        PackRoundTrip(meta);
      }
    }
  }

  /**
   * A legacy record holds the form in memory: through any chain and for any model it is loaded as it is, and
   * if it is a dictionary's, reads as that dictionary.
   */
  lemma LegacyRoundTrip(stages: chain, packs: bool, meta: seq<byte>, d: Dict)
    ensures ReadSection(stages, packs, true, meta) == Ok(meta)
    ensures DictOk(d) && meta == Memory(d) ==> ReadMemory(ReadSection(stages, packs, true, meta).value) == Some(d)
  {
    if DictOk(d) {
      MemoryReads(d);
    }
  }

  /** Only the recorded size comes out of a chain. */
  lemma {:induction false} UncodeFills(stages: chain, sizes: seq<nat>, b: seq<byte>)
    requires ChainFills(stages) && |sizes| == |stages| > 0
    ensures UncodeAll(stages, sizes, b).Ok? ==> |UncodeAll(stages, sizes, b).value| == sizes[0]
  {
    var n := |stages| - 1;
    var last := stages[n];
    if last.Some? && last.value.decode(b, sizes[n]).Ok? {
      assert last.value.Fills();
      if n == 0 {
        UncodeDone(last.value.decode(b, sizes[n]).value);
        assert stages[..n] == [] && sizes[..n] == [];
      } else {
        UncodeFills(stages[..n], sizes[..n], last.value.decode(b, sizes[n]).value);
      }
    }
  }

  /** On any payload a chain gives exactly the size asked for, or nothing. */
  lemma UnchainedFills(stages: chain, payload: seq<byte>, outSize: nat)
    requires ChainFills(stages)
    ensures Unchained(stages, payload, outSize).Ok? ==> |Unchained(stages, payload, outSize).value| == outSize
  {
    if 0 < |stages| <= MAX_ENTROPY && |payload| >= 4 * |stages| {
      UncodeFills(stages, Sizes(payload, |stages|), payload[4 * |stages|..]);
    }
  }

  method WriteSection(stages: chain, packs: bool, meta: seq<byte>) returns (r: Result<seq<byte>>)
    ensures r == Section(stages, packs, meta)
  {
    hide Chained, PackedBytes;
    if |meta| == 0 {
      return Ok([]);
    }
    var m := meta;
    if packs {
      var p := Pack(meta);
      if p.Err? {
        return p;
      }
      m := p.value;
    }
    if |m| >= U32_LIMIT {
      return Err(Invalid);
    }
    var b := Encode(stages, m);
    if b.Err? {
      return b;
    }
    return Ok(LE(|m|, 4) + b.value);
  }

  method LoadSection(stages: chain, packs: bool, legacy: bool, section: seq<byte>) returns (r: Result<seq<byte>>)
    requires ChainFills(stages)
    ensures r == ReadSection(stages, packs, legacy, section)
    ensures legacy || section == [] ==> r == Ok(section)
    ensures !legacy && 0 < |section| < 4 ==> r == Err(Corrupt)
    ensures !legacy && |section| >= 4 && !packs && r.Ok? ==> |r.value| == U32At(section, 0)
    ensures !legacy && section != [] && packs && r.Ok? ==> exists d :: DictOk(d) && r.value == Memory(d)
  {
    hide Unchained, UnpackedBytes, DictOk, Memory;
    if |section| == 0 || legacy {
      return Ok(section);
    }
    if |section| < 4 {
      return Err(Corrupt);
    }
    var bufs := new seq<byte>[2](_ => []);
    var st, last := Decode(stages, section[4..], U32At(section, 0), bufs, 0);
    if st.Err? {
      return Err(st.error);
    }
    UnchainedFills(stages, section[4..], U32At(section, 0));
    if packs {
      r := Unpack(bufs[last]);
      UnpackedIsMemory(bufs[last]);
    } else {
      r := Ok(bufs[last]);
    }
  }
}
