/**
 * The push/pull encoder (src/api/pushpull_encode.c). Its meaning is given one byte at a time; the class
 * moves whole chunks, queues records and trims the queue as they are pulled.
 */
module PushPullEncode {
  import opened Base
  import opened PushPullRecord

  datatype Config = Config(codec: Codec, elemSize: nat, targetElems: nat)
  {
    predicate Valid()
    {
      elemSize > 0 && targetElems > 0 && targetElems * elemSize < 0x8000_0000_0000_0000
    }

    function Target(): (n: nat)
      requires Valid()
      ensures n > 0
    {
      MulMonotone(1, targetElems, elemSize);
      targetElems * elemSize
    }
  }

  /* ---- Byte by byte ------------------------------------------------------ */

  /** Element bytes not yet in a block, and the blocks emitted. */
  datatype Flow = Flow(pending: seq<byte>, blocks: seq<seq<byte>>)

  /** Emit the pending bytes as one block; a block that does not encode stays pending. */
  function Sealed(codec: Codec, f: Flow): Flow
  {
    if f.pending == [] || codec.encode(f.pending).Err? then f
    else Flow([], f.blocks + [f.pending])
  }

  /** A full block that does not encode blocks the stream. */
  predicate Stuck(cfg: Config, f: Flow)
    requires cfg.Valid()
  {
    |f.pending| == cfg.Target()
  }

  function FeedByte(cfg: Config, f: Flow, b: byte): Flow
    requires cfg.Valid()
  {
    if Stuck(cfg, f) then f
    else
      var g := f.(pending := f.pending + [b]);
      if Stuck(cfg, g) then Sealed(cfg.codec, g) else g
  }

  function Feed(cfg: Config, f: Flow, data: seq<byte>): Flow
    requires cfg.Valid()
  {
    if data == [] then f
    else FeedByte(cfg, Feed(cfg, f, data[..|data| - 1]), data[|data| - 1])
  }

  /** Feeding in two pieces is feeding at once. */
  lemma {:induction false} FeedSplit(cfg: Config, f: Flow, a: seq<byte>, b: seq<byte>)
    requires cfg.Valid()
    ensures Feed(cfg, f, a + b) == Feed(cfg, Feed(cfg, f, a), b)
  {
    if b == [] {
      ConcatEmpty(a);
    } else {
      FrontOfConcat(a, b);
      FeedSplit(cfg, f, a, b[..|b| - 1]);
    }
  }

  lemma {:induction false} FeedStuck(cfg: Config, f: Flow, data: seq<byte>)
    requires cfg.Valid() && Stuck(cfg, f)
    ensures Feed(cfg, f, data) == f
  {
    if data != [] {
      FeedStuck(cfg, f, data[..|data| - 1]);
    }
  }

  lemma {:induction false} FeedBelow(cfg: Config, f: Flow, data: seq<byte>)
    requires cfg.Valid() && |f.pending| + |data| < cfg.Target()
    ensures Feed(cfg, f, data) == f.(pending := f.pending + data)
  {
    if data == [] {
      ConcatEmpty(f.pending);
    } else {
      FeedBelow(cfg, f, data[..|data| - 1]);
      ConcatAssociative(f.pending, data[..|data| - 1], [data[|data| - 1]]);
      assert data == data[..|data| - 1] + [data[|data| - 1]];
    }
  }

  /** A chunk that stays within the block is one copy, and one block if it fills it. */
  lemma FeedChunk(cfg: Config, f: Flow, data: seq<byte>)
    requires cfg.Valid() && data != [] && |f.pending| + |data| <= cfg.Target()
    ensures var g := f.(pending := f.pending + data);
            Feed(cfg, f, data) == if Stuck(cfg, g) then Sealed(cfg.codec, g) else g
  {
    if |f.pending| + |data| < cfg.Target() {
      FeedBelow(cfg, f, data);
    } else {
      FeedBelow(cfg, f, data[..|data| - 1]);
      ConcatAssociative(f.pending, data[..|data| - 1], [data[|data| - 1]]);
      assert data == data[..|data| - 1] + [data[|data| - 1]];
    }
  }

  /* ---- Fixed-size blocks ------------------------------------------------- */

  /** data cut into pieces of n bytes, without the shorter rest. */
  function Cut(data: seq<byte>, n: nat): (c: seq<seq<byte>>)
    requires n > 0
    ensures forall i :: 0 <= i < |c| ==> |c[i]| == n
  {
    if |data| < n then [] else [data[..n]] + Cut(data[n..], n)
  }

  function Rest(data: seq<byte>, n: nat): (r: seq<byte>)
    requires n > 0
    ensures |r| < n
  {
    if |data| < n then data else Rest(data[n..], n)
  }

  /** Once a block failed to encode, the stream stays stuck. */
  lemma StuckBefore(cfg: Config, f: Flow, data: seq<byte>)
    requires cfg.Valid() && data != [] && !Stuck(cfg, Feed(cfg, f, data))
    ensures !Stuck(cfg, Feed(cfg, f, data[..|data| - 1]))
  {
  }

  /** When no block of a segment failed, it became its fixed-size pieces and its rest stays pending. */
  lemma {:induction false} FeedCuts(cfg: Config, blocks: seq<seq<byte>>, data: seq<byte>)
    requires cfg.Valid() && !Stuck(cfg, Feed(cfg, Flow([], blocks), data))
    ensures Feed(cfg, Flow([], blocks), data) == Flow(Rest(data, cfg.Target()), blocks + Cut(data, cfg.Target()))
  {
    var n := cfg.Target();
    if data == [] {
      ConcatEmpty(blocks);
    } else {
      hide Cut, Rest;
      var front, b := data[..|data| - 1], data[|data| - 1];
      StuckBefore(cfg, Flow([], blocks), data);
      FeedCuts(cfg, blocks, front);
      CutStep(front, b, n);
      assert data == front + [b];
      ConcatAssociative(blocks, Cut(front, n), [Rest(front, n) + [b]]);
    }
  }

  lemma {:induction false} CutStep(front: seq<byte>, b: byte, n: nat)
    requires n > 0
    ensures var piece := Rest(front, n) + [b];
            if |piece| == n then Cut(front + [b], n) == Cut(front, n) + [piece] && Rest(front + [b], n) == []
            else Cut(front + [b], n) == Cut(front, n) && Rest(front + [b], n) == piece
  {
    var data := front + [b];
    if |front| >= n {
      CutStep(front[n..], b, n);
      assert data[n..] == front[n..] + [b] && data[..n] == front[..n];
      ConcatAssociative([front[..n]], Cut(front[n..], n), [Rest(front[n..], n) + [b]]);
    } else if |data| == n {
      assert data[..n] == data && data[n..] == [];
    }
  }

  /* ---- Runs of calls ----------------------------------------------------- */

  datatype Call = Push(data: seq<byte>) | Pull(cap: nat) | Flush | Finish

  datatype State = State(flow: Flow, finished: bool)

  const OPENED: State := State(Flow([], []), false)

  function Step(cfg: Config, s: State, call: Call): State
    requires cfg.Valid()
  {
    match call
    case Push(data) =>
      if s.finished || |data| % cfg.elemSize != 0 then s else s.(flow := Feed(cfg, s.flow, data))
    case Pull(_) => s
    case Flush => s.(flow := Sealed(cfg.codec, s.flow))
    case Finish =>
      var f := Sealed(cfg.codec, s.flow);
      if f.pending == [] then State(f, true) else s
  }

  function Run(cfg: Config, s: State, calls: seq<Call>): State
    requires cfg.Valid()
  {
    if calls == [] then s
    else Step(cfg, Run(cfg, s, calls[..|calls| - 1]), calls[|calls| - 1])
  }

  /** A run with its pulls dropped, and the pushes between two flushes put together. */
  function Merged(elemSize: nat, calls: seq<Call>): seq<Call>
    requires elemSize > 0
  {
    if calls == [] then []
    else
      var m := Merged(elemSize, calls[..|calls| - 1]);
      match calls[|calls| - 1]
      case Push(data) =>
        if data == [] || |data| % elemSize != 0 then m
        else if m != [] && m[|m| - 1].Push? then m[..|m| - 1] + [Push(m[|m| - 1].data + data)]
        else m + [Push(data)]
      case Pull(_) => m
      case Flush => m + [Flush]
      case Finish => m + [Finish]
  }

  lemma RunAppend(cfg: Config, s: State, calls: seq<Call>, call: Call)
    requires cfg.Valid()
    ensures Run(cfg, s, calls + [call]) == Step(cfg, Run(cfg, s, calls), call)
  {
    assert (calls + [call])[..|calls|] == calls;
  }

  lemma AlignedSum(a: nat, b: nat, n: nat)
    requires n > 0 && a % n == 0 && b % n == 0
    ensures (a + b) % n == 0
  {
    assert a + b == (a / n) * n + (b / n) * n;
    MulDistribute(a / n, b / n, n);
    DivModUnique(a / n + b / n, n, 0);
  }

  lemma {:induction false} MergedAligned(elemSize: nat, calls: seq<Call>)
    requires elemSize > 0
    ensures var m := Merged(elemSize, calls);
            m != [] && m[|m| - 1].Push? ==> |m[|m| - 1].data| % elemSize == 0
  {
    if calls != [] {
      var m, last := Merged(elemSize, calls[..|calls| - 1]), calls[|calls| - 1];
      MergedAligned(elemSize, calls[..|calls| - 1]);
      if last.Push? && last.data != [] && |last.data| % elemSize == 0 && m != [] && m[|m| - 1].Push? {
        AlignedSum(|m[|m| - 1].data|, |last.data|, elemSize);
      }
    }
  }

  /** Merging keeps the meaning of a run. */
  lemma {:induction false} MergedRuns(cfg: Config, s: State, calls: seq<Call>)
    requires cfg.Valid()
    ensures Run(cfg, s, Merged(cfg.elemSize, calls)) == Run(cfg, s, calls)
  {
    if calls != [] {
      var front, last := calls[..|calls| - 1], calls[|calls| - 1];
      var m := Merged(cfg.elemSize, front);
      MergedRuns(cfg, s, front);
      if last.Push? && last.data != [] && |last.data| % cfg.elemSize == 0 {
        if m != [] && m[|m| - 1].Push? {
          MergedAligned(cfg.elemSize, front);
          PushTwice(cfg, Run(cfg, s, m[..|m| - 1]), m[|m| - 1].data, last.data);
          RunAppend(cfg, s, m[..|m| - 1], Push(m[|m| - 1].data + last.data));
        } else {
          RunAppend(cfg, s, m, last);
        }
      } else if last.Flush? || last.Finish? {
        RunAppend(cfg, s, m, last);
      }
    }
  }

  lemma PushTwice(cfg: Config, s: State, a: seq<byte>, b: seq<byte>)
    requires cfg.Valid() && |a| % cfg.elemSize == 0 && |b| % cfg.elemSize == 0
    ensures Step(cfg, Step(cfg, s, Push(a)), Push(b)) == Step(cfg, s, Push(a + b))
  {
    AlignedSum(|a|, |b|, cfg.elemSize);
    FeedSplit(cfg, s.flow, a, b);
  }

  /** How the pushes are split and when output is pulled does not matter, only the flush points do. */
  lemma ChunkingIrrelevant(cfg: Config, s: State, a: seq<Call>, b: seq<Call>)
    requires cfg.Valid() && Merged(cfg.elemSize, a) == Merged(cfg.elemSize, b)
    ensures Run(cfg, s, a) == Run(cfg, s, b)
  {
    MergedRuns(cfg, s, a);
    MergedRuns(cfg, s, b);
  }

  /* ---- Nothing is lost --------------------------------------------------- */

  /** The bytes a run accepts: the aligned pushes before the first finish. */
  function Accepted(elemSize: nat, calls: seq<Call>): seq<byte>
    requires elemSize > 0
  {
    if calls == [] then []
    else
      var front, last := calls[..|calls| - 1], calls[|calls| - 1];
      Accepted(elemSize, front) +
      if last.Push? && |last.data| % elemSize == 0 && Finish !in front then last.data else []
  }

  function Held(f: Flow): seq<byte> { Flat(f.blocks) + f.pending }

  lemma SealedHolds(codec: Codec, f: Flow)
    ensures Held(Sealed(codec, f)) == Held(f)
  {
    FlatConcat(f.blocks, [f.pending]);
    FlatOne(f.pending);
  }

  lemma {:induction false} FeedHolds(cfg: Config, f: Flow, data: seq<byte>)
    requires cfg.Valid() && !Stuck(cfg, Feed(cfg, f, data)) && |f.pending| < cfg.Target()
    ensures |Feed(cfg, f, data).pending| < cfg.Target()
    ensures Held(Feed(cfg, f, data)) == Held(f) + data
  {
    if data == [] {
      ConcatEmpty(Held(f));
    } else {
      var g := Feed(cfg, f, data[..|data| - 1]);
      var last := [data[|data| - 1]];
      StuckBefore(cfg, f, data);
      FeedHolds(cfg, f, data[..|data| - 1]);
      SealedHolds(cfg.codec, g.(pending := g.pending + last));
      ConcatAssociative(Flat(g.blocks), g.pending, last);
      ConcatAssociative(Held(f), data[..|data| - 1], last);
      assert data == data[..|data| - 1] + last;
    }
  }

  /** Pushes the encoder does not take. */
  predicate Refused(cfg: Config, s: State, data: seq<byte>)
    requires cfg.Valid()
  {
    s.finished || |data| % cfg.elemSize != 0
  }

  /** No block failed to encode in this call. */
  predicate Clean(cfg: Config, s: State, call: Call)
    requires cfg.Valid()
  {
    match call
    case Push(data) => Refused(cfg, s, data) || data == [] || !Stuck(cfg, Step(cfg, s, call).flow)
    case Pull(_) => true
    case Flush => Sealed(cfg.codec, s.flow).pending == []
    case Finish => Sealed(cfg.codec, s.flow).pending == []
  }

  /** No block failed to encode in the whole run, as the calls' statuses tell. */
  predicate CleanRun(cfg: Config, calls: seq<Call>)
    requires cfg.Valid()
  {
    if calls == [] then true
    else
      var front := calls[..|calls| - 1];
      CleanRun(cfg, front) && Clean(cfg, Run(cfg, OPENED, front), calls[|calls| - 1])
  }

  /** When no block failed, the blocks and the pending bytes are the accepted bytes in order. */
  lemma {:induction false} NothingLost(cfg: Config, calls: seq<Call>)
    requires cfg.Valid() && CleanRun(cfg, calls)
    ensures var s := Run(cfg, OPENED, calls);
            && Held(s.flow) == Accepted(cfg.elemSize, calls)
            && |s.flow.pending| < cfg.Target()
            && (s.finished <==> Finish in calls)
            && (s.finished ==> s.flow.pending == [] && Flat(s.flow.blocks) == Accepted(cfg.elemSize, calls))
  {
    if calls != [] {
      var front, last := calls[..|calls| - 1], calls[|calls| - 1];
      var s := Run(cfg, OPENED, front);
      NothingLost(cfg, front);
      assert calls == front + [last];
      match last {
        case Push(data) =>
          if !s.finished && |data| % cfg.elemSize == 0 {
            FeedHolds(cfg, s.flow, data);
          }
        case Pull(_) =>
        case Flush => SealedHolds(cfg.codec, s.flow);
        case Finish => SealedHolds(cfg.codec, s.flow);
      }
    }
  }

  /* ---- Emitted blocks ---------------------------------------------------- */

  predicate BlockOk(cfg: Config, data: seq<byte>)
    requires cfg.Valid()
  {
    0 < |data| <= cfg.Target() && |data| % cfg.elemSize == 0 && cfg.codec.encode(data).Ok?
  }

  predicate BlocksOk(cfg: Config, blocks: seq<seq<byte>>)
    requires cfg.Valid()
  {
    forall i :: 0 <= i < |blocks| ==> BlockOk(cfg, blocks[i])
  }

  /** The record bytes of blocks that all encode. */
  function Records(cfg: Config, blocks: seq<seq<byte>>): seq<byte>
    requires cfg.Valid() && BlocksOk(cfg, blocks)
  {
    if blocks == [] then []
    else Records(cfg, blocks[..|blocks| - 1]) + cfg.codec.encode(blocks[|blocks| - 1]).value
  }

  lemma RecordsAppend(cfg: Config, blocks: seq<seq<byte>>, data: seq<byte>)
    requires cfg.Valid() && BlocksOk(cfg, blocks) && BlockOk(cfg, data)
    ensures BlocksOk(cfg, blocks + [data])
    ensures Records(cfg, blocks + [data]) == Records(cfg, blocks) + cfg.codec.encode(data).value
  {
    assert (blocks + [data])[..|blocks|] == blocks;
  }

  /** What holds of every state the encoder reaches. */
  predicate FlowOk(cfg: Config, f: Flow)
    requires cfg.Valid()
  {
    && |f.pending| <= cfg.Target() && |f.pending| % cfg.elemSize == 0
    && (Stuck(cfg, f) ==> cfg.codec.encode(f.pending).Err?)
    && BlocksOk(cfg, f.blocks)
  }

  lemma SealedOk(cfg: Config, f: Flow)
    requires cfg.Valid() && BlocksOk(cfg, f.blocks)
    requires |f.pending| <= cfg.Target() && |f.pending| % cfg.elemSize == 0
    ensures FlowOk(cfg, Sealed(cfg.codec, f)) && f.blocks <= Sealed(cfg.codec, f).blocks
  {
    DivModUnique(0, cfg.elemSize, 0);
  }

  /** FlowOk and the blocks emitted so far survive every call. */
  lemma {:induction false} FeedOk(cfg: Config, f: Flow, data: seq<byte>)
    requires cfg.Valid() && FlowOk(cfg, f) && |data| % cfg.elemSize == 0
    ensures FlowOk(cfg, Feed(cfg, f, data)) && f.blocks <= Feed(cfg, f, data).blocks
    decreases |data|
  {
    hide BlocksOk, BlockOk;
    var room := cfg.Target() - |f.pending|;
    if Stuck(cfg, f) {
      FeedStuck(cfg, f, data);
    } else if data != [] {
      var take := Min(room, |data|);
      var f' := Feed(cfg, f, data[..take]);
      assert data == data[..take] + data[take..];
      FeedSplit(cfg, f, data[..take], data[take..]);
      FeedChunk(cfg, f, data[..take]);
      AlignedTake(cfg, |f.pending|, |data|, take);
      FeedPiece(cfg, f, data[..take]);
      FeedOk(cfg, f', data[take..]);
    } else {
      assert Feed(cfg, f, data) == f;
    }
  }

  lemma FeedPiece(cfg: Config, f: Flow, data: seq<byte>)
    requires cfg.Valid() && FlowOk(cfg, f) && data != []
    requires |f.pending| + |data| <= cfg.Target() && (|f.pending| + |data|) % cfg.elemSize == 0
    ensures FlowOk(cfg, Feed(cfg, f, data)) && f.blocks <= Feed(cfg, f, data).blocks
  {
    hide BlocksOk, BlockOk, Feed;
    FeedChunk(cfg, f, data);
    var g := f.(pending := f.pending + data);
    if Stuck(cfg, g) {
      SealedOk(cfg, g);
    }
  }

  /** Filling the block takes whole elements. */
  lemma AlignedTake(cfg: Config, held: nat, given: nat, take: nat)
    requires cfg.Valid() && held <= cfg.Target() && held % cfg.elemSize == 0 && given % cfg.elemSize == 0
    requires take == Min(cfg.Target() - held, given)
    ensures (held + take) % cfg.elemSize == 0 && (given - take) % cfg.elemSize == 0
  {
    var e := cfg.elemSize;
    DivModUnique(cfg.targetElems, e, 0);
    if take == given {
      AlignedSum(held, given, e);
      DivModUnique(0, e, 0);
    } else {
      AlignedDifference(cfg.Target(), held, e);
      AlignedDifference(given, take, e);
    }
  }

  lemma AlignedDifference(a: nat, b: nat, n: nat)
    requires n > 0 && a % n == 0 && b % n == 0 && b <= a
    ensures (a - b) % n == 0
  {
    assert a - b == (a / n) * n - (b / n) * n;
    MulDistribute(a / n, -(b / n), n);
    MulCancel(b / n, a / n, n);
    DivModUnique(a / n - b / n, n, 0);
  }

  /* ---- The encoder ------------------------------------------------------- */

  type Status = Result<()>

  /** The status of an operation that may leave a full block that does not encode. */
  function FeedStatus(cfg: Config, f: Flow): Status
    requires cfg.Valid()
  {
    if Stuck(cfg, f) && cfg.codec.encode(f.pending).Err? then Err(cfg.codec.encode(f.pending).error) else Ok(())
  }

  function PushStatus(cfg: Config, s: State, data: seq<byte>): Status
    requires cfg.Valid()
  {
    if s.finished then Err(Invalid)
    else if data == [] then Ok(())
    else if |data| % cfg.elemSize != 0 then Err(Invalid)
    else FeedStatus(cfg, Feed(cfg, s.flow, data))
  }

  /**
   * What the status of a push says: all of it was taken, in whole elements of a stream still open; or none of it
   * was; or a full block failed to encode, and stays where it was.
   */
  lemma PushStatusTells(cfg: Config, s: State, data: seq<byte>)
    requires cfg.Valid() && FlowOk(cfg, s.flow)
    ensures var s', st := Step(cfg, s, Push(data)), PushStatus(cfg, s, data);
            && s'.finished == s.finished
            && (st.Ok? ==> !s.finished && |data| % cfg.elemSize == 0 && Held(s'.flow) == Held(s.flow) + data)
            && (st.Ok? && data != [] ==> |s'.flow.pending| < cfg.Target())
            && (st.Err? ==>
                  if s.finished || |data| % cfg.elemSize != 0 then s' == s && st == Err(Invalid)
                  else data != [] && |s'.flow.pending| == cfg.Target()
                       && cfg.codec.encode(s'.flow.pending) == Err(st.error))
  {
    FeedNothing(cfg, s.flow);
    DivModUnique(0, cfg.elemSize, 0);
    ConcatEmpty(Held(s.flow));
    if !s.finished && data != [] && |data| % cfg.elemSize == 0 {
      FeedOk(cfg, s.flow, data);
      if !Stuck(cfg, Feed(cfg, s.flow, data)) {
        if Stuck(cfg, s.flow) {
          FeedStuck(cfg, s.flow, data);
        }
        FeedHolds(cfg, s.flow, data);
      }
    }
  }

  /** A flush ends the block here, unless it does not encode; a finish ends the stream under the same condition. */
  lemma FlushEnds(cfg: Config, s: State)
    requires cfg.Valid()
    ensures var f, p := Step(cfg, s, Flush).flow, s.flow.pending;
            && Held(f) == Held(s.flow) && Step(cfg, s, Flush).finished == s.finished
            && (f.pending == [] <==> p == [] || cfg.codec.encode(p).Ok?)
            && (f.pending == [] && p != [] ==> f.blocks == s.flow.blocks + [p])
    ensures Step(cfg, s, Finish).finished <==> s.finished || Step(cfg, s, Flush).flow.pending == []
    ensures Step(cfg, s, Finish).finished && !s.finished ==> Step(cfg, s, Finish).flow == Step(cfg, s, Flush).flow
  {
    SealedHolds(cfg.codec, s.flow);
  }

  lemma FeedNothing(cfg: Config, f: Flow)
    requires cfg.Valid()
    ensures Feed(cfg, f, []) == f
  {
  }

  lemma FeedChunkOrStuck(cfg: Config, f: Flow, data: seq<byte>)
    requires cfg.Valid() && |f.pending| + |data| <= cfg.Target() && (data == [] ==> Stuck(cfg, f))
    requires Stuck(cfg, f) ==> cfg.codec.encode(f.pending).Err?
    ensures var g := f.(pending := f.pending + data);
            Feed(cfg, f, data) == if Stuck(cfg, g) then Sealed(cfg.codec, g) else g
  {
    if data == [] {
      ConcatEmpty(f.pending);
    } else {
      FeedChunk(cfg, f, data);
    }
  }

  lemma FlowOkParts(cfg: Config, f: Flow)
    requires cfg.Valid() && FlowOk(cfg, f)
    ensures |f.pending| <= cfg.Target() && |f.pending| % cfg.elemSize == 0
    ensures Stuck(cfg, f) ==> cfg.codec.encode(f.pending).Err?
  {
  }

  lemma AlignedDivide(a: nat, n: nat)
    requires n > 0 && a % n == 0
    ensures a / n * n == a
  {
  }

  const DEFAULT_BLOCK_ELEMS: nat := 0x10_0000

  lemma QueueSplit(pulled: seq<byte>, out: seq<byte>, head: nat, take: nat)
    requires head + take <= |out|
    ensures pulled + out[head..] == pulled + out[head..head + take] + out[head + take..]
  {
    assert out[head..] == out[head..head + take] + out[head + take..];
    ConcatAssociative(pulled, out[head..head + take], out[head + take..]);
  }

  method CopyOut(src: seq<byte>, dst: array<byte>)
    requires |src| <= dst.Length
    modifies dst
    ensures dst[..|src|] == src && dst[|src|..] == old(dst[|src|..])
  {
    for i := 0 to |src|
      invariant dst[..i] == src[..i] && dst[|src|..] == old(dst[|src|..])
    {
      dst[i] := src[i];
    }
  }

  class Encoder {
    const cfg: Config
    var input: seq<byte>
    var out: seq<byte>
    var outHead: nat
    var blocksEmitted: nat
    var bytesConsumed: nat
    var finished: bool

    /** The blocks emitted and the record bytes pulled since the encoder was opened or reset. */
    ghost var blocks: seq<seq<byte>>
    ghost var pulled: seq<byte>

    ghost function Current(): State
      reads this
    {
      State(Flow(input, blocks), finished)
    }

    ghost predicate Valid()
      reads this
    {
      && cfg.Valid() && FlowOk(cfg, Flow(input, blocks))
      && outHead <= |out| && pulled + out[outHead..] == Records(cfg, blocks)
      && blocksEmitted == |blocks| && bytesConsumed == |Flat(blocks)| + |input|
    }

    /** tdc_pushpull_encoder_open: a target of 0 elements selects the default. */
    constructor (codec: Codec, elemSize: nat, targetElems: nat)
      requires Config(codec, elemSize, if targetElems == 0 then DEFAULT_BLOCK_ELEMS else targetElems).Valid()
      ensures Valid() && Current() == OPENED && pulled == []
      ensures cfg == Config(codec, elemSize, if targetElems == 0 then DEFAULT_BLOCK_ELEMS else targetElems)
    {
      cfg := Config(codec, elemSize, if targetElems == 0 then DEFAULT_BLOCK_ELEMS else targetElems);
      input, out, outHead, blocksEmitted, bytesConsumed, finished := [], [], 0, 0, 0, false;
      blocks, pulled := [], [];
      new;
      DivModUnique(0, elemSize, 0);
    }

    /** Back to the state after opening. */
    method Reset()
      requires Valid()
      modifies this
      ensures Valid() && Current() == OPENED && pulled == [] && out == []
    {
      input, out, outHead, blocksEmitted, bytesConsumed, finished := [], [], 0, 0, 0, false;
      blocks, pulled := [], [];
      DivModUnique(0, cfg.elemSize, 0);
    }

    /** Drop the pulled front of the queue. */
    method Compact()
      requires outHead <= |out|
      modifies `out, `outHead
      ensures outHead == 0 && out == old(out[outHead..])
    {
      if outHead == 0 {
        return;
      }
      if outHead >= |out| {
        out, outHead := [], 0;
        return;
      }
      out, outHead := out[outHead..], 0;
    }

    /** pp_emit_block on n elements of the pending input, all of it at every call. */
    method EmitBlock(n: nat) returns (st: Status)
      requires cfg.Valid() && 0 < |input| == n * cfg.elemSize <= cfg.Target() && BlocksOk(cfg, blocks)
      requires outHead <= |out| && pulled + out[outHead..] == Records(cfg, blocks)
      requires blocksEmitted == |blocks| && bytesConsumed == |Flat(blocks)| + |input|
      modifies `input, `out, `blocksEmitted, `blocks
      ensures Valid() && Flow(input, blocks) == old(Sealed(cfg.codec, Flow(input, blocks)))
      ensures st == if input == [] then Ok(()) else Err(cfg.codec.encode(input).error)
    {
      DivModUnique(n, cfg.elemSize, 0);
      var rec := cfg.codec.encode(input);
      if rec.Err? {
        return Err(rec.error);
      }
      RecordsAppend(cfg, blocks, input);
      FlatConcat(blocks, [input]);
      FlatOne(input);
      SealedOk(cfg, Flow(input, blocks));
      ConcatAssociative(pulled, out[outHead..], rec.value);
      assert (out + rec.value)[outHead..] == out[outHead..] + rec.value;
      out := out + rec.value;
      blocks := blocks + [input];
      input := input[n * cfg.elemSize..];
      blocksEmitted := blocksEmitted + 1;
      return Ok(());
    }

    /** One chunk of a push: a copy into the pending input, and a block if that fills it. */
    method Absorb(chunk: seq<byte>) returns (st: Status)
      requires Valid() && |input| + |chunk| <= cfg.Target() && (|input| + |chunk|) % cfg.elemSize == 0
      requires chunk == [] ==> Stuck(cfg, Flow(input, blocks))
      modifies `input, `out, `blocksEmitted, `bytesConsumed, `blocks
      ensures Valid() && Flow(input, blocks) == old(Feed(cfg, Flow(input, blocks), chunk))
      ensures st == FeedStatus(cfg, Flow(input, blocks))
    {
      hide Records, BlocksOk, BlockOk, Feed;
      ghost var f := Flow(input, blocks);
      FeedChunkOrStuck(cfg, f, chunk);
      input := input + chunk;
      bytesConsumed := bytesConsumed + |chunk|;
      if |input| >= cfg.Target() {
        st := EmitBlock(cfg.targetElems);
      } else {
        st := Ok(());
      }
    }

    /** Absorb data chunk by chunk; a block that does not encode stays pending and ends the push. */
    method Push(data: seq<byte>) returns (st: Status)
      requires Valid()
      modifies `input, `out, `blocksEmitted, `bytesConsumed, `blocks
      ensures Valid() && Current() == old(Step(cfg, Current(), Call.Push(data)))
      ensures st == old(PushStatus(cfg, Current(), data))
    {
      hide Records, BlocksOk, BlockOk, Feed, FlowOk;
      if finished {
        return Err(Invalid);
      }
      FeedNothing(cfg, Flow(input, blocks));
      if |data| == 0 {
        return Ok(());
      }
      if |data| % cfg.elemSize != 0 {
        return Err(Invalid);
      }
      ghost var f0 := Flow(input, blocks);
      var done := 0;
      assert data[..0] == [];
      while done < |data|
        invariant done <= |data| && (|data| - done) % cfg.elemSize == 0
        invariant Valid() && Flow(input, blocks) == Feed(cfg, f0, data[..done])
        invariant done > 0 ==> !Stuck(cfg, Flow(input, blocks))
        decreases |data| - done
      {
        FlowOkParts(cfg, Flow(input, blocks));
        var room := cfg.Target() - |input|;
        var take: nat := if |data| - done < room then |data| - done else room;
        ghost var piece := data[done..done + take];
        AlignedTake(cfg, |input|, |data| - done, take);
        FeedSplit(cfg, f0, data[..done], piece);
        assert data[..done] + piece == data[..done + take];
        st := Absorb(data[done..done + take]);
        FlowOkParts(cfg, Flow(input, blocks));
        done := done + take;
        if st.Err? {
          FeedStuck(cfg, Flow(input, blocks), data[done..]);
          FeedSplit(cfg, f0, data[..done], data[done..]);
          assert data[..done] + data[done..] == data;
          return;
        }
      }
      assert data[..done] == data;
      return Ok(());
    }

    /** Take up to cap bytes from the front of the queue. */
    method Pull(dst: array<byte>, cap: nat) returns (written: nat, more: bool)
      requires Valid() && cap <= dst.Length
      modifies dst, `out, `outHead, `pulled
      ensures Valid() && Current() == old(Current())
      ensures written == Min(cap, old(|out| - outHead)) && more == (written < old(|out| - outHead))
      ensures dst[..written] == old(out[outHead..outHead + written]) && dst[written..] == old(dst[written..])
      ensures out[outHead..] == old(out[outHead + written..])
      ensures pulled == old(pulled) + dst[..written]
    {
      hide Records, BlocksOk, BlockOk, FlowOk;
      var queued := |out| - outHead;
      if cap == 0 {
        ConcatEmpty(pulled);
        return 0, queued > 0;
      }
      var take := if queued < cap then queued else cap;
      ghost var chunk := out[outHead..outHead + take];
      if take > 0 {
        CopyOut(out[outHead..outHead + take], dst);
        outHead := outHead + take;
      }
      written := take;
      QueueSplit(pulled, out, outHead - take, take);
      pulled := pulled + chunk;
      if outHead > 0 && (outHead * 2 >= |out| || outHead >= |out|) {
        Compact();
      }
      more := |out| > outHead;
    }

    /** End the block here; nothing happens when no input is pending. */
    method Flush() returns (st: Status)
      requires Valid()
      modifies `input, `out, `blocksEmitted, `blocks
      ensures Valid() && Current() == old(Step(cfg, Current(), Call.Flush))
      ensures st == if input == [] then Ok(()) else Err(cfg.codec.encode(input).error)
    {
      hide Records, BlocksOk, BlockOk;
      if |input| == 0 {
        return Ok(());
      }
      AlignedDivide(|input|, cfg.elemSize);
      st := EmitBlock(|input| / cfg.elemSize);
    }

    /** End the block and the stream; the stream stays open when the last block does not encode. */
    method Finish() returns (st: Status)
      requires Valid()
      modifies `input, `out, `blocksEmitted, `blocks, `finished
      ensures Valid() && Current() == old(Step(cfg, Current(), Call.Finish))
      ensures st.Ok? <==> input == []
    {
      hide Records, BlocksOk, BlockOk;
      st := Flush();
      if st.Err? {
        return;
      }
      finished := true;
    }

    /** The boundary after the last emitted block. */
    method Mark() returns (c: Checkpoint)
      requires Valid()
      ensures c == CheckpointAfter(blocks)
    {
      return Checkpoint(blocksEmitted, bytesConsumed - |input|);
    }
  }

  /* ---- Whole runs -------------------------------------------------------- */

  /** One call; ok tells from its status whether no block failed. */
  method Perform(enc: Encoder, call: Call) returns (got: seq<byte>, ok: bool)
    requires enc.Valid()
    modifies enc
    ensures enc.Valid() && enc.Current() == old(Step(enc.cfg, enc.Current(), call))
    ensures enc.pulled == old(enc.pulled) + got
    ensures ok == old(Clean(enc.cfg, enc.Current(), call))
  {
    hide Encoder.Valid, Feed, Sealed, FlowOk;
    got, ok := [], true;
    SealedEmpty(enc.cfg.codec, enc.Current().flow);
    match call
    case Push(data) =>
      PushTells(enc, data);
      var refused := enc.finished || |data| % enc.cfg.elemSize != 0;
      var st := enc.Push(data);
      ok := refused || st.Ok?;
    case Pull(cap) =>
      var dst := new byte[cap](_ => 0);
      var written, _ := enc.Pull(dst, cap);
      got := dst[..written];
    case Flush =>
      var st := enc.Flush();
      ok := st.Ok?;
    case Finish =>
      var st := enc.Finish();
      ok := st.Ok?;
  }

  lemma SealedEmpty(codec: Codec, f: Flow)
    ensures f.pending == [] ==> Sealed(codec, f) == f
  {
  }

  /** The status of a push that is not refused says whether a block failed. */
  lemma PushTells(enc: Encoder, data: seq<byte>)
    requires enc.Valid()
    ensures enc.cfg.Valid()
    ensures var s := enc.Current();
            Clean(enc.cfg, s, Push(data)) == (Refused(enc.cfg, s, data) || PushStatus(enc.cfg, s, data).Ok?)
  {
    hide Feed;
    var s := enc.Current();
    if !Refused(enc.cfg, s, data) {
      FeedOk(enc.cfg, s.flow, data);
    }
  }

  /** The bytes a run pulls, and those still queued, are the records of the run's blocks. */
  method PerformAll(enc: Encoder, calls: seq<Call>) returns (got: seq<byte>, ok: bool)
    requires enc.Valid() && enc.Current() == OPENED && enc.pulled == []
    modifies enc
    ensures enc.Valid() && enc.Current() == Run(enc.cfg, OPENED, calls)
    ensures BlocksOk(enc.cfg, enc.Current().flow.blocks)
    ensures got + enc.out[enc.outHead..] == Records(enc.cfg, enc.Current().flow.blocks)
    ensures ok == CleanRun(enc.cfg, calls)
  {
    got, ok := [], true;
    assert calls[..0] == [];
    for i := 0 to |calls|
      invariant enc.Valid() && enc.Current() == Run(enc.cfg, OPENED, calls[..i])
      invariant enc.pulled == got && ok == CleanRun(enc.cfg, calls[..i])
    {
      hide Encoder.Valid, Feed, Sealed, Step, Clean;
      assert calls[..i + 1][..i] == calls[..i];
      var chunk, fine := Perform(enc, calls[i]);
      got, ok := got + chunk, ok && fine;
    }
    assert calls[..|calls|] == calls;
  }

  /** Two runs with the same flush points that were pulled to the end gave the same bytes. */
  method SameBytes(one: Encoder, two: Encoder, a: seq<Call>, b: seq<Call>) returns (x: seq<byte>, y: seq<byte>)
    requires one != two && one.cfg == two.cfg
    requires one.Valid() && one.Current() == OPENED && one.pulled == []
    requires two.Valid() && two.Current() == OPENED && two.pulled == []
    requires Merged(one.cfg.elemSize, a) == Merged(one.cfg.elemSize, b)
    modifies one, two
    ensures one.outHead == |one.out| && two.outHead == |two.out| ==> x == y
    ensures one.Valid() && two.Valid() && one.blocks == two.blocks
  {
    ChunkingIrrelevant(one.cfg, OPENED, a, b);
    hide *;
    var okX, okY;
    x, okX := PerformAll(one, a);
    y, okY := PerformAll(two, b);
    ConcatEmpty(x);
    ConcatEmpty(y);
  }
}
