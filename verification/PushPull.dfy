/**
 * The push/pull encoder and decoder together: whatever is pushed, flushed, moved and asked for in whatever
 * order, the decoder gives the encoder's blocks, and the two agree on every checkpoint.
 */
module PushPull {
  import opened Base
  import opened PushPullRecord
  import opened E = PushPullEncode
  import D = PushPullDecode

  /* ---- The stream of an encoder read back -------------------------------- */

  lemma OneRecordReads(cfg: Config, data: seq<byte>)
    requires cfg.Valid() && cfg.codec.Faithful(cfg.elemSize) && BlockOk(cfg, data)
    ensures var rec := cfg.codec.encode(data).value;
            D.Blocks(cfg.codec, rec) == [data] && D.Unread(cfg.codec, rec) == []
  {
    var rec := cfg.codec.encode(data).value;
    assert cfg.codec.Delimits(rec, data);
    var front := D.FrontOf(cfg.codec, rec);
    assert rec[..|rec|] == rec;
    assert front == D.Record(data, |rec|);
    assert rec[front.size..] == [];
  }

  /** The records of some blocks read back as exactly those blocks. */
  lemma {:induction false} RecordsRead(cfg: Config, blocks: seq<seq<byte>>)
    requires cfg.Valid() && cfg.codec.Faithful(cfg.elemSize) && BlocksOk(cfg, blocks)
    ensures D.Blocks(cfg.codec, Records(cfg, blocks)) == blocks
    ensures D.Unread(cfg.codec, Records(cfg, blocks)) == []
  {
    if blocks != [] {
      hide D.Blocks, D.Unread, Codec.Faithful;
      var front, last := blocks[..|blocks| - 1], blocks[|blocks| - 1];
      var rec := cfg.codec.encode(last).value;
      assert BlockOk(cfg, last);
      RecordsRead(cfg, front);
      OneRecordReads(cfg, last);
      D.ReadSplit(cfg.codec, Records(cfg, front), rec);
      ConcatEmpty(rec);
      assert blocks == front + [last];
    }
  }

  /** A cut-off stream reads as its first blocks, and its rest only waits for more. */
  lemma PrefixReads(cfg: Config, blocks: seq<seq<byte>>, part: seq<byte>)
    requires cfg.Valid() && cfg.codec.Faithful(cfg.elemSize) && BlocksOk(cfg, blocks)
    requires part <= Records(cfg, blocks)
    ensures D.Blocks(cfg.codec, part) <= blocks
    ensures D.FrontOf(cfg.codec, D.Unread(cfg.codec, part)) == D.More
  {
    var all := Records(cfg, blocks);
    var rest := all[|part|..];
    var left := D.Unread(cfg.codec, part);
    RecordsRead(cfg, blocks);
    assert part + rest == all;
    D.ReadSplit(cfg.codec, part, rest);
    if D.FrontOf(cfg.codec, left).Broken? {
      D.FrontStable(cfg.codec, left, rest);
      assert false;
    }
  }

  /** What is left over of a record that was cut off is just its front. */
  lemma PartWaits(cfg: Config, data: seq<byte>, part: seq<byte>)
    requires cfg.Valid() && cfg.codec.Faithful(cfg.elemSize) && BlockOk(cfg, data)
    requires part < cfg.codec.encode(data).value
    ensures D.FrontOf(cfg.codec, part) == D.More && D.Blocks(cfg.codec, part) == [] && D.Unread(cfg.codec, part) == part
  {
    var rec := cfg.codec.encode(data).value;
    assert cfg.codec.Delimits(rec, data);
    if |part| >= HEADER_SIZE {
      assert part[..HEADER_SIZE] == rec[..HEADER_SIZE];
    }
  }

  /** A cut-off stream is the records of its whole blocks and the front of one more. */
  lemma {:induction false} PrefixParts(cfg: Config, blocks: seq<seq<byte>>, part: seq<byte>)
    requires cfg.Valid() && cfg.codec.Faithful(cfg.elemSize) && BlocksOk(cfg, blocks)
    requires part <= Records(cfg, blocks)
    ensures var k := |D.Blocks(cfg.codec, part)|;
            && k <= |blocks| && BlocksOk(cfg, blocks[..k])
            && part == Records(cfg, blocks[..k]) + D.Unread(cfg.codec, part)
  {
    hide D.Blocks, D.Unread, Codec.Faithful;
    RecordsRead(cfg, blocks);
    assert blocks[..|blocks|] == blocks;
    if part == Records(cfg, blocks) {
      ConcatEmpty(part);
    } else {
      var front, last := blocks[..|blocks| - 1], blocks[|blocks| - 1];
      var before, rec := Records(cfg, front), cfg.codec.encode(last).value;
      assert BlockOk(cfg, last);
      RecordsRead(cfg, front);
      if part <= before {
        PrefixParts(cfg, front, part);
        assert blocks[..|D.Blocks(cfg.codec, part)|] == front[..|D.Blocks(cfg.codec, part)|];
      } else {
        var piece := part[|before|..];
        assert part == before + piece && Records(cfg, blocks) == before + rec;
        assert piece < rec by { BehindPrefix(before, piece, rec); }
        PartWaits(cfg, last, piece);
        D.ReadSplit(cfg.codec, before, piece);
        ConcatEmpty(front);
        assert [] + piece == piece;
      }
    }
  }

  lemma BehindPrefix(a: seq<byte>, b: seq<byte>, c: seq<byte>)
    requires a + b <= a + c && a + b != a + c
    ensures b < c
  {
    assert forall i :: 0 <= i < |b| ==> b[i] == (a + b)[|a| + i] == (a + c)[|a| + i] == c[i];
  }

  /**
   * A stream cut off inside a record never passes for a complete one: however its front was split and asked
   * for, once finished it is never done, and asking on gives its whole blocks and then the refusal that lasts.
   */
  lemma TruncatedIsRefused(cfg: Config, blocks: seq<seq<byte>>, calls: seq<D.Call>)
    requires cfg.Valid() && cfg.codec.Faithful(cfg.elemSize) && BlocksOk(cfg, blocks)
    requires var r := D.Run(cfg.codec, D.OPENED, calls);
             && r.finished && r.fed <= Records(cfg, blocks)
             && forall k {:trigger blocks[..k]} :: 0 <= k <= |blocks| && BlocksOk(cfg, blocks[..k]) ==>
                  r.fed != Records(cfg, blocks[..k])
    ensures var r := D.Run(cfg.codec, D.OPENED, calls);
            var n := |D.Blocks(cfg.codec, r.unread)|;
            var last := D.Run(cfg.codec, r, seq(n, _ => D.Next));
            && D.Step(cfg.codec, r, D.Next).1 !in {D.Done, D.Starved}
            && (!r.failed ==> last.given <= blocks && D.Step(cfg.codec, last, D.Next) ==
                                (last.(failed := true), D.Refused(Corrupt)))
            && (r.failed ==> D.Step(cfg.codec, r, D.Next) == (r, D.Refused(Corrupt)))
  {
    var r := D.Run(cfg.codec, D.OPENED, calls);
    PrefixParts(cfg, blocks, r.fed);
    PrefixReads(cfg, blocks, r.fed);
    var k := |D.Blocks(cfg.codec, r.fed)|;
    ConcatEmpty(Records(cfg, blocks[..k]));
    assert D.Unread(cfg.codec, r.fed) != [];
    D.RunInStep(cfg.codec, calls);
    D.NextAnswers(cfg.codec, r, D.Done);
    if !r.failed {
      D.AskingExhausts(cfg.codec, r, |D.Blocks(cfg.codec, r.unread)|);
    }
  }

  lemma NoBlocks(cfg: Config)
    requires cfg.Valid()
    ensures BlocksOk(cfg, [])
  {
  }

  /** Blocks once emitted stay. */
  lemma {:induction false} RunGrows(cfg: Config, calls: seq<Call>, n: nat)
    requires cfg.Valid() && n <= |calls|
    ensures FlowOk(cfg, Run(cfg, E.OPENED, calls).flow)
    ensures Run(cfg, E.OPENED, calls[..n]).flow.blocks <= Run(cfg, E.OPENED, calls).flow.blocks
    decreases |calls|
  {
    hide BlocksOk, E.Feed;
    if calls == [] {
      NoBlocks(cfg);
      DivModUnique(0, cfg.elemSize, 0);
      assert calls[..n] == calls;
    } else {
      var front, last := calls[..|calls| - 1], calls[|calls| - 1];
      var f := Run(cfg, E.OPENED, front).flow;
      RunGrows(cfg, front, if n < |calls| then n else 0);
      if n < |calls| {
        assert front[..n] == calls[..n];
      } else {
        assert calls[..n] == calls;
      }
      if last.Push? && |last.data| % cfg.elemSize == 0 {
        FeedOk(cfg, f, last.data);
      }
      SealedOk(cfg, f);
    }
  }

  /* ---- The two at work --------------------------------------------------- */

  /** A call to the encoder, up to cap record bytes moved across, or a request for a block. */
  datatype Event = Feed(call: Call) | Move(cap: nat) | Ask

  /** The decoder has what was pulled, has not failed, and has given the encoder's first blocks. */
  ghost predicate Linked(enc: Encoder, dec: D.Decoder)
    reads enc, dec
  {
    && enc.Valid() && dec.Valid() && enc.cfg.codec == dec.codec
    && dec.fed == enc.pulled && !dec.finished && dec.phase != D.Failed
    && D.InStep(dec.codec, dec.Current())
    && dec.given <= enc.blocks
  }

  /** What was pulled is the front of the records of the blocks emitted. */
  lemma PulledReads(enc: Encoder, codec: Codec, r: D.Reader)
    requires enc.Valid() && enc.cfg.codec == codec && codec.Faithful(enc.cfg.elemSize)
    requires r.fed == enc.pulled && D.InStep(codec, r)
    ensures r.given <= enc.blocks && !D.FrontOf(codec, r.unread).Broken?
    ensures enc.outHead == |enc.out| && D.Exhausted(codec, r) ==> r.given == enc.blocks && r.unread == []
  {
    PrefixReads(enc.cfg, enc.blocks, r.fed);
    RecordsRead(enc.cfg, enc.blocks);
    ConcatEmpty(r.given);
    ConcatEmpty(enc.pulled);
  }

  /** The encoder calls among the events; a Pull has no effect of its own. */
  function Calls(events: seq<Event>): seq<Call>
  {
    if events == [] then []
    else Calls(events[..|events| - 1]) + CallOf(events[|events| - 1])
  }

  function CallOf(event: Event): seq<Call>
  {
    if event.Feed? then [event.call] else []
  }

  /** One event keeps the two linked; ok tells whether no block failed to encode. */
  method Relay(enc: Encoder, dec: D.Decoder, event: Event) returns (reply: D.Reply, ok: bool)
    requires Linked(enc, dec) && enc.cfg.codec.Faithful(enc.cfg.elemSize)
    modifies enc, dec
    ensures Linked(enc, dec)
    ensures dec.given == old(dec.given) + if reply.Block? then [reply.data] else []
    ensures if event.Feed? then enc.Current() == old(Step(enc.cfg, enc.Current(), event.call))
                                && ok == old(Clean(enc.cfg, enc.Current(), event.call))
            else enc.Current() == old(enc.Current()) && ok
  {
    hide E.Feed, Sealed, D.Blocks, D.Unread, D.FrontOf, Records, BlocksOk, Codec.Faithful, Codec.Measured;
    reply, ok := D.Accepted, true;
    match event
    case Feed(call) =>
      StepGrows(enc.cfg, enc.Current(), call);
      SealedEmpty(enc.cfg.codec, enc.Current().flow);
      match call {
        case Push(data) =>
          PushTells(enc, data);
          var refused := enc.finished || |data| % enc.cfg.elemSize != 0;
          var st := enc.Push(data);
          ok := refused || st.Ok?;
        case Pull(_) =>
        case Flush =>
          var st := enc.Flush();
          ok := st.Ok?;
        case Finish =>
          var st := enc.Finish();
          ok := st.Ok?;
      }
    case Move(cap) =>
      D.StepInStep(dec.codec, dec.Current(),
                   D.Push(enc.out[enc.outHead..enc.outHead + Min(cap, |enc.out| - enc.outHead)]));
      var dst := new byte[cap](_ => 0);
      var written, _ := enc.Pull(dst, cap);
      reply := dec.Push(dst[..written]);
    case Ask =>
      PulledReads(enc, dec.codec, dec.Current());
      D.StepInStep(dec.codec, dec.Current(), D.Next);
      AskGives(enc, dec.codec, dec.Current());
      reply := dec.Next();
  }

  lemma StepGrows(cfg: Config, s: State, call: Call)
    requires cfg.Valid() && FlowOk(cfg, s.flow)
    ensures s.flow.blocks <= Step(cfg, s, call).flow.blocks
  {
    hide BlocksOk, E.Feed;
    if call.Push? && |call.data| % cfg.elemSize == 0 {
      FeedOk(cfg, s.flow, call.data);
    }
    SealedOk(cfg, s.flow);
  }

  lemma AskGives(enc: Encoder, codec: Codec, r: D.Reader)
    requires enc.Valid() && enc.cfg.codec == codec && codec.Faithful(enc.cfg.elemSize)
    requires r.fed == enc.pulled && D.InStep(codec, r) && !r.failed && !r.finished
    ensures var (after, reply) := D.Step(codec, r, D.Next);
            && !after.failed && after.given <= enc.blocks
            && after.given == r.given + if reply.Block? then [reply.data] else []
  {
    hide D.Blocks, D.Unread, D.FrontOf, Records, BlocksOk, Codec.Faithful, Codec.Measured;
    PulledReads(enc, codec, r);
    D.StepInStep(codec, r, D.Next);
    var after := D.Step(codec, r, D.Next).0;
    PulledReads(enc, codec, after);
  }

  /**
   * Any interleaving of pushes, flushes, moves and requests: what was received are the first blocks emitted.
   * If no call failed, and the encoder finished, was moved empty and asked to the end, it is what was pushed.
   */
  method RelayAll(enc: Encoder, dec: D.Decoder, events: seq<Event>) returns (got: seq<seq<byte>>, ok: bool)
    requires Linked(enc, dec) && dec.given == [] && enc.cfg.codec.Faithful(enc.cfg.elemSize)
    requires enc.Current() == E.OPENED
    modifies enc, dec
    ensures Linked(enc, dec) && enc.Current() == Run(enc.cfg, E.OPENED, Calls(events))
    ensures got == dec.given && got <= enc.blocks && ok == CleanRun(enc.cfg, Calls(events))
    ensures ok && Finish in Calls(events) && enc.outHead == |enc.out| && D.Exhausted(dec.codec, dec.Current()) ==>
              Flat(got) == Accepted(enc.cfg.elemSize, Calls(events))
  {
    hide Linked, D.Decoder.Valid, Encoder.Valid, Codec.Faithful, Step, Clean;
    got, ok := [], true;
    LinkedValid(enc, dec);
    assert events[..0] == [];
    for i := 0 to |events|
      invariant Linked(enc, dec) && got == dec.given && enc.cfg.Valid()
      invariant enc.Current() == Run(enc.cfg, E.OPENED, Calls(events[..i]))
                && ok == CleanRun(enc.cfg, Calls(events[..i]))
    {
      assert events[..i + 1][..i] == events[..i];
      NextCall(enc.cfg, Calls(events[..i]), events[i]);
      var reply, fine := Relay(enc, dec, events[i]);
      ok := ok && fine;
      if reply.Block? {
        got := got + [reply.data];
      }
    }
    assert events[..|events|] == events;
    GivenPrefix(enc, dec);
    LinkedValid(enc, dec);
    if ok && Finish in Calls(events) && enc.outHead == |enc.out| && D.Exhausted(dec.codec, dec.Current()) {
      AllArrived(enc, dec);
      NothingLost(enc.cfg, Calls(events));
    }
  }

  lemma LinkedValid(enc: Encoder, dec: D.Decoder)
    requires Linked(enc, dec)
    ensures enc.cfg.Valid() && enc.cfg.codec == dec.codec && dec.inHead <= |dec.input|
  {
  }

  lemma NextCall(cfg: Config, calls: seq<Call>, event: Event)
    requires cfg.Valid()
    ensures var next := calls + CallOf(event);
            if event.Feed? then
              && Run(cfg, E.OPENED, next) == Step(cfg, Run(cfg, E.OPENED, calls), event.call)
              && CleanRun(cfg, next) == (CleanRun(cfg, calls) && Clean(cfg, Run(cfg, E.OPENED, calls), event.call))
            else next == calls
  {
    hide Step, Clean;
    if event.Feed? {
      assert (calls + [event.call])[..|calls|] == calls;
    } else {
      ConcatEmpty(calls);
    }
  }

  lemma GivenPrefix(enc: Encoder, dec: D.Decoder)
    requires Linked(enc, dec)
    ensures dec.given <= enc.blocks
  {
  }

  /** With the queue empty and nothing more to ask for, every block of the encoder has arrived. */
  lemma AllArrived(enc: Encoder, dec: D.Decoder)
    requires Linked(enc, dec) && enc.cfg.codec.Faithful(enc.cfg.elemSize)
    requires enc.outHead == |enc.out| && D.Exhausted(dec.codec, dec.Current())
    ensures dec.given == enc.blocks && dec.Left() == []
  {
    PulledReads(enc, dec.codec, dec.Current());
  }

  /**
   * Checkpoints after the same number of blocks are equal: the encoder's when it had emitted n blocks in
   * its first k calls, the decoder's when it has given n blocks of any later part of the stream.
   */
  lemma CheckpointsAgree(cfg: Config, calls: seq<Call>, k: nat, asks: seq<D.Call>)
    requires cfg.Valid() && cfg.codec.Faithful(cfg.elemSize) && k <= |calls|
    requires BlocksOk(cfg, Run(cfg, E.OPENED, calls).flow.blocks)
    requires var r := D.Run(cfg.codec, D.OPENED, asks);
             && r.fed <= Records(cfg, Run(cfg, E.OPENED, calls).flow.blocks)
             && |r.given| == |Run(cfg, E.OPENED, calls[..k]).flow.blocks|
    ensures CheckpointAfter(D.Run(cfg.codec, D.OPENED, asks).given)
         == CheckpointAfter(Run(cfg, E.OPENED, calls[..k]).flow.blocks)
  {
    var r := D.Run(cfg.codec, D.OPENED, asks);
    RunGrows(cfg, calls, k);
    D.RunInStep(cfg.codec, asks);
    PrefixReads(cfg, Run(cfg, E.OPENED, calls).flow.blocks, r.fed);
    assert r.given == Run(cfg, E.OPENED, calls[..k]).flow.blocks;
  }

  /**
   * The whole way: a finished run in which no block failed, its records split in any way, blocks asked for at
   * any time. Whatever was fed, the blocks given are the first blocks; once all records were fed and no
   * more can be given, their bytes are the bytes pushed.
   */
  lemma PushedArrives(cfg: Config, calls: seq<Call>, asks: seq<D.Call>)
    requires cfg.Valid() && cfg.codec.Faithful(cfg.elemSize) && CleanRun(cfg, calls) && Finish in calls
    ensures var s, r := Run(cfg, E.OPENED, calls), D.Run(cfg.codec, D.OPENED, asks);
            && BlocksOk(cfg, s.flow.blocks)
            && (r.fed <= Records(cfg, s.flow.blocks) ==> r.given <= s.flow.blocks)
            && (r.fed == Records(cfg, s.flow.blocks) && D.Exhausted(cfg.codec, r) ==>
                  r.given == s.flow.blocks && Flat(r.given) == Accepted(cfg.elemSize, calls) && r.unread == [])
  {
    var s, r := Run(cfg, E.OPENED, calls), D.Run(cfg.codec, D.OPENED, asks);
    RunGrows(cfg, calls, 0);
    NothingLost(cfg, calls);
    D.RunInStep(cfg.codec, asks);
    RecordsRead(cfg, s.flow.blocks);
    if r.fed <= Records(cfg, s.flow.blocks) {
      PrefixReads(cfg, s.flow.blocks, r.fed);
    }
    ConcatEmpty(r.given);
  }

  /* ---- A codec these results are about ----------------------------------- */

  /** The simplest block layer: the size in an otherwise empty header, then the bytes. */
  function Stored(elemSize: nat): Codec
    requires elemSize > 0
  {
    Codec(
      (data: seq<byte>) => if |data| < U32_LIMIT then Ok(LE(|data|, HEADER_SIZE) + data) else Err(Invalid),
      (h: seq<byte>) =>
        if |h| == HEADER_SIZE then Some(Header(elemSize, [LEVal(h) / elemSize], 0, 0, LEVal(h), 0)) else None,
      (rec: seq<byte>) =>
        if |rec| >= HEADER_SIZE && LEVal(rec[..HEADER_SIZE]) == |rec| - HEADER_SIZE < U32_LIMIT
           && (|rec| - HEADER_SIZE) % elemSize == 0
        then Ok(rec[HEADER_SIZE..]) else Err(Corrupt))
  }

  /** It meets everything asked of a codec, and encodes every block of a run. */
  lemma StoredFits(cfg: Config)
    requires cfg.Valid() && cfg.Target() < U32_LIMIT && cfg.codec == Stored(cfg.elemSize)
    ensures cfg.codec.Measured() && cfg.codec.Faithful(cfg.elemSize)
    ensures forall data :: |data| <= cfg.Target() ==> cfg.codec.encode(data).Ok?
  {
    StoredMeasured(cfg.elemSize);
    StoredFaithful(cfg.elemSize);
  }

  lemma StoredMeasured(elemSize: nat)
    requires elemSize > 0
    ensures Stored(elemSize).Measured()
  {
    hide LEVal, BlockBytes;
    var c := Stored(elemSize);
    forall rec | |rec| >= HEADER_SIZE && c.decode(rec).Ok? && c.parse(rec[..HEADER_SIZE]).Some?
      ensures |c.decode(rec).value| == BlockBytes(c.parse(rec[..HEADER_SIZE]).value) < U64_LIMIT
    {
      StoredSize(|rec| - HEADER_SIZE, elemSize);
    }
  }

  lemma StoredFaithful(elemSize: nat)
    requires elemSize > 0
    ensures Stored(elemSize).Faithful(elemSize)
  {
    hide LEVal, LE;
    var c := Stored(elemSize);
    forall data | data != [] && |data| % elemSize == 0 && c.encode(data).Ok?
      ensures c.Delimits(c.encode(data).value, data)
    {
      var rec := LE(|data|, HEADER_SIZE) + data;
      assert rec[..HEADER_SIZE] == LE(|data|, HEADER_SIZE) && rec[HEADER_SIZE..] == data;
      WideField(|data|);
    }
  }

  lemma StoredSize(n: nat, e: nat)
    requires e > 0 && n % e == 0
    ensures BlockBytes(Header(e, [n / e], 0, 0, n, 0)) == n
  {
    assert [n / e][..0] == [];
    assert Elements([n / e]) == 1 * (n / e);
  }

  lemma WideField(v: nat)
    requires v < U32_LIMIT
    ensures LEVal(LE(v, HEADER_SIZE)) == v
  {
    FitsU32(v);
    StillFits(v, 4, HEADER_SIZE);
    LERoundTrip(v, HEADER_SIZE);
  }

  lemma {:induction false} StillFits(v: nat, n: nat, m: nat)
    requires Fits(v, n) && n <= m
    ensures Fits(v, m)
  {
    if n == 0 {
      if m > 0 {
        StillFits(0, 0, m - 1);
      }
    } else {
      StillFits(v / 256, n - 1, m - 1);
    }
  }
}
