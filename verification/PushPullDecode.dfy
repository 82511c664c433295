/**
 * The push/pull decoder (src/api/pushpull_decode.c). A stream of bytes has one reading: the longest run of
 * whole records at its front. Whatever the chunks and whenever blocks are asked for, the decoder gives
 * the blocks of that reading in order.
 */
module PushPullDecode {
  import opened Base
  import opened PushPullRecord

  /* ---- The reading of a byte string -------------------------------------- */

  /** What the front of the unread bytes holds: too little, a record that cannot be decoded, or a record. */
  datatype Front = More | Broken(error: Error) | Record(data: seq<byte>, size: nat)

  function FrontOf(codec: Codec, bytes: seq<byte>): (f: Front)
    ensures f.Record? ==> HEADER_SIZE <= f.size <= |bytes|
    ensures f == More <==>
              |bytes| < HEADER_SIZE
              || match codec.parse(bytes[..HEADER_SIZE])
                 case None => false
                 case Some(h) => |bytes| < RecordSize(h)
  {
    if |bytes| < HEADER_SIZE then More
    else
      match codec.parse(bytes[..HEADER_SIZE])
      case None => Broken(Corrupt)
      case Some(h) =>
        if |bytes| < RecordSize(h) then More
        else if h.elemSize == 0 then Broken(Unsupported)
        else
          match codec.decode(bytes[..RecordSize(h)])
          case Err(e) => Broken(e)
          case Ok(data) => Record(data, RecordSize(h))
  }

  /** More bytes never change what was already decided. */
  lemma FrontStable(codec: Codec, a: seq<byte>, b: seq<byte>)
    requires FrontOf(codec, a) != More
    ensures FrontOf(codec, a + b) == FrontOf(codec, a)
  {
    assert (a + b)[..HEADER_SIZE] == a[..HEADER_SIZE];
    var h := codec.parse(a[..HEADER_SIZE]);
    if h.Some? {
      assert (a + b)[..RecordSize(h.value)] == a[..RecordSize(h.value)];
    }
  }

  function Blocks(codec: Codec, bytes: seq<byte>): seq<seq<byte>>
    decreases |bytes|
  {
    match FrontOf(codec, bytes)
    case Record(data, size) => [data] + Blocks(codec, bytes[size..])
    case _ => []
  }

  function Unread(codec: Codec, bytes: seq<byte>): (r: seq<byte>)
    ensures !FrontOf(codec, r).Record?
    decreases |bytes|
  {
    match FrontOf(codec, bytes)
    case Record(_, size) => Unread(codec, bytes[size..])
    case _ => bytes
  }

  /** Reading in two pieces is reading at once. */
  lemma {:induction false} ReadSplit(codec: Codec, a: seq<byte>, b: seq<byte>)
    ensures Blocks(codec, a + b) == Blocks(codec, a) + Blocks(codec, Unread(codec, a) + b)
    ensures Unread(codec, a + b) == Unread(codec, Unread(codec, a) + b)
    decreases |a|
  {
    var front := FrontOf(codec, a);
    if front.Record? {
      FrontStable(codec, a, b);
      var rest := a[front.size..];
      assert (a + b)[front.size..] == rest + b;
      ReadSplit(codec, rest, b);
      ConcatAssociative([front.data], Blocks(codec, rest), Blocks(codec, Unread(codec, rest) + b));
    } else {
      ConcatEmpty(Blocks(codec, a + b));
    }
  }

  /* ---- Runs of calls ----------------------------------------------------- */

  datatype Call = Push(chunk: seq<byte>) | Next | Finish

  datatype Reply = Accepted | Refused(error: Error) | Block(data: seq<byte>) | Starved | Done

  /** fed is everything accepted so far, unread its part not yet handed out. */
  datatype Reader = Reader(fed: seq<byte>, unread: seq<byte>, given: seq<seq<byte>>, finished: bool, failed: bool)

  const OPENED: Reader := Reader([], [], [], false, false)

  function AfterNext(codec: Codec, r: Reader): (Reader, Reply)
  {
    match FrontOf(codec, r.unread)
    case Record(data, size) => (r.(unread := r.unread[size..], given := r.given + [data]), Block(data))
    case Broken(e) => (r.(failed := true), Refused(e))
    case More =>
      if !r.finished then (r, Starved)
      else if r.unread == [] then (r, Done)
      else (r.(failed := true), Refused(Corrupt))
  }

  function Step(codec: Codec, r: Reader, call: Call): (Reader, Reply)
  {
    if r.failed then (r, Refused(Corrupt))
    else
      match call
      case Push(chunk) =>
        if r.finished then (r, Refused(Invalid))
        else (r.(fed := r.fed + chunk, unread := r.unread + chunk), Accepted)
      case Next => AfterNext(codec, r)
      case Finish => (r.(finished := true), Accepted)
  }

  function Run(codec: Codec, r: Reader, calls: seq<Call>): Reader
  {
    if calls == [] then r
    else Step(codec, Run(codec, r, calls[..|calls| - 1]), calls[|calls| - 1]).0
  }

  /** The blocks given so far and the reading of what is left make up the reading of all bytes. */
  predicate InStep(codec: Codec, r: Reader)
  {
    && Blocks(codec, r.fed) == r.given + Blocks(codec, r.unread)
    && Unread(codec, r.fed) == Unread(codec, r.unread)
    && (r.failed ==> !FrontOf(codec, r.unread).Record?)
  }

  lemma StepInStep(codec: Codec, r: Reader, call: Call)
    requires InStep(codec, r)
    ensures InStep(codec, Step(codec, r, call).0)
  {
    hide Blocks, Unread;
    match call
    case Push(chunk) =>
      if !r.failed && !r.finished {
        ReadSplit(codec, r.fed, chunk);
        ReadSplit(codec, r.unread, chunk);
        ConcatAssociative(r.given, Blocks(codec, r.unread), Blocks(codec, Unread(codec, r.unread) + chunk));
      }
    case Next =>
      if !r.failed {
        NextInStep(codec, r);
      }
    case Finish =>
  }

  lemma NextInStep(codec: Codec, r: Reader)
    requires InStep(codec, r)
    ensures InStep(codec, AfterNext(codec, r).0)
  {
    var front := FrontOf(codec, r.unread);
    if front.Record? {
      ConcatAssociative(r.given, [front.data], Blocks(codec, r.unread[front.size..]));
    }
  }

  lemma {:induction false} RunInStep(codec: Codec, calls: seq<Call>)
    ensures InStep(codec, Run(codec, OPENED, calls))
  {
    if calls == [] {
      ConcatEmpty(OPENED.given);
    } else {
      RunInStep(codec, calls[..|calls| - 1]);
      StepInStep(codec, Run(codec, OPENED, calls[..|calls| - 1]), calls[|calls| - 1]);
    }
  }

  /**
   * What a request may be answered, by all the bytes fed and the blocks given alone: done only after a whole
   * number of records, starved only before the end, refused for good reason only.
   */
  predicate Answers(codec: Codec, r: Reader, reply: Reply)
  {
    var blocks, rest := Blocks(codec, r.fed), Unread(codec, r.fed);
    match reply
    case Accepted => false
    case Block(data) => !r.failed && r.given + [data] <= blocks
    case Done => !r.failed && r.finished && r.given == blocks && rest == []
    case Starved => !r.failed && !r.finished && r.given == blocks && FrontOf(codec, rest) == More
    case Refused(e) =>
      if r.failed then e == Corrupt
      else
        && r.given == blocks
        && (FrontOf(codec, rest) == Broken(e)
            || (FrontOf(codec, rest) == More && r.finished && rest != [] && e == Corrupt))
  }

  /** Every request is answered so; and there is no other answer. */
  lemma NextAnswers(codec: Codec, r: Reader, other: Reply)
    requires InStep(codec, r)
    ensures Answers(codec, r, Step(codec, r, Next).1)
    ensures Answers(codec, r, other) ==> other == Step(codec, r, Next).1
    ensures Step(codec, r, Next).1.Refused? ==> Step(codec, r, Next).0 == r.(failed := true)
    ensures Step(codec, r, Next).1 in {Done, Starved} ==> Step(codec, r, Next).0 == r
  {
    var front := FrontOf(codec, r.unread);
    if front.Record? {
      var rest := Blocks(codec, r.unread[front.size..]);
      ConcatAssociative(r.given, [front.data], rest);
      assert Blocks(codec, r.fed)[|r.given|] == front.data;
      assert |Blocks(codec, r.fed)| > |r.given|;
    } else {
      ConcatEmpty(r.given);
    }
  }

  lemma StepAnswers(codec: Codec, r: Reader)
    ensures InStep(codec, r) ==>
              Answers(codec, r, Step(codec, r, Next).1) && InStep(codec, Step(codec, r, Next).0)
  {
    hide Answers, InStep, Step;
    if InStep(codec, r) {
      NextAnswers(codec, r, Done);
      StepInStep(codec, r, Next);
    }
  }

  /** So it is in every run, whatever was pushed and asked for before. */
  lemma RunAnswers(codec: Codec, calls: seq<Call>)
    ensures var r := Run(codec, OPENED, calls); Answers(codec, r, Step(codec, r, Next).1)
  {
    RunInStep(codec, calls);
    NextAnswers(codec, Run(codec, OPENED, calls), Done);
  }

  /** A reader that got all it can out of its bytes: the next call gives no block. */
  predicate Exhausted(codec: Codec, r: Reader)
  {
    !FrontOf(codec, r.unread).Record?
  }

  /**
   * On any bytes, valid or not, the blocks given are the first blocks of the bytes' one reading, and all of
   * them once no more can be given: how the bytes were split and when blocks were asked for is forgotten.
   */
  lemma SplitIrrelevant(codec: Codec, a: seq<Call>, b: seq<Call>)
    ensures var r := Run(codec, OPENED, a);
            && r.given <= Blocks(codec, r.fed)
            && (Exhausted(codec, r) ==> r.given == Blocks(codec, r.fed))
    ensures var r, s := Run(codec, OPENED, a), Run(codec, OPENED, b);
            r.fed == s.fed && Exhausted(codec, r) && Exhausted(codec, s) ==>
              r.given == s.given && r.unread == s.unread
  {
    var r, s := Run(codec, OPENED, a), Run(codec, OPENED, b);
    RunInStep(codec, a);
    RunInStep(codec, b);
    ConcatEmpty(r.given);
    ConcatEmpty(s.given);
  }

  /** Asking once per remaining block exhausts a reader that has not failed. */
  lemma {:induction false} AskingExhausts(codec: Codec, r: Reader, n: nat)
    requires !r.failed && n == |Blocks(codec, r.unread)|
    ensures var r' := Run(codec, r, seq(n, _ => Next));
            Exhausted(codec, r') && !r'.failed && r'.fed == r.fed && r'.given == r.given + Blocks(codec, r.unread)
            && r'.finished == r.finished && r'.unread == Unread(codec, r.unread)
    decreases n
  {
    var calls := seq(n, _ => Next);
    if n == 0 {
      assert calls == [];
      ConcatEmpty(r.given);
    } else {
      var front := FrontOf(codec, r.unread);
      var r1 := Step(codec, r, Next).0;
      var rest := seq(n - 1, _ => Next);
      AskingExhausts(codec, r1, n - 1);
      assert calls == [Next] + rest;
      RunSplit(codec, r, [Next], rest);
      RunOne(codec, r, Next);
      ConcatAssociative(r.given, [front.data], Blocks(codec, r.unread[front.size..]));
    }
  }

  lemma RunOne(codec: Codec, r: Reader, call: Call)
    ensures Run(codec, r, [call]) == Step(codec, r, call).0
  {
    assert [call][..0] == [];
  }

  lemma {:induction false} RunSplit(codec: Codec, r: Reader, a: seq<Call>, b: seq<Call>)
    ensures Run(codec, r, a + b) == Run(codec, Run(codec, r, a), b)
  {
    if b == [] {
      ConcatEmpty(a);
    } else {
      FrontOfConcat(a, b);
      RunSplit(codec, r, a, b[..|b| - 1]);
    }
  }

  /* ---- The decoder ------------------------------------------------------- */

  lemma FrontReady(codec: Codec, bytes: seq<byte>, h: Header)
    requires |bytes| >= HEADER_SIZE && codec.parse(bytes[..HEADER_SIZE]) == Some(h) && |bytes| >= RecordSize(h)
    ensures FrontOf(codec, bytes) == if h.elemSize == 0 then Broken(Unsupported)
                                     else match codec.decode(bytes[..RecordSize(h)])
                                       case Err(e) => Broken(e)
                                       case Ok(data) => Record(data, RecordSize(h))
  {
  }

  lemma DecodedSize(codec: Codec, rec: seq<byte>, h: Header)
    requires codec.Measured() && |rec| >= HEADER_SIZE && codec.parse(rec[..HEADER_SIZE]) == Some(h)
    requires codec.decode(rec).Ok?
    ensures BlockBytes(h) == |codec.decode(rec).value| < U64_LIMIT
  {
  }

  /** Ready is left again within the call that reaches it. */
  datatype Phase = AtHeader | Parsed | Ready | Failed

  class Decoder {
    const codec: Codec
    var input: seq<byte>
    var inHead: nat
    var header: Header
    var total: nat
    var owned: seq<byte>
    var phase: Phase
    var finished: bool
    var blocksPulled: nat
    var bytesProduced: nat

    /** All bytes accepted and all blocks handed out since the decoder was opened or reset. */
    ghost var fed: seq<byte>
    ghost var given: seq<seq<byte>>

    ghost function Left(): seq<byte>
      requires inHead <= |input|
      reads `input, `inHead
    {
      input[inHead..]
    }

    ghost function Current(): Reader
      requires inHead <= |input|
      reads this
    {
      Reader(fed, Left(), given, finished, phase == Failed)
    }

    /** A header kept from an earlier call is the header of the unread bytes. */
    ghost predicate HeaderKept()
      requires inHead <= |input|
      reads `input, `inHead, `header, `total
    {
      && |Left()| >= HEADER_SIZE && codec.parse(Left()[..HEADER_SIZE]) == Some(header)
      && total == RecordSize(header)
    }

    ghost predicate Valid()
      reads this
    {
      && codec.Measured() && inHead <= |input| && phase != Ready
      && (phase == Parsed ==> HeaderKept())
      && blocksPulled == |given| && bytesProduced == |Flat(given)|
    }

    constructor (codec: Codec)
      requires codec.Measured()
      ensures this.codec == codec && Valid() && Current() == OPENED
    {
      this.codec := codec;
      input, inHead, total, owned := [], 0, 0, [];
      header := Header(0, [], 0, 0, 0, 0);
      phase, finished, blocksPulled, bytesProduced, fed, given := AtHeader, false, 0, 0, [], [];
    }

    method Reset()
      requires Valid()
      modifies this
      ensures Valid() && Current() == OPENED
    {
      input, inHead, total, owned := [], 0, 0, [];
      header := Header(0, [], 0, 0, 0, 0);
      phase, finished, blocksPulled, bytesProduced, fed, given := AtHeader, false, 0, 0, [], [];
    }

    method Compact()
      requires inHead <= |input|
      modifies `input, `inHead
      ensures inHead == 0 && input == old(Left())
    {
      if inHead == 0 {
        return;
      }
      if inHead >= |input| {
        input, inHead := [], 0;
        return;
      }
      input, inHead := input[inHead..], 0;
    }

    method Push(chunk: seq<byte>) returns (r: Reply)
      requires Valid()
      modifies `input, `inHead, `fed
      ensures Valid() && (Current(), r) == old(Step(codec, Current(), Call.Push(chunk)))
    {
      if phase == Failed {
        return Refused(Corrupt);
      }
      if finished {
        return Refused(Invalid);
      }
      if |chunk| == 0 {
        ConcatEmpty(fed);
        ConcatEmpty(Left());
        return Accepted;
      }
      Compact();
      assert phase == Parsed ==> (input + chunk)[..HEADER_SIZE] == input[..HEADER_SIZE];
      input := input + chunk;
      fed := fed + chunk;
      return Accepted;
    }

    method Finish() returns (r: Reply)
      requires Valid()
      modifies `finished
      ensures Valid() && (Current(), r) == old(Step(codec, Current(), Call.Finish))
    {
      if phase == Failed {
        return Refused(Corrupt);
      }
      finished := true;
      return Accepted;
    }

    /** Move from AtHeader to Parsed to Ready as far as the buffered bytes allow. */
    method TryParse() returns (ok: bool)
      requires Valid() && phase != Failed
      modifies `header, `total, `phase
      ensures inHead <= |input|
      ensures !ok ==> phase == Failed && FrontOf(codec, Left()) == Broken(Corrupt)
      ensures ok && phase != Ready ==> Valid() && phase != Failed && FrontOf(codec, Left()) == More
      ensures ok && phase == Ready ==> HeaderKept() && |Left()| >= total
    {
      var avail := |input| - inHead;
      if phase == AtHeader {
        if avail < HEADER_SIZE {
          return true;
        }
        assert input[inHead..inHead + HEADER_SIZE] == Left()[..HEADER_SIZE];
        match codec.parse(input[inHead..inHead + HEADER_SIZE]) {
          case None =>
            phase := Failed;
            return false;
          case Some(h) =>
            header := h;
        }
        total := HEADER_SIZE + header.sideMeta + header.xformParams + header.payload + header.validity;
        phase := Parsed;
      }
      if phase == Parsed && avail >= total {
        phase := Ready;
      }
      return true;
    }

    /** Decode the buffered record and step over it. */
    method DecodeReady() returns (r: Reply)
      requires inHead <= |input| && HeaderKept() && |Left()| >= total && phase == Ready && codec.Measured()
      requires blocksPulled == |given| && bytesProduced == |Flat(given)|
      modifies `input, `inHead, `total, `owned, `phase, `blocksPulled, `bytesProduced, `given
      ensures Valid() && (Current(), r) == old(AfterNext(codec, Current()))
      ensures r.Block? ==> owned == r.data
    {
      hide FrontOf, BlockBytes, Codec.Measured;
      FrontReady(codec, Left(), header);
      if header.elemSize == 0 {
        phase := Failed;
        return Refused(Unsupported);
      }
      var rec := input[inHead..inHead + total];
      assert rec == Left()[..total] && rec[..HEADER_SIZE] == Left()[..HEADER_SIZE];
      match codec.decode(rec) {
        case Err(e) =>
          phase := Failed;
          return Refused(e);
        case Ok(data) =>
          owned := data;
      }
      DecodedSize(codec, rec, header);
      StepOver();
      return Block(owned);
    }

    /** Drop the decoded record and count its block. */
    method StepOver()
      requires inHead <= |input| && |Left()| >= total && BlockBytes(header) == |owned| < U64_LIMIT
      requires blocksPulled == |given| && bytesProduced == |Flat(given)|
      modifies `input, `inHead, `total, `phase, `blocksPulled, `bytesProduced, `given
      ensures inHead <= |input| && Left() == old(Left()[total..]) && phase == AtHeader
      ensures given == old(given) + [owned] && blocksPulled == |given| && bytesProduced == |Flat(given)|
    {
      hide BlockBytes, Flat;
      FlatConcat(given, [owned]);
      FlatOne(owned);
      given := given + [owned];
      assert Left()[total..] == input[inHead + total..];
      inHead := inHead + total;
      Compact();
      phase, total := AtHeader, 0;
      blocksPulled, bytesProduced := blocksPulled + 1, bytesProduced + BlockBytes(header) % U64_LIMIT;
    }

    method Next() returns (r: Reply)
      requires Valid()
      modifies this
      ensures Valid() && (Current(), r) == old(Step(codec, Current(), Call.Next))
      ensures r.Block? ==> owned == r.data
      ensures old(InStep(codec, Current())) ==> Answers(codec, old(Current()), r) && InStep(codec, Current())
    {
      hide Answers, InStep, FrontOf;
      StepAnswers(codec, Current());
      if phase == Failed {
        return Refused(Corrupt);
      }
      var ok := TryParse();
      if !ok {
        return Refused(Corrupt);
      }
      if phase == Ready {
        r := DecodeReady();
        return;
      }
      if finished {
        if |input| > inHead {
          phase := Failed;
          return Refused(Corrupt);
        }
        return Done;
      }
      return Starved;
    }

    /** The boundary after the last block handed out. */
    method Mark() returns (c: Checkpoint)
      requires Valid()
      ensures c == CheckpointAfter(given)
    {
      return Checkpoint(blocksPulled, bytesProduced);
    }
  }
}
