/**
 * Block records as the push/pull streams see them (include/tdc/format.h, src/api/pushpull_decode.c): an
 * 80-byte header that gives the record's length, and a block encoder and decoder around it.
 */
module PushPullRecord {
  import opened Base

  const HEADER_SIZE: nat := 80

  /** What the push/pull decoder takes from a valid header; an element of variable width has size 0. */
  datatype Header = Header(elemSize: nat, dims: seq<nat>, sideMeta: nat, xformParams: nat, payload: nat, validity: nat)

  function RecordSize(h: Header): (n: nat)
    ensures n >= HEADER_SIZE
  {
    HEADER_SIZE + h.sideMeta + h.xformParams + h.payload + h.validity
  }

  function Elements(dims: seq<nat>): nat
  {
    if dims == [] then 1 else Elements(dims[..|dims| - 1]) * dims[|dims| - 1]
  }

  /** Every byte of every section lengthens the record by one. */
  lemma SectionsCount(h: Header, a: nat, b: nat, c: nat, d: nat)
    ensures RecordSize(h.(sideMeta := h.sideMeta + a, xformParams := h.xformParams + b,
                          payload := h.payload + c, validity := h.validity + d)) == RecordSize(h) + a + b + c + d
    ensures RecordSize(h.(sideMeta := 0, xformParams := 0, payload := 0, validity := 0)) == HEADER_SIZE
  {
  }

  /** A block of several dimensions has as many elements as their product. */
  lemma {:induction false} ElementsSplit(a: seq<nat>, b: seq<nat>)
    ensures Elements(a + b) == Elements(a) * Elements(b)
    ensures forall n :: Elements([n]) == n
  {
    if b == [] {
      assert a + b == a;
    } else {
      ElementsSplit(a, b[..|b| - 1]);
      assert (a + b)[..|a + b| - 1] == a + b[..|b| - 1];
    }
  }

  function BlockBytes(h: Header): nat { Elements(h.dims) * h.elemSize }

  /**
   * The block layer below the streams: encode turns element bytes into a record, parse is the header
   * validator on 80 bytes, decode turns a whole record back into element bytes.
   */
  datatype Codec = Codec(
    encode: seq<byte> -> Result<seq<byte>>,
    parse: seq<byte> -> Option<Header>,
    decode: seq<byte> -> Result<seq<byte>>)
  {
    /** The bytes a decoded block has are the bytes its header announces. */
    ghost predicate Measured()
    {
      forall rec :: |rec| >= HEADER_SIZE && decode(rec).Ok? && parse(rec[..HEADER_SIZE]).Some? ==>
        |decode(rec).value| == BlockBytes(parse(rec[..HEADER_SIZE]).value) < U64_LIMIT
    }

    /** Whatever encode makes of whole elements is one record that decode undoes. */
    ghost predicate Faithful(elemSize: nat)
      requires elemSize > 0
    {
      forall data :: data != [] && |data| % elemSize == 0 && encode(data).Ok? ==> Delimits(encode(data).value, data)
    }

    ghost predicate Delimits(rec: seq<byte>, data: seq<byte>)
    {
      && |rec| >= HEADER_SIZE
      && parse(rec[..HEADER_SIZE]).Some?
      && RecordSize(parse(rec[..HEADER_SIZE]).value) == |rec|
      && parse(rec[..HEADER_SIZE]).value.elemSize > 0
      && decode(rec) == Ok(data)
    }
  }

  function Flat<T>(s: seq<seq<T>>): seq<T>
  {
    if s == [] then [] else Flat(s[..|s| - 1]) + s[|s| - 1]
  }

  lemma {:induction false} FlatConcat<T>(a: seq<seq<T>>, b: seq<seq<T>>)
    ensures Flat(a + b) == Flat(a) + Flat(b)
  {
    if b == [] {
      ConcatEmpty(a);
    } else {
      FrontOfConcat(a, b);
      FlatConcat(a, b[..|b| - 1]);
    }
  }

  lemma FlatOne<T>(s: seq<T>)
    ensures Flat([s]) == s
  {
  }

  /** A stream boundary: how many blocks, and how many element bytes they hold. */
  datatype Checkpoint = Checkpoint(blocks: nat, bytes: nat)

  function CheckpointAfter(blocks: seq<seq<byte>>): Checkpoint
  {
    Checkpoint(|blocks|, |Flat(blocks)|)
  }
}
