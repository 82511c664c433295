/**
 * The two forms of a string dictionary in side metadata (src/api/side_pack.c): in memory a table of offsets,
 * on disk LEB128 lengths. Both readers are given on any bytes.
 */
module SidePack {
  import opened Base
  import opened LzFormat

  /** Entry i is the next lengths[i] bytes of heap. */
  datatype Dict = Dict(lengths: seq<nat>, heap: seq<byte>)

  predicate DictOk(d: Dict)
  {
    Sum(d.lengths) == |d.heap| < U32_LIMIT && |d.lengths| < U32_LIMIT
  }

  /* ---- Tables of 32-bit numbers ------------------------------------------ */

  function U32s(v: seq<nat>): (b: seq<byte>)
    ensures |b| == 4 * |v|
  {
    if v == [] then [] else U32s(v[..|v| - 1]) + LE(v[|v| - 1], 4)
  }

  function U32At(b: seq<byte>, i: nat): nat
    requires 4 * i + 4 <= |b|
  {
    LEVal(b[4 * i..4 * i + 4])
  }

  lemma U32sAppend(v: seq<nat>, x: nat)
    ensures U32s(v + [x]) == U32s(v) + LE(x, 4)
  {
    assert (v + [x])[..|v|] == v;
  }

  lemma {:induction false} U32sAt(v: seq<nat>, rest: seq<byte>, i: nat)
    requires i < |v| && forall k :: 0 <= k < |v| ==> v[k] < U32_LIMIT
    ensures U32At(U32s(v) + rest, i) == v[i]
  {
    var front, last := v[..|v| - 1], v[|v| - 1];
    ConcatAssociative(U32s(front), LE(last, 4), rest);
    if i == |v| - 1 {
      MiddleOf(U32s(front), LE(last, 4), rest);
      LEFieldRoundTrip(last, 4);
    } else {
      U32sAt(front, LE(last, 4) + rest, i);
    }
  }

  lemma U32Front(b: seq<byte>, n: nat, i: nat)
    requires 4 * i + 4 <= n <= |b|
    ensures U32At(b[..n], i) == U32At(b, i)
  {
    assert b[..n][4 * i..4 * i + 4] == b[4 * i..4 * i + 4];
  }

  /** The table read from bytes is the table they were written from. */
  lemma {:induction false} U32sRead(b: seq<byte>, v: seq<nat>)
    requires |b| == 4 * |v| && forall i :: 0 <= i < |v| ==> v[i] == U32At(b, i)
    ensures U32s(v) == b
  {
    hide LE, LEVal;
    if v != [] {
      var n := |v| - 1;
      var front := b[..4 * n];
      forall i | 0 <= i < n ensures U32At(front, i) == v[i] { U32Front(b, 4 * n, i); }
      U32sRead(front, v[..n]);
      LEBelow(b[4 * n..4 * n + 4]);
      assert b == front + b[4 * n..4 * n + 4];
    } else {
      assert b == [];
    }
  }

  /* ---- LEB128 lengths ---------------------------------------------------- */

  function Place(n: nat): (p: nat)
    requires n < 5
  {
    if n == 0 then 1 else if n == 1 then 0x80 else if n == 2 then 0x4000 else if n == 3 then 0x20_0000 else 0x1000_0000
  }

  /** A LEB128 number from its n-th byte on: at most five bytes, and nothing above 32 bits. */
  function Get(b: seq<byte>, n: nat): (r: reading)
    ensures r.Some? ==> n < 5 && r.value.0 <= U32_LIMIT - Place(n) && |r.value.1| < |b|
    decreases |b|
  {
    if n >= 5 || b == [] || (n == 4 && b[0] > 15) then None
    else if b[0] < 128 then Some((b[0] * Place(n), b[1..]))
    else
      match Get(b[1..], n + 1)
      case None => None
      case Some((v, rest)) => Some((b[0] % 128 * Place(n) + v, rest))
  }

  lemma PlaceStep(v: nat, n: nat)
    requires n < 5 && v * Place(n) < U32_LIMIT && v >= 128
    ensures n < 4 && Place(n + 1) == 128 * Place(n)
    ensures v / 128 * Place(n + 1) < U32_LIMIT
    ensures v % 128 * Place(n) + v / 128 * Place(n + 1) == v * Place(n)
  {
    var p, q, r := Place(n), v / 128, v % 128;
    assert v == q * 128 + r;
    MulDistribute(q * 128, r, p);
    assert q * 128 * p == q * (128 * p);
  }

  lemma {:induction false} GetLeb(v: nat, n: nat, rest: seq<byte>)
    requires n < 5 && v * Place(n) < U32_LIMIT && (v > 0 || n == 0)
    ensures Get(Leb(v) + rest, n) == Some((v * Place(n), rest))
    decreases v
  {
    var b := Leb(v) + rest;
    if v < 128 {
      assert b[1..] == rest && b[0] == v;
      assert n == 4 ==> v <= 15;
    } else {
      PlaceStep(v, n);
      hide Place;
      assert b[1..] == Leb(v / 128) + rest && b[0] == v % 128 + 128 && b[0] % 128 == v % 128;
      GetLeb(v / 128, n + 1, rest);
    }
  }

  function Lebs(v: seq<nat>): seq<byte>
  {
    if v == [] then [] else Lebs(v[..|v| - 1]) + Leb(v[|v| - 1])
  }

  lemma LebsAppend(v: seq<nat>, x: nat)
    ensures Lebs(v + [x]) == Lebs(v) + Leb(x)
  {
    assert (v + [x])[..|v|] == v;
  }

  lemma {:induction false} LebsCons(x: nat, v: seq<nat>)
    ensures Lebs([x] + v) == Leb(x) + Lebs(v)
    ensures |Lebs(v)| >= |v|
  {
    if v == [] {
      assert [x] + v == [] + [x];
      LebsAppend([], x);
    } else {
      var front, last := v[..|v| - 1], v[|v| - 1];
      LebsCons(x, front);
      assert [x] + v == ([x] + front) + [last];
      LebsAppend([x] + front, last);
      ConcatAssociative(Leb(x), Lebs(front), Leb(last));
    }
  }

  /** k lengths whose sum with those before stays in 32 bits, and the bytes after them. */
  function GetLengths(b: seq<byte>, k: nat, total: nat): (r: Option<(seq<nat>, seq<byte>)>)
    ensures r.Some? ==> |r.value.0| == k && |r.value.1| <= |b|
    decreases k
  {
    if k == 0 then Some(([], b))
    else
      match Get(b, 0)
      case None => None
      case Some((len, rest)) =>
        if total + len >= U32_LIMIT then None
        else
          match GetLengths(rest, k - 1, total + len)
          case None => None
          case Some((more, end)) => Some(([len] + more, end))
  }

  lemma {:induction false} SumFirst(x: nat, v: seq<nat>)
    ensures Sum([x] + v) == x + Sum(v)
  {
    SumConcat([x], v);
    assert [x][..0] == [];
    assert Sum([x]) == Sum([x][..0]) + x;
  }

  lemma GetNext(b: seq<byte>, k: nat, total: nat, len: nat, rest: seq<byte>, more: seq<nat>, end: seq<byte>)
    requires k > 0 && Get(b, 0) == Some((len, rest)) && total + len < U32_LIMIT
    requires GetLengths(rest, k - 1, total + len) == Some((more, end))
    ensures GetLengths(b, k, total) == Some(([len] + more, end))
  {
    hide Get;
  }

  /** The first length of a dictionary, when the others are read. */
  lemma FirstLength(x: nat, tail: seq<nat>, total: nat, rest: seq<byte>)
    requires total + x < U32_LIMIT
    requires GetLengths(Lebs(tail) + rest, |tail|, total + x) == Some((tail, rest))
    ensures GetLengths(Lebs([x] + tail) + rest, |tail| + 1, total) == Some(([x] + tail, rest))
  {
    LebsCons(x, tail);
    GetLeb(x, 0, Lebs(tail) + rest);
    hide *;
    ConcatAssociative(Leb(x), Lebs(tail), rest);
    GetNext(Lebs([x] + tail) + rest, |tail| + 1, total, x, Lebs(tail) + rest, tail, rest);
  }

  lemma {:induction false} LengthsRead(v: seq<nat>, total: nat, rest: seq<byte>)
    requires total + Sum(v) < U32_LIMIT
    ensures GetLengths(Lebs(v) + rest, |v|, total) == Some((v, rest))
    decreases |v|
  {
    if v == [] {
      ConcatEmpty(rest);
    } else {
      hide Lebs, Leb, Sum, Get, GetLengths;
      var tail := v[1..];
      assert v == [v[0]] + tail;
      SumFirst(v[0], tail);
      SumNonNegative(tail);
      LengthsRead(tail, total + v[0], rest);
      FirstLength(v[0], tail, total, rest);
    }
  }

  lemma {:induction false} LengthsBounded(b: seq<byte>, k: nat, total: nat)
    requires GetLengths(b, k, total).Some? && total < U32_LIMIT
    ensures total + Sum(GetLengths(b, k, total).value.0) < U32_LIMIT
    decreases k
  {
    if k > 0 {
      var (len, rest) := Get(b, 0).value;
      LengthsBounded(rest, k - 1, total + len);
      SumFirst(len, GetLengths(rest, k - 1, total + len).value.0);
    }
  }

  /* ---- The form in memory ------------------------------------------------ */

  /** Where each entry starts, and where the last one ends. */
  function Offsets(lengths: seq<nat>): (o: seq<nat>)
    ensures |o| == |lengths| + 1 && o[0] == 0 && o[|lengths|] == Total(lengths)
  {
    if lengths == [] then [0] else Offsets(lengths[..|lengths| - 1]) + [Total(lengths)]
  }

  lemma OffsetsAppend(lengths: seq<nat>, x: nat)
    ensures Offsets(lengths + [x]) == Offsets(lengths) + [Sum(lengths) + x]
  {
    assert (lengths + [x])[..|lengths|] == lengths;
    SumAppend(lengths, x);
  }

  predicate Rising(o: seq<nat>)
  {
    forall i, j :: 0 <= i < j < |o| ==> o[i] <= o[j]
  }

  /** Offsets that start at 0, never fall and end at total. */
  predicate Ramp(o: seq<nat>, total: nat)
    requires o != []
  {
    o[0] == 0 && o[|o| - 1] == total && Rising(o)
  }

  function Lengths(o: seq<nat>): (v: seq<nat>)
    requires o != [] && Rising(o)
    ensures |v| == |o| - 1
  {
    if |o| == 1 then [] else Lengths(o[..|o| - 1]) + [o[|o| - 1] - o[|o| - 2]]
  }

  lemma LengthsAppend(front: seq<nat>, x: nat)
    requires front != [] && Rising(front) && Rising(front + [x]) && x >= front[|front| - 1]
    ensures Lengths(front + [x]) == Lengths(front) + [x - front[|front| - 1]]
  {
    hide Rising, Lengths;
    var v := front + [x];
    LengthsStep(v);
    assert v[..|front|] == front;
  }

  lemma LengthsStep(o: seq<nat>)
    requires |o| > 1 && Rising(o)
    ensures Rising(o[..|o| - 1]) && o[|o| - 1] >= o[|o| - 2]
    ensures Lengths(o) == Lengths(o[..|o| - 1]) + [o[|o| - 1] - o[|o| - 2]]
  {
  }

  lemma RisingFront(o: seq<nat>)
    requires Rising(o) && |o| > 1
    ensures Rising(o[..|o| - 1]) && o[|o| - 1] >= o[|o| - 2]
  {
  }

  lemma {:induction false} OffsetsOfLengths(o: seq<nat>)
    requires o != [] && o[0] == 0 && Rising(o)
    ensures Offsets(Lengths(o)) == o && Sum(Lengths(o)) == o[|o| - 1]
  {
    if |o| == 1 {
      assert o == [0];
    } else {
      RisingFront(o);
      hide Rising;
      var front, x := o[..|o| - 1], o[|o| - 1];
      var step := x - front[|front| - 1];
      OffsetsOfLengths(front);
      LastSplit(o);
      hide *;
      LengthsAppend(front, x);
      OffsetsAppend(Lengths(front), step);
      SumAppend(Lengths(front), step);
    }
  }

  lemma {:induction false} LengthsOfOffsets(lengths: seq<nat>, total: nat)
    requires Sum(lengths) <= total
    ensures var o := Offsets(lengths);
            Rising(o) && Lengths(o) == lengths && forall i :: 0 <= i < |o| ==> o[i] <= total
  {
    if lengths != [] {
      var front, last := lengths[..|lengths| - 1], lengths[|lengths| - 1];
      assert lengths == front + [last];
      SumAppend(front, last);
      OffsetsAppend(front, last);
      LengthsOfOffsets(front, total);
      assert Offsets(lengths)[..|lengths|] == Offsets(front);
    }
  }

  function Memory(d: Dict): (b: seq<byte>)
    ensures |b| == 8 + 4 * (|d.lengths| + 1) + |d.heap|
  {
    LE(|d.lengths|, 4) + LE(|d.heap|, 4) + U32s(Offsets(d.lengths)) + d.heap
  }

  function Table(side: seq<byte>, count: nat): (o: seq<nat>)
    requires |side| >= 8 + 4 * (count + 1)
    ensures |o| == count + 1
  {
    seq(count + 1, i requires 0 <= i <= count => U32At(side[8..], i))
  }

  /** The dictionary some bytes hold, if they hold one. */
  function ReadMemory(side: seq<byte>): Option<Dict>
  {
    if |side| < 12 then None
    else
      var count, total := U32At(side, 0), U32At(side, 1);
      if |side| != 8 + (count + 1) * 4 + total then None
      else
        var o := Table(side, count);
        if Ramp(o, total) then Some(Dict(Lengths(o), side[8 + (count + 1) * 4..])) else None
  }

  lemma MemoryParts(d: Dict)
    requires DictOk(d)
    ensures var b, n := Memory(d), |d.lengths|;
            && U32At(b, 0) == n && U32At(b, 1) == |d.heap| && b[8 + (n + 1) * 4..] == d.heap
            && b[8..] == U32s(Offsets(d.lengths)) + d.heap
  {
    hide LE, LEVal, U32s, Offsets;
    var b, n := Memory(d), |d.lengths|;
    assert b[0..4] == LE(n, 4) && b[4..8] == LE(|d.heap|, 4);
    LEFieldRoundTrip(n, 4);
    LEFieldRoundTrip(|d.heap|, 4);
  }

  /** Reading the form in memory gives back exactly the dictionaries. */
  lemma MemoryReads(d: Dict)
    requires DictOk(d)
    ensures ReadMemory(Memory(d)) == Some(d)
  {
    hide DictOk, Memory, LE, LEVal, U32At;
    var b, n := Memory(d), |d.lengths|;
    var o := Offsets(d.lengths);
    MemoryParts(d);
    DictSizes(d);
    LengthsOfOffsets(d.lengths, |d.heap|);
    forall i | 0 <= i <= n
      ensures Table(b, n)[i] == o[i]
    {
      U32sAt(o, d.heap, i);
    }
    assert Table(b, n) == o;
  }

  lemma DictSizes(d: Dict)
    requires DictOk(d)
    ensures Sum(d.lengths) == |d.heap| < U32_LIMIT
    ensures var o := Offsets(d.lengths); forall i :: 0 <= i < |o| ==> o[i] < U32_LIMIT
  {
    LengthsOfOffsets(d.lengths, |d.heap|);
  }

  lemma TableBytes(side: seq<byte>, count: nat)
    requires |side| >= 8 + (count + 1) * 4
    ensures U32s(Table(side, count)) == side[8..8 + (count + 1) * 4]
  {
    hide LEVal;
    var o, table := Table(side, count), side[8..8 + (count + 1) * 4];
    forall i | 0 <= i <= count
      ensures U32At(table, i) == o[i]
    {
      SliceOfSlice(side, 8, 8 + (count + 1) * 4, 4 * i, 4 * i + 4);
      SliceOfSlice(side, 8, |side|, 4 * i, 4 * i + 4);
      assert side[8..|side|] == side[8..];
    }
    U32sRead(table, o);
  }

  lemma ReadIsMemory(side: seq<byte>)
    requires ReadMemory(side).Some?
    ensures DictOk(ReadMemory(side).value) && Memory(ReadMemory(side).value) == side
  {
    hide LE, LEVal, U32s;
    var count, total := U32At(side, 0), U32At(side, 1);
    var d := ReadMemory(side).value;
    LEBelow(side[0..4]);
    LEBelow(side[4..8]);
    assert LE(count, 4) == side[0..4] && LE(total, 4) == side[4..8];
    OffsetsOfLengths(Table(side, count));
    TableBytes(side, count);
    assert side == side[0..4] + side[4..8] + side[8..8 + (count + 1) * 4] + d.heap;
  }

  /* ---- The packed form --------------------------------------------------- */

  function Packed(d: Dict): seq<byte>
  {
    LE(|d.lengths|, 4) + Lebs(d.lengths) + d.heap
  }

  function ReadPacked(packed: seq<byte>): Option<Dict>
  {
    if |packed| < 4 || U32At(packed, 0) > |packed| - 4 then None
    else
      match GetLengths(packed[4..], U32At(packed, 0), 0)
      case None => None
      case Some((lengths, heap)) => if |heap| == Sum(lengths) then Some(Dict(lengths, heap)) else None
  }

  lemma PackedReads(d: Dict)
    requires DictOk(d)
    ensures ReadPacked(Packed(d)) == Some(d)
  {
    hide LE, LEVal, Lebs, GetLengths;
    var b := Packed(d);
    assert b[0..4] == LE(|d.lengths|, 4) && b[4..] == Lebs(d.lengths) + d.heap;
    LEFieldRoundTrip(|d.lengths|, 4);
    LebsCons(0, d.lengths);
    LengthsRead(d.lengths, 0, d.heap);
  }

  lemma ReadPackedOk(packed: seq<byte>)
    requires ReadPacked(packed).Some?
    ensures DictOk(ReadPacked(packed).value)
  {
    LEBelow(packed[0..4]);
    LengthsBounded(packed[4..], U32At(packed, 0), 0);
  }

  /** What pack and unpack do to bytes. */
  function PackedBytes(side: seq<byte>): Result<seq<byte>>
  {
    match ReadMemory(side)
    case None => Err(Corrupt)
    case Some(d) => Ok(Packed(d))
  }

  function UnpackedBytes(packed: seq<byte>): Result<seq<byte>>
  {
    match ReadPacked(packed)
    case None => Err(Corrupt)
    case Some(d) => Ok(Memory(d))
  }

  /** Whatever unpacks is the form in memory of a dictionary. */
  lemma UnpackedIsMemory(packed: seq<byte>)
    ensures UnpackedBytes(packed).Ok? ==> exists d :: DictOk(d) && UnpackedBytes(packed).value == Memory(d)
  {
    hide DictOk, Memory, ReadPacked;
    if ReadPacked(packed).Some? {
      ReadPackedOk(packed);
    }
  }

  /** Unpack undoes pack; and whatever unpacks is accepted by pack again, with the same meaning. */
  lemma PackRoundTrip(side: seq<byte>)
    ensures PackedBytes(side).Ok? ==> UnpackedBytes(PackedBytes(side).value) == Ok(side)
    ensures UnpackedBytes(side).Ok? ==>
              && PackedBytes(UnpackedBytes(side).value).Ok?
              && UnpackedBytes(PackedBytes(UnpackedBytes(side).value).value) == UnpackedBytes(side)
    ensures PackedBytes(side).Ok? <==> exists d :: DictOk(d) && Memory(d) == side
  {
    hide DictOk, Memory, Packed, ReadMemory, ReadPacked;
    if ReadMemory(side).Some? {
      ReadIsMemory(side);
      PackedReads(ReadMemory(side).value);
    }
    if ReadPacked(side).Some? {
      ReadPackedOk(side);
      MemoryReads(ReadPacked(side).value);
      PackedReads(ReadPacked(side).value);
    }
    forall d | DictOk(d) && Memory(d) == side
      ensures PackedBytes(side).Ok?
    {
      MemoryReads(d);
    }
  }

  /* ---- The loops --------------------------------------------------------- */

  method LebPut(v: nat) returns (b: seq<byte>)
    ensures b == Leb(v)
  {
    b := [];
    var w := v;
    while w >= 0x80
      invariant b + Leb(w) == Leb(v)
      decreases w
    {
      ConcatAssociative(b, [w % 128 + 128], Leb(w / 128));
      b := b + [w % 128 + 128];
      w := w / 128;
    }
    b := b + [w];
  }

  /** Bytes used and the number read; none used when the bytes are not a number. */
  lemma GetEnds(p: seq<byte>)
    ensures forall n: nat {:trigger p[n..]} :: n <= |p| && (n >= 5 || n == |p|) ==> Get(p[n..], n) == None
  {
  }

  lemma GetStep(p: seq<byte>, n: nat)
    requires n < |p| && n < 5
    ensures Get(p[n..], n)
            == if n == 4 && p[n] > 15 then None
               else if p[n] < 128 then Some((p[n] * Place(n), p[n + 1..]))
               else
                 match Get(p[n + 1..], n + 1)
                 case None => None
                 case Some((v, rest)) => Some((p[n] % 128 * Place(n) + v, rest))
  {
    assert p[n..][0] == p[n] && p[n..][1..] == p[n + 1..];
    hide Place;
  }

  method LebGet(p: seq<byte>) returns (used: nat, v: nat)
    ensures match Get(p, 0)
            case None => used == 0
            case Some((value, rest)) => 0 < used <= |p| && v == value && p[used..] == rest
  {
    hide Get, Place;
    v := 0;
    var n := 0;
    assert p[0..] == p;
    GetEnds(p);
    while n < 5 && n < |p|
      invariant n <= 5 && n <= |p|
      invariant match Get(p[n..], n)
                case None => Get(p, 0).None?
                case Some((value, rest)) => Get(p, 0) == Some((v + value, rest))
    {
      GetStep(p, n);
      var b: int := p[n];
      if n == 4 && b > 0x0F {
        return 0, v;
      }
      v := v + b % 128 * Place(n);
      if b < 128 {
        return n + 1, v;
      }
      n := n + 1;
    }
    return 0, v;
  }

  method Pack(side: seq<byte>) returns (r: Result<seq<byte>>)
    ensures r == PackedBytes(side)
  {
    hide Lengths, Lebs, LE, U32At;
    if |side| < 12 {
      return Err(Corrupt);
    }
    var count, total := U32At(side, 0), U32At(side, 1);
    if |side| != 8 + (count + 1) * 4 + total {
      return Err(Corrupt);
    }
    ghost var o := Table(side, count);
    var table, heap := side[8..], side[8 + (count + 1) * 4..];
    var w := LE(count, 4);
    var prev := U32At(table, 0);
    if prev != 0 {
      return Err(Corrupt);
    }
    OneOffset(o);
    ConcatEmpty(w);
    for d := 0 to count
      invariant prev == o[d] <= total
      invariant Rising(o[..d + 1]) && w == LE(count, 4) + Lebs(Lengths(o[..d + 1]))
    {
      var next := U32At(table, d + 1);
      if next < prev || next > total {
        NotRamp(o, total, d);
        return Err(Corrupt);
      }
      var b := LebPut(next - prev);
      NextLength(o, d);
      ConcatAssociative(LE(count, 4), Lebs(Lengths(o[..d + 1])), b);
      w := w + b;
      prev := next;
    }
    assert o[..count + 1] == o;
    if prev != total {
      return Err(Corrupt);
    }
    return Ok(w + heap);
  }

  lemma OneOffset(o: seq<nat>)
    requires o != []
    ensures Rising(o[..1]) && Lebs(Lengths(o[..1])) == []
  {
  }

  lemma NotRamp(o: seq<nat>, total: nat, d: nat)
    requires d + 1 < |o| && (o[d + 1] < o[d] || o[d + 1] > total)
    ensures !Ramp(o, total)
  {
    if Rising(o) {
      assert d + 1 < |o| - 1 ==> o[d + 1] <= o[|o| - 1];
    }
  }

  lemma NextLength(o: seq<nat>, d: nat)
    requires d + 1 < |o| && Rising(o[..d + 1]) && o[d] <= o[d + 1]
    ensures Rising(o[..d + 2])
    ensures Lebs(Lengths(o[..d + 2])) == Lebs(Lengths(o[..d + 1])) + Leb(o[d + 1] - o[d])
  {
    var a, b := o[..d + 1], o[..d + 2];
    forall i, j | 0 <= i < j < |b|
      ensures b[i] <= b[j]
    {
      assert b[i] == a[i];
      if j == d + 1 {
        assert a[i] <= a[d];
      } else {
        assert b[j] == a[j];
      }
    }
    assert b[..d + 1] == a;
    LebsAppend(Lengths(a), o[d + 1] - o[d]);
  }

  method Unpack(packed: seq<byte>) returns (r: Result<seq<byte>>)
    ensures r == UnpackedBytes(packed)
  {
    hide LE, U32At, GetLengths, U32s, Offsets, Sum;
    if |packed| < 4 {
      return Err(Corrupt);
    }
    var count := U32At(packed, 0);
    if count > |packed| - 4 {
      return Err(Corrupt);
    }
    var p := packed[4..];
    var total := 0;
    var offsets := LE(0, 4);
    ghost var lengths: seq<nat> := [];
    NoEntries(p, count);
    for d := 0 to count
      invariant |lengths| == d && total == Sum(lengths)
      invariant offsets == U32s(Offsets(lengths))
      invariant match GetLengths(p, count - d, total)
                case None => GetLengths(packed[4..], count, 0).None?
                case Some((more, rest)) => GetLengths(packed[4..], count, 0) == Some((lengths + more, rest))
    {
      NextEntry(p, count - d, total);
      var used, len := LebGet(p);
      if used == 0 {
        return Err(Corrupt);
      }
      if total + len >= U32_LIMIT {
        return Err(Corrupt);
      }
      p := p[used..];
      OffsetsAppend(lengths, len);
      U32sAppend(Offsets(lengths), total + len);
      SumAppend(lengths, len);
      total := total + len;
      offsets := offsets + LE(total, 4);
      ghost var rest := GetLengths(p, count - d - 1, total);
      if rest.Some? {
        ConcatAssociative(lengths, [len], rest.value.0);
      }
      lengths := lengths + [len];
    }
    LastEntry(p, total);
    ConcatEmpty(lengths);
    if |p| != total {
      return Err(Corrupt);
    }
    return Ok(LE(count, 4) + LE(total, 4) + offsets + p);
  }

  lemma NoEntries(p: seq<byte>, count: nat)
    ensures Sum([]) == 0 && U32s(Offsets([])) == LE(0, 4)
    ensures GetLengths(p, count, 0).Some? ==>
              GetLengths(p, count, 0) == Some(([] + GetLengths(p, count, 0).value.0, GetLengths(p, count, 0).value.1))
  {
    U32sAppend([], 0);
    if GetLengths(p, count, 0).Some? {
      ConcatEmpty(GetLengths(p, count, 0).value.0);
    }
  }

  lemma NextEntry(p: seq<byte>, k: nat, total: nat)
    requires k > 0
    ensures GetLengths(p, k, total) ==
            match Get(p, 0)
            case None => None
            case Some((len, rest)) =>
              if total + len >= U32_LIMIT then None
              else
                match GetLengths(rest, k - 1, total + len)
                case None => None
                case Some((more, end)) => Some(([len] + more, end))
  {
  }

  lemma LastEntry(p: seq<byte>, total: nat)
    ensures GetLengths(p, 0, total) == Some(([], p))
  {
  }
}
