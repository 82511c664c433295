/**
 * Bit strings, most significant bit first, and 64-bit words as their 64 bits. Shifts and ORs of a
 * word are exact, so the bit writer and reader can be modelled register for register.
 */
module BitString {
  import opened Base

  type bits = seq<bool>

  type word = w: seq<bool> | |w| == 64 witness seq(64, _ => false)

  /** The n low bits of v. */
  function Bits(v: nat, n: nat): (b: bits)
    ensures |b| == n
  {
    if n == 0 then [] else Bits(v / 2, n - 1) + [v % 2 == 1]
  }

  function Val(b: bits): (v: nat)
  {
    if b == [] then 0 else 2 * Val(b[..|b| - 1]) + if b[|b| - 1] then 1 else 0
  }

  lemma {:induction false} ValBound(b: bits)
    ensures Val(b) < Pow2(|b|)
  {
    if b != [] {
      ValBound(b[..|b| - 1]);
    }
  }

  function Zeros(n: nat): (b: bits)
    ensures |b| == n && forall i :: 0 <= i < n ==> !b[i]
  {
    seq(n, _ => false)
  }

  lemma {:induction false} ValOfBits(v: nat, n: nat)
    requires v < Pow2(n)
    ensures Val(Bits(v, n)) == v
  {
    if n > 0 {
      ValOfBits(v / 2, n - 1);
      assert Bits(v, n)[..n - 1] == Bits(v / 2, n - 1);
    }
  }

  lemma {:induction false} BitsOfVal(b: bits)
    ensures Bits(Val(b), |b|) == b
  {
    if b != [] {
      BitsOfVal(b[..|b| - 1]);
      assert Val(b) / 2 == Val(b[..|b| - 1]);
    }
  }

  lemma {:induction false} ValConcat(a: bits, b: bits)
    ensures Val(a + b) == Val(a) * Pow2(|b|) + Val(b)
  {
    if b == [] {
      ConcatEmpty(a);
    } else {
      var b' := b[..|b| - 1];
      ValConcat(a, b');
      FrontOfConcat(a, b);
      MulDouble(Val(a), Pow2(|b'|));
    }
  }

  /** The value of a prefix drops the low bits. */
  lemma ValPrefix(b: bits, k: nat)
    requires k <= |b|
    ensures Val(b[..k]) == Val(b) / Pow2(|b| - k)
  {
    assert b == b[..k] + b[k..];
    ValConcat(b[..k], b[k..]);
    ValBound(b[k..]);
    DivModUnique(Val(b[..k]), Pow2(|b| - k), Val(b[k..]));
  }

  lemma {:induction false} ValZeros(n: nat)
    ensures Val(Zeros(n)) == 0
  {
    if n > 0 {
      ValZeros(n - 1);
      assert Zeros(n)[..n - 1] == Zeros(n - 1);
    }
  }

  /* ---- Bytes as bits ----------------------------------------------------- */

  /** The bit string of a byte string. */
  function Stream(s: seq<byte>): (b: bits)
    ensures |b| == 8 * |s|
  {
    if s == [] then [] else Stream(s[..|s| - 1]) + Bits(s[|s| - 1], 8)
  }

  lemma {:induction false} StreamConcat(a: seq<byte>, b: seq<byte>)
    ensures Stream(a + b) == Stream(a) + Stream(b)
  {
    if b == [] {
      ConcatEmpty(a);
      ConcatEmpty(Stream(a));
    } else {
      StreamConcat(a, b[..|b| - 1]);
      FrontOfConcat(a, b);
      ConcatAssociative(Stream(a), Stream(b[..|b| - 1]), Bits(b[|b| - 1], 8));
    }
  }

  lemma StreamSlice(s: seq<byte>, i: nat, j: nat)
    requires i <= j <= |s|
    ensures Stream(s[i..j]) == Stream(s)[8 * i..8 * j]
  {
    SplitThree(s, i, j);
    StreamMiddle(s[..i], s[i..j], s[j..]);
  }

  lemma StreamMiddle(a: seq<byte>, b: seq<byte>, c: seq<byte>)
    ensures Stream(b) == Stream(a + b + c)[8 * |a|..8 * (|a| + |b|)]
  {
    StreamConcat(a, b);
    StreamConcat(a + b, c);
    MiddleOf(Stream(a), Stream(b), Stream(c));
  }

  lemma StreamByte(s: seq<byte>, i: nat)
    requires i < |s|
    ensures Stream(s)[8 * i..8 * i + 8] == Bits(s[i], 8)
  {
    StreamSlice(s, i, i + 1);
    assert s[i..i + 1] == [s[i]];
    assert Stream([s[i]]) == Stream([s[i]][..0]) + Bits(s[i], 8);
  }

  /** The byte with these eight bits. */
  function ByteOf(b: bits): (v: byte)
    requires |b| == 8
    ensures Bits(v, 8) == b
  {
    BitsOfVal(b);
    ValBound(b);
    assert Pow2(8) == 256;
    Val(b)
  }

  /** A bit string packed into bytes, the last one padded with zero bits. */
  function Pack(b: bits): (s: seq<byte>)
    ensures |s| == (|b| + 7) / 8
  {
    if b == [] then []
    else if |b| <= 8 then [ByteOf(b + Zeros(8 - |b|))]
    else [ByteOf(b[..8])] + Pack(b[8..])
  }

  lemma StreamOne(v: byte)
    ensures Stream([v]) == Bits(v, 8)
  {
    StreamByte([v], 0);
  }

  lemma Rejoin(b: bits, n: nat, tail: bits)
    requires n <= |b|
    ensures b[..n] + (b[n..] + tail) == b + tail
  {
  }

  lemma PackSplit(b: bits)
    requires |b| > 8
    ensures |Pack(b)| == |Pack(b[8..])| + 1 && Stream(Pack(b)) == b[..8] + Stream(Pack(b[8..]))
  {
    hide Bits, Stream;
    var v := ByteOf(b[..8]);
    StreamConcat([v], Pack(b[8..]));
    StreamOne(v);
  }

  lemma PackShort(b: bits)
    requires |b| <= 8
    ensures Stream(Pack(b)) == b + Zeros(8 * |Pack(b)| - |b|)
  {
    if b == [] {
      StreamEmpty([]);
    } else {
      assert Pack(b) == [ByteOf(b + Zeros(8 - |b|))];
      hide *;
      StreamOne(ByteOf(b + Zeros(8 - |b|)));
    }
  }

  lemma {:induction false} StreamOfPack(b: bits)
    ensures Stream(Pack(b)) == b + Zeros(8 * |Pack(b)| - |b|)
  {
    hide *;
    if |b| <= 8 {
      PackShort(b);
    } else {
      PackSplit(b);
      StreamOfPack(b[8..]);
      Rejoin(b, 8, Zeros(8 * |Pack(b[8..])| - |b[8..]|));
    }
  }

  /** Packing is determined by its bits: whole bytes come out as they are. */
  lemma {:induction false} PackWholeBytes(s: seq<byte>, tail: bits)
    ensures Pack(Stream(s) + tail) == s + Pack(tail)
  {
    hide Pack, Bits, Stream;
    if s == [] {
      StreamEmpty(s);
      ConcatEmpty(tail);
      ConcatEmpty(Pack(tail));
    } else {
      var rest := Stream(s[1..]) + tail;
      assert Stream(s) + tail == Bits(s[0], 8) + rest by { StreamHead(s); }
      PackWholeBytes(s[1..], tail);
      PackHead(s[0], rest);
      ConcatAssociative([s[0]], s[1..], Pack(tail));
      assert s == [s[0]] + s[1..];
    }
  }

  lemma StreamEmpty(s: seq<byte>)
    requires s == []
    ensures Stream(s) == []
  {
  }

  lemma PackHead(v: byte, rest: bits)
    ensures Pack(Bits(v, 8) + rest) == [v] + Pack(rest)
  {
    PackFirst(v, Bits(v, 8) + rest);
    assert (Bits(v, 8) + rest)[8..] == rest;
  }

  lemma StreamHead(s: seq<byte>)
    requires s != []
    ensures Stream(s) == Bits(s[0], 8) + Stream(s[1..])
  {
    assert s == s[..1] + s[1..];
    StreamConcat(s[..1], s[1..]);
    StreamByte(s[..1], 0);
  }

  lemma PackFirst(v: byte, b: bits)
    requires |b| >= 8 && b[..8] == Bits(v, 8)
    ensures Pack(b) == [v] + Pack(b[8..])
  {
    ValOfBits(v, 8) by { assert Pow2(8) == 256; }
    if |b| == 8 {
      assert b + Zeros(0) == b[..8] == b;
      assert b[8..] == [];
      assert Pack(b) == [ByteOf(b + Zeros(0))];
    }
  }

  /* ---- 64-bit words ------------------------------------------------------ */

  function Shl(w: word, k: nat): (r: word)
    requires k <= 64
  {
    w[k..] + Zeros(k)
  }

  function Shr(w: word, k: nat): (r: word)
    requires k <= 64
  {
    Zeros(k) + w[..64 - k]
  }

  function Or(a: word, b: word): (r: word)
  {
    seq(64, i requires 0 <= i < 64 => a[i] || b[i])
  }

  /** The word holding v in its low bits. */
  function WordOf(v: nat, width: nat): (w: word)
    requires width <= 64
  {
    Zeros(64 - width) + Bits(v, width)
  }

  /** Bit i of a stream followed by zeros without end. */
  predicate BitAt(s: bits, i: int)
  {
    0 <= i < |s| && s[i]
  }

  /** n bits of the zero-extended stream from position c. */
  function Window(s: bits, c: nat, n: nat): (b: bits)
    ensures |b| == n && forall i :: 0 <= i < n ==> b[i] == BitAt(s, c + i)
  {
    seq(n, i requires 0 <= i < n => BitAt(s, c + i))
  }
}
