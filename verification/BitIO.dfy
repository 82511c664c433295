/**
 * The bit writer and bit reader of src/entropy/huffman_internal.h over 64-bit registers, MSB first.
 * The writer's bytes are the concatenation of the codes; the reader's register always shows the next
 * unread bits of the stream, and whatever it holds below them is zero or already the right bit.
 */
module BitIO {
  import opened Base
  import opened BitString

  /* ---- Register lemmas --------------------------------------------------- */

  lemma BitsPadded(v: nat, n: nat, m: nat)
    requires v < Pow2(n) && n <= m
    ensures Bits(v, m) == Zeros(m - n) + Bits(v, n)
  {
    hide Bits, Val, Pow2;
    ValOfBits(v, n);
    ValConcat(Zeros(m - n), Bits(v, n));
    ValZeros(m - n);
    BitsOfVal(Zeros(m - n) + Bits(v, n));
  }

  /** A value of len bits shifted to sit behind the first nbits of the register. */
  lemma ShiftedCode(code: nat, len: nat, width: nat, nbits: nat)
    requires len <= width <= 64 && code < Pow2(len) && nbits + len <= 64
    ensures Shl(WordOf(code, width), 64 - nbits - len) == Zeros(nbits) + Bits(code, len) + Zeros(64 - nbits - len)
  {
    BitsPadded(code, len, width);
    assert WordOf(code, width) == Zeros(64 - len) + Bits(code, len);
  }

  /** ORing bits into the cleared part of a register appends them. */
  lemma OrAppends(buf: word, nbits: nat, b: bits)
    requires nbits + |b| <= 64 && buf[nbits..] == Zeros(64 - nbits)
    ensures var r := Or(buf, Zeros(nbits) + b + Zeros(64 - nbits - |b|));
            r[..nbits + |b|] == buf[..nbits] + b && r[nbits + |b|..] == Zeros(64 - nbits - |b|)
  {
    var w := Zeros(nbits) + b + Zeros(64 - nbits - |b|);
    var r := buf[..nbits] + b + Zeros(64 - nbits - |b|);
    forall i | 0 <= i < 64 ensures Or(buf, w)[i] == r[i] {
      assert i >= nbits ==> buf[i] == buf[nbits..][i - nbits];
    }
    assert Or(buf, w) == r;
  }

  /* ---- Writer ------------------------------------------------------------ */

  class BitWriter {
    var out: seq<byte>
    var buf: word
    var nbits: nat
    var totalBits: nat

    ghost predicate Valid()
      reads this
    {
      nbits < 32 && buf[nbits..] == Zeros(64 - nbits) && totalBits == |Written()|
    }

    /** Every bit written so far. */
    ghost function Written(): bits
      reads this
      requires nbits <= 64
    {
      Stream(out) + buf[..nbits]
    }

    constructor ()
      ensures Valid() && Written() == []
    {
      out := [];
      buf := Zeros(64);
      nbits := 0;
      totalBits := 0;
    }

    method Write(code: nat, len: nat)
      requires Valid() && 1 <= len <= 16 && code < Pow2(len)
      modifies this
      ensures Valid() && Written() == old(Written()) + Bits(code, len)
    {
      hide Or, Shl, WordOf, Stream, Bits, Zeros, Pow2;
      totalBits := totalBits + len;
      ShiftedCode(code, len, 16, nbits);
      OrAppends(buf, nbits, Bits(code, len));
      ConcatAssociative(Stream(out), buf[..nbits], Bits(code, len));
      buf := Or(buf, Shl(WordOf(code, 16), 64 - nbits - len));
      nbits := nbits + len;
      if nbits >= 32 {
        EmitFour();
      }
    }

    /** Moves the top 32 bits of the register to the output. */
    method EmitFour()
      requires 32 <= nbits < 64 && buf[nbits..] == Zeros(64 - nbits) && totalBits == |Written()|
      modifies this
      ensures Valid() && Written() == old(Written())
    {
      ShlClears(buf, nbits, 32);
      FourBytesMove(out, buf, nbits);
      out := out + [ByteOf(buf[0..8]), ByteOf(buf[8..16]), ByteOf(buf[16..24]), ByteOf(buf[24..32])];
      buf := Shl(buf, 32);
      nbits := nbits - 32;
    }

    /** Writes out the register, the last byte padded with zeros. */
    method Flush()
      requires Valid()
      modifies this
      ensures nbits == 0 && out == Pack(old(Written())) && totalBits == old(totalBits)
    {
      hide Pack, ByteOf, Stream;
      ghost var all := Written();
      while nbits >= 8
        invariant nbits < 32 && buf[nbits..] == Zeros(64 - nbits)
        invariant Written() == all && totalBits == old(totalBits)
        decreases nbits
      {
        ByteMoves(out, buf, nbits);
        ShlClears(buf, nbits, 8);
        out := out + [ByteOf(buf[..8])];
        buf := Shl(buf, 8);
        nbits := nbits - 8;
      }
      PackWholeBytes(out, buf[..nbits]);
      PackPadded(buf, nbits);
      if nbits > 0 {
        out := out + [ByteOf(buf[..8])];
        buf := Zeros(64);
        nbits := 0;
      }
    }
  }

  /** Fewer than eight bits pack into one byte with zeros behind them. */
  lemma PackPadded(w: word, n: nat)
    requires n < 8 && w[n..] == Zeros(64 - n)
    ensures Pack(w[..n]) == if n == 0 then [] else [ByteOf(w[..8])]
  {
    if n > 0 {
      assert w[..8] == w[..n] + w[n..][..8 - n];
      assert w[n..][..8 - n] == Zeros(8 - n);
    }
  }

  lemma ShlClears(w: word, n: nat, k: nat)
    requires k <= n <= 64 && w[n..] == Zeros(64 - n)
    ensures Shl(w, k)[n - k..] == Zeros(64 - (n - k))
  {
    assert w[k..][n - k..] == w[n..];
  }

  /** The register's first byte, moved to the output, leaves the written bits as they were. */
  lemma ByteMoves(out: seq<byte>, w: word, n: nat)
    requires 8 <= n <= 64
    ensures Stream(out + [ByteOf(w[..8])]) + Shl(w, 8)[..n - 8] == Stream(out) + w[..n]
  {
    var v := ByteOf(w[..8]);
    assert (out + [v])[..|out|] == out;
    assert Stream(out + [v]) == Stream(out) + w[..8];
    assert w[..n] == w[..8] + w[8..n];
    assert Shl(w, 8)[..n - 8] == w[8..n];
  }

  lemma FourBytesMove(out: seq<byte>, w: word, n: nat)
    requires 32 <= n <= 64
    ensures var top := [ByteOf(w[0..8]), ByteOf(w[8..16]), ByteOf(w[16..24]), ByteOf(w[24..32])];
            Stream(out + top) + Shl(w, 32)[..n - 32] == Stream(out) + w[..n]
  {
    hide Stream, Shl, ByteOf;
    var w1, w2, w3 := Shl(w, 8), Shl(w, 16), Shl(w, 24);
    var o1 := out + [ByteOf(w[0..8])];
    var o2 := o1 + [ByteOf(w[8..16])];
    var o3 := o2 + [ByteOf(w[16..24])];
    var all := Stream(out) + w[..n];
    assert Stream(o1) + w1[..n - 8] == all by { ByteMoves(out, w, n); }
    assert Stream(o2) + w2[..n - 16] == all by { ShlTwice(w, 8); ByteMoves(o1, w1, n - 8); }
    assert Stream(o3) + w3[..n - 24] == all by { ShlTwice(w, 16); ByteMoves(o2, w2, n - 16); }
    var o4 := o3 + [ByteOf(w[24..32])];
    assert Stream(o4) + Shl(w, 32)[..n - 32] == all by { ShlTwice(w, 24); ByteMoves(o3, w3, n - 24); }
    assert out + [ByteOf(w[0..8]), ByteOf(w[8..16]), ByteOf(w[16..24]), ByteOf(w[24..32])] == o4;
  }

  lemma ShlTwice(w: word, k: nat)
    requires k <= 56
    ensures Shl(Shl(w, k), 8) == Shl(w, k + 8)
    ensures Shl(w, k)[..8] == w[k..k + 8]
  {
  }

  /* ---- Reader ------------------------------------------------------------ */

  /**
   * A register over a stream read up to bit pos: valid bits are the next stream bits, and any bit
   * set below them is the right stream bit too.
   */
  predicate Shows(reg: word, nbits: int, s: bits, pos: nat)
  {
    forall k {:trigger reg[k]} :: 0 <= k < 64 ==>
      (if k < nbits then reg[k] == BitAt(s, pos + k) else reg[k] ==> BitAt(s, pos + k))
  }

  /** ORing the following stream bits over the register is harmless and leaves only right bits. */
  lemma RefillShows(reg: word, nbits: nat, s: bits, pos: nat, next: word)
    requires nbits < 64 && Shows(reg, nbits, s, pos)
    requires forall k :: 0 <= k < 64 ==> next[k] == BitAt(s, pos + nbits + k)
    ensures Shows(Or(reg, Shr(next, nbits)), 64, s, pos)
  {
    var w := Or(reg, Shr(next, nbits));
    forall k | 0 <= k < 64 ensures w[k] == BitAt(s, pos + k) {
      assert Shr(next, nbits)[k] == if k < nbits then false else next[k - nbits];
    }
  }

  lemma ByteShows(reg: word, nbits: nat, s: bits, pos: nat, v: byte)
    requires nbits <= 56 && Shows(reg, nbits, s, pos)
    requires pos + nbits + 8 <= |s| && s[pos + nbits..pos + nbits + 8] == Bits(v, 8)
    ensures Shows(Or(reg, Shl(WordOf(v, 8), 56 - nbits)), nbits + 8, s, pos)
  {
    assert Pow2(8) == 256;
    ShiftedCode(v, 8, 8, nbits);
    var w := Shl(WordOf(v, 8), 56 - nbits);
    assert w == Zeros(nbits) + Bits(v, 8) + Zeros(56 - nbits);
    forall k | 0 <= k < 64
      ensures if k < nbits + 8 then Or(reg, w)[k] == BitAt(s, pos + k) else Or(reg, w)[k] ==> BitAt(s, pos + k)
    {
      if nbits <= k < nbits + 8 {
        assert w[k] == Bits(v, 8)[k - nbits] == s[pos + nbits..pos + nbits + 8][k - nbits];
      }
    }
  }

  class BitReader {
    const src: seq<byte>
    const safe: nat
    var reg: word
    var nbits: int
    var ptr: nat
    ghost var pos: nat

    ghost predicate Valid()
      reads this
    {
      && safe == (if |src| >= 8 then |src| - 7 else 0)
      && ptr <= |src| && nbits <= 64 && 8 * ptr == pos + nbits
      && (nbits < 0 ==> ptr == |src|)
      && Shows(reg, nbits, Stream(src), pos)
    }

    /** The next w bits of the register are the next w bits of the zero-extended stream. */
    ghost predicate Ready(w: nat)
      reads this
    {
      nbits >= w || ptr == |src|
    }

    constructor (src: seq<byte>)
      ensures Valid() && this.src == src && pos == 0 && nbits == 0
    {
      this.src := src;
      safe := if |src| >= 8 then |src| - 7 else 0;
      reg := Zeros(64);
      nbits := 0;
      ptr := 0;
      pos := 0;
    }

    method RefillFast()
      requires Valid() && ptr < safe && 0 <= nbits <= 63
      modifies this
      ensures Valid() && pos == old(pos) && nbits >= 57
    {
      var next: word := Stream(src[ptr..ptr + 8]);
      StreamSlice(src, ptr, ptr + 8);
      RefillShows(reg, nbits, Stream(src), pos, next);
      reg := Or(reg, Shr(next, nbits));
      var freshBytes := (64 - nbits) / 8;
      ptr := ptr + freshBytes;
      nbits := nbits + 8 * freshBytes;
    }

    method RefillSafe()
      requires Valid()
      modifies this
      ensures Valid() && pos == old(pos) && (nbits >= 57 || ptr == |src|)
    {
      hide Shows, Stream, Or, Shl, WordOf;
      while nbits <= 56 && ptr < |src|
        invariant Valid() && pos == old(pos)
        decreases |src| - ptr
      {
        StreamByte(src, ptr);
        ByteShows(reg, nbits, Stream(src), pos, src[ptr]);
        reg := Or(reg, Shl(WordOf(src[ptr], 8), 56 - nbits));
        ptr := ptr + 1;
        nbits := nbits + 8;
      }
    }

    method Refill()
      requires Valid() && nbits <= 63
      modifies this
      ensures Valid() && pos == old(pos) && Ready(57)
    {
      if ptr < safe {
        RefillFast();
      } else {
        RefillSafe();
      }
    }

    lemma ReadyWindow(w: nat)
      requires Valid() && Ready(w) && w <= 64
      ensures reg[..w] == Window(Stream(src), pos, w)
    {
      forall k | 0 <= k < w ensures reg[k] == BitAt(Stream(src), pos + k) {
      }
    }

    /** The next bit of the stream, refilling an empty register first. */
    method TakeBit() returns (b: bool)
      requires Valid()
      modifies this
      ensures Valid() && pos == old(pos) + 1 && b == BitAt(Stream(src), old(pos))
    {
      if nbits < 1 { Refill(); }
      ReadyWindow(1);
      assert reg[..1][0] == Window(Stream(src), pos, 1)[0];
      b := reg[0];
      Consume(1);
    }

    /** Drops the first t bits of the register. */
    method Consume(t: nat)
      requires Valid() && t <= 64 && Ready(t)
      modifies this
      ensures Valid() && pos == old(pos) + t && nbits == old(nbits) - t && ptr == old(ptr)
    {
      ghost var before := reg;
      reg := Shl(reg, t);
      nbits := nbits - t;
      pos := pos + t;
      forall k | 0 <= k < 64
        ensures if k < nbits then reg[k] == BitAt(Stream(src), pos + k) else reg[k] ==> BitAt(Stream(src), pos + k)
      {
        assert reg[k] == if k + t < 64 then before[k + t] else false;
        if k < nbits { assert before[k + t] == BitAt(Stream(src), old(pos) + (k + t)); }
      }
    }
  }
}
