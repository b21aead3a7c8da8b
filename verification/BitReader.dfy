/** The resumable bit reader buffer_read_bits_lsbbased of rwporta.c. */
module BitReader {
  import opened Bytes

  function Pow2(n: nat): (p: nat)
    ensures p > 0
  {
    if n == 0 then 1 else 2 * Pow2(n - 1)
  }

  /** Bit `n` of a buffer, the least significant bit of the first byte being bit 0. */
  function Bit(buf: seq<byte>, n: nat): nat
    requires n < 8 * |buf|
  {
    (buf[n / 8] / Pow2(n % 8)) % 2
  }

  /** The number whose binary digits, lowest first, are the `len` bits from bit `at` on. */
  function BitsVal(buf: seq<byte>, at: nat, len: nat): nat
    requires at + len <= 8 * |buf|
    decreases len
  {
    if len == 0 then 0 else Bit(buf, at) + 2 * BitsVal(buf, at + 1, len - 1)
  }

  lemma {:induction false} Pow2Sum(a: nat, b: nat)
    ensures Pow2(a + b) == Pow2(a) * Pow2(b)
  {
    if a > 0 {
      Pow2Sum(a - 1, b);
      Twice(Pow2(a - 1), Pow2(b));
    }
  }

  lemma Twice(a: nat, b: nat)
    ensures 2 * a * b == 2 * (a * b)
  {}

  lemma {:induction false} BitsBound(buf: seq<byte>, at: nat, len: nat)
    requires at + len <= 8 * |buf|
    ensures BitsVal(buf, at, len) < Pow2(len)
    decreases len
  {
    if len > 0 {
      BitsBound(buf, at + 1, len - 1);
    }
  }

  lemma Pow2Step(n: nat)
    ensures Pow2(n) == if n == 0 then 1 else 2 * Pow2(n - 1)
  {}

  lemma BitsStep(buf: seq<byte>, at: nat, len: nat)
    requires at + len <= 8 * |buf| && len > 0
    ensures BitsVal(buf, at, len) == Bit(buf, at) + 2 * BitsVal(buf, at + 1, len - 1)
  {}

  lemma NoBits(buf: seq<byte>, at: nat)
    requires at <= 8 * |buf|
    ensures BitsVal(buf, at, 0) == 0
  {}

  lemma Distribute(b: nat, y: nat, p: nat, z: nat)
    ensures b + 2 * (y + p * z) == b + 2 * y + (2 * p) * z
  {}

  /** Bits read later are the higher digits. */
  lemma {:induction false} BitsSplit(buf: seq<byte>, at: nat, a: nat, b: nat)
    requires at + a + b <= 8 * |buf|
    ensures BitsVal(buf, at, a + b) == BitsVal(buf, at, a) + Pow2(a) * BitsVal(buf, at + a, b)
    decreases a
  {
    hide Bit, BitsVal, Pow2;
    Pow2Step(a);
    if a == 0 {
      NoBits(buf, at);
    } else {
      BitsSplit(buf, at + 1, a - 1, b);
      BitsStep(buf, at, a + b);
      BitsStep(buf, at, a);
      Distribute(Bit(buf, at), BitsVal(buf, at + 1, a - 1), Pow2(a - 1), BitsVal(buf, at + a, b));
    }
  }

  /** The bits of one byte from bit `b` on. */
  lemma {:induction false} ByteBits(buf: seq<byte>, p: nat, b: nat)
    requires p < |buf| && b <= 8
    ensures BitsVal(buf, 8 * p + b, 8 - b) == buf[p] / Pow2(b)
    decreases 8 - b
  {
    hide Bit, BitsVal, Pow2;
    if b == 8 {
      NoBits(buf, 8 * p + 8);
      Pow2Values();
    } else {
      ByteBits(buf, p, b + 1);
      BitOfByte(buf, p, b);
      Halve(buf[p], Pow2(b));
    }
  }

  lemma BitOfByte(buf: seq<byte>, p: nat, b: nat)
    requires p < |buf| && b < 8
    ensures BitsVal(buf, 8 * p + b, 8 - b) == buf[p] / Pow2(b) % 2 + 2 * BitsVal(buf, 8 * p + b + 1, 7 - b)
    ensures Pow2(b + 1) == 2 * Pow2(b)
  {
    assert (8 * p + b) / 8 == p && (8 * p + b) % 8 == b;
  }

  lemma Pow2Values()
    ensures Pow2(8) == 256 && Pow2(0) == 1
    ensures Pow2(32) == 0x1_0000_0000
  {
    assert Pow2(4) == 16;
    Pow2Sum(4, 4);
    Pow2Sum(8, 8);
    Pow2Sum(16, 16);
  }

  lemma Halve(v: nat, p: nat)
    requires p > 0
    ensures v / p == v / p % 2 + 2 * (v / (2 * p))
  {
    DivDiv(v, p);
  }

  lemma DivDiv(v: nat, p: nat)
    requires p > 0
    ensures v / p / 2 == v / (2 * p)
  {
    var q := v / p;
    var h := q / 2;
    assert v == q * p + v % p;
    assert q == 2 * h + q % 2;
    Split(h, q % 2, p);
    var r := q % 2 * p + v % p;
    assert v == h * (2 * p) + r;
    assert 0 <= r < 2 * p by {
      if q % 2 == 1 {
        assert q % 2 * p == p;
      } else {
        assert q % 2 * p == 0;
      }
    }
    QuotientIs(v, 2 * p, h, r);
  }

  lemma Split(h: nat, e: nat, p: nat)
    ensures (2 * h + e) * p == h * (2 * p) + e * p
  {}

  lemma QuotientIs(v: nat, d: nat, q: nat, r: nat)
    requires r < d && v == q * d + r
    ensures v / d == q && v % d == r
  {
    var x := v / d;
    if x < q {
      MulLe(x + 1, q, d);
      MulSum(x, 1, d);
    } else if x > q {
      MulLe(q + 1, x, d);
      MulSum(q, 1, d);
    }
  }

  /** The low `n` bits of a number. */
  function Low(v: nat, n: nat): nat {
    v % Pow2(n)
  }

  function Shifted(v: nat, n: nat): (r: nat) {
    Pow2(n) * v
  }

  lemma SumMod(a: nat, m: nat, r: nat)
    requires m > 0
    ensures (a * m + r) % m == r % m
  {
    var q := r / m;
    MulSum(a, q, m);
    QuotientIs(a * m + r, m, a + q, r % m);
  }

  lemma Quotient(v: nat, m: nat) returns (q: nat)
    requires m > 0
    ensures v == q * m + v % m
  {
    q := v / m;
  }

  lemma LowAdd(x: nat, y: nat, n: nat)
    ensures Low(Low(x, n) + y, n) == Low(x + y, n)
  {
    var m := Pow2(n);
    var q := Quotient(x, m);
    SumMod(q, m, x % m + y);
  }

  /** What is lost above bit `n` does not matter for the low `k` bits. */
  lemma LowLow(v: nat, n: nat, k: nat)
    requires k <= n
    ensures Low(Low(v, n), k) == Low(v, k)
  {
    Pow2Sum(n - k, k);
    var m := Pow2(k);
    var q := Quotient(v, Pow2(n));
    Regroup(q, Pow2(n - k), m);
    SumMod(q * Pow2(n - k), m, v % Pow2(n));
  }

  lemma Regroup(q: nat, k: nat, m: nat)
    ensures q * (k * m) == (q * k) * m
  {}

  lemma LowSplit(x: nat, y: nat, n: nat)
    requires x < Pow2(n)
    ensures Low(x + Pow2(n) * y, n) == x
  {
    SumMod(y, Pow2(n), x);
    QuotientIs(x, Pow2(n), 0, x);
  }

  /** A buffer with a read position: *curPos and *curBitPos. */
  class BitCursor {
    const buf: array<byte>
    var curPos: nat
    var curBitPos: nat

    constructor (buf: array<byte>, curPos: nat, curBitPos: nat)
      ensures this.buf == buf && this.curPos == curPos && this.curBitPos == curBitPos
    {
      this.buf, this.curPos, this.curBitPos := buf, curPos, curBitPos;
    }

    /** Index of the next bit to be read. */
    function At(): nat
      reads this
    {
      8 * curPos + curBitPos
    }

    /** buffer_read_bits_lsbbased: the next `length` bits. The buffer need not extend beyond the byte of
        the last of them, so no other byte is looked at. */
    method ReadBits(length: nat) returns (v: nat)
      requires curBitPos <= 7 && 1 <= length <= 31 && At() + length <= 8 * buf.Length
      modifies this
      ensures v == BitsVal(buf[..], old(At()), length)
      ensures curBitPos <= 7 && At() == old(At()) + length
    {
      hide Bit, BitsVal, Pow2, Low;
      ghost var s, at := buf[..], At();
      var curTData := buf[curPos] / Pow2(curBitPos);
      var curData := curTData;
      var bitsFilled := 8 - curBitPos;
      ByteBits(s, curPos, curBitPos);
      BitsBound(s, at, bitsFilled);
      Small(curData, bitsFilled);
      while bitsFilled < length
        invariant 1 <= bitsFilled && at + bitsFilled == 8 * (curPos + 1) && curPos < buf.Length
        invariant curBitPos == old(curBitPos)
        invariant bitsFilled < length + 8
        invariant curData == Low(BitsVal(s, at, bitsFilled), 32)
      {
        curPos := curPos + 1;
        var byteRead := buf[curPos];
        NextByte(s, at, bitsFilled, curPos, curData);
        // |= of bits that are not yet occupied, in 32 bits
        curData := Low(curData + Shifted(byteRead, bitsFilled), 32);
        bitsFilled := bitsFilled + 8;
      }
      if bitsFilled != length {
        curBitPos := 8 - (bitsFilled - length);
      } else {
        curBitPos := 0;
        curPos := curPos + 1;
      }
      // & with the mask of the low `length` bits
      v := Low(curData, length);
      MaskedIs(s, at, bitsFilled, length);
    }
  }

  lemma Small(v: nat, n: nat)
    requires v < Pow2(n) && n <= 8
    ensures Low(v, 32) == v
  {
    hide Pow2, Low;
    Pow2Sum(n, 32 - n);
    MulLe(1, Pow2(32 - n), Pow2(n));
    LowSplit(v, 0, 32);
  }

  lemma WholeByte(s: seq<byte>, p: nat)
    requires p < |s|
    ensures BitsVal(s, 8 * p, 8) == s[p]
  {
    hide BitsVal, Pow2;
    ByteBits(s, p, 0);
    Pow2Step(0);
  }

  lemma NextByte(s: seq<byte>, at: nat, filled: nat, p: nat, curData: nat)
    requires p < |s| && at + filled == 8 * p && at + filled + 8 <= 8 * |s|
    requires curData == Low(BitsVal(s, at, filled), 32)
    ensures Low(curData + Shifted(s[p], filled), 32) == Low(BitsVal(s, at, filled + 8), 32)
  {
    hide BitsVal, Bit, Low, Pow2;
    BitsSplit(s, at, filled, 8);
    WholeByte(s, p);
    LowAdd(BitsVal(s, at, filled), Shifted(s[p], filled), 32);
  }

  lemma MaskedIs(s: seq<byte>, at: nat, filled: nat, length: nat)
    requires length <= filled && length <= 31 && at + filled <= 8 * |s|
    ensures Low(Low(BitsVal(s, at, filled), 32), length) == BitsVal(s, at, length)
  {
    hide BitsVal, Bit, Low, Pow2;
    LowLow(BitsVal(s, at, filled), 32, length);
    BitsSplit(s, at, length, filled - length);
    BitsBound(s, at, length);
    LowSplit(BitsVal(s, at, length), BitsVal(s, at + length, filled - length), length);
  }

  function Sum(lengths: seq<nat>): nat {
    if lengths == [] then 0 else lengths[0] + Sum(lengths[1..])
  }

  /** Consecutive slices of the buffer's bits. */
  function Slices(buf: seq<byte>, at: nat, lengths: seq<nat>): (vs: seq<nat>)
    requires at + Sum(lengths) <= 8 * |buf|
    decreases |lengths|
  {
    if lengths == [] then [] else [BitsVal(buf, at, lengths[0])] + Slices(buf, at + lengths[0], lengths[1..])
  }

  /** The digits of the consecutive reads put together are the bits of the whole range: nothing is skipped
      or read twice. */
  function Joined(vs: seq<nat>, lengths: seq<nat>): nat
    requires |vs| == |lengths|
  {
    if vs == [] then 0 else vs[0] + Pow2(lengths[0]) * Joined(vs[1..], lengths[1..])
  }

  lemma {:induction false} SlicesJoin(buf: seq<byte>, at: nat, lengths: seq<nat>)
    requires at + Sum(lengths) <= 8 * |buf|
    ensures |Slices(buf, at, lengths)| == |lengths|
    ensures Joined(Slices(buf, at, lengths), lengths) == BitsVal(buf, at, Sum(lengths))
    decreases |lengths|
  {
    hide Bit, BitsVal, Pow2;
    if lengths == [] {
      NoBits(buf, at);
    } else {
      var rest := Slices(buf, at + lengths[0], lengths[1..]);
      SlicesJoin(buf, at + lengths[0], lengths[1..]);
      BitsSplit(buf, at, lengths[0], Sum(lengths[1..]));
      assert Slices(buf, at, lengths)[1..] == rest;
    }
  }

  /** Any sequence of reads returns the consecutive slices and ends where their lengths add up to. */
  method ReadAll(c: BitCursor, lengths: seq<nat>) returns (vs: seq<nat>)
    requires c.curBitPos <= 7 && (forall i :: 0 <= i < |lengths| ==> 1 <= lengths[i] <= 31)
    requires c.At() + Sum(lengths) <= 8 * c.buf.Length
    modifies c
    ensures vs == Slices(c.buf[..], old(c.At()), lengths)
    ensures c.curBitPos <= 7 && c.At() == old(c.At()) + Sum(lengths)
  {
    hide BitsVal, Bit, Slices, Sum;
    assert lengths[0..] == lengths;
    vs := [];
    var i := 0;
    while i < |lengths|
      invariant 0 <= i <= |lengths| && c.curBitPos <= 7
      invariant c.At() + Sum(lengths[i..]) == old(c.At()) + Sum(lengths) <= 8 * c.buf.Length
      invariant vs + Slices(c.buf[..], c.At(), lengths[i..]) == Slices(c.buf[..], old(c.At()), lengths)
    {
      assert lengths[i..][1..] == lengths[i + 1..];
      SlicesStep(c.buf[..], c.At(), lengths[i..]);
      var v := c.ReadBits(lengths[i]);
      vs := vs + [v];
      i := i + 1;
    }
    SlicesStep(c.buf[..], c.At(), lengths[i..]);
    assert vs + [] == vs;
  }

  lemma SlicesStep(buf: seq<byte>, at: nat, lengths: seq<nat>)
    requires at + Sum(lengths) <= 8 * |buf|
    ensures if lengths == [] then Slices(buf, at, lengths) == [] && Sum(lengths) == 0
            else
              && Sum(lengths) == lengths[0] + Sum(lengths[1..])
              && Slices(buf, at, lengths) == [BitsVal(buf, at, lengths[0])] + Slices(buf, at + lengths[0], lengths[1..])
  {}
}
