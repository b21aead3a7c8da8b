/** Bytes, little-endian numbers and equal-sized chunks of a byte sequence. */
module Bytes {
  type byte = x: int | 0 <= x < 256

  function Pow256(w: nat): (p: nat)
    ensures p > 0
  {
    if w == 0 then 1 else 256 * Pow256(w - 1)
  }

  function Min(a: int, b: int): int { if a < b then a else b }

  /** The number whose little-endian representation is `s`. */
  function Le(s: seq<byte>): (v: nat)
    ensures v < Pow256(|s|)
  {
    if s == [] then 0 else s[0] + 256 * Le(s[1..])
  }

  /** The number in four bytes, the lowest first. */
  function Number(a: nat, b: nat, c: nat, d: nat): nat {
    a + 0x100 * b + 0x1_0000 * c + 0x100_0000 * d
  }

  function ToLe(v: nat, w: nat): (s: seq<byte>)
    ensures |s| == w
  {
    if w == 0 then [] else [v % 256] + ToLe(v / 256, w - 1)
  }

  lemma {:induction false} LeOfToLe(v: nat, w: nat)
    requires v < Pow256(w)
    ensures Le(ToLe(v, w)) == v
  {
    if w > 0 {
      LeOfToLe(v / 256, w - 1);
      assert ToLe(v, w)[1..] == ToLe(v / 256, w - 1);
    }
  }

  lemma PowTwoAndFour()
    ensures Pow256(2) == 0x10000 && Pow256(4) == 0x1_0000_0000
  {
    assert Pow256(1) == 256;
    assert Pow256(3) == 256 * Pow256(2);
  }

  lemma MulLe(a: nat, b: nat, c: nat)
    requires a <= b
    ensures a * c <= b * c
  {}

  lemma MulSum(a: int, b: int, c: int)
    ensures (a + b) * c == a * c + b * c
  {}

  /** Chunk `j` of `s` when `s` is cut into pieces of `size` bytes. */
  function Chunk(s: seq<byte>, size: nat, j: nat): (c: seq<byte>)
    requires (j + 1) * size <= |s|
    ensures |c| == size
  {
    MulSum(j, 1, size);
    s[j * size..(j + 1) * size]
  }

  /** `s` with `t` written over it at offset `at`. */
  function Splice<T>(s: seq<T>, at: nat, t: seq<T>): (r: seq<T>)
    requires at + |t| <= |s|
    ensures |r| == |s|
  {
    s[..at] + t + s[at + |t|..]
  }

  lemma SliceSlice(s: seq<byte>, lo: nat, hi: nat, from: nat, to: nat)
    requires lo <= hi <= |s| && from <= to <= hi - lo
    ensures s[lo..hi][from..to] == s[lo + from..lo + to]
  {
    var a, b := s[lo..hi][from..to], s[lo + from..lo + to];
    forall k | 0 <= k < to - from
      ensures a[k] == b[k]
    {
      assert a[k] == s[lo..hi][from + k];
    }
    assert a == b;
  }

  lemma SpliceSlices(s: seq<byte>, at: nat, t: seq<byte>, lo: nat, hi: nat)
    requires at + |t| <= |s| && lo <= hi <= |s|
    ensures hi <= at || at + |t| <= lo ==> Splice(s, at, t)[lo..hi] == s[lo..hi]
    ensures at <= lo && hi <= at + |t| ==> Splice(s, at, t)[lo..hi] == t[lo - at..hi - at]
  {
    var r := Splice(s, at, t);
    if hi <= at || at + |t| <= lo {
      forall k | 0 <= k < hi - lo
        ensures r[lo..hi][k] == s[lo..hi][k]
      {
        assert r[lo + k] == s[lo + k];
      }
      assert r[lo..hi] == s[lo..hi];
    }
    if at <= lo && hi <= at + |t| {
      assert r[at..at + |t|] == t;
      SliceSlice(r, at, at + |t|, lo - at, hi - at);
    }
  }

  lemma MulBounds(at: nat, from: nat, n: nat, j: nat, size: nat)
    ensures (at + n) * size == at * size + n * size && (from + n) * size == from * size + n * size
    ensures (j + 1) * size == j * size + size
    ensures j < at ==> j * size + size <= at * size
    ensures at + n <= j ==> at * size + n * size <= j * size
    ensures at <= j < at + n ==>
      && at * size <= j * size && j * size + size <= at * size + n * size
      && (from + (j - at)) * size == from * size + (j * size - at * size)
      && (from + (j - at) + 1) * size == from * size + (j * size - at * size) + size
  {
    MulSum(at, n, size);
    MulSum(from, n, size);
    MulSum(j, 1, size);
    if j < at {
      MulLe(j + 1, at, size);
    } else if j < at + n {
      MulLe(at, j, size);
      MulLe(j + 1, at + n, size);
      MulSum(from, j - at, size);
      MulSum(at, j - at, size);
      MulSum(from + (j - at), 1, size);
    } else {
      MulLe(at + n, j, size);
    }
  }

  /** Splicing whole chunks replaces exactly those chunks. */
  lemma SpliceChunks(s: seq<byte>, size: nat, at: nat, t: seq<byte>, from: nat, n: nat, j: nat)
    requires (at + n) * size <= |s| && (from + n) * size <= |t| && (j + 1) * size <= |s|
    ensures 0 <= from * size <= (from + n) * size && 0 <= at * size
    ensures at * size + ((from + n) * size - from * size) <= |s|
    ensures at <= j < at + n ==> (from + (j - at) + 1) * size <= |t|
    ensures Chunk(Splice(s, at * size, t[from * size..(from + n) * size]), size, j)
         == if at <= j < at + n then Chunk(t, size, from + (j - at)) else Chunk(s, size, j)
  {
    hide Splice, Chunk;
    MulBounds(at, from, n, j, size);
    if at <= j < at + n {
      ChunkInside(s, size, j, t, from + (j - at), at * size, from * size, (from + n) * size);
    } else {
      ChunkOutside(s, size, j, at * size, t[from * size..(from + n) * size]);
    }
  }

  lemma ChunkInside(s: seq<byte>, size: nat, j: nat, t: seq<byte>, i: nat, a: nat, f: nat, e: nat)
    requires f <= e <= |t| && a + (e - f) <= |s| && (j + 1) * size <= |s| && (i + 1) * size <= |t|
    requires a <= j * size && (j + 1) * size <= a + (e - f) && i * size == f + (j * size - a)
    ensures Chunk(Splice(s, a, t[f..e]), size, j) == Chunk(t, size, i)
  {
    hide Splice, Chunk;
    MulSum(j, 1, size);
    MulSum(i, 1, size);
    var y := j * size;
    ChunkAt(Splice(s, a, t[f..e]), size, j, y);
    ChunkAt(t, size, i, i * size);
    SpliceSlices(s, a, t[f..e], y, y + size);
    SliceSlice(t, f, e, y - a, y - a + size);
  }

  lemma ChunkOutside(s: seq<byte>, size: nat, j: nat, a: nat, t: seq<byte>)
    requires a + |t| <= |s| && (j + 1) * size <= |s| && ((j + 1) * size <= a || a + |t| <= j * size)
    ensures Chunk(Splice(s, a, t), size, j) == Chunk(s, size, j)
  {
    hide Splice, Chunk;
    MulSum(j, 1, size);
    var y := j * size;
    ChunkAt(Splice(s, a, t), size, j, y);
    ChunkAt(s, size, j, y);
    SpliceSlices(s, a, t, y, y + size);
  }

  lemma ChunkAt(s: seq<byte>, size: nat, j: nat, y: nat)
    requires y == j * size && y + size == (j + 1) * size <= |s|
    ensures Chunk(s, size, j) == s[y..y + size]
  {}

  lemma SpliceOwnSlice(s: seq<byte>, at: nat, n: nat)
    requires at + n <= |s|
    ensures Splice(s, at, s[at..at + n]) == s
  {}

  lemma SpliceNested(s: seq<byte>, at: nat, t: seq<byte>, x: nat, e: seq<byte>)
    requires at + |t| <= |s| && x + |e| <= |t|
    ensures Splice(s, at, Splice(t, x, e)) == Splice(Splice(s, at, t), at + x, e)
  {
    var a, b := Splice(s, at, Splice(t, x, e)), Splice(Splice(s, at, t), at + x, e);
    forall k | 0 <= k < |s|
      ensures a[k] == b[k]
    {
      if at <= k < at + |t| {
        assert a[k] == Splice(t, x, e)[k - at];
      }
    }
    assert a == b;
  }

  lemma SameParts(s: seq<byte>, t: seq<byte>, at: nat, end: nat, lo: nat, hi: nat)
    requires |s| == |t| && at <= end <= |s| && s[..at] == t[..at] && s[end..] == t[end..]
    requires lo <= hi <= at || end <= lo <= hi <= |s|
    ensures s[lo..hi] == t[lo..hi]
  {
    if hi <= at {
      assert s[lo..hi] == s[..at][lo..hi] && t[lo..hi] == t[..at][lo..hi];
    } else {
      SliceSlice(s, end, |s|, lo - end, hi - end);
      SliceSlice(t, end, |s|, lo - end, hi - end);
      assert s[end..] == s[end..|s|] && t[end..] == t[end..|s|];
    }
  }
}
