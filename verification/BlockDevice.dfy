/** The block device: sectors of bytes, some of which may be unreadable. */
module BlockDevice {
  import opened Bytes

  /** `after` is `before` with `data` written at offset `at`; a failed write leaves the bytes outside
      the addressed range alone. */
  ghost predicate Written(before: seq<byte>, after: seq<byte>, at: int, data: seq<byte>, ok: bool) {
    if 0 <= at && at + |data| <= |before| then
      && |after| == |before|
      && after[..at] == before[..at] && after[at + |data|..] == before[at + |data|..]
      && (ok ==> after[at..at + |data|] == data)
    else
      !ok && after == before
  }

  lemma OutsideKept(before: seq<byte>, after: seq<byte>, a: nat, b: nat)
    requires |before| == |after| && a <= b <= |after|
    requires forall i :: 0 <= i < |after| && !(a <= i < b) ==> after[i] == before[i]
    ensures after[..a] == before[..a] && after[b..] == before[b..]
  {}

  class Device {
    const secSize: nat
    const totSecs: nat
    const bad: set<nat>
    var bytes: seq<byte>

    constructor (secSize: nat, totSecs: nat, bad: set<nat>, bytes: seq<byte>)
      requires secSize > 0 && |bytes| == totSecs * secSize
      ensures Valid() && this.secSize == secSize && this.totSecs == totSecs && this.bad == bad && this.bytes == bytes
    {
      this.secSize, this.totSecs, this.bad, this.bytes := secSize, totSecs, bad, bytes;
    }

    ghost predicate Valid()
      reads this
    {
      secSize > 0 && |bytes| == Off(totSecs)
    }

    /** Byte offset of sector `n`. */
    function Off(n: int): (r: int)
      ensures n >= 0 ==> r >= 0
    {
      n * secSize
    }

    /** Whether a transfer of `count` sectors from `sec` on succeeds. */
    predicate Serves(sec: int, count: int) {
      && 0 <= sec && 0 <= count && sec + count <= totSecs
      && forall k: nat | sec <= k < sec + count :: k !in bad
    }

    lemma InRange(sec: nat, count: nat)
      requires Valid() && sec + count <= totSecs
      ensures 0 <= Off(sec) <= |bytes| - Off(count)
    {
      MulSum(sec, count, secSize);
      MulLe(sec + count, totSecs, secSize);
    }

    /** A failed transfer may leave anything in the part of the buffer it was to fill. */
    method GetSectors(sec: int, count: int, buf: array<byte>, off: nat) returns (ok: bool)
      requires Valid() && 0 <= count && off + Off(count) <= buf.Length
      modifies buf
      ensures ok == Serves(sec, count)
      ensures ok ==> 0 <= Off(sec) <= |bytes| - Off(count)
                     && buf[off..off + Off(count)] == bytes[Off(sec)..Off(sec) + Off(count)]
      ensures buf[..off] == old(buf[..off]) && buf[off + Off(count)..] == old(buf[off + Off(count)..])
    {
      ok := Serves(sec, count);
      ghost var before := buf[..];
      if ok {
        InRange(sec, count);
        var lo, n := Off(sec), Off(count);
        forall i | 0 <= i < n {
          buf[off + i] := bytes[lo + i];
        }
        assert forall i :: off <= i < off + n ==> buf[i] == bytes[lo + (i - off)];
        OutsideKept(before, buf[..], off, off + n);
      }
    }

    /** A failed transfer may leave anything in the sectors it was to fill. */
    method PutSectors(sec: int, count: int, buf: array<byte>, off: nat) returns (ok: bool)
      requires Valid() && 0 <= count && off + Off(count) <= buf.Length
      modifies this
      ensures Valid() && ok == Serves(sec, count)
      ensures Written(old(bytes), bytes, Off(sec), buf[off..off + Off(count)], ok)
    {
      ok := Serves(sec, count);
      if ok {
        InRange(sec, count);
        bytes := Splice(bytes, Off(sec), buf[off..off + Off(count)]);
      }
    }
  }
}
