/** The directory operations of fatfs.c on a directory buffer. */
module DirOps {
  import opened Bytes
  import opened Geometry
  import opened FatEntries
  import opened Directory
  import opened DirEdits
  import opened LongNames

  const DIRENTRY_SIZE: nat := 32

  datatype Field = SizeField | NameField | FirstClusField | AllFields

  /** The fields of struct TFileInfo that the directory code uses; `name` is the 8.3 name, 11 characters. */
  class DirInfo {
    var name: seq<byte>
    var attr: byte
    const lfn: array<Unit>
    var wrtTime: Unit
    var wrtDate: Unit
    var firstClus: nat
    var fileSize: nat
    var newFileSize: nat
    var updated: set<Field>
    var fDEntryPos: int
    var lDEntryPos: int

    constructor ()
      ensures Valid() && fresh(lfn)
    {
      name, attr := seq(11, _ => 0), 0;
      lfn := new Unit[LFN_SIZE](_ => 0);
      wrtTime, wrtDate, firstClus, fileSize, newFileSize, updated := 0, 0, 0, 0, 0, {};
      fDEntryPos, lDEntryPos := 0, 0;
    }

    ghost predicate Valid()
      reads this
    {
      |name| == 11 && lfn.Length == LFN_SIZE && firstClus < TWO32 && fileSize < TWO32 && newFileSize < TWO32
    }
  }

  /** The slots of a directory buffer of `size` bytes. */
  function Slots(buf: seq<byte>, size: nat): (d: seq<Slot>)
    requires size <= |buf|
    ensures |d| == size / DIRENTRY_SIZE
  {
    seq<Slot>(size / DIRENTRY_SIZE, k requires 0 <= k < size / DIRENTRY_SIZE => buf[32 * k..32 * k + 32])
  }

  lemma SlotIs(buf: seq<byte>, size: nat, k: nat)
    requires size <= |buf| && k < size / DIRENTRY_SIZE
    ensures 32 * k + 32 <= size && Slots(buf, size)[k] == buf[32 * k..32 * k + 32]
  {}

  /** Overwriting a slot changes that slot alone. */
  lemma SlotWritten(buf: seq<byte>, size: nat, k: nat, s: Slot)
    requires size <= |buf| && k < size / DIRENTRY_SIZE
    ensures 32 * k + 32 <= |buf| && Slots(Splice(buf, 32 * k, s), size) == Slots(buf, size)[k := s]
  {
    var after := Splice(buf, 32 * k, s);
    forall x | 0 <= x < size / DIRENTRY_SIZE
      ensures Slots(after, size)[x] == Slots(buf, size)[k := s][x]
    {
      SpliceSlices(buf, 32 * k, s, 32 * x, 32 * x + 32);
    }
  }

  /** fatfs_getfreedentry_indirbuf: the first place that will do, or NoMore if there is none. */
  method GetFreeDEntry(dirBuf: array<byte>, dirBufSize: nat, total: nat, fromPos: nat)
    returns (st: Status, freeDEntry: nat, pos: nat)
    requires dirBufSize <= dirBuf.Length && total >= 1 && fromPos % DIRENTRY_SIZE == 0
    ensures st == Ok || st == NoMore
    ensures var d, k := Slots(dirBuf[..], dirBufSize), fromPos / DIRENTRY_SIZE;
      if st == Ok then
        && freeDEntry % DIRENTRY_SIZE == 0 && VacantFrom(d, k, freeDEntry / DIRENTRY_SIZE, total)
        && forall b :: k <= b < freeDEntry / DIRENTRY_SIZE ==> !VacantFrom(d, k, b, total)
      else
        forall b: nat :: !VacantFrom(d, k, b, total)
    ensures var d, k, a := Slots(dirBuf[..], dirBufSize), fromPos / DIRENTRY_SIZE, freeDEntry / DIRENTRY_SIZE;
      if st == Ok then a < |d| && pos == DIRENTRY_SIZE * (if IsEnd(d[a]) then a + 1 else a + total)
      else pos == fromPos >= DIRENTRY_SIZE * |d| || LastSeen(d, k, pos)
  {
    hide Slots, VacantFrom, Passed;
    ghost var d, k := Slots(dirBuf[..], dirBufSize), fromPos / DIRENTRY_SIZE;
    var iCur, iContEnts := fromPos, 0;
    freeDEntry, pos := 0, fromPos;
    ghost var i := k;
    NonePassed(d, k, total);
    while iCur + DIRENTRY_SIZE <= dirBufSize
      invariant iCur == DIRENTRY_SIZE * i && k <= i - iContEnts && 0 <= iContEnts < total
      invariant iContEnts > 0 ==> freeDEntry == DIRENTRY_SIZE * (i - iContEnts)
      invariant Passed(d, k, i, iContEnts, total) && pos == iCur
    {
      PassedSees(d, k, i, iContEnts, total);
      SlotIs(dirBuf[..], dirBufSize, i);
      var first := dirBuf[iCur];
      assert first == d[i][0];
      PassNext(d, k, i, iContEnts, total);
      iCur := iCur + DIRENTRY_SIZE;
      pos := iCur;
      if first == 0 {
        freeDEntry := iCur - DIRENTRY_SIZE;
        iCur := iCur + (total - 1) * DIRENTRY_SIZE;
        if iCur <= dirBufSize {
          return Ok, freeDEntry, pos;
        }
        return NoMore, freeDEntry, pos;
      } else if first == FREEDENTRY {
        if iContEnts == 0 {
          freeDEntry := iCur - DIRENTRY_SIZE;
        }
        iContEnts := iContEnts + 1;
        if iContEnts >= total {
          return Ok, freeDEntry, pos;
        }
        i := i + 1;
        continue;
      } else {
        iContEnts := 0;
      }
      i := i + 1;
    }
    AllPassed(d, k, i, iContEnts, total);
    PassedSees(d, k, i, iContEnts, total);
    return NoMore, freeDEntry, pos;
  }

  /** A search from slot `k` on has stopped at `pos`, behind the first terminator or at the end of the directory. */
  ghost predicate LastSeen(d: seq<Slot>, k: nat, pos: nat) {
    && pos % DIRENTRY_SIZE == 0
    && var e := pos / DIRENTRY_SIZE;
       k < e <= |d| && NoEnd(d, k, e - 1) && (IsEnd(d[e - 1]) || e == |d|)
  }

  lemma PassedSees(d: seq<Slot>, k: nat, i: nat, n: nat, total: nat)
    requires Passed(d, k, i, n, total)
    ensures i < |d| && IsEnd(d[i]) ==> LastSeen(d, k, DIRENTRY_SIZE * (i + 1))
    ensures i >= |d| ==> i == k || LastSeen(d, k, DIRENTRY_SIZE * i)
    ensures forall b :: 0 <= b <= |d| && VacantFrom(d, k, b, total) ==> b < |d|
    ensures i < |d| && n > 0 ==> !IsEnd(d[i - n])
    ensures i < |d| && IsFree(d[i]) ==> !IsEnd(d[i])
  {}

  /** The search from slot `k` has come to slot `i`, the last `n` slots being free: there is no place before
      these, and no terminator. */
  ghost predicate Passed(d: seq<Slot>, k: nat, i: nat, n: nat, total: nat) {
    && k <= i - n && n < total && (i <= |d| || i == k)
    && (i <= |d| ==> NoEnd(d, k, i) && AllFree(d, i - n, i))
    && (forall b :: k <= b < i - n ==> !VacantFrom(d, k, b, total))
  }

  lemma NonePassed(d: seq<Slot>, k: nat, total: nat)
    requires total >= 1
    ensures Passed(d, k, k, 0, total)
  {}

  /** One more slot: a terminator is the first place, if there is room behind it; a free slot may complete one;
      any other ends the free slots before it. */
  lemma PassNext(d: seq<Slot>, k: nat, i: nat, n: nat, total: nat)
    requires Passed(d, k, i, n, total) && i < |d|
    ensures IsEnd(d[i]) ==> forall b: nat :: VacantFrom(d, k, b, total) <==> b == i && i + total <= |d|
    ensures IsFree(d[i]) && n + 1 < total ==> Passed(d, k, i + 1, n + 1, total)
    ensures IsFree(d[i]) && n + 1 == total ==>
      VacantFrom(d, k, i - n, total) && forall b :: k <= b < i - n ==> !VacantFrom(d, k, b, total)
    ensures !IsEnd(d[i]) && !IsFree(d[i]) ==> Passed(d, k, i + 1, 0, total)
  {
    if !IsFree(d[i]) {
      forall b | i - n <= b <= i
        ensures (IsEnd(d[i]) && b == i) || !VacantFrom(d, k, b, total)
      {
        assert b <= i < b + total;
      }
    }
  }

  lemma AllPassed(d: seq<Slot>, k: nat, i: nat, n: nat, total: nat)
    requires Passed(d, k, i, n, total) && i >= |d|
    ensures forall b: nat :: !VacantFrom(d, k, b, total)
  {}

  /** A free slot: marked, and otherwise zero. */
  function FreeSlot(): Slot {
    [FREEDENTRY] + seq<byte>(31, _ => 0)
  }

  /** A fresh 8.3 slot. */
  function ShortSlot(name: seq<byte>, attr: byte): Slot
    requires |name| == 11
  {
    name + [attr] + seq<byte>(20, _ => 0)
  }

  method WriteFreeSlot(dirBuf: array<byte>, pCur: nat)
    requires pCur + DIRENTRY_SIZE <= dirBuf.Length
    modifies dirBuf
    ensures dirBuf[..] == Splice(old(dirBuf[..]), pCur, FreeSlot())
  {
    Clear(dirBuf, pCur);
    dirBuf[pCur] := FREEDENTRY;
  }

  method WriteShortSlot(dirBuf: array<byte>, pCur: nat, name: seq<byte>, attr: byte)
    requires pCur + DIRENTRY_SIZE <= dirBuf.Length && |name| == 11
    modifies dirBuf
    ensures dirBuf[..] == Splice(old(dirBuf[..]), pCur, ShortSlot(name, attr))
  {
    ghost var before := dirBuf[..];
    Clear(dirBuf, pCur);
    forall i | 0 <= i < 11 {
      dirBuf[pCur + i] := name[i];
    }
    dirBuf[pCur + 11] := attr;
    SplicedIs(before, dirBuf[..], pCur, ShortSlot(name, attr));
  }

  lemma SplicedIs(before: seq<byte>, after: seq<byte>, at: nat, t: seq<byte>)
    requires |after| == |before| && at + |t| <= |before|
    requires forall k :: 0 <= k < |after| ==> after[k] == if at <= k < at + |t| then t[k - at] else before[k]
    ensures after == Splice(before, at, t)
  {}

  /** What fatfs_calc_f83name_checksum computes. */
  function Checksum(name: seq<byte>): byte {
    if name == [] then 0
    else var c: int := Checksum(name[..|name| - 1]); (c % 2 * 128 + c / 2 + name[|name| - 1]) % 256
  }

  /** Each byte is added, modulo 256, to what comes before it rotated right by one bit: twice the rotated byte is the
      byte itself with its lowest bit moved out to 256 and brought back. */
  lemma ChecksumStep(name: seq<byte>, b: byte) returns (r: byte)
    ensures Checksum([]) == 0
    ensures 2 * r as int == Checksum(name) as int + 255 * (Checksum(name) % 2) as int
    ensures exists q :: r + b as int == 256 * q + Checksum(name + [b]) as int
  {
    var c: int := Checksum(name);
    r := c % 2 * 128 + c / 2;
    assert (name + [b])[..|name|] == name;
    assert r + b as int == 256 * ((r as int + b as int) / 256) + Checksum(name + [b]) as int;
  }

  /** fatfs_calc_f83name_checksum */
  method CalcChecksum(name: seq<byte>) returns (chksum: byte)
    ensures chksum == Checksum(name)
  {
    chksum := 0;
    var iCur := 0;
    assert name[..|name|] == name;
    while iCur < |name|
      invariant 0 <= iCur <= |name| && chksum == Checksum(name[..iCur])
    {
      var c: int := chksum;
      c := c % 2 * 128 + c / 2 + name[iCur];
      assert name[..iCur + 1][..iCur] == name[..iCur];
      chksum := c % 256;
      iCur := iCur + 1;
    }
  }

  function SlotAfter(d: seq<Slot>, a: nat, n: nat, s: Slot, x: nat): Slot
    requires x < |d|
  {
    if a <= x < a + n then FreeSlot() else if x == a + n then s else d[x]
  }

  /** `d` with `n` free slots and then `s` from slot `a` on. */
  function Allocated(d: seq<Slot>, a: nat, n: nat, s: Slot): (e: seq<Slot>)
    requires a + n < |d|
    ensures |e| == |d|
  {
    seq<Slot>(|d|, x requires 0 <= x < |d| => SlotAfter(d, a, n, s, x))
  }

  lemma AllocatedStep(d: seq<Slot>, a: nat, n: nat, j: nat, s: Slot)
    requires a + n < |d| && j <= n
    ensures Allocated(d, a, j, FreeSlot()) ==
      (if j == 0 then d else Allocated(d, a, j - 1, FreeSlot()))[a + j := FreeSlot()]
    ensures j > 0 ==> Allocated(d, a, j, s) == Allocated(d, a, j - 1, FreeSlot())[a + j := s]
    ensures Allocated(d, a, 0, s) == d[a := s]
  {}

  /** The loop of fatfs__allocatedentry_indirbuf that marks all but the last of `total` slots free. */
  method MarkFree(dirBuf: array<byte>, dirBufLen: nat, a: nat, total: nat) returns (pCur: nat)
    requires dirBufLen <= dirBuf.Length && total >= 1 && a + total <= dirBufLen / DIRENTRY_SIZE
    modifies dirBuf
    ensures pCur == DIRENTRY_SIZE * (a + total - 1)
    ensures Slots(dirBuf[..], dirBufLen) ==
      if total == 1 then Slots(old(dirBuf[..]), dirBufLen)
      else Allocated(Slots(old(dirBuf[..]), dirBufLen), a, total - 2, FreeSlot())
  {
    hide Slots, Allocated, FreeSlot, Splice;
    pCur := DIRENTRY_SIZE * a;
    ghost var d := Slots(dirBuf[..], dirBufLen);
    var iCur := 1;
    while iCur < total
      invariant 1 <= iCur <= total && pCur == DIRENTRY_SIZE * (a + iCur - 1)
      invariant Slots(dirBuf[..], dirBufLen) == if iCur == 1 then d else Allocated(d, a, iCur - 2, FreeSlot())
    {
      SlotWritten(dirBuf[..], dirBufLen, a + iCur - 1, FreeSlot());
      AllocatedStep(d, a, total - 1, iCur - 1, FreeSlot());
      WriteFreeSlot(dirBuf, pCur);
      pCur := pCur + DIRENTRY_SIZE;
      iCur := iCur + 1;
    }
  }

  /** fatfs__allocatedentry_indirbuf: `a` is the first place where `total` slots are vacant. */
  method AllocateDEntry(dirBuf: array<byte>, dirBufLen: nat, total: nat, info: DirInfo)
    returns (st: Status, ghost a: nat)
    requires dirBufLen <= dirBuf.Length && total >= 1 && info.Valid()
    modifies dirBuf, info`fDEntryPos, info`lDEntryPos
    ensures st == Ok || st == NoMore
    ensures var d := Slots(old(dirBuf[..]), dirBufLen);
      if st == Ok then
        && Vacant(d, a, total) && (forall b :: 0 <= b < a ==> !VacantFrom(d, 0, b, total))
        && Slots(dirBuf[..], dirBufLen) == Allocated(d, a, total - 1, ShortSlot(info.name, info.attr))
        && info.fDEntryPos == info.lDEntryPos == DIRENTRY_SIZE * (a + total - 1)
      else
        && NoRoom(d, total)
        && dirBuf[..] == old(dirBuf[..]) && info.fDEntryPos == old(info.fDEntryPos)
        && info.lDEntryPos == old(info.lDEntryPos)
  {
    hide Slots, Allocated, FreeSlot, ShortSlot, Splice, VacantFrom;
    var freeDEntry, prevPos;
    st, freeDEntry, prevPos := GetFreeDEntry(dirBuf, dirBufLen, total, 0);
    a := freeDEntry / DIRENTRY_SIZE;
    ghost var d := Slots(dirBuf[..], dirBufLen);
    if st != Ok {
      forall b: nat
        ensures !VacantFrom(d, 0, b, total)
      {
        assert !VacantFrom(d, 0 / DIRENTRY_SIZE, b, total);
      }
      return;
    }
    VacantRoom(d, a, total);
    var pCur := MarkFree(dirBuf, dirBufLen, freeDEntry / DIRENTRY_SIZE, total);
    SlotWritten(dirBuf[..], dirBufLen, a + total - 1, ShortSlot(info.name, info.attr));
    AllocatedStep(d, a, total - 1, total - 1, ShortSlot(info.name, info.attr));
    WriteShortSlot(dirBuf, pCur, info.name, info.attr);
    info.fDEntryPos := pCur;
    info.lDEntryPos := pCur;
  }

  lemma VacantRoom(d: seq<Slot>, a: nat, n: nat)
    requires VacantFrom(d, 0, a, n)
    ensures a + n <= |d| && Vacant(d, a, n)
  {}

  /** An allocation inserts one entry without a long name, at the last of its slots. */
  lemma AllocationInserts(d: seq<Slot>, a: nat, n: nat, name: seq<byte>, attr: byte)
    requires DirOk(d) && Vacant(d, a, n) && |name| == 11 && name[0] != 0 && name[0] != FREEDENTRY && attr != LONGNAME
    ensures a + n <= |d|
    ensures var e, last := Allocated(d, a, n - 1, ShortSlot(name, attr)), a + n - 1;
      && DirOk(e)
      && Entries(d) == ParseTo(d, 0, a, Nothing) + Parse(d, a, Nothing)
      && Entries(e) == ParseTo(d, 0, a, Nothing) + [Entry(last, last, [], ShortSlot(name, attr))] + Parse(d, a, Nothing)
  {
    hide Parse, Grouped, ParseTo, ShortSlot, DirOk;
    var s := ShortSlot(name, attr);
    ShortIsShort(name, attr);
    var e, last := Allocated(d, a, n - 1, s), a + n - 1;
    forall x | a <= x < last
      ensures IsFree(e[x])
    {
      assert e[x] == FreeSlot();
    }
    SkipFree(e, a, last);
    assert e[last] == s;
    Step(e, last, Nothing, 0);
    InsertEntry(d, e, a, n, Entry(last, last, [], s));
  }

  lemma ShortIsShort(name: seq<byte>, attr: byte)
    requires |name| == 11 && name[0] != 0 && name[0] != FREEDENTRY && attr != LONGNAME
    ensures IsShort(ShortSlot(name, attr))
  {}

  /** pa_memset and pa_strncpyEx_c16 into the long-name buffer. */
  method CopyName(lfn: array<Unit>, name: seq<Unit>)
    requires |name| < LFN_SIZE == lfn.Length
    modifies lfn
    ensures lfn[..] == name + seq<Unit>(LFN_SIZE - |name|, _ => 0)
  {
    forall i | 0 <= i < lfn.Length {
      lfn[i] := 0;
    }
    forall i | 0 <= i < |name| {
      lfn[i] := name[i];
    }
  }

  /** buffer_write_uint16_le_noup, right behind the bytes `x` that have been written at `p`. */
  method PutU16(dirBuf: array<byte>, pos: nat, v: Unit, ghost before: seq<byte>, ghost p: nat, ghost x: seq<byte>)
    requires p + |x| == pos && pos + 2 <= dirBuf.Length == |before| && dirBuf[..] == Splice(before, p, x)
    modifies dirBuf
    ensures dirBuf[..] == Splice(before, p, x + [Lo(v), Hi(v)])
  {
    dirBuf[pos], dirBuf[pos + 1] := Lo(v), Hi(v);
  }

  /** The ordinal and the first five characters. */
  method WriteHead(dirBuf: array<byte>, pCur: nat, ordinal: byte, lfn: array<Unit>, b: nat)
    requires pCur + DIRENTRY_SIZE <= dirBuf.Length && b + PARTIALCHARS <= lfn.Length
    modifies dirBuf
    ensures dirBuf[..] == Splice(old(dirBuf[..]), pCur, Head(ordinal, lfn[b..b + PARTIALCHARS]))
  {
    ghost var before, p := dirBuf[..], pCur;
    dirBuf[pCur] := ordinal;
    ghost var x: seq<byte> := [ordinal];
    assert dirBuf[..] == Splice(before, p, x);
    hide Splice;
    PutU16(dirBuf, pCur + 1, lfn[b + 0], before, p, x);
    x := x + [Lo(lfn[b + 0]), Hi(lfn[b + 0])];
    PutU16(dirBuf, pCur + 3, lfn[b + 1], before, p, x);
    x := x + [Lo(lfn[b + 1]), Hi(lfn[b + 1])];
    PutU16(dirBuf, pCur + 5, lfn[b + 2], before, p, x);
    x := x + [Lo(lfn[b + 2]), Hi(lfn[b + 2])];
    PutU16(dirBuf, pCur + 7, lfn[b + 3], before, p, x);
    x := x + [Lo(lfn[b + 3]), Hi(lfn[b + 3])];
    PutU16(dirBuf, pCur + 9, lfn[b + 4], before, p, x);
    x := x + [Lo(lfn[b + 4]), Hi(lfn[b + 4])];
    assert x == Head(ordinal, lfn[b..b + PARTIALCHARS]);
  }

  /** Attribute, checksum and the next six characters; byte 12 is zero. */
  method WriteMiddle(dirBuf: array<byte>, pCur: nat, chksum: byte, lfn: array<Unit>, b: nat)
    requires pCur + DIRENTRY_SIZE <= dirBuf.Length && b + PARTIALCHARS <= lfn.Length && dirBuf[pCur + 12] == 0
    modifies dirBuf
    ensures dirBuf[..] == Splice(old(dirBuf[..]), pCur + 11, Middle(chksum, lfn[b..b + PARTIALCHARS]))
  {
    ghost var before, p := dirBuf[..], pCur + 11;
    dirBuf[pCur + 11] := LONGNAME;
    dirBuf[pCur + 13] := chksum;
    ghost var x: seq<byte> := [LONGNAME, 0, chksum];
    assert dirBuf[..] == Splice(before, p, x);
    hide Splice;
    PutU16(dirBuf, pCur + 14, lfn[b + 5], before, p, x);
    x := x + [Lo(lfn[b + 5]), Hi(lfn[b + 5])];
    PutU16(dirBuf, pCur + 16, lfn[b + 6], before, p, x);
    x := x + [Lo(lfn[b + 6]), Hi(lfn[b + 6])];
    PutU16(dirBuf, pCur + 18, lfn[b + 7], before, p, x);
    x := x + [Lo(lfn[b + 7]), Hi(lfn[b + 7])];
    PutU16(dirBuf, pCur + 20, lfn[b + 8], before, p, x);
    x := x + [Lo(lfn[b + 8]), Hi(lfn[b + 8])];
    PutU16(dirBuf, pCur + 22, lfn[b + 9], before, p, x);
    x := x + [Lo(lfn[b + 9]), Hi(lfn[b + 9])];
    PutU16(dirBuf, pCur + 24, lfn[b + 10], before, p, x);
    x := x + [Lo(lfn[b + 10]), Hi(lfn[b + 10])];
    assert x == Middle(chksum, lfn[b..b + PARTIALCHARS]);
  }

  /** The last two characters, behind two zero bytes. */
  method WriteTail(dirBuf: array<byte>, pCur: nat, lfn: array<Unit>, b: nat)
    requires pCur + DIRENTRY_SIZE <= dirBuf.Length && b + PARTIALCHARS <= lfn.Length
    requires dirBuf[pCur + 26] == dirBuf[pCur + 27] == 0
    modifies dirBuf
    ensures dirBuf[..] == Splice(old(dirBuf[..]), pCur + 26, Tail(lfn[b..b + PARTIALCHARS]))
  {
    ghost var before, p := dirBuf[..], pCur + 26;
    ghost var x: seq<byte> := [0, 0];
    assert dirBuf[..] == Splice(before, p, x);
    hide Splice;
    PutU16(dirBuf, pCur + 28, lfn[b + 11], before, p, x);
    x := x + [Lo(lfn[b + 11]), Hi(lfn[b + 11])];
    PutU16(dirBuf, pCur + 30, lfn[b + 12], before, p, x);
    x := x + [Lo(lfn[b + 12]), Hi(lfn[b + 12])];
    assert x == Tail(lfn[b..b + PARTIALCHARS]);
  }

  lemma SpliceThree(s: seq<byte>, p: nat, z: seq<byte>, x: seq<byte>, y: seq<byte>, t: seq<byte>)
    requires p + |x| + |y| + |t| <= |s| && |z| == |x| + |y| + |t|
    ensures Splice(Splice(Splice(Splice(s, p, z), p, x), p + |x|, y), p + |x| + |y|, t) == Splice(s, p, x + y + t)
  {
    hide Splice;
    var w := x + y + t;
    SpliceNext(Splice(s, p, z), p, x, y);
    SpliceNext(Splice(s, p, z), p, x + y, t);
    SpliceOver(s, p, z, w);
  }

  lemma SpliceNext(s: seq<byte>, p: nat, x: seq<byte>, y: seq<byte>)
    requires p + |x| + |y| <= |s|
    ensures Splice(Splice(s, p, x), p + |x|, y) == Splice(s, p, x + y)
  {
    var a, b := Splice(Splice(s, p, x), p + |x|, y), Splice(s, p, x + y);
    forall i | 0 <= i < |s|
      ensures a[i] == b[i]
    {}
    assert a == b;
  }

  lemma SpliceOver(s: seq<byte>, p: nat, z: seq<byte>, w: seq<byte>)
    requires p + |w| <= |s| && |z| == |w|
    ensures Splice(Splice(s, p, z), p, w) == Splice(s, p, w)
  {}


  /** One long-name slot as fatuc_move_dentry writes it, from lfn[b..b + 13]. */
  method WriteLongSlot(dirBuf: array<byte>, pCur: nat, ordinal: byte, chksum: byte, lfn: array<Unit>, b: nat)
    requires pCur + DIRENTRY_SIZE <= dirBuf.Length && b + PARTIALCHARS <= lfn.Length
    modifies dirBuf
    ensures dirBuf[..] == Splice(old(dirBuf[..]), pCur, LongSlot(ordinal, chksum, lfn[b..b + PARTIALCHARS]))
  {
    hide Splice, Head, Middle, Tail;
    ghost var before, u := dirBuf[..], lfn[b..b + PARTIALCHARS];
    ghost var z := seq<byte>(DIRENTRY_SIZE, _ => 0);
    Clear(dirBuf, pCur);
    SpliceThree(before, pCur, z, Head(ordinal, u), Middle(chksum, u), Tail(u));
    SpliceAt(before, pCur, z);
    SpliceAt(dirBuf[..], pCur, Head(ordinal, u));
    WriteHead(dirBuf, pCur, ordinal, lfn, b);
    SpliceAt(dirBuf[..], pCur + 11, Middle(chksum, u));
    WriteMiddle(dirBuf, pCur, chksum, lfn, b);
    WriteTail(dirBuf, pCur, lfn, b);
  }

  /** pa_memset(pCur, 0, FATDIRENTRY_SIZE) */
  method Clear(dirBuf: array<byte>, pCur: nat)
    requires pCur + DIRENTRY_SIZE <= dirBuf.Length
    modifies dirBuf
    ensures dirBuf[..] == Splice(old(dirBuf[..]), pCur, seq<byte>(DIRENTRY_SIZE, _ => 0))
  {
    forall i | 0 <= i < DIRENTRY_SIZE {
      dirBuf[pCur + i] := 0;
    }
  }

  lemma SpliceAt(s: seq<byte>, p: nat, t: seq<byte>)
    requires p + |t| <= |s|
    ensures forall i :: 0 <= i < |s| ==> Splice(s, p, t)[i] == if p <= i < p + |t| then t[i - p] else s[i]
  {}

  /** `d` with the first `j` slots of the name's group written from slot `a` on. */
  ghost predicate GroupWritten(d: seq<Slot>, e: seq<Slot>, a: nat, name: seq<Unit>, g: nat, chksum: byte, j: nat) {
    && |e| == |d| && HasGroup(e, a, name, g, chksum, j) && Same(d, e, 0, a) && Same(d, e, a + j, |d|)
  }

  lemma GroupStep(d: seq<Slot>, e: seq<Slot>, a: nat, name: seq<Unit>, g: nat, chksum: byte, j: nat)
    requires GroupWritten(d, e, a, name, g, chksum, j) && j < g && a + g <= |d|
    ensures GroupWritten(d, e[a + j := GroupSlot(name, g, chksum, j)], a, name, g, chksum, j + 1)
  {
    hide GroupSlot;
    var f := e[a + j := GroupSlot(name, g, chksum, j)];
    forall x | 0 <= x < j + 1
      ensures f[a + x] == GroupSlot(name, g, chksum, x)
    {
      assert x < j ==> e[a + x] == GroupSlot(name, g, chksum, x);
    }
  }

  /** The check of fatuc_move_dentry that the slots before the 8.3 slot are free. */
  method CheckFree(dirBuf: array<byte>, dBufLen: nat, l: nat, total: nat) returns (ok: bool, pCur: nat)
    requires dBufLen <= dirBuf.Length && 1 <= total <= l + 1 && l < dBufLen / DIRENTRY_SIZE
    ensures ok == AllFree(Slots(dirBuf[..], dBufLen), l - (total - 1), l)
    ensures ok ==> pCur == DIRENTRY_SIZE * (l - (total - 1))
  {
    pCur := DIRENTRY_SIZE * l;
    ghost var d := Slots(dirBuf[..], dBufLen);
    var iCur := 1;
    while iCur < total
      invariant 1 <= iCur <= total && pCur == DIRENTRY_SIZE * (l - (iCur - 1)) && AllFree(d, l - (iCur - 1), l)
    {
      pCur := pCur - DIRENTRY_SIZE;
      SlotIs(dirBuf[..], dBufLen, l - iCur);
      assert dirBuf[pCur] == d[l - iCur][0];
      if dirBuf[pCur] != FREEDENTRY {
        return false, pCur;
      }
      iCur := iCur + 1;
    }
    ok := true;
  }

  /** The loop of fatuc_move_dentry that writes the long-name slots, the last part of the name first. */
  method WriteGroup(dirBuf: array<byte>, dBufLen: nat, pos: nat, total: nat, chksum: byte, lfn: array<Unit>,
                    ghost a: nat, ghost name: seq<Unit>)
    requires dBufLen <= dirBuf.Length && 2 <= total <= MAX_GROUP + 1 && |name| <= PARTIALCHARS * (total - 1)
    requires pos == DIRENTRY_SIZE * a && a + (total - 1) <= dBufLen / DIRENTRY_SIZE
    requires lfn.Length == LFN_SIZE && lfn[..PARTIALCHARS * (total - 1)] == Padded(name, total - 1)
    modifies dirBuf
    ensures GroupWritten(Slots(old(dirBuf[..]), dBufLen), Slots(dirBuf[..], dBufLen), a, name, total - 1, chksum,
                         total - 1)
  {
    hide Slots, GroupSlot, Splice, LongSlot, GroupWritten, Padded;
    ghost var d, g := Slots(dirBuf[..], dBufLen), total - 1;
    var pCur := pos;
    var lfnBPos: int := (total - 1 - 1) * PARTIALCHARS;
    var iCur := 1;
    NoneWritten(d, a, name, g, chksum);
    while iCur < total
      invariant 1 <= iCur <= total && pCur == DIRENTRY_SIZE * (a + iCur - 1) && lfnBPos == WriterPos(g, iCur - 1)
      invariant lfn[..PARTIALCHARS * g] == Padded(name, g)
      invariant GroupWritten(d, Slots(dirBuf[..], dBufLen), a, name, g, chksum, iCur - 1)
    {
      ghost var j := iCur - 1;
      var ordinal: int := total - iCur;
      if iCur == 1 {
        ordinal := ordinal + 0x40; // ordinal |= 0x40, below 0x40 so far
      }
      PartOf(lfn[..], name, g, j);
      assert lfn[..][lfnBPos..lfnBPos + PARTIALCHARS] == lfn[lfnBPos..lfnBPos + PARTIALCHARS];
      GroupStep(d, Slots(dirBuf[..], dBufLen), a, name, g, chksum, j);
      SlotWritten(dirBuf[..], dBufLen, a + j, GroupSlot(name, g, chksum, j));
      GroupSlotIs(name, g, chksum, j);
      WriteLongSlot(dirBuf, pCur, ordinal, chksum, lfn, lfnBPos);
      pCur := pCur + DIRENTRY_SIZE;
      lfnBPos := lfnBPos - PARTIALCHARS;
      iCur := iCur + 1;
    }
  }

  lemma NoneWritten(d: seq<Slot>, a: nat, name: seq<Unit>, g: nat, chksum: byte)
    requires |name| <= PARTIALCHARS * g && g <= MAX_GROUP && a <= |d|
    ensures GroupWritten(d, d, a, name, g, chksum, 0)
  {}

  lemma GroupSlotIs(name: seq<Unit>, g: nat, chksum: byte, j: nat)
    requires |name| <= PARTIALCHARS * g && j < g <= MAX_GROUP
    ensures GroupSlot(name, g, chksum, j)
         == LongSlot(if j == 0 then g + 0x40 else g - j, chksum,
                     Padded(name, g)[PARTIALCHARS * (g - 1 - j)..PARTIALCHARS * (g - j)])
  {}

  lemma PartOf(lfn: seq<Unit>, name: seq<Unit>, g: nat, j: nat)
    requires |name| <= PARTIALCHARS * g <= |lfn| && lfn[..PARTIALCHARS * g] == Padded(name, g) && j < g
    ensures lfn[PARTIALCHARS * (g - 1 - j)..PARTIALCHARS * (g - j)] ==
      Padded(name, g)[PARTIALCHARS * (g - 1 - j)..PARTIALCHARS * (g - j)]
  {
    FrontSlice(lfn, PARTIALCHARS * g, PARTIALCHARS * (g - 1 - j), PARTIALCHARS * (g - j));
  }

  lemma FrontSlice(s: seq<Unit>, n: nat, i: nat, j: nat)
    requires i <= j <= n <= |s|
    ensures s[..n][i..j] == s[i..j]
  {}

  lemma CopiedIsPadded(lfn: seq<Unit>, name: seq<Unit>, g: nat)
    requires |name| <= PARTIALCHARS * g <= LFN_SIZE && lfn == name + seq<Unit>(LFN_SIZE - |name|, _ => 0)
    ensures lfn[..PARTIALCHARS * g] == Padded(name, g)
  {}

  /** The part of fatuc_move_dentry that stores the long name before the 8.3 slot of the destination. */
  method WriteLfn(dirBuf: array<byte>, dBufLen: nat, info: DirInfo, total: nat, name: seq<Unit>) returns (st: Status)
    requires dBufLen <= dirBuf.Length && info.Valid() && |name| <= 247 && total == GroupSize(|name|) + 1
    requires info.lDEntryPos >= 0 && info.lDEntryPos % DIRENTRY_SIZE == 0
    requires total - 1 <= info.lDEntryPos / DIRENTRY_SIZE < dBufLen / DIRENTRY_SIZE
    modifies dirBuf, info.lfn, info`fDEntryPos
    ensures info.Valid()
    ensures var d, l, g := Slots(old(dirBuf[..]), dBufLen), info.lDEntryPos / DIRENTRY_SIZE, total - 1;
      if g == 0 then st == Ok && dirBuf[..] == old(dirBuf[..]) && info.fDEntryPos == old(info.fDEntryPos)
      else if AllFree(d, l - g, l) then
        && st == Ok && info.fDEntryPos == DIRENTRY_SIZE * (l - g)
        && GroupWritten(d, Slots(dirBuf[..], dBufLen), l - g, name, g, Checksum(info.name), g)
      else st == Unknown && dirBuf[..] == old(dirBuf[..]) && info.fDEntryPos == old(info.fDEntryPos)
  {
    hide Slots, GroupWritten, Checksum, Padded;
    if total < 2 {
      return Ok;
    }
    NameFits(|name|);
    CopyName(info.lfn, name);
    CopiedIsPadded(info.lfn[..], name, total - 1);
    assert info.lfn[..][..PARTIALCHARS * (total - 1)] == info.lfn[..PARTIALCHARS * (total - 1)];
    var chksum := CalcChecksum(info.name);
    var ok, pCur := CheckFree(dirBuf, dBufLen, info.lDEntryPos / DIRENTRY_SIZE, total);
    if !ok {
      return Unknown;
    }
    info.fDEntryPos := pCur;
    WriteGroup(dirBuf, dBufLen, pCur, total, chksum, info.lfn, info.lDEntryPos / DIRENTRY_SIZE - (total - 1), name);
    return Ok;
  }
}
