/** Searching a directory buffer: fatfs_getfileinfo_fromdir. */
module DirSearch {
  import opened Bytes
  import opened FatEntries
  import opened Directory
  import opened DirQuery
  import opened DirOps

  /** The record describes the entry. */
  ghost predicate Describes(info: DirInfo, x: Entry)
    reads info, info.lfn
  {
    && info.name == x.Name() && info.attr == x.Attr() && CStr(info.lfn[..]) == x.lfn
    && info.wrtTime == U16(x.data, 22) && info.wrtDate == U16(x.data, 24)
    && info.firstClus == x.FirstClus() && info.fileSize == info.newFileSize == x.FileSize() && info.updated == {}
    && info.fDEntryPos == DIRENTRY_SIZE * x.first && info.lDEntryPos == DIRENTRY_SIZE * x.last
  }

  /** The 13 characters of the long-name slot `s`, stored from position p on. */
  method ReadUnits(s: Slot, lfn: array<Unit>, p: nat)
    requires p + PARTIALCHARS <= lfn.Length
    modifies lfn
    ensures lfn[p..p + PARTIALCHARS] == Units(s) && lfn[p + PARTIALCHARS..] == old(lfn[p + PARTIALCHARS..])
  {
    hide U16, Units;
    ghost var before := lfn[p + PARTIALCHARS..];
    lfn[p], lfn[p + 1], lfn[p + 2] := U16(s, 1), U16(s, 3), U16(s, 5);
    lfn[p + 3], lfn[p + 4] := U16(s, 7), U16(s, 9);
    lfn[p + 5], lfn[p + 6], lfn[p + 7] := U16(s, 14), U16(s, 16), U16(s, 18);
    lfn[p + 8], lfn[p + 9], lfn[p + 10] := U16(s, 20), U16(s, 22), U16(s, 24);
    lfn[p + 11], lfn[p + 12] := U16(s, 28), U16(s, 30);
    assert lfn[p + PARTIALCHARS..] == before;
    UnitsAre(s, lfn[p..p + PARTIALCHARS]);
  }

  lemma UnitsAre(s: Slot, u: seq<Unit>)
    requires |u| == PARTIALCHARS
    requires u[0] == U16(s, 1) && u[1] == U16(s, 3) && u[2] == U16(s, 5) && u[3] == U16(s, 7) && u[4] == U16(s, 9)
    requires u[5] == U16(s, 14) && u[6] == U16(s, 16) && u[7] == U16(s, 18) && u[8] == U16(s, 20) && u[9] == U16(s, 22)
    requires u[10] == U16(s, 24) && u[11] == U16(s, 28) && u[12] == U16(s, 30)
    ensures u == Units(s)
  {
    hide U16;
  }

  /** The long name collected in lfn[lfnPos..255] moves to the front of the buffer. */
  method MoveName(lfn: array<Unit>, lfnPos: nat)
    requires lfn.Length == LFN_SIZE && lfnPos <= LFN_SIZE - 1
    modifies lfn
    ensures CStr(lfn[..]) == CStr(old(lfn[lfnPos..LFN_SIZE - 1]))
  {
    ghost var units := lfn[lfnPos..LFN_SIZE - 1];
    var iCurLFN, pos := 0, lfnPos;
    while pos != LFN_SIZE - 1
      invariant lfnPos <= pos <= LFN_SIZE - 1 && iCurLFN == pos - lfnPos
      invariant forall i :: 0 <= i < iCurLFN ==> lfn[i] == units[i]
      invariant forall i :: pos <= i < LFN_SIZE - 1 ==> lfn[i] == units[i - lfnPos]
    {
      assert lfn[pos] == units[pos - lfnPos];
      lfn[iCurLFN] := lfn[pos];
      iCurLFN := iCurLFN + 1;
      pos := pos + 1;
    }
    lfn[iCurLFN] := 0;
    assert lfn[..iCurLFN] == units;
    CStrPrefix(lfn[..], units);
  }

  lemma CStrPrefix(s: seq<int>, a: seq<int>)
    requires |a| < |s| && s[..|a|] == a && s[|a|] == 0
    ensures CStr(s) == CStr(a)
  {
    var r := CStr(a);
    assert r == a[..|r|] == s[..|r|];
    assert |r| < |a| ==> a[|r|] == s[..|a|][|r|];
    CStrIs(s, r);
  }

  /** The fields of an 8.3 slot. */
  method ReadShort(s: Slot, info: DirInfo)
    requires info.Valid()
    modifies info`firstClus, info`wrtTime, info`wrtDate, info`fileSize, info`newFileSize, info`updated
    ensures info.Valid() && info.updated == {}
    ensures info.wrtTime == U16(s, 22) && info.wrtDate == U16(s, 24)
    ensures info.firstClus == U16(s, 20) * 0x10000 + U16(s, 26)
    ensures info.fileSize == info.newFileSize == U16(s, 28) + 0x10000 * U16(s, 30)
  {
    info.firstClus := U16(s, 20);
    info.firstClus := info.firstClus * 0x10000;
    info.wrtTime := U16(s, 22);
    info.wrtDate := U16(s, 24);
    info.firstClus := info.firstClus + U16(s, 26);
    info.fileSize := U16(s, 28) + 0x10000 * U16(s, 30);
    info.newFileSize := info.fileSize;
    info.updated := {};
  }

  /** The tests at the end of the loop. */
  predicate Accepts(q: Query, name: seq<byte>, lfn: seq<Unit>) {
    match KeyOf(q)
    case Key83(n) => CStr(name) == CStr(n) || FirstByteZero(q)
    case KeyLfn(l) => CStr(lfn) == CStr(l) || FirstByteZero(q)
  }

  /** What has been read of a long name so far: `m` slots of it, at the end of the buffer. */
  ghost predicate Collected(lfn: seq<Unit>, fDEntryPos: int, lfnPos: int, p: Pending, m: nat) {
    && |lfn| == LFN_SIZE && Count(p, m) && lfnPos == ReaderPos(m) >= 0
    && (p.Some? ==> lfn[lfnPos..LFN_SIZE - 1] == p.units && fDEntryPos == DIRENTRY_SIZE * p.first)
  }

  /** The loop body for a long-name slot. */
  method TakeLong(s: Slot, at: nat, info: DirInfo, lfnPos: nat, ghost k: nat, ghost p: Pending, ghost m: nat)
    returns (pos: nat)
    requires info.Valid() && Collected(info.lfn[..], info.fDEntryPos, lfnPos, p, m) && ReaderPos(m + 1) >= 0
    requires at == DIRENTRY_SIZE * k
    modifies info`fDEntryPos, info.lfn
    ensures info.Valid() && Collected(info.lfn[..], info.fDEntryPos, pos, AddLong(p, k, s), m + 1)
  {
    hide Units;
    if lfnPos == LFN_SIZE - 1 {
      info.fDEntryPos := at;
    }
    ghost var old_ := info.lfn[lfnPos..LFN_SIZE - 1];
    pos := lfnPos - PARTIALCHARS;
    ReadUnits(s, info.lfn, pos);
    Rejoin(info.lfn[..], pos, PARTIALCHARS, LFN_SIZE - 1);
    assert info.lfn[..][pos..LFN_SIZE - 1] == info.lfn[pos..LFN_SIZE - 1];
    assert info.lfn[lfnPos..LFN_SIZE - 1] == old_;
  }

  lemma Rejoin(s: seq<Unit>, p: nat, n: nat, e: nat)
    requires p + n <= e <= |s|
    ensures s[p..e] == s[p..p + n] + s[p + n..e]
  {}

  /** The loop body for an 8.3 slot. */
  method TakeShort(s: Slot, at: nat, info: DirInfo, lfnPos: nat, ghost k: nat, ghost p: Pending, ghost m: nat)
    requires info.Valid() && Collected(info.lfn[..], info.fDEntryPos, lfnPos, p, m) && at == DIRENTRY_SIZE * k
    requires info.name == s[..11] && info.attr == s[11]
    modifies info`firstClus, info`wrtTime, info`wrtDate, info`fileSize, info`newFileSize, info`updated,
      info`fDEntryPos, info`lDEntryPos, info.lfn
    ensures info.Valid() && Describes(info, MakeEntry(p, k, s))
    ensures Collected(info.lfn[..], info.fDEntryPos, LFN_SIZE - 1, Nothing, 0)
  {
    hide CStr, U16;
    if lfnPos != LFN_SIZE - 1 {
      MoveName(info.lfn, lfnPos);
    } else {
      info.fDEntryPos := at;
      info.lfn[0] := 0;
      EmptyName(info.lfn[..]);
    }
    info.lDEntryPos := at;
    ReadShort(s, info);
  }

  lemma EmptyName(s: seq<int>)
    requires s != [] && s[0] == 0
    ensures CStr(s) == []
  {}

  /** fatfs_getfileinfo_fromdir, with the name to look for as a query. The first matching entry from
      prevPos on is reported; otherwise NoMore if the search met a terminator and NotFound if it ran into
      the end of the buffer. */
  method GetFileInfo(dirBuf: array<byte>, dirBufSize: nat, info: DirInfo, q: Query, prevPos: nat)
    returns (st: Status, pos: nat, ghost i: nat)
    requires dirBufSize <= dirBuf.Length && info.Valid()
    requires prevPos % DIRENTRY_SIZE == 0 && prevPos <= dirBufSize
    requires Bounded(Slots(dirBuf[..], dirBufSize), prevPos / DIRENTRY_SIZE, 0)
    modifies info, info.lfn
    ensures info.Valid()
    ensures var d, k0 := Slots(dirBuf[..], dirBufSize), prevPos / DIRENTRY_SIZE; var es := Parse(d, k0, Nothing);
      if st == Ok then
        FoundAt(es, q, i) && Describes(info, es[i]) && pos == DIRENTRY_SIZE * (es[i].last + 1)
      else
        && NoneMatch(es, q) && st == (if NoEnd(d, k0, |d|) then NotFound else NoMore)
        && (if st == NotFound then pos == DIRENTRY_SIZE * |d| else LastSeen(d, k0, pos))
  {
    hide Slots, CStr, Units, U16, Parse, Describes, Collected, NoneMatch, Bounded, Matches, Accepts, NoEnd, AddLong,
      IsEnd, IsFree, IsLong, IsShort, LastSeen;
    ghost var d, k0 := Slots(dirBuf[..], dirBufSize), prevPos / DIRENTRY_SIZE;
    ghost var es := Parse(d, k0, Nothing);
    info.fDEntryPos, info.lDEntryPos := -1, -1;
    var iCur := prevPos;
    var lfnPos: nat := LFN_SIZE - 1;
    pos, i := prevPos, 0;
    ghost var k, p, m := k0, Nothing, 0;
    NothingYet(info.lfn[..], info.fDEntryPos, es, q);
    NoEndNone(d, k0);
    while iCur + DIRENTRY_SIZE <= dirBufSize
      invariant k0 <= k <= |d| && pos == iCur == DIRENTRY_SIZE * k && info.Valid()
      invariant i <= |es| && es[i..] == Parse(d, k, p) && NoneMatch(es[..i], q)
      invariant NoEnd(d, k0, k) && Bounded(d, k, m) && Collected(info.lfn[..], info.fDEntryPos, lfnPos, p, m)
    {
      SlotIs(dirBuf[..], dirBufSize, k);
      Step(d, k, p, m);
      NoEndStep(d, k0, k);
      if !IsEnd(d[k]) {
        BoundedStep(d, k, m);
      }
      var s: Slot := dirBuf[iCur..iCur + DIRENTRY_SIZE];
      assert s == d[k];
      iCur := iCur + DIRENTRY_SIZE;
      pos := iCur;
      info.name := s[..11];
      SlotKind(s);
      if info.name[0] == 0 {
        AllSeen(es, i, q);
        SeenEnd(d, k0, k);
        return NoMore, pos, i;
      } else if info.name[0] == FREEDENTRY {
        k := k + 1;
        continue;
      }
      info.attr := s[11];
      if info.attr == LONGNAME {
        lfnPos := TakeLong(s, iCur - DIRENTRY_SIZE, info, lfnPos, k, p, m);
        k, p, m := k + 1, AddLong(p, k, s), m + 1;
        continue;
      }
      TakeShort(s, iCur - DIRENTRY_SIZE, info, lfnPos, k, p, m);
      lfnPos := LFN_SIZE - 1;
      var ok := Accepts(q, info.name, info.lfn[..]);
      NextEntry(es, i, MakeEntry(p, k, s), Parse(d, k + 1, Nothing), q);
      AcceptsIs(info, q, MakeEntry(p, k, s));
      if ok {
        return Ok, pos, i;
      }
      k, p, m, i := k + 1, Nothing, 0, i + 1;
    }
    AllSeen(es, i, q) by {
      AtEnd(d, k, p);
    }
    return NotFound, pos, i;
  }

  lemma NothingYet(lfn: seq<Unit>, fDEntryPos: int, es: seq<Entry>, q: Query)
    requires |lfn| == LFN_SIZE
    ensures Collected(lfn, fDEntryPos, LFN_SIZE - 1, Nothing, 0) && NoneMatch(es[..0], q)
  {}

  /** The tests of the source on name and attribute of a slot. */
  lemma SlotKind(s: Slot)
    ensures s[..11][0] == 0 <==> IsEnd(s)
    ensures !IsEnd(s) ==> (s[..11][0] == FREEDENTRY <==> IsFree(s))
    ensures !IsEnd(s) && !IsFree(s) ==> (s[11] == LONGNAME <==> IsLong(s)) && (s[11] != LONGNAME <==> IsShort(s))
    ensures !(IsFree(s) && IsLong(s))
  {}

  lemma SeenEnd(d: seq<Slot>, k0: nat, k: nat)
    requires k0 <= k < |d| && NoEnd(d, k0, k) && IsEnd(d[k])
    ensures LastSeen(d, k0, DIRENTRY_SIZE * (k + 1))
  {}

  lemma NoEndNone(d: seq<Slot>, k0: nat)
    requires k0 <= |d|
    ensures NoEnd(d, k0, k0)
  {}

  lemma NoEndStep(d: seq<Slot>, k0: nat, k: nat)
    requires NoEnd(d, k0, k) && k0 <= k < |d|
    ensures if IsEnd(d[k]) then !NoEnd(d, k0, |d|) else NoEnd(d, k0, k + 1)
  {}

  lemma BoundedStep(d: seq<Slot>, k: nat, m: nat)
    requires k < |d| && Bounded(d, k, m) && !IsEnd(d[k])
    ensures if IsFree(d[k]) then Bounded(d, k + 1, m)
            else if IsLong(d[k]) then ReaderPos(m + 1) >= 0 && Bounded(d, k + 1, m + 1)
            else Bounded(d, k + 1, 0)
  {}

  lemma AtEnd(d: seq<Slot>, k: nat, p: Pending)
    requires k == |d|
    ensures Parse(d, k, p) == []
  {}

  lemma AllSeen(es: seq<Entry>, i: nat, q: Query)
    requires i <= |es| && es[i..] == [] && NoneMatch(es[..i], q)
    ensures NoneMatch(es, q)
  {
    assert es[..i] == es;
  }

  lemma NextEntry(es: seq<Entry>, i: nat, x: Entry, rest: seq<Entry>, q: Query)
    requires i <= |es| && es[i..] == [x] + rest && NoneMatch(es[..i], q)
    ensures i < |es| && es[i] == x && es[i + 1..] == rest
    ensures if Matches(q, x) then FoundAt(es, q, i) else NoneMatch(es[..i + 1], q)
  {
    assert es[i] == es[i..][0] && es[i + 1..] == es[i..][1..];
    assert es[..i + 1] == es[..i] + [x];
  }

  lemma AcceptsIs(info: DirInfo, q: Query, x: Entry)
    requires Describes(info, x)
    ensures Accepts(q, info.name, info.lfn[..]) == Matches(q, x)
  {}
}
