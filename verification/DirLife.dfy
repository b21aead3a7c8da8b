/** The life of a directory entry: creating it with a long name, updating it, deleting it. */
module DirLife {
  import opened Bytes
  import opened Geometry
  import opened FatEntries
  import opened Directory
  import opened DirEdits
  import opened DirQuery
  import opened LongNames
  import opened DirOps
  import opened DirSearch

  /** `x` has been inserted at position `at`. */
  ghost predicate Inserted(before: seq<Entry>, after: seq<Entry>, at: nat, x: Entry) {
    at <= |before| && after == before[..at] + [x] + before[at..]
  }

  /** After the long name has been stored before a freshly allocated 8.3 slot, the directory has one more
      entry: the one with that name, from the first slot of the group to the 8.3 slot. */
  lemma NamedInserts(d: seq<Slot>, e: seq<Slot>, f: seq<Slot>, a: nat, name: seq<Unit>, g: nat, chksum: byte, s: Slot)
    requires DirOk(d) && Vacant(d, a, g + 1) && IsShort(s) && 0 !in name
    requires a + g < |d| && e == Allocated(d, a, g, s) && GroupWritten(e, f, a, name, g, chksum, g)
    ensures Inserted(Entries(d), Entries(f), |ParseTo(d, 0, a, Nothing)|, Entry(a, a + g, name, s)) && DirOk(f)
  {
    hide Parse, Grouped, ParseTo, DirOk, GroupSlot, IsShort, Padded;
    forall x | 0 <= x < a || a + g < x < |d|
      ensures f[x] == d[x]
    {
      assert e[x] == f[x];
    }
    assert f[a + g] == e[a + g] == s;
    forall x | a <= x < a + g
      ensures !IsEnd(f[x])
    {
      assert f[a + (x - a)] == GroupSlot(name, g, chksum, x - a);
      GroupSlotLong(name, g, chksum, x - a);
    }
    GroupReads(f, a, name, g, chksum);
    NotEnd(s);
    InsertEntry(d, f, a, g + 1, Entry(a, a + g, name, s));
  }

  lemma NotEnd(s: Slot)
    requires IsShort(s)
    ensures !IsEnd(s)
  {}

  lemma GroupSlotLong(name: seq<Unit>, g: nat, chksum: byte, j: nat)
    requires |name| <= PARTIALCHARS * g && j < g <= MAX_GROUP
    ensures !IsEnd(GroupSlot(name, g, chksum, j))
  {
    hide Units, Padded;
    ReadNext(name, g, chksum, 0, j + 1);
  }

  lemma FreeInside(d: seq<Slot>, a: nat, g: nat, s: Slot)
    requires a + g < |d|
    ensures AllFree(Allocated(d, a, g, s), a, a + g)
  {
    forall x | a <= x < a + g
      ensures IsFree(Allocated(d, a, g, s)[x])
    {
      assert Allocated(d, a, g, s)[x] == FreeSlot();
    }
  }

  /** The destination side of fatuc_move_dentry: a new 8.3 slot in the first place with room for the long
      name, and the long name before it. The slots are never found taken in between. */
  method CreateEntry(dirBuf: array<byte>, dirBufLen: nat, info: DirInfo, name: seq<Unit>)
    returns (st: Status, ghost at: nat)
    requires dirBufLen <= dirBuf.Length && info.Valid() && |name| <= 247 && 0 !in name
    requires DirOk(Slots(dirBuf[..], dirBufLen)) && IsShort(ShortSlot(info.name, info.attr))
    modifies dirBuf, info.lfn, info`fDEntryPos, info`lDEntryPos
    ensures info.Valid() && DirOk(Slots(dirBuf[..], dirBufLen))
    ensures var d, e := Slots(old(dirBuf[..]), dirBufLen), Slots(dirBuf[..], dirBufLen); var g := GroupSize(|name|);
      if st == Ok then
        && !NoRoom(d, g + 1)
        && info.fDEntryPos >= 0 && info.lDEntryPos == info.fDEntryPos + DIRENTRY_SIZE * g
        && info.fDEntryPos % DIRENTRY_SIZE == 0
        && Inserted(Entries(d), Entries(e), at,
                    Entry(info.fDEntryPos / DIRENTRY_SIZE, info.lDEntryPos / DIRENTRY_SIZE, name,
                          ShortSlot(info.name, info.attr)))
      else st == NoMore && dirBuf[..] == old(dirBuf[..]) && NoRoom(d, g + 1)
  {
    hide Slots, Allocated, ShortSlot, DirOk, Parse, ParseTo, GroupWritten, IsShort, VacantFrom, Checksum, Inserted,
      AllFree;
    ghost var d := Slots(dirBuf[..], dirBufLen);
    var total := GroupSize(|name|) + 1;
    at := 0;
    ghost var a;
    st, a := AllocateDEntry(dirBuf, dirBufLen, total, info);
    if st != Ok {
      return;
    }
    VacantRoom(d, a, total);
    ghost var e := Slots(dirBuf[..], dirBufLen);
    FreeInside(d, a, total - 1, ShortSlot(info.name, info.attr));
    NoneWritten(e, a, name, total - 1, Checksum(info.name)) by {
      NameFits(|name|);
    }
    st := WriteLfn(dirBuf, dirBufLen, info, total, name);
    at := |ParseTo(d, 0, a, Nothing)|;
    NamedInserts(d, e, Slots(dirBuf[..], dirBufLen), a, name, total - 1, Checksum(info.name),
                 ShortSlot(info.name, info.attr));
  }

  /** fatfs__deletefileinfo_indirbuf; `i` is the entry that the record describes. */
  method DeleteFileInfo(dirBuf: array<byte>, dirBufSize: nat, info: DirInfo, ghost i: nat)
    requires dirBufSize <= dirBuf.Length && DirOk(Slots(dirBuf[..], dirBufSize))
    requires i < |Entries(Slots(dirBuf[..], dirBufSize))|
    requires var x := Entries(Slots(dirBuf[..], dirBufSize))[i];
      info.fDEntryPos == DIRENTRY_SIZE * x.first && info.lDEntryPos == DIRENTRY_SIZE * x.last
    modifies dirBuf
    ensures DirOk(Slots(dirBuf[..], dirBufSize))
    ensures Entries(Slots(dirBuf[..], dirBufSize)) == RemoveAt(Entries(Slots(old(dirBuf[..]), dirBufSize)), i)
  {
    hide Slots, Parse, DirOk, RemoveAt, Cleared, Splice;
    ghost var d := Slots(dirBuf[..], dirBufSize);
    ghost var x := Entries(d)[i];
    EntryPlaces(d, i);
    ghost var k := x.first;
    var pCur := info.fDEntryPos;
    NothingFreed(d, k);
    while pCur <= info.lDEntryPos
      invariant pCur == DIRENTRY_SIZE * k && x.first <= k <= x.last + 1
      invariant FreedUpTo(d, Slots(dirBuf[..], dirBufSize), x.first, k)
    {
      ghost var e := Slots(dirBuf[..], dirBufSize);
      ghost var before := dirBuf[..];
      SlotIs(before, dirBufSize, k);
      FreedMore(d, e, x.first, k);
      SlotWritten(before, dirBufSize, k, e[k][0 := FREEDENTRY]);
      dirBuf[pCur] := FREEDENTRY;
      FirstByte(before, dirBuf[..], pCur, e[k]);
      pCur := pCur + DIRENTRY_SIZE;
      k := k + 1;
    }
    AllFreed(d, Slots(dirBuf[..], dirBufSize), x.first, k);
    DeleteEntry(d, Slots(dirBuf[..], dirBufSize), i);
  }

  lemma EntryPlaces(d: seq<Slot>, i: nat)
    requires i < |Entries(d)|
    ensures Entries(d)[i].first <= Entries(d)[i].last < |d| && IsShort(d[Entries(d)[i].last])
    ensures Entries(d)[i].data == d[Entries(d)[i].last]
  {
    hide Parse;
    Positions(d, 0, Nothing, i);
  }

  ghost predicate FreedUpTo(d: seq<Slot>, e: seq<Slot>, lo: nat, k: nat) {
    |e| == |d| && forall y :: 0 <= y < |d| ==> if lo <= y < k then IsFree(e[y]) else e[y] == d[y]
  }

  lemma NothingFreed(d: seq<Slot>, k: nat)
    ensures FreedUpTo(d, d, k, k)
  {}

  lemma FreedMore(d: seq<Slot>, e: seq<Slot>, lo: nat, k: nat)
    requires FreedUpTo(d, e, lo, k) && lo <= k < |d|
    ensures FreedUpTo(d, e[k := e[k][0 := FREEDENTRY]], lo, k + 1)
  {}

  lemma AllFreed(d: seq<Slot>, e: seq<Slot>, lo: nat, k: nat)
    requires FreedUpTo(d, e, lo, k) && lo < k
    ensures Cleared(d, e, 0, lo, k - 1)
  {}

  lemma FirstByte(before: seq<byte>, after: seq<byte>, p: nat, s: Slot)
    requires p + 32 <= |before| && s == before[p..p + 32] && after == before[p := FREEDENTRY]
    ensures after == Splice(before, p, s[0 := FREEDENTRY])
  {}

  /** A slot with the bytes `t` put at offset `off`. */
  function Put(s: Slot, off: nat, t: seq<byte>): Slot
    requires off + |t| <= 32
  {
    Splice(s, off, t)
  }

  lemma PutKeeps(s: Slot, off: nat, t: seq<byte>, i: nat)
    requires off + |t| <= 32 && i < 31
    ensures i + 2 <= off || off + |t| <= i ==> U16(Put(s, off, t), i) == U16(s, i)
    ensures |t| == 2 && i == off ==> U16(Put(s, off, t), i) == t[0] + 256 * (t[1] as int)
  {}

  /** The slot of an updated entry. */
  function UpdatedSlot(s: Slot, u: set<Field>, info: Values): Slot {
    var all := AllFields in u;
    var s1 := if SizeField in u || all then Put(s, 28, ToLe(info.newFileSize, 4)) else s;
    var lo := Put(s1, 26, ToLe(info.firstClus % 0x10000, 2));
    var s2 := if FirstClusField in u || all then Put(lo, 20, ToLe(info.firstClus / 0x10000, 2)) else s1;
    var s3 := if NameField in u || all then Put(s2, 0, info.name) else s2;
    var s4 := if all then Put(s3, 11, [info.attr]) else s3;
    Put(Put(s4, 22, ToLe(info.wrtTime, 2)), 24, ToLe(info.wrtDate, 2))
  }

  type Name = s: seq<byte> | |s| == 11 witness seq<byte>(11, _ => 0)

  datatype Values = Values(name: Name, attr: byte, wrtTime: Unit, wrtDate: Unit, firstClus: nat, newFileSize: nat)

  function ValuesOf(info: DirInfo): Values
    requires info.Valid()
    reads info
  {
    Values(info.name, info.attr, info.wrtTime, info.wrtDate, info.firstClus, info.newFileSize)
  }

  lemma ToLeTwo(v: nat)
    ensures ToLe(v, 2) == [v % 256, v / 256 % 256]
    ensures ToLe(v, 4) == [v % 256, v / 256 % 256, v / 0x10000 % 256, v / 0x100_0000 % 256]
  {
    assert ToLe(v, 2) == [v % 256] + ToLe(v / 256, 1);
    assert ToLe(v / 256, 1) == [v / 256 % 256];
    assert ToLe(v, 4) == [v % 256] + ToLe(v / 256, 3);
    assert ToLe(v / 256, 3) == [v / 256 % 256] + ToLe(v / 256 / 256, 2);
    assert ToLe(v / 256 / 256, 2) == [v / 256 / 256 % 256] + ToLe(v / 256 / 256 / 256, 1);
    assert v / 256 / 256 == v / 0x10000 && v / 256 / 256 / 256 == v / 0x100_0000;
  }

  lemma PutTwo(s: Slot, off: nat, v: Unit)
    requires off + 2 <= 32
    ensures U16(Put(s, off, ToLe(v, 2)), off) == v
  {
    ToLeTwo(v);
    PutKeeps(s, off, ToLe(v, 2), off);
  }

  lemma PutFour(s: Slot, v: nat)
    requires v < TWO32
    ensures var t := Put(s, 28, ToLe(v, 4)); U16(t, 28) + 0x10000 * U16(t, 30) == v
  {
    hide Put, ToLe;
    ToLeTwo(v);
    PutLast(s, v % 256, v / 256 % 256, v / 0x10000 % 256, v / 0x100_0000 % 256);
    FourDigits(v);
  }

  lemma PutLast(s: Slot, a: byte, b: byte, c: byte, d: byte)
    ensures var t := Put(s, 28, [a, b, c, d]); U16(t, 28) == a + 256 * b && U16(t, 30) == c + 256 * d
  {
    var t := Put(s, 28, [a, b, c, d]);
    assert t[28] == a && t[29] == b && t[30] == c && t[31] == d;
  }

  lemma FourDigits(v: nat)
    requires v < TWO32
    ensures v == v % 256 + 256 * (v / 256 % 256) + 0x10000 * (v / 0x10000 % 256 + 256 * (v / 0x100_0000 % 256))
  {
    assert v / 0x10000 == v / 256 / 256 && v / 0x100_0000 == v / 0x10000 / 256;
  }

  lemma PutByte(s: Slot, off: nat, t: seq<byte>)
    requires off + |t| <= 32
    ensures off >= 11 ==> Put(s, off, t)[..11] == s[..11]
    ensures off == 0 && |t| == 11 ==> Put(s, off, t)[..11] == t
    ensures off > 11 || off + |t| <= 11 ==> Put(s, off, t)[11] == s[11]
    ensures off == 11 && |t| == 1 ==> Put(s, off, t)[11] == t[0]
  {
    assert Put(s, off, t)[off..off + |t|] == t;
  }

  /** Slot `t` is slot `s` with what the flags ask for set, and the rest of what it says left alone. */
  ghost predicate UpdatedAs(s: Slot, t: Slot, u: set<Field>, v: Values) {
    var x, y := Entry(0, 0, [], s), Entry(0, 0, [], t);
    && y.Name() == (if NameField in u || AllFields in u then v.name else x.Name())
    && y.Attr() == (if AllFields in u then v.attr else x.Attr())
    && y.FirstClus() == (if FirstClusField in u || AllFields in u then v.firstClus else x.FirstClus())
    && y.FileSize() == (if SizeField in u || AllFields in u then v.newFileSize else x.FileSize())
    && U16(t, 22) == v.wrtTime && U16(t, 24) == v.wrtDate && t[12..20] == s[12..20]
  }

  lemma UpdatedReads(s: Slot, u: set<Field>, v: Values)
    requires v.firstClus < TWO32 && v.newFileSize < TWO32
    ensures UpdatedAs(s, UpdatedSlot(s, u, v), u, v)
  {
    var size, clus, name, all := SizeField in u, FirstClusField in u, NameField in u, AllFields in u;
    hide Put, ToLe, U16;
    var four, lo, hi := ToLe(v.newFileSize, 4), ToLe(v.firstClus % 0x10000, 2), ToLe(v.firstClus / 0x10000, 2);
    var s1 := if size || all then Put(s, 28, four) else s;
    var s2a := Put(s1, 26, lo);
    var s2 := if clus || all then Put(s2a, 20, hi) else s1;
    var s3 := if name || all then Put(s2, 0, v.name) else s2;
    var s4 := if all then Put(s3, 11, [v.attr]) else s3;
    var s5 := Put(s4, 22, ToLe(v.wrtTime, 2));
    var s6 := Put(s5, 24, ToLe(v.wrtDate, 2));
    PutFour(s, v.newFileSize);
    PutTwo(s1, 26, v.firstClus % 0x10000);
    PutTwo(s2a, 20, v.firstClus / 0x10000);
    forall i | i in {20, 26, 28, 30}
      ensures i < 28 ==> U16(s1, i) == U16(s, i)
      ensures i != 26 ==> U16(s2a, i) == U16(s1, i)
      ensures i != 20 ==> U16(Put(s2a, 20, hi), i) == U16(s2a, i)
      ensures U16(s6, i) == U16(s5, i) == U16(s4, i) == U16(s3, i) == U16(s2, i)
    {
      PutKeeps(s, 28, four, i);
      PutKeeps(s1, 26, lo, i);
      PutKeeps(s2a, 20, hi, i);
      PutKeeps(s2, 0, v.name, i);
      PutKeeps(s3, 11, [v.attr], i);
      PutKeeps(s4, 22, ToLe(v.wrtTime, 2), i);
      PutKeeps(s5, 24, ToLe(v.wrtDate, 2), i);
    }
    PutByte(s, 28, four);
    PutByte(s1, 26, lo);
    PutByte(s2a, 20, hi);
    PutByte(s2, 0, v.name);
    PutByte(s3, 11, [v.attr]);
    PutByte(s4, 22, ToLe(v.wrtTime, 2));
    PutByte(s5, 24, ToLe(v.wrtDate, 2));
    assert U16(s6, 28) == U16(s1, 28) && U16(s6, 30) == U16(s1, 30);
    PutTwo(s4, 22, v.wrtTime);
    PutTwo(s5, 24, v.wrtDate);
    PutKeeps(s5, 24, ToLe(v.wrtDate, 2), 22);
    PutMiddle(s, 28, four);
    PutMiddle(s1, 26, lo);
    PutMiddle(s2a, 20, hi);
    PutMiddle(s2, 0, v.name);
    PutMiddle(s3, 11, [v.attr]);
    PutMiddle(s4, 22, ToLe(v.wrtTime, 2));
    PutMiddle(s5, 24, ToLe(v.wrtDate, 2));
  }

  lemma PutMiddle(s: Slot, off: nat, t: seq<byte>)
    requires off + |t| <= 32 && (off + |t| <= 12 || 20 <= off)
    ensures Put(s, off, t)[12..20] == s[12..20]
  {
    SpliceSlices(s, off, t, 12, 20);
  }

  /** The buffer_write functions, inside slot `k`. */
  method PutBytes(dirBuf: array<byte>, dirBufSize: nat, k: nat, off: nat, t: seq<byte>)
    requires dirBufSize <= dirBuf.Length && k < dirBufSize / DIRENTRY_SIZE && off + |t| <= 32
    modifies dirBuf
    ensures Slots(dirBuf[..], dirBufSize) ==
      Slots(old(dirBuf[..]), dirBufSize)[k := Put(Slots(old(dirBuf[..]), dirBufSize)[k], off, t)]
  {
    hide Slots;
    ghost var before := dirBuf[..];
    SlotIs(before, dirBufSize, k);
    SlotWritten(before, dirBufSize, k, Put(Slots(before, dirBufSize)[k], off, t));
    forall i | 0 <= i < |t| {
      dirBuf[DIRENTRY_SIZE * k + off + i] := t[i];
    }
    PutIsSplice(before, dirBuf[..], DIRENTRY_SIZE * k, off, t);
  }

  lemma PutIsSplice(before: seq<byte>, after: seq<byte>, p: nat, off: nat, t: seq<byte>)
    requires off + |t| <= 32 && p + 32 <= |before| == |after|
    requires forall x :: 0 <= x < |after| ==>
      after[x] == if p + off <= x < p + off + |t| then t[x - (p + off)] else before[x]
    ensures after == Splice(before, p, Put(before[p..p + 32], off, t))
  {}

  /** fatfs_updatefileinfo_indirbuf: the 8.3 slot that the search for the record's 8.3 name stops at is
      rewritten, and no other slot. That is an update of this entry alone, with two exceptions. A record whose
      name begins with a zero byte hits the first entry and, if the name is written too, ends the directory
      there; and one with the attribute of long-name slots, if that is written, makes the entry vanish. */
  method UpdateFileInfo(dirBuf: array<byte>, dirBufSize: nat, info: DirInfo) returns (st: Status, ghost i: nat)
    requires dirBufSize <= dirBuf.Length && info.Valid() && DirOk(Slots(dirBuf[..], dirBufSize))
    modifies dirBuf
    ensures var es, fs := Entries(Slots(old(dirBuf[..]), dirBufSize)), Entries(Slots(dirBuf[..], dirBufSize));
      if st == Ok then
        && FoundAt(es, Expanded(info.name), i)
        && ((Rewritten(es, fs, i, info.updated, ValuesOf(info)) && DirOk(Slots(dirBuf[..], dirBufSize))) <==>
            ((info.name[0] != 0 || !Renames(info.updated)) && !Disguises(info.updated, info.attr)))
        && (info.name[0] == 0 ==> i == 0 && (Renames(info.updated) ==> fs == []))
        && (info.name[0] != 0 && Disguises(info.updated, info.attr) ==> |fs| == |es| - 1)
      else
        st == NotFound && NoneMatch(es, Expanded(info.name)) && dirBuf[..] == old(dirBuf[..])
  {
    hide Slots, Parse, Describes, Bounded, DirOk, UpdatedSlot, Rewritten, Matches;
    ghost var d := Slots(dirBuf[..], dirBufSize);
    var gInfo := new DirInfo();
    var prevPos;
    DirBounded(d);
    st, prevPos, i := GetFileInfo(dirBuf, dirBufSize, gInfo, Expanded(info.name), 0);
    if st != Ok {
      return NotFound, i;
    }
    EntryPlaces(d, i);
    var k := prevPos / DIRENTRY_SIZE - 1;
    WriteFields(dirBuf, dirBufSize, info, k);
    UpdateDone(d, i, info.updated, ValuesOf(info));
  }

  predicate Renames(u: set<Field>) {
    NameField in u || AllFields in u
  }

  /** The slot becomes that of a long name. */
  predicate Disguises(u: set<Field>, attr: byte) {
    AllFields in u && attr == LONGNAME
  }

  lemma DirBounded(d: seq<Slot>)
    requires DirOk(d)
    ensures Bounded(d, 0, 0)
  {
    GroupedIsBounded(d, 0, 0);
  }

  /** Entry `i` has been updated, and no other. */
  ghost predicate Rewritten(es: seq<Entry>, fs: seq<Entry>, i: nat, u: set<Field>, v: Values) {
    && |fs| == |es| && i < |es|
    && fs == es[i := Entry(es[i].first, es[i].last, es[i].lfn, fs[i].data)]
    && UpdatedAs(es[i].data, fs[i].data, u, v)
  }

  lemma UpdateDone(d: seq<Slot>, i: nat, u: set<Field>, v: Values)
    requires DirOk(d) && FoundAt(Entries(d), Expanded(v.name), i) && Entries(d)[i].last < |d|
    requires v.firstClus < TWO32 && v.newFileSize < TWO32
    ensures var k := Entries(d)[i].last; var e := d[k := UpdatedSlot(d[k], u, v)];
      && (Rewritten(Entries(d), Entries(e), i, u, v) && DirOk(e) <==>
            (v.name[0] != 0 || !Renames(u)) && !Disguises(u, v.attr))
      && (v.name[0] == 0 ==> i == 0 && (Renames(u) ==> Entries(e) == []))
      && (v.name[0] != 0 && Disguises(u, v.attr) ==> |Entries(e)| == |Entries(d)| - 1)
  {
    hide Parse, DirOk, UpdatedSlot, U16, CStr;
    EntryPlaces(d, i);
    var k := Entries(d)[i].last;
    var s := UpdatedSlot(d[k], u, v);
    UpdatedReads(d[k], u, v);
    if v.name[0] == 0 {
      AnyMatches(Entries(d), v.name, i);
    }
    if v.name[0] != 0 && Disguises(u, v.attr) {
      NameStays(d[k], s, v.name);
      Vanishes(d, d[k := s], 0, Nothing, i);
    } else if v.name[0] != 0 || !Renames(u) {
      StillShort(d[k], s, v.name, Renames(u), AllFields in u, v.attr);
      ReplaceEntry(d, d[k := s], i);
    } else {
      assert s[..11][0] == v.name[0];
      EndsThere(d, d[k := s], 0, Nothing);
    }
  }

  /** A slot that keeps its name up to the first zero is not free, and no end. */
  lemma NameStays(s: Slot, t: Slot, name: Name)
    requires IsShort(s) && CStr(s[..11]) == CStr(name) && t[..11] == name
    ensures !IsFree(t) && !IsEnd(t)
  {
    assert CStr(s[..11])[0] == s[..11][0] == s[0];
    assert t[..11][0] == t[0];
    assert name[0] == CStr(name)[0];
  }

  /** How many entries there are does not depend on what was read before. */
  lemma {:induction false} AsMany(d: seq<Slot>, e: seq<Slot>, k: nat, p: Pending, q: Pending)
    requires k <= |d| == |e| && Same(d, e, k, |d|)
    ensures |Parse(e, k, q)| == |Parse(d, k, p)|
    decreases |d| - k
  {
    hide CStr, Units;
    if k < |d| && !IsEnd(d[k]) {
      if IsFree(d[k]) {
        AsMany(d, e, k + 1, p, q);
      } else if IsLong(d[k]) {
        AsMany(d, e, k + 1, AddLong(p, k, d[k]), AddLong(q, k, e[k]));
      } else {
        AsMany(d, e, k + 1, Nothing, Nothing);
      }
    }
  }

  /** A long-name slot in the place of an 8.3 slot: one entry less. */
  lemma {:induction false} Vanishes(d: seq<Slot>, e: seq<Slot>, k: nat, p: Pending, i: nat)
    requires k <= |d| && i < |Parse(d, k, p)| && (p.Some? ==> p.first < k)
    requires var x := Parse(d, k, p)[i].last; OnlySlot(d, e, k, x) && x < |d| == |e| && IsLong(e[x])
    ensures |Parse(e, k, p)| == |Parse(d, k, p)| - 1
    decreases |d| - k
  {
    hide CStr, Units, OnlySlot, Same;
    Positions(d, k, p, i);
    OnlySlotStep(d, e, k, Parse(d, k, p)[i].last);
    if IsFree(d[k]) {
      Vanishes(d, e, k + 1, p, i);
    } else if IsLong(d[k]) {
      Vanishes(d, e, k + 1, AddLong(p, k, d[k]), i);
    } else if i == 0 {
      AsMany(d, e, k + 1, Nothing, AddLong(p, k, e[k]));
    } else {
      Vanishes(d, e, k + 1, Nothing, i - 1);
    }
  }

  lemma AnyMatches(es: seq<Entry>, name: Name, i: nat)
    requires FoundAt(es, Expanded(name), i) && name[0] == 0
    ensures i == 0
  {
    if i > 0 {
      NotBefore(es, Expanded(name), 0, i);
    }
  }

  /** A terminator in the place of the first 8.3 slot hides the whole directory. */
  lemma {:induction false} EndsThere(d: seq<Slot>, e: seq<Slot>, k: nat, p: Pending)
    requires k <= |d| && Parse(d, k, p) != []
    requires var x := Parse(d, k, p)[0].last; OnlySlot(d, e, k, x) && x < |d| == |e| && IsEnd(e[x])
    ensures Parse(e, k, p) == []
    decreases |d| - k
  {
    hide CStr, Units;
    if IsFree(d[k]) {
      EndsThere(d, e, k + 1, p);
    } else if IsLong(d[k]) {
      EndsThere(d, e, k + 1, AddLong(p, k, d[k]));
    }
  }

  lemma StillShort(s: Slot, t: Slot, name: Name, renamed: bool, all: bool, attr: byte)
    requires IsShort(s) && (all ==> attr != LONGNAME) && (renamed ==> CStr(s[..11]) == CStr(name))
    requires t[..11] == (if renamed then name else s[..11]) && t[11] == if all then attr else s[11]
    ensures IsShort(t)
  {
    assert CStr(s[..11])[0] == s[..11][0] == s[0];
    assert t[..11][0] == t[0];
    assert renamed ==> name[0] == CStr(name)[0];
  }

  /** The writes of fatfs_updatefileinfo_indirbuf. */
  method WriteFields(dirBuf: array<byte>, dirBufSize: nat, info: DirInfo, k: nat)
    requires dirBufSize <= dirBuf.Length && info.Valid() && k < dirBufSize / DIRENTRY_SIZE
    modifies dirBuf
    ensures var d, u := Slots(old(dirBuf[..]), dirBufSize), info.updated;
      Slots(dirBuf[..], dirBufSize) ==
        d[k := UpdatedSlot(d[k], u, ValuesOf(info))]
  {
    hide Slots, Put, ToLe;
    if SizeField in info.updated || AllFields in info.updated {
      PutBytes(dirBuf, dirBufSize, k, 28, ToLe(info.newFileSize, 4));
    }
    if FirstClusField in info.updated || AllFields in info.updated {
      PutBytes(dirBuf, dirBufSize, k, 26, ToLe(info.firstClus % 0x10000, 2));
      PutBytes(dirBuf, dirBufSize, k, 20, ToLe(info.firstClus / 0x10000, 2));
    }
    if NameField in info.updated || AllFields in info.updated {
      PutBytes(dirBuf, dirBufSize, k, 0, info.name);
    }
    if AllFields in info.updated {
      PutBytes(dirBuf, dirBufSize, k, 11, [info.attr]);
    }
    PutBytes(dirBuf, dirBufSize, k, 22, ToLe(info.wrtTime, 2));
    PutBytes(dirBuf, dirBufSize, k, 24, ToLe(info.wrtDate, 2));
  }

  /** The key of a query is that of a new entry: its 8.3 name or its long name. */
  predicate Means(q: Query, name: seq<byte>, lfn: seq<Unit>) {
    match KeyOf(q)
    case Key83(n) => CStr(name) == CStr(n)
    case KeyLfn(l) => lfn == CStr(l)
  }

  /** Creating an entry with a long name, looking it up by either of its names, and deleting what was found.
      If the names are new, the directory is back to its old entries, and the look-up has reported the new
      one, exactly when the name looked for does not begin with a zero byte or the new entry is the first. */
  method CreateFindDelete(dirBuf: array<byte>, size: nat, info: DirInfo, name: seq<Unit>, q: Query)
    returns (created: bool, found: DirInfo, ghost at: nat)
    requires size <= dirBuf.Length && info.Valid() && |name| <= 247 && 0 !in name
    requires DirOk(Slots(dirBuf[..], size)) && IsShort(ShortSlot(info.name, info.attr))
    requires Means(q, info.name, name) && NoneHas(Entries(Slots(dirBuf[..], size)), KeyOf(q))
    modifies dirBuf, info.lfn, info`fDEntryPos, info`lDEntryPos
    ensures DirOk(Slots(dirBuf[..], size))
    ensures created <==> !NoRoom(Slots(old(dirBuf[..]), size), GroupSize(|name|) + 1)
    ensures !created ==> dirBuf[..] == old(dirBuf[..])
    ensures created ==>
      && at <= |Entries(Slots(old(dirBuf[..]), size))|
      && (Entries(Slots(dirBuf[..], size)) == Entries(Slots(old(dirBuf[..]), size)) <==> !FirstByteZero(q) || at == 0)
      && (!FirstByteZero(q) || at == 0 ==>
            && CStr(found.lfn[..]) == name && found.name == info.name && found.attr == info.attr
            && found.firstClus == 0 && found.fileSize == 0
            && found.fDEntryPos == info.fDEntryPos && found.lDEntryPos == info.lDEntryPos
            && found.lDEntryPos - found.fDEntryPos == DIRENTRY_SIZE * GroupSize(|name|))
  {
    hide Slots, Parse, Bounded, DirOk, ShortSlot, IsShort, NoneMatch, Inserted, FoundAt, RemoveAt, KeyOf, NoneHas,
      Means, FirstByteZero, Matches, CStr, NoRoom;
    found := new DirInfo();
    ghost var es := Entries(Slots(dirBuf[..], size));
    var st, pos;
    ghost var i;
    st, at := CreateEntry(dirBuf, size, info, name);
    if st != Ok {
      return false, found, at;
    }
    ghost var fs := Entries(Slots(dirBuf[..], size));
    ghost var x := Entry(info.fDEntryPos / DIRENTRY_SIZE, info.lDEntryPos / DIRENTRY_SIZE, name,
                         ShortSlot(info.name, info.attr));
    ShortSlotName(info.name, info.attr);
    MeansKey(q, info.name, name, x);
    CreatedIsFound(es, fs, at, x, q);
    DirBounded(Slots(dirBuf[..], size));
    st, pos, i := GetFileInfo(dirBuf, size, found, q, 0);
    Present(fs, q);
    InRange(fs, q, i);
    if !FirstByteZero(q) || at == 0 {
      FoundOnce(fs, q, at, i);
    }
    if i == at {
      assert FoundAt(fs, q, at);
    }
    DeleteFileInfo(dirBuf, size, found, i);
    return true, found, at;
  }

  /** A new entry is found by a new key exactly when the query does not begin with a zero byte or the entry
      is the first one; removing it, and removing no other, gives back the old entries. */
  lemma CreatedIsFound(before: seq<Entry>, after: seq<Entry>, at: nat, x: Entry, q: Query)
    requires Inserted(before, after, at, x) && HasKey(x, KeyOf(q)) && NoneHas(before, KeyOf(q))
    ensures at <= |before| && at < |after| && after[at] == x && exists i :: FoundAt(after, q, i)
    ensures FoundAt(after, q, at) <==> !FirstByteZero(q) || at == 0
    ensures forall i :: 0 <= i < |after| ==> (RemoveAt(after, i) == before <==> i == at)
  {
    hide KeyOf, HasKey, FoundAt, RemoveAt, NoneHas;
    assert before == before[..at] + before[at..];
    InsertedThenDeleted(before, before[..at], x, before[at..], q);
  }

  lemma MeansKey(q: Query, name: seq<byte>, lfn: seq<Unit>, x: Entry)
    requires Means(q, name, lfn) && x.Name() == name && x.lfn == lfn
    ensures HasKey(x, KeyOf(q))
  {}

  /** An 8.3 name as it is written means the entries whose slot holds that stem and that extension. */
  lemma WrittenMeans(stem: seq<byte>, ext: seq<byte>, name: seq<byte>, lfn: seq<Unit>, junk: seq<byte>)
    requires 1 <= |stem| <= 8 && Plain(stem) && |ext| <= 3 && 0 !in ext && |name| == 11
    ensures Means(ByName(Written(stem, ext), junk), name, lfn) <==> IsSlotName(name, stem, ext)
  {
    hide KeyOf, IsSlotName;
    var x := Entry(0, 0, lfn, name + seq<byte>(21, _ => 0));
    assert x.Name() == name;
    WrittenName(stem, ext, junk);
    HasWrittenName(x, stem, ext, junk);
  }

  lemma InRange(es: seq<Entry>, q: Query, i: nat)
    requires FoundAt(es, q, i)
    ensures i < |es|
  {}

  lemma Present(es: seq<Entry>, q: Query)
    requires exists i :: FoundAt(es, q, i)
    ensures !NoneMatch(es, q)
  {}

  lemma ShortSlotName(name: seq<byte>, attr: byte)
    requires |name| == 11
    ensures var x := Entry(0, 0, [], ShortSlot(name, attr));
      x.Name() == ShortSlot(name, attr)[..11] == name && x.Attr() == attr && x.FirstClus() == 0 && x.FileSize() == 0
  {
    var s := ShortSlot(name, attr);
    assert U16(s, 20) == 0 && U16(s, 26) == 0 && U16(s, 28) == 0 && U16(s, 30) == 0;
  }
}
