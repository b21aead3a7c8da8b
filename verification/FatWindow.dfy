/** The sliding write-back window over the active FAT (the PARTLYMAPPED build of fatfs.c). */
module FatWindow {
  import opened Bytes
  import opened Geometry
  import opened BlockDevice
  import opened FatEntries

  datatype AccessPattern = Balanced | MostlyForward | OnlyForward

  /** A 32-bit unsigned value passed as a C int. */
  function AsInt32(x: nat): (r: int)
    requires x < TWO32
  {
    if x < 0x8000_0000 then x else x - TWO32
  }

  /** The start entry fatfs_partlymappedfat_handle asks for on a miss; it may have wrapped below zero. */
  function NewStart(i: nat, curStart: nat, curEnd: nat, pattern: AccessPattern): int
    requires curStart <= curEnd
  {
    match pattern
    case Balanced => AsInt32(U32(i - (curEnd - curStart) / 2))
    case OnlyForward => AsInt32(U32(i))
    case MostlyForward => AsInt32(U32(i - (curEnd - curStart) / 4))
  }

  /** Sector of the FAT in which the load of fatfs_loadfat begins. */
  function LoadSec(g: Geo, startEntry: int): nat
    requires g.bytPerSec > 0
  {
    Div((if startEntry < 0 then 0 else startEntry) * g.EntryBytes(), g.bytPerSec)
  }

  function LoadStart(g: Geo, startEntry: int): nat
    requires g.bytPerSec > 0
  {
    Div(g.SecBytes(LoadSec(g, startEntry)), g.EntryBytes())
  }

  function LoadEnd(g: Geo, winSecs: nat, startEntry: int): int
    requires g.bytPerSec > 0
  {
    Min(LoadStart(g, startEntry) + Div(g.SecBytes(winSecs), g.EntryBytes()) - 1, g.MaxFatEntry())
  }

  /** A sector holds a whole number of entries, so rounding an entry down to its sector is exact. */
  lemma Rounding(g: Geo, e: nat)
    requires g.bytPerSec in {512, 1024, 2048, 4096}
    ensures g.EntriesPerSec() >= 128 && g.EntriesPerSec() * g.EntryBytes() == g.bytPerSec
    ensures Div(e * g.EntryBytes(), g.bytPerSec) == Div(e, g.EntriesPerSec())
    ensures Div(g.SecBytes(e), g.EntryBytes()) == g.SecEntries(e)
    ensures g.SecEntries(e) * g.EntryBytes() == g.SecBytes(e)
  {
    if g.kind == Fat16 {
      assert g.EntryBytes() == 2;
      if g.bytPerSec == 512 {} else if g.bytPerSec == 1024 {} else if g.bytPerSec == 2048 {} else {}
    } else {
      assert g.EntryBytes() == 4;
      if g.bytPerSec == 512 {} else if g.bytPerSec == 1024 {} else if g.bytPerSec == 2048 {} else {}
    }
  }

  lemma Wrap(x: int)
    requires -0x8000_0000 <= x < 0x8000_0000
    ensures AsInt32(U32(x)) == x
  {}

  lemma NewStartBounds(i: nat, curStart: nat, curEnd: nat, pattern: AccessPattern)
    requires i < 0x4000_0000 && curStart <= curEnd < curStart + 0x4000_0000
    ensures i - (curEnd - curStart) / 2 <= NewStart(i, curStart, curEnd, pattern) <= i
  {
    Wrap(i - (curEnd - curStart) / 2);
    Wrap(i - (curEnd - curStart) / 4);
    Wrap(i);
  }

  /** The window bounds in terms of whole sectors. */
  lemma LoadBounds(g: Geo, winSecs: nat, s: int)
    requires g.Valid() && winSecs >= 1 && s <= g.MaxFatEntry()
    ensures var from := if s < 0 then 0 else s; var eps := g.EntriesPerSec();
      && g.MaxFatEntry() == g.SecEntries(g.fatSz) - 1
      && LoadStart(g, s) == g.SecEntries(LoadSec(g, s)) <= from < LoadStart(g, s) + eps
      && from <= g.MaxFatEntry()
      && LoadSec(g, s) < g.fatSz
      && Div(g.SecBytes(winSecs), g.EntryBytes()) == g.SecEntries(winSecs) >= 128
      && LoadEnd(g, winSecs, s) == Min(LoadStart(g, s) + g.SecEntries(winSecs) - 1, g.MaxFatEntry())
  {
    var from := if s < 0 then 0 else s;
    Rounding(g, from);
    Rounding(g, LoadSec(g, s));
    Rounding(g, g.fatSz);
    Rounding(g, winSecs);
    MulLe(1, winSecs, g.EntriesPerSec());
    if g.fatSz <= LoadSec(g, s) {
      MulLe(g.fatSz, LoadSec(g, s), g.EntriesPerSec());
    }
  }

  /** After a miss the reloaded window contains the wanted entry, whatever the access pattern, as long
      as the window has at least two sectors: unsigned underflow, clamping to entry 0, rounding down
      to a sector and clipping at the last entry are all covered. */
  lemma SlideCovers(g: Geo, winSecs: nat, curStart: nat, curEnd: nat, pattern: AccessPattern, i: nat)
    requires g.Valid() && winSecs >= 2 && i <= g.MaxFatEntry()
    requires curStart <= curEnd < curStart + g.SecEntries(winSecs)
    requires g.SecEntries(winSecs) < 0x4000_0000
    ensures var s := NewStart(i, curStart, curEnd, pattern);
      && s <= i && LoadSec(g, s) < g.fatSz
      && LoadStart(g, s) <= i <= LoadEnd(g, winSecs, s)
  {
    assert i < 0x4000_0000 by { DivLess(g.FatBytes(), g.EntryBytes()); }
    NewStartBounds(i, curStart, curEnd, pattern);
    var s := NewStart(i, curStart, curEnd, pattern);
    LoadBounds(g, winSecs, s);
    MulLe(2, winSecs, g.EntriesPerSec());
  }

  /** Where the reloaded window begins: with the sector of the entry itself, or of the one half or a quarter of the old
      window before it, or with the FAT; and it is as long as the buffer or ends with the FAT. */
  lemma SlidePlace(g: Geo, winSecs: nat, curStart: nat, curEnd: nat, pattern: AccessPattern, i: nat)
    requires g.Valid() && winSecs >= 1 && i <= g.MaxFatEntry()
    requires curStart <= curEnd < curStart + 0x4000_0000
    ensures var s := NewStart(i, curStart, curEnd, pattern);
      var back := if pattern.OnlyForward? then 0 else (curEnd - curStart) / if pattern.Balanced? then 2 else 4;
      && LoadStart(g, s) <= (if i < back then 0 else i - back) < LoadStart(g, s) + g.EntriesPerSec()
      && LoadStart(g, s) == g.SecEntries(LoadSec(g, s))
      && LoadEnd(g, winSecs, s) == Min(LoadStart(g, s) + g.SecEntries(winSecs), g.SecEntries(g.fatSz)) - 1
  {
    assert i < 0x4000_0000 by { DivLess(g.FatBytes(), g.EntryBytes()); }
    NewStartBounds(i, curStart, curEnd, pattern);
    Wrap(i - (curEnd - curStart) / 2);
    Wrap(i - (curEnd - curStart) / 4);
    Wrap(i);
    LoadBounds(g, winSecs, NewStart(i, curStart, curEnd, pattern));
  }

  lemma DivLess(a: nat, d: nat)
    requires d == 2 || d == 4
    ensures Div(a, d) <= a
  {}

  const FATFAT_MAXSIZE: nat := 1024 * 1024

  /** The window the code allocates has at least 256 sectors, and so the slide always covers the entry. */
  lemma ShippedWindow(g: Geo)
    requires g.Valid()
    ensures Div(FATFAT_MAXSIZE, g.bytPerSec) >= 256
    ensures g.SecEntries(Div(FATFAT_MAXSIZE, g.bytPerSec)) < 0x4000_0000
  {
    Rounding(g, 0);
    MulLe(Div(FATFAT_MAXSIZE, g.bytPerSec), 2048, g.EntriesPerSec());
    MulLe(g.EntriesPerSec(), 2048, 2048);
  }

  /** How far before the wanted entry the slide asks the window to begin. */
  function Back(curStart: nat, curEnd: nat, pattern: AccessPattern): nat
    requires curStart <= curEnd
  {
    match pattern
    case Balanced => (curEnd - curStart) / 2
    case OnlyForward => 0
    case MostlyForward => (curEnd - curStart) / 4
  }

  /** Two sectors are needed: a window of one holds the entry it was loaded for if and only if the entry is
      in the first sector of the FAT or at least that far into its own. */
  lemma OneSectorWindow(g: Geo, curStart: nat, curEnd: nat, pattern: AccessPattern, i: nat)
    requires g.Valid() && i <= g.MaxFatEntry() && curStart <= curEnd < curStart + g.SecEntries(1)
    ensures g.EntriesPerSec() > 0
    ensures var s := NewStart(i, curStart, curEnd, pattern); var eps := g.EntriesPerSec();
      LoadStart(g, s) <= i <= LoadEnd(g, 1, s) <==> i < eps || i - Div(i, eps) * eps >= Back(curStart, curEnd, pattern)
  {
    hide LoadStart, LoadEnd, LoadSec, Geo.MaxFatEntry, Geo.EntriesPerSec, Geo.SecEntries, Geo.Valid, NewStart, Div;
    EntryLimit(g);
    NewStartIs(i, curStart, curEnd, pattern);
    var s, eps := NewStart(i, curStart, curEnd, pattern), g.EntriesPerSec();
    LoadBounds(g, 1, s);
    SectorStart(g, LoadSec(g, s));
    OneSectorHolds(eps, LoadSec(g, s), i, Back(curStart, curEnd, pattern), g.MaxFatEntry());
  }

  lemma OneSectorHolds(eps: nat, q: nat, i: nat, back: nat, top: int)
    requires eps > 0 && back < eps && i <= top
    requires var from := if i < back then 0 else i - back; q * eps <= from < q * eps + eps
    ensures q * eps <= i <= Min(q * eps + eps - 1, top) <==> i < eps || i - Div(i, eps) * eps >= back
  {
    hide Div;
    var from := if i < back then 0 else i - back;
    SameSector(eps, q, from, i);
    SameSector(eps, q, from, from);
    SectorOf(eps, Div(i, eps), i, i - back);
    SameSector(eps, Div(i, eps), i, from);
  }

  lemma SectorStart(g: Geo, q: nat)
    ensures g.SecEntries(q) == q * g.EntriesPerSec()
  {}

  lemma EntryLimit(g: Geo)
    requires g.Valid()
    ensures g.MaxFatEntry() < 0x4000_0000 && g.SecEntries(1) < 0x4000_0000
    ensures g.EntriesPerSec() > 0 && g.SecEntries(1) == g.EntriesPerSec()
  {
    DivLess(g.FatBytes(), g.EntryBytes());
    Rounding(g, 1);
  }

  lemma NewStartIs(i: nat, curStart: nat, curEnd: nat, pattern: AccessPattern)
    requires i < 0x4000_0000 && curStart <= curEnd < curStart + 0x4000_0000
    ensures NewStart(i, curStart, curEnd, pattern) == i - Back(curStart, curEnd, pattern)
  {
    Wrap(i - (curEnd - curStart) / 2);
    Wrap(i - (curEnd - curStart) / 4);
    Wrap(i);
  }

  /** Sector `q` holds `from`; whether it holds `i` as well. */
  lemma SameSector(eps: nat, q: nat, from: nat, i: nat)
    requires eps > 0 && q * eps <= from < q * eps + eps
    ensures q * eps <= i < q * eps + eps <==> q == Div(i, eps)
  {
    var p := Div(i, eps);
    if q < p {
      MulLe(q + 1, p, eps);
      MulSum(q, 1, eps);
    } else if p < q {
      MulLe(p + 1, q, eps);
      MulSum(p, 1, eps);
    }
  }

  lemma SectorOf(eps: nat, p: nat, i: nat, s: int)
    requires eps > 0 && p * eps <= i < p * eps + eps && s <= i && i - s < eps
    ensures var from := if s < 0 then 0 else s;
      p * eps <= from <==> i < eps || s >= p * eps
  {
    if p > 0 {
      MulLe(1, p, eps);
    }
  }

  /** struct TFat as far as the window is concerned. `image` is the abstract FAT (what the fully mapped
      build would hold in memory) and `links` its meaning, entry by entry. */
  class Fat {
    const dev: Device
    const geo: Geo
    const winSecs: nat
    const FBuf: array<byte>
    var curFatStartEntry: nat
    var curFatEndEntry: int
    var curFatPartStartSecAbs: nat
    var curFatEndSecAbs: nat
    var fatUpdated: bool
    var accessPattern: AccessPattern
    ghost var image: seq<byte>
    ghost var links: seq<Link>

    constructor (dev: Device, geo: Geo, winSecs: nat)
      requires OnDevice(dev, geo)
      requires 2 <= winSecs && geo.SecEntries(winSecs) < 0x4000_0000
      ensures Static() && !fatUpdated && image == DiskFat()
      ensures this.dev == dev && this.geo == geo && this.winSecs == winSecs && fresh(FBuf)
    {
      this.dev, this.geo, this.winSecs := dev, geo, winSecs;
      FBuf := new byte[geo.SecBytes(winSecs)];
      curFatStartEntry, curFatEndEntry, curFatPartStartSecAbs, curFatEndSecAbs := 0, 0, 0, 0;
      fatUpdated := false;
      accessPattern := Balanced;
      FatInVolume(dev, geo);
      image := FatSlice(dev, geo);
      links := TableOf(geo.kind, FatSlice(dev, geo), geo.EntryBytes(), geo.MaxFatEntry() + 1);
    }

    /** The active FAT as it stands on the device. */
    ghost function DiskFat(): seq<byte>
      requires OnDevice(dev, geo)
      reads dev
    {
      FatSlice(dev, geo)
    }

    /** Everything on the device that is not the active FAT. */
    ghost function Outside(): (seq<byte>, seq<byte>)
      requires OnDevice(dev, geo)
      reads dev
    {
      FatInVolume(dev, geo);
      (dev.bytes[..FatLo(geo)], dev.bytes[FatLo(geo) + geo.FatBytes()..])
    }

    ghost predicate Static()
      reads this, dev
    {
      && OnDevice(dev, geo)
      && 2 <= winSecs && geo.SecEntries(winSecs) < 0x4000_0000
      && FBuf.Length == geo.SecBytes(winSecs)
      && |image| == geo.FatBytes()
      && |links| == geo.MaxFatEntry() + 1
      && IsTable(geo.kind, image, geo.EntryBytes(), links)
    }

    /** The part of the FAT that FBuf was loaded from. */
    ghost predicate PartOk()
      reads this
    {
      && geo.FatStart() <= curFatPartStartSecAbs < geo.FatStart() + geo.fatSz
      && curFatEndSecAbs == geo.FatStart() + geo.fatSz - 1
    }

    /** Memory safety of the window; it survives failing transfers. */
    ghost predicate WellFormed()
      reads this, dev
    {
      && Static() && PartOk()
      && curFatStartEntry <= curFatEndEntry < curFatStartEntry + geo.SecEntries(winSecs)
      && curFatEndEntry <= geo.MaxFatEntry()
    }

    /** Sectors of FBuf that belong to the FAT; the rest of a clipped window is never written back. */
    ghost function UsedSecs(): nat
      requires PartOk()
      reads this
    {
      Min(winSecs, curFatEndSecAbs - curFatPartStartSecAbs + 1)
    }

    ghost function WindowOffset(): nat
      requires PartOk()
      reads this
    {
      geo.SecBytes(curFatPartStartSecAbs - geo.FatStart())
    }

    /** The device FAT overlaid with the window is the abstract FAT. */
    ghost predicate Backed()
      reads this, dev, FBuf
    {
      && Static() && PartOk()
      && WindowOffset() + geo.SecBytes(UsedSecs()) <= geo.FatBytes()
      && geo.SecBytes(UsedSecs()) <= FBuf.Length
      && image == Splice(DiskFat(), WindowOffset(), FBuf[..geo.SecBytes(UsedSecs())])
      && (!fatUpdated ==> DiskFat() == image)
    }

    /** The window bounds describe what FBuf holds. */
    ghost predicate Mapped()
      reads this, dev
    {
      && WellFormed()
      && curFatStartEntry == geo.SecEntries(curFatPartStartSecAbs - geo.FatStart())
      && curFatEndEntry == Min(curFatStartEntry + geo.SecEntries(winSecs) - 1, geo.MaxFatEntry())
    }

    ghost predicate Coherent()
      reads this, dev, FBuf
    {
      Mapped() && Backed()
    }

    /** fatfs_storefat */
    method StoreFat() returns (st: Status)
      requires Static() && (fatUpdated ==> PartOk())
      modifies this`fatUpdated, dev
      ensures Static() && Outside() == old(Outside())
      ensures st == Ok || st == DeviceError
      ensures st == Ok ==> !fatUpdated
      ensures st != Ok ==> fatUpdated
      ensures old(Backed()) ==> Backed()
      ensures old(!fatUpdated) ==> st == Ok && dev.bytes == old(dev.bytes) && DiskFat() == old(DiskFat())
      ensures HealthyFat() && old(PartOk()) ==> st == Ok
    {
      hide Geo.Valid, IsTable, Splice, Written, FatLo, Geo.FatStart, Geo.FatBytes, Geo.MaxFatEntry, Geo.EntriesPerSec;
      st := Ok;
      if fatUpdated {
        var nSecs := winSecs;
        if curFatPartStartSecAbs + nSecs - 1 > curFatEndSecAbs {
          nSecs := curFatEndSecAbs - curFatPartStartSecAbs + 1;
        }
        WindowPlace(geo, curFatPartStartSecAbs, nSecs);
        MulLe(nSecs, winSecs, geo.bytPerSec);
        FatInVolume(dev, geo);
        ghost var before := dev.bytes;
        ghost var disk := DiskFat();
        var ok := dev.PutSectors(curFatPartStartSecAbs, nSecs, FBuf, 0);
        StoredWindow(before, dev.bytes, FatLo(geo), geo.FatBytes(), WindowOffset(), FBuf[0..geo.SecBytes(nSecs)], ok);
        if !ok {
          return DeviceError;
        }
        fatUpdated := false;
      }
    }

    lemma LoadedIsBacked()
      requires Static() && PartOk() && !fatUpdated && DiskFat() == image
      requires 0 <= geo.SecBytes(curFatPartStartSecAbs) <= |dev.bytes| - geo.SecBytes(winSecs)
      requires FBuf[0..geo.SecBytes(winSecs)] == dev.bytes[geo.SecBytes(curFatPartStartSecAbs)..
                                                            geo.SecBytes(curFatPartStartSecAbs) + geo.SecBytes(winSecs)]
      ensures Backed()
    {
      hide IsTable, Splice, Le, Geo.Valid;
      WindowPlace(geo, curFatPartStartSecAbs, UsedSecs());
      MulLe(UsedSecs(), winSecs, geo.bytPerSec);
      FatInVolume(dev, geo);
      LoadedWindow(dev.bytes, FatLo(geo), geo.FatBytes(), WindowOffset(), geo.SecBytes(UsedSecs()),
                   FBuf[..], geo.SecBytes(winSecs));
      assert FBuf[..][0..geo.SecBytes(winSecs)] == FBuf[0..geo.SecBytes(winSecs)];
    }

    /** The first part of fatfs_loadfat: the bounds of the new window. */
    method SetBounds(startEntry: int) returns (startSec: nat)
      requires Static() && -0x8000_0000 <= startEntry <= geo.MaxFatEntry()
      modifies this`curFatStartEntry, this`curFatEndEntry
      ensures curFatStartEntry == LoadStart(geo, startEntry) && curFatEndEntry == LoadEnd(geo, winSecs, startEntry)
      ensures startSec < geo.fatSz && curFatStartEntry == geo.SecEntries(startSec)
      ensures curFatEndEntry == Min(curFatStartEntry + geo.SecEntries(winSecs) - 1, geo.MaxFatEntry())
      ensures curFatStartEntry <= curFatEndEntry < curFatStartEntry + geo.SecEntries(winSecs)
      ensures curFatEndEntry <= geo.MaxFatEntry()
    {
      hide IsTable, Splice, FatLo, FatSlice, Geo.Valid, Geo.FatBytes, Geo.SecBytes, Geo.SecEntries, Geo.EntriesPerSec,
        Geo.MaxFatEntry, Geo.FatStart, Geo.EntryBytes, Device.Off, Div;
      LoadBounds(geo, winSecs, startEntry);
      var from := if startEntry < 0 then 0 else startEntry;
      var nEntries := Div(geo.SecBytes(winSecs), geo.EntryBytes());
      startSec := Div(from * geo.EntryBytes(), geo.bytPerSec);
      var start := Div(geo.SecBytes(startSec), geo.EntryBytes());
      curFatStartEntry := start;
      curFatEndEntry := start + nEntries - 1;
      if curFatEndEntry > geo.MaxFatEntry() {
        curFatEndEntry := geo.MaxFatEntry();
      }
    }

    /** fatfs_loadfat: the bounds change first, then the old window is stored, then the new one read. */
    method LoadFat(startEntry: int) returns (st: Status)
      requires Static() && (fatUpdated ==> PartOk())
      requires -0x8000_0000 <= startEntry <= geo.MaxFatEntry()
      modifies this`curFatStartEntry, this`curFatEndEntry, this`curFatPartStartSecAbs, this`curFatEndSecAbs,
        this`fatUpdated, dev, FBuf
      ensures Static() && Outside() == old(Outside())
      ensures curFatStartEntry == LoadStart(geo, startEntry) && curFatEndEntry == LoadEnd(geo, winSecs, startEntry)
      ensures st == Ok || st == DeviceError
      ensures st == Ok || old(PartOk()) ==> WellFormed()
      ensures st == Ok && old(if fatUpdated then Backed() else DiskFat() == image) ==> Coherent() && !fatUpdated
      ensures st != Ok && old(Backed()) ==> Backed() || DiskFat() == image
      ensures HealthyFat() ==> st == Ok
    {
      hide IsTable, Splice, FatLo, FatSlice, Geo.Valid, Geo.FatBytes, Geo.SecBytes, Geo.SecEntries, Geo.EntriesPerSec,
        Geo.MaxFatEntry, Geo.FatStart, Geo.EntryBytes, Device.Off, Outside, DiskFat, LoadStart, LoadEnd, Min;
      var startSec := SetBounds(startEntry);
      st := StoreFat();
      if st != Ok {
        return;
      }
      assert old(if fatUpdated then Backed() else DiskFat() == image) ==> DiskFat() == image;
      st := ReadWindow(startSec);
    }

    /** The second half of fatfs_loadfat: reads the sectors and records where they came from. */
    method ReadWindow(startSec: nat) returns (st: Status)
      requires Static() && !fatUpdated && startSec < geo.fatSz
      modifies this`curFatPartStartSecAbs, this`curFatEndSecAbs, FBuf
      ensures st == if dev.Serves(geo.FatStart() + startSec, winSecs) then Ok else DeviceError
      ensures if st == Ok then curFatPartStartSecAbs == geo.FatStart() + startSec && PartOk()
              else unchanged(`curFatPartStartSecAbs) && unchanged(`curFatEndSecAbs)
      ensures st == Ok && DiskFat() == image ==> Backed()
    {
      hide IsTable, Splice, FatLo, FatSlice, Geo.Valid, Geo.FatBytes, Geo.SecBytes, Geo.MaxFatEntry, Geo.FatStart,
        Device.Off;
      var fatStartSec := geo.FatStart();
      SameUnit(dev, geo, winSecs);
      SameUnit(dev, geo, fatStartSec + startSec);
      var ok := dev.GetSectors(fatStartSec + startSec, winSecs, FBuf, 0);
      if !ok {
        return DeviceError;
      }
      curFatPartStartSecAbs := fatStartSec + startSec;
      curFatEndSecAbs := fatStartSec + geo.fatSz - 1;
      if DiskFat() == image {
        LoadedIsBacked();
      }
      return Ok;
    }

    /** fatfs_partlymappedfat_handle: makes sure the window holds entry `i`. */
    method MapEntry(i: nat) returns (st: Status, mapped: nat)
      requires WellFormed() && i <= geo.MaxFatEntry()
      modifies this`curFatStartEntry, this`curFatEndEntry, this`curFatPartStartSecAbs, this`curFatEndSecAbs,
        this`fatUpdated, dev, FBuf
      ensures WellFormed() && Outside() == old(Outside())
      ensures curFatStartEntry <= i <= curFatEndEntry
      ensures st == Ok || st == Failed
      ensures st == Ok ==> mapped == i - curFatStartEntry
      ensures old(curFatStartEntry <= i <= curFatEndEntry) ==>
        st == Ok && unchanged(this) && dev.bytes == old(dev.bytes) && FBuf[..] == old(FBuf[..])
      ensures !old(curFatStartEntry <= i <= curFatEndEntry) ==>
        var s := NewStart(i, old(curFatStartEntry), old(curFatEndEntry), accessPattern);
        curFatStartEntry == LoadStart(geo, s) && curFatEndEntry == LoadEnd(geo, winSecs, s)
      ensures old(Coherent()) && st == Ok ==> Coherent()
      ensures old(Coherent()) && st != Ok ==> Backed() || DiskFat() == image
      ensures HealthyFat() ==> st == Ok
    {
      hide IsTable, Splice, Le, Geo.Valid;
      if i < curFatStartEntry || i > curFatEndEntry {
        SlideCovers(geo, winSecs, curFatStartEntry, curFatEndEntry, accessPattern, i);
        var newStartEntry := NewStart(i, curFatStartEntry, curFatEndEntry, accessPattern);
        var res := LoadFat(newStartEntry);
        if res != Ok {
          return Failed, 0;
        }
      }
      return Ok, i - curFatStartEntry;
    }

    /** The bytes of entry `i` inside FBuf are its bytes in the abstract FAT. */
    lemma EntryInWindow(i: nat)
      requires Coherent() && curFatStartEntry <= i <= curFatEndEntry
      ensures var w := geo.EntryBytes(); var at := (i - curFatStartEntry) * w;
        && at + w <= geo.SecBytes(UsedSecs()) <= FBuf.Length
        && i * w == WindowOffset() + at && (i + 1) * w <= |image|
        && FBuf[at..at + w] == Chunk(image, w, i)
    {
      hide IsTable, FatSlice, FatLo, Geo.Valid, Geo.FatStart, Geo.SecEntries, Geo.SecBytes, Geo.MaxFatEntry, Splice,
        Chunk, Geo.EntryBytes, Geo.FatBytes;
      var q, used := curFatPartStartSecAbs - geo.FatStart(), UsedSecs();
      EntryUsed(geo, q, winSecs, i);
      EntryPlace(geo, q, used, i);
      var len := geo.SecBytes(used);
      EntryOfSplice(DiskFat(), WindowOffset(), FBuf[..len], geo.EntryBytes(), i,
                    (i - curFatStartEntry) * geo.EntryBytes());
      SubSlice(FBuf[..], len, (i - curFatStartEntry) * geo.EntryBytes(), geo.EntryBytes());
    }

    /** fatfs16_getfatentry and fatfs32_getfatentry; `v` is meaningful only when the result is Ok. */
    method GetEntry(i: nat) returns (st: Status, v: nat)
      requires WellFormed()
      modifies this`curFatStartEntry, this`curFatEndEntry, this`curFatPartStartSecAbs, this`curFatEndSecAbs,
        this`fatUpdated, dev, FBuf
      ensures WellFormed() && Outside() == old(Outside())
      ensures old(Coherent()) && st != Failed ==>
        Coherent() && st == StatusOf(Look(links, i)) && (st == Ok ==> v > 0 && links[i] == Next(v))
      ensures old(Coherent()) && st != Failed ==>
        if i <= geo.MaxFatEntry() then EntrySays(geo.kind, image, i, st, v) else st == Invalid
      ensures old(Coherent()) && st == Failed ==> Backed() || DiskFat() == image
      ensures HealthyFat() ==> st != Failed
    {
      hide IsTable, Splice, FatSlice, FatLo, Geo.Valid, Le, Geo.FatStart, Geo.MaxFatEntry, Pow256, LinkAt,
        Decode, Chunk, Geo.SecEntries, Geo.FatBytes, Min, EntrySays;
      v := 0;
      if i > geo.MaxFatEntry() {
        return Invalid, v;
      }
      var res, mapped := MapEntry(i);
      if res != Ok {
        return Failed, v;
      }
      MappedInBuffer(geo, winSecs, mapped);
      var w := geo.EntryBytes();
      var actual := Le(FBuf[mapped * w..mapped * w + w]);
      if Coherent() {
        EntryInWindow(i);
        TableEntry(geo.kind, image, w, links, i);
        EntryMeans(geo.kind, image, w, i);
      }
      var link := Decode(geo.kind, actual);
      if link.Next? {
        v := link.clus;
      }
      return StatusOf(link), v;
    }

    /** fatfs16_setfatentry and fatfs32_setfatentry */
    method SetEntry(i: nat, v: nat) returns (st: Status)
      requires WellFormed()
      modifies this, dev, FBuf
      ensures WellFormed() && Outside() == old(Outside()) && accessPattern == old(accessPattern)
      ensures st in {Ok, Invalid, Failed} && (st == Invalid <==> i >= |old(links)|)
      ensures st != Ok ==> image == old(image) && links == old(links)
      ensures st == Ok ==> links == old(links)[i := Decode(geo.kind, Encode(geo.kind, v))]
      ensures st == Ok ==> var w := geo.EntryBytes();
        i * w + w <= |old(image)| && image == Splice(old(image), i * w, ToLe(Encode(geo.kind, v), w))
      ensures old(Coherent()) && st != Failed ==> Coherent()
      ensures old(Coherent()) && st == Failed ==> Backed() || DiskFat() == image
      ensures HealthyFat() ==> st != Failed
    {
      hide IsTable, Splice, FatSlice, FatLo, Geo.Valid, Le, ToLe, Geo.FatStart;
      var actValue := Encode(geo.kind, v);
      if i > geo.MaxFatEntry() {
        return Invalid;
      }
      var res, mapped := MapEntry(i);
      if res != Ok {
        return Failed;
      }
      WriteEntry(i, mapped, actValue);
      return Ok;
    }

    /** Stores the raw value of entry `i` in the window, where it is entry `mapped`. */
    method WriteEntry(i: nat, mapped: nat, actValue: nat)
      requires WellFormed() && curFatStartEntry <= i <= curFatEndEntry && mapped == i - curFatStartEntry
      requires actValue < if geo.kind == Fat16 then 0x10000 else TWO32
      modifies this`fatUpdated, this`image, this`links, FBuf
      ensures WellFormed() && fatUpdated && links == old(links)[i := Decode(geo.kind, actValue)]
      ensures var w := geo.EntryBytes();
        i * w + w <= |old(image)| && image == Splice(old(image), i * w, ToLe(actValue, w))
      ensures old(Coherent()) ==> Coherent()
    {
      hide IsTable, Splice, FatSlice, FatLo, Geo.Valid, Le, ToLe, Geo.FatStart, Decode, Geo.SecBytes, Geo.SecEntries,
        Geo.MaxFatEntry, Pow256, Chunk, LinkAt, Geo.FatBytes, Min;
      MappedInBuffer(geo, winSecs, mapped);
      PowTwoAndFour();
      var w := geo.EntryBytes();
      var e := ToLe(actValue, w);
      if Coherent() {
        EntryInWindow(i);
      }
      TableUpdate(geo.kind, image, w, links, i, actValue);
      ghost var window := FBuf[..];
      ghost var coherent := Coherent();
      PutRaw(mapped * w, e);
      fatUpdated := true;
      image := Splice(image, i * w, e);
      links := links[i := Decode(geo.kind, actValue)];
      if coherent {
        WindowUpdated(window, mapped * w, e);
      }
    }

    method PutRaw(at: nat, e: seq<byte>)
      requires at + |e| <= FBuf.Length
      modifies FBuf
      ensures FBuf[..] == Splice(old(FBuf[..]), at, e)
    {
      ghost var window := FBuf[..];
      forall k | 0 <= k < |e| {
        FBuf[at + k] := e[k];
      }
      WroteEntry(window, FBuf[..], at, e);
    }

    /** Writing an entry through the window keeps the window and the abstract FAT together. */
    lemma WindowUpdated(window: seq<byte>, at: nat, e: seq<byte>)
      requires Static() && PartOk() && fatUpdated
      requires WindowOffset() + geo.SecBytes(UsedSecs()) <= geo.FatBytes() && geo.SecBytes(UsedSecs()) <= |window|
      requires at + |e| <= geo.SecBytes(UsedSecs())
      requires FBuf[..] == Splice(window, at, e)
      requires image ==
        Splice(Splice(DiskFat(), WindowOffset(), window[..geo.SecBytes(UsedSecs())]), WindowOffset() + at, e)
      ensures Backed()
    {
      hide IsTable, FatSlice, FatLo, Geo.Valid, Geo.FatStart;
      var used := geo.SecBytes(UsedSecs());
      SpliceNested(DiskFat(), WindowOffset(), window[..used], at, e);
      assert FBuf[..used] == Splice(window[..used], at, e);
    }

    /** No bad sector under the FAT or under the tail a window load reads beyond it. */
    ghost predicate HealthyFat() {
      dev.Serves(geo.FatStart(), geo.fatSz + winSecs - 1)
    }
  }

  lemma WindowPlace(g: Geo, part: nat, nSecs: nat)
    requires g.FatStart() <= part && part + nSecs <= g.FatStart() + g.fatSz
    ensures g.SecBytes(part) == FatLo(g) + g.SecBytes(part - g.FatStart())
    ensures g.SecBytes(part - g.FatStart()) + g.SecBytes(nSecs) <= g.FatBytes()
  {
    MulSum(g.FatStart(), part - g.FatStart(), g.bytPerSec);
    MulSum(part - g.FatStart(), nSecs, g.bytPerSec);
    MulLe(part - g.FatStart() + nSecs, g.fatSz, g.bytPerSec);
  }

  /** Writing the window back puts it into the FAT slice; a failed write only disturbs what the window covers. */
  lemma StoredWindow(before: seq<byte>, after: seq<byte>, lo: nat, n: nat, off: nat, win: seq<byte>, ok: bool)
    requires lo + n <= |before| && off + |win| <= n
    requires Written(before, after, lo + off, win, ok)
    ensures |after| == |before|
    ensures after[..lo] == before[..lo] && after[lo + n..] == before[lo + n..]
    ensures Splice(after[lo..lo + n], off, win) == Splice(before[lo..lo + n], off, win)
    ensures ok ==> after[lo..lo + n] == Splice(before[lo..lo + n], off, win)
  {
    hide Splice, Written;
    StoredSlices(before, after, lo, n, off, win, ok);
    SpliceSame(after[lo..lo + n], before[lo..lo + n], off, win);
  }

  lemma StoredSlices(before: seq<byte>, after: seq<byte>, lo: nat, n: nat, off: nat, win: seq<byte>, ok: bool)
    requires lo + n <= |before| && off + |win| <= n
    requires Written(before, after, lo + off, win, ok)
    ensures |after| == |before|
    ensures after[..lo] == before[..lo] && after[lo + n..] == before[lo + n..]
    ensures var a, b := after[lo..lo + n], before[lo..lo + n];
      && a[0..off] == b[0..off] && a[off + |win|..|a|] == b[off + |win|..|a|] && (ok ==> a[off..off + |win|] == win)
  {
    var at, end := lo + off, lo + off + |win|;
    SameParts(before, after, at, end, 0, lo);
    SameParts(before, after, at, end, lo + n, |before|);
    SameParts(before, after, at, end, lo, at);
    SameParts(before, after, at, end, end, lo + n);
    SliceSlice(after, lo, lo + n, 0, off);
    SliceSlice(before, lo, lo + n, 0, off);
    SliceSlice(after, lo, lo + n, off + |win|, n);
    SliceSlice(before, lo, lo + n, off + |win|, n);
    SliceSlice(after, lo, lo + n, off, off + |win|);
  }

  /** Entry `i` of a table over which a window with the entry at `at` has been laid. */
  lemma EntryOfSplice(disk: seq<byte>, off: nat, win: seq<byte>, w: nat, i: nat, at: nat)
    requires off + |win| <= |disk| && i * w == off + at && at + w <= |win| && (i + 1) * w == i * w + w
    ensures (i + 1) * w <= |Splice(disk, off, win)| && Chunk(Splice(disk, off, win), w, i) == win[at..at + w]
  {
    hide Splice;
    SpliceSlices(disk, off, win, off + at, off + at + w);
  }

  lemma SubSlice(s: seq<byte>, len: nat, at: nat, w: nat)
    requires at + w <= len <= |s|
    ensures s[..len][at..at + w] == s[at..at + w]
  {}

  lemma SpliceSame(a: seq<byte>, b: seq<byte>, off: nat, win: seq<byte>)
    requires |a| == |b| && off + |win| <= |a|
    requires a[0..off] == b[0..off] && a[off + |win|..|a|] == b[off + |win|..|a|]
    ensures Splice(a, off, win) == Splice(b, off, win)
    ensures a[off..off + |win|] == win ==> a == Splice(b, off, win)
  {
    var end := off + |win|;
    assert a[..off] == a[0..off] && b[..off] == b[0..off];
    assert a[end..] == a[end..|a|] && b[end..] == b[end..|b|];
    assert Splice(a, off, win) == a[..off] + win + a[end..] && Splice(b, off, win) == b[..off] + win + b[end..];
    assert a == a[..off] + a[off..end] + a[end..];
  }

  /** A window freshly read from the device agrees with the FAT it was read from. */
  lemma LoadedWindow(bytes: seq<byte>, lo: nat, n: nat, off: nat, len: nat, buf: seq<byte>, full: nat)
    requires lo + n <= |bytes| && off + len <= n && len <= full <= |buf| && lo + off + full <= |bytes|
    requires buf[0..full] == bytes[lo + off..lo + off + full]
    ensures Splice(bytes[lo..lo + n], off, buf[..len]) == bytes[lo..lo + n]
  {
    SliceSlice(bytes, lo, lo + n, off, off + len);
    SliceSlice(bytes, lo + off, lo + off + full, 0, len);
    assert buf[..len] == buf[0..full][0..len];
    SpliceOwnSlice(bytes[lo..lo + n], off, len);
  }

  /** The volume described by `g` lies on the device. */
  ghost predicate OnDevice(dev: Device, g: Geo)
    reads dev
  {
    dev.Valid() && dev.secSize == g.bytPerSec && g.Valid() && g.baseSec + g.totSec <= dev.totSecs
  }

  lemma SameUnit(dev: Device, g: Geo, n: nat)
    requires dev.secSize == g.bytPerSec
    ensures dev.Off(n) == g.SecBytes(n)
  {}

  /** Where entry `i` lies when the window starts `q` sectors into the FAT and holds `used` sectors. */
  lemma EntryPlace(g: Geo, q: nat, used: nat, i: nat)
    requires g.Valid() && g.SecEntries(q) <= i < g.SecEntries(q) + g.SecEntries(used)
    ensures var w := g.EntryBytes(); var at := (i - g.SecEntries(q)) * w;
      && i * w == g.SecBytes(q) + at && at + w <= g.SecBytes(used) && (i + 1) * w == i * w + w
  {
    var w := g.EntryBytes();
    var d := i - g.SecEntries(q);
    Rounding(g, q);
    Rounding(g, used);
    MulSum(g.SecEntries(q), d, w);
    MulSum(i, 1, w);
    MulSum(d, 1, w);
    MulLe(d + 1, g.SecEntries(used), w);
  }

  /** The entries the bounds promise are in the sectors that belong to the FAT. */
  lemma EntryUsed(g: Geo, q: nat, winSecs: nat, i: nat)
    requires g.Valid() && q < g.fatSz
    requires i < g.SecEntries(q) + g.SecEntries(winSecs) && i <= g.MaxFatEntry()
    ensures i < g.SecEntries(q) + g.SecEntries(Min(winSecs, g.fatSz - q))
  {
    Rounding(g, g.fatSz);
    MulSum(q, g.fatSz - q, g.EntriesPerSec());
  }

  lemma MappedInBuffer(g: Geo, winSecs: nat, mapped: nat)
    requires g.Valid() && mapped < g.SecEntries(winSecs)
    ensures mapped * g.EntryBytes() + g.EntryBytes() <= g.SecBytes(winSecs)
  {
    EntryPlace(g, 0, winSecs, mapped);
  }

  lemma TableEntry(kind: FatKind, image: seq<byte>, w: nat, links: seq<Link>, i: nat)
    requires IsTable(kind, image, w, links) && i < |links|
    ensures (i + 1) * w <= |image| && links[i] == Decode(kind, Le(Chunk(image, w, i)))
  {
    MulLe(i + 1, |links|, w);
  }

  lemma WroteEntry(before: seq<byte>, after: seq<byte>, at: nat, e: seq<byte>)
    requires at + |e| <= |before| == |after|
    requires forall k :: 0 <= k < |before| && !(at <= k < at + |e|) ==> after[k] == before[k]
    requires forall k :: 0 <= k < |e| ==> after[at + k] == e[k]
    ensures after == Splice(before, at, e)
  {
    forall k | at <= k < at + |e|
      ensures after[k] == e[k - at]
    {
      assert after[at + (k - at)] == e[k - at];
    }
    assert after == Splice(before, at, e);
  }

  function FatLo(g: Geo): nat { g.SecBytes(g.FatStart()) }

  lemma FatInVolume(dev: Device, g: Geo)
    requires OnDevice(dev, g)
    ensures FatLo(g) + g.FatBytes() <= g.SecBytes(g.DataStart()) <= |dev.bytes|
  {
    FatBelowData(g);
    MulSum(g.FatStart(), g.fatSz, g.bytPerSec);
    MulLe(g.FatStart() + g.fatSz, g.DataStart(), g.bytPerSec);
    MulLe(g.DataStart(), dev.totSecs, g.bytPerSec);
  }

  ghost function FatSlice(dev: Device, g: Geo): (s: seq<byte>)
    requires OnDevice(dev, g)
    reads dev
    ensures |s| == g.FatBytes()
  {
    FatInVolume(dev, g);
    dev.bytes[FatLo(g)..FatLo(g) + g.FatBytes()]
  }

  ghost function TableOf(kind: FatKind, image: seq<byte>, w: nat, n: nat): (links: seq<Link>)
    requires n * w <= |image|
    ensures |links| == n && IsTable(kind, image, w, links)
  {
    seq(n, i requires 0 <= i < n => LinkAt(kind, image, w, i))
  }
}
