/** Volume geometry derived from the boot sector, and where each cluster lies. */
module Geometry {
  const FATFS_EOF: nat := 0x0FFF_FFF8
  const FATFS_BADCLUSTER: nat := 0x0FFF_FFF7
  const TWO32: nat := 0x1_0000_0000

  type Word32 = x: int | 0 <= x < TWO32

  datatype FatKind = Fat12 | Fat16 | Fat32

  /** The boot-sector fields the geometry is computed from, all of them unsigned. */
  datatype BootSector = BootSector(
    bytPerSec: nat, secPerClus: nat, rsvdSecCnt: nat, numFats: nat, rootEntCnt: nat,
    totSec16: nat, fatSz16: nat, totSec32: nat, fatSz32: nat, extFlags: nat)

  /** The derived record; sector numbers are relative to `baseSec` unless stated otherwise. */
  datatype Geo = Geo(
    baseSec: nat, bytPerSec: nat, secPerClus: nat, rsvdSecCnt: nat, numFats: nat, fatSz: nat,
    rootDirSecs: nat, firstDataSec: nat, totSec: nat, cntDataClus: nat, kind: FatKind, curFatNo: nat)
  {
    function EntryBytes(): (w: nat)
      ensures w == 2 || w == 4
    {
      if kind == Fat16 then 2 else 4
    }

    function EntriesPerSec(): nat { Div(bytPerSec, EntryBytes()) }

    /** Bytes in `n` sectors. */
    function SecBytes(n: nat): nat { n * bytPerSec }

    /** FAT entries in `n` sectors. */
    function SecEntries(n: nat): nat { n * EntriesPerSec() }

    function ClusSize(): nat { secPerClus * bytPerSec }

    /** Bytes in `n` clusters. */
    function ClusBytes(n: nat): nat { n * ClusSize() }

    /** Absolute sector of the active FAT copy. */
    function FatStart(): nat { baseSec + rsvdSecCnt + curFatNo * fatSz }

    function FatBytes(): nat { SecBytes(fatSz) }

    function MaxFatEntry(): int { Div(FatBytes(), EntryBytes()) - 1 }

    /** Absolute first sector of the data region. */
    function DataStart(): nat { baseSec + firstDataSec }

    /** Absolute first sector of cluster `n` (the macro fatfs_firstsecofclus plus the base sector). */
    function SecOfClus(n: nat): int { baseSec + (n - 2) * secPerClus + firstDataSec }

    /** One past the largest cluster number of the data region. */
    function ClusLimit(): nat { cntDataClus + 2 }

    ghost predicate Valid() {
      && bytPerSec in {512, 1024, 2048, 4096}
      && 1 <= secPerClus < 256
      && kind != Fat12
      && curFatNo < numFats
      && 1 <= fatSz && fatSz * bytPerSec <= 0x4000_0000
      && firstDataSec == rsvdSecCnt + numFats * fatSz + rootDirSecs
      && firstDataSec <= totSec
      && cntDataClus == Div(totSec - firstDataSec, secPerClus)
      && ClusLimit() <= MaxFatEntry() + 1
      && (kind == Fat16 ==> cntDataClus < 65525)
      && ClusLimit() <= FATFS_BADCLUSTER
    }
  }

  function Div(a: nat, d: nat): (q: nat)
    requires d > 0
    ensures q * d <= a < q * d + d
  {
    a / d
  }

  function U32(x: int): (r: nat)
    ensures r < TWO32
  {
    x % TWO32
  }

  lemma U32Small(x: int)
    requires 0 <= x < TWO32
    ensures U32(x) == x
  {}

  /** The derivation in fatfs_loadbootsector and fatfs_init, with 32-bit unsigned arithmetic. */
  function Derive(b: BootSector, baseSec: nat): Geo
    requires b.bytPerSec > 0 && b.secPerClus > 0
  {
    var rootDirSecs := Div(U32(b.rootEntCnt * 32 + (b.bytPerSec - 1)), b.bytPerSec);
    var fatSz := if b.fatSz16 != 0 then b.fatSz16 else b.fatSz32;
    var firstDataSec := U32(b.rsvdSecCnt + b.numFats * fatSz + rootDirSecs);
    var totSec := if b.totSec16 != 0 then b.totSec16 else b.totSec32;
    var cnt := Div(U32(totSec - firstDataSec), b.secPerClus);
    var kind0 := if cnt < 4085 then Fat12 else if cnt < 65525 then Fat16 else Fat32;
    var kind := if b.rootEntCnt == 0 && kind0 != Fat32 then Fat32 else kind0;
    var fatNo := if kind == Fat32 then b.extFlags % 16 else 0;
    Geo(baseSec, b.bytPerSec, b.secPerClus, b.rsvdSecCnt, b.numFats, fatSz,
        rootDirSecs, firstDataSec, totSec, cnt, kind, fatNo)
  }

  /** What the FAT specification ("FAT Data Structure", "FAT Type Determination") asks of the fields. */
  ghost predicate ValidBoot(b: BootSector) {
    var fatSz := if b.fatSz16 != 0 then b.fatSz16 else b.fatSz32;
    var totSec := if b.totSec16 != 0 then b.totSec16 else b.totSec32;
    && b.bytPerSec in {512, 1024, 2048, 4096}
    && 1 <= b.secPerClus < 256 && b.rsvdSecCnt < 0x10000 && b.rootEntCnt < 0x10000
    && 1 <= b.numFats < 256
    && 1 <= fatSz && fatSz * b.bytPerSec <= 0x4000_0000
    && totSec < TWO32
    && b.rsvdSecCnt + b.numFats * fatSz + Div(b.rootEntCnt * 32 + (b.bytPerSec - 1), b.bytPerSec) <= totSec
  }

  lemma DerivedFields(b: BootSector, baseSec: nat)
    requires ValidBoot(b)
    ensures var g := Derive(b, baseSec);
      && g.firstDataSec == g.rsvdSecCnt + g.numFats * g.fatSz + g.rootDirSecs
      && g.firstDataSec <= g.totSec
      && g.cntDataClus == Div(g.totSec - g.firstDataSec, g.secPerClus)
  {
    hide U32, Div;
    var fatSz := if b.fatSz16 != 0 then b.fatSz16 else b.fatSz32;
    var totSec := if b.totSec16 != 0 then b.totSec16 else b.totSec32;
    var root := b.rootEntCnt * 32 + (b.bytPerSec - 1);
    var first := b.rsvdSecCnt + b.numFats * fatSz + Div(root, b.bytPerSec);
    MulMono(0, b.numFats, fatSz);
    U32Small(root);
    U32Small(first);
    U32Small(totSec - first);
  }

  /** The derived record in terms of the fields: the root directory takes as few sectors as hold its entries of 32
      bytes, the data region is what is left, cut into whole clusters, and the number of clusters decides the FAT
      type, but for volumes without a fixed root directory. */
  lemma DerivedMeans(b: BootSector, baseSec: nat)
    requires ValidBoot(b)
    ensures var g := Derive(b, baseSec);
      && g.baseSec == baseSec && g.bytPerSec == b.bytPerSec && g.secPerClus == b.secPerClus
      && g.rsvdSecCnt == b.rsvdSecCnt && g.numFats == b.numFats
      && (b.fatSz16 != 0 ==> g.fatSz == b.fatSz16) && (b.fatSz16 == 0 ==> g.fatSz == b.fatSz32)
      && (b.totSec16 != 0 ==> g.totSec == b.totSec16) && (b.totSec16 == 0 ==> g.totSec == b.totSec32)
      && b.rootEntCnt * 32 <= g.rootDirSecs * b.bytPerSec < b.rootEntCnt * 32 + b.bytPerSec
      && g.firstDataSec + g.cntDataClus * g.secPerClus <= g.totSec
      && g.totSec < g.firstDataSec + g.cntDataClus * g.secPerClus + g.secPerClus
      && g.firstDataSec == b.rsvdSecCnt + b.numFats * g.fatSz + g.rootDirSecs
      && (g.kind == Fat32 <==> b.rootEntCnt == 0 || g.cntDataClus >= 65525)
      && (g.kind == Fat12 <==> b.rootEntCnt > 0 && g.cntDataClus < 4085)
      && g.curFatNo == if g.kind == Fat32 then b.extFlags % 16 else 0
  {
    hide U32, Div;
    DerivedFields(b, baseSec);
    U32Small(b.rootEntCnt * 32 + (b.bytPerSec - 1));
  }

  /** A valid boot sector yields a usable geometry exactly when the FAT type is supported, the
      active FAT number names one of the copies, and the FAT has an entry for every cluster. */
  lemma DerivedGeometry(b: BootSector, baseSec: nat)
    requires ValidBoot(b)
    ensures var g := Derive(b, baseSec);
      g.Valid() <==> g.kind != Fat12 && g.curFatNo < g.numFats
                     && g.ClusLimit() <= g.MaxFatEntry() + 1 && g.ClusLimit() <= FATFS_BADCLUSTER
  {
    DerivedFields(b, baseSec);
  }

  lemma MulMono(a: int, b: int, n: nat)
    requires a <= b
    ensures a * n <= b * n
  {}

  lemma MulAdd(a: int, b: int, n: int)
    ensures (a + b) * n == a * n + b * n
  {}

  lemma Copy(k: nat, n: nat, size: nat)
    requires k < n
    ensures 0 <= k * size && k * size + size <= n * size
  {
    MulAdd(k, 1, size);
    MulMono(k + 1, n, size);
  }

  lemma FatBelowData(g: Geo)
    requires g.curFatNo < g.numFats && g.firstDataSec == g.rsvdSecCnt + g.numFats * g.fatSz + g.rootDirSecs
    ensures g.baseSec + g.rsvdSecCnt <= g.FatStart()
    ensures g.FatStart() + g.fatSz <= g.DataStart() - g.rootDirSecs <= g.DataStart()
  {
    Copy(g.curFatNo, g.numFats, g.fatSz);
  }

  lemma ClusterInData(g: Geo, c: nat, n: nat)
    requires g.Valid() && 2 <= c && c + n <= g.ClusLimit()
    ensures g.DataStart() <= g.SecOfClus(c)
    ensures g.SecOfClus(c) + n * g.secPerClus <= g.baseSec + g.totSec
  {
    MulAdd(c - 2, n, g.secPerClus);
    MulMono(c - 2 + n, g.cntDataClus, g.secPerClus);
    MulMono(0, c - 2, g.secPerClus);
  }

  /** The clusters lie behind each other from the start of the data region on. */
  lemma ClustersInOrder(g: Geo, c: nat)
    requires g.Valid() && 2 <= c
    ensures g.SecOfClus(2) == g.DataStart()
    ensures g.SecOfClus(c + 1) == g.SecOfClus(c) + g.secPerClus
  {
    MulAdd(c - 2, 1, g.secPerClus);
  }

  ghost predicate Disjoint(s: int, n: int, t: int, m: int) {
    s + n <= t || t + m <= s
  }

  /** The reserved area, every FAT copy, the root directory and every cluster lie in disjoint sector
      ranges inside the volume, and different clusters never share a sector. */
  lemma RegionsDisjoint(g: Geo, f: nat, c: nat, d: nat)
    requires g.Valid() && f < g.numFats
    requires 2 <= c < g.ClusLimit() && 2 <= d < g.ClusLimit() && c != d
    ensures var fat := g.baseSec + g.rsvdSecCnt + f * g.fatSz;
      var root := g.baseSec + g.rsvdSecCnt + g.numFats * g.fatSz;
      && g.baseSec + g.rsvdSecCnt <= fat && fat + g.fatSz <= root && (f == g.curFatNo ==> g.FatStart() == fat)
      && root + g.rootDirSecs == g.DataStart() <= g.SecOfClus(c)
      && g.SecOfClus(c) + g.secPerClus <= g.baseSec + g.totSec
      && Disjoint(g.SecOfClus(c), g.secPerClus, g.SecOfClus(d), g.secPerClus)
      && Disjoint(fat, g.fatSz, g.SecOfClus(c), g.secPerClus)
    ensures forall e :: 0 <= e < g.numFats && e != f ==>
      Disjoint(g.baseSec + g.rsvdSecCnt + f * g.fatSz, g.fatSz, g.baseSec + g.rsvdSecCnt + e * g.fatSz, g.fatSz)
  {
    ClusterInData(g, c, 1);
    Apart(c - 2, d - 2, g.secPerClus);
    Copy(f, g.numFats, g.fatSz);
    forall e | 0 <= e < g.numFats && e != f
      ensures Disjoint(g.baseSec + g.rsvdSecCnt + f * g.fatSz, g.fatSz, g.baseSec + g.rsvdSecCnt + e * g.fatSz, g.fatSz)
    {
      Apart(f, e, g.fatSz);
    }
  }

  lemma Apart(a: nat, b: nat, n: nat)
    requires a != b
    ensures a * n + n <= b * n || b * n + n <= a * n
  {
    MulAdd(a, 1, n);
    MulAdd(b, 1, n);
    if a < b {
      MulMono(a + 1, b, n);
    } else {
      MulMono(b + 1, a, n);
    }
  }
}
