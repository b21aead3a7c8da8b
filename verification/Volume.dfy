/** What the file layer of fatfs.c sees of a mounted volume: the FAT as a table of links and the data
    region as a sequence of clusters. */
module Volume {
  import opened Bytes
  import opened Geometry
  import opened BlockDevice
  import opened FatEntries
  import opened FatWindow

  /** The FAT is mapped in and its sectors can be transferred; data sectors may still fail. */
  ghost predicate Ready(fat: Fat)
    reads fat, fat.dev, fat.FBuf
    ensures Ready(fat) ==>
      && OnDevice(fat.dev, fat.geo)
      && fat.geo.ClusLimit() <= |fat.links| && fat.geo.ClusLimit() <= FATFS_BADCLUSTER
      && fat.geo.ClusSize() > 0
  {
    fat.Coherent() && fat.HealthyFat()
  }

  lemma SizeBound(fat: Fat)
    requires Ready(fat)
    ensures 0 < fat.geo.ClusSize() <= 0x8000_0000
  {
    MulLe(1, fat.geo.secPerClus, fat.geo.bytPerSec);
    MulLe(fat.geo.secPerClus, 256, fat.geo.bytPerSec);
  }

  /** Cluster-sized piece `j` of a buffer. */
  function BufClus(s: seq<byte>, size: nat, j: nat): seq<byte> {
    if (j + 1) * size <= |s| then Chunk(s, size, j) else []
  }

  /** The contents of the data clusters; entry k is cluster k + 2. */
  ghost function Content(fat: Fat): (r: seq<seq<byte>>)
    requires OnDevice(fat.dev, fat.geo)
    reads fat.dev
    ensures |r| == fat.geo.cntDataClus
  {
    FatInVolume(fat.dev, fat.geo);
    ContentOf(fat.dev.bytes[fat.geo.SecBytes(fat.geo.DataStart())..], fat.geo)
  }

  ghost function ContentOf(data: seq<byte>, g: Geo): (r: seq<seq<byte>>)
    ensures |r| == g.cntDataClus
  {
    seq(g.cntDataClus, k requires 0 <= k < g.cntDataClus => BufClus(data, g.ClusSize(), k))
  }

  /** Nothing outside the active FAT changed, so the data clusters did not. */
  lemma ContentOutside(before: seq<byte>, after: seq<byte>, lo: nat, data: nat)
    requires |before| == |after| && lo <= data <= |before| && before[lo..] == after[lo..]
    ensures before[data..] == after[data..]
  {
    SliceSlice(before, lo, |before|, data - lo, |before| - lo);
    SliceSlice(after, lo, |after|, data - lo, |after| - lo);
    assert before[lo..] == before[lo..|before|] && after[lo..] == after[lo..|after|];
  }

  /** fat->getfatentry. A transfer of the FAT that fails costs neither data nor, as long as the window or the
      device holds them, FAT entries. */
  method FetchEntry(fat: Fat, i: nat) returns (st: Status, v: nat)
    requires fat.Coherent()
    modifies fat`curFatStartEntry, fat`curFatEndEntry, fat`curFatPartStartSecAbs, fat`curFatEndSecAbs,
      fat`fatUpdated, fat.dev, fat.FBuf
    ensures fat.WellFormed() && Content(fat) == old(Content(fat))
    ensures st != Failed ==>
      fat.Coherent() && st == StatusOf(Look(fat.links, i)) && (st == Ok ==> v > 0 && fat.links[i] == Next(v))
    ensures st == Failed ==> !fat.HealthyFat() && (fat.Backed() || fat.DiskFat() == fat.image)
  {
    hide IsTable, FatSlice, Geo.Valid, Geo.SecBytes, Fat.Backed, ContentOf;
    FatInVolume(fat.dev, fat.geo);
    ghost var before := fat.dev.bytes;
    st, v := fat.GetEntry(i);
    ContentOutside(before, fat.dev.bytes, FatLo(fat.geo) + fat.geo.FatBytes(), fat.geo.SecBytes(fat.geo.DataStart()));
  }

  /** fat->setfatentry, likewise: a call that fails changes no entry. */
  method StoreEntry(fat: Fat, i: nat, v: nat) returns (st: Status)
    requires fat.Coherent() && (v in {0, FATFS_EOF, FATFS_BADCLUSTER} || v < fat.geo.ClusLimit() <= FATFS_BADCLUSTER)
    modifies fat, fat.dev, fat.FBuf
    ensures fat.WellFormed() && Content(fat) == old(Content(fat)) && fat.accessPattern == old(fat.accessPattern)
    ensures st in {Ok, Invalid, Failed} && (st == Invalid <==> i >= |old(fat.links)|)
    ensures fat.links == if st == Ok then old(fat.links)[i := Meaning(v)] else old(fat.links)
    ensures st != Failed ==> fat.Coherent()
    ensures st == Failed ==> !fat.HealthyFat() && (fat.Backed() || fat.DiskFat() == fat.image)
  {
    hide IsTable, FatSlice, Geo.SecBytes, Fat.Backed, ContentOf, Encode, Decode;
    FatInVolume(fat.dev, fat.geo);
    DecodeEncode(fat.geo.kind, v);
    ghost var before := fat.dev.bytes;
    st := fat.SetEntry(i, v);
    ContentOutside(before, fat.dev.bytes, FatLo(fat.geo) + fat.geo.FatBytes(), fat.geo.SecBytes(fat.geo.DataStart()));
  }

  /** fat->getfatentry, on a volume whose FAT can be transferred */
  method GetFatEntry(fat: Fat, i: nat) returns (st: Status, v: nat)
    requires Ready(fat)
    modifies fat`curFatStartEntry, fat`curFatEndEntry, fat`curFatPartStartSecAbs, fat`curFatEndSecAbs,
      fat`fatUpdated, fat.dev, fat.FBuf
    ensures Ready(fat) && Content(fat) == old(Content(fat))
    ensures st == StatusOf(Look(fat.links, i)) && (st == Ok ==> v > 0 && fat.links[i] == Next(v))
  {
    hide Content, Fat.Backed, Fat.Mapped, Fat.WellFormed;
    st, v := FetchEntry(fat, i);
  }

  /** fat->setfatentry, likewise */
  method SetFatEntry(fat: Fat, i: nat, v: nat) returns (st: Status)
    requires Ready(fat) && (v in {0, FATFS_EOF, FATFS_BADCLUSTER} || v < fat.geo.ClusLimit())
    modifies fat, fat.dev, fat.FBuf
    ensures Ready(fat) && Content(fat) == old(Content(fat)) && fat.accessPattern == old(fat.accessPattern)
    ensures st == if i < |old(fat.links)| then Ok else Invalid
    ensures fat.links == if st == Ok then old(fat.links)[i := Meaning(v)] else old(fat.links)
  {
    hide Content, Fat.Backed, Fat.Mapped, Fat.WellFormed;
    st := StoreEntry(fat, i, v);
  }

  /** The sectors of `n` clusters from `base` on, as bytes of the device and of the data region. */
  lemma RunPlace(dev: Device, g: Geo, base: nat, n: nat)
    requires OnDevice(dev, g) && 2 <= base && base + n <= g.ClusLimit()
    ensures 0 <= g.SecOfClus(base) && g.SecOfClus(base) + n * g.secPerClus <= dev.totSecs
    ensures dev.Off(n * g.secPerClus) == g.ClusBytes(n)
    ensures dev.Off(g.SecOfClus(base)) == g.SecBytes(g.DataStart()) + g.ClusBytes(base - 2)
    ensures dev.Off(g.SecOfClus(base)) + g.ClusBytes(n) <= |dev.bytes|
    ensures FatLo(g) + g.FatBytes() <= g.SecBytes(g.DataStart()) <= |dev.bytes|
  {
    hide Geo.Valid;
    ClusterInData(g, base, n) by { RevealValid(g); }
    MulAssoc(n, g.secPerClus, g.bytPerSec);
    MulAssoc(base - 2, g.secPerClus, g.bytPerSec);
    MulSum(g.DataStart(), (base - 2) * g.secPerClus, g.bytPerSec);
    FatInVolume(dev, g);
    dev.InRange(g.SecOfClus(base), n * g.secPerClus);
  }

  lemma RevealValid(g: Geo)
    requires g.Valid()
    ensures g.Valid()
  {}

  lemma MulAssoc(a: nat, b: nat, c: nat)
    ensures a * b * c == a * (b * c) && 0 <= a * b
  {}

  /** Copying `n` whole chunks of `src` (from chunk x on) over chunks pos.. of a buffer. */
  lemma CopiedChunk(before: seq<byte>, after: seq<byte>, src: seq<byte>, size: nat, pos: nat, n: nat, x: nat, ok: bool,
                    j: nat)
    requires |before| == |after| && (pos + n) * size <= |after| && (x + n) * size <= |src|
    requires pos * size <= (pos + n) * size && x * size <= (x + n) * size
    requires after[..pos * size] == before[..pos * size] && after[(pos + n) * size..] == before[(pos + n) * size..]
    requires ok ==> after[pos * size..(pos + n) * size] == src[x * size..(x + n) * size]
    ensures !(pos <= j < pos + n) ==> BufClus(after, size, j) == BufClus(before, size, j)
    ensures ok && pos <= j < pos + n ==> BufClus(after, size, j) == BufClus(src, size, x + (j - pos))
  {
    hide BufClus;
    MulBounds(pos, x, n, j, size);
    var a, b, y := pos * size, (pos + n) * size, j * size;
    ChunkIs(after, size, j, y);
    if pos <= j < pos + n {
      if ok {
        InnerSlice(after, a, b, src, x * size, y, size);
        ChunkIs(src, size, x + (j - pos), x * size + (y - a));
      }
    } else {
      ChunkIs(before, size, j, y);
      if y + size <= |after| {
        SameParts(after, before, a, b, y, y + size);
      }
    }
  }

  lemma ChunkIs(s: seq<byte>, size: nat, j: nat, y: nat)
    requires y == j * size && y + size == (j + 1) * size
    ensures BufClus(s, size, j) == if y + size <= |s| then s[y..y + size] else []
  {}

  lemma InnerSlice(after: seq<byte>, a: nat, b: nat, src: seq<byte>, xs: nat, y: nat, size: nat)
    requires a <= y && y + size <= b <= |after| && xs + (b - a) <= |src|
    requires after[a..b] == src[xs..xs + (b - a)]
    ensures after[y..y + size] == src[xs + (y - a)..xs + (y - a) + size]
  {
    SliceSlice(after, a, b, y - a, y - a + size);
    SliceSlice(src, xs, xs + (b - a), y - a, y - a + size);
  }

  lemma CopiedChunks(before: seq<byte>, after: seq<byte>, src: seq<byte>, size: nat, pos: nat, n: nat, x: nat, ok: bool)
    requires |before| == |after| && (pos + n) * size <= |after| && (x + n) * size <= |src|
    requires pos * size <= (pos + n) * size && x * size <= (x + n) * size
    requires after[..pos * size] == before[..pos * size] && after[(pos + n) * size..] == before[(pos + n) * size..]
    requires ok ==> after[pos * size..(pos + n) * size] == src[x * size..(x + n) * size]
    ensures forall j :: 0 <= j && !(pos <= j < pos + n) ==> BufClus(after, size, j) == BufClus(before, size, j)
    ensures ok ==> forall j :: pos <= j < pos + n ==> BufClus(after, size, j) == BufClus(src, size, x + (j - pos))
  {
    hide BufClus;
    forall j: nat
      ensures !(pos <= j < pos + n) ==> BufClus(after, size, j) == BufClus(before, size, j)
      ensures ok && pos <= j < pos + n ==> BufClus(after, size, j) == BufClus(src, size, x + (j - pos))
    {
      CopiedChunk(before, after, src, size, pos, n, x, ok, j);
    }
  }

  /** bd->get_sectors on the sectors of `n` clusters from `base` on; the buffer is addressed in clusters. */
  method GetClusters(fat: Fat, base: nat, n: nat, buf: array<byte>, off: nat, ghost pos: nat) returns (st: Status)
    requires Ready(fat) && 2 <= base && base + n <= fat.geo.ClusLimit() && buf != fat.FBuf
    requires off == fat.geo.ClusBytes(pos) && fat.geo.ClusBytes(pos + n) <= buf.Length
    modifies buf
    ensures Ready(fat) && (st == Ok || st == DeviceError)
    ensures st == Ok <==> fat.dev.Serves(fat.geo.SecOfClus(base), n * fat.geo.secPerClus)
    ensures st == Ok ==> forall j :: pos <= j < pos + n ==>
      BufClus(buf[..], fat.geo.ClusSize(), j) == Content(fat)[base - 2 + (j - pos)]
    ensures forall j :: 0 <= j && !(pos <= j < pos + n) ==>
      BufClus(buf[..], fat.geo.ClusSize(), j) == BufClus(old(buf[..]), fat.geo.ClusSize(), j)
    ensures buf[fat.geo.ClusBytes(pos + n)..] == old(buf[fat.geo.ClusBytes(pos + n)..])
  {
    hide BufClus, Content, Geo.Valid, Fat.Coherent, Fat.HealthyFat, FatLo, Geo.SecOfClus, Device.Off, Device.Serves;
    RunPlace(fat.dev, fat.geo, base, n);
    MulSum(pos, n, fat.geo.ClusSize());
    ghost var before := buf[..];
    var ok := fat.dev.GetSectors(fat.geo.SecOfClus(base), n * fat.geo.secPerClus, buf, off);
    GotClusters(fat, base, n, pos, before, buf[..], ok);
    st := if ok then Ok else DeviceError;
  }

  /** What a transfer of the sectors of `n` clusters has made of a buffer. */
  lemma GotClusters(fat: Fat, base: nat, n: nat, pos: nat, before: seq<byte>, after: seq<byte>, ok: bool)
    requires OnDevice(fat.dev, fat.geo) && 2 <= base && base + n <= fat.geo.ClusLimit()
    requires |before| == |after| && fat.geo.ClusBytes(pos) + fat.geo.ClusBytes(n) <= |after|
    requires var lo, hi := fat.geo.ClusBytes(pos), fat.geo.ClusBytes(pos) + fat.geo.ClusBytes(n);
      && after[..lo] == before[..lo] && after[hi..] == before[hi..]
      && (ok ==> var at := fat.dev.Off(fat.geo.SecOfClus(base));
            && 0 <= at <= |fat.dev.bytes| - fat.geo.ClusBytes(n)
            && after[lo..hi] == fat.dev.bytes[at..at + fat.geo.ClusBytes(n)])
    ensures ok ==> forall j :: pos <= j < pos + n ==>
      BufClus(after, fat.geo.ClusSize(), j) == Content(fat)[base - 2 + (j - pos)]
    ensures forall j :: 0 <= j && !(pos <= j < pos + n) ==>
      BufClus(after, fat.geo.ClusSize(), j) == BufClus(before, fat.geo.ClusSize(), j)
  {
    hide BufClus, Geo.Valid, FatLo, Geo.SecOfClus, Device.Off;
    var size, x, bytes := fat.geo.ClusSize(), base - 2, fat.dev.bytes;
    RunPlace(fat.dev, fat.geo, base, n);
    MulSum(pos, n, size);
    MulSum(x, n, size);
    var dataOff := fat.geo.SecBytes(fat.geo.DataStart());
    TailParts(bytes, bytes, dataOff, x * size, (x + n) * size);
    CopiedChunks(before, after, bytes[dataOff..], size, pos, n, x, ok);
  }

  /** A write to whole clusters of the data region leaves the FAT coherent. */
  lemma ReadyAfterDataWrite(fat: Fat, before: seq<byte>, at: nat, data: seq<byte>, ok: bool)
    requires OnDevice(fat.dev, fat.geo)
    requires FatLo(fat.geo) + fat.geo.FatBytes() <= at && at + |data| <= |before|
    requires Written(before, fat.dev.bytes, at, data, ok)
    ensures fat.DiskFat() == before[FatLo(fat.geo)..FatLo(fat.geo) + fat.geo.FatBytes()]
  {
    SameParts(fat.dev.bytes, before, at, at + |data|, FatLo(fat.geo), FatLo(fat.geo) + fat.geo.FatBytes());
  }

  lemma DiskFatIs(fat: Fat)
    requires OnDevice(fat.dev, fat.geo)
    ensures FatLo(fat.geo) + fat.geo.FatBytes() <= |fat.dev.bytes|
    ensures fat.DiskFat() == fat.dev.bytes[FatLo(fat.geo)..FatLo(fat.geo) + fat.geo.FatBytes()]
  {
    FatInVolume(fat.dev, fat.geo);
  }

  /** bd->put_sectors into the data region leaves the FAT ready. */
  method PutData(fat: Fat, sec: int, count: int, buf: array<byte>, off: nat) returns (ok: bool)
    requires Ready(fat) && 0 <= count && off + fat.dev.Off(count) <= buf.Length
    requires FatLo(fat.geo) + fat.geo.FatBytes() <= fat.dev.Off(sec) <= |fat.dev.bytes| - fat.dev.Off(count)
    modifies fat.dev
    ensures Ready(fat) && ok == fat.dev.Serves(sec, count)
    ensures Written(old(fat.dev.bytes), fat.dev.bytes, fat.dev.Off(sec), buf[off..off + fat.dev.Off(count)], ok)
  {
    hide Geo.Valid, FatLo, Device.Off, IsTable, Geo.MaxFatEntry, Splice, FatSlice, Written, Geo.FatBytes;
    ghost var before := fat.dev.bytes;
    DiskFatIs(fat);
    ok := fat.dev.PutSectors(sec, count, buf, off);
    ReadyAfterDataWrite(fat, before, fat.dev.Off(sec), buf[off..off + fat.dev.Off(count)], ok);
  }

  /** bd->put_sectors on the sectors of `n` clusters from `base` on. Only those clusters can change; the
      FAT is untouched, so it stays ready. A failed transfer leaves them with unknown contents. */
  method PutClusters(fat: Fat, base: nat, n: nat, buf: array<byte>, off: nat, ghost pos: nat) returns (st: Status)
    requires Ready(fat) && 2 <= base && base + n <= fat.geo.ClusLimit() && buf != fat.FBuf
    requires off == fat.geo.ClusBytes(pos) && fat.geo.ClusBytes(pos + n) <= buf.Length
    modifies fat.dev
    ensures Ready(fat) && (st == Ok || st == DeviceError)
    ensures st == Ok <==> fat.dev.Serves(fat.geo.SecOfClus(base), n * fat.geo.secPerClus)
    ensures st == Ok ==> forall j :: base - 2 <= j < base - 2 + n ==>
      Content(fat)[j] == BufClus(buf[..], fat.geo.ClusSize(), pos + (j - (base - 2)))
    ensures forall j :: 0 <= j < fat.geo.cntDataClus && !(base - 2 <= j < base - 2 + n) ==>
      Content(fat)[j] == old(Content(fat))[j]
  {
    hide BufClus, Geo.Valid, FatLo, Geo.SecOfClus, Device.Off, Ready, Written;
    RunPlace(fat.dev, fat.geo, base, n);
    var size := fat.geo.ClusSize();
    MulSum(pos, n, size);
    MulSum(base - 2, n, size);
    ghost var before := fat.dev.bytes;
    var ok := PutData(fat, fat.geo.SecOfClus(base), n * fat.geo.secPerClus, buf, off);
    ghost var after := fat.dev.bytes;
    ghost var dataOff := fat.geo.SecBytes(fat.geo.DataStart());
    WrittenTail(before, after, dataOff, size, base - 2, buf[..], pos, n, ok);
    st := if ok then Ok else DeviceError;
  }

  /** The data region after a write of `n` clusters, chunk by chunk. */
  lemma WrittenTail(before: seq<byte>, after: seq<byte>, dataOff: nat, size: nat, x: nat, src: seq<byte>, pos: nat,
                    n: nat, ok: bool)
    requires dataOff + x * size + n * size <= |before| && (pos + n) * size <= |src|
    requires pos * size <= (pos + n) * size && pos * size + n * size == (pos + n) * size
    requires Written(before, after, dataOff + x * size, src[pos * size..pos * size + n * size], ok)
    ensures |after| == |before|
    ensures forall j :: 0 <= j && !(x <= j < x + n) ==>
      BufClus(after[dataOff..], size, j) == BufClus(before[dataOff..], size, j)
    ensures ok ==> forall j :: x <= j < x + n ==>
      BufClus(after[dataOff..], size, j) == BufClus(src, size, pos + (j - x))
  {
    hide BufClus;
    MulSum(x, n, size);
    TailParts(before, after, dataOff, x * size, (x + n) * size);
    CopiedChunks(before[dataOff..], after[dataOff..], src, size, x, n, pos, ok);
  }

  /** What two sequences have in common around a range, seen from an offset on. */
  lemma TailParts(before: seq<byte>, after: seq<byte>, off: nat, lo: nat, hi: nat)
    requires |before| == |after| && lo <= hi && off + hi <= |before|
    requires after[..off + lo] == before[..off + lo] && after[off + hi..] == before[off + hi..]
    ensures after[off..][..lo] == before[off..][..lo] && after[off..][hi..] == before[off..][hi..]
    ensures after[off..][lo..hi] == after[off + lo..off + hi]
  {
    assert after[off..][..lo] == after[..off + lo][off..] && before[off..][..lo] == before[..off + lo][off..];
    assert after[off..][hi..] == after[off + hi..] && before[off..][hi..] == before[off + hi..];
  }

  /** fat->accessPattern = pattern */
  method SetAccessPattern(fat: Fat, pattern: AccessPattern)
    requires Ready(fat)
    modifies fat`accessPattern
    ensures Ready(fat) && Content(fat) == old(Content(fat)) && fat.accessPattern == pattern
  {
    hide IsTable, Splice, FatSlice, Geo.Valid, Geo.SecBytes, Geo.SecEntries, Geo.MaxFatEntry, ContentOf;
    fat.accessPattern := pattern;
  }
}
