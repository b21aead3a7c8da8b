/** Any sequence of stores, deletions and counts on a mounted volume, seen as operations on the contents of
    its files. */
module VolumeRuns {
  import opened Bytes
  import opened Geometry
  import opened FatEntries
  import opened FatWindow
  import opened Volume
  import opened Chains
  import opened FreeSpace
  import opened FreeScan
  import opened Allocator
  import opened Requests
  import opened FreeOps
  import opened ChainOps
  import opened Ownership
  import opened FileLoad
  import opened FileStore
  import opened WriteRead

  /** Where a store begins: at cluster `p` of its file, or behind the last one. */
  datatype Place = At(p: nat) | Behind

  datatype Op = Store(f: nat, bytes: nat, place: Place) | Delete(f: nat) | Count

  /** What an operation answers: a status, or that the caller's own check refused it. */
  datatype Answer = Done(st: Status) | Refused

  /** A file as its reader sees it: the contents of its clusters, in order. */
  type Data = seq<seq<byte>>

  ghost function FileData(content: seq<seq<byte>>, ch: seq<nat>): (d: Data)
    ensures |d| == |ch|
  {
    seq(|ch|, j requires 0 <= j < |ch| => if 2 <= ch[j] < |content| + 2 then content[ch[j] - 2] else [])
  }

  ghost function FilesData(content: seq<seq<byte>>, files: seq<seq<nat>>): (v: seq<Data>)
    ensures |v| == |files|
  {
    seq(|files|, i requires 0 <= i < |files| => FileData(content, files[i]))
  }

  /** `s` written over `d` from cluster `p` on. */
  ghost function Spliced(d: Data, p: nat, s: Data): (r: Data)
    requires p <= |d|
    ensures |r| == if p + |s| <= |d| then |d| else p + |s|
  {
    d[..p] + s + (if p + |s| <= |d| then d[p + |s|..] else [])
  }

  /** The first `k` cluster-sized pieces of a buffer. */
  ghost function Pieces(buf: seq<byte>, size: nat, k: nat): (d: Data)
    ensures |d| == k
  {
    seq(k, j requires 0 <= j < k => BufClus(buf, size, j))
  }

  /** The bytes of `text`, one behind the other, are in the clusters of `d` from cluster `p` on. */
  ghost predicate TextAt(d: Data, size: nat, p: nat, text: seq<byte>)
    requires size > 0
  {
    forall i :: 0 <= i < |text| ==> ByteAt(d, size, p, i, text[i])
  }

  /** Byte `i` behind the start of cluster `p` is `b`. */
  ghost predicate ByteAt(d: Data, size: nat, p: nat, i: nat, b: byte)
    requires size > 0
  {
    var j := Div(i, size);
    var o := i - j * size;
    p + j < |d| && o < |d[p + j]| && d[p + j][o] == b
  }

  /** The cluster of a file of `n` clusters from which a store writes. */
  function Start(place: Place, n: nat): nat {
    match place
    case At(p) => p
    case Behind => n
  }

  /** What an operation does to the contents of the files, by what it answers: an answered store has written
      the whole buffer, byte for byte, over file `f` or behind it; one that failed may have spoiled that file from
      the place of the write on; a deletion empties one file. Every other file is as it was. */
  ghost predicate Effect(op: Op, answer: Answer, g: Geo, buf: seq<byte>, before: seq<Data>, after: seq<Data>) {
    match op
    case Store(f, bytes, place) =>
      if answer == Refused || f >= |before| then answer == Refused && after == before
      else
        var p := Start(place, |before[f]|);
        && g.ClusSize() > 0 && p <= |before[f]|
        && |after| == |before| && |after[f]| >= |before[f]| && after == before[f := after[f]]
        && after[f][..p] == before[f][..p]
        && answer.st in {Ok, NoMore, DeviceError}
        && (answer.st != DeviceError ==>
              && after[f] == Spliced(before[f], p, Pieces(buf, g.ClusSize(), ClusToWrite(g, bytes)))
              && (bytes + g.ClusSize() <= TWO32 ==>
                    bytes <= |buf| && TextAt(after[f], g.ClusSize(), p, buf[..bytes])))
    case Delete(f) =>
      if f < |before| then answer == Done(Ok) && after == before[f := []] else answer == Refused && after == before
    case Count => answer in {Done(Ok), Done(Failed)} && after == before
  }

  /** The records of the open files are those of the volume's files. */
  ghost predicate Records(infos: seq<FileInfo>, files: seq<seq<nat>>)
    reads infos
  {
    && |infos| == |files|
    && (forall i, j :: 0 <= i < j < |infos| ==> infos[i] != infos[j])
    && (forall i :: 0 <= i < |infos| ==> infos[i].firstClus == FirstOf(files[i]))
  }

  /** FAT, free-run cache and free counter of the volume are consistent. */
  ghost predicate Consistent(fat: Fat, free: FreeClusters, files: seq<seq<nat>>)
    reads fat, fat.dev, fat.FBuf, free, free.cl
    ensures Consistent(fat, free, files) ==> OnDevice(fat.dev, fat.geo)
  {
    && Ready(fat) && free.Valid() && VolumeOk(fat.links, fat.geo.ClusLimit(), files)
    && PoolOk(fat.links, fat.geo.cntDataClus, free.State().runs)
    && CounterOk(free.freeClusters, fat.links, fat.geo.ClusLimit())
  }

  /** The contents of the files of a volume. */
  ghost function DataOf(fat: Fat, files: seq<seq<nat>>): (v: seq<Data>)
    requires OnDevice(fat.dev, fat.geo)
    reads fat, fat.dev
    ensures |v| == |files|
  {
    FilesData(Content(fat), files)
  }

  /** The cached runs, once the cache is filled, have `k` clusters. */
  ghost predicate Stocked(links: seq<Link>, hi: nat, cap: nat, c: Cache, k: nat)
    requires cap >= 1
  {
    k > 0 ==> Fill(links, hi, cap, c).0 == Ok && Total(Fill(links, hi, cap, c).1.runs) >= k
  }

  /** The allocator serves a store of `k` clusters to its end. */
  ghost predicate Provides(links: seq<Link>, hi: nat, cap: nat, c: Cache, k: nat)
    requires cap >= 1
  {
    Served(links, hi, cap, CLIST_SIZE, c, k) && EndOf(links, hi, cap, CLIST_SIZE, c, k) == Ok
  }

  /** What an operation finds: the FAT, the free-run cache, the chains of the files and their contents. */
  datatype Shot = Shot(links: seq<Link>, cache: Cache, files: seq<seq<nat>>, data: seq<Data>)

  ghost function ShotOf(fat: Fat, free: FreeClusters, files: seq<seq<nat>>): Shot
    requires OnDevice(fat.dev, fat.geo) && free.Valid()
    reads fat, fat.dev, free, free.cl
  {
    Shot(fat.links, free.State(), files, DataOf(fat, files))
  }

  /** The clusters a store of `k` clusters has to add to a file of `n`. */
  function NewClusters(place: Place, n: nat, k: nat): nat {
    if Start(place, n) <= n then Beyond(k, n - Start(place, n)) else 0
  }

  /** When the caller's own check refuses an operation: an unknown file, a cluster the file does not have, a
      buffer of `len` bytes that is too small, or fewer cached clusters than have to be added to the file. */
  ghost predicate Refuses(op: Op, g: Geo, len: nat, cap: nat, s: Shot)
    requires cap >= 1
  {
    match op
    case Store(f, bytes, place) =>
      || f >= |s.files| || g.ClusSize() == 0 || g.ClusBytes(ClusToWrite(g, bytes)) > len
      || (place.At? && place.p >= |s.files[f]| && place.p > 0)
      || !Stocked(s.links, g.cntDataClus, cap, s.cache, NewClusters(place, |s.files[f]|, ClusToWrite(g, bytes)))
    case Delete(f) => f >= |s.files|
    case Count => false
  }

  /** What an operation answers if no transfer of data fails. */
  ghost function Reply(op: Op, g: Geo, len: nat, cap: nat, s: Shot): Answer
    requires cap >= 1
  {
    if Refuses(op, g, len, cap, s) then Refused
    else
      match op
      case Store(f, bytes, place) =>
        Done(if s.cache == Cache([], 0, 0) && ClusToWrite(g, bytes) == |s.files[f]| - Start(place, |s.files[f]|)
             then NoMore else Ok)
      case Delete(f) => Done(Ok)
      case Count => Done(if 1 <= |Runs(FreeList(s.links, 2, g.cntDataClus))| <= 8 then Ok else Failed)
  }

  /** A guard a caller can evaluate before a store of up to `k` new clusters: the cache is filled if it is
      empty, as the store would do first, and the cached runs must then have `k` clusters. */
  method CanStore(fat: Fat, free: FreeClusters, k: nat, ghost files: seq<seq<nat>>) returns (ok: bool)
    requires Consistent(fat, free, files)
    modifies fat`curFatStartEntry, fat`curFatEndEntry, fat`curFatPartStartSecAbs, fat`curFatEndSecAbs,
      fat`fatUpdated, fat`accessPattern, fat.dev, fat.FBuf, free, free.cl
    ensures Consistent(fat, free, files) && Content(fat) == old(Content(fat))
    ensures ok <==> Stocked(fat.links, fat.geo.cntDataClus, free.cl.Length, old(free.State()), k)
    ensures ok && k > 0 ==> Provides(fat.links, fat.geo.cntDataClus, free.cl.Length, free.State(), k)
    ensures k == 0 ==> free.State() == old(free.State())
  {
    hide Ready, OnDevice, Content, VolumeOk, PoolOk, CounterOk, Refill, FlagRank, Provides;
    if k == 0 {
      return true;
    }
    ghost var links, hi, cap := fat.links, fat.geo.cntDataClus, free.cl.Length;
    while free.clSize == -1
      invariant Consistent(fat, free, files) && Content(fat) == old(Content(fat))
      invariant Fill(links, hi, cap, free.State()) == Fill(links, hi, cap, old(free.State()))
      decreases free.clSize == -1, free.curMinAdjClusCnt, free.fromClus != 0
    {
      RefillPool(links, hi, cap, free.State());
      var st := free.UpdateFreeClusList(fat);
      if st == NoMore {
        return false;
      }
    }
    var total := CachedTotal(free);
    ok := total >= k;
    if ok {
      StockedProvides(links, hi, cap, free.State(), k);
    }
  }

  method CachedTotal(free: FreeClusters) returns (total: nat)
    requires free.Valid() && free.clSize != -1
    ensures total == Total(free.State().runs)
  {
    hide Total;
    ghost var rs := free.cl[free.clIndex..free.clSize];
    total := 0;
    var iCur := free.clIndex;
    BeforeEnds(rs);
    while iCur < free.clSize
      invariant free.clIndex <= iCur <= free.clSize && total == Before(rs, iCur - free.clIndex)
    {
      RunAt(rs, iCur - free.clIndex);
      total := total + free.cl[iCur].Count();
      iCur := iCur + 1;
    }
  }

  lemma StockedProvides(links: seq<Link>, hi: nat, cap: nat, c: Cache, k: nat)
    requires cap >= 1 && c.runs != [] && k > 0 && Total(c.runs) >= k && PoolOk(links, hi, c.runs)
    ensures Provides(links, hi, cap, c, k)
  {
    hide Expand, Unscanned, PoolOk, Served, EndOf;
    ExpandConcat(c.runs, Unscanned(links, hi, c));
    CoveredServed(links, hi, cap, CLIST_SIZE, c, k);
  }

  /** The clusters a file has, but no more than `k`. */
  method CountClusters(fat: Fat, firstClus: nat, k: nat, ghost ch: seq<nat>) returns (n: nat)
    requires Ready(fat) && IsChain(fat.links, fat.geo.ClusLimit(), ch) && firstClus == FirstOf(ch)
    modifies fat`curFatStartEntry, fat`curFatEndEntry, fat`curFatPartStartSecAbs, fat`curFatEndSecAbs,
      fat`fatUpdated, fat.dev, fat.FBuf
    ensures Ready(fat) && Content(fat) == old(Content(fat))
    ensures n == if k <= |ch| then k else |ch|
  {
    hide Ready, OnDevice, Content;
    var clus := firstClus;
    n := 0;
    while n < k && clus != 0
      invariant Ready(fat) && Content(fat) == old(Content(fat))
      invariant n <= |ch| && n <= k && clus == if n < |ch| then ch[n] else 0
      decreases k - n, clus
    {
      var st, next := GetFatEntry(fat, clus);
      n := n + 1;
      clus := if st == Ok then next else 0;
    }
  }

  /** The number of cluster `p` of a file, found by following its chain. */
  method Locate(fat: Fat, firstClus: nat, p: nat, ghost ch: seq<nat>) returns (found: bool, clus: nat)
    requires Ready(fat) && IsChain(fat.links, fat.geo.ClusLimit(), ch) && firstClus == FirstOf(ch)
    modifies fat`curFatStartEntry, fat`curFatEndEntry, fat`curFatPartStartSecAbs, fat`curFatEndSecAbs,
      fat`fatUpdated, fat.dev, fat.FBuf
    ensures Ready(fat) && Content(fat) == old(Content(fat))
    ensures found <==> p == 0 || p < |ch|
    ensures found ==> clus == if p < |ch| then ch[p] else 0
  {
    hide Ready, OnDevice, Content;
    clus := firstClus;
    var i := 0;
    while i < p && clus != 0
      invariant Ready(fat) && Content(fat) == old(Content(fat))
      invariant i <= p && i <= |ch| && clus == if i < |ch| then ch[i] else 0
      decreases p - i, clus
    {
      var st, next := GetFatEntry(fat, clus);
      i := i + 1;
      clus := if st == Ok then next else 0;
    }
    found := p == 0 || clus != 0;
  }

  /** Where a store enters its file, and how many of the clusters it needs the file already has. */
  method Enter(fat: Fat, firstClus: nat, k: nat, place: Place, ghost ch: seq<nat>)
    returns (found: bool, fromClus: nat, has: nat)
    requires Ready(fat) && IsChain(fat.links, fat.geo.ClusLimit(), ch) && firstClus == FirstOf(ch)
    modifies fat`curFatStartEntry, fat`curFatEndEntry, fat`curFatPartStartSecAbs, fat`curFatEndSecAbs,
      fat`fatUpdated, fat.dev, fat.FBuf
    ensures Ready(fat) && Content(fat) == old(Content(fat))
    ensures !found <==> place.At? && place.p >= |ch| && place.p > 0
    ensures found ==>
      && has <= k && k - has == NewClusters(place, |ch|, k) && Start(place, |ch|) <= |ch|
      && (if place.Behind? then fromClus == ALLOC
          else fromClus != ALLOC && EntersAt(firstClus, fromClus, ch, place.p))
  {
    hide Ready, OnDevice, Content, IsChain, FirstOf, EntersAt;
    has, fromClus := 0, ALLOC;
    if place.Behind? {
      return true, fromClus, has;
    }
    found, fromClus := Locate(fat, firstClus, place.p, ch);
    if found {
      EntersPlace(fat.links, fat.geo.ClusLimit(), ch, place.p);
      has := CountClusters(fat, fromClus, k, ch[place.p..]);
    }
  }

  lemma EntersPlace(links: seq<Link>, lim: nat, ch: seq<nat>, p: nat)
    requires IsChain(links, lim, ch) && (p == 0 || p < |ch|) && lim <= FATFS_BADCLUSTER
    ensures var clus := if p < |ch| then ch[p] else 0;
      && clus != ALLOC && clus == FirstOf(ch[p..]) && EntersAt(FirstOf(ch), clus, ch, p)
    ensures IsChain(links, lim, ch[p..]) && |ch[p..]| == |ch| - p
  {
    ChainTail(links, lim, ch, p);
    assert p < |ch| ==> ch[p..][0] == ch[p];
  }

  /** One store, unless the caller's check refuses it. */
  method DoStore(fat: Fat, free: FreeClusters, infos: seq<FileInfo>, buf: array<byte>, f: nat, bytes: nat, place: Place,
                 ghost files: seq<seq<nat>>) returns (answer: Answer, ghost after: seq<seq<nat>>)
    requires Consistent(fat, free, files) && Records(infos, files) && buf != fat.FBuf
    modifies fat, fat.dev, fat.FBuf, free, free.cl, infos
    ensures Consistent(fat, free, after) && Records(infos, after)
    ensures Effect(Store(f, bytes, place), answer, fat.geo, buf[..], old(DataOf(fat, files)), DataOf(fat, after))
    ensures answer == Done(DeviceError) ==> !DataServed(fat.dev, fat.geo)
    ensures var r := Reply(Store(f, bytes, place), fat.geo, buf.Length, free.cl.Length, old(ShotOf(fat, free, files)));
      answer == r || (answer == Done(DeviceError) && r != Refused)
  {
    hide Ready, OnDevice, Content, VolumeOk, PoolOk, CounterOk, Stocked, Provides, ClusToWrite, Geo.ClusBytes,
      Geo.ClusSize, DataServed, FirstOf, EntersAt, FreeClusters.State, IsChain, Spliced, Pieces, FilesData, NewClusters,
      Start, Beyond, Effect;
    after := files;
    ghost var op, content := Store(f, bytes, place), DataOf(fat, files);
    Untouched(op, fat.geo, buf[..], content);
    if f >= |infos| {
      return Refused, after;
    }
    var k := ClusToWrite(fat.geo, bytes);
    if fat.geo.ClusBytes(k) > buf.Length {
      return Refused, after;
    }
    ghost var ch := files[f];
    ChainOf(fat.links, fat.geo.ClusLimit(), files, f);
    var found, fromClus, has := Enter(fat, infos[f].firstClus, k, place, ch);
    if !found {
      return Refused, after;
    }
    var ok := CanStore(fat, free, k - has, files);
    if !ok {
      return Refused, after;
    }
    StartIs(place, |ch|, k);
    DataAt(Content(fat), files, f);
    assert DataOf(fat, files) == content;
    var st;
    st, after := StoreAt(fat, free, infos, buf, f, bytes, fromClus, files, Start(place, |ch|));
    answer := Done(st);
    PlaceIs(f, bytes, place, answer, fat.geo, buf[..], content, DataOf(fat, after));
  }

  /** A refusal changes nothing. */
  lemma Untouched(op: Op, g: Geo, buf: seq<byte>, d: seq<Data>)
    ensures op.Store? ==> Effect(op, Refused, g, buf, d, d)
  {}

  /** A store behind the last cluster is one from the cluster with that number on. */
  lemma PlaceIs(f: nat, bytes: nat, place: Place, answer: Answer, g: Geo, buf: seq<byte>, before: seq<Data>,
                after: seq<Data>)
    requires f < |before|
    ensures Effect(Store(f, bytes, At(Start(place, |before[f]|))), answer, g, buf, before, after)
      <==> Effect(Store(f, bytes, place), answer, g, buf, before, after)
  {
    hide Pieces, Spliced, ClusToWrite;
  }

  /** A store from cluster `p` of file `f` on, for which the allocator provides what it needs. */
  method StoreAt(fat: Fat, free: FreeClusters, infos: seq<FileInfo>, buf: array<byte>, f: nat, bytes: nat,
                 fromClus: nat, ghost files: seq<seq<nat>>, ghost p: nat)
    returns (st: Status, ghost after: seq<seq<nat>>)
    requires Consistent(fat, free, files) && Records(infos, files) && buf != fat.FBuf
    requires f < |files| && p <= |files[f]| && fat.geo.ClusSize() > 0
    requires fat.geo.ClusBytes(ClusToWrite(fat.geo, bytes)) <= buf.Length
    requires if fromClus == ALLOC then p == |files[f]| else EntersAt(infos[f].firstClus, fromClus, files[f], p)
    requires var n := Beyond(ClusToWrite(fat.geo, bytes), |files[f]| - p);
      n > 0 ==> Provides(fat.links, fat.geo.cntDataClus, free.cl.Length, free.State(), n)
    modifies fat, fat.dev, fat.FBuf, free, free.cl, infos
    ensures Consistent(fat, free, after) && Records(infos, after)
    ensures Effect(Store(f, bytes, At(p)), Done(st), fat.geo, buf[..], old(DataOf(fat, files)), DataOf(fat, after))
    ensures st == DeviceError ==> !DataServed(fat.dev, fat.geo)
    ensures st != DeviceError ==>
      st == if old(free.State()) == Cache([], 0, 0) && ClusToWrite(fat.geo, bytes) == |files[f]| - p then NoMore else Ok
  {
    hide Ready, OnDevice, Content, VolumeOk, PoolOk, CounterOk, Provides, SuppliedFor, ClusToWrite, Geo.ClusBytes,
      Geo.ClusSize, Stored, WereFree, SameElsewhere, OnlyChanged, DataServed, WrittenTo, FirstOf, EntersAt,
      FreeClusters.State, IsChain, Spliced, Pieces, FilesData, Served, EndOf, StoreDone, Beyond;
    ghost var k, links, before, lim, ch := ClusToWrite(fat.geo, bytes), fat.links, Content(fat), fat.geo.ClusLimit(),
      files[f];
    ghost var size0, hi, cap, c := infos[f].newFileSize, fat.geo.cntDataClus, free.cl.Length, free.State();
    ProvidesServed(links, hi, cap, c, k, |ch| - p);
    ghost var seg, dirty;
    var n, last, from;
    st, n, last, from, seg, dirty := StoreFileClus(fat, free, infos[f], buf, bytes, 0, fromClus, files, f, p);
    after := Grown(files, f, seg);
    StoreEffect(links, lim, files, f, p, seg, dirty, before, Content(fat));
    if st != DeviceError {
      StoreWrote(fat.geo, ch, seg, p, k, fromClus == ALLOC, size0, SuppliedFor(links, hi, cap, c, Beyond(k, |ch| - p)),
                 free.State(), before, Content(fat), buf[..], st, n, last, from, infos[f].newFileSize);
      StoreWhole(fat.links, lim, files, f, p, seg, before, Content(fat), buf[..], fat.geo.ClusSize(), k);
      SplicedText(FilesData(before, files)[f], fat.geo, p, buf[..], k, bytes);
    }
  }

  /** Whole clusters of a buffer that cover its first `bytes` bytes, written from cluster `p` of a file on. */
  lemma SplicedText(d: Data, g: Geo, p: nat, buf: seq<byte>, k: nat, bytes: nat)
    requires p <= |d| && g.ClusSize() > 0 && g.ClusBytes(k) <= |buf|
    ensures bytes <= g.ClusBytes(k) ==>
      bytes <= |buf| && TextAt(Spliced(d, p, Pieces(buf, g.ClusSize(), k)), g.ClusSize(), p, buf[..bytes])
  {
    hide Spliced, Pieces, Geo.ClusSize, Geo.ClusBytes, ByteAt;
    ClusBytesIs(g, k);
    if bytes <= g.ClusBytes(k) {
      forall i | 0 <= i < bytes
        ensures ByteAt(Spliced(d, p, Pieces(buf, g.ClusSize(), k)), g.ClusSize(), p, i, buf[i])
      {
        SplicedByte(d, g.ClusSize(), p, buf, k, i);
      }
    }
  }

  lemma SplicedByte(d: Data, size: nat, p: nat, buf: seq<byte>, k: nat, i: nat)
    requires p <= |d| && size > 0 && i < k * size <= |buf|
    ensures ByteAt(Spliced(d, p, Pieces(buf, size, k)), size, p, i, buf[i])
  {
    hide Spliced, BufClus, Div;
    ByteOfPiece(buf, size, k, i);
    SplicedPiece(d, p, Pieces(buf, size, k), Div(i, size));
  }

  lemma SplicedPiece(d: Data, p: nat, s: Data, x: nat)
    requires p <= |d| && x < |s|
    ensures p + x < |Spliced(d, p, s)| && Spliced(d, p, s)[p + x] == s[x]
  {}

  lemma ByteOfPiece(buf: seq<byte>, size: nat, k: nat, i: nat)
    requires size > 0 && i < k * size <= |buf|
    ensures var j := Div(i, size); var o := i - j * size;
      && j < k && o < |BufClus(buf, size, j)| && BufClus(buf, size, j)[o] == buf[i]
  {
    hide BufClus, Div;
    var j := Div(i, size);
    MulSum(j, 1, size);
    if k <= j {
      MulLe(k, j, size);
    } else {
      MulLe(j + 1, k, size);
    }
    ChunkIs(buf, size, j, j * size);
    assert buf[j * size..j * size + size][i - j * size] == buf[i];
  }

  /** A store that has found all clusters it needs. */
  lemma StoreWrote(g: Geo, ch: seq<nat>, seg: seq<nat>, p: nat, k: nat, append: bool, size: nat, all: Supplied,
                   left: Cache, before: seq<seq<byte>>, after: seq<seq<byte>>, buf: seq<byte>, st: Status, total: nat,
                   last: nat, from: nat, newSize: nat)
    requires g.ClusSize() > 0 && p <= |ch| && (k > |ch| - p ==> all.end == Ok) && st != DeviceError
    requires StoreDone(g, ch, seg, p, k, append, 0, size, all, left, before, after, buf, st, total, last, from, newSize)
    ensures st == if k < |ch| - p then Ok else all.end
    ensures |seg| == if k > |ch| - p then k - (|ch| - p) else 0
    ensures Stored(before, after, buf, g.ClusSize(), WrittenTo(ch, seg, p, k))
  {
    hide Stored, WrittenTo, Rounded, Sum32, Geo.ClusBytes, Geo.ClusSize;
  }

  lemma StartIs(place: Place, n: nat, k: nat)
    ensures place.Behind? ==> Start(place, n) == n
    ensures place.At? ==> Start(place, n) == place.p
    ensures Start(place, n) <= n ==> NewClusters(place, n, k) == Beyond(k, n - Start(place, n))
  {}

  lemma ProvidesServed(links: seq<Link>, hi: nat, cap: nat, c: Cache, k: nat, n: nat)
    requires cap >= 1 && (k > n ==> Provides(links, hi, cap, c, Beyond(k, n))) && PoolOk(links, hi, c.runs)
    ensures k > n ==> Served(links, hi, cap, CLIST_SIZE, c, Beyond(k, n))
    ensures k >= n ==>
      SuppliedFor(links, hi, cap, c, Beyond(k, n)).end == (if k == n && c == Cache([], 0, 0) then NoMore else Ok)
  {
    hide Served, EndOf, PoolOk;
    ServedNothing(links, hi, cap, CLIST_SIZE, c);
  }

  lemma ChainOf(links: seq<Link>, lim: nat, files: seq<seq<nat>>, f: nat)
    requires VolumeOk(links, lim, files) && f < |files|
    ensures IsChain(links, lim, files[f])
  {}

  /** A file none of whose clusters changed reads as before. */
  lemma SameData(before: seq<seq<byte>>, after: seq<seq<byte>>, ch: seq<nat>)
    requires |after| == |before| && forall c :: c in ch && 2 <= c < |before| + 2 ==> after[c - 2] == before[c - 2]
    ensures FileData(after, ch) == FileData(before, ch)
  {
    assert forall j :: 0 <= j < |ch| ==> ch[j] in ch;
  }

  /** What any store leaves alone: the other files, and the file itself before the place of the write. */
  lemma StoreEffect(links: seq<Link>, lim: nat, files: seq<seq<nat>>, f: nat, p: nat, seg: seq<nat>, dirty: seq<nat>,
                    before: seq<seq<byte>>, after: seq<seq<byte>>)
    requires VolumeOk(links, lim, files) && f < |files| && p <= |files[f]| && lim == |before| + 2
    requires WereFree(links, lim, dirty) && OnlyChanged(before, after, files[f][p..] + dirty)
    ensures var d0, d1 := FilesData(before, files), FilesData(after, Grown(files, f, seg));
      && |d0[f]| == |files[f]| <= |d1[f]| && d1 == d0[f := d1[f]] && d1[f][..p] == d0[f][..p]
  {
    hide VolumeOk, WereFree, OnlyChanged, IsChain, FileData;
    var ch, grown := files[f], Grown(files, f, seg);
    forall i | 0 <= i < |files| && i != f
      ensures grown[i] == files[i] && FileData(after, grown[i]) == FileData(before, files[i])
    {
      OthersUntouched(links, lim, files, f, p, dirty, before, after, i);
      SameData(before, after, files[i]);
    }
    GrownTwice(files, f, seg, []);
    FrontUntouched(links, lim, files, f, p, dirty, before, after);
    SameData(before, after, ch[..p]);
    FrontData(before, ch, p);
    FrontData(after, ch + seg, p);
    assert (ch + seg)[..p] == ch[..p];
  }

  lemma FrontData(content: seq<seq<byte>>, ch: seq<nat>, p: nat)
    requires p <= |ch|
    ensures FileData(content, ch)[..p] == FileData(content, ch[..p])
  {}

  lemma FrontUntouched(links: seq<Link>, lim: nat, files: seq<seq<nat>>, f: nat, p: nat, dirty: seq<nat>,
                       before: seq<seq<byte>>, after: seq<seq<byte>>)
    requires VolumeOk(links, lim, files) && f < |files| && p <= |files[f]| && lim == |before| + 2
    requires WereFree(links, lim, dirty) && OnlyChanged(before, after, files[f][p..] + dirty)
    ensures |after| == |before| && forall c :: c in files[f][..p] && 2 <= c < |before| + 2 ==>
      after[c - 2] == before[c - 2]
  {
    hide IsChain;
    var ch := files[f];
    ChainUsed(links, lim, ch);
    ChainDistinct(links, lim, ch);
    forall c | c in ch[..p] && 2 <= c < |before| + 2
      ensures after[c - 2] == before[c - 2]
    {
      var i :| 0 <= i < p && ch[i] == c;
      assert c in ch;
      assert c !in ch[p..] + dirty;
    }
  }

  /** What a store that comes to its end has made of the file. */
  lemma StoreWhole(links: seq<Link>, lim: nat, files: seq<seq<nat>>, f: nat, p: nat, seg: seq<nat>,
                   before: seq<seq<byte>>, after: seq<seq<byte>>, buf: seq<byte>, size: nat, k: nat)
    requires f < |files| && p <= |files[f]| && VolumeOk(links, lim, Grown(files, f, seg)) && lim == |before| + 2
    requires |seg| == if k > |files[f]| - p then k - (|files[f]| - p) else 0
    requires Stored(before, after, buf, size, WrittenTo(files[f], seg, p, k))
    ensures FilesData(after, Grown(files, f, seg))[f] == Spliced(FilesData(before, files)[f], p, Pieces(buf, size, k))
  {
    hide VolumeOk, IsChain, Distinct, Stored, Spliced, Pieces, FileData, FilesData, Grown, WrittenTo;
    var ch := files[f] + seg;
    GrownTwice(files, f, seg, []);
    ChainOf(links, lim, Grown(files, f, seg), f);
    ChainDistinct(links, lim, ch);
    ChainUsed(links, lim, ch);
    forall j | 0 <= j < |ch|
      ensures FileData(after, ch)[j] ==
        if p <= j < p + k then Pieces(buf, size, k)[j - p] else FileData(before, files[f])[j]
    {
      assert ch[j] in ch;
      ClusterStored(before, after, buf, size, files[f], seg, p, k, j);
    }
    SplicedAt(FileData(before, files[f]), p, Pieces(buf, size, k), FileData(after, ch));
    DataAt(before, files, f);
    DataAt(after, Grown(files, f, seg), f);
  }

  /** What one cluster of the file holds after a store. */
  lemma ClusterStored(before: seq<seq<byte>>, after: seq<seq<byte>>, buf: seq<byte>, size: nat, ch: seq<nat>,
                      seg: seq<nat>, p: nat, k: nat, j: nat)
    requires p <= |ch| && |seg| == (if k > |ch| - p then k - (|ch| - p) else 0) && j < |ch + seg| && Distinct(ch + seg)
    requires Stored(before, after, buf, size, WrittenTo(ch, seg, p, k)) && 2 <= (ch + seg)[j] < |before| + 2
    ensures if p <= j < p + k then FileData(after, ch + seg)[j] == Pieces(buf, size, k)[j - p]
            else j < |ch| && FileData(after, ch + seg)[j] == FileData(before, ch)[j]
  {
    hide BufClus, Stored, Distinct;
    var wr := WrittenTo(ch, seg, p, k);
    if p <= j < p + k {
      StoredPiece(before, after, buf, size, wr, j - p);
    } else {
      NotWritten(ch, seg, p, k, j);
      StoredElsewhere(before, after, buf, size, wr, (ch + seg)[j]);
    }
  }

  lemma StoredPiece(before: seq<seq<byte>>, after: seq<seq<byte>>, buf: seq<byte>, size: nat, wr: seq<nat>, j: nat)
    requires Stored(before, after, buf, size, wr) && j < |wr|
    ensures 2 <= wr[j] < |after| + 2 && after[wr[j] - 2] == BufClus(buf, size, j)
  {}

  lemma DataAt(content: seq<seq<byte>>, files: seq<seq<nat>>, f: nat)
    requires f < |files|
    ensures FilesData(content, files)[f] == FileData(content, files[f])
  {}

  lemma SplicedAt(d: Data, p: nat, s: Data, r: Data)
    requires p <= |d| && |r| == if p + |s| <= |d| then |d| else p + |s|
    requires forall j :: 0 <= j < |r| ==> r[j] == if p <= j < p + |s| then s[j - p] else d[j]
    ensures r == Spliced(d, p, s)
  {}

  lemma NotWritten(ch: seq<nat>, seg: seq<nat>, p: nat, k: nat, j: nat)
    requires Distinct(ch + seg) && p + k <= |ch + seg| && j < |ch + seg| && !(p <= j < p + k)
    ensures (ch + seg)[j] !in WrittenTo(ch, seg, p, k)
  {}

  lemma StoredElsewhere(before: seq<seq<byte>>, after: seq<seq<byte>>, buf: seq<byte>, size: nat, wr: seq<nat>, c: nat)
    requires Stored(before, after, buf, size, wr) && 2 <= c < |before| + 2 && c !in wr
    ensures |after| == |before| && after[c - 2] == before[c - 2]
  {}

  /** Deleting a file: its clusters are freed and its record emptied. */
  method DoDelete(fat: Fat, free: FreeClusters, infos: seq<FileInfo>, f: nat, ghost buf: seq<byte>,
                  ghost files: seq<seq<nat>>)
    returns (answer: Answer, ghost after: seq<seq<nat>>)
    requires Consistent(fat, free, files) && Records(infos, files)
    modifies fat, fat.dev, fat.FBuf, free`freeClusters, free`curMinAdjClusCnt, infos
    ensures Consistent(fat, free, after) && Records(infos, after)
    ensures f < |infos| ==> infos[f].firstClus == 0 && infos[f].newFileSize == 0
    ensures Effect(Delete(f), answer, fat.geo, buf, old(DataOf(fat, files)), DataOf(fat, after))
    ensures answer == Reply(Delete(f), fat.geo, |buf|, free.cl.Length, old(ShotOf(fat, free, files)))
  {
    hide Ready, OnDevice, Content, VolumeOk, PoolOk, CounterOk, Freed, Added, IsPath, Trail, Look,
      StatusOf, FilesData, FirstOf, Effect, Reply;
    after := files;
    ghost var content := Content(fat);
    Emptied(f, fat.geo, buf, free.cl.Length, ShotOf(fat, free, files), content);
    if f >= |infos| {
      return Refused, after;
    }
    ghost var links, lim, ch := fat.links, fat.geo.ClusLimit(), files[f];
    ghost var p := if ch == [] then [0] else ch;
    FileWalk(links, lim, files, f);
    DeletedFacts(links, fat.geo.cntDataClus, lim, files, f, free.freeClusters, free.State().runs);
    var st := FreeFileFatEntries(fat, free, infos[f].firstClus, 0, p);
    infos[f].firstClus := 0;
    infos[f].newFileSize := 0;
    after := files[f := []];
    answer := Done(st);
  }

  /** What a deletion does to the contents of the files, and answers. */
  lemma Emptied(f: nat, g: Geo, buf: seq<byte>, cap: nat, s: Shot, content: seq<seq<byte>>)
    requires cap >= 1 && s.data == FilesData(content, s.files)
    ensures f >= |s.files| ==>
      Reply(Delete(f), g, |buf|, cap, s) == Refused && Effect(Delete(f), Refused, g, buf, s.data, s.data)
    ensures f < |s.files| ==>
      && Reply(Delete(f), g, |buf|, cap, s) == Done(Ok) && FirstOf([]) == 0
      && Effect(Delete(f), Done(Ok), g, buf, s.data, FilesData(content, s.files[f := []]))
  {
    if f < |s.files| {
      assert FilesData(content, s.files[f := []]) == s.data[f := []];
    }
  }

  /** The walk that deletes file `f`. */
  lemma FileWalk(links: seq<Link>, lim: nat, files: seq<seq<nat>>, f: nat)
    requires VolumeOk(links, lim, files) && f < |files|
    ensures var ch := files[f]; var p := if ch == [] then [0] else ch; var n := |p| - 1;
      && Trail(links, FirstOf(ch), p) && (ch != [] ==> FirstOf(ch) != 0)
      && StatusOf(Look(links, p[n])) == Eof && (if p[n] == 0 then p[..n] else p) == ch
      && n == if ch == [] then 0 else |ch| - 1
  {
    hide IsPath, IsChain;
    WalkOfChain(links, lim, files[f]);
    ChainUsed(links, lim, files[f]);
    WalkDistinct(links, if files[f] == [] then [0] else files[f]);
    ChainEnds(files[f]);
  }

  lemma ChainEnds(ch: seq<nat>)
    ensures ch != [] ==> FirstOf(ch) in ch && LastOf(ch) in ch && LastOf(ch) == ch[|ch| - 1]
    ensures [0][..0] == []
  {}

  lemma DeletedFacts(links: seq<Link>, hi: nat, lim: nat, files: seq<seq<nat>>, f: nat, x: nat, pool: seq<Run>)
    requires VolumeOk(links, lim, files) && f < |files| && PoolOk(links, hi, pool) && CounterOk(x, links, lim)
    requires lim < VALUE_LIMIT
    ensures var after := Freed(links, files[f]);
      && VolumeOk(after, lim, files[f := []]) && PoolOk(after, hi, pool)
      && CounterOk(Added(x, if files[f] == [] then 0 else |files[f]| - 1), after, lim)
  {
    hide CounterOk, Added, Expand;
    var ch := files[f];
    DeleteKeepsVolume(links, lim, files, f);
    ChainDistinct(links, lim, ch);
    ChainUsed(links, lim, ch);
    AddedSafe(x, links, lim, ch, if ch == [] then 0 else |ch| - 1);
  }

  method DoCount(fat: Fat, free: FreeClusters, infos: seq<FileInfo>, ghost buf: seq<byte>, ghost files: seq<seq<nat>>)
    returns (answer: Answer)
    requires Consistent(fat, free, files) && Records(infos, files)
    modifies fat`curFatStartEntry, fat`curFatEndEntry, fat`curFatPartStartSecAbs, fat`curFatEndSecAbs,
      fat`fatUpdated, fat`accessPattern, fat.dev, fat.FBuf, free`freeClusters
    ensures Consistent(fat, free, files) && Records(infos, files)
    ensures Effect(Count, answer, fat.geo, buf, old(DataOf(fat, files)), DataOf(fat, files))
    ensures answer == Reply(Count, fat.geo, |buf|, free.cl.Length, old(ShotOf(fat, free, files)))
  {
    hide Ready, OnDevice, Content, VolumeOk, PoolOk, CounterOk, FlagRank, Runs, FreeList;
    var st := free.UpdateFreeClusters(fat);
    answer := Done(st);
  }

  method Do(fat: Fat, free: FreeClusters, infos: seq<FileInfo>, buf: array<byte>, op: Op, ghost files: seq<seq<nat>>)
    returns (answer: Answer, ghost after: seq<seq<nat>>)
    requires Consistent(fat, free, files) && Records(infos, files) && buf != fat.FBuf
    modifies fat, fat.dev, fat.FBuf, free, free.cl, infos
    ensures Consistent(fat, free, after) && Records(infos, after)
    ensures Step(op, answer, fat.geo, buf[..], free.cl.Length, old(ShotOf(fat, free, files)), ShotOf(fat, free, after))
    ensures answer == Done(DeviceError) ==> !DataServed(fat.dev, fat.geo)
  {
    hide Records, DataServed, DataOf, Effect, Reply, Ready, VolumeOk, PoolOk, CounterOk;
    after := files;
    match op {
      case Store(f, bytes, place) => answer, after := DoStore(fat, free, infos, buf, f, bytes, place, files);
      case Delete(f) =>
        answer, after := DoDelete(fat, free, infos, f, buf[..], files);
        NotDevice(op, answer, fat.geo, buf[..], old(DataOf(fat, files)), DataOf(fat, after));
      case Count =>
        answer := DoCount(fat, free, infos, buf[..], files);
        NotDevice(op, answer, fat.geo, buf[..], old(DataOf(fat, files)), DataOf(fat, after));
    }
  }

  lemma NotDevice(op: Op, answer: Answer, g: Geo, buf: seq<byte>, before: seq<Data>, after: seq<Data>)
    requires Effect(op, answer, g, buf, before, after) && !op.Store?
    ensures answer != Done(DeviceError)
  {}

  /** One operation: it answers as `Reply` says, unless it is a store that a transfer of data breaks off, and
      it does to the contents of the files what its answer says. */
  ghost predicate Step(op: Op, answer: Answer, g: Geo, buf: seq<byte>, cap: nat, before: Shot, after: Shot)
    requires cap >= 1
  {
    && Effect(op, answer, g, buf, before.data, after.data)
    && (var r := Reply(op, g, |buf|, cap, before); answer == r || (answer == Done(DeviceError) && r != Refused))
  }

  /** Each operation, with a buffer of its own, takes the volume it finds to the one it leaves. */
  ghost predicate IsHistory(ops: seq<Op>, answers: seq<Answer>, g: Geo, bufs: seq<seq<byte>>, cap: nat,
                            shots: seq<Shot>)
    requires cap >= 1
  {
    && |answers| == |ops| <= |bufs| && |shots| == |ops| + 1
    && forall i :: 0 <= i < |ops| ==> Step(ops[i], answers[i], g, bufs[i], cap, shots[i], shots[i + 1])
  }

  /** The bytes of the buffers. */
  ghost function Texts(bufs: seq<array<byte>>): (t: seq<seq<byte>>)
    reads bufs
    ensures |t| == |bufs|
  {
    seq(|bufs|, i requires 0 <= i < |bufs| reads bufs => bufs[i][..])
  }

  /** Whatever the sequence, and whatever transfers of data fail on the way, the FAT stays a disjoint union
      of terminated chains, one per file and starting where its record says, plus free clusters; the cached
      runs stay free; the free counter stays a lower bound; and the volume goes through the history of the
      operations. If no transfer fails every answer is the one that operation has to give. */
  method Run(fat: Fat, free: FreeClusters, infos: seq<FileInfo>, bufs: seq<array<byte>>, ops: seq<Op>,
             ghost files0: seq<seq<nat>>)
    returns (answers: seq<Answer>, ghost files: seq<seq<nat>>, ghost shots: seq<Shot>)
    requires Consistent(fat, free, files0) && Records(infos, files0)
    requires |bufs| == |ops| && fat.FBuf !in bufs
    modifies fat, fat.dev, fat.FBuf, free, free.cl, infos
    ensures Consistent(fat, free, files) && Records(infos, files)
    ensures IsHistory(ops, answers, fat.geo, old(Texts(bufs)), free.cl.Length, shots)
    ensures shots[0] == old(ShotOf(fat, free, files0)) && shots[|ops|] == ShotOf(fat, free, files)
    ensures DataServed(fat.dev, fat.geo) ==>
      forall i :: 0 <= i < |ops| ==> answers[i] == Reply(ops[i], fat.geo, bufs[i].Length, free.cl.Length, shots[i])
  {
    hide Records, DataServed, DataOf, Step, Reply, Ready, VolumeOk, PoolOk, CounterOk, FreeClusters.State;
    ghost var texts := Texts(bufs);
    files, answers, shots := files0, [], [ShotOf(fat, free, files0)];
    var i := 0;
    while i < |ops|
      invariant 0 <= i <= |ops| && Consistent(fat, free, files) && Records(infos, files) && Texts(bufs) == texts
      invariant IsHistory(ops[..i], answers, fat.geo, texts, free.cl.Length, shots)
      invariant shots[0] == old(ShotOf(fat, free, files0)) && shots[i] == ShotOf(fat, free, files)
      invariant DataServed(fat.dev, fat.geo) ==> Done(DeviceError) !in answers
    {
      var answer;
      assert texts[i] == bufs[i][..];
      answer, files := Do(fat, free, infos, bufs[i], ops[i], files);
      HistoryStep(ops, i, answers, answer, fat.geo, texts, free.cl.Length, shots, ShotOf(fat, free, files));
      answers, shots := answers + [answer], shots + [ShotOf(fat, free, files)];
      i := i + 1;
    }
    assert ops[..|ops|] == ops;
    Answered(ops, answers, fat.geo, texts, free.cl.Length, shots);
    assert forall i :: 0 <= i < |ops| ==> |texts[i]| == bufs[i].Length;
  }

  lemma HistoryStep(ops: seq<Op>, i: nat, answers: seq<Answer>, answer: Answer, g: Geo, bufs: seq<seq<byte>>, cap: nat,
                    shots: seq<Shot>, after: Shot)
    requires cap >= 1 && i < |ops| && i < |bufs| && IsHistory(ops[..i], answers, g, bufs, cap, shots)
    requires Step(ops[i], answer, g, bufs[i], cap, shots[i], after)
    ensures IsHistory(ops[..i + 1], answers + [answer], g, bufs, cap, shots + [after])
  {
    hide Step;
  }

  /** Without a failed transfer the answers are those the operations have to give. */
  lemma Answered(ops: seq<Op>, answers: seq<Answer>, g: Geo, bufs: seq<seq<byte>>, cap: nat, shots: seq<Shot>)
    requires cap >= 1 && IsHistory(ops, answers, g, bufs, cap, shots)
    ensures Done(DeviceError) !in answers ==>
      forall i :: 0 <= i < |ops| ==> answers[i] == Reply(ops[i], g, |bufs[i]|, cap, shots[i])
    ensures forall i :: 0 <= i < |ops| ==> (answers[i] == Refused <==> Refuses(ops[i], g, |bufs[i]|, cap, shots[i]))
  {
    hide Effect, Refuses;
    forall i | 0 <= i < |ops|
      ensures answers[i] != Done(DeviceError) ==> answers[i] == Reply(ops[i], g, |bufs[i]|, cap, shots[i])
      ensures answers[i] == Refused <==> Refuses(ops[i], g, |bufs[i]|, cap, shots[i])
    {
      assert Step(ops[i], answers[i], g, bufs[i], cap, shots[i], shots[i + 1]);
    }
  }

  /** Whether an operation is about file `f`. */
  predicate Concerns(op: Op, f: nat) {
    !op.Count? && op.f == f
  }

  /** A file no operation is about reads the same all along. */
  lemma {:induction false} LeftAlone(ops: seq<Op>, answers: seq<Answer>, g: Geo, bufs: seq<seq<byte>>, cap: nat,
                                     shots: seq<Shot>, f: nat, a: nat, b: nat)
    requires cap >= 1 && IsHistory(ops, answers, g, bufs, cap, shots) && a <= b <= |ops| && f < |shots[a].data|
    requires forall i :: a <= i < b ==> !Concerns(ops[i], f)
    ensures |shots[b].data| == |shots[a].data| && shots[b].data[f] == shots[a].data[f]
    decreases b - a
  {
    hide Spliced, Pieces, ClusToWrite, Reply;
    if a < b {
      assert !Concerns(ops[a], f) && Step(ops[a], answers[a], g, bufs[a], cap, shots[a], shots[a + 1]);
      LeftAlone(ops, answers, g, bufs, cap, shots, f, a + 1, b);
    }
  }

  /** What the last store to a file wrote from its buffer is what the file holds in the end, whatever is done
      to other files in between, and with whatever data. */
  lemma LastStoreStays(ops: seq<Op>, answers: seq<Answer>, g: Geo, bufs: seq<seq<byte>>, cap: nat, shots: seq<Shot>,
                       a: nat)
    requires cap >= 1 && IsHistory(ops, answers, g, bufs, cap, shots) && a < |ops| && ops[a].Store?
    requires answers[a] in {Done(Ok), Done(NoMore)}
    requires forall i :: a < i < |ops| ==> !Concerns(ops[i], ops[a].f)
    ensures var f, d, e := ops[a].f, shots[a].data, shots[|ops|].data;
      && f < |d| && f < |e| && g.ClusSize() > 0 && Start(ops[a].place, |d[f]|) <= |d[f]|
      && e[f] == Spliced(d[f], Start(ops[a].place, |d[f]|),
                         Pieces(bufs[a], g.ClusSize(), ClusToWrite(g, ops[a].bytes)))
      && (ops[a].bytes + g.ClusSize() <= TWO32 ==>
            ops[a].bytes <= |bufs[a]|
            && TextAt(e[f], g.ClusSize(), Start(ops[a].place, |d[f]|), bufs[a][..ops[a].bytes]))
  {
    hide Spliced, Pieces, ClusToWrite, Reply, TextAt;
    assert Step(ops[a], answers[a], g, bufs[a], cap, shots[a], shots[a + 1]);
    LeftAlone(ops, answers, g, bufs, cap, shots, ops[a].f, a + 1, |ops|);
  }
}
