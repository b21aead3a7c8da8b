/** What a store means for later reads: the bytes come back, and other files do not notice. */
module WriteRead {
  import opened Bytes
  import opened Geometry
  import opened BlockDevice
  import opened FatEntries
  import opened FatWindow
  import opened Volume
  import opened Chains
  import opened FreeSpace
  import opened Allocator
  import opened Requests
  import opened FreeOps
  import opened ChainOps
  import opened Ownership
  import opened FileLoad
  import opened FileStore

  /** Buffers that agree chunk by chunk agree. */
  lemma {:induction false} ChunksAgree(a: seq<byte>, b: seq<byte>, size: nat, n: nat)
    requires n * size <= |a| && n * size <= |b|
    requires forall j :: 0 <= j < n ==> BufClus(a, size, j) == BufClus(b, size, j)
    ensures a[..n * size] == b[..n * size]
  {
    if n > 0 {
      MulSum(n - 1, 1, size);
      ChunksAgree(a, b, size, n - 1);
      assert BufClus(a, size, n - 1) == BufClus(b, size, n - 1);
      var x, y := (n - 1) * size, n * size;
      assert a[..y] == a[..x] + a[x..y] && b[..y] == b[..x] + b[x..y];
    }
  }

  /** Reading back the clusters a store wrote gives the bytes that were stored. */
  lemma RereadGivesWritten(before: seq<seq<byte>>, after: seq<seq<byte>>, written: seq<byte>, reread: seq<byte>,
                           g: Geo, wr: seq<nat>, ch: seq<nat>, n: nat)
    requires Stored(before, after, written, g.ClusSize(), wr) && Holds(reread, g.ClusSize(), after, ch, n)
    requires n <= |wr| && ch[..n] == wr[..n] && g.ClusBytes(n) <= |written| && g.ClusBytes(n) <= |reread|
    ensures reread[..g.ClusBytes(n)] == written[..g.ClusBytes(n)]
  {
    hide BufClus;
    forall j | 0 <= j < n
      ensures BufClus(reread, g.ClusSize(), j) == BufClus(written, g.ClusSize(), j)
    {
      assert ch[..n][j] == wr[..n][j];
    }
    ChunksAgree(reread, written, g.ClusSize(), n);
  }

  lemma WholeClusters(g: Geo, k: nat)
    requires g.ClusSize() > 0
    ensures ClusToRead(g, g.ClusBytes(k)) == k
  {
    var s, q := g.ClusSize(), Div(g.ClusBytes(k), g.ClusSize());
    MulSum(q, 1, s);
    if q < k {
      MulLe(q + 1, k, s);
    } else if q > k {
      MulLe(k + 1, q, s);
      MulSum(k, 1, s);
    }
  }

  /** A file is written from any of its clusters on (extending it if need be) and the range is read again
      through the run list: the same bytes come back. */
  method WriteThenRead(fat: Fat, free: FreeClusters, fInfo: FileInfo, buf: array<byte>, bytesToWrite: nat,
                       fromClus: nat, reread: array<byte>, ghost files: seq<seq<nat>>, ghost f: nat, ghost p: nat)
    returns (stored: Status, loaded: Status, k: nat)
    requires Ready(fat) && free.Valid() && buf != fat.FBuf && reread != fat.FBuf && reread != buf
    requires VolumeOk(fat.links, fat.geo.ClusLimit(), files) && f < |files|
    requires fInfo.firstClus == FirstOf(files[f]) && fromClus != ALLOC
    requires EntersAt(fInfo.firstClus, fromClus, files[f], p)
    requires CounterOk(free.freeClusters, fat.links, fat.geo.ClusLimit())
    requires PoolOk(fat.links, fat.geo.cntDataClus, free.State().runs)
    requires var n := ClusToWrite(fat.geo, bytesToWrite);
      && fat.geo.ClusBytes(n) <= buf.Length && fat.geo.ClusBytes(n) <= reread.Length
      && (n > |files[f]| - p ==>
            Served(fat.links, fat.geo.cntDataClus, free.cl.Length, CLIST_SIZE, free.State(), n - (|files[f]| - p)))
    modifies fat, fat.dev, fat.FBuf, free, free.cl, fInfo, reread
    ensures k == ClusToWrite(fat.geo, bytesToWrite)
    ensures stored == DeviceError || loaded == DeviceError ==> !DataServed(fat.dev, fat.geo)
    ensures stored != DeviceError ==>
      stored == if k < |files[f]| - p then Ok
                else EndOf(old(fat.links), fat.geo.cntDataClus, free.cl.Length, CLIST_SIZE, old(free.State()),
                           k - (|files[f]| - p))
    ensures stored == Ok && loaded != DeviceError ==>
      && loaded == (if k < |files[f]| - p then TryAgain else Ok)
      && reread[..fat.geo.ClusBytes(k)] == buf[..fat.geo.ClusBytes(k)]
      && (bytesToWrite + fat.geo.ClusSize() <= TWO32 ==>
            && bytesToWrite <= fat.geo.ClusBytes(k) < bytesToWrite + fat.geo.ClusSize()
            && reread[..bytesToWrite] == buf[..bytesToWrite])
    ensures stored == Ok && SizeFits(fat.geo, old(fInfo.newFileSize), |files[f]|)
            && old(fInfo.newFileSize) + fat.geo.ClusSize() <= TWO32 && fat.geo.ClusBytes(p + k) < TWO32 ==>
      && fInfo.newFileSize ==
           (if k < |files[f]| - p then old(fInfo.newFileSize) else fat.geo.ClusBytes(p + k))
      && (bytesToWrite + fat.geo.ClusSize() <= TWO32 ==> fat.geo.ClusBytes(p) + bytesToWrite <= fInfo.newFileSize)
    ensures stored == Ok && k >= |files[f]| - p
            && old(fInfo.newFileSize) + fat.geo.ClusSize() + fat.geo.ClusBytes(k) <= TWO32 ==>
      fInfo.newFileSize >= fat.geo.ClusBytes(k)
  {
    hide Ready, Content, OnDevice, Geo.ClusBytes, Geo.ClusSize, Stored, OnlyChanged, VolumeOk, PoolOk, CounterOk,
      WereFree, SameElsewhere, DataServed, Served, EndOf, IsChain, ClusToWrite, ClusToRead, AllServed,
      FreeClusters.State, Rounded, WrittenTo, Holds, Grown, EntersAt, StoreDone, Sum32, FirstOf, LastOf;
    k := ClusToWrite(fat.geo, bytesToWrite);
    loaded := Unknown;
    EntersBound(fInfo.firstClus, fromClus, files[f], p);
    ghost var all := SuppliedFor(fat.links, fat.geo.cntDataClus, free.cl.Length, free.State(),
                                 Beyond(k, |files[f]| - p));
    ghost var before, links, dirty, seg := Content(fat), fat.links, [], [];
    var total, last, from;
    stored, total, last, from, seg, dirty :=
      StoreFileClus(fat, free, fInfo, buf, bytesToWrite, 0, fromClus, files, f, p);
    ghost var after := Content(fat);
    if stored != DeviceError {
      StoreEnd(fat.geo, files[f], seg, p, k, false, 0, old(fInfo.newFileSize), all, free.State(), before, after,
               buf[..], stored, total, last, from, fInfo.newFileSize);
    }
    if stored == Ok {
      StoredSize(fat.geo, old(fInfo.newFileSize), |files[f]| - p, k);
      RecordedSize(fat.geo, old(fInfo.newFileSize), |files[f]|, p, k, bytesToWrite, fInfo.newFileSize);
      EntryKept(links, fat.geo.ClusLimit(), files, f, fromClus, p, seg);
      loaded := ReadBack(fat, fInfo.firstClus, fromClus, reread, k, files, f, seg, p, before, buf[..]);
      if loaded != DeviceError {
        FrontsAgree(reread[..], buf[..], fat.geo.ClusBytes(k), bytesToWrite);
      }
    }
  }

  /** Reads the first `k` clusters from cluster `p` of a file on, where `text` has been stored. */
  method ReadBack(fat: Fat, firstClus: nat, fromClus: nat, reread: array<byte>, k: nat, ghost files: seq<seq<nat>>,
                  ghost f: nat, ghost seg: seq<nat>, ghost p: nat, ghost before: seq<seq<byte>>,
                  ghost text: seq<byte>)
    returns (loaded: Status)
    requires Ready(fat) && reread != fat.FBuf && fat.geo.ClusBytes(k) <= reread.Length
    requires f < |files| && VolumeOk(fat.links, fat.geo.ClusLimit(), Grown(files, f, seg))
    requires p <= |files[f]| && p + k <= |files[f] + seg|
    requires EntersAt(firstClus, fromClus, (files[f] + seg)[p..], 0) && fat.geo.ClusBytes(k) <= |text|
    requires Stored(before, Content(fat), text, fat.geo.ClusSize(), WrittenTo(files[f], seg, p, k))
    modifies fat`curFatStartEntry, fat`curFatEndEntry, fat`curFatPartStartSecAbs, fat`curFatEndSecAbs,
      fat`fatUpdated, fat.dev, fat.FBuf, reread
    ensures Ready(fat) && Content(fat) == old(Content(fat))
    ensures loaded == DeviceError ==> !DataServed(fat.dev, fat.geo)
    ensures loaded != DeviceError ==>
      && loaded == (if p + k < |files[f] + seg| then TryAgain else Ok)
      && reread[..fat.geo.ClusBytes(k)] == text[..fat.geo.ClusBytes(k)]
  {
    hide Ready, Content, OnDevice, Geo.ClusBytes, Geo.ClusSize, VolumeOk, IsChain, ClusToRead, AllServed, Holds, Grown,
      DataServed, EntersAt, LastStart, Runs, Stored, WrittenTo;
    ghost var after := Content(fat);
    WrittenRange(files[f], seg, p, k);
    ChainAfter(fat.links, fat.geo.ClusLimit(), files, f, seg, p);
    WholeClusters(fat.geo, k);
    TailData(fat.dev, fat.geo, fat.links, files, f, seg, p);
    var total, last, from;
    loaded, total, last, from :=
      LoadFileClus(fat, firstClus, reread, fat.geo.ClusBytes(k), fromClus, (files[f] + seg)[p..]);
    if loaded != DeviceError {
      RereadGivesWritten(before, after, text, reread[..], fat.geo, WrittenTo(files[f], seg, p, k),
                         (files[f] + seg)[p..], k);
    }
  }

  /** A device that can transfer every data cluster can transfer those of a file. */
  lemma TailData(dev: Device, g: Geo, links: seq<Link>, files: seq<seq<nat>>, f: nat, seg: seq<nat>, p: nat)
    requires f < |files| && VolumeOk(links, g.ClusLimit(), Grown(files, f, seg)) && p <= |files[f]|
    ensures DataServed(dev, g) ==> AllServed(dev, g, (files[f] + seg)[p..])
  {
    hide Device.Serves, Geo.SecOfClus;
    ChainAfter(links, g.ClusLimit(), files, f, seg, p);
    ChainUsed(links, g.ClusLimit(), (files[f] + seg)[p..]);
  }

  /** The size recorded by a store that reaches the end of the chain covers what was written. */
  lemma StoredSize(g: Geo, size: nat, tail: nat, k: nat)
    requires g.ClusSize() > 0
    ensures tail <= k && size + g.ClusSize() + g.ClusBytes(k) <= TWO32 ==>
      Sum32(Rounded(g, size, tail), g.ClusBytes(k - tail)) >= g.ClusBytes(k)
  {
    hide Geo.ClusBytes, Geo.ClusSize, Rounded, Sum32;
    if tail <= k && size + g.ClusSize() + g.ClusBytes(k) <= TWO32 {
      ClusBytesPlus(g, tail, k - tail);
      RoundedIs(g, size, tail);
    }
  }

  /** The size recorded after a store from cluster `p` of a file of `n` clusters whose size fitted them: it covers
      what was written. */
  lemma RecordedSize(g: Geo, size: nat, n: nat, p: nat, k: nat, bytes: nat, newSize: nat)
    requires g.ClusSize() > 0 && p <= n
    requires newSize == if k < n - p then size else Sum32(Rounded(g, size, n - p), g.ClusBytes(k - (n - p)))
    ensures SizeFits(g, size, n) && size + g.ClusSize() <= TWO32 && g.ClusBytes(p + k) < TWO32 ==>
      && newSize == (if k < n - p then size else g.ClusBytes(p + k))
      && (bytes <= g.ClusBytes(k) ==> g.ClusBytes(p) + bytes <= newSize)
  {
    hide Geo.ClusBytes, Geo.ClusSize, Rounded, Sum32;
    if SizeFits(g, size, n) && size + g.ClusSize() <= TWO32 && g.ClusBytes(p + k) < TWO32 {
      ClusBytesPlus(g, p, k);
      if k < n - p {
        ClusBytesMono(g, p + k, n - 1);
      } else {
        SizeFollows(g, size, n, n - p, k);
      }
    }
  }

  lemma FrontsAgree(a: seq<byte>, b: seq<byte>, n: nat, m: nat)
    requires n <= |a| && n <= |b| && a[..n] == b[..n]
    ensures m <= n ==> a[..m] == b[..m]
  {
    assert m <= n ==> a[..m] == a[..n][..m] && b[..m] == b[..n][..m];
  }

  /** Reads the first `k` clusters behind a file's old chain: the entry of its last cluster (or the record, if
      the file was empty) leads to the first of them. */
  method ReadAppended(fat: Fat, firstClus: nat, lastClus: nat, reread: array<byte>, k: nat,
                      ghost files: seq<seq<nat>>, ghost f: nat, ghost seg: seq<nat>) returns (loaded: Status)
    requires Ready(fat) && reread != fat.FBuf && fat.geo.ClusBytes(k) <= reread.Length && k == |seg|
    requires f < |files| && VolumeOk(fat.links, fat.geo.ClusLimit(), Grown(files, f, seg))
    requires firstClus == FirstOf(files[f] + seg) && lastClus == LastOf(files[f])
    modifies fat`curFatStartEntry, fat`curFatEndEntry, fat`curFatPartStartSecAbs, fat`curFatEndSecAbs,
      fat`fatUpdated, fat.dev, fat.FBuf, reread
    ensures Ready(fat) && Content(fat) == old(Content(fat))
    ensures loaded == DeviceError ==> !DataServed(fat.dev, fat.geo)
    ensures loaded != DeviceError ==> loaded == Ok && Holds(reread[..], fat.geo.ClusSize(), Content(fat), seg, k)
  {
    hide Ready, Content, OnDevice, Geo.ClusBytes, Geo.ClusSize, VolumeOk, IsChain, ClusToRead, AllServed, Holds, Grown,
      LastOf, FirstOf, DataServed;
    if k == 0 {
      HoldsNone(reread[..], fat.geo, Content(fat), seg);
      return Ok;
    }
    ChainAfter(fat.links, fat.geo.ClusLimit(), files, f, seg, |files[f]|);
    FirstAppended(fat.links, fat.geo.ClusLimit(), files, f, seg);
    TailData(fat.dev, fat.geo, fat.links, files, f, seg, |files[f]|);
    WholeClusters(fat.geo, k);
    var first := firstClus;
    if lastClus != 0 {
      var st;
      st, first := GetFatEntry(fat, lastClus);
    }
    var total, last, from;
    loaded, total, last, from := LoadFileClus(fat, firstClus, reread, fat.geo.ClusBytes(k), first, seg);
  }

  /** The same for data appended behind a file's last cluster. */
  method AppendThenRead(fat: Fat, free: FreeClusters, fInfo: FileInfo, buf: array<byte>, bytesToWrite: nat,
                        lastClus: nat, reread: array<byte>, ghost files: seq<seq<nat>>, ghost f: nat)
    returns (stored: Status, loaded: Status, k: nat)
    requires Ready(fat) && free.Valid() && buf != fat.FBuf && reread != fat.FBuf && reread != buf
    requires VolumeOk(fat.links, fat.geo.ClusLimit(), files) && f < |files|
    requires fInfo.firstClus == FirstOf(files[f]) && lastClus == LastOf(files[f])
    requires CounterOk(free.freeClusters, fat.links, fat.geo.ClusLimit())
    requires PoolOk(fat.links, fat.geo.cntDataClus, free.State().runs)
    requires var n := ClusToWrite(fat.geo, bytesToWrite);
      && fat.geo.ClusBytes(n) <= buf.Length && fat.geo.ClusBytes(n) <= reread.Length
      && (n > 0 ==> Served(fat.links, fat.geo.cntDataClus, free.cl.Length, CLIST_SIZE, free.State(), n))
    modifies fat, fat.dev, fat.FBuf, free, free.cl, fInfo, reread
    ensures k == ClusToWrite(fat.geo, bytesToWrite)
    ensures stored == DeviceError || loaded == DeviceError ==> !DataServed(fat.dev, fat.geo)
    ensures stored != DeviceError ==>
      stored == EndOf(old(fat.links), fat.geo.cntDataClus, free.cl.Length, CLIST_SIZE, old(free.State()), k)
    ensures stored == Ok && loaded != DeviceError ==>
      && loaded == Ok && reread[..fat.geo.ClusBytes(k)] == buf[..fat.geo.ClusBytes(k)]
      && (bytesToWrite + fat.geo.ClusSize() <= TWO32 ==>
            && bytesToWrite <= fat.geo.ClusBytes(k) < bytesToWrite + fat.geo.ClusSize()
            && reread[..bytesToWrite] == buf[..bytesToWrite])
    ensures stored == Ok && old(fInfo.newFileSize) + fat.geo.ClusBytes(k) < TWO32 ==>
      fInfo.newFileSize == old(fInfo.newFileSize) + fat.geo.ClusBytes(k)
  {
    hide Ready, Content, OnDevice, Geo.ClusBytes, Geo.ClusSize, Stored, OnlyChanged, VolumeOk, PoolOk, CounterOk,
      WereFree, SameElsewhere, DataServed, Served, EndOf, IsChain, ClusToWrite, AllServed, FreeClusters.State, Rounded,
      WrittenTo, Holds, Grown, LastOf, FirstOf, StoreDone, Sum32;
    k := ClusToWrite(fat.geo, bytesToWrite);
    loaded := Unknown;
    ghost var before, p := Content(fat), |files[f]|;
    ghost var all := SuppliedFor(fat.links, fat.geo.cntDataClus, free.cl.Length, free.State(), k);
    ghost var seg, dirty;
    var total, last, from;
    stored, total, last, from, seg, dirty :=
      StoreFileClus(fat, free, fInfo, buf, bytesToWrite, lastClus, ALLOC, files, f, p);
    if stored == DeviceError {
      return;
    }
    StoreEnd(fat.geo, files[f], seg, p, k, true, lastClus, old(fInfo.newFileSize), all, free.State(), before,
             Content(fat), buf[..], stored, total, last, from, fInfo.newFileSize);
    if stored != Ok {
      return;
    }
    WrittenRange(files[f], seg, p, k);
    assert (files[f] + seg)[p..] == seg;
    loaded := ReadAppended(fat, fInfo.firstClus, lastClus, reread, k, files, f, seg);
    if loaded != DeviceError {
      RereadGivesWritten(before, Content(fat), buf[..], reread[..], fat.geo, WrittenTo(files[f], seg, p, k), seg, k);
      FrontsAgree(reread[..], buf[..], fat.geo.ClusBytes(k), bytesToWrite);
    }
  }

  /** What is appended lies behind the file's last cluster, but only its clusters are added to the size: the size
      covers the appended bytes if and only if the space the file leaves in its last cluster is no larger than
      the one the buffer leaves in its own. */
  lemma AppendCovers(g: Geo, size: nat, n: nat, k: nat, bytes: nat)
    requires size <= g.ClusBytes(n) && bytes <= g.ClusBytes(k) && size + g.ClusBytes(k) < TWO32
    ensures g.ClusBytes(n) + bytes <= Sum32(size, g.ClusBytes(k)) <==>
      g.ClusBytes(n) - size <= g.ClusBytes(k) - bytes
  {
    hide Geo.ClusBytes;
    U32Small(size + g.ClusBytes(k));
  }

  /** After 512 bytes have been appended to a file of 100, with clusters of 512 bytes, the file ends at 612 while
      they lie at 512 to 1023. */
  lemma AppendFallsShort(g: Geo)
    requires g.secPerClus == 1 && g.bytPerSec == 512
    ensures ClusToWrite(g, 512) == 1 && SizeFits(g, 100, 1)
    ensures Sum32(100, g.ClusBytes(1)) == 612 < g.ClusBytes(1) + 512
  {}

  /** The first cluster linked behind a chain is the one its last entry, or the record, leads to. */
  lemma FirstAppended(links: seq<Link>, lim: nat, files: seq<seq<nat>>, f: nat, seg: seq<nat>)
    requires f < |files| && VolumeOk(links, lim, Grown(files, f, seg))
    ensures (files[f] + seg)[|files[f]|..] == seg
    ensures seg != [] ==>
      && (LastOf(files[f]) == 0 <==> files[f] == [])
      && (files[f] != [] ==>
            Look(links, LastOf(files[f])) == Next(seg[0]) && EntersAt(FirstOf(files[f] + seg), seg[0], seg, 0))
      && (files[f] == [] ==> EntersAt(FirstOf(files[f] + seg), FirstOf(files[f] + seg), seg, 0))
  {
    var ch := files[f];
    assert Grown(files, f, seg)[f] == ch + seg;
    assert (ch + seg)[|ch|..] == seg && seg[0..] == seg;
    ChainUsed(links, lim, ch + seg);
    if seg != [] && ch != [] {
      ChainStep(links, lim, ch + seg, |ch| - 1);
      assert (ch + seg)[|ch| - 1] == LastOf(ch) && LastOf(ch) in ch + seg && seg[0] in ch + seg;
    } else if seg != [] {
      assert ch + seg == seg && seg[0] in ch + seg;
    }
  }

  /** The place where a chain is entered stays the same when the chain grows. */
  lemma EntryKept(links: seq<Link>, lim: nat, files: seq<seq<nat>>, f: nat, fromClus: nat, p: nat, seg: seq<nat>)
    requires VolumeOk(links, lim, files) && f < |files| && EntersAt(FirstOf(files[f]), fromClus, files[f], p)
    ensures EntersAt(FirstOf(files[f] + seg), fromClus, (files[f] + seg)[p..], 0)
  {
    var ch := files[f];
    ChainDistinct(links, lim, ch);
    ChainUsed(links, lim, ch);
    assert p < |ch| ==> ch[p..][0] == ch[p] && ch[p] in ch;
    assert ch != [] ==> ch[0] in ch;
    assert fromClus == 0 ==> p == 0;
    assert (ch + seg)[p..][0..] == (ch + seg)[p..];
    assert p < |ch| ==> (ch + seg)[p..][0] == ch[p];
  }

  lemma ChainAfter(links: seq<Link>, lim: nat, files: seq<seq<nat>>, f: nat, seg: seq<nat>, p: nat)
    requires f < |files| && VolumeOk(links, lim, Grown(files, f, seg)) && p <= |files[f]|
    ensures links != [] && links[0] == End && IsChain(links, lim, (files[f] + seg)[p..])
  {
    assert Grown(files, f, seg)[f] == files[f] + seg;
    ChainTail(links, lim, files[f] + seg, p);
  }

  lemma WrittenRange(ch: seq<nat>, seg: seq<nat>, p: nat, k: nat)
    requires p + k <= |ch + seg|
    ensures WrittenTo(ch, seg, p, k) == (ch + seg)[p..][..k] && |WrittenTo(ch, seg, p, k)| == k
  {
    assert (ch + seg)[p..][..k] == (ch + seg)[p..p + k];
  }

  /** A store leaves the clusters of every other file alone; that their chains are kept is part of the
      volume invariant StoreFileClus ensures. */
  lemma OthersUntouched(links: seq<Link>, lim: nat, files: seq<seq<nat>>, f: nat, p: nat, dirty: seq<nat>,
                        before: seq<seq<byte>>, after: seq<seq<byte>>, i: nat)
    requires VolumeOk(links, lim, files) && f < |files| && p <= |files[f]| && i < |files| && i != f
    requires lim == |before| + 2
    requires WereFree(links, lim, dirty) && OnlyChanged(before, after, files[f][p..] + dirty)
    ensures |after| == |before|
    ensures forall c :: c in files[i] ==> 2 <= c < lim && after[c - 2] == before[c - 2]
    ensures forall seg :: |Grown(files, f, seg)| == |files| && Grown(files, f, seg)[i] == files[i]
  {
    Symmetric(files, f, i);
    ChainUsed(links, lim, files[i]);
    assert forall c :: c in files[f][p..] ==> c in files[f];
    assert forall c :: c in files[i] ==> c !in files[f][p..] + dirty;
  }
}
