/** Writing whole clusters of a file: overwrite the chain, then extend it with free runs. */
module FileStore {
  import opened Bytes
  import opened Geometry
  import opened BlockDevice
  import opened FatEntries
  import opened FatWindow
  import opened Volume
  import opened Chains
  import opened FreeSpace
  import opened Allocator
  import opened Requests
  import opened FreeOps
  import opened ChainOps
  import opened Ownership
  import opened FileLoad

  /** Only clusters of `wr` differ. */
  ghost predicate OnlyChanged(before: seq<seq<byte>>, after: seq<seq<byte>>, wr: seq<nat>) {
    |after| == |before| && forall c :: 0 <= c < |after| && c + 2 !in wr ==> after[c] == before[c]
  }

  /** The clusters of `wr` hold the chunks of the buffer, in order, and no other cluster changed. */
  ghost predicate Stored(before: seq<seq<byte>>, after: seq<seq<byte>>, buf: seq<byte>, size: nat, wr: seq<nat>) {
    && OnlyChanged(before, after, wr)
    && forall j :: 0 <= j < |wr| ==> 2 <= wr[j] < |after| + 2 && after[wr[j] - 2] == BufClus(buf, size, j)
  }

  /** The first `n` clusters of a run. */
  function FirstClusters(r: Run, n: nat): (s: seq<nat>)
    requires n <= r.Count()
    ensures |s| == n
  {
    Clusters(r)[..n]
  }

  lemma FirstClusterIn(r: Run, n: nat, c: nat)
    requires n <= r.Count()
    ensures c in FirstClusters(r, n) <==> r.base <= c < r.base + n
  {
    if r.base <= c < r.base + n {
      assert FirstClusters(r, n)[c - r.base] == c;
    }
  }

  /** Writing `n` more chunks to new clusters extends what is stored. */
  lemma StoreMore(before: seq<seq<byte>>, mid: seq<seq<byte>>, after: seq<seq<byte>>, buf: seq<byte>, size: nat,
                  wr: seq<nat>, r: Run, n: nat, ok: bool)
    requires Stored(before, mid, buf, size, wr) && |after| == |mid| && n <= r.Count()
    requires 2 <= r.base && r.base + n <= |after| + 2
    requires forall c :: c in wr ==> !(r.base <= c < r.base + n)
    requires forall c :: 0 <= c < |after| && !(r.base - 2 <= c < r.base - 2 + n) ==> after[c] == mid[c]
    requires ok ==>
      forall c :: r.base - 2 <= c < r.base - 2 + n ==> after[c] == BufClus(buf, size, |wr| + (c - (r.base - 2)))
    ensures OnlyChanged(before, after, wr + FirstClusters(r, n))
    ensures ok ==> Stored(before, after, buf, size, wr + FirstClusters(r, n))
  {
    hide BufClus, FirstClusters;
    var all := wr + FirstClusters(r, n);
    forall c | 0 <= c < |after| && c + 2 !in all
      ensures after[c] == before[c]
    {
      FirstClusterIn(r, n, c + 2);
    }
    if ok {
      forall j | 0 <= j < |all|
        ensures 2 <= all[j] < |after| + 2 && after[all[j] - 2] == BufClus(buf, size, j)
      {
        if j < |wr| {
          assert wr[j] in wr;
        } else {
          FirstClusterAt(r, n, j - |wr|);
        }
      }
    }
  }

  lemma FirstClusterAt(r: Run, n: nat, k: nat)
    requires k < n <= r.Count()
    ensures FirstClusters(r, n)[k] == r.base + k
  {}

  /** bd->put_sectors for the first `n` clusters of a run, none of which was written before. */
  method WriteRun(fat: Fat, r: Run, n: nat, buf: array<byte>, off: nat,
                  ghost before: seq<seq<byte>>, ghost wr: seq<nat>) returns (st: Status)
    requires Ready(fat) && buf != fat.FBuf && n <= r.Count()
    requires 2 <= r.base && r.base + n <= fat.geo.ClusLimit()
    requires off == fat.geo.ClusBytes(|wr|) && fat.geo.ClusBytes(|wr| + n) <= buf.Length
    requires Stored(before, Content(fat), buf[..], fat.geo.ClusSize(), wr)
    requires forall c :: c in wr ==> !(r.base <= c < r.base + n)
    modifies fat.dev
    ensures Ready(fat) && (st == Ok || st == DeviceError)
    ensures st == Ok <==> fat.dev.Serves(fat.geo.SecOfClus(r.base), n * fat.geo.secPerClus)
    ensures OnlyChanged(before, Content(fat), wr + FirstClusters(r, n))
    ensures st == Ok ==> Stored(before, Content(fat), buf[..], fat.geo.ClusSize(), wr + FirstClusters(r, n))
  {
    hide Ready, Content, BufClus, OnDevice, Geo.ClusBytes, Geo.ClusSize, Geo.SecOfClus, Device.Serves, Stored,
      OnlyChanged;
    ghost var mid := Content(fat);
    st := PutClusters(fat, r.base, n, buf, off, |wr|);
    StoreMore(before, mid, Content(fat), buf[..], fat.geo.ClusSize(), wr, r, n, st == Ok);
  }

  lemma NextOnChain(links: seq<Link>, lim: nat, ch: seq<nat>, pos: nat, r: Run, n: nat)
    requires IsChain(links, lim, ch) && RunOnChain(ch, pos, r) && n <= r.Count()
    ensures pos + n <= |ch| && ch[..pos] + FirstClusters(r, n) == ch[..pos + n]
    ensures 2 <= r.base < lim && r.base + n <= lim
    ensures forall c :: c in ch[..pos] ==> !(r.base <= c < r.base + n)
    ensures n > 0 ==> ch[pos + n - 1] == r.base + (n - 1)
    ensures n < r.Count() ==> pos + n < |ch| && ch[pos + n] == r.base + n
  {
    RunBounds(links, lim, ch, pos, r);
    ChainDistinct(links, lim, ch);
    assert ch[pos..pos + |Clusters(r)|][..n] == ch[pos..pos + n];
    assert ch[..pos] + ch[pos..pos + n] == ch[..pos + n];
    if n > 0 {
      RunElement(ch, pos, r, n - 1);
    }
    if n < r.Count() {
      RunElement(ch, pos, r, n);
    }
    forall c | c in ch[..pos]
      ensures !(r.base <= c < r.base + n)
    {
      var i :| 0 <= i < pos && ch[i] == c;
      if r.base <= c < r.base + n {
        RunElement(ch, pos, r, c - r.base);
      }
    }
  }

  /** One round of the inner loop of the overwriting half of fatfs__storefileclus_usefileinfo. */
  method WriteStep(fat: Fat, r: Run, buf: array<byte>, off: nat, remaining: nat, fromClus: nat, lastClus: nat,
                   ghost ch: seq<nat>, ghost pos: nat, ghost before: seq<seq<byte>>)
    returns (st: Status, n: nat, allWritten: bool, left: int, from: nat, last: nat, bufOff: nat)
    requires Ready(fat) && buf != fat.FBuf && IsChain(fat.links, fat.geo.ClusLimit(), ch) && RunOnChain(ch, pos, r)
    requires off == fat.geo.ClusBytes(pos) && fat.geo.ClusBytes(pos + remaining) <= buf.Length
    requires Stored(before, Content(fat), buf[..], fat.geo.ClusSize(), ch[..pos])
    modifies fat.dev
    ensures Ready(fat) && (st == Ok || st == DeviceError) && n == Min(r.Count(), remaining) && pos + n <= |ch|
    ensures OnlyChanged(before, Content(fat), ch[..pos + n])
    ensures st == DeviceError ==> !AllServed(fat.dev, fat.geo, ch)
    ensures st == Ok ==>
      && left == remaining - r.Count() && allWritten == (left < 0)
      && Stored(before, Content(fat), buf[..], fat.geo.ClusSize(), ch[..pos + n])
      && bufOff == fat.geo.ClusBytes(pos + n)
      && (if allWritten then pos + remaining < |ch| && from == ch[pos + remaining] else from == fromClus)
      && last == (if n > 0 then ch[pos + n - 1] else lastClus)
  {
    hide Ready, Content, BufClus, OnDevice, Geo.ClusBytes, Geo.ClusSize, Stored, OnlyChanged, AllServed, IsChain,
      RunOnChain, FirstClusters, Device.Serves;
    allWritten, from, last, bufOff := false, fromClus, lastClus, off;
    left := remaining - r.Count();
    if left >= 0 {
      n := r.Count();
    } else {
      n := r.Count() + left;
      from := r.base + n;
      allWritten := true;
    }
    NextOnChain(fat.links, fat.geo.ClusLimit(), ch, pos, r, n);
    ClusBytesMono(fat.geo, pos + n, pos + remaining);
    assert |ch[..pos]| == pos;
    st := WriteRun(fat, r, n, buf, off, before, ch[..pos]);
    if st != Ok {
      NotServed(fat, ch, pos, r, n);
      return;
    }
    if n != 0 {
      last := r.base + (n - 1);
    }
    ClusBytesSum(fat.geo, pos, n);
    bufOff := off + n * fat.geo.secPerClus * fat.geo.bytPerSec;
  }

  lemma NotServed(fat: Fat, ch: seq<nat>, pos: nat, r: Run, n: nat)
    requires OnDevice(fat.dev, fat.geo) && RunOnChain(ch, pos, r) && n <= r.Count() && 2 <= r.base < fat.geo.ClusLimit()
    requires !fat.dev.Serves(fat.geo.SecOfClus(r.base), n * fat.geo.secPerClus)
    ensures !AllServed(fat.dev, fat.geo, ch)
  {
    hide OnDevice, RunOnChain, Device.Serves, Geo.SecOfClus;
    if AllServed(fat.dev, fat.geo, ch) {
      forall c | r.base <= c < r.base + n
        ensures fat.dev.Serves(fat.geo.SecOfClus(c), fat.geo.secPerClus)
      {
        RunElement(ch, pos, r, c - r.base);
      }
      StartServed(fat.dev, fat.geo, r.base);
      RunServed(fat.dev, fat.geo, r.base, n);
    }
  }

  /** The inner loop of the overwriting half. */
  method WriteRuns(fat: Fat, cl: array<Run>, clSize: nat, buf: array<byte>, off: nat, remaining: nat,
                   fromClus: nat, lastClus: nat, ghost ch: seq<nat>, ghost done: nat, ghost before: seq<seq<byte>>)
    returns (st: Status, written: nat, allWritten: bool, left: int, from: nat, last: nat)
    requires Ready(fat) && buf != fat.FBuf && IsChain(fat.links, fat.geo.ClusLimit(), ch)
    requires clSize <= cl.Length && Within(ch, done, Expand(cl[..clSize]))
    requires off == fat.geo.ClusBytes(done) && fat.geo.ClusBytes(done + remaining) <= buf.Length
    requires Stored(before, Content(fat), buf[..], fat.geo.ClusSize(), ch[..done])
    modifies fat.dev
    ensures Ready(fat) && (st == Ok || st == DeviceError) && OnlyChanged(before, Content(fat), ch)
    ensures st == DeviceError ==> !AllServed(fat.dev, fat.geo, ch)
    ensures var total := Total(cl[..clSize]); var n := Min(total, remaining);
      st == Ok ==>
        && done + total <= |ch|
        && written == n && Stored(before, Content(fat), buf[..], fat.geo.ClusSize(), ch[..done + n])
        && allWritten == (remaining < total)
        && (!allWritten ==> left == remaining - total && from == fromClus)
        && (allWritten ==> from == ch[done + remaining])
        && last == (if n > 0 then ch[done + n - 1] else lastClus)
  {
    hide Ready, Content, BufClus, OnDevice, Geo.ClusBytes, Geo.ClusSize, Stored, OnlyChanged, AllServed, Expand, Total,
      Before, RunOnChain, IsChain;
    ghost var rs, k := cl[..clSize], done + remaining;
    allWritten, left, from, last, written := false, remaining, fromClus, lastClus, 0;
    var iCur, n := 0, 0;
    var bufOff := off;
    BeforeEnds(rs);
    assert done + Total(rs) <= |ch|;
    StoredChanged(before, Content(fat), buf[..], fat.geo, ch[..done]);
    ChangedMore(before, Content(fat), ch, done);
    while iCur < clSize && !allWritten
      invariant Ready(fat) && 0 <= iCur <= clSize && done + written <= |ch| && OnlyChanged(before, Content(fat), ch)
      invariant bufOff == fat.geo.ClusBytes(done + written)
      invariant Stored(before, Content(fat), buf[..], fat.geo.ClusSize(), ch[..done + written])
      invariant !allWritten ==>
        written == Before(rs, iCur) <= remaining && left == remaining - written && from == fromClus
      invariant allWritten ==> written == remaining < Total(rs) && from == ch[k]
      invariant last == if written > 0 then ch[done + written - 1] else lastClus
    {
      BatchRunOnChain(ch, done, rs, iCur);
      st, n, allWritten, left, from, last, bufOff :=
        WriteStep(fat, cl[iCur], buf, bufOff, left, from, last, ch, done + written, before);
      ChangedMore(before, Content(fat), ch, done + written + n);
      if st != Ok {
        return;
      }
      written := written + n;
      iCur := iCur + 1;
    }
    st := Ok;
  }

  lemma StoredChanged(before: seq<seq<byte>>, after: seq<seq<byte>>, buf: seq<byte>, g: Geo, wr: seq<nat>)
    requires Stored(before, after, buf, g.ClusSize(), wr)
    ensures OnlyChanged(before, after, wr)
  {}

  lemma ChangedMore(before: seq<seq<byte>>, after: seq<seq<byte>>, ch: seq<nat>, n: nat)
    requires n <= |ch| && OnlyChanged(before, after, ch[..n])
    ensures OnlyChanged(before, after, ch)
  {}

  /** The overwriting half of fatfs__storefileclus_usefileinfo: as many of the `k` clusters as the file
      already has, from cluster fromClus on. `ch` is what remains of the chain there. */
  method Overwrite(fat: Fat, firstClus: nat, buf: array<byte>, k: nat, lastClus: nat, fromClus: nat, ghost ch: seq<nat>)
    returns (st: Status, allWritten: bool, left: int, total: nat, last: nat, from: nat, bufOff: nat)
    requires Ready(fat) && buf != fat.FBuf
    requires fat.links[0] == End && IsChain(fat.links, fat.geo.ClusLimit(), ch) && EntersAt(firstClus, fromClus, ch, 0)
    requires fat.geo.ClusBytes(k) <= buf.Length
    modifies fat`curFatStartEntry, fat`curFatEndEntry, fat`curFatPartStartSecAbs, fat`curFatEndSecAbs,
      fat`fatUpdated, fat.dev, fat.FBuf
    ensures Ready(fat) && (st == Ok || st == DeviceError) && OnlyChanged(old(Content(fat)), Content(fat), ch)
    ensures st == DeviceError ==> !AllServed(fat.dev, fat.geo, ch)
    ensures var n := Min(k, |ch|);
      st == Ok ==>
        && total == n && Stored(old(Content(fat)), Content(fat), buf[..], fat.geo.ClusSize(), ch[..n])
        && allWritten == (k < |ch|) && bufOff == fat.geo.ClusBytes(n)
        && (if allWritten then from == ch[k] else left == k - |ch|)
        && last == (if n > 0 then ch[n - 1] else lastClus)
  {
    hide Ready, Content, BufClus, OnDevice, Geo.ClusBytes, Geo.ClusSize, Stored, OnlyChanged, AllServed, Expand, Total,
      Batch, IsChain, Within, LastStart, Runs, EntersAt, FirstOf;
    var cl := new Run[CLIST_SIZE];
    ghost var before := Content(fat);
    allWritten, left, total, last, from, bufOff := false, k, 0, lastClus, fromClus, 0;
    var resOCL, size, written := TryAgain, 0, 0;
    NothingStored(before, buf[..], fat.geo, ch);
    assert ch[..0] == [];
    while resOCL != Ok && !allWritten
      invariant Ready(fat) && fresh(cl) && OnlyChanged(before, Content(fat), ch)
      invariant total <= |ch| && total <= k && bufOff == fat.geo.ClusBytes(total)
      invariant Stored(before, Content(fat), buf[..], fat.geo.ClusSize(), ch[..total])
      invariant last == if total > 0 then ch[total - 1] else lastClus
      invariant allWritten ==> total == k < |ch| && from == ch[k]
      invariant !allWritten ==> left == k - total && resOCL in {Ok, TryAgain}
      invariant !allWritten && resOCL == Ok ==> total == |ch|
      invariant !allWritten && resOCL != Ok ==> EntersAt(firstClus, from, ch, total)
      decreases |ch| - total, resOCL != Ok && !allWritten
    {
      EntersWhere(firstClus, from, ch, total);
      resOCL, size, from := GetOptiClusList(fat, firstClus, cl, CLIST_SIZE, from);
      BatchFrom(fat.links, fat.geo.ClusLimit(), ch, total, CLIST_SIZE, resOCL, cl[..size], from);
      if resOCL == TryAgain {
        EntersNext(fat.links, fat.geo.ClusLimit(), firstClus, from, ch, total + Total(cl[..size]));
      }
      if resOCL != Ok && resOCL != TryAgain {
        break;
      }
      st, written, allWritten, left, from, last :=
        WriteRuns(fat, cl, size, buf, bufOff, left, from, last, ch, total, before);
      if st != Ok {
        return;
      }
      ClusBytesSum(fat.geo, total, written);
      total := total + written;
      bufOff := bufOff + written * fat.geo.secPerClus * fat.geo.bytPerSec;
    }
    st := Ok;
  }

  lemma NothingStored(before: seq<seq<byte>>, buf: seq<byte>, g: Geo, ch: seq<nat>)
    ensures Stored(before, before, buf, g.ClusSize(), []) && OnlyChanged(before, before, ch) && g.ClusBytes(0) == 0
  {}

  /** The clusters are in use. */
  ghost predicate InUse(links: seq<Link>, s: seq<nat>) {
    forall c :: c in s ==> c < |links| && links[c] != Free
  }

  lemma InUseParts(links: seq<Link>, a: seq<nat>, b: seq<nat>)
    requires InUse(links, a + b)
    ensures InUse(links, a) && InUse(links, b)
  {
    assert forall c :: c in a || c in b ==> c in a + b;
  }

  /** 32-bit addition. */
  function Sum32(a: nat, b: nat): (r: Word32)
    ensures a + b < TWO32 ==> r == a + b
  {
    U32(a + b)
  }

  lemma SumTwice(a: nat, b: nat, c: nat)
    ensures Sum32(Sum32(a, b), c) == Sum32(a, b + c) && (a < TWO32 ==> Sum32(a, 0) == a)
  {}

  /** What the record of a file says about its changes and its new size, and the free counter of the volume. */
  datatype Notes = Notes(updated: set<Update>, size: Word32, counter: nat)

  function NotesOf(fInfo: FileInfo, free: FreeClusters): Notes
    reads fInfo, free
  {
    Notes(fInfo.updated, fInfo.newFileSize, free.freeClusters)
  }

  /** When clusters `seg` are linked behind the chain `ch`, the record says that the size and, if there was no
      chain, the first cluster have changed, the size grows by as many clusters, and a counter that is known
      falls by as many. */
  ghost predicate Noted(g: Geo, ch: seq<nat>, seg: seq<nat>, before: Notes, after: Notes) {
    && after.updated == before.updated + Changed(ch, seg)
    && after.size == Sum32(before.size, g.ClusBytes(|seg|))
    && (FlagOf(before.counter) == KNOWN ==> after.counter == Subtracted(before.counter, |seg|))
  }

  function Changed(ch: seq<nat>, seg: seq<nat>): set<Update> {
    if seg == [] then {} else if ch == [] then {Size, FirstClus} else {Size}
  }

  lemma CounterSmall(x: nat, links: seq<Link>, lim: nat)
    requires CounterOk(x, links, lim)
    ensures x < TWO32 && Steady(x, x)
  {}

  lemma NothingNoted(g: Geo, ch: seq<nat>, notes: Notes, now: nat)
    requires notes.counter < TWO32 && Steady(notes.counter, now)
    ensures Noted(g, ch, [], notes, notes.(counter := now))
  {
    SumTwice(notes.size, 0, 0);
  }

  lemma NotedMore(g: Geo, ch: seq<nat>, seg: seq<nat>, more: seq<nat>, a: Notes, b: Notes, c: Notes)
    requires Noted(g, ch, seg, a, b) && Noted(g, ch + seg, more, b, c) && a.counter < TWO32
    ensures Noted(g, ch, seg + more, a, c)
  {
    hide ValueOf, FlagOf, Sum32, Geo.ClusBytes;
    assert ch + seg == [] <==> ch == [] && seg == [];
    assert seg + more == [] <==> seg == [] && more == [];
    SizesMore(g, a.size, |seg|, |more|);
    if FlagOf(a.counter) == KNOWN {
      SubtractedTwice(a.counter, |seg|, |more|);
    }
  }

  lemma NotedSize(g: Geo, ch: seq<nat>, seg: seq<nat>, a: Notes, b: Notes)
    requires Noted(g, ch, seg, a, b)
    ensures b.size == Sum32(a.size, g.ClusBytes(|seg|))
  {}

  /** What a store of `k` clusters notes before it links new ones, if `tail` are overwritten. */
  function Started(g: Geo, notes: Notes, append: bool, k: nat, tail: nat): Notes
    requires g.ClusSize() > 0
  {
    if append || k < tail then notes
    else Notes(notes.updated + {Size}, Rounded(g, notes.size, tail), notes.counter)
  }

  lemma StartedIs(g: Geo, notes: Notes, append: bool, k: nat, tail: nat)
    requires g.ClusSize() > 0
    ensures append || k < tail ==> Started(g, notes, append, k, tail) == notes
    ensures !append && k >= tail ==>
      Started(g, notes, append, k, tail) == Notes(notes.updated + {Size}, Rounded(g, notes.size, tail), notes.counter)
  {}

  lemma SubtractedTwice(x: nat, m: nat, n: nat)
    requires FlagOf(x) == KNOWN && x < TWO32
    ensures Subtracted(Subtracted(x, m), n) == Subtracted(x, m + n) && FlagOf(Subtracted(x, m)) == KNOWN
  {
    FlagPlusValue(if ValueOf(x) > m then ValueOf(x) - m else 0, KNOWN);
  }

  /** Writes one free run and hangs it behind the file's chain. */
  method AppendRun(fat: Fat, free: FreeClusters, fInfo: FileInfo, r: Run, buf: array<byte>, off: nat, lastClus: nat,
                   ghost files: seq<seq<nat>>, ghost f: nat, ghost rest: seq<Run>,
                   ghost before: seq<seq<byte>>, ghost wr: seq<nat>)
    returns (st: Status, last: nat)
    requires Ready(fat) && buf != fat.FBuf && VolumeOk(fat.links, fat.geo.ClusLimit(), files) && f < |files|
    requires fInfo.firstClus == FirstOf(files[f]) && (lastClus == 0 || lastClus == LastOf(files[f]))
    requires CounterOk(free.freeClusters, fat.links, fat.geo.ClusLimit())
    requires Usable(fat.links, fat.geo.cntDataClus, [r] + rest)
    requires off == fat.geo.ClusBytes(|wr|) && fat.geo.ClusBytes(|wr| + r.Count()) <= buf.Length
    requires Stored(before, Content(fat), buf[..], fat.geo.ClusSize(), wr)
    requires InUse(fat.links, wr)
    modifies fat, fat.dev, fat.FBuf, free`freeClusters, fInfo
    ensures Ready(fat) && fat.accessPattern == old(fat.accessPattern)
    ensures st == Ok || st == DeviceError
    ensures CounterOk(free.freeClusters, fat.links, fat.geo.ClusLimit()) && Usable(fat.links, fat.geo.cntDataClus, rest)
    ensures FreeRun(old(fat.links), fat.geo.ClusLimit(), r)
    ensures OnlyChanged(before, Content(fat), wr + Clusters(r))
    ensures st == DeviceError ==>
      && fat.links == old(fat.links) && unchanged(fInfo)
      && !fat.dev.Serves(fat.geo.SecOfClus(r.base), r.Count() * fat.geo.secPerClus)
    ensures st == Ok ==>
      && fat.links == Linked(old(fat.links), LastOf(files[f]), r)
      && VolumeOk(fat.links, fat.geo.ClusLimit(), Grown(files, f, Clusters(r)))
      && fInfo.firstClus == FirstOf(files[f] + Clusters(r)) && last == LastOf(files[f] + Clusters(r))
      && fInfo.fileSize == old(fInfo.fileSize)
      && Noted(fat.geo, files[f], Clusters(r), old(NotesOf(fInfo, free)), NotesOf(fInfo, free))
      && Stored(before, Content(fat), buf[..], fat.geo.ClusSize(), wr + Clusters(r))
      && InUse(fat.links, wr + Clusters(r))
  {
    hide Ready, Content, BufClus, OnDevice, Geo.ClusBytes, Geo.ClusSize, Stored, OnlyChanged, VolumeOk, Usable,
      CounterOk, Linked, IsChain, Device.Serves, FirstClusters, Expand, InUse, Grown, Sum32;
    ghost var lim, links, ch := fat.geo.ClusLimit(), fat.links, files[f];
    AppendFacts(links, fat.geo.cntDataClus, lim, files, f, r, rest, wr);
    AllClusters(r);
    st := WriteRun(fat, r, r.Count(), buf, off, before, wr);
    if st != Ok {
      return st, lastClus;
    }
    last := r.base + r.adj;
    var res := LinkNewSegment(fat, free, fInfo, lastClus, r.base, last, ch);
    if res != Ok {
      return res, last;
    }
    LinkKeepsVolume(links, lim, files, f, r);
    fInfo.newFileSize := Sum32(fInfo.newFileSize, fat.geo.ClusBytes(r.Count()));
    fInfo.updated := fInfo.updated + {Size};
    RunHasClusters(r);
  }

  lemma EmptyFront(ch: seq<nat>, seg: seq<nat>)
    ensures ch + [] == ch && [] + seg == seg
  {}

  lemma RunHasClusters(r: Run)
    ensures Clusters(r) != [] && |Clusters(r)| == r.Count()
  {}

  lemma AllClusters(r: Run)
    ensures FirstClusters(r, r.Count()) == Clusters(r)
  {}

  /** What AppendRun needs to know about the free run, before and after it is linked. */
  lemma AppendFacts(links: seq<Link>, hi: nat, lim: nat, files: seq<seq<nat>>, f: nat, r: Run, rest: seq<Run>,
                    wr: seq<nat>)
    requires VolumeOk(links, lim, files) && f < |files| && Usable(links, hi, [r] + rest) && hi <= lim
    requires InUse(links, wr)
    ensures links[0] == End && IsChain(links, lim, files[f]) && FreeRun(links, lim, r)
    ensures forall c :: c in wr ==> !(r.base <= c < r.base + r.Count())
    ensures Usable(links, hi, rest) && Usable(Linked(links, LastOf(files[f]), r), hi, rest)
    ensures InUse(Linked(links, LastOf(files[f]), r), wr + Clusters(r))
    ensures FirstOf(files[f] + Clusters(r)) == (if files[f] == [] then r.base else FirstOf(files[f]))
    ensures LastOf(files[f] + Clusters(r)) == r.Last()
  {
    hide Linked, Expand, Runs;
    var ch := files[f];
    ChainUsed(links, lim, ch);
    assert ([r] + rest)[1..] == rest;
    UsableAfterLink(links, hi, lim, LastOf(ch), [r] + rest);
    ExpandConcat([r], rest);
    UsableParts(links, hi, [r], rest, [r] + rest);
    forall c | c in wr + Clusters(r)
      ensures c < |links| && Linked(links, LastOf(ch), r)[c] != Free
    {
      ClusterIn(r, c);
      LinkedAt(links, LastOf(ch), r, c);
    }
  }

  /** Every cluster of `s` was a free data cluster. */
  ghost predicate WereFree(links: seq<Link>, lim: nat, s: seq<nat>) {
    forall c :: c in s ==> 2 <= c < lim <= |links| && links[c] == Free
  }

  /** No entry but those of `s` and `last` differs. */
  ghost predicate SameElsewhere(links: seq<Link>, after: seq<Link>, last: nat, s: seq<nat>) {
    |after| == |links| && forall c :: 0 <= c < |links| && c != last && c !in s ==> after[c] == links[c]
  }

  /** The device can transfer every data cluster. */
  ghost predicate DataServed(dev: Device, g: Geo) {
    forall c :: 2 <= c < g.ClusLimit() ==> dev.Serves(g.SecOfClus(c), g.secPerClus)
  }

  lemma FreeRunServed(dev: Device, g: Geo, r: Run, links: seq<Link>)
    requires OnDevice(dev, g) && FreeRun(links, g.ClusLimit(), r)
    requires !dev.Serves(g.SecOfClus(r.base), r.Count() * g.secPerClus)
    ensures !DataServed(dev, g)
  {
    hide OnDevice, Device.Serves, Geo.SecOfClus;
    if DataServed(dev, g) {
      StartServed(dev, g, r.base);
      RunServed(dev, g, r.base, r.Count());
    }
  }

  /** One more run appended: what was free before, and what has changed since. */
  lemma AppendedMore(links: seq<Link>, mid: seq<Link>, lim: nat, last0: nat, seg: seq<nat>, last: nat, r: Run)
    requires WereFree(links, lim, seg) && SameElsewhere(links, mid, last0, seg) && FreeRun(mid, lim, r)
    requires last == last0 || last in seg
    requires last0 == 0 || (last0 < |mid| && mid[last0] != Free)
    requires InUse(mid, seg)
    requires |links| > 0 && lim <= |links|
    ensures WereFree(links, lim, seg + Clusters(r))
    ensures SameElsewhere(links, Linked(mid, last, r), last0, seg + Clusters(r))
  {
    hide Linked;
    forall c | c in seg + Clusters(r)
      ensures 2 <= c < lim && links[c] == Free
    {
      ClusterIn(r, c);
    }
    forall c | 0 <= c < |links| && c != last0 && c !in seg + Clusters(r)
      ensures Linked(mid, last, r)[c] == links[c]
    {
      ClusterIn(r, c);
      LinkedAt(mid, last, r, c);
    }
  }

  /** The inner loop of the extending half of fatfs__storefileclus_usefileinfo. `seg` are the clusters
      linked, `dirty` those written; they differ only if a transfer fails. */
  method AppendRuns(fat: Fat, free: FreeClusters, fInfo: FileInfo, cl: array<Run>, clSize: nat, buf: array<byte>,
                    off: nat, required: nat, lastClus: nat, ghost files: seq<seq<nat>>, ghost f: nat,
                    ghost rest: seq<Run>, ghost before: seq<seq<byte>>, ghost wr: seq<nat>)
    returns (st: Status, left: int, last: nat, bufOff: nat, ghost seg: seq<nat>, ghost dirty: seq<nat>)
    requires Ready(fat) && buf != fat.FBuf && VolumeOk(fat.links, fat.geo.ClusLimit(), files) && f < |files|
    requires fInfo.firstClus == FirstOf(files[f]) && (lastClus == 0 || lastClus == LastOf(files[f]))
    requires CounterOk(free.freeClusters, fat.links, fat.geo.ClusLimit())
    requires clSize <= cl.Length && Usable(fat.links, fat.geo.cntDataClus, cl[..clSize] + rest)
    requires Total(cl[..clSize]) <= required
    requires off == fat.geo.ClusBytes(|wr|) && fat.geo.ClusBytes(|wr| + required) <= buf.Length
    requires Stored(before, Content(fat), buf[..], fat.geo.ClusSize(), wr)
    requires InUse(fat.links, wr)
    modifies fat, fat.dev, fat.FBuf, free`freeClusters, fInfo
    ensures Ready(fat) && fat.accessPattern == old(fat.accessPattern) && (st == Ok || st == DeviceError)
    ensures CounterOk(free.freeClusters, fat.links, fat.geo.ClusLimit()) && Usable(fat.links, fat.geo.cntDataClus, rest)
    ensures VolumeOk(fat.links, fat.geo.ClusLimit(), Grown(files, f, seg))
    ensures fInfo.firstClus == FirstOf(files[f] + seg) && fInfo.fileSize == old(fInfo.fileSize)
    ensures WereFree(old(fat.links), fat.geo.ClusLimit(), dirty) && seg <= dirty
    ensures SameElsewhere(old(fat.links), fat.links, LastOf(files[f]), seg)
    ensures OnlyChanged(before, Content(fat), wr + dirty)
    ensures st == DeviceError ==> !DataServed(fat.dev, fat.geo)
    ensures st == Ok ==>
      && dirty == seg == Expand(cl[..clSize]) && left == required - |seg|
      && bufOff == fat.geo.ClusBytes(|wr + seg|) && Stored(before, Content(fat), buf[..], fat.geo.ClusSize(), wr + seg)
      && last == (if seg == [] then lastClus else LastOf(files[f] + seg))
      && InUse(fat.links, wr + seg) && Noted(fat.geo, files[f], seg, old(NotesOf(fInfo, free)), NotesOf(fInfo, free))
  {
    hide Ready, Content, BufClus, OnDevice, Geo.ClusBytes, Geo.ClusSize, Stored, OnlyChanged, VolumeOk, Usable,
      CounterOk, Linked, Expand, Total, WereFree, SameElsewhere, FreeRun, Before, UpTo, Pending, Grown, Clusters,
      DataServed, InUse, Sum32, LastOf, FirstOf;
    ghost var lim, links, rs := fat.geo.ClusLimit(), fat.links, cl[..clSize];
    left, last, bufOff, seg, dirty := required, lastClus, off, [], [];
    var iCur := 0;
    CounterSmall(free.freeClusters, fat.links, lim);
    NothingNoted(fat.geo, files[f], NotesOf(fInfo, free), free.freeClusters);
    AppendStart(links, lim, files, f, wr, fat.geo, rs, rest);
    StoredChanged(before, Content(fat), buf[..], fat.geo, wr);
    while iCur < clSize
      invariant Ready(fat) && fat.accessPattern == old(fat.accessPattern) && 0 <= iCur <= clSize && fat.links != []
      invariant CounterOk(free.freeClusters, fat.links, lim)
      invariant Usable(fat.links, fat.geo.cntDataClus, Pending(rs, iCur, rest))
      invariant VolumeOk(fat.links, lim, Grown(files, f, seg))
      invariant fInfo.firstClus == FirstOf(files[f] + seg) && fInfo.fileSize == old(fInfo.fileSize)
      invariant WereFree(links, lim, seg) && dirty == seg && SameElsewhere(links, fat.links, LastOf(files[f]), seg)
      invariant |seg| == Before(rs, iCur) && left == required - |seg| && seg == UpTo(rs, iCur)
      invariant bufOff == fat.geo.ClusBytes(|wr + seg|)
      invariant Stored(before, Content(fat), buf[..], fat.geo.ClusSize(), wr + seg)
      invariant OnlyChanged(before, Content(fat), wr + dirty)
      invariant last == if seg == [] then lastClus else LastOf(files[f] + seg)
      invariant InUse(fat.links, wr + seg)
      invariant Noted(fat.geo, files[f], seg, old(NotesOf(fInfo, free)), NotesOf(fInfo, free))
    {
      var r := cl[iCur];
      assert r == rs[iCur];
      ghost var mid, tail, notes := fat.links, Pending(rs, iCur + 1, rest), NotesOf(fInfo, free);
      AppendRound(mid, lim, files, f, seg, rs, iCur, rest, wr);
      SizesRound(fat.geo, |wr + seg|, r.Count(), |wr| + required);
      st, last := AppendRun(fat, free, fInfo, r, buf, bufOff, last, Grown(files, f, seg), f, tail, before, wr + seg);
      AppendedMore(links, mid, lim, LastOf(files[f]), seg, LastOf(files[f] + seg), r);
      if st != Ok {
        dirty := seg + Clusters(r);
        FreeRunServed(fat.dev, fat.geo, r, mid);
        PendingTail(fat.links, fat.geo.cntDataClus, rs, iCur + 1, rest);
        return;
      }
      left := left - r.Count();
      NotedMore(fat.geo, files[f], seg, Clusters(r), old(NotesOf(fInfo, free)), notes, NotesOf(fInfo, free));
      seg := seg + Clusters(r);
      dirty := seg;
      bufOff := bufOff + r.Count() * fat.geo.secPerClus * fat.geo.bytPerSec;
      iCur := iCur + 1;
    }
    PendingTail(fat.links, fat.geo.cntDataClus, rs, clSize, rest);
    UpToEnds(rs);
    st := Ok;
  }

  /** Bookkeeping of one round: the lists before and after run `i`. */
  lemma AppendNext(files: seq<seq<nat>>, f: nat, seg: seq<nat>, rs: seq<Run>, i: nat, rest: seq<Run>, wr: seq<nat>)
    requires f < |files| && i < |rs|
    ensures Pending(rs, i, rest) == [rs[i]] + Pending(rs, i + 1, rest)
    ensures UpTo(rs, i + 1) == UpTo(rs, i) + Clusters(rs[i])
    ensures wr + seg + Clusters(rs[i]) == wr + (seg + Clusters(rs[i]))
    ensures Before(rs, i + 1) == Before(rs, i) + rs[i].Count() <= Total(rs)
  {
    hide Expand, Total, Before, Clusters, UpTo, Pending, Within;
    RunAt(rs, i);
    UpToStep(rs, i);
    PendingStep(rs, i, rest);
    ConcatAssoc(wr, seg, Clusters(rs[i]));
  }

  /** What one round starts from. */
  lemma AppendRound(mid: seq<Link>, lim: nat, files: seq<seq<nat>>, f: nat, seg: seq<nat>, rs: seq<Run>, i: nat,
                    rest: seq<Run>, wr: seq<nat>)
    requires f < |files| && i < |rs| && VolumeOk(mid, lim, Grown(files, f, seg)) && InUse(mid, wr + seg)
    ensures Pending(rs, i, rest) == [rs[i]] + Pending(rs, i + 1, rest)
    ensures UpTo(rs, i + 1) == UpTo(rs, i) + Clusters(rs[i]) && |Clusters(rs[i])| == rs[i].Count()
    ensures wr + seg + Clusters(rs[i]) == wr + (seg + Clusters(rs[i]))
    ensures Before(rs, i + 1) == Before(rs, i) + rs[i].Count() <= Total(rs)
    ensures Grown(files, f, seg)[f] == files[f] + seg
    ensures Grown(files, f, seg)[f] + Clusters(rs[i]) == files[f] + (seg + Clusters(rs[i]))
    ensures Grown(Grown(files, f, seg), f, Clusters(rs[i])) == Grown(files, f, seg + Clusters(rs[i]))
    ensures LastOf(files[f]) == 0 || (LastOf(files[f]) < |mid| && mid[LastOf(files[f])] != Free)
    ensures LastOf(files[f] + seg) == LastOf(files[f]) || LastOf(files[f] + seg) in seg
    ensures lim <= |mid| && InUse(mid, seg)
  {
    hide VolumeOk, InUse, Grown, LastOf, Pending, UpTo, Before, Total;
    GrownTwice(files, f, seg, Clusters(rs[i]));
    AppendNext(files, f, seg, rs, i, rest, wr);
    LastUsed(mid, lim, files, f, seg);
    InUseParts(mid, wr, seg);
  }

  lemma SizesRound(g: Geo, w: nat, n: nat, top: nat)
    requires w + n <= top
    ensures g.ClusBytes(w + n) <= g.ClusBytes(top)
    ensures g.ClusBytes(w + n) == g.ClusBytes(w) + n * g.secPerClus * g.bytPerSec
  {
    hide Geo.ClusBytes;
    ClusBytesMono(g, w + n, top);
    ClusBytesSum(g, w, n);
  }

  /** The end of the original chain stays in use while it is extended. */
  lemma LastUsed(mid: seq<Link>, lim: nat, files: seq<seq<nat>>, f: nat, seg: seq<nat>)
    requires f < |files| && VolumeOk(mid, lim, Grown(files, f, seg))
    ensures LastOf(files[f]) == 0 || (LastOf(files[f]) < |mid| && mid[LastOf(files[f])] != Free)
    ensures LastOf(files[f] + seg) == LastOf(files[f]) || LastOf(files[f] + seg) in seg
    ensures lim <= |mid|
  {
    hide IsChain;
    GrownTwice(files, f, seg, []);
    var ch := Grown(files, f, seg)[f];
    ChainUsed(mid, lim, ch);
    assert files[f] != [] ==> LastOf(files[f]) in ch;
    if seg == [] {
      assert ch == files[f];
    }
  }

  lemma PendingTail(links: seq<Link>, hi: nat, rs: seq<Run>, i: nat, rest: seq<Run>)
    requires i <= |rs| && Usable(links, hi, Pending(rs, i, rest))
    ensures Usable(links, hi, rest)
  {
    ExpandConcat(rs[i..], rest);
    UsableParts(links, hi, rs[i..], rest, rs[i..] + rest);
  }

  lemma AppendStart(links: seq<Link>, lim: nat, files: seq<seq<nat>>, f: nat, wr: seq<nat>, g: Geo, rs: seq<Run>,
                    rest: seq<Run>)
    requires VolumeOk(links, lim, files) && f < |files|
    ensures files[f] + [] == files[f] && Grown(files, f, []) == files && wr + [] == wr && links != []
    ensures WereFree(links, lim, []) && SameElsewhere(links, links, LastOf(files[f]), [])
    ensures g.ClusBytes(0) == 0 && Before(rs, 0) == 0 && UpTo(rs, 0) == [] && Pending(rs, 0, rest) == rs + rest
  {
    GrownTwice(files, f, [], []);
  }

  /** Two stretches of appended clusters make one. */
  lemma AppendedTwice(links: seq<Link>, mid: seq<Link>, after: seq<Link>, lim: nat, last0: nat, seg: seq<nat>,
                      last: nat, more: seq<nat>, dirty: seq<nat>)
    requires WereFree(links, lim, seg) && SameElsewhere(links, mid, last0, seg) && InUse(mid, seg)
    requires WereFree(mid, lim, dirty) && SameElsewhere(mid, after, last, more) && more <= dirty
    requires last == last0 || last in seg
    requires last0 == 0 || (last0 < |mid| && mid[last0] != Free)
    ensures WereFree(links, lim, seg + dirty) && SameElsewhere(links, after, last0, seg + more)
    ensures seg + more <= seg + dirty
  {
    forall c | c in seg + dirty
      ensures 2 <= c < lim <= |links| && links[c] == Free
    {
      if c !in seg {
        assert mid[c] == Free;
      }
    }
    forall c | 0 <= c < |links| && c != last0 && c !in seg + more
      ensures after[c] == links[c]
    {
      assert c !in seg && c !in more;
    }
  }

  const ALLOC: nat := FATFS_EOF

  /** How the allocator's calls for a store end, with the clusters they hand out and the cache they leave. */
  datatype Supplied = Supplied(end: Status, seg: seq<nat>, left: Cache)

  /** What the allocator does for a store of `req` clusters. */
  ghost function SuppliedFor(links: seq<Link>, hi: nat, cap: nat, c: Cache, req: nat): Supplied
    requires cap >= 1
  {
    Supplied(EndOf(links, hi, cap, CLIST_SIZE, c, req), Handed(links, hi, cap, CLIST_SIZE, c, req),
             LeftOver(links, hi, cap, CLIST_SIZE, c, req))
  }

  /** What it will do for the next `req` clusters, as far as the caller needs to know. */
  ghost predicate Provided(links: seq<Link>, hi: nat, cap: nat, c: Cache, req: nat, all: Supplied)
    requires cap >= 1
  {
    Served(links, hi, cap, CLIST_SIZE, c, req) && SuppliedFor(links, hi, cap, c, req) == all
  }

  /** The clusters a store of `k` clusters has to add behind the `n` it overwrites. */
  function Beyond(k: nat, n: nat): (r: nat)
    ensures r > 0 <==> k > n
  {
    if k > n then k - n else 0
  }

  /** What is still to come after `n` clusters. */
  function Rest(all: Supplied, n: nat): Supplied
    requires n <= |all.seg|
  {
    all.(seg := all.seg[n..])
  }

  /** One round of the extending half of fatfs__storefileclus_usefileinfo: a batch of free runs is taken
      from the cache, written and linked. */
  method ExtendOnce(fat: Fat, free: FreeClusters, fInfo: FileInfo, cl: array<Run>, buf: array<byte>, off: nat,
                    required: nat, lastClus: nat, ghost files: seq<seq<nat>>, ghost f: nat,
                    ghost before: seq<seq<byte>>, ghost wr: seq<nat>, ghost all: Supplied)
    returns (resOCL: Status, st: Status, left: nat, last: nat, bufOff: nat, ghost seg: seq<nat>, ghost dirty: seq<nat>)
    requires Ready(fat) && free.Valid() && buf != fat.FBuf && VolumeOk(fat.links, fat.geo.ClusLimit(), files)
    requires f < |files|
    requires fInfo.firstClus == FirstOf(files[f]) && (lastClus == 0 || lastClus == LastOf(files[f]))
    requires CounterOk(free.freeClusters, fat.links, fat.geo.ClusLimit()) && cl.Length == CLIST_SIZE && cl != free.cl
    requires PoolOk(fat.links, fat.geo.cntDataClus, free.State().runs)
    requires Provided(fat.links, fat.geo.cntDataClus, free.cl.Length, free.State(), required, all)
    requires off == fat.geo.ClusBytes(|wr|) && fat.geo.ClusBytes(|wr| + required) <= buf.Length
    requires Stored(before, Content(fat), buf[..], fat.geo.ClusSize(), wr) && InUse(fat.links, wr)
    modifies fat, fat.dev, fat.FBuf, free, free.cl, fInfo, cl
    ensures Ready(fat) && free.Valid() && fat.accessPattern == old(fat.accessPattern)
    ensures CounterOk(free.freeClusters, fat.links, fat.geo.ClusLimit())
    ensures PoolOk(fat.links, fat.geo.cntDataClus, free.State().runs)
    ensures VolumeOk(fat.links, fat.geo.ClusLimit(), Grown(files, f, seg))
    ensures fInfo.firstClus == FirstOf(files[f] + seg) && fInfo.fileSize == old(fInfo.fileSize)
    ensures WereFree(old(fat.links), fat.geo.ClusLimit(), dirty) && seg <= dirty
    ensures SameElsewhere(old(fat.links), fat.links, LastOf(files[f]), seg)
    ensures OnlyChanged(before, Content(fat), wr + dirty)
    ensures resOCL in {Ok, TryAgain, NoMore} && st in {Ok, DeviceError}
    ensures st == DeviceError ==> !DataServed(fat.dev, fat.geo)
    ensures st == Ok ==>
      && dirty == seg && left == required - |seg| && (resOCL == Ok ==> left == 0)
      && seg <= all.seg && (resOCL != TryAgain ==> all == Supplied(resOCL, seg, free.State()))
      && (resOCL == TryAgain ==>
            && 0 < left < required
            && Provided(fat.links, fat.geo.cntDataClus, free.cl.Length, free.State(), left, Rest(all, |seg|)))
      && bufOff == fat.geo.ClusBytes(|wr + seg|)
      && Stored(before, Content(fat), buf[..], fat.geo.ClusSize(), wr + seg) && InUse(fat.links, wr + seg)
      && last == (if seg == [] then lastClus else LastOf(files[f] + seg))
      && Noted(fat.geo, files[f], seg, old(NotesOf(fInfo, free)), NotesOf(fInfo, free))
  {
    hide Ready, Content, BufClus, OnDevice, Geo.ClusBytes, Geo.ClusSize, Stored, OnlyChanged, VolumeOk, PoolOk,
      CounterOk, Noted, Steady, Expand, WereFree, SameElsewhere, Grown, DataServed, InUse, Provided, Usable, Alloc,
      FlagRank, Sum32, Total, LastOf, FirstOf, Used;
    ghost var links, c0, hi, cap := fat.links, free.State(), fat.geo.cntDataClus, free.cl.Length;
    last, bufOff, seg, dirty, left, st := lastClus, off, [], [], required, Ok;
    AppendStart(links, fat.geo.ClusLimit(), files, f, wr, fat.geo, [], []);
    ProvidedStep(links, hi, cap, c0, required, all);
    ghost var notes := NotesOf(fInfo, free);
    CounterSmall(free.freeClusters, links, fat.geo.ClusLimit());
    var size;
    resOCL, size := free.GetOptiFreeClusList(fat, cl, CLIST_SIZE, required);
    NothingNoted(fat.geo, files[f], notes, free.freeClusters);
    ghost var filled := NotesOf(fInfo, free);
    if resOCL != Ok && resOCL != TryAgain {
      StoredChanged(before, Content(fat), buf[..], fat.geo, wr);
      return;
    }
    var left';
    st, left', last, bufOff, seg, dirty :=
      AppendRuns(fat, free, fInfo, cl, size, buf, off, required, lastClus, files, f, free.State().runs, before, wr);
    StillPool(links, fat.links, hi, free.State().runs);
    if st != Ok {
      return;
    }
    left := left';
    EmptyFront(files[f], seg);
    NotedMore(fat.geo, files[f], [], seg, notes, filled, NotesOf(fInfo, free));
    if resOCL == TryAgain {
      LastStays(links, fat.links, fat.geo.ClusLimit(), files, f, seg);
      InUseParts(fat.links, wr, seg);
      StillProvided(links, fat.links, hi, cap, free.State(), left, LastOf(files[f]), seg, Rest(all, |seg|));
    }
  }

  lemma ProvidedStep(links: seq<Link>, hi: nat, cap: nat, c: Cache, req: nat, all: Supplied)
    requires cap >= 1 && PoolOk(links, hi, c.runs) && Provided(links, hi, cap, c, req, all)
    ensures var (st, out, c1) := Alloc(links, hi, cap, c, req, CLIST_SIZE);
      && st in {Ok, TryAgain, NoMore} && Total(out) <= req && PoolOk(links, hi, c1.runs)
      && (st != NoMore ==> Usable(links, hi, out + c1.runs))
      && (st != TryAgain ==> all == Supplied(st, if st == NoMore then [] else Expand(out), c1))
      && (st == Ok ==> Total(out) == req)
      && (st == TryAgain ==>
            && 0 < Total(out) < req && Expand(out) <= all.seg
            && Provided(Used(links, Expand(out)), hi, cap, c1, req - Total(out), Rest(all, |Expand(out)|)))
  {
    hide Alloc, Served, EndOf, Handed, LeftOver, Expand, PoolOk, Usable, Used;
    ServedStep(links, hi, cap, CLIST_SIZE, c, req);
    var (st, out, c1) := Alloc(links, hi, cap, c, req, CLIST_SIZE);
    if st == TryAgain {
      var more := Handed(Used(links, Expand(out)), hi, cap, CLIST_SIZE, c1, req - Total(out));
      assert (Expand(out) + more)[|Expand(out)|..] == more;
    }
  }

  lemma StillPool(links: seq<Link>, after: seq<Link>, hi: nat, rs: seq<Run>)
    requires PoolOk(links, hi, rs) && Usable(after, hi, rs)
    ensures PoolOk(after, hi, rs)
  {
    PoolUsable(links, hi, rs);
    PoolUsable(after, hi, rs);
  }

  /** Linking the clusters just handed out leaves for the allocator what marking them as used leaves. */
  lemma StillProvided(links: seq<Link>, after: seq<Link>, hi: nat, cap: nat, c: Cache, req: nat, last: nat, s: seq<nat>,
                      all: Supplied)
    requires cap >= 1 && Provided(Used(links, s), hi, cap, c, req, all)
    requires SameElsewhere(links, after, last, s) && Look(links, last) != Free && Look(after, last) != Free
    requires InUse(after, s)
    ensures Provided(after, hi, cap, c, req, all)
  {
    hide Served, EndOf, Handed, LeftOver;
    assert SameUse(Used(links, s), after, hi);
    ServedSame(Used(links, s), after, hi, cap, CLIST_SIZE, c, req);
  }

  /** The extending half of fatfs__storefileclus_usefileinfo: hangs `required` free clusters behind file `f`
      and writes the rest of the buffer to them, or as many as there are. */
  method Extend(fat: Fat, free: FreeClusters, fInfo: FileInfo, buf: array<byte>, off: nat, required: nat, lastClus: nat,
                ghost files: seq<seq<nat>>, ghost f: nat, ghost before: seq<seq<byte>>, ghost wr: seq<nat>,
                ghost all: Supplied)
    returns (st: Status, total: nat, last: nat, from: nat, ghost seg: seq<nat>, ghost dirty: seq<nat>)
    requires Ready(fat) && free.Valid() && buf != fat.FBuf && VolumeOk(fat.links, fat.geo.ClusLimit(), files)
    requires f < |files|
    requires fInfo.firstClus == FirstOf(files[f]) && (lastClus == 0 || lastClus == LastOf(files[f]))
    requires CounterOk(free.freeClusters, fat.links, fat.geo.ClusLimit())
    requires PoolOk(fat.links, fat.geo.cntDataClus, free.State().runs)
    requires Provided(fat.links, fat.geo.cntDataClus, free.cl.Length, free.State(), required, all)
    requires off == fat.geo.ClusBytes(|wr|) && fat.geo.ClusBytes(|wr| + required) <= buf.Length
    requires Stored(before, Content(fat), buf[..], fat.geo.ClusSize(), wr) && InUse(fat.links, wr)
    modifies fat, fat.dev, fat.FBuf, free, free.cl, fInfo
    ensures Ready(fat) && free.Valid() && fat.accessPattern == old(fat.accessPattern)
    ensures CounterOk(free.freeClusters, fat.links, fat.geo.ClusLimit())
    ensures PoolOk(fat.links, fat.geo.cntDataClus, free.State().runs)
    ensures VolumeOk(fat.links, fat.geo.ClusLimit(), Grown(files, f, seg))
    ensures fInfo.firstClus == FirstOf(files[f] + seg) && fInfo.fileSize == old(fInfo.fileSize)
    ensures WereFree(old(fat.links), fat.geo.ClusLimit(), dirty) && seg <= dirty
    ensures SameElsewhere(old(fat.links), fat.links, LastOf(files[f]), seg)
    ensures OnlyChanged(before, Content(fat), wr + dirty)
    ensures st in {Ok, DeviceError, NoMore} && (st == DeviceError ==> !DataServed(fat.dev, fat.geo))
    ensures st != DeviceError ==>
      && all == Supplied(st, seg, free.State())
      && dirty == seg && total == |seg| <= required && (st == Ok ==> |seg| == required)
      && from == (if st == Ok then ALLOC else if seg == [] then 0 else last + 1)
      && Stored(before, Content(fat), buf[..], fat.geo.ClusSize(), wr + seg)
      && last == (if seg == [] then lastClus else LastOf(files[f] + seg))
      && Noted(fat.geo, files[f], seg, old(NotesOf(fInfo, free)), NotesOf(fInfo, free))
  {
    hide Ready, Content, BufClus, OnDevice, Geo.ClusBytes, Geo.ClusSize, Stored, OnlyChanged, VolumeOk, PoolOk,
      CounterOk, Noted, WereFree, SameElsewhere, Grown, DataServed, InUse, Provided, FreeClusters.State, Sum32, LastOf,
      FirstOf, Rest;
    var cl := new Run[CLIST_SIZE];
    ghost var lim, links := fat.geo.ClusLimit(), fat.links;
    var left := required;
    total, last, from, seg, dirty := 0, lastClus, 0, [], [];
    var bufOff := off;
    var resOCL := TryAgain;
    AppendStart(links, lim, files, f, wr, fat.geo, [], []);
    RestMore(all, [], [], Ok, free.State());
    CounterSmall(free.freeClusters, fat.links, lim);
    NothingNoted(fat.geo, files[f], NotesOf(fInfo, free), free.freeClusters);
    StoredChanged(before, Content(fat), buf[..], fat.geo, wr);
    while resOCL != Ok
      invariant Ready(fat) && free.Valid() && fat.accessPattern == old(fat.accessPattern) && fresh(cl)
      invariant CounterOk(free.freeClusters, fat.links, lim)
      invariant PoolOk(fat.links, fat.geo.cntDataClus, free.State().runs)
      invariant VolumeOk(fat.links, lim, Grown(files, f, seg))
      invariant fInfo.firstClus == FirstOf(files[f] + seg) && fInfo.fileSize == old(fInfo.fileSize)
      invariant WereFree(links, lim, seg) && dirty == seg && SameElsewhere(links, fat.links, LastOf(files[f]), seg)
      invariant left == required - |seg| && total == |seg|
      invariant from == if seg == [] then 0 else last + 1
      invariant seg <= all.seg
      invariant if resOCL == Ok then left == 0 && all == Supplied(Ok, seg, free.State())
                else
                  && resOCL == TryAgain
                  && Provided(fat.links, fat.geo.cntDataClus, free.cl.Length, free.State(), left, Rest(all, |seg|))
      invariant bufOff == fat.geo.ClusBytes(|wr + seg|)
      invariant Stored(before, Content(fat), buf[..], fat.geo.ClusSize(), wr + seg)
      invariant OnlyChanged(before, Content(fat), wr + dirty) && InUse(fat.links, wr + seg)
      invariant last == if seg == [] then lastClus else LastOf(files[f] + seg)
      invariant Noted(fat.geo, files[f], seg, old(NotesOf(fInfo, free)), NotesOf(fInfo, free))
      decreases left, resOCL != Ok
    {
      ghost var mid, notes := fat.links, NotesOf(fInfo, free);
      var missing := left;
      GrownTwice(files, f, seg, []);
      ghost var more, dirtyMore;
      resOCL, st, left, last, bufOff, more, dirtyMore :=
        ExtendOnce(fat, free, fInfo, cl, buf, bufOff, left, last, Grown(files, f, seg), f, before, wr + seg,
                   Rest(all, |seg|));
      RestMore(all, seg, more, resOCL, free.State());
      ExtendedMore(links, mid, fat.links, lim, files, f, wr, seg, more, dirtyMore);
      if st == Ok {
        NotedMore(fat.geo, files[f], seg, more, old(NotesOf(fInfo, free)), notes, NotesOf(fInfo, free));
      }
      seg, dirty := seg + more, seg + dirtyMore;
      if st != Ok {
        return;
      }
      total := total + (missing - left);
      if left < missing {
        from := last + 1;
      }
      if resOCL != Ok && resOCL != TryAgain {
        st := resOCL;
        return;
      }
    }
    from := ALLOC;
    st := Ok;
  }

  lemma RestMore(all: Supplied, seg: seq<nat>, more: seq<nat>, st: Status, left: Cache)
    requires seg <= all.seg
    ensures seg == [] ==> Rest(all, |seg|) == all
    ensures more <= Rest(all, |seg|).seg ==>
      seg + more <= all.seg && Rest(Rest(all, |seg|), |more|) == Rest(all, |seg + more|)
    ensures Rest(all, |seg|) == Supplied(st, more, left) ==> all == Supplied(st, seg + more, left)
  {}

  /** One more round of the extending half: the lists and entries before and after. */
  lemma ExtendedMore(links: seq<Link>, mid: seq<Link>, after: seq<Link>, lim: nat, files: seq<seq<nat>>, f: nat,
                     wr: seq<nat>, seg: seq<nat>, more: seq<nat>, dirty: seq<nat>)
    requires f < |files| && VolumeOk(mid, lim, Grown(files, f, seg)) && InUse(mid, wr + seg) && more <= dirty
    requires WereFree(links, lim, seg) && SameElsewhere(links, mid, LastOf(files[f]), seg)
    requires WereFree(mid, lim, dirty) && SameElsewhere(mid, after, LastOf(files[f] + seg), more)
    ensures WereFree(links, lim, seg + dirty) && SameElsewhere(links, after, LastOf(files[f]), seg + more)
    ensures seg + more <= seg + dirty && wr + seg + more == wr + (seg + more) && wr + seg + dirty == wr + (seg + dirty)
    ensures Grown(files, f, seg)[f] + more == files[f] + (seg + more) && (more == [] ==> seg + more == seg)
    ensures Grown(Grown(files, f, seg), f, more) == Grown(files, f, seg + more)
  {
    hide VolumeOk, WereFree, SameElsewhere, InUse, Grown, LastOf;
    LastUsed(mid, lim, files, f, seg);
    InUseParts(mid, wr, seg);
    GrownTwice(files, f, seg, more);
    AppendedTwice(links, mid, after, lim, LastOf(files[f]), seg, LastOf(files[f] + seg), more, dirty);
    ConcatAssoc(wr, seg, more);
    ConcatAssoc(wr, seg, dirty);
  }

  lemma SizesMore(g: Geo, size: nat, n: nat, more: nat)
    ensures Sum32(Sum32(size, g.ClusBytes(n)), g.ClusBytes(more)) == Sum32(size, g.ClusBytes(n + more))
  {
    hide Sum32;
    ClusBytesPlus(g, n, more);
    SumTwice(size, g.ClusBytes(n), g.ClusBytes(more));
  }

  /** The entry the new clusters are hung behind is in use before and after. */
  lemma LastStays(links: seq<Link>, after: seq<Link>, lim: nat, files: seq<seq<nat>>, f: nat, seg: seq<nat>)
    requires f < |files| && VolumeOk(links, lim, files) && VolumeOk(after, lim, Grown(files, f, seg))
    ensures Look(links, LastOf(files[f])) != Free && Look(after, LastOf(files[f])) != Free
  {
    ChainUsed(links, lim, files[f]);
    ChainUsed(after, lim, Grown(files, f, seg)[f]);
    assert Grown(files, f, seg)[f] == files[f] + seg;
    assert files[f] != [] ==> LastOf(files[f]) in files[f] + seg;
  }

  lemma ClusBytesPlus(g: Geo, a: nat, n: nat)
    ensures g.ClusBytes(a + n) == g.ClusBytes(a) + g.ClusBytes(n)
  {
    MulSum(a, n, g.ClusSize());
  }

  /** Clusters a buffer of `bytes` bytes takes up, in the 32-bit arithmetic of the source. */
  function ClusToWrite(g: Geo, bytes: nat): nat
    requires g.ClusSize() > 0
  {
    Div(U32(bytes + g.ClusSize() - 1), g.ClusSize())
  }

  /** They hold the buffer and no cluster too many, if and only if the sum does not wrap; if it does, no
      cluster is written. */
  lemma ClustersCover(g: Geo, bytes: nat)
    requires 0 < g.ClusSize() <= 0x8000_0000 && bytes < TWO32
    ensures var k := ClusToWrite(g, bytes);
      && (bytes + g.ClusSize() <= TWO32 ==> bytes <= g.ClusBytes(k) < bytes + g.ClusSize())
      && (bytes + g.ClusSize() > TWO32 ==> k == 0)
      && (bytes <= g.ClusBytes(k) <==> bytes + g.ClusSize() <= TWO32)
  {
    hide Geo.ClusBytes, Geo.ClusSize, Div, U32;
    var k := ClusToWrite(g, bytes);
    ClusBytesIs(g, k);
    if bytes + g.ClusSize() <= TWO32 {
      U32Small(bytes + g.ClusSize() - 1);
    } else {
      U32Wraps(bytes + g.ClusSize() - 1);
      NoneIn(bytes + g.ClusSize() - 1 - TWO32, g.ClusSize());
      ClusBytesIs(g, 0);
    }
  }

  lemma BufferCovered(fat: Fat, bytes: nat)
    requires Ready(fat)
    ensures bytes + fat.geo.ClusSize() <= TWO32 ==>
      var n := fat.geo.ClusBytes(ClusToWrite(fat.geo, bytes)); bytes <= n < bytes + fat.geo.ClusSize()
  {
    hide Ready, Geo.ClusBytes, Geo.ClusSize, ClusToWrite;
    SizeBound(fat);
    if bytes < TWO32 {
      ClustersCover(fat.geo, bytes);
    }
  }

  lemma U32Wraps(x: nat)
    requires TWO32 <= x < 2 * TWO32
    ensures U32(x) == x - TWO32
  {}

  lemma NoneIn(a: nat, d: nat)
    requires a < d
    ensures Div(a, d) == 0
  {}

  /** The size recorded once the end of the chain has been reached: rounded up to clusters, and at least
      what was written, in 32-bit arithmetic. */
  function Rounded(g: Geo, size: nat, written: nat): (r: Word32)
    requires g.ClusSize() > 0
  {
    var up := U32(g.ClusBytes(Div(U32(size + g.ClusSize() - 1), g.ClusSize())));
    var least := U32(g.ClusBytes(written));
    if up < least then least else up
  }

  lemma RoundedIs(g: Geo, size: nat, written: nat)
    requires g.ClusSize() > 0 && size + g.ClusSize() <= TWO32 && g.ClusBytes(written) < TWO32
    ensures var r := Rounded(g, size, written);
      g.ClusBytes(written) <= r && size <= r && (r < size + g.ClusSize() || r == g.ClusBytes(written))
  {
    hide Geo.ClusBytes, Geo.ClusSize, Div, U32;
    var q := Div(size + g.ClusSize() - 1, g.ClusSize());
    ClusBytesIs(g, q);
    U32Small(size + g.ClusSize() - 1);
    U32Small(g.ClusBytes(q));
    U32Small(g.ClusBytes(written));
  }

  /** A file of `size` bytes takes up `n` clusters. */
  ghost predicate SizeFits(g: Geo, size: nat, n: nat) {
    size <= g.ClusBytes(n) && (n > 0 ==> g.ClusBytes(n - 1) < size)
  }

  /** A file whose recorded size fits its `n` clusters has, after a store of `k` clusters that reaches its end
      and overwrites the last `tail` of them, a size of that many whole clusters. */
  lemma SizeFollows(g: Geo, size: nat, n: nat, tail: nat, k: nat)
    requires g.ClusSize() > 0 && SizeFits(g, size, n) && tail <= n && tail <= k
    requires size + g.ClusSize() <= TWO32 && g.ClusBytes(n + (k - tail)) < TWO32
    ensures Sum32(Rounded(g, size, tail), g.ClusBytes(k - tail)) == g.ClusBytes(n + (k - tail))
  {
    hide Geo.ClusBytes, Geo.ClusSize, Div, U32;
    var q := Div(size + g.ClusSize() - 1, g.ClusSize());
    U32Small(size + g.ClusSize() - 1);
    ClusBytesPlus(g, n, k - tail);
    ClusBytesPlus(g, tail, n - tail);
    CountIs(g, size, n, q);
    U32Small(g.ClusBytes(n));
    U32Small(g.ClusBytes(tail));
    U32Small(g.ClusBytes(n + (k - tail)));
  }

  lemma CountIs(g: Geo, size: nat, n: nat, q: nat)
    requires g.ClusSize() > 0 && SizeFits(g, size, n) && q == Div(size + g.ClusSize() - 1, g.ClusSize())
    ensures q == n
  {
    hide Geo.ClusSize, Div;
    if q < n {
      MulLe(q, n - 1, g.ClusSize());
    } else if n < q {
      MulLe(n, q - 1, g.ClusSize());
      MulSum(q - 1, 1, g.ClusSize());
    }
    MulSum(q, -1, g.ClusSize());
  }

  /** The clusters that a store of `k` clusters writes, from cluster `p` of the extended chain on. */
  function WrittenTo(ch: seq<nat>, seg: seq<nat>, p: nat, k: nat): seq<nat> {
    if p + k <= |ch + seg| then (ch + seg)[p..p + k] else []
  }

  /** The results of a store that wrote `n` clusters from cluster `p` of the chain `ch` on: as many new
      clusters as were needed, the last cluster written, and the new size. */
  ghost predicate Outcome(g: Geo, ch: seq<nat>, seg: seq<nat>, p: nat, n: nat, append: bool, lastClus: nat, size: nat,
                          total: nat, last: nat, newSize: nat)
    requires g.ClusSize() > 0 && p <= |ch|
  {
    var tail := |ch| - p;
    && |seg| == (if n > tail then n - tail else 0) && total == n
    && last == (if n == 0 then lastClus else LastOf(WrittenTo(ch, seg, p, n)))
    && newSize == (if append then Sum32(size, g.ClusBytes(n))
                   else if n < tail then size
                   else Sum32(Rounded(g, size, tail), g.ClusBytes(n - tail)))
  }

  /** What a store of `k` clusters that no failing transfer broke off has done. It has written them all, or
      what it could before the allocator found no more: the new clusters are those of `all`, what the allocator's
      calls hand out, the store ends as they do, and `left` is the cache they leave. */
  ghost predicate StoreDone(g: Geo, ch: seq<nat>, seg: seq<nat>, p: nat, k: nat, append: bool, lastClus: nat, size: nat,
                            all: Supplied, left: Cache, before: seq<seq<byte>>, after: seq<seq<byte>>, buf: seq<byte>,
                            st: Status, total: nat, last: nat, from: nat, newSize: nat)
    requires g.ClusSize() > 0 && p <= |ch|
  {
    var tail := |ch| - p;
    var n := if st == Ok then k else tail + |seg|;
    && (if k < tail then st == Ok else all == Supplied(st, seg, left)) && n <= k
    && Outcome(g, ch, seg, p, n, append, lastClus, size, total, last, newSize)
    && from == (if st == NoMore then (if seg == [] then 0 else last + 1)
                else if !append && k < tail then ch[p + k] else ALLOC)
    && Stored(before, after, buf, g.ClusSize(), WrittenTo(ch, seg, p, n))
  }

  /** fatfs__storefileclus_usefileinfo. File `f` of the volume is written from cluster `p` of its chain on
      (or appended to, for fromClus == ALLOC): first the clusters it has, then `seg`, newly linked ones. */
  method StoreFileClus(fat: Fat, free: FreeClusters, fInfo: FileInfo, buf: array<byte>, bytesToWrite: nat,
                       lastClus: nat, fromClus: nat, ghost files: seq<seq<nat>>, ghost f: nat, ghost p: nat)
    returns (st: Status, totalClusWriten: nat, last: nat, from: nat, ghost seg: seq<nat>, ghost dirty: seq<nat>)
    requires Ready(fat) && free.Valid() && buf != fat.FBuf
    requires VolumeOk(fat.links, fat.geo.ClusLimit(), files) && f < |files| && p <= |files[f]|
    requires fInfo.firstClus == FirstOf(files[f])
    requires if fromClus == ALLOC then p == |files[f]| && (lastClus == 0 || lastClus == LastOf(files[f]))
             else EntersAt(fInfo.firstClus, fromClus, files[f], p) && (files[f] == [] ==> lastClus == 0)
    requires CounterOk(free.freeClusters, fat.links, fat.geo.ClusLimit())
    requires PoolOk(fat.links, fat.geo.cntDataClus, free.State().runs)
    requires fat.geo.ClusBytes(ClusToWrite(fat.geo, bytesToWrite)) <= buf.Length
    requires var k, tail := ClusToWrite(fat.geo, bytesToWrite), |files[f]| - p;
      k > tail ==>
        Served(fat.links, fat.geo.cntDataClus, free.cl.Length, CLIST_SIZE, free.State(), Beyond(k, tail))
    modifies fat, fat.dev, fat.FBuf, free, free.cl, fInfo
    ensures Ready(fat) && free.Valid() && fat.accessPattern == old(fat.accessPattern)
    ensures CounterOk(free.freeClusters, fat.links, fat.geo.ClusLimit())
    ensures PoolOk(fat.links, fat.geo.cntDataClus, free.State().runs)
    ensures VolumeOk(fat.links, fat.geo.ClusLimit(), Grown(files, f, seg))
    ensures fInfo.firstClus == FirstOf(files[f] + seg)
    ensures WereFree(old(fat.links), fat.geo.ClusLimit(), dirty) && seg <= dirty
    ensures SameElsewhere(old(fat.links), fat.links, LastOf(files[f]), seg)
    ensures OnlyChanged(old(Content(fat)), Content(fat), files[f][p..] + dirty)
    ensures st in {Ok, DeviceError, NoMore}
    ensures st == DeviceError ==> !DataServed(fat.dev, fat.geo)
    ensures bytesToWrite + fat.geo.ClusSize() <= TWO32 ==>
      var n := fat.geo.ClusBytes(ClusToWrite(fat.geo, bytesToWrite));
      bytesToWrite <= n < bytesToWrite + fat.geo.ClusSize()
    ensures var k, tail := ClusToWrite(fat.geo, bytesToWrite), |files[f]| - p;
      st != DeviceError ==>
        && dirty == seg
        && StoreDone(fat.geo, files[f], seg, p, k, fromClus == ALLOC, lastClus, old(fInfo.newFileSize),
                     SuppliedFor(old(fat.links), fat.geo.cntDataClus, free.cl.Length, old(free.State()),
                                 Beyond(k, tail)), free.State(),
                     old(Content(fat)), Content(fat), buf[..], st, totalClusWriten, last, from, fInfo.newFileSize)
        && Noted(fat.geo, files[f], seg, Started(fat.geo, old(NotesOf(fInfo, free)), fromClus == ALLOC, k, tail),
                 NotesOf(fInfo, free))
  {
    hide Ready, Content, BufClus, OnDevice, Geo.ClusBytes, Geo.ClusSize, Stored, OnlyChanged, VolumeOk, PoolOk,
      CounterOk, Noted, Started, WereFree, SameElsewhere, Grown, DataServed, InUse, Served, EndOf, Provided,
      SuppliedFor, Beyond, IsChain, ClusToWrite, AllServed, FreeClusters.State, Rounded, WrittenTo, Sum32, LastOf,
      FirstOf, EntersAt, Outcome, StoreDone;
    ghost var before, ch := Content(fat), files[f];
    ghost var tail := ch[p..];
    StoreStart(fat.links, fat.geo.ClusLimit(), files, f, p, fat.geo, fat.dev);
    BufferCovered(fat, bytesToWrite);
    CounterSmall(free.freeClusters, fat.links, fat.geo.ClusLimit());
    NothingNoted(fat.geo, ch, NotesOf(fInfo, free), free.freeClusters);
    StartedIs(fat.geo, NotesOf(fInfo, free), fromClus == ALLOC, ClusToWrite(fat.geo, bytesToWrite), |tail|);
    NothingStored(before, buf[..], fat.geo, tail);
    totalClusWriten, last, from, seg, dirty := 0, lastClus, fromClus, [], [];
    var left: int := ClusToWrite(fat.geo, bytesToWrite);
    ghost var k, hi, cap, c0 := left, fat.geo.cntDataClus, free.cl.Length, free.State();
    var bufOff := 0;
    if fromClus != ALLOC {
      var allWritten;
      st, allWritten, left, totalClusWriten, last, from, bufOff :=
        StoreInside(fat, fInfo, buf, left, lastClus, fromClus, ch, p);
      if st != Ok || allWritten {
        if st == Ok {
          InsideOutcome(fat.geo, ch, p, k, lastClus, fInfo.newFileSize, before, Content(fat), buf[..],
                        SuppliedFor(fat.links, hi, cap, c0, Beyond(k, |tail|)), free.State(), totalClusWriten, last,
                        from);
        }
        return;
      }
    }
    assert |tail| == |ch| - p;
    ghost var all := NowProvided(fat.links, hi, cap, c0, k, |tail|, left);
    st, totalClusWriten, last, from, seg, dirty :=
      StoreBehind(fat, free, fInfo, buf, bufOff, left, totalClusWriten, last, files, f, p, before, k, fromClus == ALLOC,
                  lastClus, old(fInfo.newFileSize), all);
  }

  /** The extending half as the rest of a store of `k` clusters, of which `total` have been written. */
  method StoreBehind(fat: Fat, free: FreeClusters, fInfo: FileInfo, buf: array<byte>, off: nat, left: nat, total: nat,
                     lastClus: nat, ghost files: seq<seq<nat>>, ghost f: nat, ghost p: nat,
                     ghost before: seq<seq<byte>>, ghost k: nat, ghost append: bool, ghost last0: nat,
                     ghost size: nat, ghost all: Supplied)
    returns (st: Status, totalClusWriten: nat, last: nat, from: nat, ghost seg: seq<nat>, ghost dirty: seq<nat>)
    requires Ready(fat) && free.Valid() && buf != fat.FBuf && VolumeOk(fat.links, fat.geo.ClusLimit(), files)
    requires f < |files| && p <= |files[f]| && total == |files[f]| - p && left == k - total
    requires fInfo.firstClus == FirstOf(files[f]) && (lastClus == 0 || lastClus == LastOf(files[f]))
    requires CounterOk(free.freeClusters, fat.links, fat.geo.ClusLimit())
    requires PoolOk(fat.links, fat.geo.cntDataClus, free.State().runs)
    requires Provided(fat.links, fat.geo.cntDataClus, free.cl.Length, free.State(), left, all)
    requires off == fat.geo.ClusBytes(total) && fat.geo.ClusBytes(k) <= buf.Length
    requires Stored(before, Content(fat), buf[..], fat.geo.ClusSize(), files[f][p..])
    requires InUse(fat.links, files[f][p..])
    requires (append ==> p == |files[f]|) && lastClus == if p < |files[f]| then LastOf(files[f]) else last0
    requires fat.geo.ClusSize() > 0 && fInfo.newFileSize == if append then size else Rounded(fat.geo, size, total)
    modifies fat, fat.dev, fat.FBuf, free, free.cl, fInfo
    ensures Ready(fat) && free.Valid() && fat.accessPattern == old(fat.accessPattern)
    ensures CounterOk(free.freeClusters, fat.links, fat.geo.ClusLimit())
    ensures PoolOk(fat.links, fat.geo.cntDataClus, free.State().runs)
    ensures VolumeOk(fat.links, fat.geo.ClusLimit(), Grown(files, f, seg))
    ensures fInfo.firstClus == FirstOf(files[f] + seg)
    ensures WereFree(old(fat.links), fat.geo.ClusLimit(), dirty) && seg <= dirty
    ensures SameElsewhere(old(fat.links), fat.links, LastOf(files[f]), seg)
    ensures OnlyChanged(before, Content(fat), files[f][p..] + dirty)
    ensures st in {Ok, DeviceError, NoMore} && (st == DeviceError ==> !DataServed(fat.dev, fat.geo))
    ensures st != DeviceError ==>
      && dirty == seg
      && StoreDone(fat.geo, files[f], seg, p, k, append, last0, size, all, free.State(), before, Content(fat), buf[..],
                   st, totalClusWriten, last, from, fInfo.newFileSize)
      && Noted(fat.geo, files[f], seg, old(NotesOf(fInfo, free)), NotesOf(fInfo, free))
  {
    hide Ready, Content, BufClus, OnDevice, Geo.ClusBytes, Geo.ClusSize, Stored, OnlyChanged, VolumeOk, PoolOk,
      CounterOk, Noted, WereFree, SameElsewhere, Grown, DataServed, InUse, Provided, FreeClusters.State, Rounded, Sum32,
      LastOf, FirstOf, StoreDone;
    ghost var mid := fInfo.newFileSize;
    st, totalClusWriten, last, from, seg, dirty :=
      Extend(fat, free, fInfo, buf, off, left, lastClus, files, f, before, files[f][p..], all);
    totalClusWriten := total + totalClusWriten;
    if st != DeviceError {
      NotedSize(fat.geo, files[f], seg, old(NotesOf(fInfo, free)), NotesOf(fInfo, free));
      ExtendedOutcome(fat.geo, files[f], seg, p, k, append, last0, size, mid, all, free.State(), before, Content(fat),
                      buf[..], st, totalClusWriten, last, from, fInfo.newFileSize);
    }
  }

  /** How a store that no transfer breaks off ends, and what one that ends with Ok has done. */
  lemma StoreEnd(g: Geo, ch: seq<nat>, seg: seq<nat>, p: nat, k: nat, append: bool, lastClus: nat, size: nat,
                 all: Supplied, left: Cache, before: seq<seq<byte>>, after: seq<seq<byte>>, buf: seq<byte>, st: Status,
                 total: nat, last: nat, from: nat, newSize: nat)
    requires g.ClusSize() > 0 && p <= |ch|
    requires StoreDone(g, ch, seg, p, k, append, lastClus, size, all, left, before, after, buf, st, total, last,
                       from, newSize)
    ensures st == if k < |ch| - p then Ok else all.end
    ensures seg == if k < |ch| - p then [] else all.seg
    ensures st == Ok ==>
      && |seg| == (if k > |ch| - p then k - (|ch| - p) else 0)
      && Stored(before, after, buf, g.ClusSize(), WrittenTo(ch, seg, p, k))
      && (append ==> newSize == Sum32(size, g.ClusBytes(k)))
      && (!append && k < |ch| - p ==> newSize == size)
      && (!append && k >= |ch| - p ==>
            newSize == Sum32(Rounded(g, size, |ch| - p), g.ClusBytes(k - (|ch| - p))))
  {
    hide Stored, WrittenTo, Rounded, Sum32, Geo.ClusBytes, Geo.ClusSize;
  }

  /** How a store that is served will end. */
  lemma NowProvided(links: seq<Link>, hi: nat, cap: nat, c: Cache, k: nat, n: nat, req: nat) returns (all: Supplied)
    requires cap >= 1 && PoolOk(links, hi, c.runs) && req == k - n
    requires k > n ==> Served(links, hi, cap, CLIST_SIZE, c, Beyond(k, n))
    ensures all == SuppliedFor(links, hi, cap, c, Beyond(k, n)) && Provided(links, hi, cap, c, req, all)
  {
    hide Served, EndOf, Handed, LeftOver, PoolOk;
    ServedNothing(links, hi, cap, CLIST_SIZE, c);
    all := SuppliedFor(links, hi, cap, c, req);
  }

  /** The guard of a store is needed: if it comes to an end, leaving a volume whose files are chains, `f` grown by
      what the allocator handed out, and a cache of free clusters, then its calls were served. */
  lemma ServedNeeded(links: seq<Link>, after: seq<Link>, hi: nat, lim: nat, cap: nat, c: Cache, req: nat,
                     files: seq<seq<nat>>, f: nat)
    requires cap >= 1 && PoolOk(links, hi, c.runs) && f < |files|
    requires var all := SuppliedFor(links, hi, cap, c, req);
      && all.end != NoMore && VolumeOk(after, lim, Grown(files, f, all.seg)) && PoolOk(after, hi, all.left.runs)
    ensures Served(links, hi, cap, CLIST_SIZE, c, req)
  {
    hide Served, EndOf, Handed, LeftOver, Expand, IsChain, Distinct;
    var all := SuppliedFor(links, hi, cap, c, req);
    var ch := Grown(files, f, all.seg)[f];
    assert ch == files[f] + all.seg;
    ChainDistinct(after, lim, ch);
    ChainUsed(after, lim, ch);
    DistinctSplit(files[f], all.seg);
    ServedIff(links, hi, cap, CLIST_SIZE, c, req);
    forall x | x in Expand(all.left.runs)
      ensures x !in all.seg
    {
      assert Look(after, x) == Free;
      assert x in all.seg ==> x in ch;
    }
  }

  lemma InsideOutcome(g: Geo, ch: seq<nat>, p: nat, k: nat, lastClus: nat, size: nat, before: seq<seq<byte>>,
                      after: seq<seq<byte>>, buf: seq<byte>, all: Supplied, left: Cache, total: nat, last: nat,
                      from: nat)
    requires g.ClusSize() > 0 && p <= |ch| && k < |ch| - p && total == k && from == ch[p + k]
    requires last == if k == 0 then lastClus else LastOf(WrittenTo(ch, [], p, k))
    requires Stored(before, after, buf, g.ClusSize(), WrittenTo(ch, [], p, k))
    ensures StoreDone(g, ch, [], p, k, false, lastClus, size, all, left, before, after, buf, Ok, total, last, from,
                      size)
  {
    hide Stored, LastOf, WrittenTo, Geo.ClusSize, Geo.ClusBytes, Rounded, Sum32;
  }

  lemma ExtendedOutcome(g: Geo, ch: seq<nat>, seg: seq<nat>, p: nat, k: nat, append: bool, lastClus: nat, size: nat,
                        mid: nat, all: Supplied, left: Cache, before: seq<seq<byte>>, after: seq<seq<byte>>,
                        buf: seq<byte>, st: Status, total: nat, last: nat, from: nat, newSize: nat)
    requires g.ClusSize() > 0 && p <= |ch| && |ch| - p + |seg| <= k && total == |ch| - p + |seg|
    requires (append ==> p == |ch|) && all == Supplied(st, seg, left)
    requires st in {Ok, NoMore} && (st == Ok ==> |seg| == k - (|ch| - p))
    requires last == if |seg| == 0 then (if p < |ch| then LastOf(ch) else lastClus) else LastOf(ch + seg)
    requires mid == (if append then size else Rounded(g, size, |ch| - p)) && newSize == Sum32(mid, g.ClusBytes(|seg|))
    requires from == if st == Ok then ALLOC else if seg == [] then 0 else last + 1
    requires Stored(before, after, buf, g.ClusSize(), ch[p..] + seg)
    ensures StoreDone(g, ch, seg, p, k, append, lastClus, size, all, left, before, after, buf, st, total, last, from,
                      newSize)
  {
    hide Stored, LastOf, WrittenTo, Geo.ClusSize, Geo.ClusBytes, Rounded, Sum32;
    WrittenPart(ch, p, |ch| - p + |seg|, seg);
  }

  /** The overwriting half: the clusters the file has from cluster `p` on, and the size rounded up when there
      is more to write. */
  method StoreInside(fat: Fat, fInfo: FileInfo, buf: array<byte>, k: nat, lastClus: nat, fromClus: nat,
                     ghost ch: seq<nat>, ghost p: nat)
    returns (st: Status, allWritten: bool, left: int, total: nat, last: nat, from: nat, bufOff: nat)
    requires Ready(fat) && buf != fat.FBuf && fat.geo.ClusBytes(k) <= buf.Length && p <= |ch|
    requires fat.links[0] == End && IsChain(fat.links, fat.geo.ClusLimit(), ch)
    requires fInfo.firstClus == FirstOf(ch) && EntersAt(fInfo.firstClus, fromClus, ch, p)
    requires ch == [] ==> lastClus == 0
    modifies fat`curFatStartEntry, fat`curFatEndEntry, fat`curFatPartStartSecAbs, fat`curFatEndSecAbs,
      fat`fatUpdated, fat.dev, fat.FBuf, fInfo`newFileSize, fInfo`updated
    ensures Ready(fat) && (st == Ok || st == DeviceError) && OnlyChanged(old(Content(fat)), Content(fat), ch[p..])
    ensures st == DeviceError ==> !AllServed(fat.dev, fat.geo, ch[p..])
    ensures st == Ok ==> allWritten == (k < |ch| - p)
    ensures st == Ok && allWritten ==>
      && total == k && Stored(old(Content(fat)), Content(fat), buf[..], fat.geo.ClusSize(), WrittenTo(ch, [], p, k))
      && from == ch[p + k] && last == (if k == 0 then lastClus else LastOf(WrittenTo(ch, [], p, k)))
      && fInfo.newFileSize == old(fInfo.newFileSize) && fInfo.updated == old(fInfo.updated)
    ensures st == Ok && !allWritten ==>
      && total == |ch| - p && left == k - total && bufOff == fat.geo.ClusBytes(total)
      && Stored(old(Content(fat)), Content(fat), buf[..], fat.geo.ClusSize(), ch[p..])
      && (last == 0 || last == LastOf(ch)) && last == (if p < |ch| then LastOf(ch) else lastClus)
      && fInfo.newFileSize == Rounded(fat.geo, old(fInfo.newFileSize), total)
      && fInfo.updated == old(fInfo.updated) + {Size}
  {
    hide Ready, Content, OnDevice, Geo.ClusBytes, Geo.ClusSize, Stored, OnlyChanged, IsChain, AllServed, Rounded,
      WrittenTo, LastOf, FirstOf;
    EntersInside(fat.links, fat.geo.ClusLimit(), fInfo.firstClus, fromClus, ch, p);
    ChainTail(fat.links, fat.geo.ClusLimit(), ch, p);
    st, allWritten, left, total, last, from, bufOff :=
      Overwrite(fat, fInfo.firstClus, buf, k, lastClus, fromClus, ch[p..]);
    if st != Ok {
      return;
    }
    if allWritten {
      WrittenPart(ch, p, k, []);
      return;
    }
    WholeTail(ch, p, k);
    fInfo.newFileSize := Rounded(fat.geo, fInfo.newFileSize, total);
    fInfo.updated := fInfo.updated + {Size};
  }

  /** A file with clusters is never entered behind its last one. */
  lemma EntersInside(links: seq<Link>, lim: nat, firstClus: nat, fromClus: nat, ch: seq<nat>, p: nat)
    requires IsChain(links, lim, ch) && firstClus == FirstOf(ch) && EntersAt(firstClus, fromClus, ch, p)
    ensures ch == [] || (p < |ch| && LastOf(ch) == ch[p..][|ch[p..]| - 1])
    ensures EntersAt(firstClus, fromClus, ch[p..], 0)
  {
    assert ch[p..][0..] == ch[p..];
  }

  lemma StoreStart(links: seq<Link>, lim: nat, files: seq<seq<nat>>, f: nat, p: nat, g: Geo, dev: Device)
    requires VolumeOk(links, lim, files) && f < |files| && p <= |files[f]| && lim == g.ClusLimit()
    ensures links != [] && links[0] == End && IsChain(links, lim, files[f])
    ensures IsChain(links, lim, files[f][p..]) && InUse(links, files[f][p..])
    ensures Grown(files, f, []) == files && files[f] + [] == files[f] && files[f][p..] + [] == files[f][p..]
    ensures WereFree(links, lim, []) && SameElsewhere(links, links, LastOf(files[f]), [])
    ensures DataServed(dev, g) ==> AllServed(dev, g, files[f][p..])
  {
    GrownTwice(files, f, [], []);
    ChainTail(links, lim, files[f], p);
    ChainUsed(links, lim, files[f][p..]);
  }

  lemma WrittenPart(ch: seq<nat>, p: nat, k: nat, seg: seq<nat>)
    requires p <= |ch|
    ensures k <= |ch[p..]| ==>
      WrittenTo(ch, [], p, k) == ch[p..][..k] && (k > 0 ==> LastOf(WrittenTo(ch, [], p, k)) == ch[p..][k - 1])
    ensures k == |ch[p..] + seg| ==>
      && WrittenTo(ch, seg, p, k) == ch[p..] + seg
      && (k > 0 ==> LastOf(WrittenTo(ch, seg, p, k)) == LastOf(if seg == [] then ch[p..] else ch + seg))
    ensures k == |ch[p..]| ==> ch[p..][..k] == ch[p..]
    ensures p < |ch| ==> LastOf(ch[p..]) == LastOf(ch)
  {
    assert ch + [] == ch;
  }

  /** All of a file has been overwritten. */
  lemma WholeTail(ch: seq<nat>, p: nat, k: nat)
    requires p <= |ch| && k >= |ch| - p
    ensures Min(k, |ch[p..]|) == |ch[p..]| == |ch| - p && ch[p..][..Min(k, |ch[p..]|)] == ch[p..]
    ensures p < |ch| ==> ch[p..][|ch[p..]| - 1] == LastOf(ch)
  {}
}
