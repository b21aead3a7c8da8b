/** Reading whole clusters of a file through the run list. */
module FileLoad {
  import opened Bytes
  import opened Geometry
  import opened BlockDevice
  import opened FatEntries
  import opened FatWindow
  import opened Volume
  import opened Chains
  import opened ChainOps

  const CLIST_SIZE: nat := 16

  /** The buffer holds the first `n` clusters of the chain, in order. */
  ghost predicate Holds(buf: seq<byte>, size: nat, content: seq<seq<byte>>, ch: seq<nat>, n: nat) {
    n <= |ch| && forall j :: 0 <= j < n ==> 2 <= ch[j] < |content| + 2 && BufClus(buf, size, j) == content[ch[j] - 2]
  }

  /** The device can transfer every cluster of the chain. */
  ghost predicate AllServed(dev: Device, g: Geo, ch: seq<nat>) {
    forall c :: c in ch ==> dev.Serves(g.SecOfClus(c), g.secPerClus)
  }

  /** A run is transferred if each of its clusters can be. */
  lemma {:induction false} RunServed(dev: Device, g: Geo, base: nat, n: nat)
    requires forall c :: base <= c < base + n ==> dev.Serves(g.SecOfClus(c), g.secPerClus)
    requires 0 <= g.SecOfClus(base) <= dev.totSecs && base >= 2
    ensures dev.Serves(g.SecOfClus(base), n * g.secPerClus)
  {
    if n > 0 {
      RunServed(dev, g, base, n - 1);
      MulSum(n - 1, 1, g.secPerClus);
      MulSum(base - 2, n - 1, g.secPerClus);
      assert dev.Serves(g.SecOfClus(base + n - 1), g.secPerClus);
    }
  }

  /** The clusters of the run are those of the chain from `at` on. */
  ghost predicate RunOnChain(ch: seq<nat>, at: nat, r: Run) {
    Within(ch, at, Clusters(r))
  }

  lemma BatchRunOnChain(ch: seq<nat>, done: nat, rs: seq<Run>, i: nat)
    requires Within(ch, done, Expand(rs)) && i < |rs|
    ensures Before(rs, i + 1) == Before(rs, i) + rs[i].Count() <= Total(rs)
    ensures RunOnChain(ch, done + Before(rs, i), rs[i])
  {
    hide Expand, Total, Clusters, Before, Within;
    RunAt(rs, i);
    WithinWithin(ch, done, Expand(rs), Before(rs, i), Clusters(rs[i]));
  }

  /** bd->get_sectors for the first `n` clusters of a run of the chain. */
  method ReadRun(fat: Fat, r: Run, n: nat, buf: array<byte>, off: nat, ghost ch: seq<nat>, ghost pos: nat)
    returns (st: Status)
    requires Ready(fat) && buf != fat.FBuf && IsChain(fat.links, fat.geo.ClusLimit(), ch)
    requires RunOnChain(ch, pos, r) && n <= r.Count()
    requires off == fat.geo.ClusBytes(pos) && fat.geo.ClusBytes(pos + n) <= buf.Length
    requires Holds(buf[..], fat.geo.ClusSize(), Content(fat), ch, pos)
    modifies buf
    ensures Ready(fat) && (st == Ok || st == DeviceError)
    ensures st == Ok ==> Holds(buf[..], fat.geo.ClusSize(), Content(fat), ch, pos + n)
    ensures st == DeviceError ==> !AllServed(fat.dev, fat.geo, ch)
    ensures forall k: nat :: pos + n <= k && fat.geo.ClusBytes(k) <= buf.Length ==>
      buf[fat.geo.ClusBytes(k)..] == old(buf[fat.geo.ClusBytes(k)..])
  {
    hide Ready, Content, BufClus, OnDevice, Geo.ClusBytes, Geo.ClusSize, Geo.SecOfClus, Device.Serves;
    RunBounds(fat.links, fat.geo.ClusLimit(), ch, pos, r);
    ghost var before := buf[..];
    st := GetClusters(fat, r.base, n, buf, off, pos);
    forall k: nat | pos + n <= k && fat.geo.ClusBytes(k) <= buf.Length
      ensures buf[fat.geo.ClusBytes(k)..] == before[fat.geo.ClusBytes(k)..]
    {
      SameTail(fat.geo, before, buf[..], pos + n, k);
    }
    if st == Ok {
      forall j | pos <= j < pos + n
        ensures 2 <= ch[j] < fat.geo.ClusLimit() && ch[j] == r.base + (j - pos)
      {
        RunElement(ch, pos, r, j - pos);
      }
    } else if AllServed(fat.dev, fat.geo, ch) {
      forall c | r.base <= c < r.base + n
        ensures fat.dev.Serves(fat.geo.SecOfClus(c), fat.geo.secPerClus)
      {
        RunElement(ch, pos, r, c - r.base);
      }
      StartServed(fat.dev, fat.geo, r.base);
      RunServed(fat.dev, fat.geo, r.base, n);
    }
  }

  lemma StartServed(dev: Device, g: Geo, base: nat)
    requires OnDevice(dev, g) && 2 <= base < g.ClusLimit()
    ensures 0 <= g.SecOfClus(base) <= dev.totSecs
  {
    RunPlace(dev, g, base, 0);
  }

  lemma RunElement(ch: seq<nat>, pos: nat, r: Run, x: nat)
    requires RunOnChain(ch, pos, r) && x < r.Count()
    ensures ch[pos + x] == r.base + x && ch[pos + x] in ch
  {
    assert ch[pos..pos + |Clusters(r)|][x] == Clusters(r)[x];
  }

  lemma RunBounds(links: seq<Link>, lim: nat, ch: seq<nat>, pos: nat, r: Run)
    requires IsChain(links, lim, ch) && RunOnChain(ch, pos, r)
    ensures 2 <= r.base && r.base + r.Count() <= lim
  {
    RunElement(ch, pos, r, 0);
    RunElement(ch, pos, r, r.adj);
  }

  lemma ClusBytesMono(g: Geo, a: nat, b: nat)
    requires a <= b
    ensures g.ClusBytes(a) <= g.ClusBytes(b)
  {
    MulLe(a, b, g.ClusSize());
  }

  lemma SameTail(g: Geo, before: seq<byte>, after: seq<byte>, a: nat, b: nat)
    requires a <= b && |before| == |after| && g.ClusBytes(a) <= |after| && g.ClusBytes(b) <= |after|
    requires after[g.ClusBytes(a)..] == before[g.ClusBytes(a)..]
    ensures after[g.ClusBytes(b)..] == before[g.ClusBytes(b)..]
  {
    hide Geo.ClusBytes;
    ClusBytesMono(g, a, b);
    var x, y := g.ClusBytes(a), g.ClusBytes(b);
    assert after[y..] == after[x..][y - x..] && before[y..] == before[x..][y - x..];
  }

  /** The inner loop of fatfs__loadfileclus_usefileinfo. `remaining` is totalPosClus2Read, the clusters the
      request still has room for; the runs cover ch[done..]. */
  method ReadRuns(fat: Fat, cl: array<Run>, clSize: nat, buf: array<byte>, off: nat, remaining: nat,
                  fromClus: nat, lastClus: nat, ghost ch: seq<nat>, ghost done: nat)
    returns (st: Status, read: nat, outOfMemory: bool, left: int, from: nat, last: nat)
    requires Ready(fat) && buf != fat.FBuf && IsChain(fat.links, fat.geo.ClusLimit(), ch)
    requires clSize <= cl.Length && Within(ch, done, Expand(cl[..clSize]))
    requires off == fat.geo.ClusBytes(done) && fat.geo.ClusBytes(done + remaining) <= buf.Length
    requires Holds(buf[..], fat.geo.ClusSize(), Content(fat), ch, done)
    modifies buf
    ensures Ready(fat) && (st == Ok || st == DeviceError)
    ensures st == DeviceError ==> !AllServed(fat.dev, fat.geo, ch)
    ensures from == fromClus || from in ch
    ensures buf[fat.geo.ClusBytes(done + remaining)..] == old(buf[fat.geo.ClusBytes(done + remaining)..])
    ensures var total := Total(cl[..clSize]); var n := Min(total, remaining);
      st == Ok ==>
        && read == n && Holds(buf[..], fat.geo.ClusSize(), Content(fat), ch, done + n)
        && outOfMemory == (remaining < total) && done + total <= |ch|
        && (!outOfMemory ==> left == remaining - total && from == fromClus)
        && (outOfMemory ==> from == ch[done + remaining])
        && last == (if n > 0 then ch[done + n - 1] else lastClus)
  {
    hide Ready, Content, BufClus, OnDevice, Geo.ClusBytes, Geo.ClusSize, Holds, AllServed, Expand, Total, Before,
      RunOnChain, IsChain;
    ghost var rs, k := cl[..clSize], done + remaining;
    outOfMemory, left, from, last, read := false, remaining, fromClus, lastClus, 0;
    var iCur, n := 0, 0;
    var bufOff := off;
    BeforeEnds(rs);
    assert done + Total(rs) <= |ch|;
    while iCur < clSize && !outOfMemory
      invariant Ready(fat) && 0 <= iCur <= clSize && done + read <= |ch|
      invariant bufOff == fat.geo.ClusBytes(done + read)
      invariant Holds(buf[..], fat.geo.ClusSize(), Content(fat), ch, done + read)
      invariant buf[fat.geo.ClusBytes(k)..] == old(buf[fat.geo.ClusBytes(k)..])
      invariant !outOfMemory ==> read == Before(rs, iCur) <= remaining && left == remaining - read && from == fromClus
      invariant outOfMemory ==> read == remaining < Total(rs) && from == ch[k]
      invariant last == if read > 0 then ch[done + read - 1] else lastClus
    {
      BatchRunOnChain(ch, done, rs, iCur);
      st, n, outOfMemory, left, from, last, bufOff :=
        ReadStep(fat, cl[iCur], buf, bufOff, left, from, last, ch, done + read, k);
      if st != Ok {
        return;
      }
      read := read + n;
      iCur := iCur + 1;
    }
    st := Ok;
  }

  /** One round of that loop. */
  method ReadStep(fat: Fat, r: Run, buf: array<byte>, off: nat, remaining: nat, fromClus: nat, lastClus: nat,
                  ghost ch: seq<nat>, ghost pos: nat, ghost k: nat)
    returns (st: Status, n: nat, outOfMemory: bool, left: int, from: nat, last: nat, bufOff: nat)
    requires Ready(fat) && buf != fat.FBuf && IsChain(fat.links, fat.geo.ClusLimit(), ch) && RunOnChain(ch, pos, r)
    requires off == fat.geo.ClusBytes(pos) && pos + remaining == k && fat.geo.ClusBytes(k) <= buf.Length
    requires Holds(buf[..], fat.geo.ClusSize(), Content(fat), ch, pos)
    modifies buf
    ensures Ready(fat) && (st == Ok || st == DeviceError)
    ensures st == DeviceError ==> !AllServed(fat.dev, fat.geo, ch)
    ensures from == fromClus || from in ch
    ensures buf[fat.geo.ClusBytes(k)..] == old(buf[fat.geo.ClusBytes(k)..])
    ensures st == Ok ==>
      && n == Min(r.Count(), remaining) && left == remaining - r.Count() && outOfMemory == (left < 0)
      && Holds(buf[..], fat.geo.ClusSize(), Content(fat), ch, pos + n) && bufOff == fat.geo.ClusBytes(pos + n)
      && pos + n <= |ch|
      && (if outOfMemory then k < |ch| && from == ch[k] else from == fromClus)
      && last == (if n > 0 then ch[pos + n - 1] else lastClus)
  {
    hide Ready, Content, BufClus, OnDevice, Geo.ClusBytes, Geo.ClusSize, Holds, AllServed, IsChain;
    outOfMemory, from, last, bufOff := false, fromClus, lastClus, off;
    left := remaining - r.Count();
    if left >= 0 {
      n := r.Count();
    } else {
      n := r.Count() + left;
      from := r.base + n;
      outOfMemory := true;
      RunElement(ch, pos, r, n);
    }
    ClusBytesMono(fat.geo, pos + n, k);
    st := ReadRun(fat, r, n, buf, off, ch, pos);
    if st != Ok {
      return;
    }
    if n != 0 {
      last := r.base + (n - 1);
      RunElement(ch, pos, r, n - 1);
    }
    ClusBytesSum(fat.geo, pos, n);
    bufOff := off + n * fat.geo.secPerClus * fat.geo.bytPerSec;
  }

  lemma ClusBytesIs(g: Geo, k: nat)
    ensures g.ClusBytes(k) == k * g.ClusSize()
  {}

  lemma ClusBytesSum(g: Geo, a: nat, n: nat)
    ensures g.ClusBytes(a + n) == g.ClusBytes(a) + n * g.secPerClus * g.bytPerSec
  {
    MulSum(a, n, g.ClusSize());
    MulAssoc(n, g.secPerClus, g.bytPerSec);
  }

  /** A batch taken from cluster `done` of the chain on. */
  lemma BatchFrom(links: seq<Link>, lim: nat, ch: seq<nat>, done: nat, n: nat, st: Status, rs: seq<Run>, from: nat)
    requires links != [] && links[0] == End && IsChain(links, lim, ch) && n >= 1 && done <= |ch|
    requires Batch(links, FirstOf(ch[done..]), n, st, rs, from)
    ensures var end := done + Total(rs);
      && Within(ch, done, Expand(rs)) && end <= |ch|
      && (if end == |ch| then st == Ok else st == TryAgain && done < end && from == ch[end] >= 2)
      && (forall start: nat ::
            LastStart(Runs(ch[done..]), n, start) == if st == Ok then start else LastStart(Runs(ch[end..]), n, from))
  {
    hide Expand, Total, Batch, IsChain, Within, Runs, LastStart;
    var tail := ch[done..];
    ChainTail(links, lim, ch, done);
    BatchOnChain(links, lim, tail, n, st, rs, from);
    BatchSize(links, FirstOf(tail), n, st, rs, from);
    TailFront(ch, done, Expand(rs));
    assert tail[Total(rs)..] == ch[done + Total(rs)..];
    if done + Total(rs) < |ch| {
      ChainCluster(links, lim, ch, done + Total(rs));
      RunsFirst(ch[done + Total(rs)..]);
      LastStartStep(rs, Runs(ch[done + Total(rs)..]), n);
    } else {
      NoRuns();
      assert rs + [] == rs;
      LastStartStep([], rs, n);
    }
  }

  /** The cluster from which the last of several batches of `n` runs starts; `start` if there is only one. */
  function LastStart(rs: seq<Run>, n: nat, start: nat): nat
    requires n >= 1
  {
    if |rs| <= n then start else LastStart(rs[n..], n, rs[n].base)
  }

  lemma LastStartStep(a: seq<Run>, b: seq<Run>, n: nat)
    requires n >= 1
    ensures |a| == n && b != [] ==> forall start: nat :: LastStart(a + b, n, start) == LastStart(b, n, b[0].base)
    ensures |b| <= n ==> forall start: nat :: LastStart(b, n, start) == start
  {
    assert |a| == n ==> (a + b)[n..] == b;
  }

  lemma BatchSize(links: seq<Link>, start: nat, n: nat, st: Status, rs: seq<Run>, from: nat)
    requires Batch(links, start, n, st, rs, from)
    ensures |rs| <= n && (st == TryAgain ==> |rs| == n)
  {}

  lemma TailFront(ch: seq<nat>, done: nat, e: seq<nat>)
    requires done <= |ch| && |e| <= |ch| - done && e == ch[done..][..|e|]
    ensures Within(ch, done, e)
  {}

  lemma ChainCluster(links: seq<Link>, lim: nat, ch: seq<nat>, k: nat)
    requires IsChain(links, lim, ch) && k < |ch|
    ensures 2 <= ch[k] < lim
  {}

  /** Where the chain is entered: cluster `p` of it, or its beginning for 0. */
  ghost predicate EntersAt(firstClus: nat, fromClus: nat, ch: seq<nat>, p: nat) {
    p <= |ch| && (if fromClus == 0 then firstClus else fromClus) == FirstOf(ch[p..])
  }

  lemma EntersBound(firstClus: nat, fromClus: nat, ch: seq<nat>, p: nat)
    requires EntersAt(firstClus, fromClus, ch, p)
    ensures p <= |ch|
  {}

  /** The whole clusters of a request. */
  function ClusToRead(g: Geo, bytesToRead: nat): (k: nat)
    requires g.ClusSize() > 0
    ensures g.ClusBytes(k) <= bytesToRead < g.ClusBytes(k) + g.ClusSize()
  {
    Div(bytesToRead, g.ClusSize())
  }

  /** What a call of the cluster reader for `k` clusters of the chain `ch`, entered at `start`, has done. */
  ghost predicate Loaded(content: seq<seq<byte>>, size: nat, ch: seq<nat>, k: nat, start: nat,
                         st: Status, n: nat, buf: seq<byte>, last: nat, from: nat)
  {
    && n == Min(k, |ch|) && Holds(buf, size, content, ch, n)
    && st == (if k < |ch| then TryAgain else Ok) && (st == TryAgain ==> from == ch[k])
    && last == (if n > 0 then ch[n - 1] else start)
  }

  /** One round of fatfs__loadfileclus_usefileinfo: a batch of runs is fetched and read. */
  method LoadRound(fat: Fat, firstClus: nat, cl: array<Run>, buf: array<byte>, off: nat, remaining: nat, fromClus: nat,
                   lastClus: nat, ghost ch: seq<nat>, ghost done: nat)
    returns (resOCL: Status, st: Status, read: nat, outOfMemory: bool, left: int, from: nat, last: nat)
    requires Ready(fat) && buf != fat.FBuf && fat.links[0] == End && IsChain(fat.links, fat.geo.ClusLimit(), ch)
    requires cl.Length == CLIST_SIZE && EntersAt(firstClus, fromClus, ch, done)
    requires off == fat.geo.ClusBytes(done) && fat.geo.ClusBytes(done + remaining) <= buf.Length
    requires Holds(buf[..], fat.geo.ClusSize(), Content(fat), ch, done)
    modifies fat`curFatStartEntry, fat`curFatEndEntry, fat`curFatPartStartSecAbs, fat`curFatEndSecAbs,
      fat`fatUpdated, fat.dev, fat.FBuf, buf, cl
    ensures Ready(fat) && Content(fat) == old(Content(fat)) && (from == fromClus || from in ch)
    ensures buf[fat.geo.ClusBytes(done + remaining)..] == old(buf[fat.geo.ClusBytes(done + remaining)..])
    ensures st in {Ok, DeviceError} && resOCL in {Ok, TryAgain}
    ensures st == DeviceError ==> !AllServed(fat.dev, fat.geo, ch)
    ensures st == Ok ==>
      && read <= remaining && done + read <= |ch| && Holds(buf[..], fat.geo.ClusSize(), Content(fat), ch, done + read)
      && last == (if read > 0 then ch[done + read - 1] else lastClus)
      && (if outOfMemory then read == remaining && done + read < |ch| && from == ch[done + read]
          else left == remaining - read)
    ensures st == Ok && !outOfMemory && resOCL == Ok ==>
      done + read == |ch| && from == LastStart(Runs(ch[done..]), CLIST_SIZE, fromClus)
    ensures st == Ok && !outOfMemory && resOCL == TryAgain ==>
      && read > 0 && EntersAt(firstClus, from, ch, done + read)
      && LastStart(Runs(ch[done + read..]), CLIST_SIZE, from) == LastStart(Runs(ch[done..]), CLIST_SIZE, fromClus)
  {
    hide Ready, Content, BufClus, OnDevice, Geo.ClusBytes, Geo.ClusSize, Holds, AllServed, Expand, Total, Batch,
      IsChain, Within, Runs, LastStart, EntersAt, FirstOf;
    EntersWhere(firstClus, fromClus, ch, done);
    outOfMemory, left, last, read, st := false, remaining, lastClus, 0, Ok;
    var size;
    resOCL, size, from := GetOptiClusList(fat, firstClus, cl, CLIST_SIZE, fromClus);
    BatchFrom(fat.links, fat.geo.ClusLimit(), ch, done, CLIST_SIZE, resOCL, cl[..size], from);
    if resOCL == TryAgain {
      EntersNext(fat.links, fat.geo.ClusLimit(), firstClus, from, ch, done + Total(cl[..size]));
    }
    st, read, outOfMemory, left, from, last := ReadRuns(fat, cl, size, buf, off, remaining, from, lastClus, ch, done);
  }

  /** fatfs__loadfileclus_usefileinfo: reads `bytesToRead / clusSize` clusters from the cluster fromClus
      on, or as many as the file still has. `ch` is what remains of the file's chain. The result is Ok
      exactly when that many clusters reach the end of the chain, and otherwise the call can be resumed. */
  method LoadFileClus(fat: Fat, firstClus: nat, buf: array<byte>, bytesToRead: nat, fromClus: nat, ghost ch: seq<nat>)
    returns (st: Status, totalClusRead: nat, lastClusRead: nat, from: nat)
    requires Ready(fat) && buf != fat.FBuf
    requires fat.links[0] == End && IsChain(fat.links, fat.geo.ClusLimit(), ch) && EntersAt(firstClus, fromClus, ch, 0)
    requires fat.geo.ClusBytes(ClusToRead(fat.geo, bytesToRead)) <= buf.Length
    modifies fat`curFatStartEntry, fat`curFatEndEntry, fat`curFatPartStartSecAbs, fat`curFatEndSecAbs,
      fat`fatUpdated, fat.dev, fat.FBuf, buf
    ensures Ready(fat) && Content(fat) == old(Content(fat))
    ensures st == DeviceError ==> !AllServed(fat.dev, fat.geo, ch)
    ensures var k := ClusToRead(fat.geo, bytesToRead);
      && buf[fat.geo.ClusBytes(k)..] == old(buf[fat.geo.ClusBytes(k)..])
      && (st != DeviceError ==>
            && Loaded(Content(fat), fat.geo.ClusSize(), ch, k, fromClus, st, totalClusRead, buf[..], lastClusRead, from)
            && (st == Ok ==> from == LastStart(Runs(ch), CLIST_SIZE, fromClus)))
      && (st == DeviceError ==> from == fromClus || from in ch)
  {
    hide Ready, Content, BufClus, OnDevice, Geo.ClusBytes, Geo.ClusSize, Holds, AllServed, IsChain, ClusToRead, Runs,
      LastStart, EntersAt, Loaded;
    var cl := new Run[CLIST_SIZE];
    var left := ClusToRead(fat.geo, bytesToRead);
    ghost var k := left;
    totalClusRead, lastClusRead, from := 0, fromClus, fromClus;
    var bufOff, outOfMemory, resOCL, read := 0, false, TryAgain, 0;
    HoldsNone(buf[..], fat.geo, Content(fat), ch);
    assert ch[0..] == ch;
    while resOCL != Ok && !outOfMemory
      invariant Ready(fat) && Content(fat) == old(Content(fat)) && fresh(cl)
      invariant totalClusRead <= |ch| && totalClusRead <= k && bufOff == fat.geo.ClusBytes(totalClusRead)
      invariant Holds(buf[..], fat.geo.ClusSize(), Content(fat), ch, totalClusRead)
      invariant buf[fat.geo.ClusBytes(k)..] == old(buf[fat.geo.ClusBytes(k)..])
      invariant lastClusRead == if totalClusRead > 0 then ch[totalClusRead - 1] else fromClus
      invariant outOfMemory ==> totalClusRead == k < |ch| && from == ch[k]
      invariant !outOfMemory ==> left == k - totalClusRead && resOCL in {Ok, TryAgain}
      invariant !outOfMemory && resOCL == Ok ==>
        totalClusRead == |ch| && from == LastStart(Runs(ch), CLIST_SIZE, fromClus)
      invariant !outOfMemory && resOCL != Ok ==>
        EntersAt(firstClus, from, ch, totalClusRead)
        && LastStart(Runs(ch[totalClusRead..]), CLIST_SIZE, from) == LastStart(Runs(ch), CLIST_SIZE, fromClus)
      invariant from == fromClus || from in ch
      decreases |ch| - totalClusRead, resOCL != Ok && !outOfMemory
    {
      ghost var done := totalClusRead;
      resOCL, st, read, outOfMemory, left, from, lastClusRead :=
        LoadRound(fat, firstClus, cl, buf, bufOff, left, from, lastClusRead, ch, done);
      if st != Ok {
        return;
      }
      totalClusRead := totalClusRead + read;
      bufOff := bufOff + read * fat.geo.secPerClus * fat.geo.bytPerSec;
      ClusBytesSum(fat.geo, done, read);
    }
    st := if outOfMemory then TryAgain else resOCL;
    LoadedIs(Content(fat), fat.geo.ClusSize(), ch, k, fromClus, st, totalClusRead, buf[..], lastClusRead, from);
  }

  lemma LoadedIs(content: seq<seq<byte>>, size: nat, ch: seq<nat>, k: nat, start: nat, st: Status, n: nat,
                 buf: seq<byte>, last: nat, from: nat)
    requires n <= k && n <= |ch| && (n == k || n == |ch|) && Holds(buf, size, content, ch, n)
    requires st == (if k < |ch| then TryAgain else Ok) && (k < |ch| ==> from == ch[k])
    requires last == if n > 0 then ch[n - 1] else start
    ensures Loaded(content, size, ch, k, start, st, n, buf, last, from)
  {
    hide Holds;
  }

  lemma EntersWhere(firstClus: nat, fromClus: nat, ch: seq<nat>, p: nat)
    ensures EntersAt(firstClus, fromClus, ch, p) ==>
      p <= |ch| && (if fromClus == 0 then firstClus else fromClus) == FirstOf(ch[p..])
  {}

  lemma EntersNext(links: seq<Link>, lim: nat, firstClus: nat, fromClus: nat, ch: seq<nat>, p: nat)
    requires IsChain(links, lim, ch) && p < |ch| && fromClus == ch[p]
    ensures EntersAt(firstClus, fromClus, ch, p)
  {
    ChainCluster(links, lim, ch, p);
    assert ch[p..][0] == ch[p];
  }

  lemma HoldsNone(buf: seq<byte>, g: Geo, content: seq<seq<byte>>, ch: seq<nat>)
    ensures Holds(buf, g.ClusSize(), content, ch, 0) && g.ClusBytes(0) == 0
  {}

  /** Whether a buffer has room for `n` clusters. */
  predicate HasRoom(buf: seq<byte>, size: nat, n: nat) {
    n * size <= |buf|
  }

  /** The first `n` clusters of a buffer. */
  function FrontOf(buf: seq<byte>, size: nat, n: nat): seq<byte>
    requires HasRoom(buf, size, n)
  {
    MulLe(0, n, size);
    buf[..n * size]
  }

  /** A call that stops early can be resumed at `from1`; the two together are one call for all the clusters. */
  lemma ResumedIsWhole(content: seq<seq<byte>>, size: nat, links: seq<Link>, lim: nat, firstClus: nat, ch: seq<nat>,
                       start: nat, k1: nat, buf1: seq<byte>, last1: nat, from1: nat, k2: nat, st2: Status, n2: nat,
                       buf2: seq<byte>, last2: nat, from2: nat)
    requires IsChain(links, lim, ch) && HasRoom(buf1, size, k1) && HasRoom(buf2, size, n2)
    requires Loaded(content, size, ch, k1, start, TryAgain, k1, buf1, last1, from1)
    requires Loaded(content, size, ch[k1..], k2, from1, st2, n2, buf2, last2, from2)
    ensures EntersAt(firstClus, from1, ch[k1..], 0)
    ensures Loaded(content, size, ch, k1 + k2, start, st2, k1 + n2, FrontOf(buf1, size, k1) + FrontOf(buf2, size, n2),
                   if n2 == 0 then last1 else last2, from2)
  {
    hide Holds, IsChain, HasRoom, FrontOf;
    ResumePoint(links, lim, ch, k1);
    HoldsJoined(content, size, ch, k1, buf1, n2, buf2);
  }

  lemma HoldsJoined(content: seq<seq<byte>>, size: nat, ch: seq<nat>, k1: nat, buf1: seq<byte>, n2: nat,
                    buf2: seq<byte>)
    requires HasRoom(buf1, size, k1) && HasRoom(buf2, size, n2) && k1 <= |ch|
    requires Holds(buf1, size, content, ch, k1) && Holds(buf2, size, content, ch[k1..], n2)
    ensures Holds(FrontOf(buf1, size, k1) + FrontOf(buf2, size, n2), size, content, ch, k1 + n2)
  {
    hide BufClus, HasRoom, FrontOf;
    var buf := FrontOf(buf1, size, k1) + FrontOf(buf2, size, n2);
    forall j | 0 <= j < k1 + n2
      ensures 2 <= ch[j] < |content| + 2 && BufClus(buf, size, j) == content[ch[j] - 2]
    {
      JoinedChunk(buf1, buf2, size, k1, n2, j);
      if j >= k1 {
        assert ch[k1..][j - k1] == ch[j];
      }
    }
  }

  lemma JoinedChunk(a: seq<byte>, b: seq<byte>, size: nat, m: nat, n: nat, j: nat)
    requires HasRoom(a, size, m) && HasRoom(b, size, n) && j < m + n
    ensures BufClus(FrontOf(a, size, m) + FrontOf(b, size, n), size, j)
      == if j < m then BufClus(a, size, j) else BufClus(b, size, j - m)
  {
    hide BufClus;
    var x, y, z := m * size, n * size, j * size;
    MulBounds(m, 0, n, j, size);
    JoinedSlice(a, b, x, y, z, size);
    ChunkIs(a[..x] + b[..y], size, j, z);
    if j < m {
      ChunkIs(a, size, j, z);
    } else {
      ChunkIs(b, size, j - m, z - x);
    }
  }

  lemma ResumePoint(links: seq<Link>, lim: nat, ch: seq<nat>, k: nat)
    requires IsChain(links, lim, ch) && k < |ch|
    ensures FirstOf(ch[k..][0..]) == ch[k] >= 2
  {}

  lemma JoinedSlice(a: seq<byte>, b: seq<byte>, x: nat, y: nat, z: nat, size: nat)
    requires x <= |a| && y <= |b| && z + size <= x + y
    ensures z + size <= x ==> (a[..x] + b[..y])[z..z + size] == a[z..z + size]
    ensures x <= z ==> (a[..x] + b[..y])[z..z + size] == b[z - x..z - x + size]
  {}
}
