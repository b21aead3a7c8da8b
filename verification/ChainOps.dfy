/** Walking, freeing and extending cluster chains through the FAT. */
module ChainOps {
  import opened Geometry
  import opened FatEntries
  import opened FatWindow
  import opened Volume
  import opened Chains
  import opened FreeSpace
  import opened FreeOps

  /** A walk from `start` that ends, within `n` runs, at an entry with status `st`. */
  ghost predicate WalkEnds(links: seq<Link>, start: nat, p: seq<nat>, n: nat, st: Status) {
    && IsPath(links, p) && p[0] == start && |Runs(p)| <= n
    && StatusOf(Look(links, p[|p| - 1])) == st
  }

  /** One call of fatfs_getopticluslist_usefileinfo: `n` runs and the cluster to resume from, or all the
      runs up to the end of the chain, or no runs and the status of the entry that broke the walk. */
  ghost predicate Batch(links: seq<Link>, start: nat, n: nat, st: Status, rs: seq<Run>, from: nat) {
    if st == TryAgain then
      && |rs| == n && rs == Runs(Expand(rs)) && Expand(rs) != [] && Expand(rs)[0] == start
      && IsPath(links, Expand(rs) + [from]) && rs[n - 1].Last() + 1 != from
    else if st == Ok then
      exists p :: WalkEnds(links, start, p, n, Eof) && rs == if start == 0 && |Runs(p)| == 1 then [] else Runs(p)
    else
      st in {BadCluster, FreeCluster, Invalid} && rs == [] && exists p :: WalkEnds(links, start, p, n, st)
  }

  /** fatfs_getopticluslist_usefileinfo */
  method GetOptiClusList(fat: Fat, firstClus: nat, cl: array<Run>, clSize: nat, fromClus: nat)
    returns (st: Status, size: nat, from: nat)
    requires Ready(fat) && 1 <= clSize <= cl.Length
    modifies fat`curFatStartEntry, fat`curFatEndEntry, fat`curFatPartStartSecAbs, fat`curFatEndSecAbs,
      fat`fatUpdated, fat.dev, fat.FBuf, cl
    ensures Ready(fat) && Content(fat) == old(Content(fat))
    ensures size <= clSize && (st != TryAgain ==> from == fromClus)
    ensures Batch(fat.links, if fromClus == 0 then firstClus else fromClus, clSize, st, cl[..size], from)
  {
    hide Ready, OnDevice, Content, Runs, Expand;
    var iCL := 0;
    var start := if fromClus == 0 then firstClus else fromClus;
    cl[iCL] := Run(start, 0);
    var iPrevClus: nat := start;
    from := fromClus;
    ghost var p: seq<nat> := [start];
    StartRuns(start);
    assert cl[..1] == [Run(start, 0)];
    while iCL < clSize
      invariant Ready(fat) && Content(fat) == old(Content(fat))
      invariant 0 <= iCL < clSize && from == fromClus
      invariant IsPath(fat.links, p) && p[0] == start && p[|p| - 1] == iPrevClus
      invariant cl[..iCL + 1] == Runs(p) && cl[0].base == start
      invariant iCL > 0 ==> cl[iCL].base > 0
      decreases clSize - iCL, |fat.links| - iPrevClus
    {
      var iRet, iCurClus := GetFatEntry(fat, iPrevClus);
      if iRet != Ok {
        assert WalkEnds(fat.links, start, p, clSize, iRet);
        assert |Runs(p)| == iCL + 1;
        if iRet == Eof {
          size := if cl[iCL].base != 0 then iCL + 1 else 0;
          return Ok, size, from;
        } else {
          return iRet, 0, from;
        }
      }
      RunsSnoc(p, iCurClus);
      RunsLast(p);
      PathSnoc(fat.links, p, iCurClus);
      if iCurClus == iPrevClus + 1 {
        cl[iCL] := Run(cl[iCL].base, cl[iCL].adj + 1);
      } else {
        iCL := iCL + 1;
        if iCL >= clSize {
          from := iCurClus;
          break;
        }
        cl[iCL] := Run(iCurClus, 0);
      }
      p := p + [iCurClus];
      iPrevClus := iCurClus;
    }
    RunsCanonical(p);
    return TryAgain, iCL, from;
  }

  lemma StartRuns(c: nat)
    ensures Runs([c]) == [Run(c, 0)]
  {
    RunsSnoc([], c);
    assert [] + [c] == [c];
  }

  lemma PathSnoc(links: seq<Link>, p: seq<nat>, c: nat)
    requires IsPath(links, p) && Look(links, p[|p| - 1]) == Next(c)
    ensures IsPath(links, p + [c])
  {}

  /** On a file's chain a batch is a prefix of its runs: all of them with Ok, otherwise with TryAgain and
      the first cluster not covered. Batches taken one after the other are thus exactly Runs(ch). */
  lemma BatchOnChain(links: seq<Link>, lim: nat, ch: seq<nat>, n: nat, st: Status, rs: seq<Run>, from: nat)
    requires links != [] && links[0] == End && IsChain(links, lim, ch) && n >= 1
    requires Batch(links, FirstOf(ch), n, st, rs, from)
    ensures var used := Total(rs);
      && used <= |ch| && Expand(rs) == ch[..used] && Runs(ch) == rs + Runs(ch[used..])
      && (if used == |ch| then st == Ok else st == TryAgain && 0 < used && from == ch[used])
  {
    hide Runs, Expand, Total, IsChain, IsPath, Batch, WalkEnds;
    BatchCases(links, FirstOf(ch), n, st, rs, from);
    if st == TryAgain {
      PathFront(Expand(rs), from);
      OnChain(links, lim, ch, Expand(rs) + [from]);
      FullBatch(ch, rs, from);
    } else if st == Ok {
      var p :|
        WalkEnds(links, FirstOf(ch), p, n, Eof) && rs == if FirstOf(ch) == 0 && |Runs(p)| == 1 then [] else Runs(p);
      WalkEndsIs(links, FirstOf(ch), p, n, Eof);
      WholeChain(links, lim, ch, p);
      StartRuns(0);
      FirstPositive(links, lim, ch);
      LastBatch(ch, rs);
    } else {
      var p :| WalkEnds(links, FirstOf(ch), p, n, st);
      WalkEndsIs(links, FirstOf(ch), p, n, st);
      WholeChain(links, lim, ch, p);
    }
  }

  lemma BatchCases(links: seq<Link>, start: nat, n: nat, st: Status, rs: seq<Run>, from: nat)
    requires Batch(links, start, n, st, rs, from)
    ensures st == TryAgain ==>
      && rs == Runs(Expand(rs)) && Expand(rs) != [] && Expand(rs)[0] == start
      && IsPath(links, Expand(rs) + [from]) && |rs| == n && (n > 0 ==> rs[n - 1].Last() + 1 != from)
    ensures st in {Ok, TryAgain, BadCluster, FreeCluster, Invalid}
    ensures st == Ok ==>
      exists p :: WalkEnds(links, start, p, n, Eof) && rs == if start == 0 && |Runs(p)| == 1 then [] else Runs(p)
    ensures st != Ok && st != TryAgain ==> exists p :: WalkEnds(links, start, p, n, st)
  {}

  lemma WalkEndsIs(links: seq<Link>, start: nat, p: seq<nat>, n: nat, st: Status)
    requires WalkEnds(links, start, p, n, st) && st != Ok
    ensures IsPath(links, p) && p != [] && p[0] == start && !Look(links, p[|p| - 1]).Next?
    ensures StatusOf(Look(links, p[|p| - 1])) == st
  {}

  lemma PathFront(e: seq<nat>, c: nat)
    requires e != []
    ensures (e + [c])[0] == e[0] && |e + [c]| > 1
  {}

  lemma FirstPositive(links: seq<Link>, lim: nat, ch: seq<nat>)
    requires IsChain(links, lim, ch)
    ensures FirstOf(ch) == 0 <==> ch == []
  {}

  /** Batches taken one after the other, each from where the one before it stopped, up to the end. */
  ghost predicate Resumed(links: seq<Link>, start: nat, n: nat, bs: seq<seq<Run>>)
    decreases |bs|
  {
    bs != [] &&
    if |bs| == 1 then Batch(links, start, n, Ok, bs[0], 0)
    else exists from :: Batch(links, start, n, TryAgain, bs[0], from) && Resumed(links, from, n, bs[1..])
  }

  /** Whatever the batch size, the batches of a chain are its maximal runs, and expand to the chain. */
  lemma {:induction false} BatchesAreRuns(links: seq<Link>, lim: nat, ch: seq<nat>, n: nat, bs: seq<seq<Run>>)
    requires links != [] && links[0] == End && IsChain(links, lim, ch) && n >= 1 && Resumed(links, FirstOf(ch), n, bs)
    ensures Flat(bs) == Runs(ch) && Expand(Flat(bs)) == ch && Maximal(Flat(bs))
    decreases |bs|
  {
    hide Runs, Expand, Total, Batch, IsChain, Maximal;
    RunsCanonical(ch);
    if |bs| == 1 {
      BatchOnChain(links, lim, ch, n, Ok, bs[0], 0);
      assert ch[|ch|..] == [];
      RunsCanonical(ch[|ch|..]);
      NoRuns();
      assert Flat(bs) == bs[0] + [];
    } else {
      var from: nat :| Batch(links, FirstOf(ch), n, TryAgain, bs[0], from) && Resumed(links, from, n, bs[1..]);
      BatchOnChain(links, lim, ch, n, TryAgain, bs[0], from);
      var used := Total(bs[0]);
      ChainTail(links, lim, ch, used);
      BatchesAreRuns(links, lim, ch[used..], n, bs[1..]);
    }
  }

  lemma FullBatch(ch: seq<nat>, rs: seq<Run>, from: nat)
    requires rs == Runs(Expand(rs)) && rs != [] && Expand(rs) != [] && rs[|rs| - 1].Last() + 1 != from
    requires |Expand(rs)| < |ch| && Expand(rs) + [from] == ch[..|Expand(rs)| + 1]
    ensures var used := Total(rs);
      0 < used < |ch| && Expand(rs) == ch[..used] && ch[used] == from && Runs(ch) == rs + Runs(ch[used..])
  {
    hide Runs, Expand;
    var p := Expand(rs);
    PrefixOf(p, from, ch);
    RunsLast(p);
    RunsConcat(p, ch[|p|..]);
  }

  lemma LastBatch(ch: seq<nat>, rs: seq<Run>)
    requires rs == if ch == [] then [] else Runs(ch)
    ensures var used := Total(rs); used == |ch| && Expand(rs) == ch[..used] && Runs(ch) == rs + Runs(ch[used..])
  {
    hide Runs, Expand, Maximal;
    RunsCanonical(ch);
    NoRuns();
    assert ch[|ch|..] == [] && ch[..|ch|] == ch;
    assert rs + [] == rs && rs == Runs(ch);
  }

  lemma PrefixOf(p: seq<nat>, c: nat, ch: seq<nat>)
    requires |p| < |ch| && p + [c] == ch[..|p| + 1]
    ensures p == ch[..|p|] && ch[|p|] == c && ch == p + ch[|p|..]
  {
    assert p == (p + [c])[..|p|];
    assert ch[|p|] == (p + [c])[|p|];
  }

  /** A path that starts where a file starts follows its chain; that of an empty file stays at entry 0. */
  lemma OnChain(links: seq<Link>, lim: nat, ch: seq<nat>, p: seq<nat>)
    requires links != [] && links[0] == End && IsChain(links, lim, ch) && IsPath(links, p) && p[0] == FirstOf(ch)
    ensures if ch == [] then p == [0] else |p| <= |ch| && p == ch[..|p|]
  {
    if ch != [] {
      PathOnChain(links, lim, ch, p);
    } else if |p| > 1 {
      PathStep(links, p, 0);
    }
  }

  /** A walk along a file's chain can only end at its end. */
  lemma WholeChain(links: seq<Link>, lim: nat, ch: seq<nat>, p: seq<nat>)
    requires links != [] && links[0] == End && IsChain(links, lim, ch) && IsPath(links, p) && p[0] == FirstOf(ch)
    requires !Look(links, p[|p| - 1]).Next?
    ensures p == (if ch == [] then [0] else ch) && Look(links, p[|p| - 1]) == End
  {
    OnChain(links, lim, ch, p);
    if ch != [] {
      assert p[|p| - 1] == ch[|p| - 1];
      if |p| < |ch| {
        ChainStep(links, lim, ch, |p| - 1);
      }
    }
  }

  /** A walk from `start` that comes to an end. */
  ghost predicate Walk(links: seq<Link>, start: nat, p: seq<nat>) {
    IsPath(links, p) && p[0] == start && !Look(links, p[|p| - 1]).Next?
  }

  /** fatfs__getlastclus_usefileinfo */
  method GetLastClus(fat: Fat, firstClus: nat, fromClus: nat, ghost p: seq<nat>) returns (st: Status, lastClus: nat)
    requires Ready(fat) && Walk(fat.links, if fromClus == 0 then firstClus else fromClus, p)
    modifies fat`curFatStartEntry, fat`curFatEndEntry, fat`curFatPartStartSecAbs, fat`curFatEndSecAbs,
      fat`fatUpdated, fat.dev, fat.FBuf
    ensures Ready(fat) && Content(fat) == old(Content(fat))
    ensures var end := StatusOf(Look(fat.links, p[|p| - 1]));
      if end == Eof then st == Ok && lastClus == p[|p| - 1] else st == end && lastClus == 0
  {
    hide Ready, OnDevice, Content;
    var iPrevClus := if fromClus == 0 then firstClus else fromClus;
    lastClus := 0;
    ghost var i := 0;
    while true
      invariant Ready(fat) && Content(fat) == old(Content(fat))
      invariant 0 <= i < |p| && iPrevClus == p[i] && lastClus == 0
      decreases |p| - i
    {
      assert i < |p| - 1 ==> Look(fat.links, p[i]) == Next(p[i + 1]);
      var iRet, iCurClus := GetFatEntry(fat, iPrevClus);
      if iRet != Ok {
        if iRet == Eof {
          lastClus := iPrevClus;
          return Ok, lastClus;
        } else {
          return iRet, lastClus;
        }
      }
      assert i < |p| - 1;
      iPrevClus := iCurClus;
      i := i + 1;
    }
  }

  /** The entries met from `start` on until one does not lead on, or leads back to one of them. */
  ghost predicate Trail(links: seq<Link>, start: nat, p: seq<nat>) {
    && IsPath(links, p) && p[0] == start && Distinct(p)
    && (Look(links, p[|p| - 1]).Next? ==> Look(links, p[|p| - 1]).clus in p)
  }

  /** Whatever the FAT holds, there is such a trail. */
  lemma TrailExists(links: seq<Link>, start: nat)
    ensures exists p :: Trail(links, start, p)
  {
    var p := TrailFrom(links, start, [start]);
    assert Trail(links, start, p);
  }

  lemma {:induction false} TrailFrom(links: seq<Link>, start: nat, p: seq<nat>) returns (q: seq<nat>)
    requires IsPath(links, p) && p[0] == start && Distinct(p) && |p| <= |links| + 1
    ensures Trail(links, start, q)
    decreases |links| + 1 - |p|
  {
    q := p;
    var l := Look(links, p[|p| - 1]);
    if l.Next? && l.clus !in p {
      InsideTable(links, p);
      q := TrailFrom(links, start, p + [l.clus]);
    }
  }

  /** There are no more different entries that lead on than the table has. */
  lemma InsideTable(links: seq<Link>, p: seq<nat>)
    requires IsPath(links, p) && Distinct(p) && Look(links, p[|p| - 1]).Next?
    ensures |p| <= |links|
  {
    forall i | 0 <= i < |p|
      ensures p[i] < |links|
    {
      assert i < |p| - 1 ==> Look(links, p[i]) == Next(p[i + 1]);
    }
    DistinctSize(p);
    BelowSize(SetOf(p), |links|);
  }

  lemma {:induction false} BelowSize(s: set<nat>, n: nat)
    requires forall c :: c in s ==> c < n
    ensures |s| <= n
  {
    if n == 0 {
      assert s == {};
    } else {
      BelowSize(s - {n - 1}, n - 1);
      assert s <= s - {n - 1} + {n - 1};
      SubsetSize(s, s - {n - 1} + {n - 1});
    }
  }

  /** fatfs__freefilefatentries_usefileinfo. The last cluster is freed but not counted; a walk that ends
      otherwise than at EOF keeps its last entry, frees the rest and counts nothing. One that comes back to
      an entry it has freed ends there. */
  method FreeFileFatEntries(fat: Fat, free: FreeClusters, firstClus: nat, fromClus: nat, ghost p: seq<nat>)
    returns (st: Status)
    requires Ready(fat) && Trail(fat.links, if fromClus == 0 then firstClus else fromClus, p)
    modifies fat, fat.dev, fat.FBuf, free`freeClusters, free`curMinAdjClusCnt
    ensures Ready(fat) && Content(fat) == old(Content(fat)) && fat.accessPattern == old(fat.accessPattern)
    ensures var n := |p| - 1; var end := StatusOf(Look(old(fat.links), p[n]));
      if end == Eof then
        && st == Ok
        && fat.links == Freed(old(fat.links), if p[n] == 0 then p[..n] else p)
        && free.freeClusters == Added(old(free.freeClusters), n)
        && free.curMinAdjClusCnt
             == (if old(free.curMinAdjClusCnt) == 0 && n > 16 then 4 else old(free.curMinAdjClusCnt))
      else
        && free.freeClusters == old(free.freeClusters) && free.curMinAdjClusCnt == old(free.curMinAdjClusCnt)
        && (if end == Ok then st == FreeCluster && fat.links == Freed(old(fat.links), p)
            else st == end && fat.links == Freed(old(fat.links), p[..n]))
  {
    hide Ready, OnDevice, Content, Added, Freed, Met, Distinct;
    var iPrevClus := if fromClus == 0 then firstClus else fromClus;
    var clusFreed := 0;
    ghost var links := fat.links;
    FreedSteps(links, p, 0);
    MetStep(links, p, 0);
    while true
      invariant Ready(fat) && Content(fat) == old(Content(fat)) && fat.accessPattern == old(fat.accessPattern)
      invariant 0 <= clusFreed <= |p| && iPrevClus == Met(links, p, clusFreed)
      invariant clusFreed == |p| ==> Look(links, p[|p| - 1]).Next?
      invariant fat.links == Freed(links, p[..clusFreed])
      invariant free.freeClusters == old(free.freeClusters) && free.curMinAdjClusCnt == old(free.curMinAdjClusCnt)
      decreases |p| - clusFreed
    {
      var iRet, iCurClus := GetFatEntry(fat, iPrevClus);
      if clusFreed < |p| {
        FreedSteps(links, p, clusFreed);
        MetStep(links, p, clusFreed);
      } else {
        MetAgain(links, p);
      }
      if iRet != Ok {
        if iRet == Eof {
          free.AddToFreeClusters(clusFreed);
          if iPrevClus != 0 {
            st := SetFatEntry(fat, iPrevClus, 0);
            return;
          }
          return Ok;
        } else {
          return iRet;
        }
      }
      iRet := SetFatEntry(fat, iPrevClus, 0);
      if iRet != Ok {
        return iRet;
      }
      clusFreed := clusFreed + 1;
      iPrevClus := iCurClus;
    }
  }

  /** The entry met after `i` steps. */
  ghost function Met(links: seq<Link>, p: seq<nat>, i: nat): nat
    requires p != [] && i <= |p|
  {
    if i < |p| then p[i]
    else var l := Look(links, p[|p| - 1]); if l.Next? then l.clus else 0
  }

  lemma MetAgain(links: seq<Link>, p: seq<nat>)
    requires IsPath(links, p) && Look(links, p[|p| - 1]).Next? && Look(links, p[|p| - 1]).clus in p
    ensures p[..|p|] == p && Look(Freed(links, p), Met(links, p, |p|)) == Free
  {
    var i :| 0 <= i < |p| && p[i] == Met(links, p, |p|);
    assert i < |p| - 1 ==> Look(links, p[i]) == Next(p[i + 1]);
    assert p[i] < |links|;
  }

  lemma MetStep(links: seq<Link>, p: seq<nat>, i: nat)
    requires IsPath(links, p) && i < |p|
    ensures Met(links, p, i) == p[i]
    ensures if Look(links, p[i]).Next? then Look(links, p[i]) == Next(Met(links, p, i + 1)) else i == |p| - 1
  {
    assert i < |p| - 1 ==> Look(links, p[i]) == Next(p[i + 1]);
  }

  /** Freeing a prefix of a walk leaves the rest of it readable; freeing one more extends the prefix. */
  lemma FreedSteps(links: seq<Link>, p: seq<nat>, i: nat)
    requires Distinct(p) && i < |p|
    ensures Freed(links, p[..0]) == links
    ensures Look(Freed(links, p[..i]), p[i]) == Look(links, p[i])
    ensures p[i] < |links| ==> Freed(links, p[..i])[p[i] := Free] == Freed(links, p[..i + 1])
    ensures p[..|p|] == p
  {
    assert p[..i + 1] == p[..i] + [p[i]];
  }

  datatype Update = Size | Name | FirstClus | All

  /** The fields of struct TFileInfo that the chain code uses. */
  class FileInfo {
    var firstClus: nat
    var fileSize: nat
    var newFileSize: Word32
    var updated: set<Update>

    constructor (firstClus: nat, fileSize: Word32)
      ensures this.firstClus == firstClus && this.fileSize == newFileSize == fileSize && updated == {}
    {
      this.firstClus, this.fileSize, newFileSize, updated := firstClus, fileSize, fileSize, {};
    }
  }

  /** `links` with the segment `seg` chained up, terminated, and hung behind cluster `last` (0 for none). */
  function Linked(links: seq<Link>, last: nat, seg: Run): (after: seq<Link>)
    ensures |after| == |links|
  {
    seq(|links|, c requires 0 <= c < |links| =>
      if c == seg.Last() then End
      else if seg.base <= c < seg.Last() then Next(c + 1)
      else if last != 0 && c == last then Next(seg.base)
      else links[c])
  }

  /** fatfs__linknewsegment_usefileinfo. `ch` is the file's chain; oldLastClus is its last cluster, or 0 to
      have it looked up. */
  method LinkNewSegment(fat: Fat, free: FreeClusters, fInfo: FileInfo, oldLastClus: nat,
                        newSegStartClus: nat, newSegEndClus: nat, ghost ch: seq<nat>) returns (st: Status)
    requires Ready(fat) && fat.links[0] == End && IsChain(fat.links, fat.geo.ClusLimit(), ch)
    requires fInfo.firstClus == FirstOf(ch) && (oldLastClus == 0 || oldLastClus == LastOf(ch))
    requires 2 <= newSegStartClus <= newSegEndClus < fat.geo.ClusLimit()
    requires CounterOk(free.freeClusters, fat.links, fat.geo.ClusLimit())
    modifies fat, fat.dev, fat.FBuf, free`freeClusters, fInfo`firstClus, fInfo`updated
    ensures Ready(fat) && Content(fat) == old(Content(fat)) && fat.accessPattern == old(fat.accessPattern)
    ensures var seg := Run(newSegStartClus, newSegEndClus - newSegStartClus);
      && st == Ok
      && fat.links == Linked(old(fat.links), LastOf(ch), seg)
      && free.freeClusters == Subtracted(old(free.freeClusters), seg.Count())
      && CounterOk(free.freeClusters, fat.links, fat.geo.ClusLimit())
    ensures if ch == [] then fInfo.firstClus == newSegStartClus && fInfo.updated == old(fInfo.updated) + {FirstClus}
            else fInfo.firstClus == old(fInfo.firstClus) && fInfo.updated == old(fInfo.updated)
  {
    hide Ready, OnDevice, Content, CounterOk, Subtracted, Linked;
    ghost var links, seg := fat.links, Run(newSegStartClus, newSegEndClus - newSegStartClus);
    var actLastClus := oldLastClus;
    if oldLastClus == 0 {
      WalkOfChain(links, fat.geo.ClusLimit(), ch);
      var res;
      res, actLastClus := GetLastClus(fat, fInfo.firstClus, oldLastClus, if ch == [] then [0] else ch);
      if res != Ok {
        return Failed;
      }
    }
    if actLastClus != 0 {
      st := SetFatEntry(fat, actLastClus, newSegStartClus);
      if st != Ok {
        return;
      }
    } else {
      fInfo.firstClus := newSegStartClus;
      fInfo.updated := fInfo.updated + {FirstClus};
    }
    LinkedParts(links, actLastClus, seg);
    st := ChainUp(fat, newSegStartClus, newSegEndClus);
    LinkedCount(links, LastOf(ch), seg, fat.geo.ClusLimit(), free.freeClusters, ch);
    CounterBound(free.freeClusters, links, fat.geo.ClusLimit());
    free.SubFromFreeClusters(newSegEndClus - newSegStartClus + 1);
  }

  /** The loop of fatfs__linknewsegment_usefileinfo and the EOF entry after it. */
  method ChainUp(fat: Fat, start: nat, end: nat) returns (st: Status)
    requires Ready(fat) && 2 <= start <= end < fat.geo.ClusLimit()
    modifies fat, fat.dev, fat.FBuf
    ensures Ready(fat) && Content(fat) == old(Content(fat)) && fat.accessPattern == old(fat.accessPattern)
    ensures st == Ok && fat.links == Linked(old(fat.links), 0, Run(start, end - start))
  {
    hide Ready, OnDevice, Content;
    var iCur := start;
    while iCur < end
      invariant Ready(fat) && Content(fat) == old(Content(fat)) && fat.accessPattern == old(fat.accessPattern)
      invariant start <= iCur <= end && |fat.links| == |old(fat.links)|
      invariant forall c :: 0 <= c < |fat.links| ==>
        fat.links[c] == if start <= c < iCur then Next(c + 1) else old(fat.links)[c]
    {
      st := SetFatEntry(fat, iCur, iCur + 1);
      if st != Ok {
        return;
      }
      iCur := iCur + 1;
    }
    ChainedUp(old(fat.links), fat.links, Run(start, end - start));
    st := SetFatEntry(fat, end, FATFS_EOF);
  }

  lemma ChainedUp(links: seq<Link>, mid: seq<Link>, seg: Run)
    requires |mid| == |links| && seg.Last() < |links|
    requires forall c :: 0 <= c < |mid| ==> mid[c] == if seg.base <= c < seg.Last() then Next(c + 1) else links[c]
    ensures mid[seg.Last() := End] == Linked(links, 0, seg)
  {
    forall c | 0 <= c < |links|
      ensures mid[seg.Last() := End][c] == Linked(links, 0, seg)[c]
    {
      LinkedAt(links, 0, seg, c);
    }
  }

  lemma WalkOfChain(links: seq<Link>, lim: nat, ch: seq<nat>)
    requires |links| > 0 && links[0] == End && IsChain(links, lim, ch)
    ensures Walk(links, FirstOf(ch), if ch == [] then [0] else ch)
  {}

  lemma LinkedParts(links: seq<Link>, last: nat, seg: Run)
    requires last < |links|
    ensures Linked(links, last, seg) == Linked(if last != 0 then links[last := Next(seg.base)] else links, 0, seg)
  {}

  lemma LinkedAt(links: seq<Link>, last: nat, seg: Run, c: nat)
    requires c < |links|
    ensures Linked(links, last, seg)[c] ==
      if c == seg.Last() then End
      else if seg.base <= c < seg.Last() then Next(c + 1)
      else if last != 0 && c == last then Next(seg.base)
      else links[c]
  {}

  lemma CounterBound(x: nat, links: seq<Link>, lim: nat)
    requires CounterOk(x, links, lim)
    ensures x < TWO32
  {}

  lemma LinkedCount(links: seq<Link>, last: nat, seg: Run, lim: nat, x: nat, ch: seq<nat>)
    requires CounterOk(x, links, lim) && IsChain(links, lim, ch) && last == LastOf(ch)
    ensures CounterOk(Subtracted(x, seg.Count()), Linked(links, last, seg), lim)
    ensures FlagOf(Subtracted(x, seg.Count())) == FlagOf(x)
  {
    hide CounterOk, Subtracted;
    var after := Linked(links, last, seg);
    assert last != 0 ==> links[last] == End;
    forall c | 0 <= c < |links| && !(seg.base <= c <= seg.Last()) && links[c] == Free
      ensures after[c] == Free
    {
      LinkedAt(links, last, seg, c);
    }
    SubtractedSafe(x, links, after, lim, seg);
  }
}
