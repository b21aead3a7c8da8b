/** The file cursor: fatuc_fseek and fatuc_fread. */
module Cursor {
  import opened Bytes
  import opened Geometry
  import opened BlockDevice
  import opened FatEntries
  import opened FatWindow
  import opened Volume
  import opened Chains
  import opened ChainOps
  import opened FileLoad

  const TEMP_CLSIZE: nat := 64

  datatype Whence = SeekSet | SeekCur | SeekEnd | SeekOther

  /** struct TFatFile */
  class OpenFile {
    const fInfo: FileInfo
    var used: bool
    var fPos: nat
    var fromClus: nat
    var offInFromClus: nat

    constructor (fInfo: FileInfo)
      ensures this.fInfo == fInfo && used && fPos == fromClus == offInFromClus == 0
    {
      this.fInfo, used, fPos, fromClus, offInFromClus := fInfo, true, 0, 0, 0;
    }
  }

  /** While the position is inside the chain, fromClus is the cluster it falls into (0 standing for the
      first one) and offInFromClus its offset there. */
  ghost predicate CursorOk(firstClus: nat, fPos: nat, fromClus: nat, off: nat, ch: seq<nat>, size: nat)
    requires size > 0
  {
    Div(fPos, size) < |ch| ==>
      EntersAt(firstClus, fromClus, ch, Div(fPos, size)) && off == fPos - Div(fPos, size) * size
  }

  /** C division of a signed value by a positive one. */
  function TruncDiv(a: int, b: nat): int
    requires b > 0
  {
    if a >= 0 then a / b else -((-a) / b)
  }

  /** The cluster index fatuc__fposChangedUpdate takes the old position to be in. */
  function OldIndex(oldFPos: nat, size: nat): int
    requires oldFPos < TWO32 && size > 0
  {
    TruncDiv(AsInt32(oldFPos), size)
  }

  /** It is the right one exactly for positions below 2 GiB: the position is passed on as a signed value. */
  lemma OldIndexRight(oldFPos: nat, size: nat)
    requires oldFPos < TWO32 && 0 < size <= 0x8000_0000
    ensures OldIndex(oldFPos, size) == Div(oldFPos, size) <==> oldFPos < 0x8000_0000
  {
    if oldFPos >= 0x8000_0000 {
      AtLeastOne(oldFPos, size);
      AtLeastOne(TWO32 - oldFPos, size);
    }
  }

  /** Index in the chain of the cluster on which fatuc__fposChangedUpdate leaves the cursor, when the old
      position is in cluster `a` but taken to be in cluster `b`, and the new one in cluster `index`. */
  function Landing(a: int, b: int, index: int): int {
    if index == b then a else if index < b then index else index - b + a
  }

  /** A seek inside the chain is right if and only if it starts below 2 GiB: otherwise the cursor lands on
      another cluster or behind the chain. */
  lemma SeekRightIff(links: seq<Link>, lim: nat, firstClus: nat, ch: seq<nat>, size: nat, oldFPos: nat, fPos: nat,
                     st: Status, fromClus: nat)
    requires IsChain(links, lim, ch) && firstClus == FirstOf(ch) && 0 < size <= 0x8000_0000 && oldFPos < TWO32
    requires Div(oldFPos, size) < |ch| && Div(fPos, size) < |ch|
    requires var b := OldIndex(oldFPos, size); var x := Landing(Div(oldFPos, size), b, Div(fPos, size));
      st == Ok ==> 0 <= x < |ch| && EntersAt(firstClus, fromClus, ch, x)
    requires var b := OldIndex(oldFPos, size); var x := Landing(Div(oldFPos, size), b, Div(fPos, size));
      st != Ok ==> x >= |ch|
    ensures st == Ok && CursorOk(firstClus, fPos, fromClus, Rem(fPos, size), ch, size) <==> oldFPos < 0x8000_0000
  {
    hide OldIndex, Div, Rem;
    var a, b, index := Div(oldFPos, size), OldIndex(oldFPos, size), Div(fPos, size);
    var x := Landing(a, b, index);
    OldIndexRight(oldFPos, size);
    OldIndexSign(oldFPos, size);
    if st == Ok {
      ChainDistinct(links, lim, ch);
      ChainCluster(links, lim, ch, x);
      ChainCluster(links, lim, ch, index);
      assert ch[x..][0] == ch[x] && ch[index..][0] == ch[index];
    }
  }

  lemma OldIndexSign(oldFPos: nat, size: nat)
    requires oldFPos < TWO32 && 0 < size <= 0x8000_0000
    ensures oldFPos >= 0x8000_0000 ==> OldIndex(oldFPos, size) <= 0 < Div(oldFPos, size)
  {
    AtLeastOne(oldFPos, size);
  }

  /** A file of 8192 clusters of 512 KiB: a seek from just above 2 GiB to the beginning ends, with Ok, on the
      file's last cluster. */
  lemma SeekToStartFails()
    ensures var size, ch := 0x8_0000, seq<nat>(8192, i => i + 2);
      && Landing(Div(0x8000_0001, size), OldIndex(0x8000_0001, size), Div(0, size)) == 8191 < |ch|
      && !CursorOk(2, 0, ch[8191], 0, ch, size)
  {
    var size, ch := 0x8_0000, seq<nat>(8192, i => i + 2);
    assert OldIndex(0x8000_0001, size) == -4095;
    assert ch[0..][0] == 2;
  }

  lemma AtLeastOne(a: nat, d: nat)
    requires 0 < d
    ensures 0 <= Div(a, d) && (d <= a ==> Div(a, d) >= 1)
  {
  }

  /** The loop over one batch: finds the wanted cluster among the runs. */
  method FindInRuns(cl: array<Run>, clSize: nat, curClusNo: int, newClusNo: int) returns (startActClus: nat, cur: int)
    requires clSize <= cl.Length && curClusNo < newClusNo
    ensures var rs := cl[..clSize]; var d := newClusNo - 1 - curClusNo;
      if d < Total(rs) then cur >= newClusNo && startActClus == Expand(rs)[d]
      else startActClus == 0 && cur == curClusNo + Total(rs)
  {
    hide Expand, Total, Before, Clusters;
    ghost var rs := cl[..clSize];
    startActClus, cur := 0, curClusNo;
    var iCur := 0;
    BeforeEnds(rs);
    while iCur < clSize
      invariant 0 <= iCur <= clSize && startActClus == 0
      invariant cur == curClusNo + Before(rs, iCur) < newClusNo && Before(rs, iCur) <= Total(rs)
    {
      RunAt(rs, iCur);
      ghost var at := Before(rs, iCur);
      cur := cur + cl[iCur].Count();
      var diffClus := cur - newClusNo;
      if diffClus >= 0 {
        startActClus := cl[iCur].Last() - diffClus;
        ElementOf(Expand(rs), at, rs[iCur], newClusNo - 1 - curClusNo - at);
        return;
      }
      iCur := iCur + 1;
    }
  }

  lemma ElementOf(s: seq<nat>, at: nat, r: Run, x: nat)
    requires Within(s, at, Clusters(r)) && x < r.Count()
    ensures at + x < |s| && s[at + x] == r.base + x
  {
    assert s[at..at + |Clusters(r)|][x] == Clusters(r)[x];
  }

  /** How many clusters of a list of runs lie before the last of its batches of `n` runs. */
  function LastBatch(rs: seq<Run>, n: nat): nat
    requires n >= 1
  {
    if |rs| <= n then 0 else Total(rs[..n]) + LastBatch(rs[n..], n)
  }

  /** The index in the chain of the cluster on which a walk in batches of `n` runs from cluster `index` to the
      end leaves the cursor. */
  function LastPlace(ch: seq<nat>, index: nat, n: nat): nat
    requires n >= 1
  {
    if index <= |ch| then index + LastBatch(Runs(ch[index..]), n) else index
  }

  lemma LastEnters(links: seq<Link>, lim: nat, firstClus: nat, fromClus: nat, ch: seq<nat>, index: nat, n: nat)
    requires IsChain(links, lim, ch) && n >= 1 && EntersAt(firstClus, fromClus, ch, index)
    ensures EntersAt(firstClus, LastStart(Runs(ch[index..]), n, fromClus), ch, LastPlace(ch, index, n))
  {
    hide Runs, LastStart, LastBatch, IsChain, Expand;
    RunsCanonical(ch[index..]);
    LastRunsEnter(links, lim, firstClus, fromClus, ch, index, Runs(ch[index..]), n);
  }

  lemma {:induction false} LastRunsEnter(links: seq<Link>, lim: nat, firstClus: nat, fromClus: nat, ch: seq<nat>,
                                         index: nat, rs: seq<Run>, n: nat)
    requires IsChain(links, lim, ch) && n >= 1 && EntersAt(firstClus, fromClus, ch, index) && Expand(rs) == ch[index..]
    ensures EntersAt(firstClus, LastStart(rs, n, fromClus), ch, index + LastBatch(rs, n))
    decreases |rs|
  {
    hide IsChain, EntersAt, Expand, Total, Clusters, Runs;
    EntersBound(firstClus, fromClus, ch, index);
    if |rs| > n {
      var at := Total(rs[..n]);
      ExpandConcat(rs[..n], rs[n..]);
      assert rs[..n] + rs[n..] == rs;
      RunAt(rs, n);
      ElementOf(Expand(rs), at, rs[n], 0);
      assert Expand(rs)[at..] == Expand(rs[n..]) && ch[index..][at..] == ch[index + at..];
      EntersIndex(links, lim, firstClus, ch, index + at);
      LastRunsEnter(links, lim, firstClus, rs[n].base, ch, index + at, rs[n..], n);
    }
  }

  /** The walk of fatuc__fposChangedUpdate, which takes the cursor to be on the cluster with index `index`
      while it is on the one with index `at`, to the cluster numbered newClusNo (counted from 1). */
  method WalkTo(fat: Fat, file: OpenFile, index: int, newClusNo: int, ghost ch: seq<nat>, ghost inside: bool,
                ghost at: nat)
    returns (st: Status)
    requires Ready(fat) && index < newClusNo && fat.links[0] == End
    requires inside ==>
      && IsChain(fat.links, fat.geo.ClusLimit(), ch) && EntersAt(file.fInfo.firstClus, file.fromClus, ch, at)
    modifies fat`curFatStartEntry, fat`curFatEndEntry, fat`curFatPartStartSecAbs, fat`curFatEndSecAbs,
      fat`fatUpdated, fat.dev, fat.FBuf, file`fromClus
    ensures Ready(fat) && Content(fat) == old(Content(fat))
    ensures var x := newClusNo - 1 - index + at;
      inside ==> if x < |ch| then st == Ok && file.fromClus == ch[x]
                 else st == NoMore && EntersAt(file.fInfo.firstClus, file.fromClus, ch, LastPlace(ch, at, TEMP_CLSIZE))
  {
    hide Ready, Content, OnDevice, Expand, Total, Batch, IsChain, Within, Positive, EntersAt, Runs, LastStart,
      LastPlace, Walked;
    NoLinkToZero(fat);
    if inside {
      EntersBound(file.fInfo.firstClus, file.fromClus, ch, at);
      LastEnters(fat.links, fat.geo.ClusLimit(), file.fInfo.firstClus, file.fromClus, ch, at, TEMP_CLSIZE);
    }
    ghost var resume := if inside then LastStart(Runs(ch[at..]), TEMP_CLSIZE, file.fromClus) else 0;
    var cl := new Run[TEMP_CLSIZE];
    var startActClus, curClusNo := 0, index;
    var ret, size := TryAgain, 0;
    ghost var shift, x := at - index, newClusNo - 1 - index + at;
    WalkStarts(file.fInfo.firstClus, ch, x, resume, at, file.fromClus);
    while ret == TryAgain && startActClus == 0
      invariant Ready(fat) && Content(fat) == old(Content(fat)) && fresh(cl)
      invariant ret in {Ok, TryAgain} && (startActClus == 0 ==> index <= curClusNo < newClusNo)
      invariant inside ==>
        Walked(file.fInfo.firstClus, ch, x, resume, curClusNo + shift, file.fromClus, startActClus, ret)
      decreases newClusNo - curClusNo, ret == TryAgain && startActClus == 0
    {
      ghost var was, start := file.fromClus, if file.fromClus == 0 then file.fInfo.firstClus else file.fromClus;
      var from;
      ret, size, from := GetOptiClusList(fat, file.fInfo.firstClus, cl, TEMP_CLSIZE, file.fromClus);
      file.fromClus := from;
      if inside {
        WalkOn(fat.links, fat.geo.ClusLimit(), file.fInfo.firstClus, ch, x, resume, curClusNo + shift, start, was, ret,
               cl[..size], from);
      }
      if ret != Ok && ret != TryAgain {
        return ret;
      }
      ghost var done, rs := curClusNo, cl[..size];
      BatchHasClusters(fat.links, start, TEMP_CLSIZE, ret, rs, from);
      startActClus, curClusNo := FindInRuns(cl, size, curClusNo, newClusNo);
      if newClusNo - 1 - done < Total(rs) {
        BatchPositive(fat.links, start, TEMP_CLSIZE, ret, rs, from, newClusNo - 1 - done);
        WalkFinds(file.fInfo.firstClus, ch, x, resume, curClusNo + shift, from, startActClus, ret);
      }
    }
    WalkOver(file.fInfo.firstClus, ch, x, resume, curClusNo + shift, file.fromClus, startActClus, ret);
    if startActClus == 0 {
      return NoMore;
    }
    file.fromClus := startActClus;
    return Ok;
  }

  /** How far the walk to cluster `x` of the chain has come: it has found it, or the end of the chain before it,
      or the next batch starts at cluster `now`. */
  ghost predicate Walked(firstClus: nat, ch: seq<nat>, x: int, resume: nat, now: int, fromClus: nat, found: nat,
                         ret: Status)
  {
    if found != 0 then 0 <= x < |ch| && found == ch[x]
    else if ret == Ok then x >= |ch| && fromClus == resume
    else
      && 0 <= now <= |ch| && now <= x && EntersAt(firstClus, fromClus, ch, now)
      && LastStart(Runs(ch[now..]), TEMP_CLSIZE, fromClus) == resume
  }

  lemma WalkStarts(firstClus: nat, ch: seq<nat>, x: int, resume: nat, at: nat, fromClus: nat)
    requires at <= x
    ensures EntersAt(firstClus, fromClus, ch, at) && resume == LastStart(Runs(ch[at..]), TEMP_CLSIZE, fromClus) ==>
      Walked(firstClus, ch, x, resume, at, fromClus, 0, TryAgain)
  {
    hide Runs, LastStart;
  }

  lemma WalkFinds(firstClus: nat, ch: seq<nat>, x: int, resume: nat, now: int, fromClus: nat, found: nat, ret: Status)
    ensures 0 <= x < |ch| && found == ch[x] != 0 ==> Walked(firstClus, ch, x, resume, now, fromClus, found, ret)
  {}

  lemma WalkOver(firstClus: nat, ch: seq<nat>, x: int, resume: nat, now: int, fromClus: nat, found: nat, ret: Status)
    ensures Walked(firstClus, ch, x, resume, now, fromClus, found, ret) && found != 0 ==>
      0 <= x < |ch| && found == ch[x]
    ensures Walked(firstClus, ch, x, resume, now, fromClus, 0, Ok) ==> x >= |ch| && fromClus == resume
  {}

  /** One more batch of the walk. */
  lemma WalkOn(links: seq<Link>, lim: nat, firstClus: nat, ch: seq<nat>, x: int, resume: nat, now: int, start: nat,
               fromClus: nat, ret: Status, rs: seq<Run>, from: nat)
    requires links != [] && links[0] == End && IsChain(links, lim, ch)
    requires Walked(firstClus, ch, x, resume, now, fromClus, 0, TryAgain) && (ret == Ok ==> from == fromClus)
    requires start == (if fromClus == 0 then firstClus else fromClus) && Batch(links, start, TEMP_CLSIZE, ret, rs, from)
    ensures ret in {Ok, TryAgain}
    ensures if x - now < Total(rs) then x < |ch| && Expand(rs)[x - now] == ch[x] != 0
            else Walked(firstClus, ch, x, resume, now + Total(rs), from, 0, ret)
  {
    hide IsChain, Batch, Expand, Total, Runs, LastStart;
    BatchFrom(links, lim, ch, now, TEMP_CLSIZE, ret, rs, from);
    if ret == TryAgain {
      EntersIndex(links, lim, firstClus, ch, now + Total(rs));
    }
    if x - now < Total(rs) {
      WithinAt(ch, now, Expand(rs), x - now);
      ChainCluster(links, lim, ch, x);
    }
  }

  /** No FAT entry links to cluster 0, so no batch contains it. */
  lemma NoLinkToZero(fat: Fat)
    requires Ready(fat)
    ensures Positive(fat.links)
  {}

  ghost predicate Positive(links: seq<Link>) {
    forall c :: 0 <= c < |links| ==> links[c] != Next(0)
  }

  lemma PathPositive(links: seq<Link>, p: seq<nat>, k: nat)
    requires Positive(links) && links != [] && links[0] == End && IsPath(links, p) && k < |p| && |p| > 1
    ensures p[k] > 0
  {
    if k > 0 {
      PathStep(links, p, k - 1);
    } else {
      PathStep(links, p, 0);
    }
  }

  lemma BatchPositive(links: seq<Link>, start: nat, n: nat, st: Status, rs: seq<Run>, from: nat, k: nat)
    requires Positive(links) && links != [] && links[0] == End && Batch(links, start, n, st, rs, from) && k < Total(rs)
    ensures Expand(rs)[k] > 0
  {
    hide Expand, Total, Runs, Positive;
    if st == TryAgain {
      PathPositive(links, Expand(rs) + [from], k);
    } else if st == Ok {
      var p :| WalkEnds(links, start, p, n, Eof) && rs == if start == 0 && |Runs(p)| == 1 then [] else Runs(p);
      RunsCanonical(p);
      ExpandNone();
      if |p| > 1 {
        PathPositive(links, p, k);
      } else {
        assert p == [start];
        StartRuns(start);
      }
    } else {
      ExpandNone();
    }
  }

  lemma ExpandNone()
    ensures Expand([]) == [] && Total([]) == 0
  {}

  lemma BatchHasClusters(links: seq<Link>, start: nat, n: nat, st: Status, rs: seq<Run>, from: nat)
    requires Batch(links, start, n, st, rs, from) && n >= 1
    ensures st == TryAgain ==> Total(rs) > 0
  {}

  lemma WithinAt(ch: seq<nat>, at: nat, e: seq<nat>, x: nat)
    requires Within(ch, at, e) && x < |e|
    ensures at + x < |ch| && ch[at + x] == e[x]
  {
    assert ch[at..at + |e|][x] == e[x];
  }

  lemma OldIndexIs(oldFPos: nat, size: nat)
    requires oldFPos < TWO32 && size > 0
    ensures oldFPos < 0x8000_0000 ==> OldIndex(oldFPos, size) == Div(oldFPos, size)
  {}

  function Rem(a: nat, d: nat): (r: nat)
    requires d > 0
    ensures r == a - Div(a, d) * d && r < d
  {
    a % d
  }

  lemma EntersStart(firstClus: nat, ch: seq<nat>)
    requires firstClus == FirstOf(ch)
    ensures EntersAt(firstClus, 0, ch, 0)
  {
    assert ch[0..] == ch;
  }

  lemma CursorMoved(firstClus: nat, fPos: nat, fromClus: nat, ch: seq<nat>, size: nat)
    requires size > 0
    requires Div(fPos, size) < |ch| ==> EntersAt(firstClus, fromClus, ch, Div(fPos, size))
    ensures CursorOk(firstClus, fPos, fromClus, Rem(fPos, size), ch, size)
  {}

  /** The cursor is somewhere in the file's chain. */
  ghost predicate OnChain(firstClus: nat, fromClus: nat, ch: seq<nat>) {
    exists p: nat :: EntersAt(firstClus, fromClus, ch, p)
  }

  /** The index of the cluster on which a seek from cluster `at` leaves the cursor: the one it lands on or, if
      that is behind the chain, where the last batch of the walk started. */
  function SeekPlace(ch: seq<nat>, size: nat, at: nat, oldFPos: nat, fPos: nat): nat
    requires size > 0 && oldFPos < TWO32
  {
    var b, index := OldIndex(oldFPos, size), Div(fPos, size);
    var x := Landing(at, b, index);
    if index == b then at
    else if 0 <= x < |ch| then x
    else LastPlace(ch, if index < b then 0 else at, TEMP_CLSIZE)
  }

  /** Where a seek leads from cluster `at` of the chain, wherever the old position was. */
  ghost predicate MovedFrom(firstClus: nat, ch: seq<nat>, size: nat, at: nat, oldFPos: nat, fPos: nat, st: Status,
                            fromClus: nat)
    requires size > 0 && oldFPos < TWO32
  {
    var b, index := OldIndex(oldFPos, size), Div(fPos, size);
    var x := Landing(at, b, index);
    && st == (if index == b || x < |ch| then Ok else NoMore)
    && (st == Ok ==> 0 <= x <= |ch| && EntersAt(firstClus, fromClus, ch, x))
    && EntersAt(firstClus, fromClus, ch, SeekPlace(ch, size, at, oldFPos, fPos))
  }

  /** What a seek from `old` to `fPos` has made of the cursor of a file with chain `ch`, if the cursor was
      right. From below 2 GiB it is right again and the status says whether the new position is inside the
      chain; between positions inside the chain it is right, with Ok, only then. */
  ghost predicate Moved(firstClus: nat, ch: seq<nat>, size: nat, oldFPos: nat, fPos: nat, st: Status, fromClus: nat,
                        off: nat)
    requires size > 0 && oldFPos < TWO32
  {
    var index, oldIndex := Div(fPos, size), Div(oldFPos, size);
    && (oldFPos < 0x8000_0000 ==>
          && CursorOk(firstClus, fPos, fromClus, off, ch, size)
          && (oldIndex < |ch| || index <= oldIndex ==> st == if index < |ch| || index == oldIndex then Ok else NoMore))
    && (oldIndex < |ch| ==>
          var b := OldIndex(oldFPos, size); var x := Landing(oldIndex, b, index);
          && off == Rem(fPos, size) && st == (if index == b || x < |ch| then Ok else NoMore)
          && (st == Ok ==> 0 <= x <= |ch| && EntersAt(firstClus, fromClus, ch, x)))
    && (oldIndex < |ch| && index < |ch| ==>
          (st == Ok && CursorOk(firstClus, fPos, fromClus, off, ch, size) <==> oldFPos < 0x8000_0000))
  }

  /** fatuc__fposChangedUpdate. The cursor may be on any cluster of the chain, also if the old position is
      behind its end. */
  method FposChangedUpdate(fat: Fat, file: OpenFile, oldFPos: nat, ghost ch: seq<nat>, ghost at: nat)
    returns (st: Status)
    requires Ready(fat) && fat.links[0] == End && IsChain(fat.links, fat.geo.ClusLimit(), ch)
    requires file.fInfo.firstClus == FirstOf(ch) && file.fPos < TWO32 && oldFPos < TWO32
    modifies fat`curFatStartEntry, fat`curFatEndEntry, fat`curFatPartStartSecAbs, fat`curFatEndSecAbs,
      fat`fatUpdated, fat.dev, fat.FBuf, file`fromClus, file`offInFromClus
    ensures Ready(fat) && Content(fat) == old(Content(fat)) && file.offInFromClus == Rem(file.fPos, fat.geo.ClusSize())
    ensures var size := fat.geo.ClusSize(); var b, index := OldIndex(oldFPos, size), Div(file.fPos, size);
      && (EntersAt(file.fInfo.firstClus, old(file.fromClus), ch, at) || index < b ==>
            MovedFrom(file.fInfo.firstClus, ch, size, at, oldFPos, file.fPos, st, file.fromClus))
      && (index == b ==> st == Ok && file.fromClus == old(file.fromClus))
  {
    hide Ready, Content, OnDevice, IsChain, EntersAt, Rem, Div, OldIndex, Geo.ClusSize;
    var clusSize := fat.geo.secPerClus * fat.geo.bytPerSec;
    SizeIs(fat.geo);
    SizeBound(fat);
    var newClusNo := Div(file.fPos, clusSize) + 1;
    file.offInFromClus := Rem(file.fPos, clusSize);
    var curClusNo := OldIndex(oldFPos, clusSize) + 1;
    ghost var inside := EntersAt(file.fInfo.firstClus, file.fromClus, ch, at);
    if inside {
      EntersBound(file.fInfo.firstClus, file.fromClus, ch, at);
    }
    if newClusNo == curClusNo {
      return Ok;
    }
    ghost var start := at;
    if newClusNo < curClusNo {
      curClusNo := 0;
      file.fromClus := 0;
      EntersStart(file.fInfo.firstClus, ch);
      inside, start := true, 0;
    } else {
      curClusNo := curClusNo - 1;
    }
    st := WalkTo(fat, file, curClusNo, newClusNo, ch, inside, start);
    if inside && st == Ok {
      EntersIndex(fat.links, fat.geo.ClusLimit(), file.fInfo.firstClus, ch, newClusNo - 1 - curClusNo + start);
    }
  }

  /** The same, for a cursor that was right. */
  lemma MovedRight(links: seq<Link>, lim: nat, firstClus: nat, ch: seq<nat>, size: nat, at: nat, oldFPos: nat,
                   fPos: nat, st: Status, fromClus: nat)
    requires IsChain(links, lim, ch) && firstClus == FirstOf(ch) && 0 < size <= 0x8000_0000 && oldFPos < TWO32
    requires var b, a, index := OldIndex(oldFPos, size), Div(oldFPos, size), Div(fPos, size);
      && (a < |ch| || index < b ==> MovedFrom(firstClus, ch, size, at, oldFPos, fPos, st, fromClus))
      && (a < |ch| ==> at == a) && (index == b ==> st == Ok)
    ensures Moved(firstClus, ch, size, oldFPos, fPos, st, fromClus, Rem(fPos, size))
  {
    hide OldIndex, Div, Rem, EntersAt, CursorOk, IsChain, OnChain;
    OldIndexIs(oldFPos, size);
    if oldFPos < 0x8000_0000 {
      CursorMoved(firstClus, fPos, fromClus, ch, size);
    }
    if Div(oldFPos, size) < |ch| && Div(fPos, size) < |ch| {
      SeekRightIff(links, lim, firstClus, ch, size, oldFPos, fPos, st, fromClus);
    }
  }

  /** A chain is entered at one place only. */
  lemma EntersOnce(links: seq<Link>, lim: nat, firstClus: nat, fromClus: nat, ch: seq<nat>, p: nat, q: nat)
    requires IsChain(links, lim, ch) && EntersAt(firstClus, fromClus, ch, p) && EntersAt(firstClus, fromClus, ch, q)
    ensures p == q
  {
    ChainDistinct(links, lim, ch);
    ChainUsed(links, lim, ch);
    assert p < |ch| ==> ch[p..][0] == ch[p] && ch[p] in ch;
    assert q < |ch| ==> ch[q..][0] == ch[q] && ch[q] in ch;
  }

  /** Where a cursor is. */
  lemma CursorPlace(links: seq<Link>, lim: nat, firstClus: nat, fPos: nat, fromClus: nat, ch: seq<nat>, size: nat)
    returns (at: nat)
    requires IsChain(links, lim, ch) && size > 0
    ensures OnChain(firstClus, fromClus, ch) ==> EntersAt(firstClus, fromClus, ch, at)
    ensures CursorOk(firstClus, fPos, fromClus, Rem(fPos, size), ch, size) && Div(fPos, size) < |ch| ==>
      at == Div(fPos, size)
  {
    hide IsChain, EntersAt;
    if OnChain(firstClus, fromClus, ch) {
      at :| EntersAt(firstClus, fromClus, ch, at);
      if Div(fPos, size) < |ch| && EntersAt(firstClus, fromClus, ch, Div(fPos, size)) {
        EntersOnce(links, lim, firstClus, fromClus, ch, at, Div(fPos, size));
      }
    } else {
      at := Div(fPos, size);
      assert !EntersAt(firstClus, fromClus, ch, at);
    }
  }

  lemma SizeIs(g: Geo)
    ensures g.ClusSize() == g.secPerClus * g.bytPerSec
  {}

  lemma CursorEnters(firstClus: nat, fPos: nat, fromClus: nat, off: nat, ch: seq<nat>, size: nat)
    requires size > 0 && CursorOk(firstClus, fPos, fromClus, off, ch, size)
    ensures Div(fPos, size) < |ch| ==> EntersAt(firstClus, fromClus, ch, Div(fPos, size)) && off == Rem(fPos, size)
  {}

  lemma EntersIndex(links: seq<Link>, lim: nat, firstClus: nat, ch: seq<nat>, k: nat)
    requires IsChain(links, lim, ch) && k < |ch|
    ensures EntersAt(firstClus, ch[k], ch, k) && ch[k] >= 2
  {
    assert ch[k..][0] == ch[k];
  }

  /** fatuc_fseek */
  method Seek(fat: Fat, file: OpenFile, offset: int, whence: Whence, ghost ch: seq<nat>) returns (st: Status)
    requires Ready(fat) && fat.links[0] == End && IsChain(fat.links, fat.geo.ClusLimit(), ch)
    requires file.fInfo.firstClus == FirstOf(ch) && file.fPos < TWO32 && -0x8000_0000 <= offset < 0x8000_0000
    modifies fat`curFatStartEntry, fat`curFatEndEntry, fat`curFatPartStartSecAbs, fat`curFatEndSecAbs,
      fat`fatUpdated, fat.dev, fat.FBuf, file`fPos, file`fromClus, file`offInFromClus
    ensures Ready(fat) && Content(fat) == old(Content(fat))
    ensures !file.used || whence == SeekOther ==> st == Invalid && PosOf(file) == old(PosOf(file))
    ensures file.used ==> file.fPos == Target(whence, old(file.fPos), file.fInfo.fileSize, offset)
    ensures file.used && whence != SeekOther ==>
      Leads(whence, old(file.fPos), file.fInfo.fileSize, offset, file.fPos)
    ensures var size := fat.geo.ClusSize();
      file.used && whence != SeekOther ==>
        && file.offInFromClus == Rem(file.fPos, size)
        && (CursorOk(file.fInfo.firstClus, old(file.fPos), old(file.fromClus), Rem(old(file.fPos), size), ch, size) ==>
              Moved(file.fInfo.firstClus, ch, size, old(file.fPos), file.fPos, st, file.fromClus, file.offInFromClus))
        && (forall at :: EntersAt(file.fInfo.firstClus, old(file.fromClus), ch, at) ==>
              MovedFrom(file.fInfo.firstClus, ch, size, at, old(file.fPos), file.fPos, st, file.fromClus))
  {
    hide Ready, Content, OnDevice, IsChain, EntersAt, CursorOk, Rem, Div, Geo.ClusSize, Moved, Leads,
      MovedFrom, OldIndex, OnChain;
    var prevFPos := file.fPos;
    TargetIs(whence, prevFPos, file.fInfo.fileSize, offset);
    if !file.used {
      return Invalid;
    }
    if whence == SeekOther {
      U32Small(file.fPos);
      return Invalid;
    }
    match whence {
      case SeekSet => file.fPos := U32(offset);
      case SeekCur => file.fPos := U32(file.fPos + offset);
      case SeekEnd => file.fPos := U32(file.fInfo.fileSize + offset);
      case SeekOther =>
    }
    ghost var size, links, lim, from0 := fat.geo.ClusSize(), fat.links, fat.geo.ClusLimit(), file.fromClus;
    SizeBound(fat);
    ghost var at := CursorPlace(links, lim, file.fInfo.firstClus, prevFPos, from0, ch, size);
    st := FposChangedUpdate(fat, file, prevFPos, ch, at);
    if CursorOk(file.fInfo.firstClus, prevFPos, from0, Rem(prevFPos, size), ch, size) {
      CursorEnters(file.fInfo.firstClus, prevFPos, from0, Rem(prevFPos, size), ch, size);
      MovedRight(links, lim, file.fInfo.firstClus, ch, size, at, prevFPos, file.fPos, st, file.fromClus);
    }
    forall p | EntersAt(file.fInfo.firstClus, from0, ch, p)
      ensures p == at
    {
      EntersChain(file.fInfo.firstClus, from0, ch, p);
      EntersOnce(links, lim, file.fInfo.firstClus, from0, ch, p, at);
    }
  }

  lemma EntersChain(firstClus: nat, fromClus: nat, ch: seq<nat>, p: nat)
    requires EntersAt(firstClus, fromClus, ch, p)
    ensures OnChain(firstClus, fromClus, ch)
  {}

  /** Where a seek leads; positions are 32 bits wide, and an unknown `whence` leads nowhere. */
  function Target(whence: Whence, fPos: nat, fileSize: nat, offset: int): (p: nat)
    ensures p < TWO32
  {
    match whence
    case SeekSet => U32(offset)
    case SeekCur => U32(fPos + offset)
    case SeekEnd => U32(fileSize + offset)
    case SeekOther => U32(fPos)
  }

  /** A seek leads `offset` bytes away from the start, the old position or the end of the file. Where there is no
      such position it wraps at 2^32. */
  ghost predicate Leads(whence: Whence, fPos: nat, fileSize: nat, offset: int, to: nat) {
    var x := offset + if whence == SeekSet then 0 else if whence == SeekCur then fPos else fileSize;
    && to < TWO32
    && (0 <= x < TWO32 ==> to == x)
    && (x < 0 ==> to == x + TWO32)
    && (TWO32 <= x < 2 * TWO32 ==> to == x - TWO32)
  }

  lemma TargetIs(whence: Whence, fPos: nat, fileSize: nat, offset: int)
    requires fPos < TWO32 && -0x8000_0000 <= offset < 0x8000_0000
    ensures whence != SeekOther ==> Leads(whence, fPos, fileSize, offset, Target(whence, fPos, fileSize, offset))
    ensures whence == SeekOther ==> Target(whence, fPos, fileSize, offset) == fPos
  {}

  /** Byte `x` of the file whose clusters are `ch`. */
  function FileByte(content: seq<seq<byte>>, size: nat, ch: seq<nat>, x: nat): byte
    requires size > 0
  {
    var k, o := Div(x, size), Rem(x, size);
    if k < |ch| && 2 <= ch[k] < |content| + 2 && o < |content[ch[k] - 2]| then content[ch[k] - 2][o] else 0
  }

  lemma DivIs(a: nat, d: nat, q: nat, r: nat)
    requires a == q * d + r && r < d
    ensures Div(a, d) == q && Rem(a, d) == r
  {
    var p := Div(a, d);
    if p < q {
      MulLe(p + 1, q, d);
      MulSum(p, 1, d);
    } else if p > q {
      MulLe(q + 1, p, d);
      MulSum(q, 1, d);
    }
  }

  /** Clusters loaded from cluster `index` on hold the file's bytes from there. */
  lemma HeldByte(buf: seq<byte>, size: nat, content: seq<seq<byte>>, ch: seq<nat>, index: nat, n: nat, y: nat)
    requires size > 0 && index <= |ch| && Holds(buf, size, content, ch[index..], n)
    requires y < n * size <= |buf|
    ensures buf[y] == FileByte(content, size, ch, index * size + y)
  {
    hide Div, Rem, BufClus, FileByte;
    var j, o := Div(y, size), Rem(y, size);
    MulSum(index, j, size);
    DivIs(index * size + y, size, index + j, o);
    if j >= n {
      MulLe(n, j, size);
    }
    MulLe(j + 1, n, size);
    MulSum(j, 1, size);
    ChunkIs(buf, size, j, j * size);
    assert buf[j * size..j * size + size][o] == buf[y];
    assert ch[index..][j] == ch[index + j];
    ByteIs(content, size, ch, index * size + y, index + j, o);
  }

  lemma ByteIs(content: seq<seq<byte>>, size: nat, ch: seq<nat>, x: nat, k: nat, o: nat)
    requires size > 0 && Div(x, size) == k && Rem(x, size) == o
    requires k < |ch| && 2 <= ch[k] < |content| + 2 && o < |content[ch[k] - 2]|
    ensures FileByte(content, size, ch, x) == content[ch[k] - 2][o]
  {
    hide Div, Rem;
  }

  /** Where a read of `bytes` bytes from offset `off` of cluster `index` ends: it needs `k` clusters. */
  lemma ReadEnd(size: nat, index: nat, off: nat, bytes: nat, k: nat)
    requires size > 0 && off < size && k == Div(off + bytes + size - 1, size)
    ensures off + bytes <= k * size && (k > 0 ==> (k - 1) * size < off + bytes)
    ensures Rem(index * size + off + bytes, size) == 0 ==>
      off + bytes == k * size && Div(index * size + off + bytes, size) == index + k
    ensures Rem(index * size + off + bytes, size) != 0 ==>
      k > 0 && off + bytes < k * size && Div(index * size + off + bytes, size) == index + k - 1
  {
    hide Div, Rem;
    var r := k * size - (off + bytes);
    if r == 0 {
      MulSum(index, k, size);
      DivIs(index * size + off + bytes, size, index + k, 0);
    } else {
      assert k > 0;
      MulSum(k, -1, size);
      MulSum(index, k - 1, size);
      DivIs(index * size + off + bytes, size, index + k - 1, size - r);
    }
  }

  /** Bytes fatuc_fread asks the cluster reader for. */
  function BytAl(size: nat, off: nat, bytesToRead: nat): nat
    requires size > 0
  {
    Div(U32(bytesToRead - 1 + off + size), size) * size
  }

  /** They are whole clusters that hold the bytes wanted, and none too many. */
  lemma BytAlCovers(size: nat, off: nat, bytesToRead: nat)
    requires size > 0 && off + bytesToRead + size <= TWO32
    ensures off + bytesToRead <= BytAl(size, off, bytesToRead) < off + bytesToRead + size
    ensures Rem(BytAl(size, off, bytesToRead), size) == 0
  {
    hide Div, Rem, U32;
    U32Small(bytesToRead - 1 + off + size);
    var k := Div(bytesToRead - 1 + off + size, size);
    DivIs(k * size, size, k, 0);
  }

  /** What the cursor says about an open file whose clusters are `ch`, before its end. */
  ghost predicate AtCursor(file: OpenFile, ch: seq<nat>, size: nat)
    requires size > 0
    reads file, file.fInfo
  {
    && file.fInfo.firstClus == FirstOf(ch) && file.fPos < TWO32
    && file.fInfo.fileSize <= |ch| * size
    && (file.fPos < file.fInfo.fileSize ==>
          CursorOk(file.fInfo.firstClus, file.fPos, file.fromClus, file.offInFromClus, ch, size))
  }

  lemma BytAlIs(size: nat, off: nat, bytesToRead: nat)
    requires size > 0
    ensures BytAl(size, off, bytesToRead) == Div(U32(bytesToRead - 1 + off + size), size) * size
  {}

  lemma InsideFile(fPos: nat, fileSize: nat, n: nat, size: nat)
    requires size > 0 && fPos < fileSize <= n * size
    ensures Div(fPos, size) < n
  {
    if n <= Div(fPos, size) {
      MulLe(n, Div(fPos, size), size);
    }
  }

  lemma Multiple(k: nat, size: nat)
    requires size > 0
    ensures Div(k * size, size) == k
  {
    DivIs(k * size, size, k, 0);
  }

  /** `n` bytes of the file from position `from` on. */
  function FileBytes(content: seq<seq<byte>>, size: nat, ch: seq<nat>, from: nat, n: nat): (s: seq<byte>)
    requires size > 0
    ensures |s| == n
  {
    seq<byte>(n, i requires 0 <= i < n => FileByte(content, size, ch, from + i))
  }

  lemma ReadBytes(buf: seq<byte>, size: nat, content: seq<seq<byte>>, ch: seq<nat>, index: nat, n: nat, off: nat,
                  bytes: nat)
    requires size > 0 && index <= |ch| && Holds(buf, size, content, ch[index..], n)
    requires off + bytes <= n * size <= |buf|
    ensures buf[off..off + bytes] == FileBytes(content, size, ch, index * size + off, bytes)
  {
    hide FileByte, Holds;
    var got, want := buf[off..off + bytes], FileBytes(content, size, ch, index * size + off, bytes);
    forall i | 0 <= i < bytes
      ensures got[i] == want[i]
    {
      HeldByte(buf, size, content, ch, index, n, off + i);
      assert index * size + (off + i) == index * size + off + i;
    }
  }

  lemma TailServed(dev: Device, g: Geo, ch: seq<nat>, k: nat)
    requires k <= |ch| && AllServed(dev, g, ch)
    ensures AllServed(dev, g, ch[k..])
  {}

  /** Where the cursor belongs after a read. */
  lemma CursorAfter(links: seq<Link>, lim: nat, firstClus: nat, ch: seq<nat>, size: nat, index: nat, off: nat,
                    bytes: nat, k: nat, fromClus: nat, newOff: nat)
    requires IsChain(links, lim, ch) && size > 0 && off < size && k == Div(off + bytes + size - 1, size)
    requires off + bytes <= (|ch| - index) * size && index <= |ch|
    requires var fPos := index * size + off + bytes;
      if Rem(fPos, size) != 0 then
        newOff == Rem(fPos, size) && (0 < k <= |ch| - index ==> fromClus == ch[index + k - 1])
      else newOff == off && (k < |ch| - index ==> fromClus == ch[index + k])
    ensures var fPos := index * size + off + bytes;
      && (CursorOk(firstClus, fPos, fromClus, newOff, ch, size) <==>
            Rem(fPos, size) != 0 || off == 0 || Div(fPos, size) >= |ch|)
      && CursorOk(firstClus, fPos, fromClus, Rem(fPos, size), ch, size)
  {
    hide Div, Rem, IsChain;
    ReadEnd(size, index, off, bytes, k);
    var fPos := index * size + off + bytes;
    var at := Div(fPos, size);
    if k > |ch| - index {
      MulLe(|ch| - index, k - 1, size);
    }
    if at < |ch| {
      EntersIndex(links, lim, firstClus, ch, at);
    }
  }

  /** The cursor's cluster as the start of the rest of the chain. */
  lemma EnterTail(links: seq<Link>, lim: nat, firstClus: nat, fPos: nat, fromClus: nat, off: nat, ch: seq<nat>,
                  size: nat)
    requires size > 0 && Div(fPos, size) < |ch| && CursorOk(firstClus, fPos, fromClus, off, ch, size)
    requires IsChain(links, lim, ch)
    ensures var index := Div(fPos, size);
      && IsChain(links, lim, ch[index..]) && EntersAt(firstClus, fromClus, ch[index..], 0)
      && fPos == index * size + off && off < size && off == Rem(fPos, size)
  {
    var index := Div(fPos, size);
    ChainTail(links, lim, ch, index);
    assert ch[index..][0..] == ch[index..];
  }

  /** The position, fromClus and offInFromClus of an open file. */
  datatype Pos = Pos(fPos: nat, fromClus: nat, off: nat)

  function PosOf(file: OpenFile): Pos
    reads file
  {
    Pos(file.fPos, file.fromClus, file.offInFromClus)
  }

  /** The end of fatuc_fread, in terms of the clusters loaded. */
  ghost predicate Finished(size: nat, fileSize: nat, bytesToRead: nat, n: nat, last: nat, was: Pos,
                           st: Status, atBuf: nat, bytesRead: nat, now: Pos)
    requires size > 0
  {
    var avail := n * size - was.off;
    0 <= avail < TWO32 && was.fPos + bytesToRead < TWO32 ==>
      && atBuf == was.off
      && (bytesToRead <= avail ==>
            && st == Ok && bytesRead == bytesToRead && now.fPos == was.fPos + bytesToRead
            && (if Rem(now.fPos, size) != 0 then now.fromClus == last && now.off == Rem(now.fPos, size)
                else now.fromClus == was.fromClus && now.off == was.off))
      && (avail < bytesToRead && was.fPos < fileSize <= was.fPos + avail ==>
            st == Ok && bytesRead == fileSize - was.fPos && now == Pos(fileSize, was.fromClus, was.off))
  }

  /** The end of fatuc_fread, after `n` clusters have been loaded. */
  method FinishRead(file: OpenFile, clusSize: nat, bytesToRead: nat, n: nat, lastClusRead: nat)
    returns (st: Status, atBuf: nat, bytesRead: nat)
    requires clusSize > 0 && file.fPos < TWO32 && bytesToRead < TWO32
    modifies file`fPos, file`fromClus, file`offInFromClus
    ensures (st == Ok || st == Unknown) && file.fPos < TWO32
    ensures Finished(clusSize, file.fInfo.fileSize, bytesToRead, n, lastClusRead, old(PosOf(file)),
                     st, atBuf, bytesRead, PosOf(file))
  {
    hide Rem, U32;
    var avail := n * clusSize - file.offInFromClus;
    if 0 <= avail < TWO32 {
      U32Small(avail);
    }
    if file.fPos + bytesToRead < TWO32 {
      U32Small(file.fPos + bytesToRead);
    }
    atBuf := file.offInFromClus;
    bytesRead := U32(n * clusSize - file.offInFromClus);
    if bytesRead < bytesToRead {
      if file.fPos + bytesToRead < TWO32 {
        U32Small(file.fPos + bytesRead);
      }
      if U32(file.fPos + bytesRead) >= file.fInfo.fileSize {
        if file.fPos + bytesToRead < TWO32 && file.fPos < file.fInfo.fileSize {
          U32Small(file.fInfo.fileSize - file.fPos);
          U32Small(file.fInfo.fileSize);
        }
        bytesRead := U32(file.fInfo.fileSize - file.fPos);
        file.fPos := U32(file.fPos + bytesRead);
        return Ok, atBuf, bytesRead;
      }
      return Unknown, atBuf, bytesRead;
    }
    bytesRead := bytesToRead;
    file.fPos := U32(file.fPos + bytesToRead);
    if Rem(file.fPos, clusSize) != 0 {
      file.fromClus := lastClusRead;
      file.offInFromClus := Rem(file.fPos, clusSize);
    }
    return Ok, atBuf, bytesRead;
  }

  /** A read of `bytes` bytes gets them all exactly if the chain holds them. */
  lemma Enough(size: nat, index: nat, off: nat, bytes: nat, k: nat, len: nat)
    requires size > 0 && off < size && index < len && k == Div(off + bytes + size - 1, size)
    ensures off <= Min(k, len - index) * size && index * size + (len - index) * size == len * size
    ensures off + bytes <= Min(k, len - index) * size <==> index * size + off + bytes <= len * size
    ensures index * size + off + bytes > len * size ==>
      Min(k, len - index) == len - index
  {
    hide Div;
    MulSum(index, len - index, size);
    ReadEnd(size, index, off, bytes, k);
    if k <= len - index {
      MulLe(k, len - index, size);
    } else {
      MulLe(len - index, k - 1, size);
    }
    MulLe(1, len - index, size);
    if k > 0 {
      MulLe(1, k, size);
    }
  }

  /** A read delivers the file's bytes from its position on: all that were asked for if the file's clusters
      hold them (also those beyond fileSize), otherwise those up to fileSize. After a full read the cursor
      is right unless the read started inside a cluster and ended at the start of another one; after one cut
      off at fileSize it is right only if the end of the file happens to lie at the old offset of the cluster
      `resume`, or behind the chain. */
  ghost predicate Delivered(content: seq<seq<byte>>, size: nat, ch: seq<nat>, firstClus: nat, fileSize: nat,
                            bytesToRead: nat, fPos: nat, off: nat, resume: nat, st: Status, buf: seq<byte>, atBuf: nat,
                            bytesRead: nat, now: Pos)
    requires size > 0
  {
    && st == Ok
    && bytesRead == (if fPos + bytesToRead <= |ch| * size then bytesToRead else fileSize - fPos)
    && now.fPos == fPos + bytesRead
    && now.off == (if fPos + bytesToRead <= |ch| * size && Rem(now.fPos, size) != 0 then Rem(now.fPos, size) else off)
    && (fPos + bytesToRead > |ch| * size || Div(now.fPos, size) >= |ch| ==> now.fromClus == resume)
    && atBuf + bytesRead <= |buf| && buf[atBuf..atBuf + bytesRead] == FileBytes(content, size, ch, fPos, bytesRead)
    && (fPos + bytesToRead <= |ch| * size ==>
          (CursorOk(firstClus, now.fPos, now.fromClus, now.off, ch, size) <==>
             Rem(now.fPos, size) != 0 || off == 0 || Div(now.fPos, size) >= |ch|)
          && CursorOk(firstClus, now.fPos, now.fromClus, Rem(now.fPos, size), ch, size))
    && (fPos + bytesToRead > |ch| * size ==>
          (CursorOk(firstClus, now.fPos, now.fromClus, now.off, ch, size) <==>
             Div(now.fPos, size) >= |ch|
             || (off == Rem(now.fPos, size) && EntersAt(firstClus, resume, ch, Div(now.fPos, size)))))
  }

  /** The guard of a read: no 32-bit sum in it wraps. */
  predicate NoWrap(size: nat, fPos: nat, off: nat, bytesToRead: nat) {
    off + bytesToRead + size <= TWO32 && fPos + bytesToRead < TWO32
  }

  lemma CursorIs(firstClus: nat, fPos: nat, fromClus: nat, off: nat, ch: seq<nat>, size: nat)
    requires size > 0
    ensures CursorOk(firstClus, fPos, fromClus, off, ch, size) <==>
      Div(fPos, size) >= |ch| || (off == Rem(fPos, size) && EntersAt(firstClus, fromClus, ch, Div(fPos, size)))
  {}

  /** After 412 bytes have been read from position 100 of a file with clusters of 512 bytes, the cursor is on
      the second cluster, where position 512 is, but still at offset 100. */
  lemma AlignedEndFails(now: Pos)
    requires Finished(512, 1536, 412, 1, 2, Pos(100, 3, 100), Ok, 100, 412, now)
    ensures now == Pos(512, 3, 100) && !CursorOk(2, now.fPos, now.fromClus, now.off, [2, 3, 4], 512)
  {
    DivIs(512, 512, 1, 0);
  }

  /** A read of all bytes that ends behind the last cluster has read to the end of the chain. */
  lemma EndsBehind(size: nat, index: nat, off: nat, bytes: nat, k: nat, len: nat)
    requires size > 0 && off < size && index < len && k == Div(off + bytes + size - 1, size)
    ensures index * size + off + bytes <= len * size && Div(index * size + off + bytes, size) >= len ==>
      Rem(index * size + off + bytes, size) == 0 && k >= len - index
  {
    hide Div, Rem;
    ReadEnd(size, index, off, bytes, k);
    MulSum(index, len - index, size);
    if k > len - index {
      MulLe(len - index, k - 1, size);
    }
  }

  lemma ReadDone(links: seq<Link>, lim: nat, firstClus: nat, ch: seq<nat>, size: nat, content: seq<seq<byte>>,
                 buf: seq<byte>, index: nat, bytesToRead: nat, k: nat, fileSize: nat, n: nat, last: nat, was: Pos,
                 resume: nat, st: Status, atBuf: nat, bytesRead: nat, now: Pos)
    requires IsChain(links, lim, ch) && size > 0 && index < |ch| && was.off < size
    requires was.fPos == index * size + was.off < fileSize <= |ch| * size
    requires NoWrap(size, was.fPos, was.off, bytesToRead)
    requires k == Div(was.off + bytesToRead + size - 1, size) && k * size <= |buf|
    requires n == Min(k, |ch| - index) && Holds(buf, size, content, ch[index..], n)
    requires was.fromClus == if k < |ch| - index then ch[index + k] else resume
    requires n > 0 ==> last == ch[index + n - 1]
    requires Finished(size, fileSize, bytesToRead, n, last, was, st, atBuf, bytesRead, now)
    ensures Delivered(content, size, ch, firstClus, fileSize, bytesToRead, was.fPos, was.off, resume, st, buf,
                      atBuf, bytesRead, now)
  {
    hide IsChain, Div, Rem, Holds, FileBytes, CursorOk;
    var off, fPos := was.off, was.fPos;
    Enough(size, index, off, bytesToRead, k, |ch|);
    EndsBehind(size, index, off, bytesToRead, k, |ch|);
    MulLe(n, k, size);
    ReadBytes(buf, size, content, ch, index, n, off, bytesRead);
    if fPos + bytesToRead <= |ch| * size {
      CursorAfter(links, lim, firstClus, ch, size, index, off, bytesToRead, k, now.fromClus, now.off);
    } else {
      CursorIs(firstClus, now.fPos, now.fromClus, now.off, ch, size);
    }
  }

  /** Where reading to the end of a chain from cluster `index` on leaves fromClus: at the start of the last
      batch of runs. */
  function ResumeAt(ch: seq<nat>, index: nat, fromClus: nat): nat {
    if index <= |ch| then LastStart(Runs(ch[index..]), CLIST_SIZE, fromClus) else fromClus
  }

  /** The call of fatfs__loadfileclus_usefileinfo in fatuc_fread: `k` clusters from cluster `index` on. */
  method LoadAtCursor(fat: Fat, file: OpenFile, buf: array<byte>, bytAl: nat, ghost ch: seq<nat>, ghost index: nat,
                      ghost k: nat)
    returns (st: Status, totalClusRead: nat, lastClusRead: nat)
    requires Ready(fat) && fat.links[0] == End && IsChain(fat.links, fat.geo.ClusLimit(), ch) && buf != fat.FBuf
    requires AtCursor(file, ch, fat.geo.ClusSize()) && index == Div(file.fPos, fat.geo.ClusSize()) < |ch|
    requires file.fPos < file.fInfo.fileSize
    requires bytAl == k * fat.geo.ClusSize() <= buf.Length
    modifies fat`curFatStartEntry, fat`curFatEndEntry, fat`curFatPartStartSecAbs, fat`curFatEndSecAbs,
      fat`fatUpdated, fat.dev, fat.FBuf, buf, file`fromClus
    ensures Ready(fat) && Content(fat) == old(Content(fat))
    ensures file.fPos == index * fat.geo.ClusSize() + file.offInFromClus && file.offInFromClus < fat.geo.ClusSize()
    ensures st in {Ok, TryAgain, DeviceError}
    ensures st == DeviceError ==>
      !AllServed(fat.dev, fat.geo, ch) && (file.fromClus == old(file.fromClus) || file.fromClus in ch[index..])
    ensures st != DeviceError ==>
      && totalClusRead == Min(k, |ch| - index)
      && Holds(buf[..], fat.geo.ClusSize(), Content(fat), ch[index..], totalClusRead)
      && file.fromClus == (if k < |ch| - index then ch[index + k] else ResumeAt(ch, index, old(file.fromClus)))
      && (totalClusRead > 0 ==> lastClusRead == ch[index + totalClusRead - 1])
  {
    hide Ready, Content, OnDevice, IsChain, EntersAt, Rem, Div, Geo.ClusSize, Geo.ClusBytes, CursorOk, Holds, AllServed,
      LastStart, Runs;
    EnterTail(fat.links, fat.geo.ClusLimit(), file.fInfo.firstClus, file.fPos, file.fromClus, file.offInFromClus, ch,
              fat.geo.ClusSize());
    Multiple(k, fat.geo.ClusSize());
    ClusBytesIs(fat.geo, k);
    var from;
    st, totalClusRead, lastClusRead, from :=
      LoadFileClus(fat, file.fInfo.firstClus, buf, bytAl, file.fromClus, ch[index..]);
    file.fromClus := from;
    if AllServed(fat.dev, fat.geo, ch) {
      TailServed(fat.dev, fat.geo, ch, index);
    }
  }

  /** The cursor after a read that a transfer has broken off: its cluster may have moved on along the chain,
      and the cursor is right exactly if that has not happened. */
  ghost predicate Interrupted(firstClus: nat, ch: seq<nat>, size: nat, fPos: nat, off: nat, was: nat, fromClus: nat)
    requires size > 0
  {
    var index := Div(fPos, size);
    && index < |ch| && (fromClus == was || fromClus in ch[index..])
    && (CursorOk(firstClus, fPos, fromClus, off, ch, size) <==> fromClus in {was, ch[index]})
  }

  lemma InterruptedAt(links: seq<Link>, lim: nat, firstClus: nat, ch: seq<nat>, size: nat, fPos: nat, off: nat,
                      was: nat, fromClus: nat)
    requires IsChain(links, lim, ch) && size > 0 && Div(fPos, size) < |ch|
    requires CursorOk(firstClus, fPos, was, off, ch, size)
    requires fromClus == was || fromClus in ch[Div(fPos, size)..]
    ensures Interrupted(firstClus, ch, size, fPos, off, was, fromClus)
  {
    hide Div, IsChain;
    var index := Div(fPos, size);
    EntersIndex(links, lim, firstClus, ch, index);
    if fromClus != was {
      var i :| 0 <= i < |ch[index..]| && ch[index..][i] == fromClus;
      ChainCluster(links, lim, ch, index + i);
      assert ch[index..][0] == ch[index];
    }
  }

  /** fatuc_fread */
  method Read(fat: Fat, file: OpenFile, buf: array<byte>, bufLen: nat, bytesToRead: nat, ghost ch: seq<nat>)
    returns (st: Status, atBuf: nat, bytesRead: nat)
    requires Ready(fat) && fat.links[0] == End && IsChain(fat.links, fat.geo.ClusLimit(), ch)
    requires AtCursor(file, ch, fat.geo.ClusSize()) && buf != fat.FBuf && bufLen <= buf.Length && bytesToRead < TWO32
    modifies fat`curFatStartEntry, fat`curFatEndEntry, fat`curFatPartStartSecAbs, fat`curFatEndSecAbs,
      fat`fatUpdated, fat.dev, fat.FBuf, buf, file`fPos, file`fromClus, file`offInFromClus
    ensures Ready(fat) && Content(fat) == old(Content(fat)) && file.fPos < TWO32
    ensures var size := fat.geo.ClusSize(); var need := BytAl(size, old(file.offInFromClus), bytesToRead);
      if !old(file.used) then st == Invalid
      else if old(file.fPos) >= file.fInfo.fileSize then st == Eof
      else if need > bufLen then st == InsufficientResource
      else st in {Ok, Unknown, DeviceError}
    ensures st in {Invalid, Eof, InsufficientResource} ==> PosOf(file) == old(PosOf(file))
    ensures var size := fat.geo.ClusSize();
      st == DeviceError ==>
        && !AllServed(fat.dev, fat.geo, ch) && file.fPos == old(file.fPos)
        && file.offInFromClus == old(file.offInFromClus)
        && Interrupted(file.fInfo.firstClus, ch, size, file.fPos, file.offInFromClus, old(file.fromClus), file.fromClus)
    ensures var size := fat.geo.ClusSize();
      st in {Ok, Unknown} && NoWrap(size, old(file.fPos), old(file.offInFromClus), bytesToRead) ==>
        Delivered(Content(fat), size, ch, file.fInfo.firstClus, file.fInfo.fileSize, bytesToRead,
                  old(file.fPos), old(file.offInFromClus),
                  ResumeAt(ch, Div(old(file.fPos), size), old(file.fromClus)), st,
                  buf[..], atBuf, bytesRead, PosOf(file))
  {
    hide Ready, Content, OnDevice, IsChain, EntersAt, Rem, Div, Geo.ClusSize, Geo.ClusBytes, CursorOk, Holds, AllServed,
      Finished, Delivered, BytAl, U32, ResumeAt, Interrupted;
    atBuf, bytesRead := 0, 0;
    if !file.used {
      return Invalid, atBuf, bytesRead;
    }
    if file.fPos >= file.fInfo.fileSize {
      return Eof, atBuf, bytesRead;
    }
    var clusSize := fat.geo.secPerClus * fat.geo.bytPerSec;
    SizeIs(fat.geo);
    var bytAl := BytAl(clusSize, file.offInFromClus, bytesToRead);
    if bytAl > bufLen {
      return InsufficientResource, atBuf, bytesRead;
    }
    ghost var index, fPos, off, from0 := Div(file.fPos, clusSize), file.fPos, file.offInFromClus, file.fromClus;
    InsideFile(file.fPos, file.fInfo.fileSize, |ch|, clusSize);
    ghost var k := Div(U32(bytesToRead - 1 + off + clusSize), clusSize);
    BytAlIs(clusSize, off, bytesToRead);
    var totalClusRead, lastClusRead;
    st, totalClusRead, lastClusRead := LoadAtCursor(fat, file, buf, bytAl, ch, index, k);
    if st != Ok && st != TryAgain {
      InterruptedAt(fat.links, fat.geo.ClusLimit(), file.fInfo.firstClus, ch, clusSize, fPos, off, from0,
                    file.fromClus);
      return;
    }
    ghost var was := PosOf(file);
    st, atBuf, bytesRead := FinishRead(file, clusSize, bytesToRead, totalClusRead, lastClusRead);
    if NoWrap(clusSize, fPos, off, bytesToRead) {
      U32Small(bytesToRead - 1 + off + clusSize);
      ReadDone(fat.links, fat.geo.ClusLimit(), file.fInfo.firstClus, ch, clusSize, Content(fat), buf[..], index,
               bytesToRead, k, file.fInfo.fileSize, totalClusRead, lastClusRead, was, ResumeAt(ch, index, from0), st,
               atBuf, bytesRead, PosOf(file));
    }
  }
}
