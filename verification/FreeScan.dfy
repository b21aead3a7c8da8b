/** The filtered scan for free runs and the allocator that hands them out, as functions of the FAT. */
module FreeScan {
  import opened FatEntries
  import opened Chains

  /** The free clusters in [lo, hi), ascending. */
  function FreeList(links: seq<Link>, lo: nat, hi: nat): (s: seq<nat>)
    ensures forall c :: c in s ==> lo <= c < hi && Look(links, c) == Free
  {
    if hi <= lo then []
    else FreeList(links, lo, hi - 1) + if Look(links, hi - 1) == Free then [hi - 1] else []
  }

  /** The runs with at least `min` adjacent clusters after the first. */
  function Long(rs: seq<Run>, min: nat): seq<Run> {
    if rs == [] then []
    else Long(rs[..|rs| - 1], min) + if rs[|rs| - 1].adj >= min then [rs[|rs| - 1]] else []
  }

  /** The long runs, and the last run whatever its length. */
  function Keep(rs: seq<Run>, min: nat): (r: seq<Run>)
    ensures r == [] <==> rs == []
  {
    if rs == [] then [] else Long(rs[..|rs| - 1], min) + [rs[|rs| - 1]]
  }

  /** The base of the run that follows the first `n` long ones. */
  function NextBase(rs: seq<Run>, min: nat, n: nat): nat {
    if rs == [] then 0
    else if n == 0 then rs[0].base
    else NextBase(rs[1..], min, if rs[0].adj >= min then n - 1 else n)
  }

  function ScanFrom(from: nat): nat { if from < 2 then 2 else from }

  /** fatfs__getoptifreecluslist: status, runs and the cluster to resume from. */
  function ScanBatch(links: seq<Link>, from: nat, hi: nat, min: nat, cap: nat): (Status, seq<Run>, nat) {
    var lo := ScanFrom(from);
    var all := Runs(FreeList(links, lo, hi));
    var kept := Keep(all, min);
    if kept == [] then (NoMore, [], lo)
    else if |kept| <= cap then (Ok, kept, lo)
    else (TryAgain, kept[..cap], NextBase(all, min, cap))
  }

  lemma LongSnoc(rs: seq<Run>, r: Run, min: nat)
    ensures Long(rs + [r], min) == Long(rs, min) + if r.adj >= min then [r] else []
  {
    assert (rs + [r])[..|rs|] == rs;
  }

  lemma KeepSnoc(rs: seq<Run>, r: Run, min: nat)
    ensures Keep(rs + [r], min) == Long(rs, min) + [r]
  {
    assert (rs + [r])[..|rs|] == rs;
  }

  lemma {:induction false} LongConcat(a: seq<Run>, b: seq<Run>, min: nat)
    ensures Long(a + b, min) == Long(a, min) + Long(b, min)
  {
    hide Long;
    if b == [] {
      assert a + b == a;
      LongEmpty(min);
    } else {
      var front, r := b[..|b| - 1], b[|b| - 1];
      assert a + b == (a + front) + [r] && b == front + [r];
      LongSnoc(a + front, r, min);
      LongSnoc(front, r, min);
      LongConcat(a, front, min);
    }
  }

  lemma LongEmpty(min: nat)
    ensures Long([], min) == []
  {}

  lemma KeepConcat(a: seq<Run>, b: seq<Run>, min: nat)
    requires b != []
    ensures Keep(a + b, min) == Long(a, min) + Keep(b, min)
  {
    var front, r := b[..|b| - 1], b[|b| - 1];
    assert a + b == (a + front) + [r] && b == front + [r];
    KeepSnoc(a + front, r, min);
    KeepSnoc(front, r, min);
    LongConcat(a, front, min);
  }

  /** With minimum 0 nothing is dropped. */
  lemma {:induction false} LongOfZero(rs: seq<Run>)
    ensures Long(rs, 0) == rs
  {
    if rs != [] {
      LongOfZero(rs[..|rs| - 1]);
    }
  }

  lemma KeepOfZero(rs: seq<Run>)
    ensures Keep(rs, 0) == rs
  {
    hide Long;
    if rs != [] {
      LongOfZero(rs[..|rs| - 1]);
      assert rs == rs[..|rs| - 1] + [rs[|rs| - 1]];
      KeepSnoc(rs[..|rs| - 1], rs[|rs| - 1], 0);
    }
  }

  /** Kept runs are runs of the list, every long run is kept, and only the last kept run can be short. */
  lemma {:induction false} LongExact(rs: seq<Run>, min: nat)
    ensures forall r :: r in Long(rs, min) <==> r in rs && r.adj >= min
  {
    if rs != [] {
      LongExact(rs[..|rs| - 1], min);
      assert rs == rs[..|rs| - 1] + [rs[|rs| - 1]];
    }
  }

  lemma KeepExact(rs: seq<Run>, min: nat)
    requires rs != []
    ensures var k := Keep(rs, min);
      && (forall r :: r in k ==> r in rs)
      && (forall r :: r in rs && r.adj >= min ==> r in k)
      && (forall i :: 0 <= i < |k| - 1 ==> k[i].adj >= min)
      && k[|k| - 1] == rs[|rs| - 1]
  {
    var front := rs[..|rs| - 1];
    LongExact(front, min);
    assert rs == front + [rs[|rs| - 1]];
    assert forall i :: 0 <= i < |Long(front, min)| ==> Long(front, min)[i] in Long(front, min);
  }

  lemma FreeListStep(links: seq<Link>, lo: nat, hi: nat)
    requires lo <= hi
    ensures FreeList(links, lo, hi + 1) == FreeList(links, lo, hi) + if Look(links, hi) == Free then [hi] else []
  {}

  lemma FreeListNone(links: seq<Link>, lo: nat, hi: nat)
    requires hi <= lo
    ensures FreeList(links, lo, hi) == []
  {}

  lemma {:induction false} FreeListSplit(links: seq<Link>, lo: nat, mid: nat, hi: nat)
    requires lo <= mid <= hi
    ensures FreeList(links, lo, hi) == FreeList(links, lo, mid) + FreeList(links, mid, hi)
  {
    hide Look, FreeList;
    if mid < hi {
      FreeListSplit(links, lo, mid, hi - 1);
      FreeListStep(links, lo, hi - 1);
      FreeListStep(links, mid, hi - 1);
    } else {
      FreeListNone(links, mid, hi);
    }
  }

  /** The list is ascending and complete. */
  lemma {:induction false} FreeListExact(links: seq<Link>, lo: nat, hi: nat)
    ensures forall c :: c in FreeList(links, lo, hi) <==> lo <= c < hi && Look(links, c) == Free
    ensures Ascending(FreeList(links, lo, hi))
  {
    if lo < hi {
      FreeListExact(links, lo, hi - 1);
      var front, s := FreeList(links, lo, hi - 1), FreeList(links, lo, hi);
      forall i, j | 0 <= i < j < |s|
        ensures s[i] < s[j]
      {
        assert s[i] == front[i] && front[i] in front;
        if j < |front| {
          assert s[j] == front[j];
        }
      }
    }
  }

  lemma {:induction false} SameFree(links: seq<Link>, after: seq<Link>, lo: nat, hi: nat)
    requires forall x :: lo <= x < hi ==> (Look(links, x) == Free <==> Look(after, x) == Free)
    ensures FreeList(links, lo, hi) == FreeList(after, lo, hi)
  {
    hide Look, FreeList;
    if lo < hi {
      SameFree(links, after, lo, hi - 1);
      FreeListStep(links, lo, hi - 1);
      FreeListStep(after, lo, hi - 1);
    } else {
      FreeListNone(links, lo, hi);
      FreeListNone(after, lo, hi);
    }
  }

  lemma FreeListFirst(links: seq<Link>, lo: nat, hi: nat)
    requires lo < hi && Look(links, lo) == Free
    ensures FreeList(links, lo, hi) != [] && FreeList(links, lo, hi)[0] == lo
  {
    FreeListSplit(links, lo, lo + 1, hi);
    assert FreeList(links, lo, lo + 1) == [lo];
  }

  lemma {:induction false} NextBaseSplit(a: seq<Run>, b: seq<Run>, min: nat)
    requires b != [] && (a != [] ==> a[|a| - 1].adj >= min)
    ensures NextBase(a + b, min, |Long(a, min)|) == b[0].base
  {
    hide Long;
    if a == [] {
      LongEmpty(min);
      assert a + b == b;
    } else {
      var t := a[1..];
      assert a == [a[0]] + t && (a + b)[1..] == t + b;
      LongFirst(a, min);
      NextBaseSplit(t, b, min);
      if t != [] {
        LongExact(t, min);
        assert t[|t| - 1] in Long(t, min);
      } else {
        LongEmpty(min);
      }
    }
  }

  lemma LongFirst(a: seq<Run>, min: nat)
    requires a != []
    ensures |Long(a, min)| == |Long(a[1..], min)| + if a[0].adj >= min then 1 else 0
  {
    hide Long;
    assert a == [a[0]] + a[1..];
    LongConcat([a[0]], a[1..], min);
    LongSnoc([], a[0], min);
    LongEmpty(min);
    assert [] + [a[0]] == [a[0]];
  }

  /** A scan split at a free cluster `c` that does not continue the run before it: if that run is long,
      the runs so far are a prefix of what is kept, and the next base is `c`. */
  lemma ScanSplit(links: seq<Link>, lo: nat, c: nat, hi: nat, min: nat)
    requires lo <= c < hi && Look(links, c) == Free
    requires var before := FreeList(links, lo, c); before != [] ==> before[|before| - 1] + 1 != c
    ensures var a, all := Runs(FreeList(links, lo, c)), Runs(FreeList(links, lo, hi));
      a != [] && a[|a| - 1].adj >= min ==>
        && |Keep(all, min)| > |Keep(a, min)| && Keep(all, min)[..|Keep(a, min)|] == Keep(a, min)
        && NextBase(all, min, |Keep(a, min)|) == c
  {
    hide Runs, Long, FreeList, NextBase, Look;
    var before, rest := FreeList(links, lo, c), FreeList(links, c, hi);
    var a, b := Runs(before), Runs(rest);
    FreeListSplit(links, lo, c, hi);
    FreeListFirst(links, c, hi);
    RunsFirst(rest);
    RunsConcat(before, rest);
    if a != [] && a[|a| - 1].adj >= min {
      LongSnoc(a[..|a| - 1], a[|a| - 1], min);
      assert a == a[..|a| - 1] + [a[|a| - 1]];
      KeepConcat(a, b, min);
      NextBaseSplit(a, b, min);
    }
  }

  /** The position in `rs` right after its `n`-th long run. */
  lemma {:induction false} CutAfter(rs: seq<Run>, min: nat, n: nat) returns (m: nat)
    requires 1 <= n <= |Long(rs, min)|
    ensures 1 <= m <= |rs| && |Long(rs[..m], min)| == n && rs[m - 1].adj >= min
  {
    var front := rs[..|rs| - 1];
    if |Long(front, min)| >= n {
      m := CutAfter(front, min, n);
      assert rs[..m] == front[..m];
    } else {
      m := |rs|;
      assert rs[..m] == rs;
    }
  }

  /** The free list of a suffix of the runs. */
  lemma SuffixOfFreeList(links: seq<Link>, lo: nat, hi: nat, a: seq<Run>, b: seq<Run>)
    requires Runs(FreeList(links, lo, hi)) == a + b && b != []
    ensures var c := b[0].base;
      && lo <= c < hi && Look(links, c) == Free
      && FreeList(links, lo, c) == Expand(a) && FreeList(links, c, hi) == Expand(b)
  {
    var all := FreeList(links, lo, hi);
    var c := b[0].base;
    RunsCanonical(all);
    ExpandConcat(a, b);
    assert Expand(b)[0] == Clusters(b[0])[0] == c;
    var k := |Expand(a)|;
    assert all[k] == c;
    FreeListExact(links, lo, hi);
    assert c in all;
    FreeListSplit(links, lo, c, hi);
    FreeListFirst(links, c, hi);
    FreeListExact(links, lo, c);
    var x := FreeList(links, lo, c);
    assert all[|x|] == c;
    assert all == x + FreeList(links, c, hi);
    assert |x| == k;
    assert x == all[..k] && Expand(a) == all[..k];
    assert FreeList(links, c, hi) == all[k..] && Expand(b) == all[k..];
  }

  /** The scan is exact: a full batch holds long runs only, and the batches of the resumed scan complete
      it to the kept runs of the whole range. */
  lemma ScanResumes(links: seq<Link>, from: nat, hi: nat, min: nat, cap: nat)
    requires cap >= 1
    ensures var (st, rs, next) := ScanBatch(links, from, hi, min, cap);
      var lo := ScanFrom(from);
      var kept := Keep(Runs(FreeList(links, lo, hi)), min);
      && st in {Ok, TryAgain, NoMore}
      && (st == TryAgain ==>
            && lo < next < hi && Look(links, next) == Free && |rs| == cap
            && (forall r :: r in rs ==> r.adj >= min && r.Last() < next)
            && kept == rs + Keep(Runs(FreeList(links, next, hi)), min))
      && (st == Ok ==> rs == kept && next == lo)
      && (st == NoMore ==> kept == [] && rs == [] && next == lo)
  {
    hide Runs, Long, Keep, FreeList, NextBase;
    var lo := ScanFrom(from);
    if |Keep(Runs(FreeList(links, lo, hi)), min)| > cap {
      FullScan(links, lo, hi, min, cap);
    }
  }

  /** The batches of a scan that is resumed until it is complete. */
  ghost predicate Scanned(links: seq<Link>, from: nat, hi: nat, min: nat, cap: nat, bs: seq<seq<Run>>)
    decreases |bs|
  {
    var (st, rs, next) := ScanBatch(links, from, hi, min, cap);
    && bs != [] && bs[0] == rs
    && (if |bs| == 1 then st != TryAgain else st == TryAgain && Scanned(links, next, hi, min, cap, bs[1..]))
  }

  /** Whatever the batch size, the batches add up to the kept runs of the range; with minimum 0 these are
      exactly its maximal free runs. */
  lemma {:induction false} BatchesAreKept(links: seq<Link>, from: nat, hi: nat, min: nat, cap: nat, bs: seq<seq<Run>>)
    requires cap >= 1 && Scanned(links, from, hi, min, cap, bs)
    ensures Flat(bs) == Keep(Runs(FreeList(links, ScanFrom(from), hi)), min)
    ensures min == 0 ==> Flat(bs) == Runs(FreeList(links, ScanFrom(from), hi))
    decreases |bs|
  {
    hide Runs, Keep, FreeList, ScanBatch;
    ScanResumes(links, from, hi, min, cap);
    KeepOfZero(Runs(FreeList(links, ScanFrom(from), hi)));
    if |bs| == 1 {
      assert Flat(bs) == bs[0] + [];
    } else {
      BatchesAreKept(links, ScanBatch(links, from, hi, min, cap).2, hi, min, cap, bs[1..]);
    }
  }

  lemma FullScan(links: seq<Link>, lo: nat, hi: nat, min: nat, cap: nat)
    requires cap >= 1 && |Keep(Runs(FreeList(links, lo, hi)), min)| > cap
    ensures var all := Runs(FreeList(links, lo, hi)); var kept, next := Keep(all, min), NextBase(all, min, cap);
      && lo < next < hi && Look(links, next) == Free
      && (forall r :: r in kept[..cap] ==> r.adj >= min && r.Last() < next)
      && kept == kept[..cap] + Keep(Runs(FreeList(links, next, hi)), min)
  {
    hide Runs, Long, Keep, FreeList, NextBase, Expand;
    var all := Runs(FreeList(links, lo, hi));
    var a, b := CutRuns(all, min, cap);
    SuffixOfFreeList(links, lo, hi, a, b);
    RunsCanonical(FreeList(links, lo, hi));
    MaximalParts(a, b);
    RunsUnique(b);
    LongExact(a, min);
    ExpandNonEmpty(a);
    FreeListExact(links, lo, b[0].base);
    forall r | r in a
      ensures r.Last() < b[0].base
    {
      RunInside(a, r);
    }
  }

  /** The last cluster of a run is one of the clusters of the runs. */
  lemma {:induction false} RunInside(rs: seq<Run>, r: Run)
    requires r in rs
    ensures r.Last() in Expand(rs)
  {
    if rs[0] == r {
      ClusterIn(r, r.Last());
    } else {
      RunInside(rs[1..], r);
    }
  }

  /** The runs cut where a full batch ends. */
  lemma CutRuns(all: seq<Run>, min: nat, cap: nat) returns (a: seq<Run>, b: seq<Run>)
    requires cap >= 1 && |Keep(all, min)| > cap
    ensures all == a + b && a != [] && b != [] && NextBase(all, min, cap) == b[0].base
    ensures Keep(all, min) == Long(a, min) + Keep(b, min) && |Long(a, min)| == cap
  {
    hide Long, NextBase;
    var m := CutAfter(all[..|all| - 1], min, cap);
    assert all[..|all| - 1][..m] == all[..m];
    a, b := all[..m], all[m..];
    assert all == a + b;
    KeepConcat(a, b, min);
    NextBaseSplit(a, b, min);
  }

  lemma ExpandNonEmpty(rs: seq<Run>)
    requires rs != []
    ensures Expand(rs) != []
  {}
}
