/** The free-run scan, the free-run cache and the free counter as fatfs.c keeps them. */
module FreeOps {
  import opened Geometry
  import opened FatEntries
  import opened FatWindow
  import opened Volume
  import opened Chains
  import opened FreeSpace
  import opened FreeScan
  import opened Allocator

  /** How the kept runs change when the scan meets the free cluster `c`. */
  lemma KeepAdd(rs: seq<Run>, c: nat, min: nat)
    requires rs != []
    ensures var k := Keep(rs, min); var n := |k| - 1; var last := rs[|rs| - 1];
      && k[n] == last
      && (if last.Last() + 1 == c then Keep(AddCluster(rs, c), min) == k[..n] + [Run(last.base, last.adj + 1)]
          else Keep(AddCluster(rs, c), min) == Long(rs, min) + [Run(c, 0)])
      && Long(rs, min) == (if last.adj >= min then k else k[..n])
  {
    hide Keep, Long, AddCluster;
    var front, last := rs[..|rs| - 1], rs[|rs| - 1];
    assert rs == front + [last];
    KeepSnoc(front, last, min);
    LongSnoc(front, last, min);
    AddToLast(front, last, c);
    KeepSnoc(rs, Run(c, 0), min);
    KeepSnoc(front, Run(last.base, last.adj + 1), min);
    assert (Long(front, min) + [last])[..|Long(front, min)|] == Long(front, min);
  }

  lemma AddToLast(front: seq<Run>, last: Run, c: nat)
    ensures AddCluster(front + [last], c) ==
      if last.Last() + 1 == c then front + [Run(last.base, last.adj + 1)] else front + [last] + [Run(c, 0)]
  {
    assert (front + [last])[..|front|] == front;
  }

  /** The free clusters among the last two of the data region. The scan ends before them: its bound is the
      number of data clusters, which are counted from 2 on. */
  function Missed(links: seq<Link>, hi: nat): set<nat> {
    set c | hi <= c < hi + 2 && 2 <= c && Look(links, c) == Free
  }

  /** A scan of the whole FAT finds all free clusters but these. */
  lemma CountExactIff(links: seq<Link>, hi: nat)
    ensures |FreeSet(links, hi + 2)| == |FreeList(links, 2, hi)| + |Missed(links, hi)|
    ensures |FreeList(links, 2, hi)| == |FreeSet(links, hi + 2)| <==> Missed(links, hi) == {}
  {
    hide Look, FreeList;
    var free := FreeList(links, 2, hi);
    FreeListExact(links, 2, hi);
    DistinctSize(free);
    assert SetOf(free) !! Missed(links, hi);
    assert FreeSet(links, hi + 2) == SetOf(free) + Missed(links, hi);
  }

  /** A volume of four data clusters, two of them free, of which one is counted. */
  lemma LastClusterMissed()
    ensures var links := [End, End, Free, End, Free, End];
      FreeList(links, 2, 4) == [2] && Runs([2]) == [Run(2, 0)] && FreeSet(links, 6) == {2, 4}
  {
    hide FreeList, Runs;
    var links := [End, End, Free, End, Free, End];
    FreeListNone(links, 2, 2);
    FreeListStep(links, 2, 2);
    FreeListStep(links, 2, 3);
    assert [] + [2] == [2] && [2] + [] == [2];
    RunsOfRun(Run(2, 0));
    assert Clusters(Run(2, 0)) == [2];
  }

  /** fatfs__getoptifreecluslist */
  method GetOptiFreeRuns(fat: Fat, cl: array<Run>, clSize: nat, min: nat, fromClus: nat)
    returns (st: Status, size: nat, from: nat)
    requires Ready(fat) && 1 <= clSize <= cl.Length
    modifies fat`curFatStartEntry, fat`curFatEndEntry, fat`curFatPartStartSecAbs, fat`curFatEndSecAbs,
      fat`fatUpdated, fat.dev, fat.FBuf, cl
    ensures Ready(fat) && Content(fat) == old(Content(fat))
    ensures size <= clSize && (st, cl[..size], from) == ScanBatch(fat.links, fromClus, fat.geo.cntDataClus, min, clSize)
  {
    hide Ready, OnDevice, Content, Runs, Keep, Long, FreeList, AddCluster, NextBase;
    var iCL := -1;
    from := ScanFrom(fromClus);
    var iPrevClus: nat := 0;
    var iCurClus := from;
    ghost var lo, hi := from, fat.geo.cntDataClus;
    ghost var seen: seq<nat> := [];
    assert FreeList(fat.links, lo, lo) == [] by { FreeListNone(fat.links, lo, lo); }
    while iCurClus < fat.geo.cntDataClus
      invariant Ready(fat) && Content(fat) == old(Content(fat))
      invariant lo <= iCurClus && (iCurClus <= hi || iCurClus == lo) && from == lo
      invariant seen == FreeList(fat.links, lo, iCurClus)
      invariant -1 <= iCL < clSize && cl[..iCL + 1] == Keep(Runs(seen), min)
      invariant if seen == [] then iPrevClus == 0 else iPrevClus == seen[|seen| - 1]
    {
      var iRet, iValue := GetFatEntry(fat, iCurClus);
      FreeListStep(fat.links, lo, iCurClus);
      if iRet == FreeCluster {
        RunsSnoc(seen, iCurClus);
        if seen != [] {
          RunsLast(seen);
          KeepAdd(Runs(seen), iCurClus, min);
        } else {
          FirstKept(iCurClus, min);
        }
        if iCurClus == iPrevClus + 1 {
          cl[iCL] := Run(cl[iCL].base, cl[iCL].adj + 1);
        } else {
          if iCL == -1 || cl[iCL].adj >= min {
            iCL := iCL + 1;
            if iCL >= clSize {
              ScanSplit(fat.links, lo, iCurClus, hi, min);
              from := iCurClus;
              return TryAgain, iCL, from;
            }
          }
          cl[iCL] := Run(iCurClus, 0);
        }
        iPrevClus := iCurClus;
        seen := seen + [iCurClus];
      }
      iCurClus := iCurClus + 1;
    }
    if iCurClus > hi {
      FreeListNone(fat.links, lo, hi);
      FreeListNone(fat.links, lo, iCurClus);
    }
    size := iCL + 1;
    if size <= 0 {
      return NoMore, size, from;
    }
    return Ok, size, from;
  }

  lemma FirstKept(c: nat, min: nat)
    ensures Runs([]) == [] && Keep([], min) == [] && Keep(AddCluster([], c), min) == [Run(c, 0)]
  {
    assert [] + [Run(c, 0)] == [Run(c, 0)];
    KeepSnoc([], Run(c, 0), min);
  }

  function SumAdj(rs: seq<Run>): nat {
    if rs == [] then 0 else SumAdj(rs[..|rs| - 1]) + rs[|rs| - 1].adj
  }

  lemma {:induction false} SumAdjIs(rs: seq<Run>)
    ensures SumAdj(rs) + |rs| == Total(rs)
  {
    if rs != [] {
      var front, r := rs[..|rs| - 1], rs[|rs| - 1];
      assert rs == front + [r];
      SumAdjIs(front);
      ExpandSnoc(front, r);
    }
  }

  /** A pool holds no more clusters than are free. */
  lemma PoolSize(links: seq<Link>, hi: nat, lim: nat, rs: seq<Run>)
    requires PoolOk(links, hi, rs) && hi <= lim
    ensures Total(rs) <= |FreeSet(links, lim)|
  {
    DistinctSize(Expand(rs));
    SubsetSize(SetOf(Expand(rs)), FreeSet(links, lim));
  }

  /** The summing loop of fatfs_update_freeclusters. */
  method CountRuns(cl: array<Run>, size: nat) returns (total: nat)
    requires size <= cl.Length
    ensures total == Total(cl[..size])
  {
    total := 0;
    var iCur := 0;
    while iCur < size
      invariant 0 <= iCur <= size && total == Total(cl[..iCur])
    {
      ExpandSnoc(cl[..iCur], cl[iCur]);
      assert cl[..iCur] + [cl[iCur]] == cl[..iCur + 1];
      total := total + cl[iCur].adj + 1;
      iCur := iCur + 1;
    }
  }

  /** struct TFatFreeClusters with the counter freeClusters of struct TFat. */
  class FreeClusters {
    const cl: array<Run>
    var clSize: int
    var clIndex: int
    var curMinAdjClusCnt: nat
    var fromClus: nat
    var freeClusters: nat

    /** The state fatfs_init leaves before the first scan. */
    constructor (cntDataClus: nat)
      ensures Valid() && fresh(cl) && cl.Length == FREECLUSLIST_SIZE
      ensures State() == Cache([], cntDataClus / 8, 0) && freeClusters == UNKNOWN
    {
      cl := new Run[FREECLUSLIST_SIZE](_ => Run(0, 0));
      clSize, clIndex, fromClus := -1, 0, 0;
      curMinAdjClusCnt := cntDataClus / 8;
      freeClusters := UNKNOWN;
    }

    ghost predicate Valid()
      reads this
    {
      cl.Length >= 1 && 0 <= clIndex && (clSize == -1 || clIndex < clSize <= cl.Length)
    }

    ghost function State(): Cache
      requires Valid()
      reads this, cl
    {
      Cache(if clSize == -1 then [] else cl[clIndex..clSize], curMinAdjClusCnt, fromClus)
    }

    /** fatfs_get_freeclusters */
    method GetFreeClusters() returns (st: Status, count: nat, flag: nat)
      ensures count == ValueOf(freeClusters) && flag == FlagOf(freeClusters)
      ensures st == if flag == UNKNOWN then Unknown else Ok
    {
      flag := FlagOf(freeClusters);
      count := ValueOf(freeClusters);
      st := if flag == UNKNOWN then Unknown else Ok;
    }

    /** fatfs__addto_freeclusters */
    method AddToFreeClusters(newFree: nat)
      modifies this`freeClusters, this`curMinAdjClusCnt
      ensures freeClusters == Added(old(freeClusters), newFree)
      ensures curMinAdjClusCnt == if old(curMinAdjClusCnt) == 0 && newFree > 16 then 4 else old(curMinAdjClusCnt)
    {
      var st, cur, flag := GetFreeClusters();
      if st == Ok {
        freeClusters := U32(freeClusters + newFree);
        freeClusters := ValueOf(freeClusters);
        freeClusters := freeClusters + flag;
      }
      if curMinAdjClusCnt == 0 && newFree > 16 {
        curMinAdjClusCnt := 4;
      }
    }

    /** fatfs__subfrom_freeclusters */
    method SubFromFreeClusters(newUsed: nat)
      requires freeClusters < TWO32
      modifies this`freeClusters
      ensures freeClusters == Subtracted(old(freeClusters), newUsed)
    {
      var st, cur, flag := GetFreeClusters();
      if st == Ok {
        if cur > newUsed {
          freeClusters := freeClusters - newUsed;
        } else {
          freeClusters := 0;
        }
        freeClusters := ValueOf(freeClusters);
        freeClusters := freeClusters + flag;
      }
    }

    /** fatfs__update_freeclusters */
    method UpdateCount(newCount: nat, newFlag: nat)
      modifies this`freeClusters
      ensures freeClusters == Updated(old(freeClusters), newCount, newFlag)
    {
      var st, cur, flag := GetFreeClusters();
      var count := ValueOf(newCount);
      if newFlag == KNOWN {
        freeClusters := count + newFlag;
      }
      if newFlag == GUESSED {
        if flag == UNKNOWN {
          freeClusters := count + newFlag;
        } else if flag == GUESSED {
          if count > cur {
            freeClusters := count + newFlag;
          }
        }
      }
    }

    /** The guess at the end of fatfs_update_freecluslist: the adjacent clusters of the cached runs, which
        leaves out the first cluster of each. */
    method GuessFreeClusters(ghost links: seq<Link>, ghost hi: nat, ghost lim: nat)
      requires 0 <= clSize <= cl.Length && PoolOk(links, hi, cl[..clSize]) && hi <= lim < VALUE_LIMIT
      requires CounterOk(freeClusters, links, lim)
      modifies this`freeClusters
      ensures CounterOk(freeClusters, links, lim)
      ensures FlagRank(freeClusters) >= FlagRank(old(freeClusters)) && Steady(old(freeClusters), freeClusters)
      ensures freeClusters == Updated(old(freeClusters), SumAdj(cl[..clSize]), GUESSED)
      ensures FlagOf(old(freeClusters)) == UNKNOWN ==>
        ValueOf(freeClusters) == Total(cl[..clSize]) - clSize && FlagOf(freeClusters) == GUESSED
    {
      var guess, iCur := 0, 0;
      while iCur < clSize
        invariant 0 <= iCur <= clSize && guess == SumAdj(cl[..iCur])
      {
        guess := guess + cl[iCur].adj;
        iCur := iCur + 1;
        assert cl[..iCur][..iCur - 1] == cl[..iCur - 1];
      }
      PoolSize(links, hi, lim, cl[..clSize]);
      SumAdjIs(cl[..clSize]);
      UpdatedSafe(freeClusters, links, lim, guess, GUESSED);
      UpdateCount(guess, GUESSED);
    }

    /** fatfs_update_freecluslist */
    method UpdateFreeClusList(fat: Fat) returns (st: Status)
      requires Ready(fat) && Valid() && clSize == -1 && CounterOk(freeClusters, fat.links, fat.geo.ClusLimit())
      modifies fat`curFatStartEntry, fat`curFatEndEntry, fat`curFatPartStartSecAbs, fat`curFatEndSecAbs,
        fat`fatUpdated, fat`accessPattern, fat.dev, fat.FBuf, this, cl
      ensures Ready(fat) && Valid() && Content(fat) == old(Content(fat)) && fat.accessPattern == old(fat.accessPattern)
      ensures (st, State()) == Refill(fat.links, fat.geo.cntDataClus, cl.Length, old(State()))
      ensures CounterOk(freeClusters, fat.links, fat.geo.ClusLimit())
      ensures FlagRank(freeClusters) >= FlagRank(old(freeClusters)) && Steady(old(freeClusters), freeClusters)
    {
      hide Ready, OnDevice, Content, ScanBatch, CounterOk, Updated, FlagRank, PoolOk, SumAdj, Expand, Ascending,
        Refill;
      RefillIs(fat.links, fat.geo.cntDataClus, cl.Length, State());
      if clSize == -1 && fromClus == 0 {
        if curMinAdjClusCnt == 0 {
          return NoMore;
        }
        curMinAdjClusCnt := curMinAdjClusCnt / 4;
      }
      var oldPattern := fat.accessPattern;
      SetAccessPattern(fat, OnlyForward);
      clIndex := 0;
      ghost var from0 := fromClus;
      var res, size, from := GetOptiFreeRuns(fat, cl, cl.Length, curMinAdjClusCnt, fromClus);
      st, clSize, fromClus := res, size, from;
      ghost var batch := ScanBatch(fat.links, from0, fat.geo.cntDataClus, curMinAdjClusCnt, cl.Length);
      BatchShape(fat.links, from0, fat.geo.cntDataClus, curMinAdjClusCnt, cl.Length);
      if st != Ok && st != TryAgain {
        clSize := -1;
        if st == NoMore {
          fromClus := 0;
          st := TryAgain;
        }
      } else {
        ScanPool(fat.links, from0, fat.geo.cntDataClus, curMinAdjClusCnt, cl.Length);
        GuessFreeClusters(fat.links, fat.geo.cntDataClus, fat.geo.ClusLimit());
        assert cl[0..clSize] == cl[..clSize];
      }
      SetAccessPattern(fat, oldPattern);
    }

    /** fatfs_update_freeclusters: a count, but only when one batch of eight runs holds all free runs (the
        test of the scan result is true for every other result), and the exact one only if the last two
        data clusters, which the scan does not reach, are in use. */
    method UpdateFreeClusters(fat: Fat) returns (st: Status)
      requires Ready(fat) && Valid() && CounterOk(freeClusters, fat.links, fat.geo.ClusLimit())
      modifies fat`curFatStartEntry, fat`curFatEndEntry, fat`curFatPartStartSecAbs, fat`curFatEndSecAbs,
        fat`fatUpdated, fat`accessPattern, fat.dev, fat.FBuf, this`freeClusters
      ensures Ready(fat) && Content(fat) == old(Content(fat)) && fat.accessPattern == old(fat.accessPattern)
      ensures var free := FreeList(fat.links, 2, fat.geo.cntDataClus);
        && st == (if 1 <= |Runs(free)| <= 8 then Ok else Failed)
        && freeClusters == (if st == Ok then |free| + KNOWN else old(freeClusters))
        && ((st == Ok && ValueOf(freeClusters) == |FreeSet(fat.links, fat.geo.ClusLimit())|)
            <==> (1 <= |Runs(free)| <= 8 && Missed(fat.links, fat.geo.cntDataClus) == {}))
      ensures CounterOk(freeClusters, fat.links, fat.geo.ClusLimit())
      ensures FlagRank(freeClusters) >= FlagRank(old(freeClusters))
    {
      hide Ready, OnDevice, Content, CounterOk, Updated, FlagRank, Runs, FreeList, Keep, Missed, FreeSet;
      var cl := new Run[8];
      var oldPattern := fat.accessPattern;
      SetAccessPattern(fat, OnlyForward);
      var res, size, from := GetOptiFreeRuns(fat, cl, 8, 0, 0);
      ghost var free := FreeList(fat.links, 2, fat.geo.cntDataClus);
      KeepOfZero(Runs(free));
      var total := CountRuns(cl, size);
      if res != Ok && (res != TryAgain || res != NoMore) {
        SetAccessPattern(fat, oldPattern);
        return Failed;
      }
      RunsCanonical(free);
      ScanPool(fat.links, 0, fat.geo.cntDataClus, 0, 8);
      PoolSize(fat.links, fat.geo.cntDataClus, fat.geo.ClusLimit(), cl[..size]);
      FreeSetSmall(fat.links, fat.geo.ClusLimit());
      UpdatedSafe(freeClusters, fat.links, fat.geo.ClusLimit(), total, KNOWN);
      UpdatedKnown(freeClusters, total);
      CountExactIff(fat.links, fat.geo.cntDataClus);
      UpdateCount(total, KNOWN);
      SetAccessPattern(fat, oldPattern);
      return Ok;
    }

    ghost predicate InBounds()
      reads this
    {
      0 <= clIndex && (clSize == -1 || clIndex <= clSize <= cl.Length)
    }

    ghost function Remaining(): seq<Run>
      requires InBounds()
      reads this, cl
    {
      if clSize == -1 then [] else cl[clIndex..clSize]
    }

    /** One round of that loop: the first cached run, or the part of it that is still required. */
    method HandOutRun(out: array<Run>, oCur: nat, required: nat) returns (left: nat)
      requires InBounds() && clIndex < clSize && required > 0 && oCur < out.Length && out != cl
      modifies this`clIndex, cl, out
      ensures InBounds()
      ensures out[..] == old(out[..])[oCur := out[oCur]]
      ensures var r, tail := old(Remaining())[0], old(Remaining())[1..];
        if r.Count() <= required then
          out[oCur] == r && Remaining() == tail && left == required - r.Count()
        else
          out[oCur] == Run(r.base, required - 1) && left == 0
          && Remaining() == [Run(r.base + required, r.adj - required)] + tail
    {
      var cur := cl[clIndex];
      assert Remaining()[0] == cur && Remaining()[1..] == cl[clIndex + 1..clSize];
      var clusGot;
      var clusRequired := required - cur.Count();
      if clusRequired >= 0 {
        clusGot := cur.Count();
        clIndex := clIndex + 1;
        left := clusRequired;
      } else {
        clusGot := cur.Count() + clusRequired;
        cl[clIndex] := Run(cur.base + clusGot, cur.adj - clusGot);
        left := 0;  // negative in the source, which ends the loop as well
      }
      out[oCur] := Run(cur.base, clusGot - 1);
    }

    /** The inner loop of fatfs_getopti_freecluslist: splits runs off the cache into out[oStart..]. */
    method HandOut(out: array<Run>, oStart: nat, room: nat, required: nat) returns (oCur: nat, left: nat, full: bool)
      requires InBounds() && oStart <= room <= out.Length && out != cl
      modifies this`clIndex, cl, out
      ensures InBounds() && oStart <= oCur <= room && out[..oStart] == old(out[..oStart])
      ensures (out[oStart..oCur], Remaining(), left) == Take(old(Remaining()), required, room - oStart)
      ensures full <==> left > 0 && Remaining() != []
    {
      hide Take, After, Part;
      oCur := oStart;
      full := false;
      var clusRequired := required;
      ghost var runs := Remaining();
      PartIs(out[..], 0, oStart);
      ghost var before, given: seq<Run> := Part(out[..], 0, oStart), [];
      PartIs(out[..], oStart, oCur);
      AfterSteps([], Run(0, 0), Take(runs, required, room - oStart));
      while clIndex < clSize && clusRequired > 0
        invariant InBounds()
        invariant oStart <= oCur <= room && Part(out[..], 0, oStart) == before && Part(out[..], oStart, oCur) == given
        invariant Take(runs, required, room - oStart) == After(given, Take(Remaining(), clusRequired, room - oCur))
      {
        TakeStep(Remaining(), clusRequired, room - oCur);
        if oCur >= room {
          full := true;
          break;
        }
        ghost var was := out[..];
        clusRequired := HandOutRun(out, oCur, clusRequired);
        PartStep(was, oStart, oCur, out[oCur]);
        AfterSteps(given, out[oCur], Take(Remaining(), clusRequired, room - oCur - 1));
        given := given + [out[oCur]];
        oCur := oCur + 1;
      }
      TakeStep(Remaining(), clusRequired, room - oCur);
      AfterSteps(given, Run(0, 0), Take(Remaining(), clusRequired, room - oCur));
      left := clusRequired;
      PartIs(out[..], 0, oStart);
      PartIs(out[..], oStart, oCur);
    }

    /** The body of the loop of fatfs_getopti_freecluslist. */
    method OneRound(fat: Fat, out: array<Run>, oStart: nat, room: nat, required: nat)
      returns (st: Status, oCur: nat, left: nat)
      requires Ready(fat) && Valid() && CounterOk(freeClusters, fat.links, fat.geo.ClusLimit())
      requires oStart <= room <= out.Length && out != cl
      modifies fat`curFatStartEntry, fat`curFatEndEntry, fat`curFatPartStartSecAbs, fat`curFatEndSecAbs,
        fat`fatUpdated, fat`accessPattern, fat.dev, fat.FBuf, this, cl, out
      ensures Ready(fat) && Valid() && Content(fat) == old(Content(fat)) && fat.accessPattern == old(fat.accessPattern)
      ensures oStart <= oCur <= room && out[..oStart] == old(out[..oStart])
      ensures (st, out[oStart..oCur], State(), left)
        == Round(fat.links, fat.geo.cntDataClus, cl.Length, old(State()), required, room - oStart)
      ensures CounterOk(freeClusters, fat.links, fat.geo.ClusLimit())
      ensures FlagRank(freeClusters) >= FlagRank(old(freeClusters)) && Steady(old(freeClusters), freeClusters)
    {
      hide Ready, OnDevice, Content, CounterOk, FlagRank, Refill, Take;
      if clSize == -1 {
        var res := UpdateFreeClusList(fat);
        if res != Ok && res != TryAgain {
          assert out[oStart..oStart] == [];
          return res, oStart, required;
        }
      }
      ghost var filled := State();
      var full;
      oCur, left, full := HandOut(out, oStart, room, required);
      ghost var rest := Remaining();
      if full {
        return TryAgain, oCur, left;
      }
      if clIndex >= clSize {
        clSize := -1;
      }
      assert State() == filled.(runs := rest);
      return Ok, oCur, left;
    }

    /** fatfs_getopti_freecluslist; `room` entries of `out` are available. */
    method GetOptiFreeClusList(fat: Fat, out: array<Run>, room: nat, required: nat) returns (st: Status, size: nat)
      requires Ready(fat) && Valid() && CounterOk(freeClusters, fat.links, fat.geo.ClusLimit())
      requires room <= out.Length && out != cl
      modifies fat`curFatStartEntry, fat`curFatEndEntry, fat`curFatPartStartSecAbs, fat`curFatEndSecAbs,
        fat`fatUpdated, fat`accessPattern, fat.dev, fat.FBuf, this, cl, out
      ensures Ready(fat) && Valid() && Content(fat) == old(Content(fat)) && fat.accessPattern == old(fat.accessPattern)
      ensures size <= room
      ensures (st, out[..size], State()) ==
        Alloc(fat.links, fat.geo.cntDataClus, cl.Length, old(State()), required, room)
      ensures CounterOk(freeClusters, fat.links, fat.geo.ClusLimit())
      ensures FlagRank(freeClusters) >= FlagRank(old(freeClusters)) && Steady(old(freeClusters), freeClusters)
    {
      hide Ready, OnDevice, Content, CounterOk, FlagRank, Round, Joined;
      var clusRequired := required;
      size := 0;
      ghost var c0, hi, links := State(), fat.geo.cntDataClus, fat.links;
      JoinedSteps([], [], Alloc(links, hi, cl.Length, c0, required, room));
      assert out[..0] == [];
      while true
        invariant Ready(fat) && Valid() && Content(fat) == old(Content(fat))
        invariant fat.accessPattern == old(fat.accessPattern)
        invariant CounterOk(freeClusters, links, fat.geo.ClusLimit())
        invariant FlagRank(freeClusters) >= FlagRank(old(freeClusters)) && Steady(old(freeClusters), freeClusters)
        invariant 0 <= size <= room && fat.links == links
        invariant Alloc(links, hi, cl.Length, c0, required, room)
          == Joined(out[..size], Alloc(links, hi, cl.Length, State(), clusRequired, room - size))
        decreases clusRequired, curMinAdjClusCnt, fromClus != 0
      {
        ghost var given, start := out[..size], size;
        st, size, clusRequired := OneRound(fat, out, size, room, clusRequired);
        ghost var part := out[start..size];
        assert out[..size] == given + part;
        if st != Ok || clusRequired <= 0 {
          JoinedSteps(given, part, (st, [], State()));
          return;
        }
        JoinedSteps(given, part, Alloc(links, hi, cl.Length, State(), clusRequired, room - size));
      }
    }
  }

  lemma JoinedSteps(a: seq<Run>, b: seq<Run>, t: (Status, seq<Run>, Cache))
    ensures Joined([], t) == t
    ensures Joined(a, Joined(b, t)) == Joined(a + b, t)
    ensures t.1 == [] ==> Joined(a, t) == (t.0, a, t.2) && Joined(b, t) == (t.0, b, t.2)
    ensures t.1 == [] ==> Joined(a, (t.0, b, t.2)) == (t.0, a + b, t.2)
  {
    assert [] + t.1 == t.1 && a + (b + t.1) == (a + b) + t.1;
    assert a + [] == a && b + [] == b;
  }

  function Part(s: seq<Run>, lo: nat, hi: nat): seq<Run>
    requires lo <= hi <= |s|
  {
    s[lo..hi]
  }

  lemma PartIs(s: seq<Run>, lo: nat, hi: nat)
    requires lo <= hi <= |s|
    ensures Part(s, lo, hi) == s[lo..hi] && (lo == hi ==> Part(s, lo, hi) == [])
    ensures lo == 0 ==> Part(s, lo, hi) == s[..hi]
  {}

  lemma PartStep(s: seq<Run>, lo: nat, hi: nat, r: Run)
    requires lo <= hi < |s|
    ensures Part(s[hi := r], lo, hi + 1) == Part(s, lo, hi) + [r]
    ensures Part(s[hi := r], 0, lo) == Part(s, 0, lo)
  {}

  /** A Take result with `a` handed out before it. */
  function After(a: seq<Run>, t: (seq<Run>, seq<Run>, nat)): (seq<Run>, seq<Run>, nat) {
    (a + t.0, t.1, t.2)
  }

  lemma AfterSteps(a: seq<Run>, r: Run, t: (seq<Run>, seq<Run>, nat))
    ensures After([], t) == t && After(a, ([], t.1, t.2)) == (a, t.1, t.2)
    ensures After(a, After([r], t)) == After(a + [r], t)
  {
    assert [] + t.0 == t.0 && a + [] == a;
    assert a + ([r] + t.0) == a + [r] + t.0;
  }

  /** One unfolding of Take. */
  lemma TakeStep(runs: seq<Run>, req: nat, room: nat)
    ensures runs == [] || req == 0 || room == 0 ==> Take(runs, req, room) == ([], runs, req)
    ensures runs != [] && req > 0 && room > 0 && runs[0].Count() <= req ==>
      Take(runs, req, room) == After([runs[0]], Take(runs[1..], req - runs[0].Count(), room - 1))
    ensures runs != [] && req > 0 && room > 0 && runs[0].Count() > req ==>
      var rest := [Run(runs[0].base + req, runs[0].adj - req)] + runs[1..];
      Take(runs, req, room) == After([Run(runs[0].base, req - 1)], Take(rest, 0, room - 1))
  {
    assert runs != [] && req > 0 ==> [Run(runs[0].base, req - 1)] + [] == [Run(runs[0].base, req - 1)];
  }

  lemma UpdatedKnown(x: nat, count: nat)
    requires count < VALUE_LIMIT
    ensures Updated(x, count, KNOWN) == count + KNOWN
  {}

  lemma RefillIs(links: seq<Link>, hi: nat, cap: nat, c: Cache)
    requires cap >= 1 && c.runs == []
    ensures var min := if c.from == 0 then c.curMin / 4 else c.curMin;
      var (st, rs, next) := ScanBatch(links, c.from, hi, min, cap);
      Refill(links, hi, cap, c) ==
        if c.from == 0 && c.curMin == 0 then (NoMore, c)
        else if st == NoMore then (TryAgain, Cache([], min, 0)) else (st, Cache(rs, min, next))
  {}

  lemma BatchShape(links: seq<Link>, from: nat, hi: nat, min: nat, cap: nat)
    requires cap >= 1
    ensures var (st, rs, next) := ScanBatch(links, from, hi, min, cap);
      st in {Ok, TryAgain, NoMore} && (st == NoMore <==> rs == []) && |rs| <= cap
  {}
}
