/** The allocator of fatfs.c as a function of the FAT and the free-run cache. */
module Allocator {
  import opened FatEntries
  import opened Chains
  import opened FreeSpace
  import opened FreeScan

  /** The cached runs still to be handed out (none when clSize is -1), the current minimum run length and
      the cluster the next scan starts from. */
  datatype Cache = Cache(runs: seq<Run>, curMin: nat, from: nat)

  /** fatfs_update_freecluslist, called with an empty cache */
  function Refill(links: seq<Link>, hi: nat, cap: nat, c: Cache): (r: (Status, Cache))
    requires cap >= 1 && c.runs == []
    ensures r.0 in {Ok, TryAgain, NoMore}
    ensures r.0 != NoMore && r.1.runs == [] ==>
      r.1.from == 0 && r.1.curMin <= c.curMin && (c.from == 0 ==> r.1.curMin < c.curMin)
  {
    if c.from == 0 && c.curMin == 0 then (NoMore, c)
    else
      var min := if c.from == 0 then c.curMin / 4 else c.curMin;
      var (st, rs, next) := ScanBatch(links, c.from, hi, min, cap);
      if st == NoMore then (TryAgain, Cache([], min, 0)) else (st, Cache(rs, min, next))
  }

  /** Splits off up to `req` clusters in at most `room` runs: the runs handed out, the runs left in the
      cache, and the clusters still missing. */
  function Take(runs: seq<Run>, req: nat, room: nat): (seq<Run>, seq<Run>, nat) {
    if runs == [] || req == 0 || room == 0 then ([], runs, req)
    else if runs[0].Count() <= req then
      var (out, rest, left) := Take(runs[1..], req - runs[0].Count(), room - 1);
      ([runs[0]] + out, rest, left)
    else
      ([Run(runs[0].base, req - 1)], [Run(runs[0].base + req, runs[0].adj - req)] + runs[1..], 0)
  }

  /** One round of the loop of fatfs_getopti_freecluslist: a refill if the cache is empty, then as many
      runs as are required and fit; the last component is what is still required. */
  function Round(links: seq<Link>, hi: nat, cap: nat, c: Cache, req: nat, room: nat)
    : (r: (Status, seq<Run>, Cache, nat))
    requires cap >= 1
    ensures |r.1| <= room && r.3 <= req
    ensures r.0 == Ok && r.3 > 0 ==> r.2.runs == []
    ensures r.0 == Ok && r.3 == req > 0 ==>
      c.runs == [] && r.2.from == 0 && r.2.curMin <= c.curMin && (c.from == 0 ==> r.2.curMin < c.curMin)
  {
    var (s, c1) := if c.runs == [] then Refill(links, hi, cap, c) else (Ok, c);
    if s == NoMore then (NoMore, [], c1, req)
    else
      TakeConserves(c1.runs, req, room);
      var (out, rest, left) := Take(c1.runs, req, room);
      (if left > 0 && rest != [] then TryAgain else Ok, out, c1.(runs := rest), left)
  }

  /** An allocation result with `a` handed out before it. */
  function Joined(a: seq<Run>, t: (Status, seq<Run>, Cache)): (Status, seq<Run>, Cache) {
    (t.0, a + t.1, t.2)
  }

  /** fatfs_getopti_freecluslist: it refills whenever the cache runs dry, even in the middle of a request.
      The refills cannot go on for ever: a fruitless one restarts the scan with a smaller minimum. */
  function Alloc(links: seq<Link>, hi: nat, cap: nat, c: Cache, req: nat, room: nat): (Status, seq<Run>, Cache)
    requires cap >= 1
    decreases req, c.curMin, c.from != 0
  {
    var (st, out, c1, left) := Round(links, hi, cap, c, req, room);
    if st != Ok || left == 0 then (st, out, c1)
    else Joined(out, Alloc(links, hi, cap, c1, left, room - |out|))
  }

  /** Nothing is lost or duplicated by a split, and exactly what is missing was not handed out. */
  lemma {:induction false} TakeConserves(runs: seq<Run>, req: nat, room: nat)
    ensures var (out, rest, left) := Take(runs, req, room);
      && Expand(out) + Expand(rest) == Expand(runs)
      && Total(out) + left == req && |out| <= room
      && (left > 0 && rest != [] ==> |out| == room)
      && (runs != [] && req > 0 && room > 0 ==> left < req)
  {
    hide Expand, Clusters, Total;
    if runs == [] || req == 0 || room == 0 {
      ExpandNothing();
      assert [] + Expand(runs) == Expand(runs);
    } else {
      var r, tail := runs[0], runs[1..];
      assert runs == [r] + tail;
      if r.Count() <= req {
        var (out, rest, left) := Take(tail, req - r.Count(), room - 1);
        TakeConserves(tail, req - r.Count(), room - 1);
        TakeWhole(r, tail, out, rest);
      } else {
        TakePart(r, tail, req);
      }
    }
  }

  lemma TakeWhole(r: Run, tail: seq<Run>, out: seq<Run>, rest: seq<Run>)
    requires Expand(out) + Expand(rest) == Expand(tail)
    ensures Expand([r] + out) + Expand(rest) == Expand([r] + tail) && Total([r] + out) == r.Count() + Total(out)
  {
    ExpandCons(r, out);
    ExpandCons(r, tail);
    ConcatAssoc(Clusters(r), Expand(out), Expand(rest));
  }

  lemma TakePart(r: Run, tail: seq<Run>, req: nat)
    requires 0 < req <= r.adj
    ensures var got, kept := Run(r.base, req - 1), Run(r.base + req, r.adj - req);
      Expand([got]) + Expand([kept] + tail) == Expand([r] + tail) && Total([got]) == req
  {
    hide Expand, Clusters, Total;
    var got, kept := Run(r.base, req - 1), Run(r.base + req, r.adj - req);
    SplitRun(r, req);
    ExpandOne(got);
    ExpandCons(kept, tail);
    ExpandCons(r, tail);
    ConcatAssoc(Clusters(got), Clusters(kept), Expand(tail));
  }

  lemma ExpandNothing()
    ensures Expand([]) == [] && Total([]) == 0
  {}

  lemma SplitRun(r: Run, n: nat)
    requires 0 < n <= r.adj
    ensures Clusters(Run(r.base, n - 1)) + Clusters(Run(r.base + n, r.adj - n)) == Clusters(r)
  {}

  /** Every cluster of the runs is a free data cluster below `hi`, and the runs ascend without overlap. */
  ghost predicate PoolOk(links: seq<Link>, hi: nat, rs: seq<Run>) {
    Ascending(Expand(rs)) && forall c :: c in Expand(rs) ==> 2 <= c < hi && Look(links, c) == Free
  }

  /** Every cluster of the runs is a free data cluster below `hi`, and no cluster occurs twice: what can be
      linked into chains. */
  ghost predicate Usable(links: seq<Link>, hi: nat, rs: seq<Run>) {
    Distinct(Expand(rs)) && forall c :: c in Expand(rs) ==> 2 <= c < hi && Look(links, c) == Free
  }

  lemma PoolUsable(links: seq<Link>, hi: nat, rs: seq<Run>)
    ensures PoolOk(links, hi, rs) <==> Usable(links, hi, rs) && Ascending(Expand(rs))
  {}

  lemma UsableParts(links: seq<Link>, hi: nat, a: seq<Run>, b: seq<Run>, whole: seq<Run>)
    requires Expand(a) + Expand(b) == Expand(whole)
    ensures Usable(links, hi, whole) <==> Usable(links, hi, a) && Usable(links, hi, b) && Others(b, a)
  {
    hide Expand;
    DistinctParts(Expand(a), Expand(b));
    if Distinct(Expand(a)) && Distinct(Expand(b)) {
      DistinctJoin(Expand(a), Expand(b));
    }
    assert forall c :: c in Expand(whole) <==> c in Expand(a) || c in Expand(b);
  }

  lemma PoolParts(links: seq<Link>, hi: nat, a: seq<Run>, b: seq<Run>, whole: seq<Run>)
    requires PoolOk(links, hi, whole) && Expand(a) + Expand(b) == Expand(whole)
    ensures PoolOk(links, hi, a) && PoolOk(links, hi, b)
    ensures forall x, y :: x in Expand(a) && y in Expand(b) ==> x < y
  {
    AscendingParts(Expand(a), Expand(b));
    assert forall c :: c in Expand(a) || c in Expand(b) ==> c in Expand(a) + Expand(b);
  }

  lemma AscendingParts(p: seq<nat>, q: seq<nat>)
    requires Ascending(p + q)
    ensures Ascending(p) && Ascending(q)
    ensures forall x, y :: x in p && y in q ==> x < y
  {
    var s := p + q;
    assert forall i :: 0 <= i < |p| ==> p[i] == s[i];
    forall i, j | 0 <= i < j < |q|
      ensures q[i] < q[j]
    {
      assert s[|p| + i] < s[|p| + j];
    }
    forall x, y | x in p && y in q
      ensures x < y
    {
      var i :| 0 <= i < |p| && p[i] == x;
      var j :| 0 <= j < |q| && q[j] == y;
      assert s[i] < s[|p| + j];
    }
  }

  /** Dropping short runs keeps a pool in order. */
  lemma {:induction false} LongPool(links: seq<Link>, hi: nat, rs: seq<Run>, min: nat)
    requires PoolOk(links, hi, rs)
    ensures PoolOk(links, hi, Long(rs, min))
    ensures forall c :: c in Expand(Long(rs, min)) ==> c in Expand(rs)
  {
    hide Expand;
    if rs != [] {
      var front, r := rs[..|rs| - 1], rs[|rs| - 1];
      assert rs == front + [r];
      ExpandSnoc(front, r);
      ExpandOne(r);
      PoolParts(links, hi, front, [r], rs);
      LongPool(links, hi, front, min);
      if r.adj >= min {
        PoolJoin(links, hi, Long(front, min), [r]);
        ExpandSnoc(Long(front, min), r);
        assert Long(rs, min) == Long(front, min) + [r];
      } else {
        assert Long(rs, min) == Long(front, min);
      }
    }
  }

  lemma PoolJoin(links: seq<Link>, hi: nat, a: seq<Run>, b: seq<Run>)
    requires PoolOk(links, hi, a) && PoolOk(links, hi, b)
    requires forall x, y :: x in Expand(a) && y in Expand(b) ==> x < y
    ensures PoolOk(links, hi, a + b)
  {
    ExpandConcat(a, b);
    var p, q := Expand(a), Expand(b);
    forall i, j | 0 <= i < j < |p + q|
      ensures (p + q)[i] < (p + q)[j]
    {
      if i < |p| <= j {
        assert p[i] in p && q[j - |p|] in q;
      }
    }
  }

  lemma KeepPool(links: seq<Link>, hi: nat, rs: seq<Run>, min: nat)
    requires PoolOk(links, hi, rs)
    ensures PoolOk(links, hi, Keep(rs, min))
  {
    if rs != [] {
      var front, r := rs[..|rs| - 1], rs[|rs| - 1];
      assert rs == front + [r];
      ExpandConcat(front, [r]);
      PoolParts(links, hi, front, [r], rs);
      LongPool(links, hi, front, min);
      PoolJoin(links, hi, Long(front, min), [r]);
    }
  }

  /** What a scan returns is a pool of free runs. */
  lemma ScanPool(links: seq<Link>, from: nat, hi: nat, min: nat, cap: nat)
    ensures PoolOk(links, hi, ScanBatch(links, from, hi, min, cap).1)
  {
    hide Runs, Keep, NextBase, Expand;
    ExpandNothing();
    var all := Runs(FreeList(links, ScanFrom(from), hi));
    RunsCanonical(FreeList(links, ScanFrom(from), hi));
    FreeListExact(links, ScanFrom(from), hi);
    KeepPool(links, hi, all, min);
    var kept := Keep(all, min);
    if |kept| > cap {
      assert kept == kept[..cap] + kept[cap..];
      ExpandConcat(kept[..cap], kept[cap..]);
      PoolParts(links, hi, kept[..cap], kept[cap..], kept);
    }
  }

  lemma RefillPool(links: seq<Link>, hi: nat, cap: nat, c: Cache)
    requires cap >= 1 && c.runs == []
    ensures PoolOk(links, hi, Refill(links, hi, cap, c).1.runs)
  {
    ExpandNothing();
    if !(c.from == 0 && c.curMin == 0) {
      ScanPool(links, c.from, hi, if c.from == 0 then c.curMin / 4 else c.curMin, cap);
    }
  }

  /** A scan finds nothing before the place where it starts. */
  lemma ScanBehind(links: seq<Link>, from: nat, hi: nat, min: nat, cap: nat)
    ensures forall x :: x in Expand(ScanBatch(links, from, hi, min, cap).1) ==> x >= from
  {
    hide Runs, Keep, NextBase, Expand, FreeList;
    var all := FreeList(links, ScanFrom(from), hi);
    RunsCanonical(all);
    FreeListExact(links, ScanFrom(from), hi);
    KeepInside(Runs(all), min);
    var kept := Keep(Runs(all), min);
    ExpandNothing();
    var cut := if |kept| > cap then cap else |kept|;
    assert kept == kept[..cut] + kept[cut..];
    ExpandConcat(kept[..cut], kept[cut..]);
    forall x | x in Expand(ScanBatch(links, from, hi, min, cap).1)
      ensures x >= from
    {
      assert x in Expand(kept[..cut]) ==> x in Expand(kept);
    }
  }

  lemma RefillFrom(links: seq<Link>, hi: nat, cap: nat, c: Cache)
    requires cap >= 1 && c.runs == [] && c.from != 0
    ensures forall x :: x in Expand(Refill(links, hi, cap, c).1.runs) ==> x >= c.from
  {
    hide ScanBatch, Expand;
    ExpandNothing();
    ScanBehind(links, c.from, hi, c.curMin, cap);
  }

  /** The minimum run length a refill asks for: that of the scan it continues, or a quarter of it if the scan starts
      over. All but the last of the runs it caches are at least that long, and it gives up exactly when a scan
      with no minimum has been completed. */
  lemma RefillMinimum(links: seq<Link>, hi: nat, cap: nat, c: Cache)
    requires cap >= 1 && c.runs == []
    ensures var (st, c1) := Refill(links, hi, cap, c);
      && (st == NoMore <==> c.from == 0 && c.curMin == 0)
      && (c.from != 0 ==> c1.curMin == c.curMin)
      && (c.from == 0 ==> 4 * c1.curMin <= c.curMin < 4 * c1.curMin + 4)
      && (forall i :: 0 <= i < |c1.runs| - 1 ==> c1.runs[i].adj >= c1.curMin)
  {
    hide Keep, Runs, NextBase, FreeList;
    var min := if c.from == 0 then c.curMin / 4 else c.curMin;
    var all := Runs(FreeList(links, ScanFrom(c.from), hi));
    if all != [] {
      KeepExact(all, min);
    }
  }

  /** The cache as it is when the first run of a request is handed out. */
  function Fill(links: seq<Link>, hi: nat, cap: nat, c: Cache): (r: (Status, Cache))
    requires cap >= 1
    ensures r.0 == Ok ==> r.1.runs != []
    decreases c.runs == [], c.curMin, c.from != 0
  {
    if c.runs != [] then (Ok, c)
    else
      var (s, c1) := Refill(links, hi, cap, c);
      if s == NoMore then (NoMore, c1) else Fill(links, hi, cap, c1)
  }

  /** An empty cache can be filled if and only if there is a free cluster from the place where the scan goes on, or
      anywhere while the minimum can still fall. */
  lemma {:induction false} FillFinds(links: seq<Link>, hi: nat, cap: nat, c: Cache)
    requires cap >= 1 && c.runs == []
    ensures Fill(links, hi, cap, c).0 == Ok <==>
      || (c.from != 0 && exists x :: ScanFrom(c.from) <= x < hi && Look(links, x) == Free)
      || (c.curMin > 0 && exists x :: 2 <= x < hi && Look(links, x) == Free)
    decreases c.curMin, c.from != 0
  {
    hide Keep, Runs, NextBase, FreeList;
    FreeListExact(links, ScanFrom(c.from), hi);
    SomeFree(links, ScanFrom(c.from), hi);
    var (st, c1) := Refill(links, hi, cap, c);
    if st != NoMore && c1.runs == [] {
      FillFinds(links, hi, cap, c1);
    }
  }

  lemma SomeFree(links: seq<Link>, lo: nat, hi: nat)
    ensures FreeList(links, lo, hi) != [] <==> exists x :: lo <= x < hi && Look(links, x) == Free
  {
    FreeListExact(links, lo, hi);
    if FreeList(links, lo, hi) != [] {
      assert FreeList(links, lo, hi)[0] in FreeList(links, lo, hi);
    }
  }

  /** The next scan starts behind every cached cluster: the cache holds a full batch, or what is left of one. */
  predicate Ahead(c: Cache) {
    c.runs != [] && c.runs[|c.runs| - 1].Last() < c.from
  }

  /** What the scan that filled the cache has not returned yet. */
  function Unscanned(links: seq<Link>, hi: nat, c: Cache): seq<Run> {
    if Ahead(c) then Keep(Runs(FreeList(links, ScanFrom(c.from), hi)), c.curMin) else []
  }

  /** All that can be handed out before the scan starts over. */
  function Supply(links: seq<Link>, hi: nat, c: Cache): seq<Run> {
    c.runs + Unscanned(links, hi, c)
  }

  /** The cached runs together with the rest of the scan they came from cover the request, so that no scan
      starts over after a run has been handed out and before it is linked. */
  ghost predicate Covers(links: seq<Link>, hi: nat, cap: nat, c: Cache, req: nat)
    requires cap >= 1
  {
    req > 0 ==> Fill(links, hi, cap, c).0 == Ok && Total(Supply(links, hi, Fill(links, hi, cap, c).1)) >= req
  }

  /** Filling an empty cache first makes no difference to a request. */
  lemma {:induction false} AllocFilled(links: seq<Link>, hi: nat, cap: nat, c: Cache, req: nat, room: nat)
    requires cap >= 1 && req > 0 && Fill(links, hi, cap, c).0 == Ok
    ensures Alloc(links, hi, cap, c, req, room) == Alloc(links, hi, cap, Fill(links, hi, cap, c).1, req, room)
    decreases c.runs == [], c.curMin, c.from != 0
  {
    hide Refill;
    if c.runs == [] {
      var c1 := Refill(links, hi, cap, c).1;
      AllocFilled(links, hi, cap, c1, req, room);
      if c1.runs == [] {
        TakeNothing(req, room);
        assert [] + Alloc(links, hi, cap, c1, req, room).1 == Alloc(links, hi, cap, c1, req, room).1;
      } else {
        AllocRefilled(links, hi, cap, c, req, room);
      }
    }
  }

  /** A refill that finds something, in front of a round. */
  lemma AllocRefilled(links: seq<Link>, hi: nat, cap: nat, c: Cache, req: nat, room: nat)
    requires cap >= 1 && c.runs == [] && Refill(links, hi, cap, c).0 != NoMore && Refill(links, hi, cap, c).1.runs != []
    ensures Alloc(links, hi, cap, c, req, room) == Alloc(links, hi, cap, Refill(links, hi, cap, c).1, req, room)
  {
    hide Refill, Take;
  }

  /** Taking from two lists of runs one after the other. */
  lemma {:induction false} TakeAppend(a: seq<Run>, b: seq<Run>, req: nat, room: nat)
    ensures var (o, r, l) := Take(a, req, room);
      && (r != [] || l == 0 ==> Take(a + b, req, room) == (o, r + b, l))
      && (r == [] ==>
            && o == a && |a| <= room && l == req - Total(a)
            && var (o2, r2, l2) := Take(b, l, room - |a|); Take(a + b, req, room) == (a + o2, r2, l2))
  {
    hide Take, Expand;
    TakeOne(a, req, room);
    TakeOne(a + b, req, room);
    if a == [] {
      TakeOne(b, req, room);
      assert a + b == b;
      assert [] + Take(b, req, room).0 == Take(b, req, room).0;
      assert [] + b == b;
    } else {
      assert (a + b)[0] == a[0] && (a + b)[1..] == a[1..] + b;
      if req != 0 && room != 0 {
        if a[0].Count() > req {
          var r := Run(a[0].base + req, a[0].adj - req);
          assert [r] + (a[1..] + b) == [r] + a[1..] + b;
        } else {
          TakeAppend(a[1..], b, req - a[0].Count(), room - 1);
          var (o, r, l) := Take(a[1..], req - a[0].Count(), room - 1);
          if r == [] {
            var (o2, r2, l2) := Take(b, l, room - |a|);
            assert [a[0]] + (a[1..] + o2) == a + o2;
          }
        }
      }
    }
  }

  lemma TakeOne(runs: seq<Run>, req: nat, room: nat)
    ensures Take(runs, req, room) ==
      if runs == [] || req == 0 || room == 0 then ([], runs, req)
      else if runs[0].Count() <= req then
        var (out, rest, left) := Take(runs[1..], req - runs[0].Count(), room - 1); ([runs[0]] + out, rest, left)
      else ([Run(runs[0].base, req - 1)], [Run(runs[0].base + req, runs[0].adj - req)] + runs[1..], 0)
  {}

  /** The refill of an exhausted cache whose scan is not complete: the next part of the scan. */
  lemma NextPart(links: seq<Link>, hi: nat, cap: nat, c: Cache)
    requires cap >= 1 && Ahead(c) && c.from >= 2 && Unscanned(links, hi, c) != []
    ensures var (st, c1) := Refill(links, hi, cap, c.(runs := []));
      && st != NoMore && c1.runs != [] && Supply(links, hi, c1) == Unscanned(links, hi, c) && c1.from >= 2
      && (if st == Ok then Fresh(links, hi, cap, c1) && Unscanned(links, hi, c1) == []
          else Ahead(c1) && Unscanned(links, hi, c1) != [])
  {
    hide Runs, Keep, NextBase, ScanBatch, FreeList;
    ScanResumes(links, c.from, hi, c.curMin, cap);
    var (st, rs, next) := ScanBatch(links, c.from, hi, c.curMin, cap);
    if st == Ok {
      KeptFrom(links, c.from, hi, c.curMin);
      assert rs + [] == rs;
    } else {
      FreeListFirst(links, next, hi);
    }
  }

  lemma KeptFrom(links: seq<Link>, lo: nat, hi: nat, min: nat)
    ensures var kept := Keep(Runs(FreeList(links, lo, hi)), min);
      kept != [] ==> kept[|kept| - 1].Last() >= lo
  {
    hide Runs, FreeList;
    var all := Runs(FreeList(links, lo, hi));
    if all != [] {
      RunsCanonical(FreeList(links, lo, hi));
      FreeListExact(links, lo, hi);
      KeepExact(all, min);
      RunInside(all, all[|all| - 1]);
    }
  }

  /** A request that is covered by the supply, or that runs out of room before the supply is used up, is
      served from the supply in order; a part of what is left is cached, and all of it can still be had. */
  lemma {:induction false} AllocServed(links: seq<Link>, hi: nat, cap: nat, c: Cache, req: nat, room: nat)
    requires cap >= 1 && req > 0 && c.runs != [] && (Ahead(c) ==> c.from >= 2)
    requires req <= Total(Supply(links, hi, c)) || room < |Supply(links, hi, c)|
    ensures var (st, out, c1) := Alloc(links, hi, cap, c, req, room);
      var (o, rest, left) := Take(Supply(links, hi, c), req, room);
      && out == o && st == (if left == 0 then Ok else TryAgain)
      && |c1.runs| <= |rest| && c1.runs == rest[..|c1.runs|]
      && (left > 0 ==> c1.runs != [] && Supply(links, hi, c1) == rest && |o| == room)
    decreases req
  {
    hide Expand, Total, Runs, Keep, Refill, Fresh, FreeList, Alloc, Take, Unscanned, Ahead;
    var R := Unscanned(links, hi, c);
    var (o, r, l) := Take(c.runs, req, room);
    TakeAppend(c.runs, R, req, room);
    TakeConserves(c.runs, req, room);
    AllocOnce(links, hi, cap, c, req, room);
    if l > 0 && r == [] {
      ExpandConcat(c.runs, R);
      ScanLeft(links, hi, c);
      NextPart(links, hi, cap, c);
      var c' := c.(runs := []);
      AllocRefilled(links, hi, cap, c', l, room - |o|);
      AllocServed(links, hi, cap, Refill(links, hi, cap, c').1, l, room - |o|);
    } else {
      SameScan(links, hi, c, req, room);
      assert r == (r + R)[..|r|];
    }
  }

  /** One round against a cache that is not empty. */
  lemma AllocOnce(links: seq<Link>, hi: nat, cap: nat, c: Cache, req: nat, room: nat)
    requires cap >= 1 && c.runs != []
    ensures var (o, r, l) := Take(c.runs, req, room);
      && |o| <= room && l <= req
      && Alloc(links, hi, cap, c, req, room) ==
           if l > 0 && r == [] then Joined(o, Alloc(links, hi, cap, c.(runs := []), l, room - |o|))
           else (if l == 0 then Ok else TryAgain, o, c.(runs := r))
  {
    hide Take, Refill;
    TakeConserves(c.runs, req, room);
  }

  lemma ScanLeft(links: seq<Link>, hi: nat, c: Cache)
    ensures Unscanned(links, hi, c) != [] ==> Ahead(c)
    ensures Expand([]) == [] && Total([]) == 0
  {}

  /** Handing out some of the cached runs does not change what is not scanned yet. */
  lemma SameScan(links: seq<Link>, hi: nat, c: Cache, req: nat, room: nat)
    ensures var r := Take(c.runs, req, room).1;
      r != [] ==> Unscanned(links, hi, c.(runs := r)) == Unscanned(links, hi, c)
  {
    hide Runs, Keep, FreeList, Take;
    if Take(c.runs, req, room).1 != [] {
      TakeSuffix(c.runs, req, room);
    }
  }

  /** What is left of a list of runs ends as the list did. */
  lemma {:induction false} TakeSuffix(runs: seq<Run>, req: nat, room: nat)
    requires Take(runs, req, room).1 != []
    ensures var rest := Take(runs, req, room).1;
      runs != [] && rest[|rest| - 1].Last() == runs[|runs| - 1].Last()
  {
    if req != 0 && room != 0 && runs[0].Count() <= req {
      TakeSuffix(runs[1..], req - runs[0].Count(), room - 1);
    }
  }

  /** The supply of a pool is a pool. */
  lemma SupplyPool(links: seq<Link>, hi: nat, c: Cache)
    requires PoolOk(links, hi, c.runs)
    ensures PoolOk(links, hi, Supply(links, hi, c))
  {
    hide Runs, Keep, Expand;
    var R := Unscanned(links, hi, c);
    if Ahead(c) {
      var all := FreeList(links, ScanFrom(c.from), hi);
      RunsCanonical(all);
      FreeListExact(links, ScanFrom(c.from), hi);
      KeepPool(links, hi, Runs(all), c.curMin);
      KeepInside(Runs(all), c.curMin);
      LastIsLargest(links, hi, c.runs);
      PoolJoin(links, hi, c.runs, R);
    } else {
      assert c.runs + [] == c.runs;
    }
  }

  lemma KeepInside(rs: seq<Run>, min: nat)
    ensures forall x :: x in Expand(Keep(rs, min)) ==> x in Expand(rs)
  {
    if rs != [] {
      var front, r := rs[..|rs| - 1], rs[|rs| - 1];
      assert rs == front + [r];
      ExpandConcat(front, [r]);
      ExpandConcat(Long(front, min), [r]);
      LongInside(front, min);
    }
  }

  lemma {:induction false} LongInside(rs: seq<Run>, min: nat)
    ensures forall x :: x in Expand(Long(rs, min)) ==> x in Expand(rs)
  {
    if rs != [] {
      var front, r := rs[..|rs| - 1], rs[|rs| - 1];
      assert rs == front + [r];
      ExpandConcat(front, [r]);
      ExpandConcat(Long(front, min), [r]);
      LongInside(front, min);
      assert Long(front, min) + [] == Long(front, min);
    }
  }

  lemma LastIsLargest(links: seq<Link>, hi: nat, rs: seq<Run>)
    requires PoolOk(links, hi, rs) && rs != []
    ensures forall x :: x in Expand(rs) ==> x <= rs[|rs| - 1].Last()
  {
    hide Expand;
    var front, r := rs[..|rs| - 1], rs[|rs| - 1];
    assert rs == front + [r];
    ExpandSnoc(front, r);
    AscendingEnd(Expand(front), r);
  }

  lemma AscendingEnd(s: seq<nat>, r: Run)
    requires Ascending(s + Clusters(r))
    ensures forall x :: x in s + Clusters(r) ==> x <= r.Last()
  {
    var e := s + Clusters(r);
    assert e[|e| - 1] == Clusters(r)[r.adj] == r.Last();
  }

  lemma {:induction false} FillPool(links: seq<Link>, hi: nat, cap: nat, c: Cache)
    requires cap >= 1 && PoolOk(links, hi, c.runs)
    ensures PoolOk(links, hi, Fill(links, hi, cap, c).1.runs)
    decreases c.runs == [], c.curMin, c.from != 0
  {
    hide Refill, PoolOk;
    if c.runs == [] {
      RefillPool(links, hi, cap, c);
      var (s, c1) := Refill(links, hi, cap, c);
      if s != NoMore {
        FillPool(links, hi, cap, c1);
      }
    }
  }

  /** A covered request against a pool of free runs: what is handed out and what stays cached together are
      a pool, the request is met completely unless the room is used up, and only a request for nothing can
      be refused. */
  lemma AllocFacts(links: seq<Link>, hi: nat, cap: nat, c: Cache, req: nat, room: nat)
    requires cap >= 1 && room >= 1 && PoolOk(links, hi, c.runs) && Covers(links, hi, cap, c, req)
    ensures var (st, out, c1) := Alloc(links, hi, cap, c, req, room);
      && PoolOk(links, hi, out + c1.runs) && Total(out) <= req
      && (st == Ok ==> Total(out) == req)
      && (st == TryAgain ==> 0 < Total(out) < req && c1.runs != [] && Covers(links, hi, cap, c1, req - Total(out)))
      && st in {Ok, TryAgain, NoMore} && (st == NoMore <==> req == 0 && c == Cache([], 0, 0))
      && (st == NoMore ==> out == [])
  {
    hide PoolOk, Expand, Total, Take, Refill, Supply, Ahead;
    if req > 0 {
      AllocFilled(links, hi, cap, c, req, room);
      var full := Fill(links, hi, cap, c).1;
      FillPool(links, hi, cap, c);
      FromData(links, hi, full);
      AllocServed(links, hi, cap, full, req, room);
      SupplyPool(links, hi, full);
      var supply := Supply(links, hi, full);
      TakeConserves(supply, req, room);
      var (out, rest, left) := Take(supply, req, room);
      var c1 := Alloc(links, hi, cap, full, req, room).2;
      TotalSum(out, rest, supply);
      PoolWhole(links, hi, out, rest, supply);
      PoolPrefix(links, hi, out, rest, |c1.runs|);
      OneEach(out);
    } else {
      AllocNothing(links, hi, cap, c, room);
      ExpandNothing();
      var c1 := Alloc(links, hi, cap, c, req, room).2;
      assert [] + c1.runs == c1.runs;
      if c.runs == [] {
        RefillPool(links, hi, cap, c);
      }
    }
  }

  lemma FromData(links: seq<Link>, hi: nat, c: Cache)
    requires PoolOk(links, hi, c.runs)
    ensures Ahead(c) ==> c.from >= 2
  {
    if Ahead(c) {
      RunInside(c.runs, c.runs[|c.runs| - 1]);
    }
  }

  lemma PoolPrefix(links: seq<Link>, hi: nat, out: seq<Run>, rest: seq<Run>, n: nat)
    requires PoolOk(links, hi, out + rest) && n <= |rest|
    ensures PoolOk(links, hi, out + rest[..n])
  {
    assert out + rest == out + rest[..n] + rest[n..];
    ExpandConcat(out + rest[..n], rest[n..]);
    PoolParts(links, hi, out + rest[..n], rest[n..], out + rest);
  }

  /** What is handed out lies before what the next scan is about. */
  lemma BehindScan(links: seq<Link>, hi: nat, out: seq<Run>, c: Cache)
    requires PoolOk(links, hi, out + c.runs)
    ensures Ahead(c) ==> forall x :: x in Expand(out) ==> x < c.from
  {
    if Ahead(c) {
      ExpandConcat(out, c.runs);
      PoolParts(links, hi, out, c.runs, out + c.runs);
      RunInside(c.runs, c.runs[|c.runs| - 1]);
    }
  }

  /** A change of the FAT before the place where the next scan starts does not matter. */
  lemma StillCovers(links: seq<Link>, after: seq<Link>, hi: nat, cap: nat, c: Cache, req: nat)
    requires cap >= 1 && c.runs != [] && Covers(links, hi, cap, c, req)
    requires Ahead(c) ==> forall x :: c.from <= x < hi ==> (Look(links, x) == Free <==> Look(after, x) == Free)
    ensures Covers(after, hi, cap, c, req)
  {
    hide FreeList, Runs, Keep, Total;
    if Ahead(c) {
      SameFree(links, after, ScanFrom(c.from), hi);
    }
  }

  lemma OneEach(rs: seq<Run>)
    ensures Total(rs) >= |rs|
  {}

  lemma PoolWhole(links: seq<Link>, hi: nat, a: seq<Run>, b: seq<Run>, whole: seq<Run>)
    requires PoolOk(links, hi, whole) && Expand(a) + Expand(b) == Expand(whole)
    ensures PoolOk(links, hi, a + b)
  {
    ExpandConcat(a, b);
  }

  /** A request for nothing may still scan, and is refused when there is nothing left to scan for. */
  lemma AllocNothing(links: seq<Link>, hi: nat, cap: nat, c: Cache, room: nat)
    requires cap >= 1
    ensures Alloc(links, hi, cap, c, 0, room) ==
      (if c.runs != [] then (Ok, [], c)
       else
         var (s, c1) := Refill(links, hi, cap, c);
         (if s == NoMore then NoMore else Ok, [], c1))
    ensures c.runs == [] ==> (Refill(links, hi, cap, c).0 == NoMore <==> c == Cache([], 0, 0))
    ensures c == Cache([], 0, 0) ==> Refill(links, hi, cap, c).1 == c
  {}

  lemma TotalSum(a: seq<Run>, b: seq<Run>, whole: seq<Run>)
    requires Expand(a) + Expand(b) == Expand(whole)
    ensures Total(a) + Total(b) == Total(whole)
  {}

  lemma TakeNothing(req: nat, room: nat)
    ensures Take([], req, room) == ([], [], req)
  {}

  /** The cache still is what a completed scan of the present FAT returns; a mount leaves it like this when
      the free runs fit the cache. */
  ghost predicate Fresh(links: seq<Link>, hi: nat, cap: nat, c: Cache) {
    c.runs != [] && ScanBatch(links, c.from, hi, c.curMin, cap) == (Ok, c.runs, c.from)
  }

  /** The next scan will find something: it continues the last one, or repeats it. */
  ghost predicate Renewable(links: seq<Link>, hi: nat, cap: nat, c: Cache) {
    Fresh(links, hi, cap, c) || (Ahead(c) && c.from >= 2 && Unscanned(links, hi, c) != [])
  }

  lemma {:induction false} TakeAll(runs: seq<Run>, req: nat, room: nat)
    requires req >= Total(runs) && room >= |runs|
    ensures Take(runs, req, room) == (runs, [], req - Total(runs))
  {
    hide Expand;
    if runs != [] {
      assert runs == [runs[0]] + runs[1..];
      TakeAll(runs[1..], req - runs[0].Count(), room - 1);
    }
  }

  lemma FreshSupply(links: seq<Link>, hi: nat, cap: nat, c: Cache)
    requires cap >= 1 && Fresh(links, hi, cap, c)
    ensures Unscanned(links, hi, c) == [] && Supply(links, hi, c) == c.runs && c.from >= 2
    ensures Refill(links, hi, cap, c.(runs := [])) == (Ok, c)
  {
    hide Runs, Keep, FreeList, ScanBatch;
    ScanResumes(links, c.from, hi, c.curMin, cap);
    KeptFrom(links, c.from, hi, c.curMin);
    assert c.runs + [] == c.runs;
  }

  /** A request beyond the supply, with room for more than the supply: the scan starts over and returns
      clusters that have been handed out. With room for exactly the supply they come into the cache. */
  lemma {:induction false} ServedAgain(links: seq<Link>, hi: nat, cap: nat, c: Cache, req: nat, room: nat)
    requires cap >= 1 && Renewable(links, hi, cap, c)
    requires req > Total(Supply(links, hi, c)) && room >= |Supply(links, hi, c)|
    ensures var S := Supply(links, hi, c); var (st, out, c1) := Alloc(links, hi, cap, c, req, room);
      && (room == |S| ==> out == S && c1.runs != [] && c1.runs[0].base in Expand(S))
      && (room > |S| ==> !Distinct(Expand(out)))
    decreases req
  {
    hide Expand, Runs, Keep, Refill, FreeList, Alloc, Take, Unscanned, Ahead, ScanBatch;
    var R := Unscanned(links, hi, c);
    ExpandConcat(c.runs, R);
    ScanLeft(links, hi, c);
    TakeAll(c.runs, req, room);
    AllocOnce(links, hi, cap, c, req, room);
    var left, more := req - Total(c.runs), room - |c.runs|;
    var c' := c.(runs := []);
    if Fresh(links, hi, cap, c) {
      FreshSupply(links, hi, cap, c);
      AllocRefilled(links, hi, cap, c', left, more);
      if more == 0 {
        TakeOne(c.runs, left, 0);
        AllocOnce(links, hi, cap, c, left, 0);
        FirstInside(c.runs);
        assert c.runs + [] == c.runs;
      } else {
        ServedTwice(links, hi, cap, c, left, more, c.runs);
      }
    } else {
      NextPart(links, hi, cap, c);
      var c2 := Refill(links, hi, cap, c').1;
      AllocRefilled(links, hi, cap, c', left, more);
      ServedAgain(links, hi, cap, c2, left, more);
      var out2 := Alloc(links, hi, cap, c2, left, more).1;
      ExpandConcat(c.runs, out2);
      DistinctParts(Expand(c.runs), Expand(out2));
    }
  }

  lemma FirstInside(rs: seq<Run>)
    requires rs != []
    ensures rs[0].base in Expand(rs)
  {
    assert Expand(rs)[0] == Clusters(rs[0])[0] == rs[0].base;
  }

  lemma DistinctParts(a: seq<nat>, b: seq<nat>)
    ensures Distinct(a + b) ==> Distinct(a) && Distinct(b) && forall x :: x in b ==> x !in a
  {
    var s := a + b;
    if Distinct(s) {
      assert forall i :: 0 <= i < |a| ==> a[i] == s[i];
      assert forall i :: 0 <= i < |b| ==> b[i] == s[|a| + i];
      forall i, j | 0 <= i < j < |b|
        ensures b[i] != b[j]
      {
        assert s[|a| + i] != s[|a| + j];
      }
      forall x | x in b
        ensures x !in a
      {
        var j :| 0 <= j < |b| && b[j] == x;
        assert forall i :: 0 <= i < |a| ==> s[i] != s[|a| + j];
      }
    }
  }

  /** A request within the supply. */
  lemma WithinPool(links: seq<Link>, hi: nat, cap: nat, c: Cache, req: nat, room: nat)
    requires cap >= 1 && PoolOk(links, hi, c.runs) && c.runs != [] && InSupply(links, hi, c, req, room)
    ensures var (st, out, c1) := Alloc(links, hi, cap, c, req, room);
      && out == Take(Supply(links, hi, c), req, room).0 && PoolOk(links, hi, out + c1.runs) && PoolOk(links, hi, out)
      && out + c1.runs != [] && (out + c1.runs)[0].base == c.runs[0].base
  {
    hide Expand, Total, Alloc, Take, Unscanned, PoolOk, Ahead;
    var S := Supply(links, hi, c);
    var (st, out, c1) := Alloc(links, hi, cap, c, req, room);
    SupplyPool(links, hi, c);
    TakeFirst(S, req, room);
    if req == 0 {
      AllocNothing(links, hi, cap, c, room);
      TakeOne(S, 0, room);
      ExpandNothing();
      assert [] + c.runs == c.runs;
      PoolNone(links, hi);
    } else {
      FromData(links, hi, c);
      AllocServed(links, hi, cap, c, req, room);
      TakeConserves(S, req, room);
      var (o, rest, left) := Take(S, req, room);
      PoolWhole(links, hi, o, rest, S);
      PoolPrefix(links, hi, o, rest, |c1.runs|);
      PoolParts(links, hi, o, rest, S);
    }
  }

  lemma TakeFirst(runs: seq<Run>, req: nat, room: nat)
    requires runs != []
    ensures var (o, r, l) := Take(runs, req, room);
      if o == [] then r == runs && (req == 0 || room == 0) else o[0].base == runs[0].base
  {}

  lemma PoolNone(links: seq<Link>, hi: nat)
    ensures PoolOk(links, hi, [])
  {}

  /** The exact conditions of one call, for every cache, request and room: when what is handed out together
      with what is then cached is free, ascending and disjoint; when it is free and disjoint; and when the
      runs handed out are disjoint. */
  lemma AllocExact(links: seq<Link>, hi: nat, cap: nat, c: Cache, req: nat, room: nat)
    requires cap >= 1 && PoolOk(links, hi, c.runs) && c.runs != []
    ensures var (st, out, c1) := Alloc(links, hi, cap, c, req, room);
      && (PoolOk(links, hi, out + c1.runs) <==> Sound(links, hi, cap, c, req, room))
      && (Distinct(Expand(out + c1.runs)) <==> Clear(links, hi, cap, c, req, room))
      && (Distinct(Expand(out)) <==> Separate(links, hi, cap, c, req, room))
  {
    hide Expand, Total, Alloc, Take, Unscanned, PoolOk, Renewable, InSupply, Again, Ahead;
    var S := Supply(links, hi, c);
    var (st, out, c1) := Alloc(links, hi, cap, c, req, room);
    if InSupply(links, hi, c, req, room) {
      WithinPool(links, hi, cap, c, req, room);
      PoolDistinct(links, hi, out);
      PoolDistinct(links, hi, out + c1.runs);
    } else if Unscanned(links, hi, c) != [] {
      FromData(links, hi, c);
      StillScanning(links, hi, cap, c);
      BeyondExact(links, hi, cap, c, req, room);
    } else {
      AgainExact(links, hi, cap, c, req, room);
    }
  }

  lemma StillScanning(links: seq<Link>, hi: nat, cap: nat, c: Cache)
    requires Unscanned(links, hi, c) != [] && (Ahead(c) ==> c.from >= 2)
    ensures Renewable(links, hi, cap, c)
  {}

  /** Beyond the supply, while the scan is not complete. */
  lemma BeyondExact(links: seq<Link>, hi: nat, cap: nat, c: Cache, req: nat, room: nat)
    requires cap >= 1 && PoolOk(links, hi, c.runs) && Renewable(links, hi, cap, c) && !InSupply(links, hi, c, req, room)
    ensures var (st, out, c1) := Alloc(links, hi, cap, c, req, room);
      && !PoolOk(links, hi, out + c1.runs) && !Distinct(Expand(out + c1.runs))
      && (Distinct(Expand(out)) <==> room == |Supply(links, hi, c)|)
      && (room == |Supply(links, hi, c)| ==> out == Supply(links, hi, c))
  {
    hide Expand, Total, Alloc, Unscanned, PoolOk, Renewable, Supply;
    var (st, out, c1) := Alloc(links, hi, cap, c, req, room);
    SupplyPool(links, hi, c);
    PoolDistinct(links, hi, Supply(links, hi, c));
    ServedAgain(links, hi, cap, c, req, room);
    NotPool(links, hi, out, c1.runs);
  }

  /** Beyond the supply, when the scan is complete. */
  lemma AgainExact(links: seq<Link>, hi: nat, cap: nat, c: Cache, req: nat, room: nat)
    requires cap >= 1 && PoolOk(links, hi, c.runs) && c.runs != []
    requires Unscanned(links, hi, c) == [] && !InSupply(links, hi, c, req, room)
    ensures var (st, out, c1) := Alloc(links, hi, cap, c, req, room);
      && (PoolOk(links, hi, out + c1.runs) <==> Sound(links, hi, cap, c, req, room))
      && (Distinct(Expand(out + c1.runs)) <==> Clear(links, hi, cap, c, req, room))
      && (Distinct(Expand(out)) <==> Separate(links, hi, cap, c, req, room))
  {
    hide Expand, Total, Alloc, Take, Unscanned, PoolOk, Renewable, InSupply, Fill, Cached;
    AllocAgain(links, hi, cap, c, req, room);
    var (st, c2) := Again(links, hi, cap, c);
    var left, more := req - Total(c.runs), room - |c.runs|;
    PoolDistinct(links, hi, c.runs);
    assert Supply(links, hi, c) == c.runs;
    if st != Ok {
      FillNothing(links, hi, cap, c.(runs := []));
      assert c.runs + [] == c.runs;
    } else {
      PoolNone(links, hi);
      FillRenewable(links, hi, cap, c.(runs := []));
      FillPool(links, hi, cap, c.(runs := []));
      var (_, out2, c1) := Alloc(links, hi, cap, c2, left, more);
      assert c.runs + out2 + c1.runs == c.runs + (out2 + c1.runs);
      ExpandConcat(c.runs, out2);
      ExpandConcat(c.runs, out2 + c1.runs);
      if InSupply(links, hi, c2, left, more) {
        WithinPool(links, hi, cap, c2, left, more);
        PoolDistinct(links, hi, out2);
        PoolDistinct(links, hi, out2 + c1.runs);
        PoolBehind(links, hi, c.runs, out2 + c1.runs);
        DistinctJoin(Expand(c.runs), Expand(out2));
        DistinctJoin(Expand(c.runs), Expand(out2 + c1.runs));
        NothingTaken(links, hi, c2, left, more);
        FromData(links, hi, c2);
        HandedAndCached(links, hi, cap, c2, left, more);
      } else {
        SupplyNotEmpty(links, hi, cap, c2);
        BeyondExact(links, hi, cap, c2, left, more);
        BeyondAll(links, hi, c2, left, more);
        SupplyPool(links, hi, c2);
        PoolDistinct(links, hi, Supply(links, hi, c2));
        if Distinct(Expand(out2)) {
          DistinctJoin(Expand(c.runs), Expand(out2));
        }
        DistinctParts(Expand(c.runs), Expand(out2));
        DistinctParts(Expand(c.runs), Expand(out2 + c1.runs));
        PoolDistinct(links, hi, c.runs + (out2 + c1.runs));
      }
    }
  }

  lemma FillNothing(links: seq<Link>, hi: nat, cap: nat, c: Cache)
    requires cap >= 1 && c.runs == [] && Fill(links, hi, cap, c).0 != Ok
    ensures Fill(links, hi, cap, c).1 == Cache([], 0, 0)
  {
    AllocRefused(links, hi, cap, c, 1, 1);
  }

  lemma NothingTaken(links: seq<Link>, hi: nat, c: Cache, req: nat, room: nat)
    ensures room == 0 ==> Take(Supply(links, hi, c), req, room).0 == [] && Expand([]) == []
  {
    hide Supply;
  }

  lemma SupplyNotEmpty(links: seq<Link>, hi: nat, cap: nat, c: Cache)
    requires Renewable(links, hi, cap, c)
    ensures Supply(links, hi, c) != []
  {}

  lemma BeyondAll(links: seq<Link>, hi: nat, c: Cache, req: nat, room: nat)
    requires !InSupply(links, hi, c, req, room)
    ensures Take(Supply(links, hi, c), req, room).0 == Supply(links, hi, c) && room >= |Supply(links, hi, c)|
  {
    hide Supply, Take, Expand;
    TakeAll(Supply(links, hi, c), req, room);
  }

  /** Two pools one behind the other. */
  lemma PoolBehind(links: seq<Link>, hi: nat, a: seq<Run>, b: seq<Run>)
    requires PoolOk(links, hi, a) && PoolOk(links, hi, b) && a != [] && b != []
    ensures PoolOk(links, hi, a + b) <==> a[|a| - 1].Last() < b[0].base
  {
    hide PoolOk, Expand;
    RunInside(a, a[|a| - 1]);
    FirstInside(b);
    LastIsLargest(links, hi, a);
    FirstIsLeast(links, hi, b);
    ExpandConcat(a, b);
    if PoolOk(links, hi, a + b) {
      PoolParts(links, hi, a, b, a + b);
    }
    if a[|a| - 1].Last() < b[0].base {
      PoolJoin(links, hi, a, b);
    }
  }

  lemma FirstIsLeast(links: seq<Link>, hi: nat, rs: seq<Run>)
    requires PoolOk(links, hi, rs) && rs != []
    ensures forall x :: x in Expand(rs) ==> rs[0].base <= x
  {
    assert Expand(rs)[0] == Clusters(rs[0])[0] == rs[0].base;
  }

  lemma DistinctJoin(a: seq<nat>, b: seq<nat>)
    requires Distinct(a) && Distinct(b)
    ensures Distinct(a + b) <==> forall x :: x in b ==> x !in a
  {
    if forall x :: x in b ==> x !in a {
      forall i, j | 0 <= i < j < |a + b|
        ensures (a + b)[i] != (a + b)[j]
      {
        assert i < |a| <= j ==> a[i] in a && b[j - |a|] in b;
      }
    } else {
      var x :| x in b && x in a;
      var i :| 0 <= i < |a| && a[i] == x;
      var j :| 0 <= j < |b| && b[j] == x;
      assert (a + b)[i] == (a + b)[|a| + j];
    }
  }

  lemma PoolDistinct(links: seq<Link>, hi: nat, rs: seq<Run>)
    ensures PoolOk(links, hi, rs) ==> Distinct(Expand(rs))
  {}

  lemma NotPool(links: seq<Link>, hi: nat, a: seq<Run>, b: seq<Run>)
    requires !Distinct(Expand(a)) || (b != [] && b[0].base in Expand(a))
    ensures !PoolOk(links, hi, a + b) && !Distinct(Expand(a + b))
  {
    hide Expand;
    ExpandConcat(a, b);
    DistinctParts(Expand(a), Expand(b));
    if b != [] {
      FirstInside(b);
    }
    PoolDistinct(links, hi, a + b);
  }

  /** What a fill finds is the first batch of a scan. */
  lemma {:induction false} FillRenewable(links: seq<Link>, hi: nat, cap: nat, c: Cache)
    requires cap >= 1 && c.runs == [] && Fill(links, hi, cap, c).0 == Ok
    ensures Renewable(links, hi, cap, Fill(links, hi, cap, c).1)
    decreases c.curMin, c.from != 0
  {
    hide Refill, Renewable;
    var c1 := Refill(links, hi, cap, c).1;
    if c1.runs == [] {
      FillRenewable(links, hi, cap, c1);
    } else {
      RefillRenewable(links, hi, cap, c);
    }
  }

  lemma RefillRenewable(links: seq<Link>, hi: nat, cap: nat, c: Cache)
    requires cap >= 1 && c.runs == [] && Refill(links, hi, cap, c).1.runs != []
    ensures Renewable(links, hi, cap, Refill(links, hi, cap, c).1)
  {
    hide Runs, Keep, NextBase, FreeList;
    var min := if c.from == 0 then c.curMin / 4 else c.curMin;
    ScanResumes(links, c.from, hi, min, cap);
    var (st, rs, next) := ScanBatch(links, c.from, hi, min, cap);
    if st == TryAgain {
      FreeListFirst(links, next, hi);
    }
  }

  /** The request stays within the supply, or runs out of room before it has used it up. */
  predicate InSupply(links: seq<Link>, hi: nat, c: Cache, req: nat, room: nat) {
    req <= Total(Supply(links, hi, c)) || room < |Supply(links, hi, c)|
  }

  /** What a request that uses up the cache is served from next. */
  function Again(links: seq<Link>, hi: nat, cap: nat, c: Cache): (Status, Cache)
    requires cap >= 1
  {
    Fill(links, hi, cap, c.(runs := []))
  }

  /** What is missing, and what room is left, when the cached runs have been handed out. */
  function Missing(c: Cache, req: nat): nat {
    if req <= Total(c.runs) then 0 else req - Total(c.runs)
  }

  function RoomLeft(c: Cache, room: nat): nat {
    if room <= |c.runs| then 0 else room - |c.runs|
  }

  /** No cluster of the one list of runs is in the other. */
  predicate Others(a: seq<Run>, b: seq<Run>) {
    forall x :: x in Expand(a) ==> x !in Expand(b)
  }

  /** When one call is sound: it stays within the supply; or the scan is complete and the one that starts over
      finds nothing, or finds clusters behind all those handed out and is not used up in its turn. */
  predicate Sound(links: seq<Link>, hi: nat, cap: nat, c: Cache, req: nat, room: nat)
    requires cap >= 1 && c.runs != []
  {
    InSupply(links, hi, c, req, room)
    || (Unscanned(links, hi, c) == []
        && var (st, c2) := Again(links, hi, cap, c);
           st != Ok
           || (InSupply(links, hi, c2, Missing(c, req), RoomLeft(c, room))
               && c.runs[|c.runs| - 1].Last() < c2.runs[0].base))
  }

  /** When what one call hands out and then caches has no cluster in common: likewise, but the clusters found
      by the scan that starts over need only be others than those handed out. */
  predicate Clear(links: seq<Link>, hi: nat, cap: nat, c: Cache, req: nat, room: nat)
    requires cap >= 1 && c.runs != []
  {
    InSupply(links, hi, c, req, room)
    || (Unscanned(links, hi, c) == []
        && var (st, c2) := Again(links, hi, cap, c);
           st != Ok
           || (var left, more := Missing(c, req), RoomLeft(c, room);
               && InSupply(links, hi, c2, left, more)
               && var (o, r, l) := Take(Supply(links, hi, c2), left, more);
                  Others(o + r[..Cached(links, hi, cap, c2, left, more)], c.runs)))
  }

  /** How many of the runs left of a supply are in the cache: those of the batch in which the hand-out ended,
      and of the next one if it ended with a batch and goes on (`open`), because clusters are still missing or
      the first run left is the rest of one. The first batch has `first` runs, the others `cap`; `gone` runs
      have been used up, and `rest` are left. */
  function InBatch(first: nat, cap: nat, gone: nat, open: bool, rest: nat): (n: nat)
    requires first >= 1 && cap >= 1
    ensures n <= rest
    decreases gone
  {
    if gone < first then (if first - gone <= rest then first - gone else rest)
    else if gone == first then (if !open then 0 else if cap <= rest then cap else rest)
    else InBatch(cap, cap, gone - first, open, rest)
  }

  function Cached(links: seq<Link>, hi: nat, cap: nat, c: Cache, req: nat, room: nat): (n: nat)
    requires cap >= 1 && c.runs != []
    ensures n <= |Take(Supply(links, hi, c), req, room).1|
  {
    var S := Supply(links, hi, c);
    var (o, r, l) := Take(S, req, room);
    TakeSize(S, req, room);
    InBatch(|c.runs|, cap, |S| - |r|, l > 0 || |o| + |r| > |S|, |r|)
  }

  lemma {:induction false} TakeSize(runs: seq<Run>, req: nat, room: nat)
    ensures |Take(runs, req, room).1| <= |runs|
  {
    hide Take;
    TakeOne(runs, req, room);
    if runs != [] && req != 0 && room != 0 && runs[0].Count() <= req {
      TakeSize(runs[1..], req - runs[0].Count(), room - 1);
    }
  }

  /** A hand-out that goes on behind the first batch. */
  lemma InBatchStep(first: nat, cap: nat, gone: nat, open: bool, rest: nat)
    requires first >= 1 && cap >= 1 && gone + rest >= 1 && (gone > 0 || open)
    ensures InBatch(first, cap, first + gone, open, rest) ==
      InBatch(if cap <= gone + rest then cap else gone + rest, cap, gone, open, rest)
  {}

  lemma NextSize(links: seq<Link>, hi: nat, cap: nat, c: Cache)
    requires cap >= 1 && Ahead(c) && c.from >= 2 && Unscanned(links, hi, c) != []
    ensures var n := |Unscanned(links, hi, c)|;
      |Refill(links, hi, cap, c.(runs := [])).1.runs| == if cap <= n then cap else n
  {
    hide Runs, Keep, NextBase, FreeList;
  }

  lemma TakeGone(runs: seq<Run>, req: nat, room: nat)
    requires req > 0
    ensures var (o, r, l) := Take(runs, req, room); |r| < |runs| || l > 0 || |o| + |r| > |runs|
  {
    hide Take, Expand;
    TakeConserves(runs, req, room);
    ExpandNothing();
  }

  /** What a request within the supply leaves in the cache. */
  lemma {:induction false} CachedIs(links: seq<Link>, hi: nat, cap: nat, c: Cache, req: nat, room: nat)
    requires cap >= 1 && req > 0 && c.runs != [] && (Ahead(c) ==> c.from >= 2) && InSupply(links, hi, c, req, room)
    ensures |Alloc(links, hi, cap, c, req, room).2.runs| == Cached(links, hi, cap, c, req, room)
    decreases req
  {
    hide Expand, Total, Refill, Fresh, Alloc, Take, Unscanned, Ahead, InBatch;
    var R := Unscanned(links, hi, c);
    var (o, r, l) := Take(c.runs, req, room);
    TakeAppend(c.runs, R, req, room);
    TakeConserves(c.runs, req, room);
    TakeSize(c.runs, req, room);
    AllocOnce(links, hi, cap, c, req, room);
    if l > 0 && r == [] {
      ExpandConcat(c.runs, R);
      ScanLeft(links, hi, c);
      NextPart(links, hi, cap, c);
      NextSize(links, hi, cap, c);
      var c2 := Refill(links, hi, cap, c.(runs := [])).1;
      AllocRefilled(links, hi, cap, c.(runs := []), l, room - |o|);
      CachedIs(links, hi, cap, c2, l, room - |o|);
      var (o2, r2, l2) := Take(R, l, room - |o|);
      TakeSize(R, l, room - |o|);
      TakeGone(R, l, room - |o|);
      InBatchStep(|c.runs|, cap, |R| - |r2|, l2 > 0 || |o2| + |r2| > |R|, |r2|);
    } else {
      FirstBatch(|c.runs|, cap, |r|, l > 0 || |o| + |r| > |c.runs|, |R|);
    }
  }

  lemma HandedAndCached(links: seq<Link>, hi: nat, cap: nat, c: Cache, req: nat, room: nat)
    requires cap >= 1 && req > 0 && c.runs != [] && (Ahead(c) ==> c.from >= 2) && InSupply(links, hi, c, req, room)
    ensures var (st, out, c1) := Alloc(links, hi, cap, c, req, room);
      var (o, r, l) := Take(Supply(links, hi, c), req, room);
      out == o && c1.runs == r[..Cached(links, hi, cap, c, req, room)]
  {
    hide Alloc, Take, Supply, Cached, Ahead;
    AllocServed(links, hi, cap, c, req, room);
    CachedIs(links, hi, cap, c, req, room);
  }

  lemma FirstBatch(first: nat, cap: nat, left: nat, open: bool, more: nat)
    requires first >= 1 && cap >= 1 && left <= first && (left == 0 ==> !open)
    ensures InBatch(first, cap, first - left, open, left + more) == left
  {}

  /** When the runs handed out by one call have no cluster in common: it stays within the supply or uses it up
      together with the room; or the scan is complete and the one that starts over finds nothing, or what is
      taken from it was not handed out before. */
  predicate Separate(links: seq<Link>, hi: nat, cap: nat, c: Cache, req: nat, room: nat)
    requires cap >= 1 && c.runs != []
  {
    InSupply(links, hi, c, req, room) || room == |Supply(links, hi, c)|
    || (Unscanned(links, hi, c) == []
        && var (st, c2) := Again(links, hi, cap, c);
           st != Ok
           || (var left, more := Missing(c, req), RoomLeft(c, room);
               && (InSupply(links, hi, c2, left, more) || more == |Supply(links, hi, c2)|)
               && Others(Take(Supply(links, hi, c2), left, more).0, c.runs)))
  }

  /** A request that uses up a cache whose scan is complete. */
  lemma AllocAgain(links: seq<Link>, hi: nat, cap: nat, c: Cache, req: nat, room: nat)
    requires cap >= 1 && c.runs != [] && Unscanned(links, hi, c) == [] && !InSupply(links, hi, c, req, room)
    ensures req > Total(c.runs) && room >= |c.runs|
    ensures var (st, c2) := Again(links, hi, cap, c); var left, more := req - Total(c.runs), room - |c.runs|;
      Alloc(links, hi, cap, c, req, room) ==
        if st == Ok then Joined(c.runs, Alloc(links, hi, cap, c2, left, more)) else (NoMore, c.runs, c2)
  {
    hide Expand, Alloc, Take, Fill, Unscanned;
    assert c.runs + [] == c.runs;
    TakeAll(c.runs, req, room);
    AllocOnce(links, hi, cap, c, req, room);
    var left, more := req - Total(c.runs), room - |c.runs|;
    var c' := c.(runs := []);
    if Fill(links, hi, cap, c').0 == Ok {
      AllocFilled(links, hi, cap, c', left, more);
    } else {
      AllocRefused(links, hi, cap, c', left, more);
      assert c.runs + [] == c.runs;
    }
  }

  lemma {:induction false} AllocRefused(links: seq<Link>, hi: nat, cap: nat, c: Cache, req: nat, room: nat)
    requires cap >= 1 && req > 0 && c.runs == [] && Fill(links, hi, cap, c).0 != Ok
    ensures Alloc(links, hi, cap, c, req, room) == (NoMore, [], Fill(links, hi, cap, c).1)
    ensures Fill(links, hi, cap, c).1 == Cache([], 0, 0)
    decreases c.curMin, c.from != 0
  {
    hide ScanBatch;
    var (st, c1) := Refill(links, hi, cap, c);
    if st != NoMore {
      AllocRefused(links, hi, cap, c1, req, room);
      TakeNothing(req, room);
      assert [] + Alloc(links, hi, cap, c1, req, room).1 == Alloc(links, hi, cap, c1, req, room).1;
    }
  }

  /** With the cache used up and clusters still missing, the first run handed out next overlaps. */
  lemma ServedTwice(links: seq<Link>, hi: nat, cap: nat, c: Cache, left: nat, room: nat, out: seq<Run>)
    requires cap >= 1 && Fresh(links, hi, cap, c) && left > 0 && room > 0 && Expand(out) == Expand(c.runs)
    ensures !Distinct(Expand(out + Alloc(links, hi, cap, c.(runs := []), left, room).1))
  {
    hide Total, Runs, Keep, NextBase;
    var empty := c.(runs := []);
    assert Refill(links, hi, cap, empty) == (Ok, c);
    var (more, rest, missing) := Take(c.runs, left, room);
    var given := Alloc(links, hi, cap, empty, left, room).1;
    assert more != [] && more[0].base == c.runs[0].base;
    assert given != [] && given[0] == more[0];
    ExpandConcat(out, given);
    var p, q := Expand(out), Expand(given);
    assert Expand(c.runs)[0] == Clusters(c.runs[0])[0] == c.runs[0].base;
    assert q[0] == Clusters(given[0])[0] == c.runs[0].base;
    assert (p + q)[0] == (p + q)[|p|];
  }

  /** The smallest instance: two free clusters are cached, three are requested, and one is handed out twice. */
  lemma HandedOutTwice()
    ensures var links := [End, End, Free, Free, Bad, Bad]; var c := Cache([Run(2, 1)], 0, 2);
      Fresh(links, 4, FREECLUSLIST_SIZE, c) && !Distinct(Expand(Alloc(links, 4, FREECLUSLIST_SIZE, c, 3, 16).1))
  {
    hide Alloc, Keep, Runs;
    var links := [End, End, Free, Free, Bad, Bad];
    var c := Cache([Run(2, 1)], 0, 2);
    FreeListStep(links, 2, 2);
    FreeListStep(links, 2, 3);
    assert FreeList(links, 2, 2) == [];
    assert Clusters(Run(2, 1)) == [2, 3] == FreeList(links, 2, 4);
    RunsOfRun(Run(2, 1));
    KeepOfZero([Run(2, 1)]);
    ExpandOne(Run(2, 1));
    FreshSupply(links, 4, FREECLUSLIST_SIZE, c);
    FreeListExact(links, 2, 4);
    BeyondExact(links, 4, FREECLUSLIST_SIZE, c, 3, 16);
  }
}
