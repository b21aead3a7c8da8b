/** Requests of a store to the allocator: one call after the other, with what was handed out linked in between. */
module Requests {
  import opened FatEntries
  import opened Chains
  import opened FreeScan
  import opened Allocator

  /** What holds of one call whatever the cache. */
  lemma {:induction false} AllocBasics(links: seq<Link>, hi: nat, cap: nat, c: Cache, req: nat, room: nat)
    requires cap >= 1 && PoolOk(links, hi, c.runs)
    ensures var (st, out, c1) := Alloc(links, hi, cap, c, req, room);
      && |out| <= room && Total(out) <= req && PoolOk(links, hi, c1.runs) && AreFree(links, hi, out)
      && st in {Ok, TryAgain, NoMore}
      && (st == Ok ==> Total(out) == req)
      && (st == TryAgain ==> Total(out) < req && |out| == room && c1.runs != [])
      && (st == NoMore ==> c1 == Cache([], 0, 0))
    decreases req, c.curMin, c.from != 0
  {
    hide PoolOk, Expand, Total, Take, Refill;
    PoolFree(links, hi, []);
    var (st, out, c1, left) := Round(links, hi, cap, c, req, room);
    RoundBasics(links, hi, cap, c, req, room);
    if st == Ok && left > 0 {
      AllocBasics(links, hi, cap, c1, left, room - |out|);
      var more := Alloc(links, hi, cap, c1, left, room - |out|).1;
      ExpandConcat(out, more);
      assert Total(out + more) == |Expand(out + more)|;
    }
  }

  /** Clusters that may be handed out. */
  ghost predicate AreFree(links: seq<Link>, hi: nat, rs: seq<Run>) {
    forall c :: c in Expand(rs) ==> 2 <= c < hi && Look(links, c) == Free
  }

  lemma PoolFree(links: seq<Link>, hi: nat, rs: seq<Run>)
    ensures PoolOk(links, hi, rs) ==> AreFree(links, hi, rs)
    ensures AreFree(links, hi, [])
  {}

  /** One call hands out and caches clusters that can all be linked exactly when they are disjoint. */
  lemma UsableIffClear(links: seq<Link>, hi: nat, cap: nat, c: Cache, req: nat, room: nat)
    requires cap >= 1 && PoolOk(links, hi, c.runs) && c.runs != []
    ensures var (st, out, c1) := Alloc(links, hi, cap, c, req, room);
      Usable(links, hi, out + c1.runs) <==> Clear(links, hi, cap, c, req, room)
  {
    hide Alloc, PoolOk, Expand, Clear, Distinct;
    AllocBasics(links, hi, cap, c, req, room);
    AllocExact(links, hi, cap, c, req, room);
    var (st, out, c1) := Alloc(links, hi, cap, c, req, room);
    PoolFree(links, hi, c1.runs);
    ExpandConcat(out, c1.runs);
  }

  lemma RoundBasics(links: seq<Link>, hi: nat, cap: nat, c: Cache, req: nat, room: nat)
    requires cap >= 1 && PoolOk(links, hi, c.runs)
    ensures var (st, out, c1, left) := Round(links, hi, cap, c, req, room);
      && PoolOk(links, hi, c1.runs) && AreFree(links, hi, out) && Total(out) + left == req
      && st in {Ok, TryAgain, NoMore}
      && (st == NoMore ==> out == [] && c1 == Cache([], 0, 0))
      && (st == TryAgain ==> left > 0 && c1.runs != [] && |out| == room)
  {
    hide PoolOk, Expand, Take, ScanBatch;
    ExpandNothing();
    PoolNone(links, hi);
    if c.runs == [] {
      RefillPool(links, hi, cap, c);
    }
    var c0 := if c.runs == [] then Refill(links, hi, cap, c).1 else c;
    TakeConserves(c0.runs, req, room);
    var (out, rest, left) := Take(c0.runs, req, room);
    PoolParts(links, hi, out, rest, c0.runs);
    PoolFree(links, hi, out);
  }

  /** The FAT with the clusters `s` in use. */
  function Used(links: seq<Link>, s: seq<nat>): (after: seq<Link>)
    ensures |after| == |links|
  {
    seq(|links|, c requires 0 <= c < |links| => if c in s then End else links[c])
  }

  /** The calls of a store for `req` clusters, `room` runs at a time, each hand out free clusters, and leave
      such in the cache, that have nothing in common; a call that finds too little ends the store. */
  ghost predicate Served(links: seq<Link>, hi: nat, cap: nat, room: nat, c: Cache, req: nat)
    requires cap >= 1
    decreases req
  {
    var (st, out, c1) := Alloc(links, hi, cap, c, req, room);
    st == NoMore
    || (Usable(links, hi, out + c1.runs)
        && (st == TryAgain ==>
              0 < Total(out) <= req && Served(Used(links, Expand(out)), hi, cap, room, c1, req - Total(out))))
  }

  /** How these calls end. */
  ghost function EndOf(links: seq<Link>, hi: nat, cap: nat, room: nat, c: Cache, req: nat): Status
    requires cap >= 1
    decreases req
  {
    var (st, out, c1) := Alloc(links, hi, cap, c, req, room);
    if st == TryAgain && 0 < Total(out) <= req then
      EndOf(Used(links, Expand(out)), hi, cap, room, c1, req - Total(out))
    else st
  }

  /** The clusters these calls hand out; what one that finds too little had taken is dropped. */
  ghost function Handed(links: seq<Link>, hi: nat, cap: nat, room: nat, c: Cache, req: nat): seq<nat>
    requires cap >= 1
    decreases req
  {
    var (st, out, c1) := Alloc(links, hi, cap, c, req, room);
    if st == TryAgain && 0 < Total(out) <= req then
      Expand(out) + Handed(Used(links, Expand(out)), hi, cap, room, c1, req - Total(out))
    else if st == NoMore then []
    else Expand(out)
  }

  /** The cache the last of them leaves. */
  ghost function LeftOver(links: seq<Link>, hi: nat, cap: nat, room: nat, c: Cache, req: nat): Cache
    requires cap >= 1
    decreases req
  {
    var (st, out, c1) := Alloc(links, hi, cap, c, req, room);
    if st == TryAgain && 0 < Total(out) <= req then
      LeftOver(Used(links, Expand(out)), hi, cap, room, c1, req - Total(out))
    else c1
  }

  /** The same clusters are free. */
  ghost predicate SameUse(links: seq<Link>, after: seq<Link>, hi: nat) {
    forall c :: 2 <= c < hi ==> (Look(links, c) == Free <==> Look(after, c) == Free)
  }

  /** The allocator only looks at which clusters are free. */
  lemma {:induction false} AllocSame(links: seq<Link>, after: seq<Link>, hi: nat, cap: nat, c: Cache, req: nat,
                                     room: nat)
    requires cap >= 1 && SameUse(links, after, hi)
    ensures Alloc(links, hi, cap, c, req, room) == Alloc(after, hi, cap, c, req, room)
    decreases req, c.curMin, c.from != 0
  {
    hide Refill, Take, SameUse;
    if c.runs == [] {
      RefillSame(links, after, hi, cap, c);
    }
    var (st, out, c1, left) := Round(links, hi, cap, c, req, room);
    if st == Ok && left > 0 {
      AllocSame(links, after, hi, cap, c1, left, room - |out|);
    }
  }

  lemma RefillSame(links: seq<Link>, after: seq<Link>, hi: nat, cap: nat, c: Cache)
    requires cap >= 1 && SameUse(links, after, hi) && c.runs == []
    ensures Refill(links, hi, cap, c) == Refill(after, hi, cap, c)
  {
    hide Runs, Keep, NextBase, FreeList;
    SameFree(links, after, ScanFrom(c.from), hi);
  }

  lemma {:induction false} ServedSame(links: seq<Link>, after: seq<Link>, hi: nat, cap: nat, room: nat, c: Cache,
                                      req: nat)
    requires cap >= 1 && SameUse(links, after, hi)
    ensures Served(links, hi, cap, room, c, req) == Served(after, hi, cap, room, c, req)
    ensures EndOf(links, hi, cap, room, c, req) == EndOf(after, hi, cap, room, c, req)
    ensures Handed(links, hi, cap, room, c, req) == Handed(after, hi, cap, room, c, req)
    ensures LeftOver(links, hi, cap, room, c, req) == LeftOver(after, hi, cap, room, c, req)
    decreases req
  {
    hide Alloc, SameUse, Usable, Expand;
    AllocSame(links, after, hi, cap, c, req, room);
    var (st, out, c1) := Alloc(links, hi, cap, c, req, room);
    UsableSame(links, after, hi, out + c1.runs);
    if st == TryAgain && 0 < Total(out) <= req {
      UsedSame(links, after, hi, Expand(out));
      ServedSame(Used(links, Expand(out)), Used(after, Expand(out)), hi, cap, room, c1, req - Total(out));
    }
  }

  lemma UsableSame(links: seq<Link>, after: seq<Link>, hi: nat, rs: seq<Run>)
    requires SameUse(links, after, hi)
    ensures Usable(links, hi, rs) == Usable(after, hi, rs)
  {}

  lemma UsedSame(links: seq<Link>, after: seq<Link>, hi: nat, s: seq<nat>)
    requires SameUse(links, after, hi)
    ensures SameUse(Used(links, s), Used(after, s), hi)
  {
    forall c | 2 <= c < hi
      ensures Look(Used(links, s), c) == Free <==> Look(Used(after, s), c) == Free
    {
      assert Look(links, c) == Free <==> Look(after, c) == Free;
    }
  }

  /** The first call of a store, and what it leaves for the next. */
  lemma ServedStep(links: seq<Link>, hi: nat, cap: nat, room: nat, c: Cache, req: nat)
    requires cap >= 1 && PoolOk(links, hi, c.runs) && Served(links, hi, cap, room, c, req)
    ensures var (st, out, c1) := Alloc(links, hi, cap, c, req, room);
      && st in {Ok, TryAgain, NoMore} && |out| <= room && Total(out) <= req && PoolOk(links, hi, c1.runs)
      && (st != NoMore ==> Usable(links, hi, out + c1.runs))
      && (st == Ok ==> Total(out) == req)
      && (st == TryAgain ==>
            && 0 < Total(out) < req
            && Served(Used(links, Expand(out)), hi, cap, room, c1, req - Total(out))
            && EndOf(links, hi, cap, room, c, req) ==
                 EndOf(Used(links, Expand(out)), hi, cap, room, c1, req - Total(out))
            && Handed(links, hi, cap, room, c, req) ==
                 Expand(out) + Handed(Used(links, Expand(out)), hi, cap, room, c1, req - Total(out))
            && LeftOver(links, hi, cap, room, c, req) ==
                 LeftOver(Used(links, Expand(out)), hi, cap, room, c1, req - Total(out)))
      && (st != TryAgain ==>
            && EndOf(links, hi, cap, room, c, req) == st && LeftOver(links, hi, cap, room, c, req) == c1
            && Handed(links, hi, cap, room, c, req) == if st == NoMore then [] else Expand(out))
  {
    hide Alloc, Expand, PoolOk, Usable;
    AllocBasics(links, hi, cap, c, req, room);
  }

  /** A store that the cached runs and the rest of their scan cover is served, to the end unless it asks for
      nothing of a cache that has given up. */
  lemma {:induction false} CoveredServed(links: seq<Link>, hi: nat, cap: nat, room: nat, c: Cache, req: nat)
    requires cap >= 1 && room >= 1 && PoolOk(links, hi, c.runs) && Covers(links, hi, cap, c, req)
    ensures Served(links, hi, cap, room, c, req)
    ensures EndOf(links, hi, cap, room, c, req) == if req == 0 && c == Cache([], 0, 0) then NoMore else Ok
    decreases req
  {
    hide Alloc, Expand, PoolOk, Usable, Covers;
    AllocFacts(links, hi, cap, c, req, room);
    var (st, out, c1) := Alloc(links, hi, cap, c, req, room);
    PoolUsable(links, hi, out + c1.runs);
    if st == TryAgain {
      BehindScan(links, hi, out, c1);
      CacheLeft(links, hi, out, c1.runs);
      StillCovers(links, Used(links, Expand(out)), hi, cap, c1, req - Total(out));
      CoveredServed(Used(links, Expand(out)), hi, cap, room, c1, req - Total(out));
    }
  }

  lemma CacheLeft(links: seq<Link>, hi: nat, out: seq<Run>, rest: seq<Run>)
    requires PoolOk(links, hi, out + rest)
    ensures PoolOk(Used(links, Expand(out)), hi, rest)
  {
    ExpandConcat(out, rest);
    PoolParts(links, hi, out, rest, out + rest);
  }

  /** A store of nothing is served. */
  lemma ServedNothing(links: seq<Link>, hi: nat, cap: nat, room: nat, c: Cache)
    requires cap >= 1 && PoolOk(links, hi, c.runs)
    ensures Served(links, hi, cap, room, c, 0)
    ensures EndOf(links, hi, cap, room, c, 0) == if c == Cache([], 0, 0) then NoMore else Ok
  {
    hide Expand, PoolOk, Usable, Refill;
    AllocNothing(links, hi, cap, c, room);
    var c1 := Alloc(links, hi, cap, c, 0, room).2;
    assert [] + c1.runs == c1.runs;
    if c.runs == [] {
      RefillPool(links, hi, cap, c);
    }
    PoolUsable(links, hi, c1.runs);
  }

  /** Clusters of the cache are handed out or stay in it, unless a call finds too little. */
  lemma {:induction false} CacheGoes(links: seq<Link>, hi: nat, cap: nat, room: nat, c: Cache, req: nat)
    requires cap >= 1 && room >= 1 && EndOf(links, hi, cap, room, c, req) != NoMore
    ensures forall x :: x in Expand(c.runs) ==>
      || x in Handed(links, hi, cap, room, c, req)
      || x in Expand(LeftOver(links, hi, cap, room, c, req).runs)
    decreases req
  {
    hide Alloc, Expand, Used, Total;
    CallKeeps(links, hi, cap, room, c, req);
    var (st, out, c1) := Alloc(links, hi, cap, c, req, room);
    if st == TryAgain && 0 < Total(out) <= req {
      CacheGoes(Used(links, Expand(out)), hi, cap, room, c1, req - Total(out));
    }
  }

  lemma CallKeeps(links: seq<Link>, hi: nat, cap: nat, room: nat, c: Cache, req: nat)
    requires cap >= 1
    ensures var (st, out, c1) := Alloc(links, hi, cap, c, req, room);
      st != NoMore ==> forall x :: x in Expand(c.runs) ==> x in Expand(out) || x in Expand(c1.runs)
  {
    hide Alloc, Expand, Take;
    ExpandNothing();
    if c.runs != [] {
      AllocOnce(links, hi, cap, c, req, room);
      TakeConserves(c.runs, req, room);
      var (o, r, l) := Take(c.runs, req, room);
      assert forall x :: x in Expand(c.runs) ==> x in Expand(o) || x in Expand(r);
      if l > 0 && r == [] {
        ExpandConcat(o, Alloc(links, hi, cap, c.(runs := []), l, room - |o|).1);
      }
    }
  }

  /** Clusters that are free. */
  ghost predicate AllFree(links: seq<Link>, s: seq<nat>) {
    forall x :: x in s ==> Look(links, x) == Free
  }

  /** The calls of a store that come to an end are served if and only if no cluster is handed out twice and
      none of those handed out stays in the cache. */
  lemma {:induction false} ServedIff(links: seq<Link>, hi: nat, cap: nat, room: nat, c: Cache, req: nat)
    requires cap >= 1 && room >= 1 && PoolOk(links, hi, c.runs) && EndOf(links, hi, cap, room, c, req) != NoMore
    ensures var seg, rest := Handed(links, hi, cap, room, c, req), Expand(LeftOver(links, hi, cap, room, c, req).runs);
      && (Served(links, hi, cap, room, c, req) <==> Distinct(seg) && forall x :: x in rest ==> x !in seg)
      && (Served(links, hi, cap, room, c, req) ==> AllFree(links, seg) && AllFree(links, rest))
    decreases req
  {
    hide Alloc, Expand, PoolOk, Usable, Used, Total, Distinct;
    AllocBasics(links, hi, cap, c, req, room);
    var (st, out, c1) := Alloc(links, hi, cap, c, req, room);
    UsableWhen(links, hi, out, c1.runs);
    if st == TryAgain {
      RunsCount(out);
      var after, left := Used(links, Expand(out)), req - Total(out);
      var seg, rest := Handed(after, hi, cap, room, c1, left), Expand(LeftOver(after, hi, cap, room, c1, left).runs);
      DistinctSplit(Expand(out), seg);
      NoneInBoth(rest, Expand(out), seg);
      CacheGoes(after, hi, cap, room, c1, left);
      if forall x :: x in Expand(c1.runs) ==> x !in Expand(out) {
        PoolSpared(links, hi, Expand(out), c1.runs);
        ServedIff(after, hi, cap, room, c1, left);
        FreeBefore(links, Expand(out), seg);
        FreeBefore(links, Expand(out), rest);
      } else {
        var x :| x in Expand(c1.runs) && x in Expand(out);
        assert x in seg || x in rest;
        assert x in Expand(out) + seg;
      }
    }
  }

  lemma NoneInBoth(s: seq<nat>, a: seq<nat>, b: seq<nat>)
    ensures (forall x :: x in s ==> x !in a + b) <==> (forall x :: x in s ==> x !in a) && forall x :: x in s ==> x !in b
  {
    assert forall x :: x in a + b <==> x in a || x in b;
  }

  lemma RunsCount(rs: seq<Run>)
    ensures Total(rs) >= |rs|
  {}

  lemma UsableWhen(links: seq<Link>, hi: nat, out: seq<Run>, rest: seq<Run>)
    requires AreFree(links, hi, out) && PoolOk(links, hi, rest)
    ensures Usable(links, hi, out + rest) <==>
      Distinct(Expand(out)) && forall x :: x in Expand(rest) ==> x !in Expand(out)
    ensures AllFree(links, Expand(out)) && AllFree(links, Expand(rest))
  {
    hide Expand;
    ExpandConcat(out, rest);
    UsableParts(links, hi, out, rest, out + rest);
    PoolUsable(links, hi, rest);
  }

  lemma DistinctSplit(a: seq<nat>, b: seq<nat>)
    ensures Distinct(a + b) <==> Distinct(a) && Distinct(b) && forall x :: x in b ==> x !in a
  {
    hide Distinct;
    DistinctParts(a, b);
    if Distinct(a) && Distinct(b) {
      DistinctJoin(a, b);
    }
  }

  lemma PoolSpared(links: seq<Link>, hi: nat, s: seq<nat>, rs: seq<Run>)
    requires PoolOk(links, hi, rs) && forall x :: x in Expand(rs) ==> x !in s
    ensures PoolOk(Used(links, s), hi, rs)
  {
    hide Expand;
  }

  lemma FreeBefore(links: seq<Link>, s: seq<nat>, t: seq<nat>)
    ensures AllFree(Used(links, s), t) ==> AllFree(links, t) && forall x :: x in t ==> x !in s
  {
    if AllFree(Used(links, s), t) {
      forall x | x in t
        ensures Look(links, x) == Free && x !in s
      {
        assert Look(Used(links, s), x) == Free;
      }
    }
  }
}
