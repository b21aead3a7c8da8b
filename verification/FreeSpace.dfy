/** The cache of free runs (struct TFatFreeClusters) and the free-cluster counter beside it. */
module FreeSpace {
  import opened Geometry
  import opened FatEntries
  import opened Chains

  const VALUE_LIMIT: nat := 0x1000_0000
  const UNKNOWN: nat := 0x1000_0000
  const GUESSED: nat := 0x2000_0000
  const KNOWN: nat := 0x4000_0000
  const FREECLUSLIST_SIZE: nat := 1024

  /** The low 28 bits of the counter (FATFS_FREECLUSTERS_VALUEMASK). */
  function ValueOf(x: nat): nat { x % VALUE_LIMIT }

  /** The high 4 bits of the counter (FATFS_FREECLUSTERS_FLAGMASK). */
  function FlagOf(x: nat): nat { x - x % VALUE_LIMIT }

  /** The free data clusters of the table. */
  function FreeSet(links: seq<Link>, lim: nat): set<nat> {
    set c | 2 <= c < lim && Look(links, c) == Free
  }

  /** The flag is one of the three known ones, and a counter that claims something claims too little
      rather than too much. */
  ghost predicate CounterOk(x: nat, links: seq<Link>, lim: nat) {
    && x < TWO32
    && FlagOf(x) in {UNKNOWN, GUESSED, KNOWN}
    && (FlagOf(x) != UNKNOWN ==> ValueOf(x) <= |FreeSet(links, lim)|)
  }

  function FlagRank(x: nat): nat {
    if FlagOf(x) == KNOWN then 2 else if FlagOf(x) == GUESSED then 1 else 0
  }

  /** A counter that is known is not touched. */
  predicate Steady(before: nat, after: nat) {
    FlagOf(before) == KNOWN ==> after == before
  }

  /** fatfs__addto_freeclusters and fatfs__subfrom_freeclusters, as functions of the counter. */
  function Added(x: nat, n: nat): nat {
    if FlagOf(x) == UNKNOWN then x else ValueOf(U32(x + n)) + FlagOf(x)
  }

  function Subtracted(x: nat, n: nat): nat {
    if FlagOf(x) == UNKNOWN then x
    else (if ValueOf(x) > n then ValueOf(x) - n else 0) + FlagOf(x)
  }

  /** fatfs__update_freeclusters */
  function Updated(x: nat, count: nat, flag: nat): nat {
    if flag == KNOWN then ValueOf(count) + KNOWN
    else if flag == GUESSED && (FlagOf(x) == UNKNOWN || (FlagOf(x) == GUESSED && ValueOf(count) > ValueOf(x)))
      then ValueOf(count) + GUESSED
    else x
  }

  lemma FlagPlusValue(v: nat, flag: nat)
    requires v < VALUE_LIMIT && flag in {UNKNOWN, GUESSED, KNOWN}
    ensures ValueOf(v + flag) == v && FlagOf(v + flag) == flag && v + flag < TWO32
  {}

  lemma {:induction false} FreeSetSmall(links: seq<Link>, lim: nat)
    ensures |FreeSet(links, lim)| <= lim
  {
    if lim == 0 {
      assert FreeSet(links, lim) == {};
    } else {
      FreeSetSmall(links, lim - 1);
      SubsetSize(FreeSet(links, lim), FreeSet(links, lim - 1) + {lim - 1});
    }
  }

  /** `after` is `links` with the clusters of `s` marked free. */
  function Freed(links: seq<Link>, s: seq<nat>): (after: seq<Link>)
    ensures |after| == |links|
  {
    seq(|links|, c requires 0 <= c < |links| => if c in s then Free else links[c])
  }

  /** Freeing distinct clusters that were in use adds exactly that many. */
  lemma FreedCount(links: seq<Link>, lim: nat, s: seq<nat>)
    requires Distinct(s) && lim <= |links|
    requires forall c :: c in s ==> 2 <= c < lim && links[c] != Free
    ensures |FreeSet(Freed(links, s), lim)| == |FreeSet(links, lim)| + |s|
  {
    DistinctSize(s);
    var a, b := FreeSet(links, lim), SetOf(s);
    assert a !! b;
    assert FreeSet(Freed(links, s), lim) == a + b;
  }

  /** A segment of `e - s + 1` clusters that stops being free costs at most that many. */
  lemma UsedCount(links: seq<Link>, after: seq<Link>, lim: nat, r: Run)
    requires |links| == |after|
    requires forall c :: 0 <= c < |links| && !(r.base <= c <= r.Last()) && links[c] == Free ==> after[c] == Free
    ensures |FreeSet(links, lim)| <= |FreeSet(after, lim)| + r.Count()
  {
    var a, b := FreeSet(links, lim), FreeSet(after, lim);
    var seg := SetOf(Clusters(r));
    assert forall c :: r.base <= c <= r.Last() ==> c in seg by {
      forall c | r.base <= c <= r.Last() ensures c in seg { assert Clusters(r)[c - r.base] == c; }
    }
    assert a <= b + seg;
    SubsetSize(a, b + seg);
    DistinctSize(Clusters(r));
    UnionSize(b, seg);
  }

  lemma UnionSize(a: set<nat>, b: set<nat>)
    ensures |a + b| <= |a| + |b|
  {
    assert a + b == a + (b - a);
    SubsetSize(b - a, b);
  }

  /** Deleting: the counter stays a lower bound although the last cluster is not counted. */
  lemma AddedSafe(x: nat, links: seq<Link>, lim: nat, s: seq<nat>, n: nat)
    requires CounterOk(x, links, lim) && lim <= |links| && lim < VALUE_LIMIT
    requires Distinct(s) && n <= |s|
    requires forall c :: c in s ==> 2 <= c < lim && links[c] != Free
    ensures CounterOk(Added(x, n), Freed(links, s), lim) && FlagOf(Added(x, n)) == FlagOf(x)
    ensures FlagOf(x) != UNKNOWN ==> ValueOf(Added(x, n)) == ValueOf(x) + n
  {
    FreedCount(links, lim, s);
    FreeSetSmall(Freed(links, s), lim);
    if FlagOf(x) != UNKNOWN {
      var v := ValueOf(x) + n;
      FlagPlusValue(v, FlagOf(x));
      assert x + n == v + FlagOf(x);
      U32Small(x + n);
    }
  }

  /** Linking takes exactly the clusters of the segment off a counter that claims something, and keeps it a
      lower bound, whether or not the segment was free. */
  lemma SubtractedSafe(x: nat, links: seq<Link>, after: seq<Link>, lim: nat, r: Run)
    requires CounterOk(x, links, lim) && |links| == |after|
    requires forall c :: 0 <= c < |links| && !(r.base <= c <= r.Last()) && links[c] == Free ==> after[c] == Free
    ensures CounterOk(Subtracted(x, r.Count()), after, lim) && FlagOf(Subtracted(x, r.Count())) == FlagOf(x)
    ensures FlagOf(x) == UNKNOWN ==> Subtracted(x, r.Count()) == x
    ensures FlagOf(x) != UNKNOWN ==>
      ValueOf(Subtracted(x, r.Count())) == if r.Count() <= ValueOf(x) then ValueOf(x) - r.Count() else 0
  {
    UsedCount(links, after, lim, r);
    if FlagOf(x) != UNKNOWN {
      FlagPlusValue(if ValueOf(x) > r.Count() then ValueOf(x) - r.Count() else 0, FlagOf(x));
    }
  }

  /** Counting or guessing: a lower bound of the free clusters keeps the counter one, and the flag only rises. A
      count is always taken over, a guess over nothing or a smaller guess, and never over a count. */
  lemma UpdatedSafe(x: nat, links: seq<Link>, lim: nat, count: nat, flag: nat)
    requires CounterOk(x, links, lim) && lim < VALUE_LIMIT && count <= |FreeSet(links, lim)| && flag in {GUESSED, KNOWN}
    ensures CounterOk(Updated(x, count, flag), links, lim)
    ensures FlagRank(Updated(x, count, flag)) >= FlagRank(x)
    ensures flag == KNOWN || FlagOf(x) == UNKNOWN ==>
      ValueOf(Updated(x, count, flag)) == count && FlagOf(Updated(x, count, flag)) == flag
    ensures flag == FlagOf(x) == GUESSED ==>
      && ValueOf(Updated(x, count, flag)) == (if count > ValueOf(x) then count else ValueOf(x))
      && FlagOf(Updated(x, count, flag)) == GUESSED
    ensures flag == GUESSED ==> Steady(x, Updated(x, count, flag))
  {
    FreeSetSmall(links, lim);
    FlagPlusValue(count, flag);
  }
}
