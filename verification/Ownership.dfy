/** Who owns which cluster: the volume invariant, and its preservation over every run of the steps that
    change the FAT, the free-run cache or the free counter. */
module Ownership {
  import opened FatEntries
  import opened Chains
  import opened FreeSpace
  import opened FreeScan
  import opened Allocator
  import opened ChainOps
  import opened FreeOps

  /** The FAT is a disjoint union of EOF-terminated chains, one per file, plus free and bad clusters;
      entry 0 reads as EOF, which empty files rely on. */
  ghost predicate VolumeOk(links: seq<Link>, lim: nat, files: seq<seq<nat>>) {
    && 2 <= lim <= |links| && links[0] == End
    && (forall i :: 0 <= i < |files| ==> IsChain(links, lim, files[i]))
    && (forall i, j :: 0 <= i < j < |files| ==> Apart(files[i], files[j]))
    && (forall c :: 2 <= c < lim && (links[c].Next? || links[c].End?) ==> Owned(files, c))
  }

  ghost predicate Apart(a: seq<nat>, b: seq<nat>) {
    forall c :: c in a ==> c !in b
  }

  ghost predicate Owned(files: seq<seq<nat>>, c: nat) {
    exists i :: 0 <= i < |files| && c in files[i]
  }

  /** All clusters of the run are free data clusters. */
  ghost predicate FreeRun(links: seq<Link>, lim: nat, seg: Run) {
    2 <= seg.base && seg.Last() < lim <= |links| && forall c :: seg.base <= c <= seg.Last() ==> links[c] == Free
  }

  /** The files with `s` appended to file `f`. */
  function Grown(files: seq<seq<nat>>, f: nat, s: seq<nat>): (r: seq<seq<nat>>)
    requires f < |files|
    ensures |r| == |files|
  {
    files[f := files[f] + s]
  }

  lemma GrownTwice(files: seq<seq<nat>>, f: nat, s: seq<nat>, t: seq<nat>)
    requires f < |files|
    ensures Grown(files, f, s)[f] == files[f] + s
    ensures Grown(Grown(files, f, s), f, t) == Grown(files, f, s + t)
    ensures files[f] + s + t == files[f] + (s + t)
    ensures Grown(files, f, []) == files && files[f] + [] == files[f]
  {
    assert files[f] + s + t == files[f] + (s + t);
    assert files[f] + [] == files[f];
  }

  /** Linking appends exactly the segment to the chain. */
  lemma LinkExtends(links: seq<Link>, lim: nat, ch: seq<nat>, seg: Run)
    requires IsChain(links, lim, ch) && FreeRun(links, lim, seg)
    ensures IsChain(Linked(links, LastOf(ch), seg), lim, ch + Clusters(seg))
  {
    hide Linked, Clusters;
    var all, after := ch + Clusters(seg), Linked(links, LastOf(ch), seg);
    forall k | 0 <= k < |all|
      ensures 2 <= all[k] < lim
      ensures k < |all| - 1 ==> after[all[k]] == Next(all[k + 1])
      ensures k == |all| - 1 ==> after[all[k]] == End
    {
      if k < |ch| {
        OldPart(links, lim, ch, seg, k);
      } else {
        NewPart(links, lim, ch, seg, k - |ch|);
      }
    }
  }

  /** Behind a cluster of the chain comes the next one, and behind the last the segment. */
  lemma OldPart(links: seq<Link>, lim: nat, ch: seq<nat>, seg: Run, k: nat)
    requires IsChain(links, lim, ch) && FreeRun(links, lim, seg) && k < |ch|
    ensures var all := ch + Clusters(seg);
      all[k] == ch[k] && 2 <= ch[k] < lim && k + 1 < |all| && Linked(links, LastOf(ch), seg)[ch[k]] == Next(all[k + 1])
  {
    hide Linked, IsChain;
    ChainDistinct(links, lim, ch);
    ChainUsed(links, lim, ch);
    assert ch[k] in ch;
    LinkedAt(links, LastOf(ch), seg, ch[k]);
    ClusterAt(seg, 0);
    if k < |ch| - 1 {
      ChainStep(links, lim, ch, k);
    }
  }

  lemma NewPart(links: seq<Link>, lim: nat, ch: seq<nat>, seg: Run, k: nat)
    requires IsChain(links, lim, ch) && FreeRun(links, lim, seg) && k < seg.Count()
    ensures |Clusters(seg)| == seg.Count()
    ensures var all, at := ch + Clusters(seg), |ch| + k;
      && all[at] == seg.base + k && 2 <= all[at] < lim
      && Linked(links, LastOf(ch), seg)[all[at]] == if k < seg.adj then Next(all[at + 1]) else End
  {
    hide Linked, IsChain;
    ClusterAt(seg, k);
    if k < seg.adj {
      ClusterAt(seg, k + 1);
    }
    LinkedAt(links, LastOf(ch), seg, seg.base + k);
  }

  /** Linking leaves every chain alone that shares no cluster with the extended one. */
  lemma LinkSpares(links: seq<Link>, lim: nat, ch: seq<nat>, seg: Run, other: seq<nat>)
    requires IsChain(links, lim, ch) && FreeRun(links, lim, seg) && IsChain(links, lim, other) && Apart(ch, other)
    ensures IsChain(Linked(links, LastOf(ch), seg), lim, other) && Apart(ch + Clusters(seg), other)
  {
    hide Linked;
    var after := Linked(links, LastOf(ch), seg);
    ChainUsed(links, lim, ch);
    ChainUsed(links, lim, other);
    forall k | 0 <= k < |other|
      ensures after[other[k]] == links[other[k]] && links[other[k]] != Free
    {
      assert other[k] in other;
      LinkedAt(links, LastOf(ch), seg, other[k]);
    }
    forall c | c in ch + Clusters(seg)
      ensures c !in other
    {
      if c in Clusters(seg) {
        assert links[c] == Free;
      }
    }
  }

  lemma LinkKeepsVolume(links: seq<Link>, lim: nat, files: seq<seq<nat>>, f: nat, seg: Run)
    requires VolumeOk(links, lim, files) && f < |files| && FreeRun(links, lim, seg)
    ensures VolumeOk(Linked(links, LastOf(files[f]), seg), lim, Grown(files, f, Clusters(seg)))
  {
    hide Linked, IsChain;
    var ch := files[f];
    var after, files' := Linked(links, LastOf(ch), seg), files[f := ch + Clusters(seg)];
    LinkExtends(links, lim, ch, seg);
    forall i | 0 <= i < |files| && i != f
      ensures IsChain(after, lim, files[i]) && Apart(ch + Clusters(seg), files[i])
    {
      assert Apart(ch, files[i]) by { Symmetric(files, f, i); }
      LinkSpares(links, lim, ch, seg, files[i]);
    }
    LinkedAt(links, LastOf(ch), seg, 0);
    ChainUsed(links, lim, ch);
    forall c | 2 <= c < lim && (after[c].Next? || after[c].End?)
      ensures Owned(files', c)
    {
      LinkedAt(links, LastOf(ch), seg, c);
      if seg.base <= c <= seg.Last() {
        assert Clusters(seg)[c - seg.base] == c;
        assert c in files'[f];
      } else if c == LastOf(ch) && ch != [] {
        assert c in files'[f];
      } else {
        var i :| 0 <= i < |files| && c in files[i];
        assert c in files'[i];
      }
    }
    assert forall i, j :: 0 <= i < j < |files'| ==> Apart(files'[i], files'[j]);
  }

  lemma Symmetric(files: seq<seq<nat>>, i: nat, j: nat)
    requires forall i, j :: 0 <= i < j < |files| ==> Apart(files[i], files[j])
    requires i < |files| && j < |files| && i != j
    ensures Apart(files[i], files[j])
  {
    if j < i {
      assert Apart(files[j], files[i]);
    }
  }

  /** Deleting frees exactly the clusters of one chain. */
  lemma DeleteKeepsVolume(links: seq<Link>, lim: nat, files: seq<seq<nat>>, f: nat)
    requires VolumeOk(links, lim, files) && f < |files|
    ensures VolumeOk(Freed(links, files[f]), lim, files[f := []])
  {
    hide IsChain, Freed;
    var ch := files[f];
    var after, files' := Freed(links, ch), files[f := []];
    forall i | 0 <= i < |files'|
      ensures IsChain(after, lim, files'[i])
    {
      if i == f {
        EmptyChain(after, lim);
      } else {
        Symmetric(files, f, i);
        DeleteSpares(links, lim, ch, files[i]);
      }
    }
    ChainUsed(links, lim, ch);
    FreedAt(links, ch, 0);
    forall c | 2 <= c < lim && (after[c].Next? || after[c].End?)
      ensures Owned(files', c)
    {
      FreedAt(links, ch, c);
      var i :| 0 <= i < |files| && c in files[i];
      assert c in files'[i];
    }
    forall i, j | 0 <= i < j < |files'|
      ensures Apart(files'[i], files'[j])
    {
      assert Apart(files[i], files[j]);
    }
  }

  lemma FreedAt(links: seq<Link>, s: seq<nat>, c: nat)
    requires c < |links|
    ensures Freed(links, s)[c] == if c in s then Free else links[c]
  {}

  lemma EmptyChain(links: seq<Link>, lim: nat)
    requires lim <= |links|
    ensures IsChain(links, lim, [])
  {}

  /** Deleting a file leaves every chain alone that shares no cluster with it. */
  lemma DeleteSpares(links: seq<Link>, lim: nat, ch: seq<nat>, other: seq<nat>)
    requires IsChain(links, lim, other) && Apart(ch, other)
    ensures IsChain(Freed(links, ch), lim, other)
  {
    hide Freed;
    forall k | 0 <= k < |other|
      ensures Freed(links, ch)[other[k]] == links[other[k]]
    {
      assert other[k] in other;
      FreedAt(links, ch, other[k]);
    }
  }

  /** The volume together with the allocator: `pending` are runs handed out but not linked yet. */
  datatype State = State(links: seq<Link>, files: seq<seq<nat>>, pending: seq<Run>, cache: Cache, counter: nat)

  /** The steps of fatfs.c. A refill must not find clusters that are pending: this is the guard that the
      allocator itself does not enforce. */
  datatype Step =
    | RefillCache
    | HandRuns(req: nat, room: nat)
    | LinkRun(file: nat)
    | DeleteFile(file: nat)
    | CountFree

  ghost predicate Enabled(s: State, hi: nat, cap: nat, e: Step)
    requires cap >= 1
  {
    match e
    case RefillCache => s.cache.runs == [] && Others(Refill(s.links, hi, cap, s.cache).1.runs, s.pending)
    case HandRuns(req, room) => true
    case LinkRun(f) => f < |s.files| && s.pending != []
    case DeleteFile(f) => f < |s.files|
    case CountFree => true
  }

  function Apply(s: State, hi: nat, cap: nat, e: Step): State
    requires cap >= 1
  {
    match e
    case RefillCache =>
      if s.cache.runs != [] then s
      else
        var (st, c) := Refill(s.links, hi, cap, s.cache);
        s.(cache := c, counter := if c.runs == [] then s.counter else Updated(s.counter, SumAdj(c.runs), GUESSED))
    case HandRuns(req, room) =>
      var (out, rest, left) := Take(s.cache.runs, req, room);
      s.(pending := s.pending + out, cache := s.cache.(runs := rest))
    case LinkRun(f) =>
      if s.pending == [] || f >= |s.files| then s
      else
        var seg := s.pending[0];
        s.(links := Linked(s.links, LastOf(s.files[f]), seg), files := Grown(s.files, f, Clusters(seg)),
           pending := s.pending[1..], counter := Subtracted(s.counter, seg.Count()))
    case DeleteFile(f) =>
      if f >= |s.files| then s
      else
        var n := |s.files[f]|;
        var counted := if n == 0 then 0 else n - 1;
        s.(links := Freed(s.links, s.files[f]), files := s.files[f := []],
           cache := s.cache.(curMin := if s.cache.curMin == 0 && counted > 16 then 4 else s.cache.curMin),
           counter := Added(s.counter, counted))
    case CountFree =>
      s.(counter := Updated(s.counter, |FreeList(s.links, 2, hi)|, KNOWN))
  }

  /** Volume, free-run cache and free counter are consistent: the runs pending and cached can all be linked. */
  ghost predicate Inv(s: State, hi: nat, lim: nat) {
    && VolumeOk(s.links, lim, s.files)
    && Usable(s.links, hi, s.pending + s.cache.runs) && Ascending(Expand(s.cache.runs))
    && CounterOk(s.counter, s.links, lim)
  }

  lemma HandRunsKeeps(s: State, hi: nat, lim: nat, cap: nat, req: nat, room: nat)
    requires Inv(s, hi, lim) && cap >= 1
    ensures Inv(Apply(s, hi, cap, HandRuns(req, room)), hi, lim)
    ensures FlagRank(Apply(s, hi, cap, HandRuns(req, room)).counter) >= FlagRank(s.counter)
  {
    hide VolumeOk, CounterOk, Take, Expand, FlagRank, Ascending, Distinct;
    var (out, rest, left) := Take(s.cache.runs, req, room);
    TakeConserves(s.cache.runs, req, room);
    ExpandConcat(s.pending, s.cache.runs);
    ExpandConcat(s.pending, out);
    ExpandConcat(s.pending + out, rest);
    ConcatAssoc(Expand(s.pending), Expand(out), Expand(rest));
    AscendingParts(Expand(out), Expand(rest)) by {
      assert Ascending(Expand(out) + Expand(rest));
    }
  }

  /** A refill keeps the invariant exactly when it finds no cluster that is pending. */
  lemma RefillKeepsIff(s: State, hi: nat, lim: nat, cap: nat)
    requires Inv(s, hi, lim) && s.cache.runs == [] && cap >= 1 && hi <= lim < VALUE_LIMIT
    ensures Inv(Apply(s, hi, cap, RefillCache), hi, lim) <==>
      Others(Refill(s.links, hi, cap, s.cache).1.runs, s.pending)
    ensures FlagRank(Apply(s, hi, cap, RefillCache).counter) >= FlagRank(s.counter)
  {
    hide VolumeOk, CounterOk, Refill, Updated, Usable, FlagRank, Expand;
    var c := Refill(s.links, hi, cap, s.cache).1;
    RefillPool(s.links, hi, cap, s.cache);
    PoolUsable(s.links, hi, c.runs);
    assert s.pending + [] == s.pending;
    ExpandConcat(s.pending, c.runs);
    UsableParts(s.links, hi, s.pending, c.runs, s.pending + c.runs);
    PoolSize(s.links, hi, lim, c.runs);
    SumAdjIs(c.runs);
    UpdatedSafe(s.counter, s.links, lim, SumAdj(c.runs), GUESSED);
  }

  /** A refill that continues a scan from behind all that is pending finds none of it. */
  lemma ContinuedRefill(s: State, hi: nat, cap: nat)
    requires cap >= 1 && s.cache.runs == [] && s.cache.from != 0
    requires forall x :: x in Expand(s.pending) ==> x < s.cache.from
    ensures Enabled(s, hi, cap, RefillCache)
  {
    RefillFrom(s.links, hi, cap, s.cache);
  }

  /** A run that can be linked is a free run, and linking it leaves the others usable. */
  lemma UsableAfterLink(links: seq<Link>, hi: nat, lim: nat, last: nat, pool: seq<Run>)
    requires Usable(links, hi, pool) && pool != [] && hi <= lim <= |links|
    requires last == 0 || (last < |links| && links[last] != Free)
    ensures FreeRun(links, lim, pool[0]) && Usable(Linked(links, last, pool[0]), hi, pool[1..])
  {
    hide Linked, Distinct, Expand, Clusters;
    var seg, rest := pool[0], pool[1..];
    assert pool == [seg] + rest;
    ExpandConcat([seg], rest);
    ExpandOne(seg);
    UsableParts(links, hi, [seg], rest, pool);
    forall c | seg.base <= c <= seg.Last()
      ensures 2 <= c < hi && links[c] == Free
    {
      ClusterIn(seg, c);
    }
    ClusterIn(seg, seg.base);
    ClusterIn(seg, seg.Last());
    forall c | c in Expand(rest)
      ensures 2 <= c < hi && Look(Linked(links, last, seg), c) == Free
    {
      ClusterIn(seg, c);
      LinkedAt(links, last, seg, c);
    }
  }

  lemma LinkKeeps(s: State, hi: nat, lim: nat, cap: nat, f: nat)
    requires cap >= 1 && Inv(s, hi, lim) && Enabled(s, hi, cap, LinkRun(f)) && hi <= lim
    ensures Inv(Apply(s, hi, cap, LinkRun(f)), hi, lim)
    ensures FlagRank(Apply(s, hi, cap, LinkRun(f)).counter) >= FlagRank(s.counter)
  {
    hide CounterOk, Linked, Subtracted, IsChain;
    var ch, seg, pool := s.files[f], s.pending[0], s.pending + s.cache.runs;
    assert pool[0] == seg && pool[1..] == s.pending[1..] + s.cache.runs;
    ChainUsed(s.links, lim, ch);
    UsableAfterLink(s.links, hi, lim, LastOf(ch), pool);
    LinkKeepsVolume(s.links, lim, s.files, f, seg);
    LinkedCount(s.links, LastOf(ch), seg, lim, s.counter, ch);
  }

  lemma DeleteKeeps(s: State, hi: nat, lim: nat, cap: nat, f: nat)
    requires cap >= 1 && Inv(s, hi, lim) && Enabled(s, hi, cap, DeleteFile(f)) && hi <= lim < VALUE_LIMIT
    ensures Inv(Apply(s, hi, cap, DeleteFile(f)), hi, lim)
    ensures FlagRank(Apply(s, hi, cap, DeleteFile(f)).counter) >= FlagRank(s.counter)
  {
    hide CounterOk, Added, IsChain, Expand;
    var ch := s.files[f];
    DeleteKeepsVolume(s.links, lim, s.files, f);
    ChainDistinct(s.links, lim, ch);
    ChainUsed(s.links, lim, ch);
    AddedSafe(s.counter, s.links, lim, ch, if ch == [] then 0 else |ch| - 1);
  }

  lemma CountKeeps(s: State, hi: nat, lim: nat, cap: nat)
    requires Inv(s, hi, lim) && cap >= 1 && hi <= lim < VALUE_LIMIT
    ensures Inv(Apply(s, hi, cap, CountFree), hi, lim)
    ensures FlagRank(Apply(s, hi, cap, CountFree).counter) >= FlagRank(s.counter)
  {
    hide VolumeOk, CounterOk, Updated, FreeList, FreeSet, Usable, FlagRank;
    CountIsExact(s.links, hi);
    FreeSetGrows(s.links, hi, lim);
    SubsetSize(FreeSet(s.links, hi), FreeSet(s.links, lim));
    UpdatedSafe(s.counter, s.links, lim, |FreeList(s.links, 2, hi)|, KNOWN);
  }

  /** The states of a run. */
  ghost predicate IsRun(s: State, hi: nat, cap: nat, steps: seq<Step>)
    requires cap >= 1
    decreases |steps|
  {
    steps == [] || (Enabled(s, hi, cap, steps[0]) && IsRun(Apply(s, hi, cap, steps[0]), hi, cap, steps[1..]))
  }

  function After(s: State, hi: nat, cap: nat, steps: seq<Step>): State
    requires cap >= 1
    decreases |steps|
  {
    if steps == [] then s else After(Apply(s, hi, cap, steps[0]), hi, cap, steps[1..])
  }

  /** Over every run of refills, hand-outs, links, deletes and counts, the FAT stays a disjoint union of
      chains, the cached and pending runs stay free and distinct, the counter stays a lower bound, and its
      flag never falls back. */
  lemma {:induction false} RunKeepsInv(s: State, hi: nat, lim: nat, cap: nat, steps: seq<Step>)
    requires cap >= 1 && hi <= lim < VALUE_LIMIT && Inv(s, hi, lim) && IsRun(s, hi, cap, steps)
    ensures Inv(After(s, hi, cap, steps), hi, lim)
    ensures FlagRank(After(s, hi, cap, steps).counter) >= FlagRank(s.counter)
    decreases |steps|
  {
    hide Inv, Apply, FlagRank;
    if steps != [] {
      StepKeepsInv(s, hi, lim, cap, steps[0]);
      RunKeepsInv(Apply(s, hi, cap, steps[0]), hi, lim, cap, steps[1..]);
    }
  }

  lemma StepKeepsInv(s: State, hi: nat, lim: nat, cap: nat, e: Step)
    requires cap >= 1 && Inv(s, hi, lim) && Enabled(s, hi, cap, e) && hi <= lim < VALUE_LIMIT
    ensures Inv(Apply(s, hi, cap, e), hi, lim)
    ensures FlagRank(Apply(s, hi, cap, e).counter) >= FlagRank(s.counter)
  {
    hide Inv, Apply, FlagRank;
    match e
    case RefillCache => RefillKeepsIff(s, hi, lim, cap);
    case HandRuns(req, room) => HandRunsKeeps(s, hi, lim, cap, req, room);
    case LinkRun(f) => LinkKeeps(s, hi, lim, cap, f);
    case DeleteFile(f) => DeleteKeeps(s, hi, lim, cap, f);
    case CountFree => CountKeeps(s, hi, lim, cap);
  }

  /** The clusters of all files. */
  function Owners(files: seq<seq<nat>>): nat {
    if files == [] then 0 else Owners(files[..|files| - 1]) + |files[|files| - 1]|
  }

  /** What a step does to the volume: a refill fills the cache only; a hand-out moves the front of the cache behind
      what is pending, as much as is required unless the cache or the room runs out; a link hangs the first
      pending run behind one file; a deletion frees the clusters of one file; a count sets the counter. No
      entry of the FAT changes but those of the clusters linked or freed and the one a link is hung behind. */
  ghost predicate Does(s: State, t: State, hi: nat, lim: nat, e: Step) {
    match e
    case RefillCache => t == s.(cache := t.cache, counter := t.counter)
    case HandRuns(req, room) =>
      && t == s.(pending := t.pending, cache := s.cache.(runs := t.cache.runs)) && s.pending <= t.pending
      && var out := t.pending[|s.pending|..];
         && Expand(out) + Expand(t.cache.runs) == Expand(s.cache.runs) && Total(out) <= req && |out| <= room
         && (Total(out) < req ==> t.cache.runs == [] || |out| == room)
    case LinkRun(f) =>
      && f < |s.files| && s.pending != []
      && var seg := Clusters(s.pending[0]);
         && t == State(t.links, s.files[f := s.files[f] + seg], s.pending[1..], s.cache, t.counter)
         && |t.links| == |s.links| && FreeSet(t.links, lim) == FreeSet(s.links, lim) - SetOf(seg)
         && SetOf(seg) <= FreeSet(s.links, lim)
         && (forall c :: 0 <= c < |s.links| && c !in seg && c != LastOf(s.files[f]) ==> t.links[c] == s.links[c])
         && (FlagOf(s.counter) != UNKNOWN ==>
               ValueOf(t.counter) == if |seg| <= ValueOf(s.counter) then ValueOf(s.counter) - |seg| else 0)
    case DeleteFile(f) =>
      && f < |s.files|
      && var ch := s.files[f];
         && t == State(t.links, s.files[f := []], s.pending, t.cache, t.counter) && t.cache.runs == s.cache.runs
         && |t.links| == |s.links| && FreeSet(t.links, lim) == FreeSet(s.links, lim) + SetOf(ch)
         && SetOf(ch) !! FreeSet(s.links, lim)
         && (forall c :: 0 <= c < |s.links| && c !in ch ==> t.links[c] == s.links[c])
         && (FlagOf(s.counter) != UNKNOWN && ch != [] ==> ValueOf(t.counter) == ValueOf(s.counter) + |ch| - 1)
    case CountFree =>
      && t == s.(counter := t.counter) && FlagOf(t.counter) == KNOWN
      && ValueOf(t.counter) == |FreeSet(s.links, hi)|
  }

  /** Every enabled step does that. */
  lemma StepDoes(s: State, hi: nat, lim: nat, cap: nat, e: Step)
    requires cap >= 1 && Inv(s, hi, lim) && Enabled(s, hi, cap, e) && hi <= lim < VALUE_LIMIT
    ensures Does(s, Apply(s, hi, cap, e), hi, lim, e)
  {
    hide Inv, Refill, Take, Linked, Freed, Subtracted, Added, Updated, FreeList, FreeSet, ValueOf, FlagOf, Expand,
      Total, Clusters, SetOf, CounterOk;
    InvParts(s, hi, lim);
    match e
    case RefillCache =>
    case HandRuns(req, room) =>
      TakeConserves(s.cache.runs, req, room);
      var out := Take(s.cache.runs, req, room).0;
      assert (s.pending + out)[|s.pending|..] == out;
    case LinkRun(f) =>
      var ch, seg := s.files[f], s.pending[0];
      LinkUses(s.links, hi, lim, ch, s.pending + s.cache.runs);
      SubtractedSafe(s.counter, s.links, Linked(s.links, LastOf(ch), seg), lim, seg);
    case DeleteFile(f) =>
      var ch := s.files[f];
      DeleteFrees(s.links, lim, ch);
      ChainDistinct(s.links, lim, ch);
      AddedSafe(s.counter, s.links, lim, ch, if ch == [] then 0 else |ch| - 1);
    case CountFree =>
      CountIsExact(s.links, hi);
      FreeSetGrows(s.links, hi, lim);
      SubsetSize(FreeSet(s.links, hi), FreeSet(s.links, lim));
      UpdatedSafe(s.counter, s.links, lim, |FreeList(s.links, 2, hi)|, KNOWN);
  }

  lemma InvParts(s: State, hi: nat, lim: nat)
    requires Inv(s, hi, lim)
    ensures CounterOk(s.counter, s.links, lim) && lim <= |s.links|
    ensures Usable(s.links, hi, s.pending + s.cache.runs)
    ensures forall f :: 0 <= f < |s.files| ==> IsChain(s.links, lim, s.files[f])
  {}

  lemma FreeSetGrows(links: seq<Link>, hi: nat, lim: nat)
    requires hi <= lim
    ensures FreeSet(links, hi) <= FreeSet(links, lim)
  {}

  lemma CountIsExact(links: seq<Link>, hi: nat)
    ensures |FreeList(links, 2, hi)| == |FreeSet(links, hi)|
  {
    var free := FreeList(links, 2, hi);
    FreeListExact(links, 2, hi);
    DistinctSize(free);
    assert SetOf(free) == FreeSet(links, hi);
  }

  /** The clusters of the first run of a pool are used up when it is linked behind a chain, and no other entry but
      the one of the chain's last cluster changes. */
  lemma LinkUses(links: seq<Link>, hi: nat, lim: nat, ch: seq<nat>, pool: seq<Run>)
    requires IsChain(links, lim, ch) && Usable(links, hi, pool) && pool != [] && hi <= lim <= |links|
    ensures var seg := pool[0]; var after := Linked(links, LastOf(ch), seg);
      && |Clusters(seg)| == seg.Count() && Distinct(Clusters(seg)) && SetOf(Clusters(seg)) <= FreeSet(links, lim)
      && FreeSet(after, lim) == FreeSet(links, lim) - SetOf(Clusters(seg))
      && (forall c :: 0 <= c < |links| && c !in Clusters(seg) && c != LastOf(ch) ==> after[c] == links[c])
      && (forall c :: 0 <= c < |links| && !(seg.base <= c <= seg.Last()) && links[c] == Free ==> after[c] == Free)
  {
    hide Linked, Clusters, Distinct, Expand, LastOf, IsChain;
    var seg := pool[0];
    ChainUsed(links, lim, ch);
    UsableAfterLink(links, hi, lim, LastOf(ch), pool);
    RunClusters(seg);
    forall c | 0 <= c < |links|
      ensures Linked(links, LastOf(ch), seg)[c] == Free <==> links[c] == Free && c !in Clusters(seg)
      ensures c !in Clusters(seg) && c != LastOf(ch) ==> Linked(links, LastOf(ch), seg)[c] == links[c]
    {
      LinkedAt(links, LastOf(ch), seg, c);
    }
  }

  lemma RunClusters(r: Run)
    ensures |Clusters(r)| == r.Count() && Distinct(Clusters(r))
    ensures forall c :: c in Clusters(r) <==> r.base <= c <= r.Last()
  {
    forall c | r.base <= c <= r.Last()
      ensures c in Clusters(r)
    {
      assert Clusters(r)[c - r.base] == c;
    }
  }

  /** The clusters of a chain become free when it is deleted, and no other entry changes. */
  lemma DeleteFrees(links: seq<Link>, lim: nat, ch: seq<nat>)
    requires IsChain(links, lim, ch)
    ensures SetOf(ch) !! FreeSet(links, lim) && FreeSet(Freed(links, ch), lim) == FreeSet(links, lim) + SetOf(ch)
    ensures forall c :: 0 <= c < |links| && c !in ch ==> Freed(links, ch)[c] == links[c]
    ensures forall c :: c in ch ==> 2 <= c < lim && links[c] != Free
  {
    hide IsChain, Freed;
    ChainUsed(links, lim, ch);
    ChainInside(links, lim, ch);
    forall c | 0 <= c < |links|
      ensures Freed(links, ch)[c] == if c in ch then Free else links[c]
    {
      FreedAt(links, ch, c);
    }
    assert forall c :: 2 <= c < lim ==> (Look(Freed(links, ch), c) == Free <==> Look(links, c) == Free || c in ch);
  }

  lemma ChainInside(links: seq<Link>, lim: nat, ch: seq<nat>)
    requires IsChain(links, lim, ch)
    ensures lim <= |links|
  {}

  /** Free clusters and clusters of files together are as many after a run as before it. */
  lemma {:induction false} RunConserves(s: State, hi: nat, lim: nat, cap: nat, steps: seq<Step>)
    requires cap >= 1 && hi <= lim < VALUE_LIMIT && Inv(s, hi, lim) && IsRun(s, hi, cap, steps)
    ensures var t := After(s, hi, cap, steps);
      |FreeSet(t.links, lim)| + Owners(t.files) == |FreeSet(s.links, lim)| + Owners(s.files)
    decreases |steps|
  {
    hide Inv, Apply, FreeSet, Does;
    if steps != [] {
      StepDoes(s, hi, lim, cap, steps[0]);
      StepKeepsInv(s, hi, lim, cap, steps[0]);
      StepConserves(s, Apply(s, hi, cap, steps[0]), hi, lim, steps[0]);
      RunConserves(Apply(s, hi, cap, steps[0]), hi, lim, cap, steps[1..]);
    }
  }

  lemma StepConserves(s: State, t: State, hi: nat, lim: nat, e: Step)
    requires Inv(s, hi, lim) && Does(s, t, hi, lim, e)
    ensures |FreeSet(t.links, lim)| + Owners(t.files) == |FreeSet(s.links, lim)| + Owners(s.files)
  {
    hide FreeSet, SetOf, Clusters, Usable, VolumeOk, CounterOk, Expand, Total, Owners, ValueOf, FlagOf;
    match e
    case LinkRun(f) =>
      var seg := Clusters(s.pending[0]);
      RunClusters(s.pending[0]);
      DistinctSize(seg);
      SetLess(FreeSet(s.links, lim), SetOf(seg));
      OwnersOf(s.files, f, s.files[f] + seg);
    case DeleteFile(f) =>
      var ch := s.files[f];
      FileDistinct(s.links, lim, s.files, f);
      DistinctSize(ch);
      SetMore(FreeSet(s.links, lim), SetOf(ch));
      OwnersOf(s.files, f, []);
    case _ =>
  }

  lemma FileDistinct(links: seq<Link>, lim: nat, files: seq<seq<nat>>, f: nat)
    requires VolumeOk(links, lim, files) && f < |files|
    ensures Distinct(files[f])
  {
    ChainDistinct(links, lim, files[f]);
  }

  lemma SetLess(a: set<nat>, b: set<nat>)
    requires b <= a
    ensures |a - b| == |a| - |b|
  {
    assert a == (a - b) + b;
  }

  lemma SetMore(a: set<nat>, b: set<nat>)
    requires b !! a
    ensures |a + b| == |a| + |b|
  {}

  lemma {:induction false} OwnersOf(files: seq<seq<nat>>, f: nat, ch: seq<nat>)
    requires f < |files|
    ensures Owners(files[f := ch]) == Owners(files) - |files[f]| + |ch|
  {
    var n := |files| - 1;
    if f < n {
      OwnersOf(files[..n], f, ch);
      assert files[f := ch][..n] == files[..n][f := ch];
    } else {
      assert files[f := ch][..n] == files[..n];
    }
  }
}
