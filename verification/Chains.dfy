/** Cluster chains in a table of links, and their decomposition into runs of adjacent clusters. */
module Chains {
  import opened FatEntries

  /** struct TClusList: `adj` more clusters follow `base`. */
  datatype Run = Run(base: nat, adj: nat) {
    function Last(): nat { base + adj }
    function Count(): nat { adj + 1 }
  }

  function Clusters(r: Run): (s: seq<nat>)
    ensures |s| == r.Count()
  {
    seq(r.Count(), i requires 0 <= i => r.base + i)
  }

  /** All clusters of a list of runs, in order. */
  function Expand(rs: seq<Run>): seq<nat> {
    if rs == [] then [] else Clusters(rs[0]) + Expand(rs[1..])
  }

  function Total(rs: seq<Run>): (n: nat)
    ensures n == |Expand(rs)|
    ensures n >= |rs|
  {
    if rs == [] then 0 else rs[0].Count() + Total(rs[1..])
  }

  function AddCluster(rs: seq<Run>, c: nat): (r: seq<Run>)
    ensures |r| >= 1 && r[|r| - 1].Last() == c
  {
    if rs != [] && rs[|rs| - 1].Last() + 1 == c then
      rs[..|rs| - 1] + [Run(rs[|rs| - 1].base, rs[|rs| - 1].adj + 1)]
    else
      rs + [Run(c, 0)]
  }

  /** The runs of a list of clusters. */
  function Runs(ch: seq<nat>): (rs: seq<Run>)
    ensures rs == [] <==> ch == []
  {
    if ch == [] then [] else AddCluster(Runs(ch[..|ch| - 1]), ch[|ch| - 1])
  }

  lemma RunsSnoc(ch: seq<nat>, c: nat)
    ensures Runs(ch + [c]) == AddCluster(Runs(ch), c)
  {
    assert (ch + [c])[..|ch|] == ch;
  }

  /** No two neighbouring runs could be merged. */
  ghost predicate Maximal(rs: seq<Run>) {
    forall i :: 0 <= i < |rs| - 1 ==> rs[i].Last() + 1 != rs[i + 1].base
  }

  lemma {:induction false} ExpandConcat(a: seq<Run>, b: seq<Run>)
    ensures Expand(a + b) == Expand(a) + Expand(b)
  {
    if a == [] {
      assert a + b == b;
    } else {
      assert (a + b)[1..] == a[1..] + b;
      ExpandConcat(a[1..], b);
    }
  }

  lemma ConcatAssoc(a: seq<nat>, b: seq<nat>, c: seq<nat>)
    ensures (a + b) + c == a + (b + c)
  {}

  lemma ExpandCons(r: Run, rs: seq<Run>)
    ensures Expand([r] + rs) == Clusters(r) + Expand(rs)
    ensures Total([r] + rs) == r.Count() + Total(rs)
  {
    assert ([r] + rs)[1..] == rs;
  }

  lemma ExpandOne(r: Run)
    ensures Expand([r]) == Clusters(r)
  {
    assert [r][1..] == [];
  }

  lemma ExpandSnoc(rs: seq<Run>, r: Run)
    ensures Expand(rs + [r]) == Expand(rs) + Clusters(r)
  {
    ExpandConcat(rs, [r]);
    ExpandOne(r);
  }

  lemma ExpandAdd(rs: seq<Run>, c: nat)
    ensures Expand(AddCluster(rs, c)) == Expand(rs) + [c]
  {
    if rs != [] && rs[|rs| - 1].Last() + 1 == c {
      var front, r := rs[..|rs| - 1], rs[|rs| - 1];
      assert rs == front + [r];
      ExpandSnoc(front, r);
      ExpandSnoc(front, Run(r.base, r.adj + 1));
      assert Clusters(Run(r.base, r.adj + 1)) == Clusters(r) + [c];
    } else {
      ExpandSnoc(rs, Run(c, 0));
      assert Clusters(Run(c, 0)) == [c];
    }
  }

  lemma MaximalAdd(rs: seq<Run>, c: nat)
    requires Maximal(rs)
    ensures Maximal(AddCluster(rs, c))
  {
    var r := AddCluster(rs, c);
    forall i | 0 <= i < |r| - 1
      ensures r[i].Last() + 1 != r[i + 1].base
    {
      if i + 1 < |rs| {
        assert rs[i].Last() + 1 != rs[i + 1].base;
      }
    }
  }

  lemma AddConcat(a: seq<Run>, b: seq<Run>, c: nat)
    ensures b != [] ==> AddCluster(a + b, c) == a + AddCluster(b, c)
    ensures a == [] || a[|a| - 1].Last() + 1 != c ==> AddCluster(a, c) == a + [Run(c, 0)]
  {
    if b != [] {
      assert (a + b)[|a + b| - 1] == b[|b| - 1];
      assert (a + b)[..|a + b| - 1] == a + b[..|b| - 1];
    }
  }

  /** The runs of a chain are maximal and give the chain back. */
  lemma {:induction false} RunsCanonical(ch: seq<nat>)
    ensures Expand(Runs(ch)) == ch && Maximal(Runs(ch))
  {
    if ch == [] {
      assert Expand(Runs(ch)) == ch && Maximal(Runs(ch));
    } else {
      hide AddCluster, Maximal, Expand, Runs;
      var front := ch[..|ch| - 1];
      assert ch == front + [ch[|ch| - 1]];
      RunsSnoc(front, ch[|ch| - 1]);
      RunsCanonical(front);
      ExpandAdd(Runs(front), ch[|ch| - 1]);
      MaximalAdd(Runs(front), ch[|ch| - 1]);
    }
  }

  lemma NoRuns()
    ensures Runs([]) == []
  {}

  lemma {:induction false} RunsOfRun(r: Run)
    ensures Runs(Clusters(r)) == [r]
    decreases r.adj
  {
    hide Runs;
    if r.adj == 0 {
      assert Clusters(r) == [] + [r.base];
      RunsSnoc([], r.base);
      NoRuns();
    } else {
      var r' := Run(r.base, r.adj - 1);
      RunsOfRun(r');
      assert Clusters(r) == Clusters(r') + [r.Last()];
      RunsSnoc(Clusters(r'), r.Last());
    }
  }

  /** Where two neighbours are not adjacent, the runs split. */
  lemma {:induction false} RunsConcat(a: seq<nat>, b: seq<nat>)
    requires a != [] && b != [] ==> a[|a| - 1] + 1 != b[0]
    ensures Runs(a + b) == Runs(a) + Runs(b)
  {
    hide AddCluster, Runs;
    if b == [] {
      assert a + b == a && Runs(a) + Runs(b) == Runs(a);
    } else if |b| == 1 {
      RunsAppendOne(a, b[0]);
      assert b == [b[0]];
    } else {
      var front, c := b[..|b| - 1], b[|b| - 1];
      assert a + b == (a + front) + [c] && b == front + [c];
      RunsSnoc(a + front, c);
      RunsSnoc(front, c);
      RunsConcat(a, front);
      AddConcat(Runs(a), Runs(front), c);
    }
  }

  lemma RunsAppendOne(a: seq<nat>, c: nat)
    requires a != [] ==> a[|a| - 1] + 1 != c
    ensures Runs(a + [c]) == Runs(a) + Runs([c])
  {
    hide AddCluster, Runs;
    NoRuns();
    RunsSnoc(a, c);
    RunsSnoc([], c);
    assert [] + [c] == [c];
    if a != [] {
      RunsLast(a);
    }
    AddNew(Runs(a), c);
    AddNew([], c);
    assert [] + [Run(c, 0)] == [Run(c, 0)];
  }

  lemma AddNew(rs: seq<Run>, c: nat)
    requires rs == [] || rs[|rs| - 1].Last() + 1 != c
    ensures AddCluster(rs, c) == rs + [Run(c, 0)]
  {}

  lemma RunsLast(ch: seq<nat>)
    requires ch != []
    ensures Runs(ch)[|Runs(ch)| - 1].Last() == ch[|ch| - 1]
  {}

  /** A list of maximal runs is the only one with its expansion. */
  lemma {:induction false} RunsUnique(rs: seq<Run>)
    requires Maximal(rs)
    ensures Runs(Expand(rs)) == rs
  {
    hide AddCluster, Runs, Expand, Maximal, Clusters;
    if rs == [] {
      NoExpansion();
      NoRuns();
    } else {
      var front, r := rs[..|rs| - 1], rs[|rs| - 1];
      assert rs == front + [r];
      MaximalFront(rs);
      RunsUnique(front);
      ExpandSnoc(front, r);
      RunsOfRun(r);
      if front != [] {
        RunsLast(Expand(front));
        MaximalEnd(rs);
      }
      ClusterAt(r, 0);
      RunsConcat(Expand(front), Clusters(r));
    }
  }

  lemma NoExpansion()
    ensures Expand([]) == []
  {}

  lemma MaximalEnd(rs: seq<Run>)
    requires Maximal(rs) && |rs| >= 2
    ensures rs[|rs| - 2].Last() + 1 != rs[|rs| - 1].base
  {
    assert rs[|rs| - 2].Last() + 1 != rs[|rs| - 2 + 1].base;
  }

  lemma ClusterAt(r: Run, k: nat)
    requires k < r.Count()
    ensures |Clusters(r)| == r.Count() && Clusters(r)[k] == r.base + k
  {}

  lemma MaximalParts(a: seq<Run>, b: seq<Run>)
    requires Maximal(a + b)
    ensures Maximal(a) && Maximal(b)
  {
    forall i | 0 <= i < |a| - 1
      ensures a[i].Last() + 1 != a[i + 1].base
    {
      assert (a + b)[i].Last() + 1 != (a + b)[i + 1].base;
    }
    forall i | 0 <= i < |b| - 1
      ensures b[i].Last() + 1 != b[i + 1].base
    {
      assert (a + b)[|a| + i].Last() + 1 != (a + b)[|a| + i + 1].base;
    }
  }

  lemma MaximalFront(rs: seq<Run>)
    requires rs != [] && Maximal(rs)
    ensures Maximal(rs[..|rs| - 1])
  {
    var front := rs[..|rs| - 1];
    forall i | 0 <= i < |front| - 1
      ensures front[i].Last() + 1 != front[i + 1].base
    {
      assert rs[i].Last() + 1 != rs[i + 1].base;
    }
  }

  lemma {:induction false} RunsFirst(ch: seq<nat>)
    requires ch != []
    ensures Runs(ch)[0].base == ch[0]
  {
    if |ch| > 1 {
      RunsFirst(ch[..|ch| - 1]);
    }
  }

  /** Each cluster of `p` but the last links to the next one. */
  ghost predicate IsPath(links: seq<Link>, p: seq<nat>) {
    p != [] && forall k :: 0 <= k < |p| - 1 ==> Look(links, p[k]) == Next(p[k + 1])
  }

  /** An EOF-terminated chain of data clusters below `lim`; an empty file has the empty chain. */
  ghost predicate IsChain(links: seq<Link>, lim: nat, ch: seq<nat>) {
    && lim <= |links|
    && (forall k :: 0 <= k < |ch| ==> 2 <= ch[k] < lim)
    && (forall k :: 0 <= k < |ch| - 1 ==> links[ch[k]] == Next(ch[k + 1]))
    && (ch != [] ==> links[ch[|ch| - 1]] == End)
  }

  ghost predicate Distinct(s: seq<nat>) {
    forall i, j :: 0 <= i < j < |s| ==> s[i] != s[j]
  }

  ghost predicate Ascending(s: seq<nat>) {
    forall i, j :: 0 <= i < j < |s| ==> s[i] < s[j]
  }

  /** A walk that ends cannot repeat a cluster. */
  lemma WalkDistinct(links: seq<Link>, p: seq<nat>)
    requires IsPath(links, p) && !Look(links, p[|p| - 1]).Next?
    ensures Distinct(p)
  {
    forall i, j | 0 <= i < j < |p|
      ensures p[i] != p[j]
    {
      NoRepeat(links, p, i, j);
    }
  }

  lemma {:induction false} NoRepeat(links: seq<Link>, p: seq<nat>, i: nat, j: nat)
    requires IsPath(links, p) && !Look(links, p[|p| - 1]).Next? && i < j < |p|
    ensures p[i] != p[j]
    decreases |p| - j
  {
    assert Look(links, p[i]) == Next(p[i + 1]);
    if j < |p| - 1 {
      NoRepeat(links, p, i + 1, j + 1);
      assert Look(links, p[j]) == Next(p[j + 1]);
    }
  }

  lemma ChainDistinct(links: seq<Link>, lim: nat, ch: seq<nat>)
    requires IsChain(links, lim, ch)
    ensures Distinct(ch)
  {
    if ch != [] {
      WalkDistinct(links, ch);
    }
  }

  /** Chain clusters are data clusters in use. */
  lemma ChainUsed(links: seq<Link>, lim: nat, ch: seq<nat>)
    requires IsChain(links, lim, ch)
    ensures forall c :: c in ch ==> 2 <= c < lim && links[c] != Free
    ensures LastOf(ch) == 0 || (LastOf(ch) < lim && links[LastOf(ch)] == End)
  {
    forall c | c in ch
      ensures 2 <= c < lim && links[c] != Free
    {
      var k :| 0 <= k < |ch| && ch[k] == c;
      assert k < |ch| - 1 ==> links[ch[k]] == Next(ch[k + 1]);
    }
  }

  lemma ClusterIn(r: Run, c: nat)
    ensures c in Clusters(r) <==> r.base <= c <= r.Last()
  {
    if r.base <= c <= r.Last() {
      assert Clusters(r)[c - r.base] == c;
    }
  }

  lemma ChainTail(links: seq<Link>, lim: nat, ch: seq<nat>, k: nat)
    requires IsChain(links, lim, ch) && k <= |ch|
    ensures IsChain(links, lim, ch[k..])
  {}

  lemma PathStep(links: seq<Link>, p: seq<nat>, k: nat)
    requires IsPath(links, p) && k < |p| - 1
    ensures Look(links, p[k]) == Next(p[k + 1])
  {}

  lemma ChainStep(links: seq<Link>, lim: nat, ch: seq<nat>, k: nat)
    requires IsChain(links, lim, ch) && k < |ch| - 1
    ensures links[ch[k]] == Next(ch[k + 1])
  {}

  /** A path that starts on a chain follows it. */
  lemma {:induction false} PathOnChain(links: seq<Link>, lim: nat, ch: seq<nat>, p: seq<nat>)
    requires IsChain(links, lim, ch) && ch != [] && IsPath(links, p) && p[0] == ch[0]
    ensures |p| <= |ch| && p == ch[..|p|]
    decreases |p|
  {
    if |p| > 1 {
      var front := p[..|p| - 1];
      forall k | 0 <= k < |front| - 1
        ensures Look(links, front[k]) == Next(front[k + 1])
      {
        assert Look(links, p[k]) == Next(p[k + 1]);
      }
      PathOnChain(links, lim, ch, front);
      assert Look(links, p[|p| - 2]) == Next(p[|p| - 2 + 1]);
      assert p[|p| - 2] == ch[|p| - 2];
    }
  }

  /** Where fatfs starts to read a chain; an empty file starts at entry 0. */
  function FirstOf(ch: seq<nat>): nat {
    if ch == [] then 0 else ch[0]
  }

  function LastOf(ch: seq<nat>): nat {
    if ch == [] then 0 else ch[|ch| - 1]
  }

  function SetOf(s: seq<nat>): set<nat> {
    set c | c in s
  }

  lemma {:induction false} DistinctSize(s: seq<nat>)
    requires Distinct(s)
    ensures |SetOf(s)| == |s|
  {
    if s == [] {
      assert SetOf(s) == {};
    } else {
      var front, c := s[..|s| - 1], s[|s| - 1];
      DistinctSize(front);
      assert SetOf(s) == SetOf(front) + {c};
      assert c !in SetOf(front);
    }
  }

  lemma {:induction false} SubsetSize(a: set<nat>, b: set<nat>)
    requires a <= b
    ensures |a| <= |b|
  {
    if a != {} {
      var x :| x in a;
      SubsetSize(a - {x}, b - {x});
    }
  }

  /** A list of batches as one list of runs. */
  function Flat(bs: seq<seq<Run>>): seq<Run> {
    if bs == [] then [] else bs[0] + Flat(bs[1..])
  }

  lemma SplitAt(rs: seq<Run>, i: nat)
    requires i < |rs|
    ensures rs[..i + 1] == rs[..i] + [rs[i]] && rs == rs[..i] + [rs[i]] + rs[i + 1..]
  {}

  /** Clusters in the first `i` runs. */
  function Before(rs: seq<Run>, i: nat): nat
    requires i <= |rs|
  {
    Total(rs[..i])
  }

  /** Where the clusters of run `i` lie in the expansion. */
  lemma RunAt(rs: seq<Run>, i: nat)
    requires i < |rs|
    ensures Before(rs, i + 1) == Before(rs, i) + rs[i].Count() <= Total(rs)
    ensures Within(Expand(rs), Before(rs, i), Clusters(rs[i]))
  {
    hide Expand, Clusters, Total;
    var a, r, b := rs[..i], rs[i], rs[i + 1..];
    SplitAt(rs, i);
    ExpandSnoc(a, r);
    ExpandConcat(a + [r], b);
    Middle(Expand(a), Clusters(r), Expand(b));
  }

  /** The clusters of the first `i` runs. */
  function UpTo(rs: seq<Run>, i: nat): seq<nat>
    requires i <= |rs|
  {
    Expand(rs[..i])
  }

  lemma UpToStep(rs: seq<Run>, i: nat)
    requires i < |rs|
    ensures UpTo(rs, i + 1) == UpTo(rs, i) + Clusters(rs[i])
  {
    hide Expand, Clusters;
    SplitAt(rs, i);
    ExpandSnoc(rs[..i], rs[i]);
  }

  lemma UpToEnds(rs: seq<Run>)
    ensures UpTo(rs, 0) == [] && UpTo(rs, |rs|) == Expand(rs)
  {
    assert rs[..|rs|] == rs;
  }

  /** The runs from `i` on, followed by `rest`. */
  function Pending(rs: seq<Run>, i: nat, rest: seq<Run>): seq<Run>
    requires i <= |rs|
  {
    rs[i..] + rest
  }

  lemma PendingStep(rs: seq<Run>, i: nat, rest: seq<Run>)
    requires i < |rs|
    ensures Pending(rs, i, rest) == [rs[i]] + Pending(rs, i + 1, rest)
  {
    assert rs[i..] == [rs[i]] + rs[i + 1..];
  }

  lemma BeforeEnds(rs: seq<Run>)
    ensures Before(rs, 0) == 0 && Before(rs, |rs|) == Total(rs)
  {
    assert rs[..|rs|] == rs;
  }

  /** `part` occurs in `s` at position `at`. */
  ghost predicate Within(s: seq<nat>, at: nat, part: seq<nat>) {
    at + |part| <= |s| && s[at..at + |part|] == part
  }

  lemma Middle(a: seq<nat>, b: seq<nat>, c: seq<nat>)
    ensures Within(a + b + c, |a|, b)
  {}

  lemma WithinWithin(s: seq<nat>, lo: nat, mid: seq<nat>, at: nat, part: seq<nat>)
    requires Within(s, lo, mid) && Within(mid, at, part)
    ensures Within(s, lo + at, part)
  {
    var a := s[lo + at..lo + at + |part|];
    forall k | 0 <= k < |part|
      ensures a[k] == part[k]
    {
      assert part[k] == mid[at..at + |part|][k] == mid[at + k];
      assert mid[at + k] == s[lo..lo + |mid|][at + k];
    }
    assert a == part;
  }
}
