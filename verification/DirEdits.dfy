/** What creating, changing and deleting an entry means for the entries a reader finds. */
module DirEdits {
  import opened Directory

  /** A search for `n` vacant slots that starts at slot `k` may take those from `a` on: they are all free,
      or `a` is the terminator. */
  ghost predicate VacantFrom(d: seq<Slot>, k: nat, a: nat, n: nat) {
    k <= a && n > 0 && a + n <= |d| && NoEnd(d, k, a) && (AllFree(d, a, a + n) || IsEnd(d[a]))
  }

  ghost predicate Vacant(d: seq<Slot>, a: nat, n: nat) {
    VacantFrom(d, 0, a, n)
  }

  /** No place has `n` vacant slots. */
  ghost predicate NoRoom(d: seq<Slot>, n: nat) {
    forall a: nat :: !VacantFrom(d, 0, a, n)
  }

  /** Filling vacant slots with one entry inserts exactly that entry. */
  lemma InsertEntry(d: seq<Slot>, e: seq<Slot>, a: nat, n: nat, x: Entry)
    requires DirOk(d) && Vacant(d, a, n) && |e| == |d| && Same(d, e, 0, a) && Same(d, e, a + n, |d|)
    requires NoEnd(e, a, a + n) && Parse(e, a, Nothing) == [x] + Parse(e, a + n, Nothing)
    requires Grouped(e, a, 0) == Grouped(e, a + n, 0)
    ensures Entries(d) == ParseTo(d, 0, a, Nothing) + Parse(d, a, Nothing)
    ensures Entries(e) == ParseTo(d, 0, a, Nothing) + [x] + Parse(d, a, Nothing)
    ensures DirOk(e)
  {
    hide Parse, ParseTo, Grouped, IsFree;
    NothingCounted();
    PrefixSame(d, e, 0, a, Nothing, 0);
    AfterVacant(d, e, a, n);
    forall i, j | 0 <= i <= j < |e| && IsEnd(e[i])
      ensures IsEnd(e[j])
    {
      if i >= a + n {
        assert d[i] == e[i] && d[j] == e[j];
      }
    }
  }

  lemma NothingCounted()
    ensures Count(Nothing, 0)
  {}

  lemma AfterVacant(d: seq<Slot>, e: seq<Slot>, a: nat, n: nat)
    requires DirOk(d) && Vacant(d, a, n) && |e| == |d| && Same(d, e, a + n, |d|) && Grouped(d, a, 0)
    ensures Parse(e, a + n, Nothing) == Parse(d, a, Nothing) && Grouped(e, a + n, 0)
  {
    SuffixSame(d, e, a + n, Nothing, 0);
    if IsEnd(d[a]) {
      assert a + n < |d| ==> IsEnd(d[a + n]);
    } else {
      SkipFree(d, a, a + n);
    }
  }

  function RemoveAt(es: seq<Entry>, i: nat): seq<Entry>
    requires i < |es|
  {
    es[..i] + es[i + 1..]
  }

  /** Where the slots of an entry lie. */
  lemma {:induction false} Positions(d: seq<Slot>, k: nat, p: Pending, i: nat)
    requires k <= |d| && (p.Some? ==> p.first < k) && i < |Parse(d, k, p)|
    ensures var x := Parse(d, k, p)[i];
      && k <= x.last < |d| && x.first <= x.last && IsShort(d[x.last]) && x.data == d[x.last] && NoEnd(d, k, x.last + 1)
      && (if i == 0 && p.Some? then x.first == p.first else k <= x.first)
      && (i > 0 ==> k < x.first)
    decreases |d| - k
  {
    hide CStr, Units;
    if IsFree(d[k]) {
      Positions(d, k + 1, p, i);
    } else if IsLong(d[k]) {
      Positions(d, k + 1, AddLong(p, k, d[k]), i);
    } else if i > 0 {
      Positions(d, k + 1, Nothing, i - 1);
    }
  }

  /** From slot `k` on, `e` is `d` with the slots first..last freed. */
  ghost predicate Cleared(d: seq<Slot>, e: seq<Slot>, k: nat, first: nat, last: nat) {
    |e| == |d| && forall y :: k <= y < |d| ==> if first <= y <= last then IsFree(e[y]) else e[y] == d[y]
  }

  lemma ClearedStep(d: seq<Slot>, e: seq<Slot>, k: nat, first: nat, last: nat, p: Pending, m: nat)
    requires Cleared(d, e, k, first, last) && k < |d| && Count(p, m)
    ensures |e| == |d| && Cleared(d, e, k + 1, first, last) && if first <= k <= last then IsFree(e[k]) else e[k] == d[k]
    ensures last == k ==> Same(d, e, k + 1, |d|)
    ensures Count(AddLong(p, k, d[k]), m + 1) && Count(Nothing, 0) && (m == 0 ==> p == Nothing)
  {}

  /** Freeing the slots of entry `i` removes that entry and no other. */
  lemma {:induction false} DeleteFrom(d: seq<Slot>, e: seq<Slot>, k: nat, p: Pending, m: nat, i: nat)
    requires k <= |d| && Grouped(d, k, m) && Count(p, m) && (p.Some? ==> p.first < k) && i < |Parse(d, k, p)|
    requires Cleared(d, e, k, Parse(d, k, p)[i].first, Parse(d, k, p)[i].last)
    ensures |e| == |d| && Parse(e, k, if i == 0 then Nothing else p) == RemoveAt(Parse(d, k, p), i)
    ensures Grouped(e, k, if i == 0 then 0 else m)
    decreases |d| - k
  {
    hide Parse, Grouped, CStr, Units, Cleared, Count, Same, RemoveAt;
    Positions(d, k, p, i);
    var x := Parse(d, k, p)[i];
    ClearedStep(d, e, k, x.first, x.last, p, m);
    Step(d, k, p, m);
    Step(e, k, if i == 0 then Nothing else p, if i == 0 then 0 else m);
    if IsFree(d[k]) {
      DeleteFrom(d, e, k + 1, p, m, i);
    } else if IsLong(d[k]) {
      Positions(d, k + 1, AddLong(p, k, d[k]), i);
      DeleteFrom(d, e, k + 1, AddLong(p, k, d[k]), m + 1, i);
    } else if i == 0 {
      SuffixSame(d, e, k + 1, Nothing, 0);
      RemoveFirst(MakeEntry(p, k, d[k]), Parse(d, k + 1, Nothing));
    } else {
      DeleteFrom(d, e, k + 1, Nothing, 0, i - 1);
      RemoveCons(MakeEntry(p, k, d[k]), Parse(d, k + 1, Nothing), i);
    }
  }

  lemma RemoveFirst(x: Entry, es: seq<Entry>)
    ensures RemoveAt([x] + es, 0) == es
  {}

  lemma RemoveCons(x: Entry, es: seq<Entry>, i: nat)
    requires 0 < i <= |es|
    ensures RemoveAt([x] + es, i) == [x] + RemoveAt(es, i - 1)
  {}

  lemma DeleteEntry(d: seq<Slot>, e: seq<Slot>, i: nat)
    requires DirOk(d) && i < |Entries(d)| && Cleared(d, e, 0, Entries(d)[i].first, Entries(d)[i].last)
    ensures Entries(e) == RemoveAt(Entries(d), i) && DirOk(e)
  {
    hide RemoveAt, Parse, Grouped;
    DeleteFrom(d, e, 0, Nothing, 0, i);
    Positions(d, 0, Nothing, i);
    assert ZeroTail(e);
  }

  /** From slot `k` on, `e` differs from `d` in slot `x` only. */
  ghost predicate OnlySlot(d: seq<Slot>, e: seq<Slot>, k: nat, x: nat) {
    |e| == |d| && forall y :: k <= y < |d| && y != x ==> e[y] == d[y]
  }

  lemma OnlySlotStep(d: seq<Slot>, e: seq<Slot>, k: nat, x: nat)
    requires OnlySlot(d, e, k, x) && k < |d|
    ensures |e| == |d| && OnlySlot(d, e, k + 1, x) && (k != x ==> e[k] == d[k]) && (k == x ==> Same(d, e, k + 1, |d|))
  {}

  lemma MadeEntry(p: Pending, k: nat, s: Slot, t: Slot)
    ensures MakeEntry(p, k, s).last == k
    ensures MakeEntry(p, k, t) == Entry(MakeEntry(p, k, s).first, k, MakeEntry(p, k, s).lfn, t)
    ensures AddLong(p, k, s).Some? && ((p.Some? ==> p.first < k) ==> AddLong(p, k, s).first < k + 1)
  {}

  lemma UpdateCons(x: Entry, es: seq<Entry>, i: nat, y: Entry)
    requires i <= |es|
    ensures i == 0 ==> ([x] + es)[i := y] == [y] + es
    ensures i > 0 ==> ([x] + es)[i := y] == [x] + es[i - 1 := y] && ([x] + es)[i] == es[i - 1]
  {}

  /** Rewriting the 8.3 slot of entry `i` changes that entry and no other. */
  lemma {:induction false} ReplaceFrom(d: seq<Slot>, e: seq<Slot>, k: nat, p: Pending, m: nat, i: nat)
    requires k <= |d| && Grouped(d, k, m) && (p.Some? ==> p.first < k) && i < |Parse(d, k, p)|
    requires var x := Parse(d, k, p)[i]; OnlySlot(d, e, k, x.last) && x.last < |d| == |e| && IsShort(e[x.last])
    ensures var x := Parse(d, k, p)[i];
      Parse(e, k, p) == Parse(d, k, p)[i := Entry(x.first, x.last, x.lfn, e[x.last])]
    ensures Grouped(e, k, m)
    decreases |d| - k
  {
    hide Parse, Grouped, CStr, Units, OnlySlot, Same, AddLong, MakeEntry;
    Positions(d, k, p, i);
    OnlySlotStep(d, e, k, Parse(d, k, p)[i].last);
    Step(d, k, p, m);
    Step(e, k, p, m);
    MadeEntry(p, k, d[k], e[k]);
    if IsFree(d[k]) {
      ReplaceFrom(d, e, k + 1, p, 0, i);
    } else if IsLong(d[k]) {
      ReplaceFrom(d, e, k + 1, AddLong(p, k, d[k]), m + 1, i);
    } else if i == 0 {
      SuffixSame(d, e, k + 1, Nothing, 0);
      UpdateCons(MakeEntry(p, k, d[k]), Parse(d, k + 1, Nothing), 0, MakeEntry(p, k, e[k]));
    } else {
      var x := Parse(d, k, p)[i];
      ReplaceFrom(d, e, k + 1, Nothing, 0, i - 1);
      UpdateCons(MakeEntry(p, k, d[k]), Parse(d, k + 1, Nothing), i, Entry(x.first, x.last, x.lfn, e[x.last]));
    }
  }

  lemma ReplaceEntry(d: seq<Slot>, e: seq<Slot>, i: nat)
    requires DirOk(d) && i < |Entries(d)|
    requires var x := Entries(d)[i]; OnlySlot(d, e, 0, x.last) && x.last < |d| == |e| && IsShort(e[x.last])
    ensures var x := Entries(d)[i];
      Entries(e) == Entries(d)[i := Entry(x.first, x.last, x.lfn, e[x.last])] && DirOk(e)
  {
    hide Parse, Grouped;
    ReplaceFrom(d, e, 0, Nothing, 0, i);
    Positions(d, 0, Nothing, i);
    assert ZeroTail(e);
  }
}
