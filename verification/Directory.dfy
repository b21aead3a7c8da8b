/** Directories as sequences of 32-byte slots, and the entries a reader finds in them. */
module Directory {
  import opened Bytes

  const FREEDENTRY: byte := 0xE5
  const LONGNAME: byte := 0x0F
  const PARTIALCHARS: nat := 13
  const LFN_SIZE: nat := 256
  /** Long-name entries for which the reader's buffer has room. */
  const MAX_GROUP: nat := 19

  /** lfnPos of the reader after `m` long-name slots; what they held is in lfn[lfnPos..255]. */
  function ReaderPos(m: nat): int {
    LFN_SIZE - 1 - PARTIALCHARS * m
  }

  type Slot = s: seq<byte> | |s| == 32 witness seq<byte>(32, _ => 0)

  type Unit = x: int | 0 <= x < 0x10000

  predicate IsEnd(s: Slot) { s[0] == 0 }

  predicate IsFree(s: Slot) { s[0] == FREEDENTRY }

  predicate IsLong(s: Slot) { !IsEnd(s) && !IsFree(s) && s[11] == LONGNAME }

  predicate IsShort(s: Slot) { !IsEnd(s) && !IsFree(s) && s[11] != LONGNAME }

  function U16(s: Slot, i: nat): (v: Unit)
    requires i < 31
  {
    (s[i] as int) + 256 * (s[i + 1] as int)
  }

  /** The 13 characters of a long-name entry. */
  function Units(s: Slot): (u: seq<Unit>)
    ensures |u| == PARTIALCHARS
  {
    [U16(s, 1), U16(s, 3), U16(s, 5), U16(s, 7), U16(s, 9),
     U16(s, 14), U16(s, 16), U16(s, 18), U16(s, 20), U16(s, 22), U16(s, 24),
     U16(s, 28), U16(s, 30)]
  }

  /** A zero-terminated string: what comes before the first zero. */
  function CStr(s: seq<int>): (r: seq<int>)
    ensures |r| <= |s| && r == s[..|r|] && 0 !in r
    ensures |r| < |s| ==> s[|r|] == 0
  {
    if s == [] || s[0] == 0 then [] else [s[0]] + CStr(s[1..])
  }

  lemma {:induction false} CStrIs(s: seq<int>, r: seq<int>)
    requires |r| <= |s| && r == s[..|r|] && 0 !in r && (|r| < |s| ==> s[|r|] == 0)
    ensures CStr(s) == r
  {
    if r != [] {
      assert r[0] == s[0] && s[1..][..|r| - 1] == r[1..];
      CStrIs(s[1..], r[1..]);
    }
  }

  /** A live directory entry: its slots first..last, its long name and its 8.3 slot. */
  datatype Entry = Entry(first: nat, last: nat, lfn: seq<int>, data: Slot) {
    function Name(): seq<byte> { data[..11] }
    function Attr(): byte { data[11] }
    function FirstClus(): nat { U16(data, 20) * 0x10000 + U16(data, 26) }
    function FileSize(): nat { U16(data, 28) + 0x10000 * U16(data, 30) }
  }

  /** The fields of an 8.3 slot, from its bytes, as the FAT specification lays them out. */
  lemma EntryFields(x: Entry, i: nat)
    requires i < 11
    ensures var b := x.data;
      && |x.Name()| == 11 && x.Name()[i] == b[i] && x.Attr() == b[11]
      && x.FirstClus() == Number(b[26], b[27], b[20], b[21]) && x.FileSize() == Number(b[28], b[29], b[30], b[31])
  {}

  /** Long-name characters read so far and the slot where they began. */
  datatype Pending = Nothing | Some(first: nat, units: seq<Unit>)

  function AddLong(p: Pending, k: nat, s: Slot): Pending {
    match p
    case Nothing => Some(k, Units(s))
    case Some(first, units) => Some(first, Units(s) + units)
  }

  function MakeEntry(p: Pending, k: nat, s: Slot): Entry {
    match p
    case Nothing => Entry(k, k, [], s)
    case Some(first, units) => Entry(first, k, CStr(units), s)
  }

  /** The entries found from slot `k` on. */
  function Parse(d: seq<Slot>, k: nat, p: Pending): (es: seq<Entry>)
    requires k <= |d|
    decreases |d| - k
  {
    if k == |d| || IsEnd(d[k]) then []
    else if IsFree(d[k]) then Parse(d, k + 1, p)
    else if IsLong(d[k]) then Parse(d, k + 1, AddLong(p, k, d[k]))
    else [MakeEntry(p, k, d[k])] + Parse(d, k + 1, Nothing)
  }

  function Entries(d: seq<Slot>): seq<Entry> {
    Parse(d, 0, Nothing)
  }

  /** No group of long-name entries takes the reader's lfnPos below 0; `m` of them are pending at slot `k`. */
  predicate Bounded(d: seq<Slot>, k: nat, m: nat)
    requires k <= |d|
    decreases |d| - k
  {
    if k == |d| || IsEnd(d[k]) then true
    else if IsFree(d[k]) then Bounded(d, k + 1, m)
    else if IsLong(d[k]) then ReaderPos(m + 1) >= 0 && Bounded(d, k + 1, m + 1)
    else Bounded(d, k + 1, 0)
  }

  /** Besides, every group of long-name entries is directly followed by its 8.3 entry. */
  predicate Grouped(d: seq<Slot>, k: nat, m: nat)
    requires k <= |d|
    decreases |d| - k
  {
    if k == |d| || IsEnd(d[k]) then m == 0
    else if IsFree(d[k]) then m == 0 && Grouped(d, k + 1, 0)
    else if IsLong(d[k]) then m + 1 <= MAX_GROUP && Grouped(d, k + 1, m + 1)
    else Grouped(d, k + 1, 0)
  }

  lemma {:induction false} GroupedIsBounded(d: seq<Slot>, k: nat, m: nat)
    requires k <= |d| && Grouped(d, k, m)
    ensures Bounded(d, k, m)
    decreases |d| - k
  {
    if k < |d| && !IsEnd(d[k]) {
      GroupedIsBounded(d, k + 1, if IsFree(d[k]) || IsShort(d[k]) then 0 else m + 1);
    }
  }

  /** Nothing but terminators follows a terminator. */
  ghost predicate ZeroTail(d: seq<Slot>) {
    forall i, j :: 0 <= i <= j < |d| && IsEnd(d[i]) ==> IsEnd(d[j])
  }

  /** What every directory operation keeps. */
  ghost predicate DirOk(d: seq<Slot>) {
    Grouped(d, 0, 0) && ZeroTail(d)
  }

  ghost predicate NoEnd(d: seq<Slot>, a: nat, b: nat) {
    b <= |d| && forall x :: a <= x < b ==> !IsEnd(d[x])
  }

  ghost predicate AllFree(d: seq<Slot>, a: nat, b: nat) {
    b <= |d| && forall x :: a <= x < b ==> IsFree(d[x])
  }

  ghost predicate Same(d: seq<Slot>, e: seq<Slot>, a: nat, b: nat) {
    b <= |d| && b <= |e| && forall x :: a <= x < b ==> d[x] == e[x]
  }

  /** Slot `a` is no continuation of a group. */
  predicate Boundary(d: seq<Slot>, a: nat)
    requires a <= |d|
  {
    a == |d| || IsFree(d[a]) || IsEnd(d[a])
  }

  /** The entries that end before slot `a`. */
  function ParseTo(d: seq<Slot>, k: nat, a: nat, p: Pending): seq<Entry>
    requires k <= a <= |d|
    decreases a - k
  {
    if k == a || IsEnd(d[k]) then []
    else if IsFree(d[k]) then ParseTo(d, k + 1, a, p)
    else if IsLong(d[k]) then ParseTo(d, k + 1, a, AddLong(p, k, d[k]))
    else [MakeEntry(p, k, d[k])] + ParseTo(d, k + 1, a, Nothing)
  }

  /** Long-name entries collected so far. */
  ghost predicate Count(p: Pending, m: nat) {
    match p
    case Nothing => m == 0
    case Some(_, units) => m > 0 && |units| == PARTIALCHARS * m
  }

  /** One step of the reader. */
  lemma Step(d: seq<Slot>, k: nat, p: Pending, m: nat)
    requires k < |d|
    ensures Parse(d, k, p) ==
      if IsEnd(d[k]) then []
      else if IsFree(d[k]) then Parse(d, k + 1, p)
      else if IsLong(d[k]) then Parse(d, k + 1, AddLong(p, k, d[k]))
      else [MakeEntry(p, k, d[k])] + Parse(d, k + 1, Nothing)
    ensures Grouped(d, k, m) ==
      if IsEnd(d[k]) then m == 0
      else if IsFree(d[k]) then m == 0 && Grouped(d, k + 1, 0)
      else if IsLong(d[k]) then m + 1 <= MAX_GROUP && Grouped(d, k + 1, m + 1)
      else Grouped(d, k + 1, 0)
  {}

  lemma StepTo(d: seq<Slot>, k: nat, a: nat, p: Pending)
    requires k < a <= |d|
    ensures ParseTo(d, k, a, p) ==
      if IsEnd(d[k]) then []
      else if IsFree(d[k]) then ParseTo(d, k + 1, a, p)
      else if IsLong(d[k]) then ParseTo(d, k + 1, a, AddLong(p, k, d[k]))
      else [MakeEntry(p, k, d[k])] + ParseTo(d, k + 1, a, Nothing)
  {}

  lemma Prepend(x: Entry, a: seq<Entry>, b: seq<Entry>)
    ensures [x] + (a + b) == [x] + a + b
  {}

  lemma Narrow(d: seq<Slot>, e: seq<Slot>, k: nat, a: nat, p: Pending, m: nat)
    requires k < a && Same(d, e, k, a) && NoEnd(d, k, a) && Count(p, m)
    ensures a <= |d| && a <= |e| && d[k] == e[k] && !IsEnd(d[k]) && Same(d, e, k + 1, a) && NoEnd(d, k + 1, a)
    ensures Count(AddLong(p, k, d[k]), m + 1) && Count(Nothing, 0) && (m == 0 ==> p == Nothing)
  {}

  /** Directories that agree up to a boundary slot share the entries before it. */
  lemma {:induction false} PrefixSame(d: seq<Slot>, e: seq<Slot>, k: nat, a: nat, p: Pending, m: nat)
    requires k <= a && Same(d, e, k, a) && NoEnd(d, k, a) && Grouped(d, k, m) && Boundary(d, a) && Count(p, m)
    ensures Parse(d, k, p) == ParseTo(d, k, a, p) + Parse(d, a, Nothing)
    ensures Parse(e, k, p) == ParseTo(d, k, a, p) + Parse(e, a, Nothing)
    ensures Grouped(d, a, 0) && (Grouped(e, a, 0) ==> Grouped(e, k, m))
    decreases a - k
  {
    hide Parse, ParseTo, Grouped, CStr, Units, MakeEntry, AddLong, Same, NoEnd, Count, Boundary, IsFree, IsLong, IsEnd;
    if k == a {
      PrefixNone(d, e, a, p, m);
    } else {
      Narrow(d, e, k, a, p, m);
      Step(d, k, p, m);
      Step(e, k, p, m);
      StepTo(d, k, a, p);
      if IsFree(d[k]) {
        PrefixSame(d, e, k + 1, a, p, m);
      } else if IsLong(d[k]) {
        PrefixSame(d, e, k + 1, a, AddLong(p, k, d[k]), m + 1);
      } else {
        PrefixSame(d, e, k + 1, a, Nothing, 0);
        Prepend(MakeEntry(p, k, d[k]), ParseTo(d, k + 1, a, Nothing), Parse(d, a, Nothing));
        Prepend(MakeEntry(p, k, d[k]), ParseTo(d, k + 1, a, Nothing), Parse(e, a, Nothing));
      }
    }
  }

  lemma PrefixNone(d: seq<Slot>, e: seq<Slot>, a: nat, p: Pending, m: nat)
    requires Same(d, e, a, a) && Grouped(d, a, m) && Boundary(d, a) && Count(p, m)
    ensures m == 0 && p == Nothing && ParseTo(d, a, a, p) == []
    ensures [] + Parse(d, a, Nothing) == Parse(d, a, Nothing) && [] + Parse(e, a, Nothing) == Parse(e, a, Nothing)
  {}

  /** Directories that agree from slot `k` on have the same entries there. */
  lemma {:induction false} SuffixSame(d: seq<Slot>, e: seq<Slot>, k: nat, p: Pending, m: nat)
    requires k <= |d| == |e| && Same(d, e, k, |d|)
    ensures Parse(d, k, p) == Parse(e, k, p) && Grouped(d, k, m) == Grouped(e, k, m)
    decreases |d| - k
  {
    hide Parse, Grouped, CStr, Units, MakeEntry, AddLong, Same, IsFree, IsLong, IsEnd;
    if k == |d| {
      NoSlots(d, p, m);
      NoSlots(e, p, m);
    } else {
      SameStep(d, e, k);
      Step(d, k, p, m);
      Step(e, k, p, m);
      if IsFree(d[k]) {
        SuffixSame(d, e, k + 1, p, 0);
      } else if IsLong(d[k]) {
        SuffixSame(d, e, k + 1, AddLong(p, k, d[k]), m + 1);
      } else {
        SuffixSame(d, e, k + 1, Nothing, 0);
      }
    }
  }

  lemma NoSlots(d: seq<Slot>, p: Pending, m: nat)
    ensures Parse(d, |d|, p) == [] && (Grouped(d, |d|, m) <==> m == 0)
  {}

  lemma SameStep(d: seq<Slot>, e: seq<Slot>, k: nat)
    requires k < |d| == |e| && Same(d, e, k, |d|)
    ensures d[k] == e[k] && Same(d, e, k + 1, |d|)
  {}

  lemma {:induction false} SkipFree(d: seq<Slot>, a: nat, b: nat)
    requires a <= b && AllFree(d, a, b)
    ensures Parse(d, a, Nothing) == Parse(d, b, Nothing) && Grouped(d, a, 0) == Grouped(d, b, 0)
    decreases b - a
  {
    if a < b {
      SkipFree(d, a + 1, b);
    }
  }
}
