/** The groups of directory slots that hold a long name, as move writes them and the reader decodes them. */
module LongNames {
  import opened Bytes
  import opened Directory

  function Lo(u: Unit): byte { u % 256 }

  function Hi(u: Unit): byte { u / 256 }

  /** Bytes 0..10, 11..25 and 26..31 of a long-name slot. */
  function Head(ordinal: byte, u: seq<Unit>): (r: seq<byte>)
    requires |u| == PARTIALCHARS
    ensures |r| == 11
  {
    [ordinal, Lo(u[0]), Hi(u[0]), Lo(u[1]), Hi(u[1]), Lo(u[2]), Hi(u[2]), Lo(u[3]), Hi(u[3]), Lo(u[4]), Hi(u[4])]
  }

  function Middle(chksum: byte, u: seq<Unit>): (r: seq<byte>)
    requires |u| == PARTIALCHARS
    ensures |r| == 15
  {
    [LONGNAME, 0, chksum, Lo(u[5]), Hi(u[5]), Lo(u[6]), Hi(u[6]), Lo(u[7]), Hi(u[7]), Lo(u[8]), Hi(u[8]),
     Lo(u[9]), Hi(u[9]), Lo(u[10]), Hi(u[10])]
  }

  function Tail(u: seq<Unit>): (r: seq<byte>)
    requires |u| == PARTIALCHARS
    ensures |r| == 6
  {
    [0, 0, Lo(u[11]), Hi(u[11]), Lo(u[12]), Hi(u[12])]
  }

  /** A long-name slot with 13 characters ("FAT Long Directory Entries" in the FAT specification). */
  function LongSlot(ordinal: byte, chksum: byte, u: seq<Unit>): Slot
    requires |u| == PARTIALCHARS
  {
    Head(ordinal, u) + Middle(chksum, u) + Tail(u)
  }

  lemma LongSlotUnits(ordinal: byte, chksum: byte, u: seq<Unit>)
    requires |u| == PARTIALCHARS && ordinal != 0 && ordinal != FREEDENTRY
    ensures Units(LongSlot(ordinal, chksum, u)) == u && IsLong(LongSlot(ordinal, chksum, u))
  {
    var s, h, m, t := LongSlot(ordinal, chksum, u), Head(ordinal, u), Middle(chksum, u), Tail(u);
    assert forall i :: 0 <= i < 11 ==> s[i] == h[i];
    assert forall i :: 11 <= i < 26 ==> s[i] == m[i - 11];
    assert forall i :: 26 <= i < 32 ==> s[i] == t[i - 26];
    assert U16(s, 1) == u[0] && U16(s, 3) == u[1] && U16(s, 5) == u[2] && U16(s, 7) == u[3] && U16(s, 9) == u[4];
    assert U16(s, 14) == u[5] && U16(s, 16) == u[6] && U16(s, 18) == u[7] && U16(s, 20) == u[8];
    assert U16(s, 22) == u[9] && U16(s, 24) == u[10] && U16(s, 28) == u[11] && U16(s, 30) == u[12];
  }

  /** Long-name slots needed for a name. */
  function GroupSize(len: nat): nat {
    (len + PARTIALCHARS - 1) / PARTIALCHARS
  }

  /** They hold the name, and none of them is empty. */
  lemma GroupHolds(len: nat)
    ensures len <= PARTIALCHARS * GroupSize(len) < len + PARTIALCHARS
  {}

  /** lfnBPos of the writer at slot `j` of a group of `g`; it reads lfn[lfnBPos..lfnBPos + 13]. */
  function WriterPos(g: nat, j: nat): int {
    (g - 1 - j) * PARTIALCHARS
  }

  /** The reader's index stays inside its buffer for names of up to 247 characters and no longer ones, and
      likewise the writer's. */
  lemma NameFits(len: nat)
    ensures (forall m :: 1 <= m <= GroupSize(len) ==> 0 <= ReaderPos(m)) <==> len <= 247
    ensures var g := GroupSize(len);
      (forall j :: 0 <= j < g ==> 0 <= WriterPos(g, j) && WriterPos(g, j) + PARTIALCHARS <= LFN_SIZE) <==> len <= 247
    ensures GroupSize(len) <= MAX_GROUP <==> len <= 247
  {
    var g := GroupSize(len);
    if g > MAX_GROUP {
      assert ReaderPos(g) < 0;
      assert WriterPos(g, 0) + PARTIALCHARS > LFN_SIZE;
    }
  }

  /** Slot `j` of a group of `g` carries its number counted from the end, the first one marked with 0x40. */
  function Ordinal(g: nat, j: nat): (o: byte)
    requires j < g <= MAX_GROUP
    ensures o != 0 && o != FREEDENTRY
  {
    if j == 0 then g + 0x40 else g - j
  }

  /** The name, filled up with zeros to whole slots. */
  function Padded(name: seq<Unit>, g: nat): (r: seq<Unit>)
    requires |name| <= PARTIALCHARS * g
    ensures |r| == PARTIALCHARS * g
  {
    name + seq<Unit>(PARTIALCHARS * g - |name|, _ => 0)
  }

  lemma PaddedName(name: seq<Unit>, g: nat)
    requires |name| <= PARTIALCHARS * g && 0 !in name
    ensures CStr(Padded(name, g)) == name
  {
    CStrIs(Padded(name, g), name);
  }

  function GroupSlot(name: seq<Unit>, g: nat, chksum: byte, j: nat): Slot
    requires |name| <= PARTIALCHARS * g && j < g <= MAX_GROUP
  {
    LongSlot(Ordinal(g, j), chksum, Padded(name, g)[PARTIALCHARS * (g - 1 - j)..PARTIALCHARS * (g - j)])
  }

  /** Where the two bytes of character `k` of a long-name slot are. */
  function UnitPos(k: nat): nat {
    if k < 5 then 1 + 2 * k else if k < 11 then 14 + 2 * (k - 5) else 28 + 2 * (k - 11)
  }

  /** The bytes of a long-name slot: its number, the attribute, type and checksum, the two of the cluster field, and
      the characters, low byte first. */
  lemma LongSlotBytes(ordinal: byte, chksum: byte, u: seq<Unit>, k: nat)
    requires |u| == PARTIALCHARS && k < PARTIALCHARS
    ensures var s := LongSlot(ordinal, chksum, u);
      && s[0] == ordinal && s[11] == 0x0F && s[12] == 0 && s[13] == chksum && s[26] == s[27] == 0
      && s[UnitPos(k)] + 256 * s[UnitPos(k) + 1] as int == u[k]
  {
    hide Lo, Hi;
    var s, h, m, t := LongSlot(ordinal, chksum, u), Head(ordinal, u), Middle(chksum, u), Tail(u);
    assert forall i :: 0 <= i < 11 ==> s[i] == h[i];
    assert forall i :: 11 <= i < 26 ==> s[i] == m[i - 11];
    assert forall i :: 26 <= i < 32 ==> s[i] == t[i - 26];
    assert s[UnitPos(k)] == Lo(u[k]) && s[UnitPos(k) + 1] == Hi(u[k]);
    LoHi(u[k]);
  }

  lemma LoHi(u: Unit)
    ensures Lo(u) + 256 * Hi(u) as int == u
  {}

  /** Slot `j` of the group of a name: its number counted from the end, with the mark 0x40 on the first slot alone,
      and the characters of that part of the name; behind the end of the name there are zeros. */
  lemma GroupSlotBytes(name: seq<Unit>, g: nat, chksum: byte, j: nat, k: nat)
    requires |name| <= PARTIALCHARS * g && j < g <= MAX_GROUP && k < PARTIALCHARS
    ensures var s, x := GroupSlot(name, g, chksum, j), PARTIALCHARS * (g - 1 - j) + k;
      && s[0] as int == (g - j) + (if j == 0 then 0x40 else 0) && s[11] == 0x0F && s[13] == chksum
      && s[UnitPos(k)] + 256 * s[UnitPos(k) + 1] as int == if x < |name| then name[x] else 0
  {
    hide LongSlot;
    var u := Padded(name, g)[PARTIALCHARS * (g - 1 - j)..PARTIALCHARS * (g - j)];
    LongSlotBytes(Ordinal(g, j), chksum, u, k);
    assert u[k] == Padded(name, g)[PARTIALCHARS * (g - 1 - j) + k];
  }

  /** The slots from `a` on hold the first `j` slots of the name's group. */
  ghost predicate HasGroup(d: seq<Slot>, a: nat, name: seq<Unit>, g: nat, chksum: byte, j: nat) {
    && |name| <= PARTIALCHARS * g && j <= g <= MAX_GROUP && a + j <= |d|
    && forall x :: 0 <= x < j ==> d[a + x] == GroupSlot(name, g, chksum, x)
  }

  function Read(name: seq<Unit>, g: nat, a: nat, j: nat): Pending
    requires |name| <= PARTIALCHARS * g && j <= g
  {
    if j == 0 then Nothing else Some(a, Padded(name, g)[PARTIALCHARS * (g - j)..])
  }

  lemma Parts(p: seq<Unit>, g: nat, j: nat)
    requires |p| == PARTIALCHARS * g && 0 < j <= g
    ensures p[PARTIALCHARS * (g - j)..PARTIALCHARS * (g - j + 1)] + p[PARTIALCHARS * (g - j + 1)..] ==
      p[PARTIALCHARS * (g - j)..]
    ensures j == 1 ==> p[PARTIALCHARS * (g - j)..PARTIALCHARS * (g - j + 1)] == p[PARTIALCHARS * (g - j)..]
  {}

  /** Reading `j` slots of the group, last part of the name first. */
  lemma {:induction false} ReadPart(d: seq<Slot>, a: nat, name: seq<Unit>, g: nat, chksum: byte, j: nat)
    requires HasGroup(d, a, name, g, chksum, j)
    ensures Parse(d, a, Nothing) == Parse(d, a + j, Read(name, g, a, j))
    ensures Grouped(d, a, 0) == Grouped(d, a + j, j)
  {
    hide GroupSlot;
    if j > 0 {
      hide Parse, Grouped, AddLong, Read, HasGroup, IsLong;
      GroupFront(d, a, name, g, chksum, j);
      ReadPart(d, a, name, g, chksum, j - 1);
      var x := a + (j - 1);
      ReadNext(name, g, chksum, a, j);
      Step(d, x, Read(name, g, a, j - 1), j - 1);
    }
  }

  lemma GroupFront(d: seq<Slot>, a: nat, name: seq<Unit>, g: nat, chksum: byte, j: nat)
    requires HasGroup(d, a, name, g, chksum, j)
    ensures |name| <= PARTIALCHARS * g && j <= g <= MAX_GROUP && a + j <= |d|
    ensures j > 0 ==> HasGroup(d, a, name, g, chksum, j - 1) && d[a + (j - 1)] == GroupSlot(name, g, chksum, j - 1)
  {}

  lemma ReadNext(name: seq<Unit>, g: nat, chksum: byte, a: nat, j: nat)
    requires |name| <= PARTIALCHARS * g && 0 < j <= g <= MAX_GROUP
    ensures var s := GroupSlot(name, g, chksum, j - 1);
      IsLong(s) && AddLong(Read(name, g, a, j - 1), a + (j - 1), s) == Read(name, g, a, j)
  {
    hide Units, LongSlot, Padded, Ordinal;
    var p := Padded(name, g);
    LongSlotUnits(Ordinal(g, j - 1), chksum, p[PARTIALCHARS * (g - j)..PARTIALCHARS * (g - j + 1)]);
    Parts(p, g, j);
  }

  /** The reader gets back the name that was written, from the first slot of the group to the 8.3 slot. */
  lemma GroupReads(d: seq<Slot>, a: nat, name: seq<Unit>, g: nat, chksum: byte)
    requires HasGroup(d, a, name, g, chksum, g) && 0 !in name
    requires a + g < |d| && IsShort(d[a + g])
    ensures Parse(d, a, Nothing) == [Entry(a, a + g, name, d[a + g])] + Parse(d, a + g + 1, Nothing)
    ensures Grouped(d, a, 0) == Grouped(d, a + g + 1, 0)
  {
    ReadPart(d, a, name, g, chksum, g);
    PaddedName(name, g);
    assert Padded(name, g)[0..] == Padded(name, g);
    if g == 0 {
      assert name == [];
    }
  }
}
