/** Any sequence of gets, sets and changes of the access pattern on the partly mapped FAT, compared with
    the build that keeps the whole FAT in memory. */
module FatRuns {
  import opened Bytes
  import opened Geometry
  import opened BlockDevice
  import opened FatEntries
  import opened FatWindow

  datatype FatOp = Get(i: nat) | Set(i: nat, v: nat) | Pattern(p: AccessPattern)

  datatype Answer = Answer(st: Status, v: nat) | Done

  /** What the fully mapped build does to its in-memory FAT. */
  function PlainAfter(g: Geo, image: seq<byte>, op: FatOp): (r: seq<byte>)
    ensures |r| == |image|
  {
    if op.Set? && op.i <= g.MaxFatEntry() && op.i * g.EntryBytes() + g.EntryBytes() <= |image| then
      Splice(image, op.i * g.EntryBytes(), ToLe(Encode(g.kind, op.v), g.EntryBytes()))
    else
      image
  }

  /** What it answers. */
  function PlainAnswer(g: Geo, image: seq<byte>, op: FatOp): Answer {
    match op
    case Get(i) =>
      var l := if i <= g.MaxFatEntry() then LinkAt(g.kind, image, g.EntryBytes(), i) else Outside;
      Answer(StatusOf(l), if l.Next? then l.clus else 0)
    case Set(i, _) => Answer(if i <= g.MaxFatEntry() then Ok else Invalid, 0)
    case Pattern(_) => Done
  }

  /** What a get answers follows from the bytes of the entry. */
  lemma PlainSays(g: Geo, image: seq<byte>, i: nat)
    requires g.Valid() && |image| == g.FatBytes()
    ensures var a := PlainAnswer(g, image, Get(i));
      if i <= g.MaxFatEntry() then EntrySays(g.kind, image, i, a.st, a.v) else a.st == Invalid
  {
    hide EntrySays, Decode, Le, Chunk;
    if i <= g.MaxFatEntry() {
      EntryFits(g, i);
      EntryMeans(g.kind, image, g.EntryBytes(), i);
    }
  }

  /** A get after a set answers what was meant if it is about the same entry, and as before if it is not. */
  lemma SetThenGet(g: Geo, image: seq<byte>, i: nat, j: nat, v: nat)
    requires g.Valid() && |image| == g.FatBytes() && i <= g.MaxFatEntry()
    requires v in {0, FATFS_EOF, FATFS_BADCLUSTER} || v < if g.kind == Fat16 then 0xFFF7 else FATFS_BADCLUSTER
    ensures var after := PlainAfter(g, image, Set(i, v)); var l := Meaning(v);
      PlainAnswer(g, after, Get(j)) ==
        if i == j then Answer(StatusOf(l), if l.Next? then l.clus else 0) else PlainAnswer(g, image, Get(j))
  {
    hide Decode, Encode, Le, Chunk, Splice, ToLe, Meaning, Pow256;
    var w := g.EntryBytes();
    EntryFits(g, i);
    PowTwoAndFour();
    if j <= g.MaxFatEntry() {
      EntryFits(g, j);
      DecodeEncode(g.kind, v);
      EntryAfter(image, w, i, Encode(g.kind, v), j);
    }
  }

  lemma EntryFits(g: Geo, i: nat)
    requires g.Valid() && i <= g.MaxFatEntry()
    ensures i * g.EntryBytes() + g.EntryBytes() == (i + 1) * g.EntryBytes() <= g.FatBytes()
  {
    hide Div, Geo.FatBytes;
    MulSum(i, 1, g.EntryBytes());
    MulLe(i + 1, Div(g.FatBytes(), g.EntryBytes()), g.EntryBytes());
  }

  function PlainImage(g: Geo, image: seq<byte>, ops: seq<FatOp>): (r: seq<byte>)
    decreases |ops|
  {
    if ops == [] then image else PlainImage(g, PlainAfter(g, image, ops[0]), ops[1..])
  }

  function PlainAnswers(g: Geo, image: seq<byte>, ops: seq<FatOp>): seq<Answer>
    decreases |ops|
  {
    if ops == [] then [] else [PlainAnswer(g, image, ops[0])] + PlainAnswers(g, PlainAfter(g, image, ops[0]), ops[1..])
  }

  /** One operation through the window. */
  method Do(fat: Fat, op: FatOp) returns (a: Answer)
    requires fat.Coherent() && fat.HealthyFat()
    modifies fat, fat.dev, fat.FBuf
    ensures fat.Coherent() && fat.Outside() == old(fat.Outside())
    ensures a == PlainAnswer(fat.geo, old(fat.image), op) && fat.image == PlainAfter(fat.geo, old(fat.image), op)
  {
    hide IsTable, Splice, Le, ToLe, Encode, Decode, Geo.MaxFatEntry, Geo.Valid, Fat.Backed, Fat.HealthyFat,
      Geo.EntryBytes, FatSlice, LinkAt, FatLo, Geo.FatBytes;
    match op {
      case Get(i) =>
        LinkIs(fat, i);
        var st, v := fat.GetEntry(i);
        a := Answer(st, if st == Ok then v else 0);
      case Set(i, v) =>
        var st := fat.SetEntry(i, v);
        a := Answer(st, 0);
      case Pattern(p) =>
        SetPattern(fat, p);
        a := Done;
    }
  }

  /** fat->accessPattern = p */
  method SetPattern(fat: Fat, p: AccessPattern)
    requires fat.Coherent()
    modifies fat`accessPattern
    ensures fat.Coherent() && fat.accessPattern == p
  {
    hide IsTable, Splice, FatSlice, Geo.Valid, Geo.SecBytes, Geo.SecEntries, Geo.MaxFatEntry;
    fat.accessPattern := p;
  }

  lemma LinkIs(fat: Fat, i: nat)
    requires fat.Static()
    ensures Look(fat.links, i) ==
      if i <= fat.geo.MaxFatEntry() then LinkAt(fat.geo.kind, fat.image, fat.geo.EntryBytes(), i) else Outside
  {
    hide LinkAt;
  }

  /** fatfs_loadfat(bd, fat, 0) at mount time. */
  method Mount(dev: Device, g: Geo, winSecs: nat) returns (fat: Fat)
    requires OnDevice(dev, g) && 2 <= winSecs && g.SecEntries(winSecs) < 0x4000_0000
    requires dev.Serves(g.FatStart(), g.fatSz + winSecs - 1)
    modifies dev
    ensures fresh(fat) && fresh(fat.FBuf) && fat.dev == dev && fat.geo == g && fat.Coherent() && fat.HealthyFat()
    ensures OnDevice(dev, g) && fat.image == old(FatSlice(dev, g)) && fat.Outside() == old(OutsideOf(dev, g))
  {
    hide IsTable, Splice, Geo.Valid, FatSlice, Device.Serves, Fat.Backed, Geo.MaxFatEntry, Geo.SecEntries, OutsideOf;
    fat := new Fat(dev, g, winSecs);
    EntryZero(g);
    OutsideIs(fat);
    var st := fat.LoadFat(0);
  }

  lemma EntryZero(g: Geo)
    requires g.Valid()
    ensures 0 <= g.MaxFatEntry()
  {}

  lemma OutsideIs(fat: Fat)
    requires OnDevice(fat.dev, fat.geo)
    ensures fat.Outside() == OutsideOf(fat.dev, fat.geo)
  {}

  /** Everything on the device but the active FAT. */
  ghost function OutsideOf(dev: Device, g: Geo): (seq<byte>, seq<byte>)
    requires OnDevice(dev, g)
    reads dev
  {
    FatInVolume(dev, g);
    (dev.bytes[..FatLo(g)], dev.bytes[FatLo(g) + g.FatBytes()..])
  }

  /** Any sequence of operations. */
  method Run(fat: Fat, ops: seq<FatOp>) returns (answers: seq<Answer>)
    requires fat.Coherent() && fat.HealthyFat()
    modifies fat, fat.dev, fat.FBuf
    ensures fat.Coherent() && fat.Outside() == old(fat.Outside())
    ensures answers == PlainAnswers(fat.geo, old(fat.image), ops)
    ensures fat.image == PlainImage(fat.geo, old(fat.image), ops)
  {
    hide PlainAfter, PlainAnswer, Fat.HealthyFat, Fat.Backed, Fat.Mapped;
    CoherentOnDevice(fat);
    ghost var outside := fat.Outside();
    answers := [];
    var i := 0;
    while i < |ops|
      invariant 0 <= i <= |ops| && fat.Coherent() && fat.HealthyFat() && OnDevice(fat.dev, fat.geo)
      invariant fat.Outside() == outside
      invariant PlainImage(fat.geo, fat.image, ops[i..]) == PlainImage(fat.geo, old(fat.image), ops)
      invariant answers + PlainAnswers(fat.geo, fat.image, ops[i..]) == PlainAnswers(fat.geo, old(fat.image), ops)
    {
      assert ops[i..][1..] == ops[i + 1..];
      var a := Do(fat, ops[i]);
      CoherentOnDevice(fat);
      answers := answers + [a];
      i := i + 1;
    }
    assert answers + [] == answers;
  }

  lemma CoherentOnDevice(fat: Fat)
    requires fat.Coherent()
    ensures OnDevice(fat.dev, fat.geo)
  {}

  /** The FAT part of fatfs_cleanup. */
  method Cleanup(fat: Fat) returns (st: Status)
    requires fat.Coherent() && fat.HealthyFat()
    modifies fat, fat.dev
    ensures OnDevice(fat.dev, fat.geo) && fat.Outside() == old(fat.Outside())
    ensures st == Ok && FatSlice(fat.dev, fat.geo) == old(fat.image)
  {
    hide IsTable, Splice, Geo.Valid, FatSlice, Device.Serves, Geo.MaxFatEntry, Geo.SecEntries, Fat.Outside;
    st := fat.StoreFat();
  }

  /** Mounting, any operations, and clean-up: every answer is that of the fully mapped FAT, the FAT on the
      device ends up as the fully mapped one, and no other byte has changed. */
  method Session(dev: Device, g: Geo, winSecs: nat, ops: seq<FatOp>) returns (answers: seq<Answer>)
    requires OnDevice(dev, g) && 2 <= winSecs && g.SecEntries(winSecs) < 0x4000_0000
    requires dev.Serves(g.FatStart(), g.fatSz + winSecs - 1)
    modifies dev
    ensures OnDevice(dev, g)
    ensures answers == PlainAnswers(g, old(FatSlice(dev, g)), ops)
    ensures FatSlice(dev, g) == PlainImage(g, old(FatSlice(dev, g)), ops)
    ensures OutsideOf(dev, g) == old(OutsideOf(dev, g))
  {
    hide Fat.Coherent, Fat.HealthyFat, Device.Serves, PlainAfter, PlainAnswer, OnDevice, Fat.Outside, OutsideOf,
      FatSlice;
    var fat := Mount(dev, g, winSecs);
    CoherentOnDevice(fat);
    answers := Run(fat, ops);
    CoherentOnDevice(fat);
    var _ := Cleanup(fat);
    OutsideIs(fat);
  }
}
