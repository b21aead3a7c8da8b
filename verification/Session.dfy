/** Whole sessions on an open file: any sequence of seeks and reads behaves as if there were only a
    position and the file's bytes, as long as each read finds the cursor where the position says. */
module Session {
  import opened Bytes
  import opened Geometry
  import opened FatEntries
  import opened FatWindow
  import opened Volume
  import opened Chains
  import opened FileLoad
  import opened Cursor

  datatype Op = SeekOp(offset: int, whence: Whence) | ReadOp(bytes: nat)

  /** The file as its reader sees it. */
  datatype File = File(content: seq<seq<byte>>, size: nat, ch: seq<nat>, fileSize: nat)

  /** Whether a read is refused: at the end of the file, or because the buffer of `room` bytes is too small. */
  predicate Refused(f: File, room: nat, pos: nat, bytes: nat)
    requires f.size > 0
  {
    pos >= f.fileSize || BytAl(f.size, Rem(pos, f.size), bytes) > room
  }

  /** The bytes a read gets: all it asks for if the file's clusters hold them, otherwise those up to fileSize. */
  function Got(f: File, room: nat, pos: nat, bytes: nat): (n: nat)
    requires f.size > 0
  {
    if Refused(f, room, pos, bytes) then 0
    else if pos + bytes <= |f.ch| * f.size then bytes
    else f.fileSize - pos
  }

  function NextPos(f: File, room: nat, pos: nat, op: Op): nat
    requires f.size > 0
  {
    match op
    case SeekOp(offset, whence) => Target(whence, pos, f.fileSize, offset)
    case ReadOp(bytes) => pos + Got(f, room, pos, bytes)
  }

  /** What an operation delivers: the file's bytes at the position, nothing for a seek. */
  function Output(f: File, room: nat, pos: nat, op: Op): seq<byte>
    requires f.size > 0
  {
    match op
    case SeekOp(_, _) => []
    case ReadOp(bytes) => FileBytes(f.content, f.size, f.ch, pos, Got(f, room, pos, bytes))
  }

  /** Where the cursor is: the index of its cluster in the file's chain, and its offset there. */
  datatype Spot = Spot(place: nat, off: nat)

  /** Where the cursor belongs. */
  predicate Right(f: File, pos: nat, c: Spot)
    requires f.size > 0
  {
    c == Spot(Div(pos, f.size), Rem(pos, f.size))
  }

  /** Where an operation leaves the cursor. */
  function NextSpot(f: File, room: nat, pos: nat, c: Spot, op: Op): Spot
    requires f.size > 0 && pos < TWO32
  {
    match op
    case SeekOp(offset, whence) =>
      var to := Target(whence, pos, f.fileSize, offset);
      if whence == SeekOther then c else Spot(SeekPlace(f.ch, f.size, c.place, pos, to), Rem(to, f.size))
    case ReadOp(bytes) =>
      var to, all := pos + Got(f, room, pos, bytes), pos + bytes <= |f.ch| * f.size;
      if Refused(f, room, pos, bytes) then c
      else
        Spot(if all && Div(to, f.size) < |f.ch| then Div(to, f.size) else LastPlace(f.ch, Div(pos, f.size), CLIST_SIZE),
             if all && Rem(to, f.size) != 0 then Rem(to, f.size) else c.off)
  }

  /** What the code needs of an operation: a seek is always possible, and a read before the end of the file
      has to find the cursor where it belongs. */
  predicate Allowed(f: File, room: nat, pos: nat, c: Spot, op: Op)
    requires f.size > 0
  {
    match op
    case SeekOp(offset, whence) => -0x8000_0000 <= offset < 0x8000_0000
    case ReadOp(bytes) => bytes < TWO32 && (pos < f.fileSize ==>
      Right(f, pos, c) && (Refused(f, room, pos, bytes) || NoWrap(f.size, pos, Rem(pos, f.size), bytes)))
  }

  function Outputs(f: File, room: nat, pos: nat, ops: seq<Op>): seq<seq<byte>>
    requires f.size > 0
    decreases |ops|
  {
    if ops == [] then []
    else [Output(f, room, pos, ops[0])] + Outputs(f, room, NextPos(f, room, pos, ops[0]), ops[1..])
  }

  function FinalPos(f: File, room: nat, pos: nat, ops: seq<Op>): nat
    requires f.size > 0
    decreases |ops|
  {
    if ops == [] then pos else FinalPos(f, room, NextPos(f, room, pos, ops[0]), ops[1..])
  }

  /** Every operation of a session is allowed where it comes. */
  predicate AllAllowed(f: File, room: nat, pos: nat, c: Spot, ops: seq<Op>)
    requires f.size > 0
    decreases |ops|
  {
    ops == []
    || (pos < TWO32 && Allowed(f, room, pos, c, ops[0])
        && AllAllowed(f, room, NextPos(f, room, pos, ops[0]), NextSpot(f, room, pos, c, ops[0]), ops[1..]))
  }

  /** Where a session leaves the cursor. */
  function FinalSpot(f: File, room: nat, pos: nat, c: Spot, ops: seq<Op>): Spot
    requires f.size > 0
    decreases |ops|
  {
    if ops == [] || pos >= TWO32 then c
    else FinalSpot(f, room, NextPos(f, room, pos, ops[0]), NextSpot(f, room, pos, c, ops[0]), ops[1..])
  }

  ghost function FileOf(fat: Fat, file: OpenFile, ch: seq<nat>): File
    requires OnDevice(fat.dev, fat.geo)
    reads fat.dev, file.fInfo
  {
    File(Content(fat), fat.geo.ClusSize(), ch, file.fInfo.fileSize)
  }

  ghost predicate Placed(f: File, firstClus: nat, now: Pos, c: Spot) {
    && firstClus == FirstOf(f.ch) && now.fPos < TWO32 && f.fileSize <= |f.ch| * f.size
    && EntersAt(firstClus, now.fromClus, f.ch, c.place) && now.off == c.off
  }

  /** The file `f` is open with its cursor at `c`, and its clusters can be transferred. */
  ghost predicate Usable(fat: Fat, file: OpenFile, f: File, c: Spot)
    reads fat, fat.dev, fat.FBuf, file, file.fInfo
    ensures Usable(fat, file, f, c) ==> Ready(fat) && f.size > 0 && f == FileOf(fat, file, f.ch) && file.fPos < TWO32
  {
    && Ready(fat) && fat.links != [] && fat.links[0] == End && IsChain(fat.links, fat.geo.ClusLimit(), f.ch)
    && f == FileOf(fat, file, f.ch) && f.size > 0
    && AllServed(fat.dev, fat.geo, f.ch) && file.used && Placed(f, file.fInfo.firstClus, PosOf(file), c)
  }

  method DoSeek(fat: Fat, file: OpenFile, offset: int, whence: Whence, ghost room: nat, ghost f: File, ghost c: Spot)
    requires Usable(fat, file, f, c) && Allowed(f, room, file.fPos, c, SeekOp(offset, whence))
    modifies fat`curFatStartEntry, fat`curFatEndEntry, fat`curFatPartStartSecAbs, fat`curFatEndSecAbs,
      fat`fatUpdated, fat.dev, fat.FBuf, file`fPos, file`fromClus, file`offInFromClus
    ensures Usable(fat, file, f, NextSpot(f, room, old(file.fPos), c, SeekOp(offset, whence)))
    ensures file.fPos == Target(whence, old(file.fPos), f.fileSize, offset)
  {
    hide Ready, Content, OnDevice, IsChain, CursorOk, Rem, Div, AllServed, Geo.ClusSize, OnChain, OldIndex, Landing,
      EntersAt, SeekPlace, Moved;
    var st := Seek(fat, file, offset, whence, f.ch);
    if whence == SeekOther {
      U32Small(file.fPos);
    }
  }

  method DoRead(fat: Fat, file: OpenFile, buf: array<byte>, bufLen: nat, bytes: nat, ghost f: File, ghost c: Spot)
    returns (out: seq<byte>)
    requires Usable(fat, file, f, c) && buf != fat.FBuf && bufLen <= buf.Length
    requires Allowed(f, bufLen, file.fPos, c, ReadOp(bytes))
    modifies fat`curFatStartEntry, fat`curFatEndEntry, fat`curFatPartStartSecAbs, fat`curFatEndSecAbs,
      fat`fatUpdated, fat.dev, fat.FBuf, buf, file`fPos, file`fromClus, file`offInFromClus
    ensures Usable(fat, file, f, NextSpot(f, bufLen, old(file.fPos), c, ReadOp(bytes)))
    ensures file.fPos == NextPos(f, bufLen, old(file.fPos), ReadOp(bytes))
    ensures out == Output(f, bufLen, old(file.fPos), ReadOp(bytes))
  {
    hide Ready, Content, OnDevice, IsChain, CursorOk, Rem, Div, AllServed, Geo.ClusSize, BytAl, FileBytes, Interrupted,
      Delivered, NoWrap, ResumeAt, EntersAt, LastPlace;
    ghost var was, ch, links, lim := PosOf(file), f.ch, fat.links, fat.geo.ClusLimit();
    if file.fPos < file.fInfo.fileSize {
      InsideFile(file.fPos, file.fInfo.fileSize, |ch|, f.size);
      CursorIs(file.fInfo.firstClus, file.fPos, file.fromClus, file.offInFromClus, ch, f.size);
    }
    out := [];
    var st, at, n := Read(fat, file, buf, bufLen, bytes, ch);
    if !Refused(f, bufLen, was.fPos, bytes) {
      ReadLeaves(links, lim, f, file.fInfo.firstClus, bufLen, bytes, was, c, st, buf[..], at, n, PosOf(file));
    }
    if st == Ok {
      out := buf[at..at + n];
    }
  }

  /** What a read from the right place has delivered, and where it leaves the cursor. */
  lemma ReadLeaves(links: seq<Link>, lim: nat, f: File, firstClus: nat, room: nat, bytes: nat, was: Pos, c: Spot,
                   st: Status, buf: seq<byte>, at: nat, n: nat, now: Pos)
    requires f.size > 0 && IsChain(links, lim, f.ch) && Placed(f, firstClus, was, c) && Right(f, was.fPos, c)
    requires !Refused(f, room, was.fPos, bytes) && NoWrap(f.size, was.fPos, was.off, bytes)
    requires Div(was.fPos, f.size) < |f.ch|
    requires Delivered(f.content, f.size, f.ch, firstClus, f.fileSize, bytes, was.fPos, was.off,
                       ResumeAt(f.ch, Div(was.fPos, f.size), was.fromClus), st, buf, at, n, now)
    ensures st == Ok && n == Got(f, room, was.fPos, bytes) && now.fPos == was.fPos + n
    ensures at + n <= |buf| && buf[at..at + n] == Output(f, room, was.fPos, ReadOp(bytes))
    ensures Placed(f, firstClus, now, NextSpot(f, room, was.fPos, c, ReadOp(bytes)))
  {
    hide Rem, Div, CursorOk, FileBytes, EntersAt, LastPlace, Runs, LastStart, BytAl, IsChain;
    var index := Div(was.fPos, f.size);
    LastEnters(links, lim, firstClus, was.fromClus, f.ch, index, CLIST_SIZE);
    CursorIs(firstClus, now.fPos, now.fromClus, Rem(now.fPos, f.size), f.ch, f.size);
  }

  /** One operation. */
  method Do(fat: Fat, file: OpenFile, buf: array<byte>, bufLen: nat, op: Op, ghost f: File, ghost c: Spot)
    returns (out: seq<byte>)
    requires Usable(fat, file, f, c) && buf != fat.FBuf && bufLen <= buf.Length
    requires Allowed(f, bufLen, file.fPos, c, op)
    modifies fat`curFatStartEntry, fat`curFatEndEntry, fat`curFatPartStartSecAbs, fat`curFatEndSecAbs,
      fat`fatUpdated, fat.dev, fat.FBuf, buf, file`fPos, file`fromClus, file`offInFromClus
    ensures Usable(fat, file, f, NextSpot(f, bufLen, old(file.fPos), c, op))
    ensures file.fPos == NextPos(f, bufLen, old(file.fPos), op) && out == Output(f, bufLen, old(file.fPos), op)
  {
    hide Usable, Allowed, Rem, Div, FileBytes, SeekPlace, LastPlace, Refused;
    out := [];
    match op {
      case SeekOp(offset, whence) => DoSeek(fat, file, offset, whence, bufLen, f, c);
      case ReadOp(bytes) => out := DoRead(fat, file, buf, bufLen, bytes, f, c);
    }
  }

  /** A session of any length delivers what the position-only view of the file says. */
  method Run(fat: Fat, file: OpenFile, buf: array<byte>, bufLen: nat, ops: seq<Op>, ghost f: File, ghost c0: Spot)
    returns (outs: seq<seq<byte>>)
    requires Usable(fat, file, f, c0) && buf != fat.FBuf && bufLen <= buf.Length
    requires AllAllowed(f, bufLen, file.fPos, c0, ops)
    modifies fat`curFatStartEntry, fat`curFatEndEntry, fat`curFatPartStartSecAbs, fat`curFatEndSecAbs,
      fat`fatUpdated, fat.dev, fat.FBuf, buf, file`fPos, file`fromClus, file`offInFromClus
    ensures Usable(fat, file, f, FinalSpot(f, bufLen, old(file.fPos), c0, ops))
    ensures outs == Outputs(f, bufLen, old(file.fPos), ops) && file.fPos == FinalPos(f, bufLen, old(file.fPos), ops)
  {
    hide Usable, Allowed, Output, NextPos, NextSpot;
    outs := [];
    ghost var c := c0;
    var i := 0;
    while i < |ops|
      invariant 0 <= i <= |ops| && Usable(fat, file, f, c)
      invariant AllAllowed(f, bufLen, file.fPos, c, ops[i..])
      invariant outs + Outputs(f, bufLen, file.fPos, ops[i..]) == Outputs(f, bufLen, old(file.fPos), ops)
      invariant FinalPos(f, bufLen, file.fPos, ops[i..]) == FinalPos(f, bufLen, old(file.fPos), ops)
      invariant FinalSpot(f, bufLen, file.fPos, c, ops[i..]) == FinalSpot(f, bufLen, old(file.fPos), c0, ops)
    {
      assert ops[i..][1..] == ops[i + 1..];
      ghost var next := NextSpot(f, bufLen, file.fPos, c, ops[i]);
      var out := Do(fat, file, buf, bufLen, ops[i], f, c);
      c := next;
      outs := outs + [out];
      i := i + 1;
    }
    assert outs + [] == outs;
  }

  /** After an operation the cursor belongs where it is. From a position below 2 GiB a seek into the file's
      clusters sees to that whatever the offset was, also if the cursor is on any cluster while the position is
      behind them all. A read that gets all its bytes does unless it starts inside a cluster and ends where
      another one starts. */
  lemma StaysRight(f: File, room: nat, pos: nat, c: Spot, op: Op)
    requires f.size > 0 && pos < 0x8000_0000 && (Div(pos, f.size) < |f.ch| ==> c.place == Div(pos, f.size))
    requires Div(NextPos(f, room, pos, op), f.size) < |f.ch|
    ensures op.SeekOp? && op.whence != SeekOther ==> Right(f, NextPos(f, room, pos, op), NextSpot(f, room, pos, c, op))
    ensures var to := NextPos(f, room, pos, op);
      op.ReadOp? && !Refused(f, room, pos, op.bytes) && Right(f, pos, c) && pos + op.bytes <= |f.ch| * f.size ==>
        (Right(f, to, NextSpot(f, room, pos, c, op)) <==> Rem(to, f.size) != 0 || Rem(pos, f.size) == 0)
  {
    hide Div, Rem, OldIndex, LastPlace, Refused;
    OldIndexIs(pos, f.size);
  }

  /** From below 2 GiB, with the cursor on the cluster of the position: a read after a seek to `x` is allowed and
      delivers the bytes of the file from `x` on, and the position ends behind them. What a read asks for behind
      the file's clusters is not delivered. */
  lemma SeekThenRead(f: File, room: nat, pos: nat, c: Spot, x: nat, n: nat)
    requires f.size > 0 && pos < 0x8000_0000 && (Div(pos, f.size) < |f.ch| ==> c.place == Div(pos, f.size))
    requires x < f.fileSize <= |f.ch| * f.size && x < 0x8000_0000 && n < TWO32 && NoWrap(f.size, x, Rem(x, f.size), n)
    requires BytAl(f.size, Rem(x, f.size), n) <= room
    ensures var ops := [SeekOp(x, SeekSet), ReadOp(n)]; var m := if x + n <= |f.ch| * f.size then n else f.fileSize - x;
      && AllAllowed(f, room, pos, c, ops)
      && Outputs(f, room, pos, ops) == [[], FileBytes(f.content, f.size, f.ch, x, m)]
      && FinalPos(f, room, pos, ops) == x + m
  {
    hide Div, Rem, FileBytes, BytAl, NoWrap, NextSpot, Outputs, AllAllowed, FinalPos;
    var seek, read := SeekOp(x, SeekSet), ReadOp(n);
    TargetIs(SeekSet, pos, f.fileSize, x);
    InsideFile(x, f.fileSize, |f.ch|, f.size);
    StaysRight(f, room, pos, c, seek);
    TwoOps(f, room, pos, c, seek, read);
  }

  lemma TwoOps(f: File, room: nat, pos: nat, c: Spot, a: Op, b: Op)
    requires f.size > 0 && pos < TWO32 && NextPos(f, room, pos, a) < TWO32
    ensures var to := NextPos(f, room, pos, a);
      && (AllAllowed(f, room, pos, c, [a, b]) <==>
            Allowed(f, room, pos, c, a) && Allowed(f, room, to, NextSpot(f, room, pos, c, a), b))
      && Outputs(f, room, pos, [a, b]) == [Output(f, room, pos, a), Output(f, room, to, b)]
      && FinalPos(f, room, pos, [a, b]) == NextPos(f, room, to, b)
  {
    hide NextSpot, NextPos, Output, Allowed;
    var to := NextPos(f, room, pos, a);
    OneOp(f, room, to, NextSpot(f, room, pos, c, a), b);
    assert [a, b][1..] == [b];
  }

  lemma OneOp(f: File, room: nat, pos: nat, c: Spot, a: Op)
    requires f.size > 0 && pos < TWO32
    ensures AllAllowed(f, room, pos, c, [a]) <==> Allowed(f, room, pos, c, a)
    ensures Outputs(f, room, pos, [a]) == [Output(f, room, pos, a)]
    ensures FinalPos(f, room, pos, [a]) == NextPos(f, room, pos, a)
  {
    hide NextSpot, NextPos, Output, Allowed;
    assert [a][1..] == [];
  }
}
