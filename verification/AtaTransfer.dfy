/** The multi-sector transfer loops of bdh8b16.c, against a model of the drive's command registers. */
module AtaTransfer {
  import opened Bytes

  const SECCNT_MAX: nat := 256
  const ERRREPCNT: nat := 6
  const SEC_WORDS: nat := 256
  const LBA24: nat := 0x100_0000

  type Word = x: int | 0 <= x < 0x10000

  datatype Result = Success | Failure

  /** A READ or WRITE MULTIPLE command: first sector, number of sectors, and whether the drive took it. */
  datatype Cmd = Cmd(lba: nat, n: nat, ok: bool)

  predicate AllGood(s: seq<bool>) {
    forall i :: 0 <= i < |s| ==> s[i]
  }

  /** The next status check, and those behind it; all that are not given turn out well. */
  predicate Head(s: seq<bool>) {
    s == [] || s[0]
  }

  function Behind(s: seq<bool>): seq<bool> {
    if s == [] then [] else s[1..]
  }

  /** `k` checks in a row, up to the first that fails. */
  function Pass(s: seq<bool>, k: nat): (bool, seq<bool>) {
    if k == 0 then (true, s)
    else if Head(s) then Pass(Behind(s), k - 1)
    else (false, Behind(s))
  }

  lemma {:induction false} PassMore(s: seq<bool>, j: nat, k: nat)
    ensures Pass(s, j + k) == if Pass(s, j).0 then Pass(Pass(s, j).1, k) else Pass(s, j)
  {
    if j > 0 && Head(s) {
      PassMore(Behind(s), j - 1, k);
    }
  }

  /** What the checks of bdh8b16_readyforcmd come to: whether the drive gets ready, whether it is reset on the
      way, and whether the device register is written. */
  datatype Readied = Readied(ok: bool, reset: bool, written: bool, rest: seq<bool>)

  function ReadyAfter(s: seq<bool>): Readied {
    if Head(s) then var (ok, rest) := Pass(Behind(s), 2); Readied(ok, false, true, rest)
    else if Head(Behind(s)) then var (ok, rest) := Pass(Behind(Behind(s)), 2); Readied(ok, true, true, rest)
    else Readied(false, true, false, Behind(Behind(s)))
  }

  /** Bitwise or of the low `n` bits of two numbers. */
  function Or(a: nat, b: nat, n: nat): (r: nat)
    ensures a == b == 0 ==> r == 0
  {
    if n == 0 then 0 else (if a % 2 == 1 || b % 2 == 1 then 1 else 0) + 2 * Or(a / 2, b / 2, n - 1)
  }

  /** Bitwise or of two four-bit values. */
  function Or4(a: nat, b: nat): (r: nat)
    ensures r < 16 && (a == b == 0 ==> r == 0)
  {
    OrBound(a, b, 4);
    Or(a, b, 4)
  }

  /** Bit `i` of a number. */
  function BitOf(a: nat, i: nat): nat
    decreases i
  {
    if i == 0 then a % 2 else BitOf(a / 2, i - 1)
  }

  /** It is set in the value if and only if it is set in one of the two. */
  lemma {:induction false} OrBit(a: nat, b: nat, n: nat, i: nat)
    requires i < n
    ensures BitOf(Or(a, b, n), i) == 1 <==> BitOf(a, i) == 1 || BitOf(b, i) == 1
    ensures n == 4 ==> Or4(a, b) == Or(a, b, n)
    decreases i
  {
    hide Or;
    OrStep(a, b, n);
    if i > 0 {
      OrBit(a / 2, b / 2, n - 1, i - 1);
    }
  }

  function Limit(n: nat): nat {
    if n == 0 then 1 else 2 * Limit(n - 1)
  }

  lemma {:induction false} OrBound(a: nat, b: nat, n: nat)
    ensures Or(a, b, n) < Limit(n) && Limit(4) == 16
  {
    if n > 0 {
      OrBound(a / 2, b / 2, n - 1);
    } else {
      assert Limit(2) == 4;
    }
  }

  function Address(lba0: nat, lba8: nat, lba16: nat, low: nat): nat {
    lba0 + 0x100 * lba8 + 0x1_0000 * lba16 + LBA24 * low
  }

  /** Where a command for sector `sec` is addressed when the device register holds the bits `low` of earlier
      commands: bdh8b16_devlba_set or-s the new high bits in. */
  function CmdAddress(low: nat, sec: nat): nat
    requires low < 16 && sec < 16 * LBA24
  {
    Address(sec % 0x100, sec / 0x100 % 0x100, sec / 0x1_0000 % 0x100, Or4(low, sec / LBA24))
  }

  /** No bit of `low` is foreign to the high bits of the sector. */
  predicate Clean(low: nat, sec: nat)
    requires low < 16 && sec < 16 * LBA24
  {
    Or4(low, sec / LBA24) == sec / LBA24
  }

  lemma AddressIff(low: nat, sec: nat)
    requires low < 16 && sec < 16 * LBA24
    ensures CmdAddress(low, sec) == sec <==> Clean(low, sec)
    ensures Or4(Or4(low, sec / LBA24), sec / LBA24) == Or4(low, sec / LBA24)
    ensures CmdAddress(Or4(low, sec / LBA24), sec) == CmdAddress(low, sec)
  {
    hide Or4;
    Digits(sec);
    OrTwice(low, sec / LBA24, sec / LBA24);
  }

  lemma Digits(sec: nat)
    ensures sec ==
      sec % 0x100 + 0x100 * (sec / 0x100 % 0x100) + 0x1_0000 * (sec / 0x1_0000 % 0x100) + LBA24 * (sec / LBA24)
  {
    assert sec / 0x1_0000 == sec / 0x100 / 0x100 && sec / LBA24 == sec / 0x1_0000 / 0x100;
  }

  /** What is contained in `c` when two values are or-ed. */
  lemma OrTwice(a: nat, b: nat, c: nat)
    requires c < 16
    ensures Or4(Or4(a, b), c) == c <==> Or4(a, c) == c && Or4(b, c) == c
    ensures b == c ==> Or4(Or4(a, b), c) == Or4(a, b)
    ensures Or4(0, c) == c
  {
    OrBound(a, b, 4);
    OrBits(a, b, c, 4);
  }

  lemma {:induction false} OrBits(a: nat, b: nat, c: nat, n: nat)
    requires c < Limit(n)
    ensures Or(Or(a, b, n), c, n) == c <==> Or(a, c, n) == c && Or(b, c, n) == c
    ensures Or(Or(a, c, n), c, n) == Or(a, c, n)
    ensures Or(0, c, n) == c
  {
    hide Or;
    OrStep(a, b, n);
    OrStep(a, c, n);
    OrStep(b, c, n);
    OrStep(0, c, n);
    OrStep(Or(a, b, n), c, n);
    OrStep(Or(a, c, n), c, n);
    if n > 0 {
      OrBits(a / 2, b / 2, c / 2, n - 1);
    }
  }

  /** The lowest bit and the others. */
  lemma OrStep(a: nat, b: nat, n: nat)
    ensures n == 0 ==> Or(a, b, n) == 0
    ensures n > 0 ==> Or(a, b, n) / 2 == Or(a / 2, b / 2, n - 1)
    ensures n > 0 ==> Or(a, b, n) % 2 == if a % 2 == 1 || b % 2 == 1 then 1 else 0
  {}

  /** The register after commands for the sectors `secs`. */
  function LowAfter(low: nat, secs: seq<nat>): (r: nat)
    requires low < 16 && forall i :: 0 <= i < |secs| ==> secs[i] < 16 * LBA24
    ensures r < 16
  {
    if secs == [] then low else Or4(LowAfter(low, secs[..|secs| - 1]), secs[|secs| - 1] / LBA24)
  }

  /** After a reset a command is addressed right if and only if the high bits of every earlier one are
      contained in its own. */
  lemma {:induction false} AddressedIff(secs: seq<nat>, sec: nat)
    requires sec < 16 * LBA24 && forall i :: 0 <= i < |secs| ==> secs[i] < 16 * LBA24
    ensures CmdAddress(LowAfter(0, secs), sec) == sec <==> forall i :: 0 <= i < |secs| ==> Clean(secs[i] / LBA24, sec)
  {
    hide Or4;
    AddressIff(LowAfter(0, secs), sec);
    OrTwice(0, 0, sec / LBA24);
    if secs != [] {
      var front, s := secs[..|secs| - 1], secs[|secs| - 1];
      AddressedIff(front, sec);
      AddressIff(LowAfter(0, front), sec);
      OrTwice(LowAfter(0, front), s / LBA24, sec / LBA24);
      assert forall i :: 0 <= i < |front| ==> front[i] == secs[i];
      assert forall i :: 0 <= i < |secs| ==> i == |secs| - 1 || secs[i] == front[i];
    }
  }

  /** After a command for sector 2^24 one for sector 0 goes to sector 2^24 again. */
  lemma SentElsewhere()
    ensures CmdAddress(LowAfter(0, [LBA24]), 0) == LBA24
  {
    assert [LBA24][..0] == [];
  }

  /** Every chunk of a transfer is addressed right. */
  predicate CleanRange(low: nat, sec: nat, count: nat)
    requires low < 16 && sec + count <= 16 * LBA24
    decreases count
  {
    count == 0
    || (Clean(low, sec) && CleanRange(sec / LBA24, sec + Min(count, SECCNT_MAX), count - Min(count, SECCNT_MAX)))
  }

  /** Below sector 2^24, with no stale bits, that is always so. */
  lemma {:induction false} LowRange(sec: nat, count: nat)
    requires sec + count <= LBA24
    ensures CleanRange(0, sec, count)
    decreases count
  {
    hide Or4;
    if count > 0 {
      OrTwice(0, 0, 0);
      LowRange(sec + Min(count, SECCNT_MAX), count - Min(count, SECCNT_MAX));
    }
  }

  /** The drive: contents, command registers, and the transfer under way. `script` says how its next status
      checks turn out, and `log` records the commands it was sent. */
  class Drive {
    const sectors: nat
    const multiCnt: nat
    var disk: seq<Word>
    var script: seq<bool>
    var secCnt: nat
    var lba0: nat
    var lba8: nat
    var lba16: nat
    var devLow: nat
    var next: nat
    var left: nat
    var log: seq<Cmd>

    constructor (disk: seq<Word>, sectors: nat, multiCnt: nat, script: seq<bool>)
      requires |disk| == SEC_WORDS * sectors && multiCnt >= 1
      ensures Valid() && this.disk == disk && this.script == script && devLow == 0
    {
      this.sectors, this.multiCnt, this.disk, this.script := sectors, multiCnt, disk, script;
      secCnt, lba0, lba8, lba16, devLow, next, left, log := 0, 0, 0, 0, 0, 0, 0, [];
    }

    ghost predicate Valid()
      reads this
    {
      |disk| == SEC_WORDS * sectors && multiCnt >= 1 && devLow < 16 && secCnt < 256 && next + left <= sectors
    }

    function Lba(): nat
      reads this
    {
      Address(lba0, lba8, lba16, devLow)
    }

    /** The count register holds 0 for 256 sectors. */
    function Count(): nat
      reads this
    {
      if secCnt == 0 then SECCNT_MAX else secCnt
    }

    /** Waiting for the drive, or checking its status. */
    method Check() returns (ok: bool)
      modifies this`script
      ensures ok == Head(old(script)) && script == Behind(old(script))
      ensures AllGood(old(script)) ==> ok && AllGood(script)
    {
      ok := true;
      if script != [] {
        ok := script[0];
        script := script[1..];
      }
    }

    /** bdh8b16_reset: the device register, too, is emptied, and no transfer is under way. */
    method Reset()
      requires Valid()
      modifies this`secCnt, this`lba0, this`lba8, this`lba16, this`devLow, this`left
      ensures Valid() && devLow == 0
    {
      secCnt, lba0, lba8, lba16, devLow, left := 0, 0, 0, 0, 0, 0;
    }

    /** bdh8b16_devlba_set as far as the LBA bits are concerned */
    method SetDevLba(lba2427: nat)
      requires devLow < 16 && lba2427 < 16
      modifies this`devLow
      ensures devLow == Or4(old(devLow), lba2427)
    {
      devLow := Or4(devLow, lba2427);
    }

    method SendCmd() returns (ok: bool)
      requires Valid()
      modifies this`script, this`next, this`left, this`log
      ensures Valid() && log == old(log) + [Cmd(Lba(), Count(), ok)]
      ensures script == Behind(old(script)) && ok == (Head(old(script)) && Lba() + Count() <= sectors)
      ensures ok ==> next == Lba() && left == Count()
      ensures AllGood(old(script)) && Lba() + Count() <= sectors ==> ok && AllGood(script)
    {
      ok := Check();
      ok := ok && Lba() + Count() <= sectors;
      log := log + [Cmd(Lba(), Count(), ok)];
      if ok {
        next, left := Lba(), Count();
      }
    }

    /** BDH8B16_READ16S: the drive hands out the next block, `n` sectors of it. */
    method Read16s(buf: array<Word>, off: nat, n: nat)
      requires Valid() && left > 0 && n == Min(multiCnt, left) && off + SEC_WORDS * n <= buf.Length
      modifies this`next, this`left, buf
      ensures Valid() && next == old(next) + n && left == old(left) - n
      ensures |disk| >= SEC_WORDS * (old(next) + n)
      ensures buf[off..off + SEC_WORDS * n] == disk[SEC_WORDS * old(next)..SEC_WORDS * (old(next) + n)]
      ensures buf[..off] == old(buf[..off]) && buf[off + SEC_WORDS * n..] == old(buf[off + SEC_WORDS * n..])
    {
      forall i | 0 <= i < SEC_WORDS * n {
        buf[off + i] := disk[SEC_WORDS * next + i];
      }
      SameWords(buf[off..off + SEC_WORDS * n], disk[SEC_WORDS * next..SEC_WORDS * (next + n)]);
      next, left := next + n, left - n;
    }

    /** BDH8B16_WRITE16S: the drive takes the next block. */
    method Write16s(buf: array<Word>, off: nat, n: nat)
      requires Valid() && left > 0 && n == Min(multiCnt, left) && off + SEC_WORDS * n <= buf.Length
      modifies this`next, this`left, this`disk
      ensures Valid() && next == old(next) + n && left == old(left) - n
      ensures disk == Splice(old(disk), SEC_WORDS * old(next), buf[off..off + SEC_WORDS * n])
    {
      disk := Splice(disk, SEC_WORDS * next, buf[off..off + SEC_WORDS * n]);
      next, left := next + n, left - n;
    }
  }

  lemma SameWords(s: seq<Word>, t: seq<Word>)
    requires |s| == |t| && forall i :: 0 <= i < |s| ==> s[i] == t[i]
    ensures s == t
  {}

  function Fails(sec: nat, n: nat, k: nat): seq<Cmd> {
    seq(k, _ => Cmd(sec, n, false))
  }

  /** bdh8b16_readyforcmd: a drive that is not ready is reset first. `low` is what the device register held
      when the high bits of the sector were or-ed in. */
  method ReadyForCmd(dr: Drive, lba2427: nat) returns (ok: bool, ghost low: nat)
    requires dr.Valid() && lba2427 < 16
    modifies dr`script, dr`secCnt, dr`lba0, dr`lba8, dr`lba16, dr`devLow, dr`left
    ensures dr.Valid() && low in {old(dr.devLow), 0} && dr.devLow in {low, Or4(low, lba2427)}
    ensures ok ==> dr.devLow == Or4(low, lba2427)
    ensures var r := ReadyAfter(old(dr.script));
      && ok == r.ok && dr.script == r.rest && low == (if r.reset then 0 else old(dr.devLow))
      && dr.devLow == if r.written then Or4(low, lba2427) else low
    ensures AllGood(old(dr.script)) ==> ok && low == old(dr.devLow) && AllGood(dr.script)
  {
    hide Or4;
    low := dr.devLow;
    ok := dr.Check();
    if !ok {
      dr.Reset();
      low := 0;
      ok := dr.Check();
      if !ok {
        return;
      }
    }
    dr.SetDevLba(lba2427);
    TwoChecks(dr.script);
    ok := dr.Check();
    if ok {
      ok := dr.Check();
    }
  }

  lemma TwoChecks(s: seq<bool>)
    ensures Pass(s, 0) == (true, s) && Pass(s, 1) == (Head(s), Behind(s))
    ensures Pass(s, 2) == if Head(s) then (Head(Behind(s)), Behind(Behind(s))) else (false, Behind(s))
  {}

  /** Setting up the registers for sectors sec.. and sending the command. */
  method SendFor(dr: Drive, sec: nat, iCurSecs: nat) returns (st: Result, sent: bool, ghost low: nat)
    requires dr.Valid() && sec < 16 * LBA24 && iCurSecs < 256
    modifies dr`script, dr`secCnt, dr`lba0, dr`lba8, dr`lba16, dr`devLow, dr`next, dr`left, dr`log
    ensures dr.Valid() && low in {old(dr.devLow), 0} && dr.devLow in {low, Or4(low, sec / LBA24)}
    ensures var n := if iCurSecs == 0 then SECCNT_MAX else iCurSecs; var a := CmdAddress(low, sec);
      && (sent ==> dr.log == old(dr.log) + [Cmd(a, n, st == Success)] && dr.devLow == Or4(low, sec / LBA24))
      && (sent ==> (dr.log[|old(dr.log)|].lba == sec <==> Clean(low, sec)))
      && (!sent ==> st == Failure && dr.log == old(dr.log))
      && (st == Success ==> sent && dr.next == a && dr.left == n)
      && (AllGood(old(dr.script)) ==> sent && low == old(dr.devLow))
      && (AllGood(old(dr.script)) && a + n <= dr.sectors ==> st == Success && AllGood(dr.script))
    ensures var n := if iCurSecs == 0 then SECCNT_MAX else iCurSecs; var r := ReadyAfter(old(dr.script));
      && sent == r.ok && low == (if r.reset then 0 else old(dr.devLow))
      && dr.script == (if sent then Behind(r.rest) else r.rest)
      && dr.devLow == (if r.written then Or4(low, sec / LBA24) else low)
      && (st == Success <==> sent && Head(r.rest) && CmdAddress(low, sec) + n <= dr.sectors)
  {
    hide Or4, ReadyAfter;
    var ready;
    ready, low := ReadyForCmd(dr, sec / LBA24 % 16);
    sent := false;
    AddressIff(low, sec);
    if !ready {
      return Failure, sent, low;
    }
    dr.secCnt := iCurSecs;
    dr.lba0 := sec % 0x100;
    dr.lba8 := sec / 0x100 % 0x100;
    dr.lba16 := sec / 0x1_0000 % 0x100;
    sent := true;
    var ok := dr.SendCmd();
    return if ok then Success else Failure, sent, low;
  }

  /** The register after the commands for `secs`, of which the first `r` were sent before the last reset;
      -1 if there was none. */
  function LowSince(low: nat, secs: seq<nat>, r: int): (l: nat)
    requires low < 16 && -1 <= r <= |secs| && forall i :: 0 <= i < |secs| ==> secs[i] < 16 * LBA24
    ensures l < 16
  {
    if r < 0 then LowAfter(low, secs) else LowAfter(0, secs[r..])
  }

  lemma LowNext(low: nat, secs: seq<nat>, k: nat, r: int)
    requires low < 16 && -1 <= r <= k < |secs| && forall i :: 0 <= i < |secs| ==> secs[i] < 16 * LBA24
    ensures LowSince(low, secs[..k + 1], r) == Or4(LowSince(low, secs[..k], r), secs[k] / LBA24)
    ensures LowSince(low, secs[..k], k) == 0
  {
    hide Or4;
    assert secs[..k + 1][..k] == secs[..k];
    if r >= 0 {
      assert secs[..k + 1][r..][..k - r] == secs[..k][r..];
    }
  }

  /** Any sequence of commands, with resets wherever the drive is found not ready: each command sent goes
      where the register left by those since the last reset makes it go. `since` tells for each command how
      many had been sent before that reset. */
  method SendAll(dr: Drive, secs: seq<nat>) returns (sent: nat, ghost since: seq<int>)
    requires dr.Valid() && forall i :: 0 <= i < |secs| ==> secs[i] < 16 * LBA24
    modifies dr`script, dr`secCnt, dr`lba0, dr`lba8, dr`lba16, dr`devLow, dr`next, dr`left, dr`log
    ensures dr.Valid() && sent <= |secs| && |dr.log| == |old(dr.log)| + sent && |since| == sent
    ensures forall i :: 0 <= i < sent ==>
      && -1 <= since[i] <= i
      && dr.log[|old(dr.log)| + i].lba == CmdAddress(LowSince(old(dr.devLow), secs[..i], since[i]), secs[i])
    ensures AllGood(old(dr.script)) && InReach(old(dr.devLow), secs, dr.sectors) ==>
      sent == |secs| && forall i :: 0 <= i < sent ==> since[i] == -1
  {
    hide Or4, CmdAddress, Drive.Lba, LowSince, AllGood, ReadyAfter, Head, Behind;
    sent, since := 0, [];
    ghost var r := -1;
    LowStart(dr.devLow);
    while sent < |secs|
      invariant dr.Valid() && 0 <= sent <= |secs| && |dr.log| == |old(dr.log)| + sent && |since| == sent
      invariant -1 <= r <= sent && dr.devLow == LowSince(old(dr.devLow), secs[..sent], r)
      invariant forall i :: 0 <= i < sent ==>
        && -1 <= since[i] <= i
        && dr.log[|old(dr.log)| + i].lba == CmdAddress(LowSince(old(dr.devLow), secs[..i], since[i]), secs[i])
      invariant AllGood(old(dr.script)) && InReach(old(dr.devLow), secs, dr.sectors) ==>
        AllGood(dr.script) && r == -1 && forall i :: 0 <= i < sent ==> since[i] == -1
    {
      ghost var was := dr.devLow;
      var st, ok;
      ghost var low;
      st, ok, low := SendFor(dr, secs[sent], 1);
      if low != was {
        r := sent;
      }
      if !ok {
        return;
      }
      LowNext(old(dr.devLow), secs, sent, r);
      since := since + [r];
      sent := sent + 1;
    }
  }

  lemma LowStart(low: nat)
    requires low < 16
    ensures forall secs: seq<nat> :: LowSince(low, secs[..0], -1) == low
  {}

  /** All commands are addressed to the drive if there is no reset. */
  ghost predicate InReach(low: nat, secs: seq<nat>, sectors: nat)
    requires low < 16 && forall i :: 0 <= i < |secs| ==> secs[i] < 16 * LBA24
  {
    forall i :: 0 <= i < |secs| ==> CmdAddress(LowSince(low, secs[..i], -1), secs[i]) + 1 <= sectors
  }

  /** How repeated attempts at one command end: the result, the number of commands refused, the register and the
      checks still to come. */
  datatype Sends = Sends(st: Result, refused: nat, low: nat, rest: seq<bool>)

  /** Up to `tries` attempts at a command for `n` sectors from `sec` on. One at which the drive does not get ready
      is the last; a command is refused if its status check fails or its sectors are not on the drive. */
  function Issued(s: seq<bool>, low: nat, sec: nat, n: nat, sectors: nat, tries: nat): (r: Sends)
    requires low < 16 && sec < 16 * LBA24
    ensures r.refused <= tries && r.low < 16
    decreases tries
  {
    var r := ReadyAfter(s);
    var l := if r.reset then 0 else low;
    var after := if r.written then Or4(l, sec / LBA24) else l;
    if tries == 0 then Sends(Failure, 0, low, s)
    else if !r.ok then Sends(Failure, 0, after, r.rest)
    else if Head(r.rest) && CmdAddress(l, sec) + n <= sectors then Sends(Success, 0, after, Behind(r.rest))
    else var more := Issued(Behind(r.rest), after, sec, n, sectors, tries - 1); more.(refused := more.refused + 1)
  }

  /** The checks still to come after `k` commands have been sent. */
  function AfterSent(s: seq<bool>, k: nat): seq<bool>
    decreases k
  {
    if k == 0 then s else AfterSent(Behind(ReadyAfter(s).rest), k - 1)
  }

  /** The attempts end without success only when all of them have been refused, or when the drive does not get
      ready for the next. */
  lemma {:induction false} GivesUp(s: seq<bool>, low: nat, sec: nat, n: nat, sectors: nat, tries: nat)
    requires low < 16 && sec < 16 * LBA24
    ensures var m := Issued(s, low, sec, n, sectors, tries);
      m.st == Failure ==> m.refused == tries || !ReadyAfter(AfterSent(s, m.refused)).ok
    decreases tries
  {
    hide ReadyAfter, Or4, CmdAddress;
    var r := ReadyAfter(s);
    var l := if r.reset then 0 else low;
    if tries > 0 && r.ok && !(Head(r.rest) && CmdAddress(l, sec) + n <= sectors) {
      GivesUp(Behind(r.rest), if r.written then Or4(l, sec / LBA24) else l, sec, n, sectors, tries - 1);
    }
  }

  /** The checks of one attempt at which the drive gets ready, after a reset or at once, and the command turns out
      to be refused or not. */
  function AttemptChecks(reset: bool, taken: bool): seq<bool> {
    (if reset then [false, true] else [true]) + [true, true, taken]
  }

  /** The checks of attempts that are all refused. */
  function RefusedChecks(resets: seq<bool>): seq<bool> {
    if resets == [] then [] else AttemptChecks(resets[0], false) + RefusedChecks(resets[1..])
  }

  lemma AttemptIs(reset: bool, taken: bool, rest: seq<bool>)
    ensures var r := ReadyAfter(AttemptChecks(reset, taken) + rest);
      r.ok && r.written && r.reset == reset && Head(r.rest) == taken && Behind(r.rest) == rest
  {
    hide Pass, Head, Behind;
    var t := [true, true, taken] + rest;
    if reset {
      NextCheck(false, [true] + t);
      assert AttemptChecks(reset, taken) + rest == [false] + ([true] + t);
    } else {
      assert AttemptChecks(reset, taken) + rest == [true] + t;
    }
    NextCheck(true, t);
    NextCheck(true, [true] + ([taken] + rest));
    NextCheck(true, [taken] + rest);
    NextCheck(taken, rest);
    assert t == [true] + ([true] + ([taken] + rest));
    TwoChecks(t);
  }

  lemma NextCheck(b: bool, rest: seq<bool>)
    ensures Head([b] + rest) == b && Behind([b] + rest) == rest
  {}

  lemma RefusedStep(resets: seq<bool>, rest: seq<bool>)
    ensures resets == [] ==> RefusedChecks(resets) + rest == rest
    ensures resets != [] ==>
      RefusedChecks(resets) + rest == AttemptChecks(resets[0], false) + (RefusedChecks(resets[1..]) + rest)
  {
    hide AttemptChecks;
  }

  /** A command that is addressed right, on the drive, is carried out if it is refused fewer times than it is
      tried, with resets wherever the drive is found not ready. */
  lemma {:induction false} TakenAfter(resets: seq<bool>, last: bool, rest: seq<bool>, low: nat, sec: nat, n: nat,
                                      sectors: nat, tries: nat)
    requires low < 16 && sec < 16 * LBA24 && Clean(low, sec) && sec + n <= sectors && |resets| < tries
    ensures Issued(RefusedChecks(resets) + (AttemptChecks(last, true) + rest), low, sec, n, sectors, tries)
         == Sends(Success, |resets|, sec / LBA24, rest)
    decreases tries
  {
    hide ReadyAfter, CmdAddress, AttemptChecks, Issued, RefusedChecks, Or4;
    var more := AttemptChecks(last, true) + rest;
    RightAgain(low, sec);
    RefusedStep(resets, more);
    IssuedStep(RefusedChecks(resets) + more, low, sec, n, sectors, tries);
    if resets == [] {
      AttemptIs(last, true, rest);
    } else {
      AttemptIs(resets[0], false, RefusedChecks(resets[1..]) + more);
      TakenAfter(resets[1..], last, rest, sec / LBA24, sec, n, sectors, tries - 1);
    }
  }

  /** One that is refused every time fails after that many attempts. */
  lemma {:induction false} RefusedThroughout(resets: seq<bool>, rest: seq<bool>, low: nat, sec: nat, n: nat,
                                             sectors: nat)
    requires low < 16 && sec < 16 * LBA24 && resets != []
    ensures var m := Issued(RefusedChecks(resets) + rest, low, sec, n, sectors, |resets|);
      m.st == Failure && m.refused == |resets| && m.rest == rest
    decreases |resets|
  {
    hide ReadyAfter, CmdAddress, AttemptChecks, Issued, RefusedChecks, Or4;
    RefusedStep(resets, rest);
    IssuedStep(RefusedChecks(resets) + rest, low, sec, n, sectors, |resets|);
    AttemptIs(resets[0], false, RefusedChecks(resets[1..]) + rest);
    var after := Or4(if resets[0] then 0 else low, sec / LBA24);
    if |resets| == 1 {
      RefusedStep(resets[1..], rest);
      IssuedStep(rest, after, sec, n, sectors, 0);
    } else {
      RefusedThroughout(resets[1..], rest, after, sec, n, sectors);
    }
  }

  /** After a command that is addressed right, or a reset, the next attempt is. */
  lemma RightAgain(low: nat, sec: nat)
    requires low < 16 && sec < 16 * LBA24 && Clean(low, sec)
    ensures CmdAddress(low, sec) == sec == CmdAddress(0, sec)
    ensures Or4(low, sec / LBA24) == sec / LBA24 == Or4(0, sec / LBA24) && sec / LBA24 < 16 && Clean(sec / LBA24, sec)
  {
    AddressIff(low, sec);
    AfterReset(sec);
  }

  /** The attempts at one command: `k` of them before a reset, the others after it. */
  function Tries(a: nat, sec: nat, n: nat, k: nat, fails: nat): seq<Cmd>
    requires k <= fails
  {
    Fails(a, n, k) + Fails(sec, n, fails - k)
  }

  lemma TriesStep(a: nat, sec: nat, n: nat, k: nat, fails: nat)
    requires k <= fails
    ensures Tries(a, sec, n, 0, 0) == []
    ensures Tries(a, sec, n, k, fails) + [Cmd(sec, n, false)] == Tries(a, sec, n, k, fails + 1)
    ensures Tries(a, sec, n, fails, fails) + [Cmd(a, n, false)] == Tries(a, sec, n, fails + 1, fails + 1)
    ensures a == sec ==> Tries(a, sec, n, k, fails) == Fails(sec, n, fails)
  {
    assert Fails(sec, n, fails - k) + [Cmd(sec, n, false)] == Fails(sec, n, fails - k + 1);
    assert Fails(a, n, fails) + [] + [Cmd(a, n, false)] == Fails(a, n, fails + 1) + [];
  }

  lemma TryNext(log: seq<Cmd>, tries: seq<Cmd>, c: Cmd)
    ensures log + tries + [c] == log + (tries + [c]) && log + [] == log
  {
    assert log + tries + [c] == log + (tries + [c]);
  }

  /** The RepOnError loop of bdh8b16_get_sectors: at most six attempts. They are addressed like the first one
      until the drive is found not ready and reset; from then on they are addressed right. */
  method Issue(dr: Drive, sec: nat, iCurSecs: nat) returns (st: Result, ghost k: nat, ghost fails: nat, ghost low: nat)
    requires dr.Valid() && sec < 16 * LBA24 && iCurSecs < 256
    modifies dr`script, dr`secCnt, dr`lba0, dr`lba8, dr`lba16, dr`devLow, dr`next, dr`left, dr`log
    ensures dr.Valid() && k <= fails <= ERRREPCNT && low in {old(dr.devLow), 0}
    ensures dr.devLow in {low, Or4(low, sec / LBA24)}
    ensures var n := if iCurSecs == 0 then SECCNT_MAX else iCurSecs; var a := CmdAddress(old(dr.devLow), sec);
      && (if st == Success then
            && fails < ERRREPCNT && (k < fails ==> low == 0)
            && dr.log == old(dr.log) + Tries(a, sec, n, k, fails) + [Cmd(CmdAddress(low, sec), n, true)]
            && dr.next == CmdAddress(low, sec) && dr.left == n && dr.devLow == Or4(low, sec / LBA24)
          else dr.log == old(dr.log) + Tries(a, sec, n, k, fails))
      && CmdAddress(0, sec) == sec
      && (AllGood(old(dr.script)) && a + n <= dr.sectors ==>
            st == Success && fails == 0 && low == old(dr.devLow) && AllGood(dr.script))
      && (var m := Issued(old(dr.script), old(dr.devLow), sec, n, dr.sectors, ERRREPCNT);
          st == m.st && fails == m.refused && dr.devLow == m.low && dr.script == m.rest)
    ensures st == Failure ==> fails == ERRREPCNT || !ReadyAfter(AfterSent(old(dr.script), fails)).ok
  {
    hide Or4, CmdAddress, Tries, AllGood, ReadyAfter, Issued, Head, Behind, AfterSent, Joined;
    ghost var n, low0 := if iCurSecs == 0 then SECCNT_MAX else iCurSecs, dr.devLow;
    ghost var a, log0 := CmdAddress(low0, sec), dr.log;
    AddressIff(low0, sec);
    AfterReset(sec);
    var iErrRep := 0;
    k, fails, low := 0, 0, low0;
    TriesStep(a, sec, n, 0, 0);
    TryNext(log0, [], Cmd(0, 0, false));
    ghost var all := Issued(dr.script, low0, sec, n, dr.sectors, ERRREPCNT);
    GivesUp(dr.script, low0, sec, n, dr.sectors, ERRREPCNT);
    JoinedStep(all, all, all, 0);
    while true
      invariant dr.Valid() && 0 <= iErrRep == fails < ERRREPCNT && k <= fails && low in {low0, 0}
      invariant dr.devLow in {low, Or4(low, sec / LBA24)} && (low == 0 || k == fails)
      invariant dr.log == log0 + Tries(a, sec, n, k, fails)
      invariant Joined(all, Issued(dr.script, dr.devLow, sec, n, dr.sectors, ERRREPCNT - iErrRep), fails)
      invariant AllGood(old(dr.script)) && a + n <= dr.sectors ==>
        fails == 0 && dr.devLow == low0 && low == low0 && AllGood(dr.script)
      decreases ERRREPCNT - iErrRep
    {
      ghost var was := dr.devLow;
      var sent;
      ghost var now;
      ghost var left := ERRREPCNT - iErrRep;
      ghost var more := Issued(dr.script, dr.devLow, sec, n, dr.sectors, left);
      IssuedStep(dr.script, dr.devLow, sec, n, dr.sectors, left);
      st, sent, now := SendFor(dr, sec, iCurSecs);
      low := SameAddress(low0, low, was, now, sec);
      JoinedStep(all, more, Issued(dr.script, dr.devLow, sec, n, dr.sectors, left - 1), fails);
      if st == Success || !sent {
        return;
      }
      TriesStep(a, sec, n, k, fails);
      TryNext(log0, Tries(a, sec, n, k, fails), Cmd(CmdAddress(now, sec), n, false));
      if k == fails && CmdAddress(now, sec) == a {
        k := k + 1;
      }
      iErrRep := iErrRep + 1;
      fails := fails + 1;
      if iErrRep >= ERRREPCNT {
        IssuedStep(dr.script, dr.devLow, sec, n, dr.sectors, 0);
        JoinedStep(all, Sends(Failure, 0, dr.devLow, dr.script), all, fails);
        return;
      }
    }
  }

  /** `all` is how the attempts end of which `fails` have been refused and `more` is the rest. */
  ghost predicate Joined(all: Sends, more: Sends, fails: nat) {
    all == more.(refused := fails + more.refused)
  }

  lemma JoinedStep(all: Sends, more: Sends, next: Sends, fails: nat)
    ensures Joined(all, all, 0)
    ensures Joined(all, more, fails) && more.refused == 0 ==> all == more.(refused := fails)
    ensures Joined(all, more, fails) && more == next.(refused := next.refused + 1) ==> Joined(all, next, fails + 1)
  {}

  lemma IssuedStep(s: seq<bool>, low: nat, sec: nat, n: nat, sectors: nat, tries: nat)
    requires low < 16 && sec < 16 * LBA24
    ensures var r := ReadyAfter(s); var l := if r.reset then 0 else low;
      var after := if r.written then Or4(l, sec / LBA24) else l;
      Issued(s, low, sec, n, sectors, tries) ==
        if tries == 0 then Sends(Failure, 0, low, s)
        else if !r.ok then Sends(Failure, 0, after, r.rest)
        else if Head(r.rest) && CmdAddress(l, sec) + n <= sectors then Sends(Success, 0, after, Behind(r.rest))
        else
          var more := Issued(Behind(r.rest), after, sec, n, sectors, tries - 1); more.(refused := more.refused + 1)
  {
    hide ReadyAfter, Or4, CmdAddress;
  }

  lemma AfterReset(sec: nat)
    requires sec < 16 * LBA24
    ensures CmdAddress(0, sec) == sec && Clean(0, sec) && Or4(0, sec / LBA24) == sec / LBA24
  {
    hide Or4;
    AddressIff(0, sec);
    OrTwice(0, 0, sec / LBA24);
  }

  /** Another attempt: it is addressed like the one before, or right if there was a reset in between. */
  lemma SameAddress(low0: nat, low: nat, was: nat, now: nat, sec: nat) returns (r: nat)
    requires low0 < 16 && sec < 16 * LBA24 && low in {low0, 0} && was in {low, Or4(low, sec / LBA24)} && now in {was, 0}
    ensures r in {low0, 0} && CmdAddress(now, sec) == CmdAddress(r, sec) && Or4(now, sec / LBA24) == Or4(r, sec / LBA24)
    ensures CmdAddress(r, sec) in {CmdAddress(low0, sec), sec} && (now != was ==> r == 0) && (low == 0 ==> r == 0)
    ensures low == was == now ==> r == low
  {
    hide Or4;
    AddressIff(low, sec);
    AfterReset(sec);
    r := if now == was then low else 0;
  }

  /** Sectors have been read behind each other into cur[off..a]; outside cur[off..end] nothing changed. */
  ghost predicate Filled(init: seq<Word>, cur: seq<Word>, disk: seq<Word>, off: nat, a: nat, end: nat, from: nat) {
    && |cur| == |init| && off <= a <= end <= |cur| && from + (a - off) <= |disk|
    && cur[..off] == init[..off] && cur[end..] == init[end..] && cur[off..a] == disk[from..from + (a - off)]
  }

  lemma FilledMore(init: seq<Word>, before: seq<Word>, after: seq<Word>, disk: seq<Word>, off: nat, a: nat, b: nat,
                   end: nat, from: nat)
    requires Filled(init, before, disk, off, a, end, from) && |before| == |after|
    requires off <= a <= b <= end <= |after| && from + (b - off) <= |disk|
    requires after[..a] == before[..a] && after[b..] == before[b..]
    requires after[a..b] == disk[from + (a - off)..from + (b - off)]
    ensures Filled(init, after, disk, off, b, end, from)
  {
    assert after[off..a] == after[..a][off..] && before[off..a] == before[..a][off..];
    assert after[off..b] == after[off..a] + after[a..b];
    assert after[..off] == after[..a][..off] && before[..off] == before[..a][..off];
    assert after[end..] == after[b..][end - b..] && before[end..] == before[b..][end - b..];
  }

  /** The status check before each block and the test that it is requested. */
  method BlockReady(dr: Drive, iSec: nat) returns (ok: bool)
    modifies dr`script
    ensures (ok, dr.script) == Pass(old(dr.script), if iSec > 0 then 2 else 1)
    ensures AllGood(old(dr.script)) ==> ok && AllGood(dr.script)
  {
    TwoChecks(dr.script);
    if iSec > 0 {
      ok := dr.Check();
      if !ok {
        return;
      }
    }
    ok := dr.Check();
  }

  /** The checks of a transfer of `n` sectors in blocks of `m`, from sector `i` on: one before the first block and
      two before each of the others. */
  function BlockChecks(i: nat, n: nat, m: nat): nat
    requires m >= 1
    decreases n - i
  {
    if i >= n then 0 else (if i > 0 then 2 else 1) + BlockChecks(i + m, n, m)
  }

  lemma NextBlock(s: seq<bool>, i: nat, n: nat, m: nat)
    requires m >= 1
    ensures i >= n ==> Pass(s, BlockChecks(i, n, m)) == (true, s)
    ensures i < n ==> var (ok, rest) := Pass(s, if i > 0 then 2 else 1);
      Pass(s, BlockChecks(i, n, m)) == if ok then Pass(rest, BlockChecks(i + m, n, m)) else (false, rest)
  {
    if i < n {
      PassMore(s, if i > 0 then 2 else 1, BlockChecks(i + m, n, m));
      PassFails(s, if i > 0 then 2 else 1);
    }
  }

  lemma PassFails(s: seq<bool>, k: nat)
    ensures !Pass(s, k).0 ==> Pass(s, k) == (false, Pass(s, k).1)
  {}

  /** One block of a read. */
  method ReadBlock(dr: Drive, n: nat, buf: array<Word>, iBuf: nat, ghost init: seq<Word>, ghost off: nat,
                   ghost end: nat, ghost from: nat)
    requires dr.Valid() && dr.left > 0 && n == Min(dr.multiCnt, dr.left) && iBuf + SEC_WORDS * n <= end
    requires Filled(init, buf[..], dr.disk, off, iBuf, end, from) && off <= iBuf
    requires SEC_WORDS * dr.next == from + (iBuf - off)
    modifies dr`next, dr`left, buf
    ensures dr.Valid() && dr.next == old(dr.next) + n && dr.left == old(dr.left) - n
    ensures Filled(init, buf[..], dr.disk, off, iBuf + SEC_WORDS * n, end, from)
  {
    hide Drive.Lba, Min;
    ghost var before := buf[..];
    dr.Read16s(buf, iBuf, n);
    FilledMore(init, before, buf[..], dr.disk, off, iBuf, iBuf + SEC_WORDS * n, end, from);
  }

  /** The data phase of a read: one block of up to multiCnt sectors at a time. */
  method ReadBlocks(dr: Drive, n: nat, buf: array<Word>, off: nat) returns (st: Result)
    requires dr.Valid() && dr.left == n && off + SEC_WORDS * n <= buf.Length
    modifies dr`script, dr`next, dr`left, buf
    ensures dr.Valid() && SEC_WORDS * (old(dr.next) + n) <= |dr.disk|
    ensures st == Success ==>
      Filled(old(buf[..]), buf[..], dr.disk, off, off + SEC_WORDS * n, off + SEC_WORDS * n, SEC_WORDS * old(dr.next))
    ensures buf[..off] == old(buf[..off]) && buf[off + SEC_WORDS * n..] == old(buf[off + SEC_WORDS * n..])
    ensures (st == Success, dr.script) == Pass(old(dr.script), BlockChecks(0, n, dr.multiCnt))
    ensures AllGood(old(dr.script)) ==> st == Success && AllGood(dr.script)
  {
    hide Drive.Lba, Filled, AllGood, Min, Pass, BlockChecks;
    ghost var start, init, end, from := dr.next, buf[..], off + SEC_WORDS * n, SEC_WORDS * dr.next;
    var iSec, iBuf := 0, off;
    FilledNone(init, dr.disk, off, end, from);
    FilledOutside(init, init, dr.disk, off, off, end, from);
    BlockStep(0, n, 0);
    while iSec < n
      invariant dr.Valid() && 0 <= iSec && dr.left == n - Min(iSec, n) && dr.next == start + Min(iSec, n)
      invariant off <= iBuf == off + SEC_WORDS * Min(iSec, n) && Filled(init, buf[..], dr.disk, off, iBuf, end, from)
      invariant Pass(old(dr.script), BlockChecks(0, n, dr.multiCnt)) ==
        Pass(dr.script, BlockChecks(iSec, n, dr.multiCnt))
      invariant AllGood(old(dr.script)) ==> AllGood(dr.script)
    {
      BlockStep(iSec, n, dr.multiCnt);
      NextBlock(dr.script, iSec, n, dr.multiCnt);
      FilledOutside(init, buf[..], dr.disk, off, iBuf, end, from);
      var ready := BlockReady(dr, iSec);
      if !ready {
        return Failure;
      }
      var iMulti := n - iSec;
      if iMulti > dr.multiCnt {
        iMulti := dr.multiCnt;
      }
      ReadBlock(dr, iMulti, buf, iBuf, init, off, end, from);
      iBuf := iBuf + SEC_WORDS * iMulti;
      iSec := iSec + dr.multiCnt;
    }
    BlockStep(iSec, n, 0);
    NextBlock(dr.script, iSec, n, dr.multiCnt);
    FilledOutside(init, buf[..], dr.disk, off, iBuf, end, from);
    st := Success;
  }

  /** Where a transfer of `n` sectors is before and after a block of at most `m` sectors. */
  lemma BlockStep(i: nat, n: nat, m: nat)
    ensures Min(0, n) == 0 && 0 <= Min(i, n) <= n && (i >= n ==> Min(i, n) == n)
    ensures i < n ==>
      Min(i, n) == i && Min(i + m, n) == i + Min(m, n - i) && Min(m, n - i) == if n - i > m then m else n - i
  {}

  lemma FilledNone(init: seq<Word>, disk: seq<Word>, off: nat, end: nat, from: nat)
    requires off <= end <= |init| && from <= |disk|
    ensures Filled(init, init, disk, off, off, end, from)
  {}

  lemma FilledOutside(init: seq<Word>, cur: seq<Word>, disk: seq<Word>, off: nat, a: nat, end: nat, from: nat)
    requires Filled(init, cur, disk, off, a, end, from)
    ensures |cur| == |init| && off <= end <= |cur| && cur[..off] == init[..off] && cur[end..] == init[end..]
  {}

  /** How far a sequence of commands has come with sectors sec.. of which `count` are left, after `fails`
      failed attempts at the next command; Stray if a command does not belong there. */
  datatype Progress = At(sec: nat, count: nat, fails: nat) | Stray

  function Advance(p: Progress, c: Cmd): Progress {
    if p.Stray? || p.count == 0 || p.fails >= ERRREPCNT || c.lba != p.sec || c.n != Min(p.count, SECCNT_MAX) then Stray
    else if c.ok then At(p.sec + c.n, p.count - c.n, 0)
    else At(p.sec, p.count, p.fails + 1)
  }

  function Follow(p: Progress, l: seq<Cmd>): Progress {
    if l == [] then p else Advance(Follow(p, l[..|l| - 1]), l[|l| - 1])
  }

  lemma FollowOne(p: Progress, l: seq<Cmd>, c: Cmd)
    ensures Follow(p, l + [c]) == Advance(Follow(p, l), c)
  {
    assert (l + [c])[..|l|] == l;
  }

  lemma {:induction false} FollowFails(p: Progress, l: seq<Cmd>, sec: nat, count: nat, k: nat)
    requires Follow(p, l) == At(sec, count, 0) && count > 0 && k <= ERRREPCNT
    ensures Follow(p, l + Fails(sec, Min(count, SECCNT_MAX), k)) == At(sec, count, k)
  {
    hide Follow, Fails;
    var n := Min(count, SECCNT_MAX);
    FailsStep(l, sec, n, k);
    if k > 0 {
      FollowFails(p, l, sec, count, k - 1);
      FollowOne(p, l + Fails(sec, n, k - 1), Cmd(sec, n, false));
    }
  }

  lemma FailsStep(l: seq<Cmd>, sec: nat, n: nat, k: nat)
    ensures k == 0 ==> l + Fails(sec, n, k) == l
    ensures k > 0 ==> l + Fails(sec, n, k) == l + Fails(sec, n, k - 1) + [Cmd(sec, n, false)]
  {
    if k > 0 {
      assert Fails(sec, n, k) == Fails(sec, n, k - 1) + [Cmd(sec, n, false)];
    }
  }

  /** The commands that were carried out. */
  function Accepted(l: seq<Cmd>): seq<Cmd> {
    if l == [] then []
    else Accepted(l[..|l| - 1]) + if l[|l| - 1].ok then [l[|l| - 1]] else []
  }

  /** `count` sectors from `sec` on, cut into pieces of 256 and a rest. */
  function Chunks(sec: nat, count: nat): seq<Cmd>
    decreases count
  {
    if count == 0 then []
    else [Cmd(sec, Min(count, SECCNT_MAX), true)] + Chunks(sec + Min(count, SECCNT_MAX), count - Min(count, SECCNT_MAX))
  }

  /** Commands that have come to the end have carried out exactly the chunks of the range, once and in order. */
  lemma {:induction false} CommandsTile(sec: nat, count: nat, l: seq<Cmd>)
    requires Follow(At(sec, count, 0), l).At?
    ensures var p := Follow(At(sec, count, 0), l); Accepted(l) + Chunks(p.sec, p.count) == Chunks(sec, count)
  {
    hide Chunks;
    if l == [] {
      assert [] + Chunks(sec, count) == Chunks(sec, count);
    } else {
      var front, c := l[..|l| - 1], l[|l| - 1];
      var p := Follow(At(sec, count, 0), front);
      CommandsTile(sec, count, front);
      if c.ok {
        NextChunk(Accepted(front), p, c);
      }
    }
  }

  lemma NextChunk(done: seq<Cmd>, p: Progress, c: Cmd)
    requires p.At? && c.ok && Advance(p, c).At?
    ensures done + Chunks(p.sec, p.count) == done + [c] + Chunks(p.sec + c.n, p.count - c.n)
  {
    assert c == Cmd(p.sec, Min(p.count, SECCNT_MAX), true);
    assert done + ([c] + Chunks(p.sec + c.n, p.count - c.n)) == done + [c] + Chunks(p.sec + c.n, p.count - c.n);
  }

  function Covered(cs: seq<Cmd>): nat {
    if cs == [] then 0 else cs[0].n + Covered(cs[1..])
  }

  /** The chunks are adjacent and add up to the range. */
  lemma {:induction false} ChunksAddUp(sec: nat, count: nat)
    ensures Covered(Chunks(sec, count)) == count
    ensures forall i :: 0 <= i < |Chunks(sec, count)| ==> 1 <= Chunks(sec, count)[i].n <= SECCNT_MAX
    ensures forall i :: 0 < i < |Chunks(sec, count)| ==>
      Chunks(sec, count)[i].lba == Chunks(sec, count)[i - 1].lba + Chunks(sec, count)[i - 1].n
    ensures count > 0 ==> Chunks(sec, count)[0].lba == sec
    decreases count
  {
    if count > 0 {
      var n := Min(count, SECCNT_MAX);
      ChunksAddUp(sec + n, count - n);
      assert Chunks(sec, count)[1..] == Chunks(sec + n, count - n);
    }
  }

  /** The next chunk of a transfer: what goes into the count register, and what that stands for. */
  function SecCnt(count: nat): (r: nat)
    ensures r < 256 && (count > 0 ==> (if r == 0 then SECCNT_MAX else r) == Min(count, SECCNT_MAX))
  {
    if count < SECCNT_MAX then count else 0
  }

  function Loops(count: nat): (n: nat)
    ensures (n == 0 <==> count == 0) && (count > 0 ==> n == Loops(count - Min(count, SECCNT_MAX)) + 1)
  {
    count / SECCNT_MAX + if count % SECCNT_MAX != 0 then 1 else 0
  }

  /** bdh8b16_get_sectors for one sector, whatever the register holds: it is the sector the command is
      addressed to that is read, or the right one after a reset. */
  method ReadOne(dr: Drive, sec: nat, buf: array<Word>) returns (st: Result, ghost a: nat)
    requires dr.Valid() && sec < 16 * LBA24 && SEC_WORDS <= buf.Length
    modifies dr`script, dr`secCnt, dr`lba0, dr`lba8, dr`lba16, dr`devLow, dr`next, dr`left, dr`log, buf
    ensures dr.Valid() && a in {CmdAddress(old(dr.devLow), sec), sec}
    ensures st == Success ==>
      SEC_WORDS * (a + 1) <= |dr.disk| && buf[..SEC_WORDS] == dr.disk[SEC_WORDS * a..SEC_WORDS * (a + 1)]
    ensures AllGood(old(dr.script)) && CmdAddress(old(dr.devLow), sec) + 1 <= dr.sectors ==>
      && st == Success && AllGood(dr.script) && a == CmdAddress(old(dr.devLow), sec)
      && dr.devLow == Or4(old(dr.devLow), sec / LBA24)
  {
    hide Filled, AllGood, Tries, Or4, CmdAddress, Drive.Lba;
    ghost var k, fails, low;
    st, k, fails, low := Issue(dr, sec, 1);
    a := CmdAddress(low, sec);
    if st != Success {
      return;
    }
    st := ReadBlocks(dr, 1, buf, 0);
    if st == Success {
      FilledOne(buf[..], dr.disk, a);
    }
  }

  lemma FilledOne(cur: seq<Word>, disk: seq<Word>, a: nat)
    requires exists init :: Filled(init, cur, disk, 0, SEC_WORDS, SEC_WORDS, SEC_WORDS * a)
    ensures |cur| >= SEC_WORDS && SEC_WORDS * (a + 1) <= |disk|
    ensures cur[..SEC_WORDS] == disk[SEC_WORDS * a..SEC_WORDS * (a + 1)]
  {
    assert cur[..SEC_WORDS] == cur[0..SEC_WORDS];
  }

  /** With a drive just reset, a read of sector 2^24 and then one of sector 0: both succeed with the data of
      sector 2^24. */
  method ReadsAnotherSector(dr: Drive, first: array<Word>, second: array<Word>) returns (a: Result, b: Result)
    requires dr.Valid() && dr.devLow == 0 && AllGood(dr.script) && dr.sectors > LBA24
    requires first.Length == second.Length == SEC_WORDS && first != second
    modifies dr, first, second
    ensures a == Success && b == Success && dr.disk == old(dr.disk)
    ensures SEC_WORDS * (LBA24 + 1) <= |dr.disk|
    ensures first[..] == second[..] == dr.disk[SEC_WORDS * LBA24..SEC_WORDS * (LBA24 + 1)]
  {
    assert CmdAddress(0, LBA24) == LBA24 && CmdAddress(1, 0) == LBA24;
    ghost var adr;
    a, adr := ReadOne(dr, LBA24, first);
    b, adr := ReadOne(dr, 0, second);
    assert first[..] == first[..SEC_WORDS] && second[..] == second[..SEC_WORDS];
  }

  /** The chunks of a range at the addresses they are sent to: the bits of each one stay in the register. */
  function Sent(low: nat, sec: nat, count: nat): seq<Cmd>
    requires low < 16 && sec + count <= 16 * LBA24
    decreases count
  {
    if count == 0 then []
    else
      [Cmd(CmdAddress(low, sec), Min(count, SECCNT_MAX), true)]
      + Sent(Or4(low, sec / LBA24), sec + Min(count, SECCNT_MAX), count - Min(count, SECCNT_MAX))
  }

  lemma SentStep(low: nat, sec: nat, count: nat)
    requires low < 16 && count > 0 && sec + count <= 16 * LBA24
    ensures Sent(low, sec, count) == [Cmd(CmdAddress(low, sec), Min(count, SECCNT_MAX), true)]
      + Sent(Or4(low, sec / LBA24), sec + Min(count, SECCNT_MAX), count - Min(count, SECCNT_MAX))
    ensures Sent(low, sec, count)[0] == Cmd(CmdAddress(low, sec), Min(count, SECCNT_MAX), true)
    ensures Sent(low, sec, count)[1..]
         == Sent(Or4(low, sec / LBA24), sec + Min(count, SECCNT_MAX), count - Min(count, SECCNT_MAX))
  {
    hide CmdAddress, Or4, Min;
  }

  /** The commands sent are the chunks of the range if and only if every one is addressed right. */
  lemma {:induction false} SentIff(low: nat, sec: nat, count: nat)
    requires low < 16 && sec + count <= 16 * LBA24
    ensures Sent(low, sec, count) == Chunks(sec, count) <==> CleanRange(low, sec, count)
    decreases count
  {
    hide CmdAddress, Or4, Clean, Sent;
    if count == 0 {
      SentNone(low, sec);
    } else {
      var n := Min(count, SECCNT_MAX);
      SentStep(low, sec, count);
      AddressIff(low, sec);
      CleanKeeps(low, sec);
      SentIff(Or4(low, sec / LBA24), sec + n, count - n);
      assert Chunks(sec, count)[0] == Cmd(sec, n, true) && Chunks(sec, count)[1..] == Chunks(sec + n, count - n);
    }
  }

  lemma SentNone(low: nat, sec: nat)
    requires low < 16 && sec <= 16 * LBA24
    ensures Sent(low, sec, 0) == []
  {}

  lemma CleanKeeps(low: nat, sec: nat)
    requires low < 16 && sec < 16 * LBA24
    ensures Clean(low, sec) <==> Or4(low, sec / LBA24) == sec / LBA24
  {
    hide Or4;
  }

  /** Every command goes to sectors of the drive. */
  ghost predicate OnDrive(cs: seq<Cmd>, sectors: nat) {
    forall i :: 0 <= i < |cs| ==> cs[i].lba + cs[i].n <= sectors
  }

  lemma {:induction false} ChunksOnDrive(sec: nat, count: nat, sectors: nat)
    requires sec + count <= sectors
    ensures OnDrive(Chunks(sec, count), sectors)
    decreases count
  {
    if count > 0 {
      var n := Min(count, SECCNT_MAX);
      ChunksOnDrive(sec + n, count - n, sectors);
      assert Chunks(sec, count)[1..] == Chunks(sec + n, count - n);
    }
  }

  /** What commands deliver, one behind the other. */
  function Gathered(disk: seq<Word>, cs: seq<Cmd>): seq<Word> {
    if cs == [] then []
    else Gathered(disk, cs[..|cs| - 1]) + Sectors(disk, cs[|cs| - 1].lba, cs[|cs| - 1].n)
  }

  /** `n` sectors from `lba` on, none if the disk does not hold them. */
  function Sectors(disk: seq<Word>, lba: nat, n: nat): seq<Word> {
    if SEC_WORDS * (lba + n) <= |disk| then disk[SEC_WORDS * lba..SEC_WORDS * (lba + n)] else []
  }

  lemma GatheredMore(disk: seq<Word>, cs: seq<Cmd>, c: Cmd)
    ensures Gathered(disk, cs + [c]) == Gathered(disk, cs) + Sectors(disk, c.lba, c.n)
  {
    hide Sectors;
    assert (cs + [c])[..|cs|] == cs;
  }

  /** The chunks of a range deliver the sectors of the range. */
  lemma {:induction false} ChunksGathered(disk: seq<Word>, done: seq<Cmd>, from: nat, sec: nat, count: nat)
    requires from <= sec && SEC_WORDS * (sec + count) <= |disk|
    requires Gathered(disk, done) == disk[SEC_WORDS * from..SEC_WORDS * sec]
    ensures Gathered(disk, done + Chunks(sec, count)) == disk[SEC_WORDS * from..SEC_WORDS * (sec + count)]
    decreases count
  {
    hide Gathered;
    if count == 0 {
      assert done + Chunks(sec, 0) == done;
    } else {
      var n := Min(count, SECCNT_MAX);
      var c := Cmd(sec, n, true);
      GatheredMore(disk, done, c);
      SlicesMeet(disk, SEC_WORDS * from, SEC_WORDS * sec, SEC_WORDS * (sec + n));
      ChunksGathered(disk, done + [c], from, sec + n, count - n);
      NextChunk(done, At(sec, count, 0), c);
    }
  }

  lemma SlicesMeet(s: seq<Word>, a: nat, b: nat, c: nat)
    requires a <= b <= c <= |s|
    ensures s[a..b] + s[b..c] == s[a..c]
  {}

  /** How one chunk of `n` sectors from `sec` on ends: the attempts at its command, and then its blocks. */
  function ChunkEnds(s: seq<bool>, low: nat, sec: nat, n: nat, sectors: nat, m: nat, tries: nat): (r: Sends)
    requires low < 16 && sec < 16 * LBA24 && m >= 1
    ensures r.low < 16
  {
    var a := Issued(s, low, sec, n, sectors, tries);
    if a.st == Failure then a
    else
      var (ok, rest) := Pass(a.rest, BlockChecks(0, n, m));
      Sends(if ok then Success else Failure, a.refused, a.low, rest)
  }

  /** How a whole transfer ends on a drive with `sectors` sectors and blocks of `m`, if each command is tried up to
      `tries` times: it is the checks that decide, and whether the chunks are on the drive. */
  function Ends(s: seq<bool>, low: nat, sec: nat, count: nat, sectors: nat, m: nat, tries: nat): Result
    requires low < 16 && sec + count <= 16 * LBA24 && m >= 1
    decreases count
  {
    if count == 0 then Success
    else
      var n := Min(count, SECCNT_MAX);
      var c := ChunkEnds(s, low, sec, n, sectors, m, tries);
      if c.st == Failure then Failure else Ends(c.rest, c.low, sec + n, count - n, sectors, m, tries)
  }

  lemma EndsStep(s: seq<bool>, low: nat, sec: nat, count: nat, sectors: nat, m: nat, tries: nat)
    requires low < 16 && sec + count <= 16 * LBA24 && m >= 1
    ensures count == 0 ==> Ends(s, low, sec, count, sectors, m, tries) == Success
    ensures count > 0 ==> var n := Min(count, SECCNT_MAX); var c := ChunkEnds(s, low, sec, n, sectors, m, tries);
      Ends(s, low, sec, count, sectors, m, tries) ==
        if c.st == Failure then Failure else Ends(c.rest, c.low, sec + n, count - n, sectors, m, tries)
  {
    hide ChunkEnds;
  }

  /** What the checks of a chunk come to: the resets at the attempts that are refused, whether there is one before
      the last attempt, and then `checks` checks that turn out well. */
  datatype Plan = Plan(resets: seq<bool>, last: bool)

  function PlanChecks(p: Plan, checks: nat): seq<bool> {
    RefusedChecks(p.resets) + (AttemptChecks(p.last, true) + seq(checks, _ => true))
  }

  function AllChecks(plans: seq<Plan>, count: nat, m: nat): seq<bool>
    requires m >= 1
    decreases count
  {
    if count == 0 || plans == [] then []
    else
      var n := Min(count, SECCNT_MAX);
      PlanChecks(plans[0], BlockChecks(0, n, m)) + AllChecks(plans[1..], count - n, m)
  }

  lemma {:induction false} PassAll(k: nat, rest: seq<bool>)
    ensures Pass(seq(k, _ => true) + rest, k) == (true, rest)
  {
    var s := seq(k, _ => true) + rest;
    if k > 0 {
      assert s[1..] == seq(k - 1, _ => true) + rest;
      PassAll(k - 1, rest);
    } else {
      assert s == rest;
    }
  }

  /** A transfer whose chunks are addressed right, on the drive, succeeds if the command of each chunk is refused
      fewer times than it is tried, whatever resets there are, and its blocks are not disturbed. */
  lemma {:induction false} EndsWell(plans: seq<Plan>, rest: seq<bool>, low: nat, sec: nat, count: nat, sectors: nat,
                                    m: nat, tries: nat)
    requires low < 16 && sec + count <= 16 * LBA24 && m >= 1 && CleanRange(low, sec, count) && sec + count <= sectors
    requires Loops(count) <= |plans| && forall i :: 0 <= i < |plans| ==> |plans[i].resets| < tries
    ensures Ends(AllChecks(plans, count, m) + rest, low, sec, count, sectors, m, tries) == Success
    decreases count
  {
    hide Clean, CmdAddress, Or4, Ends, Issued, BlockChecks, AttemptChecks, RefusedChecks, Pass, Loops, CleanRange,
      AllChecks, Min;
    EndsStep(AllChecks(plans, count, m) + rest, low, sec, count, sectors, m, tries);
    if count > 0 {
      var after, missing := CleanNext(low, sec, count);
      ChunkWell(plans, rest, low, sec, count, sectors, m, tries);
      EndsWell(plans[1..], rest, sec / LBA24, after, missing, sectors, m, tries);
    }
  }

  lemma ChunkWell(plans: seq<Plan>, rest: seq<bool>, low: nat, sec: nat, count: nat, sectors: nat, m: nat, tries: nat)
    requires low < 16 && sec + count <= 16 * LBA24 && m >= 1 && count > 0 && Clean(low, sec) && sec + count <= sectors
    requires plans != [] && |plans[0].resets| < tries
    ensures var n := Min(count, SECCNT_MAX);
      var c := ChunkEnds(AllChecks(plans, count, m) + rest, low, sec, n, sectors, m, tries);
      c == Sends(Success, |plans[0].resets|, sec / LBA24, AllChecks(plans[1..], count - n, m) + rest)
  {
    hide Clean, CmdAddress, Or4, Issued, BlockChecks, AttemptChecks, RefusedChecks, Pass;
    var n := Min(count, SECCNT_MAX);
    var k, p, more := BlockChecks(0, n, m), plans[0], AllChecks(plans[1..], count - n, m) + rest;
    PlanApart(p, k, AllChecks(plans[1..], count - n, m), rest);
    TakenAfter(p.resets, p.last, seq(k, _ => true) + more, low, sec, n, sectors, tries);
    PassAll(k, more);
  }

  lemma PlanApart(p: Plan, k: nat, a: seq<bool>, b: seq<bool>)
    ensures PlanChecks(p, k) + a + b
         == RefusedChecks(p.resets) + (AttemptChecks(p.last, true) + (seq(k, _ => true) + (a + b)))
  {
    hide RefusedChecks, AttemptChecks;
  }

  /** One round of bdh8b16_get_sectors. `done` are the commands carried out: none, or one at the address the
      register makes it go to. */
  method GetChunk(dr: Drive, sec: nat, count: nat, buf: array<Word>, iBuf: nat)
    returns (st: Result, n: nat, ghost k: nat, ghost fails: nat, ghost low: nat, ghost done: seq<Cmd>)
    requires dr.Valid() && count > 0 && sec + count <= 16 * LBA24 && iBuf + SEC_WORDS * count <= buf.Length
    modifies dr`script, dr`secCnt, dr`lba0, dr`lba8, dr`lba16, dr`devLow, dr`next, dr`left, dr`log, buf
    ensures dr.Valid() && 1 <= n == Min(count, SECCNT_MAX) <= count && k <= fails <= ERRREPCNT
    ensures low in {old(dr.devLow), 0}
    ensures done in {[], [Cmd(CmdAddress(low, sec), n, true)]} && (done != [] ==> fails < ERRREPCNT)
    ensures dr.log == old(dr.log) + Tries(CmdAddress(old(dr.devLow), sec), sec, n, k, fails) + done
    ensures dr.devLow in {low, Or4(low, sec / LBA24)}
    ensures buf[..iBuf] == old(buf[..iBuf]) && buf[iBuf + SEC_WORDS * n..] == old(buf[iBuf + SEC_WORDS * n..])
    ensures st == Success ==>
      && done == [Cmd(CmdAddress(low, sec), n, true)] && dr.devLow == Or4(low, sec / LBA24)
      && buf[iBuf..iBuf + SEC_WORDS * n] == Sectors(dr.disk, CmdAddress(low, sec), n)
    ensures AllGood(old(dr.script)) && CmdAddress(old(dr.devLow), sec) + Min(count, SECCNT_MAX) <= dr.sectors ==>
      st == Success && fails == 0 && low == old(dr.devLow) && AllGood(dr.script)
    ensures Sends(st, fails, dr.devLow, dr.script) ==
      ChunkEnds(old(dr.script), old(dr.devLow), sec, Min(count, SECCNT_MAX), dr.sectors, dr.multiCnt, ERRREPCNT)
  {
    hide AllGood, Tries, Drive.Lba, Or4, CmdAddress, Filled, Issued, Pass, BlockChecks, ReadyAfter, AfterSent;
    st, k, fails, low := Issue(dr, sec, SecCnt(count));
    n := if SecCnt(count) == 0 then SECCNT_MAX else SecCnt(count);
    done := [];
    if st != Success {
      assert dr.log == dr.log + done;
      return;
    }
    done := [Cmd(CmdAddress(low, sec), n, true)];
    ghost var before := buf[..];
    st := ReadBlocks(dr, n, buf, iBuf);
    if st == Success {
      FilledSectors(before, buf[..], dr.disk, iBuf, CmdAddress(low, sec), n);
    }
  }

  lemma FilledSectors(init: seq<Word>, cur: seq<Word>, disk: seq<Word>, off: nat, lba: nat, n: nat)
    requires Filled(init, cur, disk, off, off + SEC_WORDS * n, off + SEC_WORDS * n, SEC_WORDS * lba)
    ensures off + SEC_WORDS * n <= |cur| && cur[off..off + SEC_WORDS * n] == Sectors(disk, lba, n)
  {}

  /** One round as a step of the transfer `t`. */
  method GetRound(dr: Drive, sec: nat, count: nat, buf: array<Word>, iBuf: nat, ghost t: Range, ghost good: bool,
                  ghost init: seq<Word>, ghost log0: seq<Cmd>, ghost l: seq<Cmd>)
    returns (st: Result, n: nat, ghost l': seq<Cmd>)
    requires dr.Valid() && Fits(t) && count > 0 && sec >= t.sec && iBuf == SEC_WORDS * (sec - t.sec)
    requires sec + count == t.sec + t.count && SEC_WORDS * t.count <= buf.Length
    requires dr.log == log0 + l && Underway(t, Range(dr.devLow, sec, count), good, dr.disk, init, buf[..], l)
    requires good ==> AllGood(dr.script) && OnDrive(Sent(t.low, t.sec, t.count), dr.sectors)
    modifies dr`script, dr`secCnt, dr`lba0, dr`lba8, dr`lba16, dr`devLow, dr`next, dr`left, dr`log, buf
    ensures dr.Valid() && 1 <= n == Min(count, SECCNT_MAX) <= count && dr.log == log0 + l'
    ensures old(dr.devLow) == 0 && sec < LBA24 ==> dr.devLow == 0
    ensures |init| == buf.Length && buf[SEC_WORDS * t.count..] == init[SEC_WORDS * t.count..]
    ensures CleanRange(t.low, t.sec, t.count) ==> Follow(At(t.sec, t.count, 0), l').At?
    ensures st == Success ==> Underway(t, Range(dr.devLow, sec + n, count - n), good, dr.disk, init, buf[..], l')
    ensures good ==> st == Success && AllGood(dr.script)
    ensures Ends(old(dr.script), old(dr.devLow), sec, count, dr.sectors, dr.multiCnt, ERRREPCNT) ==
      if st == Failure then Failure
      else Ends(dr.script, dr.devLow, sec + n, count - n, dr.sectors, dr.multiCnt, ERRREPCNT)
  {
    hide AllGood, Follow, Tries, Drive.Lba, Accepted, Chunks, Or4, CmdAddress, Clean, CleanRange, Min, Sent, OnDrive,
      Gathered, Sectors, Underway, ChunkEnds, Ends;
    EndsStep(dr.script, dr.devLow, sec, count, dr.sectors, dr.multiCnt, ERRREPCNT);
    ghost var r, before := Range(dr.devLow, sec, count), buf[..];
    ghost var k, fails, low, done;
    if good {
      FirstOnDrive(t, r, good, dr.disk, init, before, l, dr.sectors);
    }
    st, n, k, fails, low, done := GetChunk(dr, sec, count, buf, iBuf);
    ghost var tries := Tries(CmdAddress(r.low, sec), sec, n, k, fails);
    l' := l + tries + done;
    LogGrows(log0, l, tries, done);
    LowStays(r.low, low, sec);
    UnderwayBreaks(t, r, good, dr.disk, init, before, buf[..], l, low, k, fails, done);
    if st == Success {
      UnderwayMore(t, r, good, dr.disk, init, before, buf[..], l, l', low, k, fails, done[0]);
    }
  }

  /** bdh8b16_get_sectors. On success the buffer holds what the commands carried out deliver. If every chunk is
      addressed right these are the chunks of the range, each after at most five failed attempts, and the
      buffer holds the sectors of the range in order. If no status check fails and the addresses are on the
      drive, the transfer succeeds, and its commands are those of `Sent`: they are the chunks of the range if
      and only if every chunk is addressed right. */
  method GetSectors(dr: Drive, sec0: nat, count0: nat, buf: array<Word>) returns (st: Result)
    requires dr.Valid() && sec0 + count0 <= 16 * LBA24 && SEC_WORDS * count0 <= buf.Length
    modifies dr`script, dr`secCnt, dr`lba0, dr`lba8, dr`lba16, dr`devLow, dr`next, dr`left, dr`log, buf
    ensures dr.Valid() && |old(dr.log)| <= |dr.log| && dr.log[..|old(dr.log)|] == old(dr.log)
    ensures old(dr.devLow) == 0 && sec0 + count0 <= LBA24 ==> dr.devLow == 0
    ensures buf[SEC_WORDS * count0..] == old(buf[SEC_WORDS * count0..])
    ensures st == Success ==> buf[..SEC_WORDS * count0] == Gathered(dr.disk, Accepted(dr.log[|old(dr.log)|..]))
    ensures CleanRange(old(dr.devLow), sec0, count0) ==>
      && Follow(At(sec0, count0, 0), dr.log[|old(dr.log)|..]).At?
      && (st == Success ==> Accepted(dr.log[|old(dr.log)|..]) == Chunks(sec0, count0))
      && (st == Success && count0 > 0 ==>
            SEC_WORDS * (sec0 + count0) <= |dr.disk|
            && buf[..SEC_WORDS * count0] == dr.disk[SEC_WORDS * sec0..SEC_WORDS * (sec0 + count0)])
      && (AllGood(old(dr.script)) && sec0 + count0 <= dr.sectors ==> st == Success)
    ensures AllGood(old(dr.script)) && OnDrive(Sent(old(dr.devLow), sec0, count0), dr.sectors) ==>
      && st == Success
      && Accepted(dr.log[|old(dr.log)|..]) == Sent(old(dr.devLow), sec0, count0)
      && (Accepted(dr.log[|old(dr.log)|..]) == Chunks(sec0, count0) <==> CleanRange(old(dr.devLow), sec0, count0))
    ensures st == Ends(old(dr.script), old(dr.devLow), sec0, count0, dr.sectors, dr.multiCnt, 6)
  {
    hide AllGood, Follow, Tries, Drive.Lba, Accepted, Chunks, Loops, SecCnt, Or4, CmdAddress, Clean, CleanRange, Min,
      Sent, OnDrive, Gathered, Sectors, Underway, Ends;
    var sec: nat, count: nat, iBuf: nat := sec0, count0, 0;
    ghost var init, log0, l, t := buf[..], dr.log, [], Range(dr.devLow, sec0, count0);
    ghost var good := AllGood(dr.script) && OnDrive(Sent(dr.devLow, sec0, count0), dr.sectors);
    UnderwayStarts(t, good, dr.disk, buf[..], dr.sectors);
    var iLoops, iLoop := Loops(count), 0;
    var n := 0;
    assert dr.log == log0 + l;
    while iLoop < iLoops
      invariant dr.Valid() && 0 <= iLoop && iLoops == iLoop + Loops(count)
      invariant t.low == 0 && sec0 + count0 <= LBA24 ==> dr.devLow == 0
      invariant sec + count == sec0 + count0 && iBuf == SEC_WORDS * (sec - sec0) && sec0 <= sec
      invariant dr.log == log0 + l && Underway(t, Range(dr.devLow, sec, count), good, dr.disk, init, buf[..], l)
      invariant good ==> AllGood(dr.script)
      invariant Ends(old(dr.script), t.low, sec0, count0, dr.sectors, dr.multiCnt, ERRREPCNT)
        == Ends(dr.script, dr.devLow, sec, count, dr.sectors, dr.multiCnt, ERRREPCNT)
    {
      st, n, l := GetRound(dr, sec, count, buf, iBuf, t, good, init, log0, l);
      if st != Success {
        LogGrows(log0, l, [], []);
        return;
      }
      iBuf := iBuf + SEC_WORDS * n;
      count := count - n;
      sec := sec + n;
      iLoop := iLoop + 1;
    }
    st := Success;
    EndsStep(dr.script, dr.devLow, sec, count, dr.sectors, dr.multiCnt, ERRREPCNT);
    LogGrows(log0, l, [], []);
    UnderwayEnds(t, Range(dr.devLow, sec, count), good, dr.disk, init, buf[..], l);
  }

  /** A transfer: `count` sectors from `sec` on, when the device register holds `low`. */
  datatype Range = Range(low: nat, sec: nat, count: nat)

  ghost predicate Fits(t: Range) {
    t.low < 16 && t.sec + t.count <= 16 * LBA24
  }

  /** How far the transfer `t` has come when `r` is left of it after the commands `l`: the buffer holds what
      those carried out deliver. */
  ghost predicate Underway(t: Range, r: Range, good: bool, disk: seq<Word>, init: seq<Word>, cur: seq<Word>,
                           l: seq<Cmd>)
    requires Fits(t)
  {
    && Fits(r) && t.sec <= r.sec && r.sec + r.count == t.sec + t.count
    && |cur| == |init| && SEC_WORDS * t.count <= |cur| && cur[SEC_WORDS * t.count..] == init[SEC_WORDS * t.count..]
    && cur[..SEC_WORDS * (r.sec - t.sec)] == Gathered(disk, Accepted(l))
    && (CleanRange(t.low, t.sec, t.count) ==>
          && CleanRange(r.low, r.sec, r.count) && Follow(At(t.sec, t.count, 0), l) == At(r.sec, r.count, 0)
          && (r.sec == t.sec || SEC_WORDS * r.sec <= |disk|))
    && (good ==> Accepted(l) + Sent(r.low, r.sec, r.count) == Sent(t.low, t.sec, t.count))
  }

  lemma UnderwayStarts(t: Range, good: bool, disk: seq<Word>, init: seq<Word>, sectors: nat)
    requires Fits(t) && SEC_WORDS * t.count <= |init|
    ensures Underway(t, t, good, disk, init, init, [])
    ensures CleanRange(t.low, t.sec, t.count) && t.sec + t.count <= sectors ==>
      OnDrive(Sent(t.low, t.sec, t.count), sectors)
  {
    hide CleanRange, Sent, OnDrive, Chunks;
    assert init[..0] == [] && [] + Sent(t.low, t.sec, t.count) == Sent(t.low, t.sec, t.count);
    SentIff(t.low, t.sec, t.count);
    if t.sec + t.count <= sectors {
      ChunksOnDrive(t.sec, t.count, sectors);
    }
  }

  /** After a round, whether or not it succeeded. */
  lemma UnderwayBreaks(t: Range, r: Range, good: bool, disk: seq<Word>, init: seq<Word>, before: seq<Word>,
                       after: seq<Word>, l: seq<Cmd>, low: nat, k: nat, fails: nat, done: seq<Cmd>)
    requires Fits(t) && Underway(t, r, good, disk, init, before, l) && r.count > 0 && k <= fails <= ERRREPCNT
    requires low in {r.low, 0} && done in {[], [Cmd(CmdAddress(low, r.sec), Min(r.count, SECCNT_MAX), true)]}
    requires done != [] ==> fails < ERRREPCNT
    requires var b := SEC_WORDS * (r.sec - t.sec + Min(r.count, SECCNT_MAX));
      |after| == |before| && after[b..] == before[b..]
    ensures |after| == |init| && after[SEC_WORDS * t.count..] == init[SEC_WORDS * t.count..]
    ensures CleanRange(t.low, t.sec, t.count) ==>
      var tries := Tries(CmdAddress(r.low, r.sec), r.sec, Min(r.count, SECCNT_MAX), k, fails);
      Follow(At(t.sec, t.count, 0), l + tries + done).At?
  {
    hide Follow, Fails, Tries, Or4, CmdAddress, Clean, CleanRange, Accepted, Gathered, Sent;
    var b := SEC_WORDS * (r.sec - t.sec + Min(r.count, SECCNT_MAX));
    SameBeyond(before, after, b, SEC_WORDS * t.count);
    if CleanRange(t.low, t.sec, t.count) {
      ChunkRight(r, low, k, fails, done, At(t.sec, t.count, 0), l);
    }
  }

  /** After a round that has succeeded. */
  lemma UnderwayMore(t: Range, r: Range, good: bool, disk: seq<Word>, init: seq<Word>, before: seq<Word>,
                     after: seq<Word>, l: seq<Cmd>, l': seq<Cmd>, low: nat, k: nat, fails: nat, c: Cmd)
    requires Fits(t) && Underway(t, r, good, disk, init, before, l) && r.count > 0 && k <= fails < ERRREPCNT
    requires low in {r.low, 0} && c == Cmd(CmdAddress(low, r.sec), Min(r.count, SECCNT_MAX), true)
    requires good ==> low == r.low
    requires l' == l + Tries(CmdAddress(r.low, r.sec), r.sec, c.n, k, fails) + [c]
    requires var a := SEC_WORDS * (r.sec - t.sec);
      && |after| == |before| && after[..a] == before[..a]
      && after[a + SEC_WORDS * c.n..] == before[a + SEC_WORDS * c.n..]
      && after[a..a + SEC_WORDS * c.n] == Sectors(disk, c.lba, c.n)
    ensures Underway(t, Range(Or4(low, r.sec / LBA24), r.sec + c.n, r.count - c.n), good, disk, init, after, l')
  {
    hide Follow, Fails, Tries, Or4, CmdAddress, Clean, CleanRange, Accepted, Gathered, Sent, Sectors;
    var a := SEC_WORDS * (r.sec - t.sec);
    SameBeyond(before, after, a + SEC_WORDS * c.n, SEC_WORDS * t.count);
    CarriedOut(l, CmdAddress(r.low, r.sec), r.sec, c, k, fails);
    ChunkGathered(disk, before, after, a, Accepted(l), c);
    if CleanRange(t.low, t.sec, t.count) {
      ChunkRight(r, low, k, fails, [c], At(t.sec, t.count, 0), l);
    }
    if good {
      ChunkSent(Accepted(l), r.low, r.sec, r.count, Sent(t.low, t.sec, t.count));
    }
  }

  lemma UnderwayEnds(t: Range, r: Range, good: bool, disk: seq<Word>, init: seq<Word>, cur: seq<Word>, l: seq<Cmd>)
    requires Fits(t) && Underway(t, r, good, disk, init, cur, l) && r.count == 0
    ensures cur[SEC_WORDS * t.count..] == init[SEC_WORDS * t.count..]
    ensures cur[..SEC_WORDS * t.count] == Gathered(disk, Accepted(l))
    ensures CleanRange(t.low, t.sec, t.count) ==>
      && Follow(At(t.sec, t.count, 0), l).At? && Accepted(l) == Chunks(t.sec, t.count)
      && (t.count > 0 ==>
            && SEC_WORDS * (t.sec + t.count) <= |disk|
            && cur[..SEC_WORDS * t.count] == disk[SEC_WORDS * t.sec..SEC_WORDS * (t.sec + t.count)])
    ensures good ==>
      && Accepted(l) == Sent(t.low, t.sec, t.count)
      && (Accepted(l) == Chunks(t.sec, t.count) <==> CleanRange(t.low, t.sec, t.count))
  {
    hide Follow, CleanRange, Accepted, Gathered, Sent, Chunks;
    SentNone(r.low, r.sec);
    SentIff(t.low, t.sec, t.count);
    assert Accepted(l) + [] == Accepted(l);
    if CleanRange(t.low, t.sec, t.count) {
      CommandsTile(t.sec, t.count, l);
      NoChunks(r.sec);
      if t.count > 0 {
        RangeGathered(disk, t.sec, t.count);
      }
    }
  }

  /** The next chunk is addressed right, and so is what follows it. */
  lemma CleanNext(low: nat, sec: nat, count: nat) returns (rest: nat, missing: nat)
    requires low < 16 && count > 0 && sec + count <= 16 * LBA24 && CleanRange(low, sec, count)
    ensures rest == sec + Min(count, SECCNT_MAX) && missing == count - Min(count, SECCNT_MAX) < count
    ensures Clean(low, sec) && Or4(low, sec / LBA24) == sec / LBA24 && CleanRange(sec / LBA24, rest, missing)
  {
    rest, missing := sec + Min(count, SECCNT_MAX), count - Min(count, SECCNT_MAX);
  }

  lemma NoChunks(sec: nat)
    ensures Chunks(sec, 0) == []
  {}

  lemma RangeGathered(disk: seq<Word>, sec: nat, count: nat)
    requires SEC_WORDS * (sec + count) <= |disk|
    ensures Gathered(disk, Chunks(sec, count)) == disk[SEC_WORDS * sec..SEC_WORDS * (sec + count)]
  {
    hide Chunks, Gathered;
    NoneGathered(disk, SEC_WORDS * sec);
    ChunksGathered(disk, [], sec, sec, count);
    assert [] + Chunks(sec, count) == Chunks(sec, count);
  }

  lemma NoneGathered(disk: seq<Word>, at: nat)
    requires at <= |disk|
    ensures Gathered(disk, []) == disk[at..at]
  {}

  lemma LowStays(low: nat, now: nat, sec: nat)
    requires low < 16 && now in {low, 0}
    ensures low == 0 && sec < LBA24 ==> Or4(now, sec / LBA24) == 0
  {}

  lemma LogGrows(log0: seq<Cmd>, l: seq<Cmd>, tries: seq<Cmd>, done: seq<Cmd>)
    ensures log0 + l + tries + done == log0 + (l + tries + done) && l + [] == l
    ensures (log0 + (l + tries + done))[|log0|..] == l + tries + done
  {}

  /** Failed attempts are not among the commands carried out. */
  lemma CarriedOut(l: seq<Cmd>, a: nat, sec: nat, c: Cmd, k: nat, fails: nat)
    requires k <= fails && c.ok
    ensures Accepted(l + Tries(a, sec, c.n, k, fails) + [c]) == Accepted(l) + [c]
  {
    hide Accepted, Fails;
    NotAccepted(l, a, c.n, k);
    NotAccepted(l + Fails(a, c.n, k), sec, c.n, fails - k);
    assert l + Fails(a, c.n, k) + Fails(sec, c.n, fails - k) == l + Tries(a, sec, c.n, k, fails);
    AcceptedMore(l + Tries(a, sec, c.n, k, fails), c);
  }

  lemma {:induction false} NotAccepted(l: seq<Cmd>, sec: nat, n: nat, k: nat)
    ensures Accepted(l + Fails(sec, n, k)) == Accepted(l)
  {
    hide Fails;
    FailsStep(l, sec, n, k);
    if k > 0 {
      NotAccepted(l, sec, n, k - 1);
      assert (l + Fails(sec, n, k))[..|l + Fails(sec, n, k - 1)|] == l + Fails(sec, n, k - 1);
    }
  }

  lemma AcceptedMore(l: seq<Cmd>, c: Cmd)
    requires c.ok
    ensures Accepted(l + [c]) == Accepted(l) + [c]
  {
    assert (l + [c])[..|l|] == l;
  }

  /** A chunk that is addressed right goes on with the range, and so can the next one. */
  lemma ChunkRight(r: Range, low: nat, k: nat, fails: nat, done: seq<Cmd>, p: Progress, l: seq<Cmd>)
    requires Fits(r) && r.count > 0 && CleanRange(r.low, r.sec, r.count) && Follow(p, l) == At(r.sec, r.count, 0)
    requires k <= fails <= ERRREPCNT && low in {r.low, 0} && (done != [] ==> fails < ERRREPCNT)
    requires done in {[], [Cmd(CmdAddress(low, r.sec), Min(r.count, SECCNT_MAX), true)]}
    ensures var n := Min(r.count, SECCNT_MAX); var tries := Tries(CmdAddress(r.low, r.sec), r.sec, n, k, fails);
      && Follow(p, l + tries + done).At?
      && (done != [] ==>
            && done[0].lba == r.sec && Follow(p, l + tries + done) == At(r.sec + n, r.count - n, 0)
            && CleanRange(Or4(low, r.sec / LBA24), r.sec + n, r.count - n))
  {
    hide Follow, Fails, Tries, Or4, CmdAddress, Clean, CleanRange;
    var n := Min(r.count, SECCNT_MAX);
    AddressIff(r.low, r.sec);
    AfterReset(r.sec);
    var rest, missing := CleanNext(r.low, r.sec, r.count);
    TriesStep(r.sec, r.sec, n, k, fails);
    FollowFails(p, l, r.sec, r.count, fails);
    if done == [] {
      assert l + Fails(r.sec, n, fails) + done == l + Fails(r.sec, n, fails);
    } else {
      FollowOne(p, l + Fails(r.sec, n, fails), done[0]);
    }
  }

  /** The first chunk still to be sent goes to the drive. */
  lemma FirstOnDrive(t: Range, r: Range, good: bool, disk: seq<Word>, init: seq<Word>, cur: seq<Word>, l: seq<Cmd>,
                     sectors: nat)
    requires Fits(t) && Underway(t, r, good, disk, init, cur, l) && r.count > 0
    requires OnDrive(Sent(t.low, t.sec, t.count), sectors)
    ensures good ==> CmdAddress(r.low, r.sec) + Min(r.count, SECCNT_MAX) <= sectors
  {
    hide Sent, CmdAddress, Min, CleanRange, Follow, Accepted, Gathered;
    if good {
      SentStep(r.low, r.sec, r.count);
      assert Sent(t.low, t.sec, t.count)[|Accepted(l)|] == Sent(r.low, r.sec, r.count)[0];
    }
  }

  lemma ChunkSent(done: seq<Cmd>, low: nat, sec: nat, count: nat, all: seq<Cmd>)
    requires low < 16 && count > 0 && sec + count <= 16 * LBA24 && done + Sent(low, sec, count) == all
    ensures var n := Min(count, SECCNT_MAX);
      done + [Cmd(CmdAddress(low, sec), n, true)] + Sent(Or4(low, sec / LBA24), sec + n, count - n) == all
  {
    hide Sent, CmdAddress, Min, Or4;
    SentStep(low, sec, count);
  }

  lemma ChunkGathered(disk: seq<Word>, before: seq<Word>, after: seq<Word>, a: nat, done: seq<Cmd>, c: Cmd)
    requires |before| == |after| && a + SEC_WORDS * c.n <= |after| && after[..a] == before[..a] && c.n > 0
    requires before[..a] == Gathered(disk, done) && after[a..a + SEC_WORDS * c.n] == Sectors(disk, c.lba, c.n)
    ensures after[..a + SEC_WORDS * c.n] == Gathered(disk, done + [c]) && SEC_WORDS * (c.lba + c.n) <= |disk|
  {
    hide Gathered;
    GatheredMore(disk, done, c);
    assert after[..a + SEC_WORDS * c.n] == after[..a] + after[a..a + SEC_WORDS * c.n];
  }

  lemma SameBeyond(before: seq<Word>, after: seq<Word>, b: nat, end: nat)
    requires b <= end <= |before| == |after| && after[b..] == before[b..]
    ensures after[end..] == before[end..]
  {
    assert after[end..] == after[b..][end - b..] && before[end..] == before[b..][end - b..];
  }

  /** The first `a` words of `src` are on the disk from `from` on; nothing outside `end` words changed. */
  ghost predicate Stored(init: seq<Word>, cur: seq<Word>, src: seq<Word>, a: nat, end: nat, from: nat) {
    && |cur| == |init| && a <= end <= |src| && Outside(init, cur, from, end)
    && (a > 0 ==> from + a <= |cur| && cur[from..from + a] == src[..a])
  }

  /** Nothing changed but the `end` words from `from` on, as far as they exist. */
  ghost predicate Outside(init: seq<Word>, cur: seq<Word>, from: nat, end: nat) {
    && |cur| == |init|
    && cur[..Min(from, |cur|)] == init[..Min(from, |cur|)]
    && cur[Min(from + end, |cur|)..] == init[Min(from + end, |cur|)..]
  }

  lemma OutsideMore(init: seq<Word>, cur: seq<Word>, after: seq<Word>, at: nat, n: nat, from: nat, end: nat)
    requires Outside(init, cur, from, end) && from <= at && at + n <= from + end && at + n <= |cur| == |after|
    requires after[..at] == cur[..at] && after[at + n..] == cur[at + n..]
    ensures Outside(init, after, from, end)
  {
    var lo, hi := Min(from, |cur|), Min(from + end, |cur|);
    assert after[..lo] == after[..at][..lo] && cur[..lo] == cur[..at][..lo];
    assert after[hi..] == after[at + n..][hi - at - n..] && cur[hi..] == cur[at + n..][hi - at - n..];
  }

  lemma StoredMore(init: seq<Word>, cur: seq<Word>, src: seq<Word>, a: nat, b: nat, end: nat, from: nat)
    requires Stored(init, cur, src, a, end, from) && a <= b <= end && from + b <= |cur|
    ensures from + a + |src[a..b]| <= |cur| && Stored(init, Splice(cur, from + a, src[a..b]), src, b, end, from)
  {
    hide Outside;
    var after := Splice(cur, from + a, src[a..b]);
    assert after[..from + a] == cur[..from + a] && after[from + b..] == cur[from + b..];
    OutsideMore(init, cur, after, from + a, b - a, from, end);
    assert after[from + a..from + b] == src[a..b];
    assert src[..b] == src[..a] + src[a..b];
    assert after[from..from + b] == after[from..from + a] + after[from + a..from + b];
    assert after[from..from + a] == cur[from..from + a];
  }

  lemma StoredNone(init: seq<Word>, src: seq<Word>, end: nat, from: nat)
    requires end <= |src|
    ensures Stored(init, init, src, 0, end, from)
  {}

  lemma StoredAll(init: seq<Word>, cur: seq<Word>, src: seq<Word>, end: nat, from: nat)
    requires Stored(init, cur, src, end, end, from) && end > 0
    ensures from + end <= |init| && cur == Splice(init, from, src[..end])
  {
    assert cur == cur[..from] + cur[from..from + end] + cur[from + end..];
  }

  lemma StoredEnd(init: seq<Word>, cur: seq<Word>, src: seq<Word>, a: nat, end: nat, from: nat)
    requires Stored(init, cur, src, a, end, from)
    ensures |cur| == |init| && end <= |src| && Outside(init, cur, from, end) && (a > 0 ==> from + a <= |cur|)
  {}

  /** The data phase of a write. `from` and `end` describe the whole request. */
  method WriteBlocks(dr: Drive, n: nat, buf: array<Word>, off: nat, ghost init: seq<Word>, ghost end: nat,
                     ghost from: nat)
    returns (st: Result, ghost a: nat)
    requires dr.Valid() && dr.left == n && from + off == SEC_WORDS * dr.next && off + SEC_WORDS * n <= end
    requires Stored(init, dr.disk, buf[..], off, end, from)
    modifies dr`script, dr`next, dr`left, dr`disk
    ensures dr.Valid()
    ensures Stored(init, dr.disk, buf[..], a, end, from) && (st == Success ==> a == off + SEC_WORDS * n)
    ensures (st == Success, dr.script) == Pass(old(dr.script), BlockChecks(0, n, dr.multiCnt))
    ensures AllGood(old(dr.script)) ==> st == Success && AllGood(dr.script)
  {
    hide Drive.Lba, Stored, AllGood, Splice, Pass, BlockChecks;
    ghost var start := dr.next;
    var iSec, iBuf := 0, off;
    StoredEnd(init, dr.disk, buf[..], off, end, from);
    while iSec < n
      invariant dr.Valid() && 0 <= iSec && dr.left == n - Min(iSec, n) && dr.next == start + Min(iSec, n)
      invariant iBuf == off + SEC_WORDS * Min(iSec, n) && Stored(init, dr.disk, buf[..], iBuf, end, from)
      invariant Pass(old(dr.script), BlockChecks(0, n, dr.multiCnt)) ==
        Pass(dr.script, BlockChecks(iSec, n, dr.multiCnt))
      invariant AllGood(old(dr.script)) ==> AllGood(dr.script)
    {
      NextBlock(dr.script, iSec, n, dr.multiCnt);
      var ready := BlockReady(dr, iSec);
      if !ready {
        return Failure, iBuf;
      }
      var iMulti := n - iSec;
      if iMulti > dr.multiCnt {
        iMulti := dr.multiCnt;
      }
      StoredMore(init, dr.disk, buf[..], iBuf, iBuf + SEC_WORDS * iMulti, end, from);
      assert buf[..][iBuf..iBuf + SEC_WORDS * iMulti] == buf[iBuf..iBuf + SEC_WORDS * iMulti];
      dr.Write16s(buf, iBuf, iMulti);
      iBuf := iBuf + SEC_WORDS * iMulti;
      iSec := iSec + dr.multiCnt;
    }
    NextBlock(dr.script, iSec, n, dr.multiCnt);
    return Success, iBuf;
  }

  lemma IssuedOnce(s: seq<bool>, low: nat, sec: nat, n: nat, sectors: nat)
    requires low < 16 && sec < 16 * LBA24
    ensures var r := ReadyAfter(s); var l := if r.reset then 0 else low; var m := Issued(s, low, sec, n, sectors, 1);
      && (m.st == Success <==> r.ok && Head(r.rest) && CmdAddress(l, sec) + n <= sectors)
      && m.low == (if r.written then Or4(l, sec / LBA24) else l)
      && m.rest == if r.ok then Behind(r.rest) else r.rest
  {
    hide ReadyAfter, Or4, CmdAddress, Issued;
    var r := ReadyAfter(s);
    var l := if r.reset then 0 else low;
    var after := if r.written then Or4(l, sec / LBA24) else l;
    IssuedStep(s, low, sec, n, sectors, 1);
    IssuedStep(Behind(r.rest), after, sec, n, sectors, 0);
  }

  /** One round of bdh8b16_put_sectors. */
  method PutChunk(dr: Drive, sec: nat, count: nat, buf: array<Word>, iBuf: nat, ghost init: seq<Word>, ghost end: nat,
                  ghost from: nat)
    returns (st: Result, n: nat, ghost a: nat, ghost rest: nat, ghost missing: nat)
    requires dr.Valid() && count > 0 && sec + count <= 16 * LBA24 && CleanRange(dr.devLow, sec, count)
    requires iBuf + SEC_WORDS * count <= end && from + iBuf == SEC_WORDS * sec
    requires Stored(init, dr.disk, buf[..], iBuf, end, from)
    modifies dr
    ensures dr.Valid() && n == Min(count, SECCNT_MAX) && dr.devLow in {old(dr.devLow), 0, sec / LBA24}
    ensures rest == sec + n && missing == count - n && (st == Success ==> CleanRange(dr.devLow, rest, missing))
    ensures Stored(init, dr.disk, buf[..], a, end, from) && Outside(init, dr.disk, from, end) && |init| == |dr.disk|
    ensures st == Success ==> a == iBuf + SEC_WORDS * n && 1 <= n <= count
    ensures AllGood(old(dr.script)) && sec + count <= dr.sectors ==> st == Success && AllGood(dr.script)
    ensures Ends(old(dr.script), old(dr.devLow), sec, count, dr.sectors, dr.multiCnt, 1) ==
      if st == Failure then Failure
      else Ends(dr.script, dr.devLow, sec + n, count - n, dr.sectors, dr.multiCnt, 1)
  {
    hide Stored, AllGood, Drive.Lba, Or4, CmdAddress, Clean, Outside, Ends, Pass, BlockChecks, ReadyAfter, Head, Behind,
      Issued;
    EndsStep(dr.script, dr.devLow, sec, count, dr.sectors, dr.multiCnt, 1);
    IssuedOnce(dr.script, dr.devLow, sec, Min(count, SECCNT_MAX), dr.sectors);
    AddressIff(dr.devLow, sec);
    AfterReset(sec);
    rest, missing := CleanNext(dr.devLow, sec, count);
    var iCurSecs := SecCnt(count);
    n := if iCurSecs == 0 then SECCNT_MAX else iCurSecs;
    var sent;
    ghost var low;
    a := iBuf;
    StoredEnd(init, dr.disk, buf[..], a, end, from);
    st, sent, low := SendFor(dr, sec, iCurSecs);
    if st != Success {
      return;
    }
    st, a := WriteBlocks(dr, n, buf, iBuf, init, end, from);
    StoredEnd(init, dr.disk, buf[..], a, end, from);
  }

  /** bdh8b16_put_sectors, under the same guard; there are no second attempts. On success the sectors hold
      the buffer, and in any case no sector outside the range has changed. A range that ends behind the last
      sector of the drive fails. */
  method PutSectors(dr: Drive, sec0: nat, count0: nat, buf: array<Word>) returns (st: Result)
    requires dr.Valid() && sec0 + count0 <= 16 * LBA24 && CleanRange(dr.devLow, sec0, count0)
    requires SEC_WORDS * count0 <= buf.Length
    modifies dr
    ensures dr.Valid() && (old(dr.devLow) == 0 && sec0 + count0 <= LBA24 ==> dr.devLow == 0)
    ensures Outside(old(dr.disk), dr.disk, SEC_WORDS * sec0, SEC_WORDS * count0)
    ensures st == Success && count0 > 0 ==>
      sec0 + count0 <= dr.sectors && dr.disk == Splice(old(dr.disk), SEC_WORDS * sec0, buf[..SEC_WORDS * count0])
    ensures AllGood(old(dr.script)) && sec0 + count0 <= dr.sectors ==> st == Success
    ensures st == Ends(old(dr.script), old(dr.devLow), sec0, count0, dr.sectors, dr.multiCnt, 1)
  {
    hide Stored, AllGood, Drive.Lba, Loops, Splice, SecCnt, CleanRange, Or4, Outside, CmdAddress, Clean, Address, Min,
      Ends;
    var sec: nat, count: nat, iBuf: nat := sec0, count0, 0;
    ghost var init, end, from := dr.disk, SEC_WORDS * count0, SEC_WORDS * sec0;
    StoredNone(init, buf[..], end, from);
    var iLoops, iLoop := Loops(count), 0;
    var n := 0;
    while iLoop < iLoops
      invariant dr.Valid() && 0 <= iLoop && iLoops == iLoop + Loops(count)
      invariant old(dr.devLow) == 0 && sec0 + count0 <= LBA24 ==> dr.devLow == 0
      invariant sec + count == sec0 + count0 && iBuf == SEC_WORDS * (sec - sec0) && sec0 <= sec
      invariant CleanRange(dr.devLow, sec, count)
      invariant Stored(init, dr.disk, buf[..], iBuf, end, from)
      invariant AllGood(old(dr.script)) && sec0 + count0 <= dr.sectors ==> AllGood(dr.script)
      invariant Ends(old(dr.script), old(dr.devLow), sec0, count0, dr.sectors, dr.multiCnt, 1)
        == Ends(dr.script, dr.devLow, sec, count, dr.sectors, dr.multiCnt, 1)
    {
      ghost var a, rest, missing;
      st, n, a, rest, missing := PutChunk(dr, sec, count, buf, iBuf, init, end, from);
      if st != Success {
        return;
      }
      assert Stored(init, dr.disk, buf[..], a, end, from);
      iBuf := iBuf + SEC_WORDS * n;
      assert iBuf == a;
      count := count - n;
      sec := sec + n;
      assert sec == rest && count == missing;
      iLoop := iLoop + 1;
    }
    st := Success;
    EndsStep(dr.script, dr.devLow, sec, count, dr.sectors, dr.multiCnt, 1);
    StoredEnd(init, dr.disk, buf[..], iBuf, end, from);
    if count0 > 0 {
      StoredAll(init, dr.disk, buf[..], end, from);
      assert buf[..][..end] == buf[..end];
    }
  }
}
