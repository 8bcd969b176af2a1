/**
  The IDE driver of device/ide.c: splitting a transfer into commands of at most 256 sectors, the
  8-bit registers that carry each command to the drive, and the handshake with the drive's
  interrupt.
 */
module Ide {
  import opened Outcomes

  const MAX_LBA := 80 * 1024 * 1024 / 512 - 1

  // ---------- The command registers ----------

  /** What `outb` leaves in the drive's registers: one byte each. */
  datatype Registers = Registers(sectCnt: nat, lbaLow: nat, lbaMid: nat, lbaHigh: nat, device: nat)

  const BIT_DEV_MBS := 0xa0
  const BIT_DEV_LBA := 0x40
  const BIT_DEV_DEV := 0x10

  /** select_sector. The sector count is passed as an 8-bit value, so 256 becomes 0; the operands of
      the bitwise-or have no bit in common. */
  function SelectSector(lba: nat, secCnt: nat, slave: bool): Registers {
    Registers(secCnt % 256, lba % 256, lba / 0x100 % 256, lba / 0x1_0000 % 256,
              (BIT_DEV_MBS + BIT_DEV_LBA + (if slave then BIT_DEV_DEV else 0) + lba / 0x100_0000) % 256)
  }

  /** How the drive, and read_from_sector and write2sector, understand the count. */
  function CommandCount(r: Registers): nat {
    if r.sectCnt == 0 then 256 else r.sectCnt
  }

  /** The 28-bit address the drive assembles from its registers. */
  function CommandLba(r: Registers): nat {
    r.lbaLow + 0x100 * r.lbaMid + 0x1_0000 * r.lbaHigh + 0x100_0000 * (r.device % 16)
  }

  /** The drive that the device register selects: 0 is the master, 1 the slave. */
  function CommandDev(r: Registers): nat {
    r.device / BIT_DEV_DEV % 2
  }

  lemma ThreeBytes(x: nat)
    requires x < 0x100_0000
    ensures x % 256 + 0x100 * (x / 0x100 % 256) + 0x1_0000 * (x / 0x1_0000 % 256) == x
    ensures x / 0x1_0000 < 256 && x / 0x100_0000 == 0
  {
    var a, b, c := x % 256, x / 0x100, x / 0x1_0000;
    assert x == 0x100 * b + a;
    assert 0x1_0000 * c <= x < 0x1_0000 * c + 0x1_0000;
    assert 0x100 * c <= b < 0x100 * c + 0x100;
    assert b % 256 == b - 0x100 * c;
  }

  /** Every command the driver can issue reaches the drive as meant, on the drive it selected. */
  lemma RegistersRoundTrip(lba: nat, secCnt: nat, slave: bool)
    requires lba <= MAX_LBA && 1 <= secCnt <= 256
    ensures var r := SelectSector(lba, secCnt, slave);
            && CommandLba(r) == lba && CommandCount(r) == secCnt
            && CommandDev(r) == (if slave then 1 else 0)
            && r.sectCnt < 256 && r.lbaLow < 256 && r.lbaMid < 256 && r.lbaHigh < 256 && r.device < 256
            && r.lbaLow + 0x100 * r.lbaMid + 0x1_0000 * r.lbaHigh == lba && r.device == (if slave then 0xf0 else 0xe0)
            && (r.sectCnt == secCnt || (r.sectCnt == 0 && secCnt == 256))
  {
    ThreeBytes(lba);
    assert SelectSector(lba, secCnt, slave).device == if slave then 0xf0 else 0xe0;
  }

  /** The count register alone cannot tell 0 from 256; only counts of 1 to 256 survive it. */
  lemma CountSurvivesIff(lba: nat, secCnt: nat, slave: bool)
    ensures CommandCount(SelectSector(lba, secCnt, slave)) == secCnt <==> 1 <= secCnt <= 256
  {}

  // ---------- Transfers ----------

  datatype Command = Command(lba: nat, count: nat)

  /** The commands of a transfer: full ones of 256 sectors and one for the rest. */
  function Chunks(lba: nat, secCnt: nat): seq<Command> {
    seq((secCnt + 255) / 256, i requires 0 <= i < (secCnt + 255) / 256 =>
      Command(lba + 256 * i, if 256 * i + 256 <= secCnt then 256 else secCnt - 256 * i))
  }

  /** Every command is one the drive understands, and every sector of the transfer lies in exactly
      one command. */
  lemma ChunksCoverOnce(lba: nat, secCnt: nat, x: nat) returns (i: nat)
    requires lba <= x < lba + secCnt
    ensures var cs := Chunks(lba, secCnt);
            && (forall j :: 0 <= j < |cs| ==> 1 <= cs[j].count <= 256 && cs[j].lba + cs[j].count <= lba + secCnt)
            && (forall j :: 0 <= j < |cs| ==> cs[j].lba == lba + 256 * j && (j < |cs| - 1 ==> cs[j].count == 256))
            && i < |cs| && cs[i].lba <= x < cs[i].lba + cs[i].count
            && forall j :: 0 <= j < |cs| && cs[j].lba <= x < cs[j].lba + cs[j].count ==> j == i
  {
    i := (x - lba) / 256;
  }

  lemma ChunksAppend(lba: nat, done: nat, n: nat)
    requires done % 256 == 0 && 1 <= n <= 256
    ensures Chunks(lba, done + n) == Chunks(lba, done) + [Command(lba + done, n)]
  {
    var k := done / 256;
    assert done == 256 * k && (done + 255) / 256 == k && (done + n + 255) / 256 == k + 1;
  }

  /** The medium after `data` is written from sector lba on. */
  function Written<T>(media: seq<T>, lba: nat, data: seq<T>): (r: seq<T>)
    requires lba + |data| <= |media|
    ensures |r| == |media|
  {
    media[..lba] + data + media[lba + |data|..]
  }

  lemma WrittenAt<T>(media: seq<T>, lba: nat, data: seq<T>)
    requires lba + |data| <= |media|
    ensures forall i :: 0 <= i < |media| ==> Written(media, lba, data)[i] == if lba <= i < lba + |data| then data[i - lba] else media[i]
  {}

  lemma WrittenAppend<T>(media: seq<T>, lba: nat, a: seq<T>, b: seq<T>)
    requires lba + |a| + |b| <= |media|
    ensures Written(Written(media, lba, a), lba + |a|, b) == Written(media, lba, a + b)
  {}

  lemma NothingWritten<T>(media: seq<T>, lba: nat, data: seq<T>)
    requires lba <= |media| && data == []
    ensures Written(media, lba, data) == media
  {}

  class Channel<T> {
    var media: seq<seq<T>>           // the two drives; T is the contents of a sector
    var registers: Registers
    var expectingIntr: bool
    var diskDone: nat                // the semaphore's value
    var commands: seq<Command>       // what the drives have been asked to do, oldest first

    ghost predicate Quiet()
      reads this
    {
      !expectingIntr && diskDone == 0 && |media| == 2 && |media[0]| <= MAX_LBA + 1 && |media[1]| <= MAX_LBA + 1
    }

    constructor (master: seq<T>, slave: seq<T>)
      requires |master| <= MAX_LBA + 1 && |slave| <= MAX_LBA + 1
      ensures Quiet() && media == [master, slave] && commands == []
    {
      media := [master, slave];
      registers := Registers(0, 0, 0, 0, 0);
      expectingIntr, diskDone, commands := false, 0, [];
    }

    method CmdOut()
      modifies this`expectingIntr, this`commands
      ensures expectingIntr
      ensures commands == old(commands) + [Command(CommandLba(registers), CommandCount(registers))]
    {
      expectingIntr := true;
      commands := commands + [Command(CommandLba(registers), CommandCount(registers))];
    }

    /** intr_hd_handler, then the waiting thread's sema_down. */
    method AwaitInterrupt()
      requires expectingIntr && diskDone == 0
      modifies this`expectingIntr, this`diskDone
      ensures !expectingIntr && diskDone == 0
    {
      expectingIntr := false;
      assert diskDone == 0;
      diskDone := diskDone + 1;
      diskDone := diskDone - 1;
    }

    /** select_sector and cmd_out: the drive dev is asked for exactly these sectors. */
    method Request(dev: nat, lba: nat, secsOp: nat)
      requires dev < 2 && lba <= MAX_LBA && 1 <= secsOp <= 256
      modifies this`registers, this`expectingIntr, this`commands
      ensures expectingIntr && commands == old(commands) + [Command(lba, secsOp)]
      ensures CommandLba(registers) == lba && CommandCount(registers) == secsOp && CommandDev(registers) == dev
    {
      registers := SelectSector(lba, secsOp, dev == 1);
      RegistersRoundTrip(lba, secsOp, dev == 1);
      hide CommandLba, CommandCount, CommandDev, SelectSector;
      CmdOut();
    }

    /** read_from_sector: the sectors the selected drive was asked for, into the buffer from slot `at`
        on. */
    method ReadFromSector(buf: array<T>, at: nat)
      requires CommandDev(registers) < |media| && at + CommandCount(registers) <= buf.Length
      requires CommandLba(registers) + CommandCount(registers) <= |media[CommandDev(registers)]|
      modifies buf
      ensures forall i :: 0 <= i < buf.Length ==>
                buf[i] == if at <= i < at + CommandCount(registers) then media[CommandDev(registers)][CommandLba(registers) + (i - at)] else old(buf[i])
    {
      hide CommandLba, CommandCount, CommandDev;
      forall i | at <= i < at + CommandCount(registers) {
        buf[i] := media[CommandDev(registers)][CommandLba(registers) + (i - at)];
      }
    }

    /** ide_read from drive dev: sector lba + i lands in buffer slot i, for each i, and nothing else
        changes. */
    method Read(dev: nat, lba: nat, buf: array<T>, secCnt: nat)
      requires Quiet() && dev < 2 && 0 < secCnt <= buf.Length && lba + secCnt <= |media[dev]|
      modifies this, buf
      ensures Quiet() && media == old(media)
      ensures forall i :: 0 <= i < buf.Length ==> buf[i] == if i < secCnt then media[dev][lba + i] else old(buf[i])
      ensures commands == old(commands) + Chunks(lba, secCnt)
    {
      hide CommandLba, CommandCount, CommandDev, SelectSector;
      var secsDone := 0;
      while secsDone < secCnt
        invariant secsDone <= secCnt && (secsDone < secCnt ==> secsDone % 256 == 0)
        invariant Quiet() && media == old(media)
        invariant forall i :: 0 <= i < buf.Length ==> buf[i] == if i < secsDone then media[dev][lba + i] else old(buf[i])
        invariant commands == old(commands) + Chunks(lba, secsDone)
      {
        var secsOp := if secsDone + 256 <= secCnt then 256 else secCnt - secsDone;
        ChunksAppend(lba, secsDone, secsOp);
        Request(dev, lba + secsDone, secsOp);
        AwaitInterrupt();
        ReadFromSector(buf, secsDone);
        secsDone := secsDone + secsOp;
      }
    }

    /** One turn of the loop of ide_write. */
    method WriteChunk(dev: nat, lba: nat, buf: array<T>, at: nat, secsOp: nat)
      requires Quiet() && dev < 2 && 1 <= secsOp <= 256 && at + secsOp <= buf.Length && lba + secsOp <= |media[dev]|
      modifies this
      ensures Quiet() && |old(media)| == 2 && media == old(media)[dev := Written(old(media)[dev], lba, buf[at..at + secsOp])]
      ensures commands == old(commands) + [Command(lba, secsOp)]
    {
      hide CommandLba, CommandCount, CommandDev, SelectSector;
      Request(dev, lba, secsOp);
      var d := CommandDev(registers);
      media := media[d := Written(media[d], CommandLba(registers), buf[at..at + CommandCount(registers)])];
      AwaitInterrupt();
    }

    /** ide_write: drive dev ends up with buffer slot i in sector lba + i and is otherwise unchanged, and
        so is the other drive. */
    method Write(dev: nat, lba: nat, buf: array<T>, secCnt: nat)
      requires Quiet() && dev < 2 && 0 < secCnt <= buf.Length && lba + secCnt <= |media[dev]|
      modifies this
      ensures Quiet() && |old(media)| == 2 && media == old(media)[dev := Written(old(media)[dev], lba, buf[..secCnt])]
      ensures |media[dev]| == |old(media)[dev]| && media[1 - dev] == old(media)[1 - dev]
      ensures forall i :: 0 <= i < |media[dev]| ==> media[dev][i] == if lba <= i < lba + secCnt then buf[i - lba] else old(media)[dev][i]
      ensures commands == old(commands) + Chunks(lba, secCnt)
    {
      hide CommandLba, CommandCount, CommandDev, SelectSector, Written;
      var secsDone := 0;
      NothingWritten(media[dev], lba, buf[..0]);
      WrittenAt(media[dev], lba, buf[..secCnt]);
      while secsDone < secCnt
        invariant secsDone <= secCnt && (secsDone < secCnt ==> secsDone % 256 == 0)
        invariant Quiet() && |old(media)| == 2 && media == old(media)[dev := Written(old(media)[dev], lba, buf[..secsDone])]
        invariant commands == old(commands) + Chunks(lba, secsDone)
      {
        var secsOp := if secsDone + 256 <= secCnt then 256 else secCnt - secsDone;
        ChunksAppend(lba, secsDone, secsOp);
        WrittenAppend(old(media)[dev], lba, buf[..secsDone], buf[secsDone..secsDone + secsOp]);
        assert buf[..secsDone] + buf[secsDone..secsDone + secsOp] == buf[..secsDone + secsOp];
        WriteChunk(dev, lba + secsDone, buf, secsDone, secsOp);
        secsDone := secsDone + secsOp;
      }
    }
  }

  // ---------- The interrupt handshake ----------

  type Tid = nat

  /** Where a thread is in ide_read or ide_write, with the commands it still has to give. */
  datatype Pc =
    | Outside
    | Wants(left: nat)       // at lock_acquire
    | Selects(left: nat)     // holds the lock, before cmd_out
    | Waits(left: nat)       // has given a command, and has not returned from sema_down
    | Finished               // before lock_release

  /** The shared fields of a channel and its driver threads. `lock` is the channel's lock, which module
      Locks is about: whoever finds it free may take it. */
  datatype Handshake = Handshake(expectingIntr: bool, diskDone: nat, lock: Option<Tid>, pcs: map<Tid, Pc>)

  datatype Event =
    | Call(t: Tid, n: nat)   // ide_read or ide_write with n > 0 commands
    | TakeLock(t: Tid)
    | Issue(t: Tid)          // cmd_out
    | Interrupt              // from the drive, or a stray one, at any moment
    | Collect(t: Tid)        // sema_down returns
    | Release(t: Tid)

  function PcOf(h: Handshake, t: Tid): Pc {
    if t in h.pcs then h.pcs[t] else Outside
  }

  predicate Enabled(h: Handshake, e: Event) {
    match e
    case Call(t, n) => PcOf(h, t).Outside? && n > 0
    case TakeLock(t) => PcOf(h, t).Wants? && h.lock == None
    case Issue(t) => PcOf(h, t).Selects?
    case Interrupt => true
    case Collect(t) => PcOf(h, t).Waits? && h.diskDone > 0
    case Release(t) => PcOf(h, t).Finished?
  }

  function At(h: Handshake, t: Tid, pc: Pc): Handshake {
    h.(pcs := h.pcs[t := pc])
  }

  function Step(h: Handshake, e: Event): Outcome<Handshake>
    requires Enabled(h, e)
  {
    match e
    case Call(t, n) => Ok(At(h, t, Wants(n)))
    case TakeLock(t) => Ok(At(h, t, Selects(PcOf(h, t).left)).(lock := Some(t)))
    case Issue(t) => Ok(At(h, t, Waits(PcOf(h, t).left)).(expectingIntr := true))
    case Interrupt =>
      if !h.expectingIntr then Ok(h)
      else if h.diskDone != 0 then Panic          // ASSERT(psema->value == 0) in sema_up
      else Ok(h.(expectingIntr := false, diskDone := 1))
    case Collect(t) =>
      if h.diskDone - 1 != 0 then Panic           // ASSERT(psema->value == 0) in sema_down
      else Ok(At(h, t, if PcOf(h, t).left > 1 then Selects(PcOf(h, t).left - 1) else Finished).(diskDone := 0))
    case Release(t) => Ok(At(h, t, Outside).(lock := None))
  }

  /** The commands that have been given and not collected. */
  ghost function Outstanding(h: Handshake): nat {
    |set t | t in h.pcs && h.pcs[t].Waits?|
  }

  predicate HoldsLock(pc: Pc) {
    pc.Selects? || pc.Waits? || pc.Finished?
  }

  /** Only the holder of the lock is between its calls, and disk_done.value plus expecting_intr is 1 while
      it waits and 0 otherwise. */
  ghost predicate HandshakeInv(h: Handshake) {
    && (forall t: Tid {:trigger PcOf(h, t)} :: HoldsLock(PcOf(h, t)) <==> h.lock == Some(t))
    && h.diskDone + (if h.expectingIntr then 1 else 0) == (if h.lock.Some? && PcOf(h, h.lock.value).Waits? then 1 else 0)
  }

  lemma StepKeepsHandshake(h: Handshake, e: Event)
    requires HandshakeInv(h) && Enabled(h, e)
    ensures Step(h, e).Ok? && HandshakeInv(Step(h, e).value)
  {
    var t := match e case Call(t, _) => t case TakeLock(t) => t case Issue(t) => t case Interrupt => 0 case Collect(t) => t case Release(t) => t;
    assert HoldsLock(PcOf(h, t)) <==> h.lock == Some(t);
    var r := Step(h, e).value;
    forall u: Tid
      ensures HoldsLock(PcOf(r, u)) <==> r.lock == Some(u)
    {
      assert HoldsLock(PcOf(h, u)) <==> h.lock == Some(u);
    }
  }

  /** What each step does. A command is outstanding from its cmd_out to the interrupt, which wakes whoever
      waits, and a call that has n commands to give gives n and then leaves. */
  lemma StepEffect(h: Handshake, e: Event, u: Tid)
    requires HandshakeInv(h) && Enabled(h, e)
    ensures Step(h, e).Ok?
    ensures var r := Step(h, e).value;
            match e
            case Call(t, n) => PcOf(r, t) == Wants(n) && r == h.(pcs := r.pcs)
            case TakeLock(t) => PcOf(r, t) == Selects(PcOf(h, t).left) && r == h.(pcs := r.pcs, lock := Some(t))
            case Issue(t) => PcOf(r, t) == Waits(PcOf(h, t).left) && r == h.(pcs := r.pcs, expectingIntr := true)
            case Interrupt => if h.expectingIntr then r == h.(expectingIntr := false, diskDone := 1) && h.diskDone == 0 else r == h
            case Collect(t) =>
              && (if PcOf(h, t).left > 1 then PcOf(r, t) == Selects(PcOf(h, t).left - 1) else PcOf(r, t) == Finished)
              && h.diskDone == 1 && r == h.(pcs := r.pcs, diskDone := 0)
            case Release(t) => PcOf(r, t) == Outside && r == h.(pcs := r.pcs, lock := None)
    ensures PcOf(Step(h, e).value, u) == PcOf(h, u) || (!e.Interrupt? && e.t == u)
  {
    StepKeepsHandshake(h, e);
  }

  /** So the count is that of the commands outstanding, and these are 0 or 1. */
  lemma CountsCommands(h: Handshake)
    requires HandshakeInv(h)
    ensures h.diskDone + (if h.expectingIntr then 1 else 0) == Outstanding(h) <= 1
  {
    var waiting := set t | t in h.pcs && h.pcs[t].Waits?;
    forall t | t in waiting
      ensures h.lock == Some(t)
    {
      assert PcOf(h, t).Waits?;
    }
    if h.lock.Some? && PcOf(h, h.lock.value).Waits? {
      assert waiting == {h.lock.value};
    } else {
      assert waiting == {};
    }
  }

  /** h is reached by the events, each enabled when it happens, or an ASSERT has failed. */
  function RunAll(h: Handshake, es: seq<Event>): Outcome<Option<Handshake>>
    decreases |es|
  {
    if es == [] then Ok(Some(h))
    else if !Enabled(h, es[0]) then Ok(None)
    else
      var h1 :- Step(h, es[0]);
      RunAll(h1, es[1..])
  }

  /** Whatever threads and drive do, no ASSERT of the semaphore fails, and disk_done.value plus
      expecting_intr is the number of commands outstanding, 0 or 1, at every moment; so a command's
      completion is neither lost nor collected twice. */
  lemma {:induction false} HandshakeHolds(h: Handshake, es: seq<Event>)
    requires HandshakeInv(h)
    ensures RunAll(h, es).Ok?
    ensures var r := RunAll(h, es).value;
            r.Some? ==>
              HandshakeInv(r.value) && r.value.diskDone + (if r.value.expectingIntr then 1 else 0) == Outstanding(r.value) <= 1
    decreases |es|
  {
    hide HandshakeInv, Outstanding, Step;
    if es == [] {
      CountsCommands(h);
    } else if Enabled(h, es[0]) {
      StepKeepsHandshake(h, es[0]);
      HandshakeHolds(Step(h, es[0]).value, es[1..]);
    }
  }

  /** ide_init: nobody is in the driver. */
  lemma QuietStart()
    ensures HandshakeInv(Handshake(false, 0, None, map[]))
  {}
}
