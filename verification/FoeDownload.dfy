/** The firmware download: the FoE callbacks and the deferred commit, on a flash that may fail. */
module FoeDownload {
  import opened Bytes
  import opened NorFlash
  import opened FoeStaging
  import opened FoeCrashSafety
  import opened FoeStagingWriter

  const IMAGE_NAME := "app"
  const PASSWORD_LEGACY := 0x8765_4321

  datatype Answer = Acknowledged | BootstrapOnly | NotFound | NoRights | Illegal | DiskFull | FlashError

  class Download {
    const device: Device
    const maxProgram: nat
    var writer: StagingWriter
    var commitPending: bool
    var downloadComplete: bool

    // The run of the crash model that the calls so far make up, and where it leads.
    ghost const first: World
    ghost var events: seq<Event>
    ghost var world: World

    /** The crash model's world is this one: its flash is the device's, its writer is the writer. */
    ghost predicate Tracks()
      reads this, writer, writer.device, device
    {
      && writer.Valid() && (writer.device == null || writer.device == device)
      && |device.cells| == FLASH_SIZE && maxProgram > 0
      && Inv(first) && IsRun(first, events, world)
      && world.cells == device.cells && world.w == writer.View()
      && (writer.open && device.fault.NoFault? ==> world.live)
    }

    ghost predicate Valid()
      reads this, writer, writer.device, device
    {
      Tracks() && writer.Live()
    }

    /** `before` is the image that the flash's record already vouches for, if it is Ready. */
    constructor (device: Device, maxProgram: nat, ghost before: seq<Byte>)
      requires |device.cells| == FLASH_SIZE && maxProgram > 0
      requires Vouches(device.cells, before)
      ensures Valid() && fresh(writer) && !commitPending && !downloadComplete
      ensures this.device == device && world == World(device.cells, CLOSED, false, [], before)
    {
      this.device, this.maxProgram := device, maxProgram;
      writer := new StagingWriter();
      commitPending, downloadComplete := false, false;
      first := World(device.cells, CLOSED, false, [], before);
      events, world := [], World(device.cells, CLOSED, false, [], before);
    }

    ghost method Note(ev: Event)
      requires WriterInv(world.w) && IsRun(first, events, world) && Allowed(world, ev)
      modifies this`events, this`world
      ensures IsRun(first, events, world) && world == Step(old(world), ev)
    {
      RunSnoc(first, events, world, ev);
      events, world := events + [ev], Step(world, ev);
    }

    method WriteRequest(inBoot: bool, name: string, password: int) returns (answer: Answer)
      requires Valid()
      modifies this, writer, device
      ensures Valid() && writer == old(writer)
      ensures commitPending == old(commitPending) && downloadComplete == old(downloadComplete)
      ensures world.committed == old(world.committed)
      ensures answer.BootstrapOnly? <==> !inBoot
      ensures answer.NotFound? <==> inBoot && name != "app"
      ensures answer.NoRights? <==> inBoot && name == "app" && password != 0 && password != 0x8765_4321
      ensures answer.Acknowledged? ==> writer.open && world.accepted == [] && !RecordIsReady(device.cells, MAX_IMAGE)
      ensures answer in {Acknowledged, BootstrapOnly, NotFound, NoRights, FlashError}
      ensures answer.FlashError? ==> !writer.open && device.fault.Fault?
      ensures !answer.Acknowledged? && !answer.FlashError? ==> world == old(world)
    {
      if !inBoot {
        return BootstrapOnly;
      }
      if name != IMAGE_NAME {
        return NotFound;
      }
      if password != 0 && password != PASSWORD_LEGACY {
        return NoRights;
      }
      RunKeeps(first, events, world);
      var ok := writer.Begin(device, maxProgram);
      ghost var ev := Calls(Call.Begin(true, maxProgram), |device.log|, device.cells);
      Note(ev);
      if !ok {
        return FlashError;
      }
      StepKeeps(old(world), ev);
      return Acknowledged;
    }

    method Abort()
      requires Tracks()
      modifies this`events, this`world, writer
      ensures Valid() && writer == old(writer) && !writer.open
      ensures world.accepted == old(world.accepted) && world.committed == old(world.committed)
    {
      writer.Abort();
      Note(Calls(Call.Abort, 0, device.cells));
    }

    method EraseOnce(end: nat) returns (step: EraseOutcome)
      requires Valid() && writer.open && end <= IMAGE_CAPACITY
      modifies this`events, this`world, writer, device
      ensures Tracks() && writer == old(writer) && writer.open
      ensures world.accepted == old(world.accepted) && world.committed == old(world.committed)
      ensures writer.nextOffset == old(writer.nextOffset)
      ensures step == Failed <==> device.fault.Fault?
      ensures step == Ready ==> writer.erasedThrough >= end
      ensures step == Progressed ==> old(writer.erasedThrough) < end && old(writer.erasedThrough) < writer.erasedThrough
    {
      ghost var logged := |device.log|;
      step := writer.EraseStep(end);
      Note(Calls(Call.EraseStep(end), |device.log| - logged, device.cells));
    }

    /** The loop before a write: erases until [0, end) is ready, or gives the session up. */
    method EraseUpTo(end: nat) returns (ready: bool)
      requires Valid() && writer.open && end <= IMAGE_CAPACITY
      modifies this`events, this`world, writer, device
      ensures Valid() && writer == old(writer)
      ensures world.accepted == old(world.accepted) && world.committed == old(world.committed)
      ensures ready == device.fault.NoFault? == writer.open
      ensures ready ==> writer.erasedThrough >= end && writer.nextOffset == old(writer.nextOffset)
    {
      while true
        invariant Valid() && writer.open && writer == old(writer)
        invariant writer.nextOffset == old(writer.nextOffset)
        invariant world.accepted == old(world.accepted) && world.committed == old(world.committed)
        decreases end - writer.erasedThrough
      {
        var step := EraseOnce(end);
        if step == Ready {
          return true;
        }
        if step == Failed {
          Abort();
          return false;
        }
      }
    }

    /** The write after the erasing: it takes the block, unless the flash fails. */
    method WriteOrAbort(data: seq<Byte>) returns (ok: bool)
      requires Valid() && writer.open && writer.nextOffset + |data| <= MAX_IMAGE
      requires writer.nextOffset + |data| <= writer.erasedThrough
      modifies this`events, this`world, writer, device
      ensures Valid() && writer == old(writer)
      ensures ok == device.fault.NoFault? == writer.open
      ensures world.accepted == old(world.accepted) + (if ok then data else [])
      ensures world.committed == old(world.committed)
    {
      ghost var logged, call := |device.log|, Call.Write(writer.nextOffset, data);
      ok := writer.Write(writer.nextOffset, data);
      Note(Calls(call, |device.log| - logged, device.cells));
      if !ok {
        Abort();
      }
    }

    method WriteData(data: seq<Byte>, following: bool) returns (answer: Answer)
      requires Valid()
      modifies this, writer, device
      ensures Valid() && writer == old(writer) && downloadComplete == old(downloadComplete)
      ensures world.committed == old(world.committed)
      ensures answer in {Acknowledged, Illegal, DiskFull, FlashError}
      ensures answer.Illegal? <==> !old(writer.open)
      ensures answer.DiskFull? <==> old(writer.open && |world.accepted| + |data| > MAX_IMAGE)
      ensures answer.FlashError? ==> device.fault.Fault?
      ensures answer.Acknowledged? <==> writer.open
      ensures world.accepted == old(world.accepted) + (if answer.Acknowledged? then data else [])
      ensures commitPending == (old(commitPending) || (answer.Acknowledged? && !following))
    {
      if !writer.open {
        return Illegal;
      }
      SizeIsAccepted();
      if |data| > 0 {
        if writer.nextOffset + |data| > MAX_IMAGE {
          Abort();
          return DiskFull;
        }
        var ok := EraseUpTo(writer.nextOffset + |data|);
        if !ok {
          return FlashError;
        }
        ok := WriteOrAbort(data);
        if !ok {
          return FlashError;
        }
      }
      if !following {
        commitPending := true;
      }
      return Acknowledged;
    }

    lemma SizeIsAccepted()
      requires Valid()
      ensures Inv(world) && (writer.open ==> writer.nextOffset == |world.accepted|)
    {
      RunKeeps(first, events, world);
    }

    /** Commits the open session, or gives it up. */
    method CommitOrAbort() returns (ok: bool)
      requires Valid() && writer.open
      modifies this`events, this`world, writer, device
      ensures Valid() && writer == old(writer) && !writer.open
      ensures world.accepted == old(world.accepted)
      ensures ok <==> device.fault.NoFault? && world.accepted != []
      ensures ok ==> Staged(device.cells, world.accepted) && world.committed == world.accepted
    {
      hide Session, Vouches, Ops, Outcome;
      SizeIsAccepted();
      ghost var before, logged := world, |device.log|;
      ok := writer.Commit();
      ghost var ev := Calls(Call.Commit, |device.log| - logged, device.cells);
      Note(ev);
      if ok {
        StagedByCommit(before, ev);
      } else {
        Abort();
      }
    }

    /** The main loop's pass: the commit that the last block left pending. */
    method Poll()
      requires Valid()
      modifies this, writer, device
      ensures Valid() && writer == old(writer) && !commitPending
      ensures world.accepted == old(world.accepted)
      ensures !old(commitPending) ==> world == old(world) && downloadComplete == old(downloadComplete)
      ensures old(commitPending) ==> !writer.open
      ensures var ok := old(commitPending && writer.open && world.accepted != []) && device.fault.NoFault?;
              && downloadComplete == (old(downloadComplete) || ok)
              && (ok ==> Staged(device.cells, world.accepted) && world.committed == world.accepted)
    {
      if !commitPending {
        return;
      }
      commitPending := false;
      if !writer.open {
        // The call is refused without touching the flash.
        var refused := writer.Commit();
        Abort();
        return;
      }
      var ok := CommitOrAbort();
      downloadComplete := downloadComplete || ok;
    }

    /** Power fails and comes back: the flash stays, everything else starts over. */
    method PowerCycle()
      requires Valid()
      modifies this
      ensures Valid() && fresh(writer) && !commitPending && !downloadComplete
      ensures world.cells == old(world.cells) && world.committed == old(world.committed)
    {
      Note(PowerLoss);
      writer := new StagingWriter();
      commitPending, downloadComplete := false, false;
    }
  }

  /** The record is Ready, and its image is exactly these bytes. */
  ghost predicate Staged(cells: Cells, image: seq<Byte>)
    requires |cells| == FLASH_SIZE
  {
    && RecordIsReady(cells, MAX_IMAGE)
    && WordAt(cells, IMAGE_SIZE) == |image|
    && Holds(cells, IMAGE_START, image)
  }

  lemma StagedByCommit(x: World, ev: Event)
    requires Inv(x) && Allowed(x, ev) && ev.Calls? && ev.call.Commit? && Accepts(x.w, ev.call)
    requires ev.done == |Ops(x.w, ev.call)|
    ensures |ev.after| == FLASH_SIZE && Staged(ev.after, x.accepted) && Step(x, ev).committed == x.accepted
  {
    hide Session;
    CommitStep(x, ev);
  }

  lemma {:induction false} RunSnoc(x: World, events: seq<Event>, y: World, ev: Event)
    requires IsRun(x, events, y) && WriterInv(y.w) && Allowed(y, ev)
    ensures IsRun(x, events + [ev], Step(y, ev))
    decreases |events|
  {
    if events == [] {
      assert events + [ev] == [ev];
    } else {
      assert (events + [ev])[1..] == events[1..] + [ev];
      RunSnoc(Step(x, events[0]), events[1..], y, ev);
    }
  }

  /**
   * Whatever the master sends, whichever flash operation fails and whenever the power does: the
   * calls make up a run of the crash model that ends in this flash, so a record that reads Ready
   * vouches for exactly the bytes that the last commit was issued for.
   */
  lemma DownloadIsRun(d: Download)
    requires d.Valid()
    ensures IsRun(d.first, d.events, d.world) && d.world.cells == d.device.cells
    ensures RecordIsReady(d.device.cells, MAX_IMAGE) ==> Staged(d.device.cells, d.world.committed)
  {
    RunKeeps(d.first, d.events, d.world);
  }
}
