/**
 * The mirroring invariant of the emulator's EEPROM persistence: every RAM
 * byte that is not yet in EEPROM is in the backlog of the background commit
 * (`Ds2506Model.Consistent`). Writes, starting and stepping the commit keep
 * it; idle service calls work the backlog off, after which EEPROM holds
 * exactly the RAM mirrors.
 */
module Ds2506Mirror {

  import opened Uint
  import opened Ds2506Map
  import opened Ds2506Model

  // ---------------------------------------------------------------------------
  // Writes keep the invariant

  /** A mark keeps every byte that was in a backlog in it. */
  lemma MarkKeepsBacklog(t: Tracker, isData: bool, p: nat, which: bool, i: nat)
    requires TrackerOk(t) && p < MemSize
    requires InBacklog(t, which, i)
    ensures InBacklog(Mark(t, isData, p), which, i)
  {
  }

  /** After a mark the marked byte is in its region's backlog, even when a running commit had already passed it. */
  lemma MarkAddsBacklog(t: Tracker, isData: bool, p: nat)
    requires TrackerOk(t) && p < MemSize
    ensures InBacklog(Mark(t, isData, p), isData, p)
  {
  }

  lemma BurnAtKeepsConsistent(d: Device, isData: bool, p: nat, incoming: uint8)
    requires Consistent(d) && p < MemSize
    ensures Consistent(BurnAt(d, isData, p, incoming))
  {
    var r := BurnAt(d, isData, p, incoming);
    if r != d {
      var t := d.track;
      MarkSpec(t, isData, p);
      BurnAtRam(d, isData, p, incoming);
      RamAfterWithRam(d, isData, Ram(r, isData), r.track);
      MarkAddsBacklog(t, isData, p);
      forall which: bool, i | 0 <= i < MemSize && Ram(r, which)[i] != r.ee[Base(which) + i]
        ensures InBacklog(r.track, which, i)
      {
        if which != isData || i != p {
          assert Ram(r, which)[i] == Ram(d, which)[i];
          MarkKeepsBacklog(t, isData, p, which, i);
        }
      }
    }
  }

  /** Replacing one region's RAM and the tracker leaves the other region's RAM and the EEPROM alone. */
  lemma RamAfterWithRam(d: Device, isData: bool, ram: seq<uint8>, t: Tracker)
    ensures Ram(WithRam(d, isData, ram).(track := t), !isData) == Ram(d, !isData)
    ensures WithRam(d, isData, ram).(track := t).ee == d.ee
  {
  }

  lemma BurnKeepsConsistent(d: Device, isData: bool, ta: nat, incoming: uint8)
    requires Consistent(d) && ta < Word
    ensures Consistent(Burn(d, isData, ta, incoming))
  {
    MapAddressRange(ta);
    if Target(isData, ta) != Unmapped {
      BurnAtKeepsConsistent(d, isData, Target(isData, ta), incoming);
    }
  }

  /** A whole WRITE MEMORY or WRITE STATUS keeps every change in the commit backlog. */
  lemma {:induction false} BurnAllKeepsConsistent(d: Device, isData: bool, ta: nat, ds: seq<uint8>)
    requires Consistent(d) && ta < Word
    ensures Consistent(BurnAll(d, isData, ta, ds))
    decreases |ds|
  {
    if ds != [] {
      BurnKeepsConsistent(d, isData, ta, ds[0]);
      BurnAllKeepsConsistent(Burn(d, isData, ta, ds[0]), isData, NextAddress(ta), ds[1..]);
    }
  }

  // ---------------------------------------------------------------------------
  // The firmware's own mark loses writes

  /** `BurnAt` with the firmware's `markDataDirty`/`markStatDirty`, which leave a running commit's position alone. */
  function BurnAtAsWritten(d: Device, isData: bool, p: nat, incoming: uint8): Device
    requires DeviceOk(d) && p < MemSize
  {
    var before := Ram(d, isData)[p];
    var burned := And(before, incoming);
    if burned == before then d
    else WithRam(d, isData, Ram(d, isData)[p := burned]).(track := MarkAsWritten(d.track, isData, p))
  }

  /** Nine data bytes 0..8 written as 0xF0 and dirty, EEPROM still erased. */
  function LostWriteStart(): (d: Device)
    ensures Consistent(d)
  {
    var mem := seq(MemSize, i => if i < 9 then 0xF0 else 0xFF);
    var ee := seq(EepromSize, i => 0xFF);
    var d := Device(mem, seq(StatusSizeEmu, i => 0xFF), ee, Initial.(data := Range(true, 0, 8)), 0);
    assert forall i :: 0 <= i < MemSize ==> d.stat[i] == d.ee[EepromStatBase + i];
    d
  }

  /**
   * The lost write. One idle service commits bytes 0..7; then byte 3 is
   * burnt to 0x00; the next idle service commits byte 8 and declares the
   * data region clean. RAM byte 3 is 0x00, EEPROM byte 3 still 0xF0, and no
   * later service call will ever copy it.
   */
  lemma LostWriteAsWritten()
    ensures var d1 := IdleService(LostWriteStart());
      DeviceOk(d1) && d1.track.committing && d1.track.commitPos == 8 &&
      var d2 := BurnAtAsWritten(d1, true, 3, 0x00);
      DeviceOk(d2) && d2.mem[3] == 0x00 &&
      var d3 := IdleService(d2);
      !d3.track.data.dirty && !d3.track.stat.dirty && !d3.track.committing &&
      d3.mem[3] == 0x00 && d3.ee[3] == 0xF0 && IdleService(d3) == d3
  {
    var d0 := LostWriteStart();
    var d1 := IdleService(d0);
    assert d1.track.commitPos == 8 && d1.track.committing;
    assert d1.ee[3] == 0xF0;
    var d2 := BurnAtAsWritten(d1, true, 3, 0x00);
    assert d2.track == d1.track;
    var d3 := IdleService(d2);
    assert d3.ee[3] == 0xF0;
  }

  /** With the rewinding mark the same sequence keeps byte 3 in the backlog. */
  lemma LostWriteCorrected()
    ensures var d1 := IdleService(LostWriteStart());
      DeviceOk(d1) &&
      var d2 := BurnAt(d1, true, 3, 0x00);
      DeviceOk(d2) && d2.track.commitPos == 3 && InBacklog(d2.track, true, 3) && Consistent(d2)
  {
    var d0 := LostWriteStart();
    IdleServiceKeepsConsistent(d0);
    var d1 := IdleService(d0);
    assert d1.track.commitPos == 8 && d1.track.committing;
    BurnAtKeepsConsistent(d1, true, 3, 0x00);
  }

  // ---------------------------------------------------------------------------
  // The commit keeps the invariant and makes progress

  lemma StartCommitKeepsConsistent(d: Device)
    requires Consistent(d)
    ensures Consistent(d.(track := StartCommit(d.track)))
  {
    StartCommitKeepsOk(d.track);
    var r := d.(track := StartCommit(d.track));
    forall which: bool, i | 0 <= i < MemSize && Ram(r, which)[i] != r.ee[Base(which) + i]
      ensures InBacklog(r.track, which, i)
    {
      assert InBacklog(d.track, which, i);
    }
  }

  /** `startCommitIfNeeded_` leaves a tracker that is committing exactly when something is dirty. */
  lemma StartCommitCommitsWhenDirty(t: Tracker)
    requires TrackerOk(t)
    ensures StartCommit(t).committing <==> t.committing || t.data.dirty || t.stat.dirty
    ensures !t.committing && t.data.dirty ==> Active(StartCommit(t), true) && StartCommit(t).commitPos == t.data.lo
    ensures !t.committing && !t.data.dirty && t.stat.dirty ==> Active(StartCommit(t), false) && StartCommit(t).commitPos == t.stat.lo
    ensures t.committing ==> StartCommit(t) == t
  {
  }

  /** One commit step on the active region: at most `budget` bytes copied, each now equal to RAM, nothing else in EEPROM touched; a finished region is reset clean, the other region is untouched. */
  lemma CommitRegionCopies(d: Device, isData: bool, budget: nat)
    requires DeviceOk(d) && Active(d.track, isData)
    ensures var r := CommitRegion(d, isData, budget);
      var pos := d.track.commitPos;
      var done := if r.track.committing then r.track.commitPos else RegionOf(d.track, isData).hi + 1;
      pos <= done <= pos + budget &&
      (forall i :: pos <= i < done ==> r.ee[Base(isData) + i] == Ram(d, isData)[i]) &&
      (forall j :: 0 <= j < EepromSize && !(Base(isData) + pos <= j < Base(isData) + done) ==> r.ee[j] == d.ee[j]) &&
      (r.track.committing <==> done <= RegionOf(d.track, isData).hi)
    ensures var r := CommitRegion(d, isData, budget);
      !r.track.committing ==> RegionOf(r.track, isData) == Clean
    ensures var r := CommitRegion(d, isData, budget);
      r.track.committing ==> RegionOf(r.track, isData) == RegionOf(d.track, isData)
    ensures var r := CommitRegion(d, isData, budget); var other := !isData;
      RegionOf(r.track, other) == RegionOf(d.track, other)
  {
  }

  lemma CommitRegionKeepsConsistent(d: Device, isData: bool, budget: nat)
    requires Consistent(d) && Active(d.track, isData)
    ensures Consistent(CommitRegion(d, isData, budget))
  {
    CommitRegionKeepsOwn(d, isData, budget);
    CommitRegionKeepsOther(d, isData, budget);
  }

  /** The bytes of the region being committed that still differ stay in its backlog. */
  lemma CommitRegionKeepsOwn(d: Device, isData: bool, budget: nat)
    requires Consistent(d) && Active(d.track, isData)
    ensures Pending(CommitRegion(d, isData, budget), isData)
  {
    var r := CommitRegion(d, isData, budget);
    var t := d.track;
    var run := CommitRun(Ram(d, isData), d.ee, Base(isData), t.commitPos, RegionOf(t, isData).hi, budget);
    assert r.ee == run.0;
    forall i | 0 <= i < MemSize && Ram(r, isData)[i] != r.ee[Base(isData) + i]
      ensures InBacklog(r.track, isData, i)
    {
      assert Ram(r, isData) == Ram(d, isData);
      assert !(t.commitPos <= i < run.1);
    }
  }

  /** The other region's EEPROM bytes and backlog are untouched. */
  lemma CommitRegionKeepsOther(d: Device, isData: bool, budget: nat)
    requires Consistent(d) && Active(d.track, isData)
    ensures Pending(CommitRegion(d, isData, budget), !isData)
  {
    var r := CommitRegion(d, isData, budget);
    var other := !isData;
    CommitRegionCopies(d, isData, budget);
    forall i | 0 <= i < MemSize && Ram(r, other)[i] != r.ee[Base(other) + i]
      ensures InBacklog(r.track, other, i)
    {
      assert Ram(r, other) == Ram(d, other);
      assert r.ee[Base(other) + i] == d.ee[Base(other) + i];
    }
  }

  lemma CommitStepKeepsConsistent(d: Device, budget: nat)
    requires Consistent(d)
    ensures Consistent(CommitStep(d, budget))
  {
    if d.track.committing {
      CommitRegionKeepsConsistent(d, d.track.commitWhichIsData, budget);
    }
  }

  lemma IdleServiceKeepsConsistent(d: Device)
    requires Consistent(d)
    ensures Consistent(IdleService(d))
  {
    StartCommitKeepsConsistent(d);
    CommitStepKeepsConsistent(d.(track := StartCommit(d.track)), CommitBudgetBytes);
  }

  /** A `serviceBackground` call, idle or not, keeps the invariant. */
  lemma ServiceKeepsConsistent(d: Device, now: nat)
    requires Consistent(d)
    ensures Consistent(Service(d, now))
  {
    if BusIdle(d.lastBusUse, now) {
      IdleServiceKeepsConsistent(d);
    }
  }

  /** The backlog still to commit in one region: the bytes from the commit position (or lo) to hi, plus the final step. */
  function RegionWork(t: Tracker, isData: bool): nat
    requires TrackerOk(t)
  {
    var r := RegionOf(t, isData);
    if !r.dirty then 0
    else if Active(t, isData) then r.hi + 2 - t.commitPos
    else r.hi + 2 - r.lo
  }

  function Work(t: Tracker): nat
    requires TrackerOk(t)
  {
    RegionWork(t, true) + RegionWork(t, false)
  }

  /** No more than 514 idle service calls are ever outstanding. */
  lemma WorkBound(t: Tracker)
    requires TrackerOk(t)
    ensures Work(t) <= 2 * (MemSize + 1)
  {
  }

  /** Starting a commit does not change the backlog. */
  lemma StartCommitKeepsWork(t: Tracker)
    requires TrackerOk(t)
    ensures TrackerOk(StartCommit(t)) && Work(StartCommit(t)) == Work(t)
  {
    StartCommitKeepsOk(t);
  }

  /** While anything is dirty, each idle service call shrinks the backlog. */
  lemma IdleServiceProgress(d: Device)
    requires Consistent(d) && Work(d.track) > 0
    ensures Consistent(IdleService(d)) && Work(IdleService(d).track) < Work(d.track)
  {
    IdleServiceKeepsConsistent(d);
    StartCommitKeepsWork(d.track);
    var d1 := d.(track := StartCommit(d.track));
    var isData := d1.track.commitWhichIsData;
    assert Active(d1.track, isData);
    CommitRegionProgress(d1, isData, CommitBudgetBytes);
  }

  /** A commit step with a positive budget on the active region shrinks the backlog. */
  lemma CommitRegionProgress(d: Device, isData: bool, budget: nat)
    requires DeviceOk(d) && Active(d.track, isData) && budget > 0
    ensures Work(CommitRegion(d, isData, budget).track) < Work(d.track)
  {
    var r := CommitRegion(d, isData, budget);
    CommitRegionCopies(d, isData, budget);
    assert RegionWork(r.track, !isData) == RegionWork(d.track, !isData);
  }

  /** With nothing dirty an idle service call does nothing. */
  lemma IdleServiceWhenClean(d: Device)
    requires Consistent(d) && Work(d.track) == 0
    ensures IdleService(d) == d
  {
  }

  /** With nothing dirty EEPROM holds exactly the RAM mirrors. */
  lemma CleanIsMirrored(d: Device)
    requires Consistent(d) && Work(d.track) == 0
    ensures Mirrored(d)
  {
    forall which: bool, i | 0 <= i < MemSize
      ensures Ram(d, which)[i] == d.ee[Base(which) + i]
    {
      assert !InBacklog(d.track, which, i);
    }
    assert forall i :: 0 <= i < MemSize ==> d.mem[i] == Ram(d, true)[i];
    assert forall i :: 0 <= i < StatusSizeEmu ==> d.stat[i] == Ram(d, false)[i];
    assert d.ee[..EepromStatBase] == d.mem;
    assert d.ee[EepromStatBase..] == d.stat;
  }

  /** `n` idle service calls in a row. */
  function IdleServices(d: Device, n: nat): (r: Device)
    requires DeviceOk(d)
    ensures DeviceOk(r)
    decreases n
  {
    if n == 0 then d
    else IdleServices(IdleService(d), n - 1)
  }

  /**
   * With no writes in between, as many idle service calls as the backlog
   * (at most 514) leave nothing dirty and EEPROM equal to RAM.
   */
  lemma {:induction false} EventuallyMirrored(d: Device, n: nat)
    requires Consistent(d) && n >= Work(d.track)
    ensures var r := IdleServices(d, n);
      Consistent(r) && Work(r.track) == 0 && Mirrored(r)
    decreases n
  {
    if n == 0 {
      CleanIsMirrored(d);
    } else if Work(d.track) == 0 {
      IdleServiceWhenClean(d);
      EventuallyMirrored(IdleService(d), n - 1);
    } else {
      IdleServiceProgress(d);
      EventuallyMirrored(IdleService(d), n - 1);
    }
  }

  // ---------------------------------------------------------------------------
  // Time, reset, load and boot

  /** `busIdle()` measures the time since the last bus use correctly across a wrap of the millisecond counter. */
  lemma BusIdleElapsed(last: nat, elapsed: nat)
    requires last < Millis && elapsed < Millis
    ensures BusIdle(last, (last + elapsed) % Millis) <==> elapsed >= IdleMsBeforeCommit
  {
    var now := (last + elapsed) % Millis;
    if last + elapsed < Millis {
      assert now - last == elapsed;
    } else {
      assert now - last == elapsed - Millis;
      assert (elapsed - Millis) % Millis == elapsed;
    }
  }

  /** `eepromFactoryReset`: both images into EEPROM, EEPROM into RAM, nothing dirty, no commit running. */
  function FactoryReset(d: Device, image: seq<uint8>, statusImage: seq<uint8>): Device
    requires |image| == MemSize && |statusImage| == StatusSizeEmu
  {
    var ee := image + statusImage;
    var t := d.track.(data := Clean, stat := Clean, committing := false);
    Device(ee[..EepromStatBase], ee[EepromStatBase..], ee, t, d.lastBusUse)
  }

  lemma FactoryResetState(d: Device, image: seq<uint8>, statusImage: seq<uint8>)
    requires DeviceOk(d) && |image| == MemSize && |statusImage| == StatusSizeEmu
    ensures var r := FactoryReset(d, image, statusImage);
      Consistent(r) && Mirrored(r) && r.mem == image && r.stat == statusImage && Work(r.track) == 0 &&
      r.track.data == Clean && r.track.stat == Clean && !r.track.committing
  {
    var ee := image + statusImage;
    assert ee[..EepromStatBase] == image && ee[EepromStatBase..] == statusImage;
  }

  /** `loadFromEEPROMToRAM`. */
  function LoadFromEeprom(d: Device): Device
    requires DeviceOk(d)
  {
    d.(mem := d.ee[..EepromStatBase], stat := d.ee[EepromStatBase..])
  }

  /** After a load RAM mirrors EEPROM, so the invariant holds whatever the tracker says. */
  lemma LoadMirrors(d: Device)
    requires DeviceOk(d)
    ensures Consistent(LoadFromEeprom(d)) && Mirrored(LoadFromEeprom(d))
  {
  }

  /** `eepromLooksBlank(sample)`: the first `sample` bytes of both EEPROM regions are 0xFF. */
  predicate LooksBlank(ee: seq<uint8>, sample: nat)
    requires |ee| == EepromSize && sample < 256
  {
    (forall i :: EepromMemBase <= i < EepromMemBase + sample ==> ee[i] == 0xFF) &&
    (forall i :: EepromStatBase <= i < EepromStatBase + sample ==> ee[i] == 0xFF)
  }

  /** The constructor: a blank EEPROM boots from the factory images (RAM only), any other from EEPROM. */
  function Boot(image: seq<uint8>, statusImage: seq<uint8>, ee: seq<uint8>): (d: Device)
    requires |image| == MemSize && |statusImage| == StatusSizeEmu && |ee| == EepromSize
    ensures DeviceOk(d)
  {
    if LooksBlank(ee, 16) then Device(image, statusImage, ee, Initial, 0)
    else Device(ee[..EepromStatBase], ee[EepromStatBase..], ee, Initial, 0)
  }

  /** A boot from EEPROM starts mirrored and clean. */
  lemma BootFromEeprom(image: seq<uint8>, statusImage: seq<uint8>, ee: seq<uint8>)
    requires |image| == MemSize && |statusImage| == StatusSizeEmu && |ee| == EepromSize
    requires !LooksBlank(ee, 16)
    ensures Consistent(Boot(image, statusImage, ee)) && Mirrored(Boot(image, statusImage, ee)) && Work(Boot(image, statusImage, ee).track) == 0
  {
  }

  /**
   * A blank boot puts the factory images in RAM without writing EEPROM and
   * with nothing dirty: the invariant holds only if EEPROM already equals
   * the images, so otherwise the images reach EEPROM only through
   * `eepromFactoryReset`.
   */
  lemma BlankBootConsistency(image: seq<uint8>, statusImage: seq<uint8>, ee: seq<uint8>)
    requires |image| == MemSize && |statusImage| == StatusSizeEmu && |ee| == EepromSize
    requires LooksBlank(ee, 16)
    ensures Consistent(Boot(image, statusImage, ee)) <==> ee == image + statusImage
  {
    var d := Boot(image, statusImage, ee);
    if Consistent(d) {
      forall which: bool, i | 0 <= i < MemSize
        ensures Ram(d, which)[i] == ee[Base(which) + i]
      {
        assert !InBacklog(d.track, which, i);
      }
      assert forall i :: 0 <= i < MemSize ==> ee[i] == Ram(d, true)[i] == image[i];
      assert forall i :: 0 <= i < StatusSizeEmu ==> ee[EepromStatBase + i] == Ram(d, false)[i] == statusImage[i];
      assert ee == image + statusImage;
    }
  }
}
