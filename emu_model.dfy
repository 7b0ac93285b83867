/**
 * The DS2506 emulator's state as a value: the two RAM mirrors, the 512-byte
 * EEPROM (data at 0..255, status at 256..511), the dirty-range and commit
 * bookkeeping, and the time of the last bus use. The device class's methods
 * are proved to move between these values. The properties proved here (bits
 * only clear, the background commit mirrors RAM into EEPROM, nothing is lost)
 * are those of the corrected design: `Mark` rewinds a running commit (see the
 * README's Findings), while `MarkAsWritten` keeps the firmware's mark.
 */
module Ds2506Model {

  import opened Uint
  import opened Ds2506Map

  const IdleMsBeforeCommit := 20
  const CommitBudgetBytes := 8
  /** One past the largest `uint32_t`: `millis()` wraps here. */
  const Millis := 0x1_0000_0000

  /** The dirty range of one EEPROM region: `xDirty_`, `xDirtyLo_`, `xDirtyHi_`. */
  datatype Range = Range(dirty: bool, lo: nat, hi: nat)

  /** The reset value of a range: not dirty, lo = 0xFFFF, hi = 0. */
  const Clean := Range(false, 0xFFFF, 0)

  /** All commit bookkeeping fields. */
  datatype Tracker = Tracker(data: Range, stat: Range, committing: bool, commitWhichIsData: bool, commitPos: nat)

  /** The fields' initial values. */
  const Initial := Tracker(Clean, Clean, false, true, 0)

  datatype Device = Device(mem: seq<uint8>, stat: seq<uint8>, ee: seq<uint8>, track: Tracker, lastBusUse: nat)

  // ---------------------------------------------------------------------------
  // Regions: `isData` selects the data region (memory, EEPROM 0..255) or the
  // status region (status_ram, EEPROM 256..511)

  function RegionOf(t: Tracker, isData: bool): Range
  {
    if isData then t.data else t.stat
  }

  function WithRegion(t: Tracker, isData: bool, r: Range): Tracker
  {
    if isData then t.(data := r) else t.(stat := r)
  }

  function Ram(d: Device, isData: bool): seq<uint8>
  {
    if isData then d.mem else d.stat
  }

  function WithRam(d: Device, isData: bool, ram: seq<uint8>): Device
  {
    if isData then d.(mem := ram) else d.(stat := ram)
  }

  function Base(isData: bool): nat
  {
    if isData then EepromMemBase else EepromStatBase
  }

  /** The region a running commit is working through. */
  predicate Active(t: Tracker, isData: bool)
  {
    t.committing && t.commitWhichIsData == isData
  }

  // ---------------------------------------------------------------------------
  // Well-formedness

  /** A dirty range lies inside RAM, lo first; a clean one has the reset values. */
  predicate RangeOk(r: Range)
  {
    (r.dirty ==> r.lo <= r.hi < MemSize) && (!r.dirty ==> r == Clean)
  }

  /** A running commit works on a dirty region, between its low bound and one past its high bound. */
  predicate TrackerOk(t: Tracker)
  {
    RangeOk(t.data) && RangeOk(t.stat) && t.commitPos <= MemSize &&
    (t.committing ==> var r := RegionOf(t, t.commitWhichIsData); r.dirty && r.lo <= t.commitPos <= r.hi + 1)
  }

  predicate DeviceOk(d: Device)
  {
    |d.mem| == MemSize && |d.stat| == StatusSizeEmu && |d.ee| == EepromSize &&
    d.lastBusUse < Millis && TrackerOk(d.track)
  }

  /** RAM byte `i` of a region may differ from EEPROM only while it is in the region's backlog. */
  predicate InBacklog(t: Tracker, isData: bool, i: nat)
  {
    var r := RegionOf(t, isData);
    r.dirty && r.lo <= i <= r.hi && (Active(t, isData) ==> t.commitPos <= i)
  }

  /**
   * The mirroring invariant: every RAM byte that differs from its EEPROM copy
   * is inside its region's dirty range and not yet passed by a running commit.
   */
  predicate Pending(d: Device, isData: bool)
    requires DeviceOk(d)
  {
    forall i :: 0 <= i < MemSize && Ram(d, isData)[i] != d.ee[Base(isData) + i] ==> InBacklog(d.track, isData, i)
  }

  predicate Consistent(d: Device)
  {
    DeviceOk(d) && Pending(d, true) && Pending(d, false)
  }

  /** Both EEPROM regions hold exactly the RAM mirrors. */
  predicate Mirrored(d: Device)
    requires DeviceOk(d)
  {
    d.ee[..EepromStatBase] == d.mem && d.ee[EepromStatBase..] == d.stat
  }

  // ---------------------------------------------------------------------------
  // Dirty marks

  function Min(a: nat, b: nat): nat { if a < b then a else b }
  function Max(a: nat, b: nat): nat { if a > b then a else b }

  /** The range part of `markDataDirty`/`markStatDirty`. */
  function Widen(r: Range, index: nat): Range
  {
    Range(true, if index < r.lo then index else r.lo, if index > r.hi then index else r.hi)
  }

  /** `markDataDirty`/`markStatDirty` as the firmware has them: only the range changes. */
  function MarkAsWritten(t: Tracker, isData: bool, index: nat): Tracker
  {
    WithRegion(t, isData, Widen(RegionOf(t, isData), index))
  }

  /**
   * The mark the commit machine needs: as written, and if a running commit
   * of this region has already passed `index`, the commit resumes from it.
   */
  function Mark(t: Tracker, isData: bool, index: nat): Tracker
  {
    var t1 := MarkAsWritten(t, isData, index);
    if Active(t, isData) && index < t.commitPos then t1.(commitPos := index) else t1
  }

  /** Marking the indices `idxs` one after the other. */
  function MarkAll(t: Tracker, isData: bool, idxs: seq<nat>): Tracker
    decreases |idxs|
  {
    if idxs == [] then t else MarkAll(Mark(t, isData, idxs[0]), isData, idxs[1..])
  }

  /** A mark keeps the tracker well formed, covers the index and the old range, and leaves the other region alone. */
  lemma MarkSpec(t: Tracker, isData: bool, index: nat)
    requires TrackerOk(t) && index < MemSize
    ensures var m := Mark(t, isData, index);
      TrackerOk(m) && RegionOf(m, isData).dirty &&
      RegionOf(m, isData).lo == Min(RegionOf(t, isData).lo, index) &&
      RegionOf(m, isData).hi == Max(RegionOf(t, isData).hi, index) &&
      RegionOf(m, !isData) == RegionOf(t, !isData) &&
      m.committing == t.committing && m.commitWhichIsData == t.commitWhichIsData
  {
  }

  /** After marking a list of indices the region is dirty, well formed, and its range holds every marked index and the old range. */
  lemma {:induction false} MarkAllCovers(t: Tracker, isData: bool, idxs: seq<nat>)
    requires TrackerOk(t)
    requires forall k :: 0 <= k < |idxs| ==> idxs[k] < MemSize
    ensures var m := MarkAll(t, isData, idxs);
      var r := RegionOf(m, isData);
      TrackerOk(m) && RegionOf(m, !isData) == RegionOf(t, !isData) &&
      (idxs != [] ==> r.dirty) &&
      (forall k :: 0 <= k < |idxs| ==> r.lo <= idxs[k] <= r.hi) &&
      (RegionOf(t, isData).dirty ==> r.lo <= RegionOf(t, isData).lo && RegionOf(t, isData).hi <= r.hi)
    decreases |idxs|
  {
    if idxs != [] {
      var t1 := Mark(t, isData, idxs[0]);
      MarkSpec(t, isData, idxs[0]);
      MarkAllCovers(t1, isData, idxs[1..]);
      var r := RegionOf(MarkAll(t, isData, idxs), isData);
      forall k | 0 <= k < |idxs| ensures r.lo <= idxs[k] <= r.hi {
        if k > 0 {
          assert idxs[k] == idxs[1..][k - 1];
        }
      }
    }
  }

  // ---------------------------------------------------------------------------
  // The background commit

  /** `startCommitIfNeeded_`. */
  function StartCommit(t: Tracker): Tracker
  {
    if t.committing then t
    else if t.data.dirty then t.(commitWhichIsData := true, commitPos := t.data.lo, committing := true)
    else if t.stat.dirty then t.(commitWhichIsData := false, commitPos := t.stat.lo, committing := true)
    else t
  }

  /**
   * The copy loop of `commitStep_`: from `pos`, while budget remains and
   * `pos <= end`, bring EEPROM byte `base + pos` up to RAM byte `pos`.
   * Answers the EEPROM and the position it stopped at.
   */
  function CommitRun(ram: seq<uint8>, ee: seq<uint8>, base: nat, pos: nat, end: nat, budget: nat): (r: (seq<uint8>, nat))
    requires end < |ram| && base + |ram| <= |ee|
    ensures |r.0| == |ee|
    ensures r.1 == if pos > end then pos else Min(end + 1, pos + budget)
    ensures forall i :: pos <= i < r.1 ==> r.0[base + i] == ram[i]
    ensures forall j :: 0 <= j < |ee| && !(base + pos <= j < base + r.1) ==> r.0[j] == ee[j]
    decreases budget
  {
    if budget == 0 || pos > end then (ee, pos)
    else
      var v := ram[pos];
      var ee1 := if ee[base + pos] != v then ee[base + pos := v] else ee;
      CommitRun(ram, ee1, base, pos + 1, end, budget - 1)
  }

  /** `commitStep_` on the region being committed; when the position passes the high bound the region is clean again. */
  function CommitRegion(d: Device, isData: bool, budget: nat): (r: Device)
    requires DeviceOk(d) && Active(d.track, isData)
    ensures DeviceOk(r) && r.lastBusUse == d.lastBusUse && r.mem == d.mem && r.stat == d.stat
  {
    var t := d.track;
    var r := RegionOf(t, isData);
    var run := CommitRun(Ram(d, isData), d.ee, Base(isData), t.commitPos, r.hi, budget);
    var t1 := t.(commitPos := run.1);
    d.(ee := run.0, track := if run.1 > r.hi then WithRegion(t1, isData, Clean).(committing := false) else t1)
  }

  /** `commitStep_(budget)`. */
  function CommitStep(d: Device, budget: nat): (r: Device)
    requires DeviceOk(d)
    ensures DeviceOk(r) && r.lastBusUse == d.lastBusUse && r.mem == d.mem && r.stat == d.stat
  {
    if !d.track.committing then d else CommitRegion(d, d.track.commitWhichIsData, budget)
  }

  /** `busIdle()`: the `uint32_t` difference `now - lastBusUseMs_`, wrapping, is at least 20 ms. */
  predicate BusIdle(lastBusUse: nat, now: nat)
  {
    (now - lastBusUse) % Millis >= IdleMsBeforeCommit
  }

  /** What `serviceBackground` does once the bus is idle. */
  function IdleService(d: Device): (r: Device)
    requires DeviceOk(d)
    ensures DeviceOk(r) && r.lastBusUse == d.lastBusUse && r.mem == d.mem && r.stat == d.stat
  {
    StartCommitKeepsOk(d.track);
    CommitStep(d.(track := StartCommit(d.track)), CommitBudgetBytes)
  }

  /** `serviceBackground()` at time `now`. */
  function Service(d: Device, now: nat): Device
    requires DeviceOk(d)
  {
    if !BusIdle(d.lastBusUse, now) then d else IdleService(d)
  }

  lemma StartCommitKeepsOk(t: Tracker)
    requires TrackerOk(t)
    ensures TrackerOk(StartCommit(t))
  {
  }

  // ---------------------------------------------------------------------------
  // Writes: the OTP rule

  /** Where an incoming byte for address `ta` lands: the mapped RAM byte, or the status byte below 256. */
  function Target(isData: bool, ta: nat): nat
    requires ta < Word
  {
    if isData then MapAddress(ta) else if ta < StatusSizeEmu then ta else Unmapped
  }

  /** RAM byte `p` of a region becomes `old & incoming`, and is marked dirty only if it changed. */
  function BurnAt(d: Device, isData: bool, p: nat, incoming: uint8): Device
    requires DeviceOk(d) && p < MemSize
  {
    var before := Ram(d, isData)[p];
    var burned := And(before, incoming);
    if burned == before then d
    else WithRam(d, isData, Ram(d, isData)[p := burned]).(track := Mark(d.track, isData, p))
  }

  /** One incoming byte of WRITE MEMORY / WRITE STATUS at address `ta`; an address that lands nowhere is ignored. */
  function Burn(d: Device, isData: bool, ta: nat, incoming: uint8): Device
    requires DeviceOk(d) && ta < Word
  {
    var p := Target(isData, ta);
    MapAddressRange(ta);
    if p == Unmapped then d else BurnAt(d, isData, p, incoming)
  }

  /** The effect of `BurnAt` on the region's RAM, whether or not the byte changes. */
  lemma BurnAtRam(d: Device, isData: bool, p: nat, incoming: uint8)
    requires DeviceOk(d) && p < MemSize
    ensures Ram(BurnAt(d, isData, p, incoming), isData) == Ram(d, isData)[p := And(Ram(d, isData)[p], incoming)]
  {
    var ram := Ram(d, isData);
    if And(ram[p], incoming) == ram[p] {
      assert ram[p := And(ram[p], incoming)] == ram;
    }
  }

  /** `reg_TA++` on a `uint16_t`. */
  function NextAddress(ta: nat): nat
    requires ta < Word
  {
    (ta + 1) % Word
  }

  /** The incoming bytes `ds`, the first at address `ta`. */
  function BurnAll(d: Device, isData: bool, ta: nat, ds: seq<uint8>): (r: Device)
    requires DeviceOk(d) && ta < Word
    ensures DeviceOk(r) && r.ee == d.ee && r.lastBusUse == d.lastBusUse && Ram(r, !isData) == Ram(d, !isData)
    decreases |ds|
  {
    if ds == [] then d
    else
      BurnKeepsOk(d, isData, ta, ds[0]);
      BurnAll(Burn(d, isData, ta, ds[0]), isData, NextAddress(ta), ds[1..])
  }

  lemma BurnKeepsOk(d: Device, isData: bool, ta: nat, incoming: uint8)
    requires DeviceOk(d) && ta < Word
    ensures var r := Burn(d, isData, ta, incoming);
      DeviceOk(r) && r.ee == d.ee && r.lastBusUse == d.lastBusUse && Ram(r, !isData) == Ram(d, !isData)
  {
    var p := Target(isData, ta);
    MapAddressRange(ta);
    if p != Unmapped {
      MarkSpec(d.track, isData, p);
    }
  }

  /** What the byte written at address `ta` contributes to RAM byte `i`: itself if it lands there, else all ones. */
  function Contribution(isData: bool, ta: nat, incoming: uint8, i: nat): uint8
    requires ta < Word
  {
    if Target(isData, ta) == i then incoming else 0xFF
  }

  /** The AND of every incoming byte whose address lands on RAM byte `i`, or 0xFF if none does. */
  function AndMask(isData: bool, ta: nat, ds: seq<uint8>, i: nat): uint8
    requires ta < Word
    decreases |ds|
  {
    if ds == [] then 0xFF
    else And(Contribution(isData, ta, ds[0], i), AndMask(isData, NextAddress(ta), ds[1..], i))
  }

  /** One incoming byte's effect on RAM byte `i`. */
  lemma BurnByte(d: Device, isData: bool, ta: nat, incoming: uint8, i: nat)
    requires DeviceOk(d) && ta < Word && i < MemSize
    ensures Ram(Burn(d, isData, ta, incoming), isData)[i] == And(Ram(d, isData)[i], Contribution(isData, ta, incoming, i))
  {
    var p := Target(isData, ta);
    MapAddressRange(ta);
    AndAllOnes(Ram(d, isData)[i]);
    if p != Unmapped {
      BurnAtRam(d, isData, p, incoming);
    }
  }

  /** The closed form of a write: every RAM byte ends as its old value ANDed with all bytes written to it. */
  lemma {:induction false} BurnAllIsAndMask(d: Device, isData: bool, ta: nat, ds: seq<uint8>)
    requires DeviceOk(d) && ta < Word
    ensures forall i :: 0 <= i < MemSize ==>
      Ram(BurnAll(d, isData, ta, ds), isData)[i] == And(Ram(d, isData)[i], AndMask(isData, ta, ds, i))
    decreases |ds|
  {
    if ds == [] {
      forall i | 0 <= i < MemSize ensures Ram(d, isData)[i] == And(Ram(d, isData)[i], 0xFF) {
        AndAllOnes(Ram(d, isData)[i]);
      }
    } else {
      var d1 := Burn(d, isData, ta, ds[0]);
      BurnKeepsOk(d, isData, ta, ds[0]);
      BurnAllIsAndMask(d1, isData, NextAddress(ta), ds[1..]);
      forall i | 0 <= i < MemSize
        ensures Ram(BurnAll(d, isData, ta, ds), isData)[i] == And(Ram(d, isData)[i], AndMask(isData, ta, ds, i))
      {
        BurnByte(d, isData, ta, ds[0], i);
        AndAssociates(Ram(d, isData)[i], Contribution(isData, ta, ds[0], i), AndMask(isData, NextAddress(ta), ds[1..], i));
      }
    }
  }

  /** Writing only clears bits: every RAM byte ends as a sub-mask of its old value, so no byte grows. */
  lemma WriteOnlyClearsBits(d: Device, isData: bool, ta: nat, ds: seq<uint8>)
    requires DeviceOk(d) && ta < Word
    ensures forall i :: 0 <= i < MemSize ==>
      And(Ram(BurnAll(d, isData, ta, ds), isData)[i], Ram(d, isData)[i]) == Ram(BurnAll(d, isData, ta, ds), isData)[i] &&
      Ram(BurnAll(d, isData, ta, ds), isData)[i] <= Ram(d, isData)[i]
  {
    BurnAllIsAndMask(d, isData, ta, ds);
    forall i | 0 <= i < MemSize
      ensures And(Ram(BurnAll(d, isData, ta, ds), isData)[i], Ram(d, isData)[i]) == Ram(BurnAll(d, isData, ta, ds), isData)[i]
    {
      SubMask(Ram(d, isData)[i], AndMask(isData, ta, ds, i));
    }
  }

  /** An incoming byte for an address that lands nowhere changes nothing at all. */
  lemma UnmappedWriteIgnored(d: Device, isData: bool, ta: nat, incoming: uint8)
    requires DeviceOk(d) && ta < Word
    requires Target(isData, ta) == Unmapped
    ensures Burn(d, isData, ta, incoming) == d
  {
  }

  /** A byte that does not change RAM leaves the whole state alone: no dirty mark without a change. */
  lemma NoMarkWithoutChange(d: Device, isData: bool, ta: nat, incoming: uint8)
    requires DeviceOk(d) && ta < Word
    requires Ram(Burn(d, isData, ta, incoming), isData) == Ram(d, isData)
    ensures Burn(d, isData, ta, incoming) == d
  {
    var p := Target(isData, ta);
    MapAddressRange(ta);
    if p != Unmapped {
      BurnAtRam(d, isData, p, incoming);
    }
  }

  /** The address of the `k`-th byte of a write that starts at `ta`, wrapping at 0x10000. */
  function AddressAt(ta: nat, k: nat): nat
  {
    (ta + k) % Word
  }

  lemma ShiftAddress(ta: nat, k: nat)
    requires ta < Word
    ensures AddressAt(NextAddress(ta), k) == AddressAt(ta, k + 1)
  {
  }

  /** Each written byte is kept in the mask of the RAM byte its address lands on. */
  lemma {:induction false} AndMaskIncludes(isData: bool, ta: nat, ds: seq<uint8>, k: nat)
    requires ta < Word && k < |ds|
    ensures And(AndMask(isData, ta, ds, Target(isData, AddressAt(ta, k))), ds[k]) == AndMask(isData, ta, ds, Target(isData, AddressAt(ta, k)))
    decreases k
  {
    var i := Target(isData, AddressAt(ta, k));
    var c := Contribution(isData, ta, ds[0], i);
    var rest := AndMask(isData, NextAddress(ta), ds[1..], i);
    if k == 0 {
      assert AddressAt(ta, 0) == ta;
      AndCommutes(ds[0], rest);
      AndAbsorbs(rest, ds[0]);
      AndCommutes(rest, ds[0]);
    } else {
      ShiftAddress(ta, k - 1);
      AndMaskIncludes(isData, NextAddress(ta), ds[1..], k - 1);
      assert ds[1..][k - 1] == ds[k];
      AndAssociates(c, rest, ds[k]);
    }
  }

  /** A write whose every byte is already burnt into its target changes nothing. */
  lemma {:induction false} BurnAllNoop(d: Device, isData: bool, ta: nat, ds: seq<uint8>)
    requires DeviceOk(d) && ta < Word
    requires forall k :: 0 <= k < |ds| && Target(isData, AddressAt(ta, k)) < MemSize ==>
      And(Ram(d, isData)[Target(isData, AddressAt(ta, k))], ds[k]) == Ram(d, isData)[Target(isData, AddressAt(ta, k))]
    ensures BurnAll(d, isData, ta, ds) == d
    decreases |ds|
  {
    if ds != [] {
      assert AddressAt(ta, 0) == ta;
      BurnFirstNoop(d, isData, ta, ds[0]);
      forall k | 0 <= k < |ds| - 1 && Target(isData, AddressAt(NextAddress(ta), k)) < MemSize
        ensures And(Ram(d, isData)[Target(isData, AddressAt(NextAddress(ta), k))], ds[1..][k]) ==
          Ram(d, isData)[Target(isData, AddressAt(NextAddress(ta), k))]
      {
        ShiftAddress(ta, k);
      }
      BurnAllNoop(d, isData, NextAddress(ta), ds[1..]);
    }
  }

  lemma BurnFirstNoop(d: Device, isData: bool, ta: nat, incoming: uint8)
    requires DeviceOk(d) && ta < Word
    requires Target(isData, ta) < MemSize ==> And(Ram(d, isData)[Target(isData, ta)], incoming) == Ram(d, isData)[Target(isData, ta)]
    ensures Burn(d, isData, ta, incoming) == d
  {
    MapAddressRange(ta);
  }

  /** Writing the same bytes to the same address a second time changes nothing: the OTP write is idempotent. */
  lemma WriteIdempotent(d: Device, isData: bool, ta: nat, ds: seq<uint8>)
    requires DeviceOk(d) && ta < Word
    ensures BurnAll(BurnAll(d, isData, ta, ds), isData, ta, ds) == BurnAll(d, isData, ta, ds)
  {
    var d1 := BurnAll(d, isData, ta, ds);
    BurnAllIsAndMask(d, isData, ta, ds);
    forall k | 0 <= k < |ds| && Target(isData, AddressAt(ta, k)) < MemSize
      ensures And(Ram(d1, isData)[Target(isData, AddressAt(ta, k))], ds[k]) == Ram(d1, isData)[Target(isData, AddressAt(ta, k))]
    {
      var i := Target(isData, AddressAt(ta, k));
      AndMaskIncludes(isData, ta, ds, k);
      AndAssociates(Ram(d, isData)[i], AndMask(isData, ta, ds, i), ds[k]);
    }
    BurnAllNoop(d1, isData, ta, ds);
  }
}
