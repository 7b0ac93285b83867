/**
 * `DS2506_Custom`: the emulator object. Its RAM mirrors and the EEPROM chip
 * are arrays, its commit bookkeeping fields; every method is proved to move
 * the object from one `Ds2506Model.Device` value to the one the model's
 * functions give, so the properties proved there hold of the object.
 */
module Ds2506Device {

  import opened Uint
  import opened Ds2506Map
  import opened Ds2506Model
  import opened Ds2506Mirror
  import opened OneWireBus
  import opened Ds2506Duty

  /** The CRC after receiving the command byte and the two address bytes. */
  lemma HeaderCrc(step: CrcStep, rx: seq<uint8>)
    requires |rx| >= 3
    ensures Crc16(step, 0, rx[..3]) == step(step(step(0, rx[0]), rx[1]), rx[2])
  {
    var h := rx[..3];
    var t1, t2, t3 := h[1..], h[2..], h[3..];
    assert t1[0] == rx[1] && t2[0] == rx[2] && t3 == [];
    assert t1[1..] == t2 && t2[1..] == t3;
    var c1 := step(0, rx[0]);
    var c2 := step(c1, rx[1]);
    var c3 := step(c2, rx[2]);
    assert Crc16(step, c3, t3) == c3;
    assert Crc16(step, c2, t2) == Crc16(step, c3, t3);
    assert Crc16(step, c1, t1) == Crc16(step, c2, t2);
    assert Crc16(step, 0, h) == Crc16(step, c1, t1);
  }

  class Emulator {
    /** `memory`: the eight emulated data pages. */
    const memory: array<uint8>
    /** `status_ram`. */
    const statusRam: array<uint8>
    /** The EEPROM the firmware reads and updates through `eeRead`/`eeUpdate`. */
    const eeprom: array<uint8>

    var dataDirty: bool
    var dataDirtyLo: nat
    var dataDirtyHi: nat
    var statDirty: bool
    var statDirtyLo: nat
    var statDirtyHi: nat
    var committing: bool
    var commitWhichIsData: bool
    var commitPos: nat
    var lastBusUseMs: nat

    function Track(): Tracker
      reads this
    {
      Tracker(Range(dataDirty, dataDirtyLo, dataDirtyHi), Range(statDirty, statDirtyLo, statDirtyHi),
              committing, commitWhichIsData, commitPos)
    }

    /** The object as a model value. */
    function State(): Device
      reads this, memory, statusRam, eeprom
    {
      Device(memory[..], statusRam[..], eeprom[..], Track(), lastBusUseMs)
    }

    ghost predicate Valid()
      reads this, memory, statusRam, eeprom
    {
      memory.Length == MemSize && statusRam.Length == StatusSizeEmu && eeprom.Length == EepromSize &&
      memory != statusRam && memory != eeprom && statusRam != eeprom &&
      DeviceOk(State())
    }

    /**
     * The constructor at power-up with EEPROM contents `ee`: a blank EEPROM
     * gets the factory images (`image` is the eight page arrays in physical
     * order) into RAM only, any other EEPROM is loaded into RAM.
     */
    constructor (image: seq<uint8>, statusImage: seq<uint8>, ee: seq<uint8>)
      requires |image| == MemSize && |statusImage| == StatusSizeEmu && |ee| == EepromSize
      ensures Valid() && fresh(memory) && fresh(statusRam) && fresh(eeprom)
      ensures State() == Boot(image, statusImage, ee)
    {
      memory := new uint8[MemSize];
      statusRam := new uint8[StatusSizeEmu];
      eeprom := new uint8[EepromSize](i requires 0 <= i < EepromSize => ee[i]);
      dataDirty, dataDirtyLo, dataDirtyHi := false, 0xFFFF, 0;
      statDirty, statDirtyLo, statDirtyHi := false, 0xFFFF, 0;
      committing, commitWhichIsData, commitPos := false, true, 0;
      lastBusUseMs := 0;
      new;
      assert eeprom[..] == ee;
      var blank := EepromLooksBlank(16);
      if blank {
        CopyInto(memory, image);
        CopyInto(statusRam, statusImage);
      } else {
        LoadFromEepromToRam();
      }
    }

    /** `memcpy_P` of a flash image into a RAM mirror. */
    static method CopyInto(dst: array<uint8>, src: seq<uint8>)
      requires dst.Length == |src|
      modifies dst
      ensures dst[..] == src
    {
      var i := 0;
      while i < dst.Length
        invariant 0 <= i <= dst.Length
        invariant dst[..i] == src[..i]
      {
        dst[i] := src[i];
        i := i + 1;
      }
    }

    // -------------------------------------------------------------------------
    // Bookkeeping

    /** `markDataDirty(idx)`, with a running data commit resuming from `idx` if it had passed it. */
    method MarkDataDirty(idx: nat)
      requires Valid() && idx < MemSize
      modifies this`dataDirty, this`dataDirtyLo, this`dataDirtyHi, this`commitPos
      ensures Track() == Mark(old(Track()), true, idx)
      ensures Valid() && State() == old(State()).(track := Mark(old(Track()), true, idx))
    {
      dataDirty := true;
      if idx < dataDirtyLo { dataDirtyLo := idx; }
      if idx > dataDirtyHi { dataDirtyHi := idx; }
      if committing && commitWhichIsData && idx < commitPos { commitPos := idx; }
      assert Track() == Mark(old(Track()), true, idx);
      MarkSpec(old(Track()), true, idx);
    }

    /** `markStatDirty(idx)`, with a running status commit resuming from `idx` if it had passed it. */
    method MarkStatDirty(idx: nat)
      requires Valid() && idx < MemSize
      modifies this`statDirty, this`statDirtyLo, this`statDirtyHi, this`commitPos
      ensures Track() == Mark(old(Track()), false, idx)
      ensures Valid() && State() == old(State()).(track := Mark(old(Track()), false, idx))
    {
      statDirty := true;
      if idx < statDirtyLo { statDirtyLo := idx; }
      if idx > statDirtyHi { statDirtyHi := idx; }
      if committing && !commitWhichIsData && idx < commitPos { commitPos := idx; }
      assert Track() == Mark(old(Track()), false, idx);
      MarkSpec(old(Track()), false, idx);
    }

    /** `markBusUse()` with `millis()` reading `now`. */
    method MarkBusUse(now: nat)
      modifies this`lastBusUseMs
      ensures lastBusUseMs == now
    {
      lastBusUseMs := now;
    }

    /** `busIdle()` with `millis()` reading `now`. */
    predicate BusIdleAt(now: nat)
      reads this
    {
      BusIdle(lastBusUseMs, now)
    }

    /** `readStatusByte(a)`. */
    function ReadStatusByte(a: nat): (b: uint8)
      requires statusRam.Length == StatusSizeEmu
      reads this, statusRam
      ensures b == StatusByteAt(statusRam[..], a)
    {
      if a < StatusSizeEmu then statusRam[a] else 0xFF
    }

    // -------------------------------------------------------------------------
    // EEPROM

    /** `loadFromEEPROMToRAM()`. */
    method LoadFromEepromToRam()
      requires Valid()
      modifies memory, statusRam
      ensures Valid() && State() == LoadFromEeprom(old(State()))
    {
      var i := 0;
      while i < MemSize
        invariant 0 <= i <= MemSize
        invariant memory[..i] == eeprom[EepromMemBase..EepromMemBase + i]
      {
        memory[i] := eeprom[EepromMemBase + i];
        i := i + 1;
      }
      i := 0;
      while i < StatusSizeEmu
        invariant 0 <= i <= StatusSizeEmu
        invariant memory[..] == eeprom[..EepromStatBase]
        invariant statusRam[..i] == eeprom[EepromStatBase..EepromStatBase + i]
      {
        statusRam[i] := eeprom[EepromStatBase + i];
        i := i + 1;
      }
    }

    /** `eepromLooksBlank(sample)`. */
    method EepromLooksBlank(sample: nat) returns (blank: bool)
      requires eeprom.Length == EepromSize && sample < 256
      ensures blank == LooksBlank(eeprom[..], sample)
    {
      var i := 0;
      while i < sample
        invariant 0 <= i <= sample
        invariant forall j :: EepromMemBase <= j < EepromMemBase + i ==> eeprom[j] == 0xFF
      {
        if eeprom[EepromMemBase + i] != 0xFF {
          return false;
        }
        i := i + 1;
      }
      i := 0;
      while i < sample
        invariant 0 <= i <= sample
        invariant forall j :: EepromStatBase <= j < EepromStatBase + i ==> eeprom[j] == 0xFF
      {
        if eeprom[EepromStatBase + i] != 0xFF {
          return false;
        }
        i := i + 1;
      }
      return true;
    }

    /** `eepromFactoryReset()`: both images into EEPROM page by page, EEPROM into RAM, the range bookkeeping reset. */
    method EepromFactoryReset(image: seq<uint8>, statusImage: seq<uint8>)
      requires Valid() && |image| == MemSize && |statusImage| == StatusSizeEmu
      modifies this, memory, statusRam, eeprom
      ensures Valid() && State() == FactoryReset(old(State()), image, statusImage)
    {
      ProgramImages(image, statusImage);
      LoadFromEepromToRam();
      dataDirty, statDirty := false, false;
      dataDirtyLo, statDirtyLo := 0xFFFF, 0xFFFF;
      dataDirtyHi, statDirtyHi := 0, 0;
      committing := false;
    }

    /** The `eeUpdate` loops of `eepromFactoryReset`: the eight data pages, then the status image. */
    method ProgramImages(image: seq<uint8>, statusImage: seq<uint8>)
      requires eeprom.Length == EepromSize && |image| == MemSize && |statusImage| == StatusSizeEmu
      modifies eeprom
      ensures eeprom[..] == image + statusImage
    {
      var start: nat := 0;
      while start < MemSize
        invariant start <= MemSize && start % 32 == 0
        invariant eeprom[..start] == image[..start]
      {
        var i: nat := 0;
        while i < PageSize
          invariant i <= PageSize && start + PageSize <= MemSize
          invariant eeprom[..start + i] == image[..start + i]
        {
          eeprom[EepromMemBase + start + i] := image[start + i];
          i := i + 1;
        }
        start := start + PageSize;
      }
      var i: nat := 0;
      while i < StatusSizeEmu
        invariant i <= StatusSizeEmu
        invariant eeprom[..EepromStatBase + i] == image + statusImage[..i]
      {
        eeprom[EepromStatBase + i] := statusImage[i];
        i := i + 1;
      }
      assert eeprom[..] == eeprom[..EepromStatBase + StatusSizeEmu];
    }

    // -------------------------------------------------------------------------
    // Background commit

    /** `startCommitIfNeeded_()`. */
    method StartCommitIfNeeded()
      requires Valid()
      modifies this
      ensures Valid() && State() == old(State()).(track := StartCommit(old(Track())))
    {
      StartCommitKeepsOk(Track());
      if committing {
        return;
      }
      if dataDirty {
        commitWhichIsData := true; commitPos := dataDirtyLo; committing := true;
        return;
      }
      if statDirty {
        commitWhichIsData := false; commitPos := statDirtyLo; committing := true;
        return;
      }
    }

    /** The copy loop of `commitStep_` over one RAM mirror. */
    method CopyRun(ram: array<uint8>, base: nat, end: nat, budget: nat)
      requires Valid() && (ram == memory || ram == statusRam) && base + MemSize <= EepromSize && end < MemSize
      modifies this`commitPos, eeprom
      ensures eeprom[..] == CommitRun(old(ram[..]), old(eeprom[..]), base, old(commitPos), end, budget).0
      ensures commitPos == CommitRun(old(ram[..]), old(eeprom[..]), base, old(commitPos), end, budget).1
    {
      ghost var ram0 := ram[..];
      var pos: nat := commitPos;
      var b: nat := budget;
      while b > 0 && pos <= end
        invariant ram[..] == ram0 && ram.Length == MemSize && eeprom.Length == EepromSize
        invariant CommitRun(ram0, eeprom[..], base, pos, end, b) ==
                  CommitRun(ram0, old(eeprom[..]), base, old(commitPos), end, budget)
      {
        var v := ram[pos];
        ghost var ee0 := eeprom[..];
        if eeprom[base + pos] != v {
          eeprom[base + pos] := v;
        }
        assert eeprom[..] == if ee0[base + pos] != v then ee0[base + pos := v] else ee0;
        pos := pos + 1;
        b := b - 1;
      }
      commitPos := pos;
    }

    /** `commitStep_(budget)`. */
    method CommitStep(budget: nat)
      requires Valid()
      modifies this`dataDirty, this`dataDirtyLo, this`dataDirtyHi, this`statDirty, this`statDirtyLo, this`statDirtyHi, this`committing, this`commitPos, eeprom
      ensures Valid() && State() == Ds2506Model.CommitStep(old(State()), budget)
    {
      if !committing {
        return;
      }
      if commitWhichIsData {
        var end := dataDirtyHi;
        CopyRun(memory, EepromMemBase, end, budget);
        if commitPos > end {
          dataDirty := false;
          dataDirtyLo := 0xFFFF; dataDirtyHi := 0;
          committing := false;
        }
        assert State() == CommitRegion(old(State()), true, budget);
      } else {
        var end := statDirtyHi;
        CopyRun(statusRam, EepromStatBase, end, budget);
        if commitPos > end {
          statDirty := false;
          statDirtyLo := 0xFFFF; statDirtyHi := 0;
          committing := false;
        }
        assert State() == CommitRegion(old(State()), false, budget);
      }
    }

    /** `serviceBackground()` with `millis()` reading `now`. */
    method ServiceBackground(now: nat)
      requires Valid()
      modifies this, eeprom
      ensures Valid() && State() == Service(old(State()), now)
    {
      if !BusIdleAt(now) {
        return;
      }
      StartCommitIfNeeded();
      CommitStep(CommitBudgetBytes);
    }

    // -------------------------------------------------------------------------
    // `duty`

    /** `duty(hub)` with `millis()` reading `now` and the hub's CRC16 update `step`. */
    method Duty(bus: Bus, now: nat, step: CrcStep) returns (out: Bus)
      requires Valid() && now < Millis
      modifies this, memory, statusRam
      ensures Valid() && (State(), out) == Ds2506Duty.Duty(old(State()), bus, now, step)
    {
      var crc: uint16 := 0;
      if !RecvOk(bus, 1) {
        return Recv(bus, 1);
      }
      var cmd := bus.rx[0];
      crc := step(crc, cmd);
      var b := Recv(bus, 1);
      assert b.rx == bus.rx[1..];
      if !RecvOk(b, 2) {
        return Recv(b, 2);
      }
      LittleEndianRange(b.rx[0], b.rx[1]);
      var regTa := LittleEndian(b.rx[0], b.rx[1]);
      crc := step(step(crc, b.rx[0]), b.rx[1]);
      HeaderCrc(step, bus.rx);
      b := Recv(b, 2);
      assert b.rx == bus.rx[3..];
      MarkBusUse(now);
      if cmd == ReadMemoryCmd {
        out := ReadMemory(b, regTa, crc, now, step);
      } else if cmd == ReadStatusCmd {
        out := ReadStatus(b, regTa, crc, now, step);
      } else if cmd == WriteMemoryCmd {
        out := WriteMemory(b, regTa, crc, now, step);
      } else if cmd == WriteStatusCmd {
        out := WriteStatus(b, regTa, crc, now, step);
      } else {
        out := RaiseSlaveError(b, cmd);
      }
    }

    /** The byte READ MEMORY sends for `dsAddr`: the mapped RAM byte, or 0xFF. */
    method MemoryByte(dsAddr: nat) returns (data: uint8)
      requires memory.Length == MemSize && dsAddr < Word
      ensures data == MemByteAt(memory[..], dsAddr)
    {
      var phys := MapAddressToPhysical(dsAddr);
      MapAddressRange(dsAddr);
      data := if phys != Unmapped then memory[phys] else 0xFF;
    }

    /** Case 0xF0 of `duty`: page-sized chunks up to the device's end, then the CRC. */
    method ReadMemory(bus: Bus, ta: nat, crc: uint16, now: nat, step: CrcStep) returns (out: Bus)
      requires Valid() && now < Millis && lastBusUseMs == now
      modifies this`lastBusUseMs
      ensures Valid() && State() == old(State())
      ensures out == ReadMemoryBus(memory[..], bus, ta, crc, step)
    {
      ghost var mem := memory[..];
      ghost var goal := ReadMemoryBus(mem, bus, ta, crc, step);
      var regTa: nat, acc, b := ta, crc, bus;
      while regTa < DeviceTotalSize
        invariant ReadMemoryBus(mem, b, regTa, acc, step) == goal
        invariant lastBusUseMs == now && memory[..] == mem
        decreases DeviceTotalSize - regTa
      {
        var pageRemain := PageSize - regTa % 32;
        var devRemain := DeviceTotalSize - regTa;
        var chunk := if pageRemain > devRemain then devRemain else pageRemain;
        ghost var start, size := regTa, chunk;
        while chunk > 0
          invariant 0 <= chunk && regTa + chunk <= DeviceTotalSize && regTa + chunk == start + size
          invariant ReadMemoryBus(mem, b, regTa, acc, step) == goal
          invariant lastBusUseMs == now && memory[..] == mem
          decreases chunk
        {
          chunk := chunk - 1;
          var data := MemoryByte(regTa);
          if !SendOk(b, 1) {
            return Send(b, [data]);
          }
          b := Send(b, [data]);
          acc := step(acc, data);
          regTa := regTa + 1;
          MarkBusUse(now);
        }
      }
      out := Send(b, CrcBytes(acc));
      MarkBusUse(now);
    }

    /** Case 0xAA of `duty`: blocks up to the next multiple of eight, each closed by a CRC, the CRC then restarting at 0. */
    method ReadStatus(bus: Bus, ta: nat, crc: uint16, now: nat, step: CrcStep) returns (out: Bus)
      requires Valid() && now < Millis && lastBusUseMs == now
      modifies this`lastBusUseMs
      ensures Valid() && State() == old(State())
      ensures out == ReadStatusBus(statusRam[..], bus, ta, crc, step)
    {
      ghost var stat := statusRam[..];
      var goal := ReadStatusBus(stat, bus, ta, crc, step);
      var regTa: nat, acc, b := ta, crc, bus;
      while regTa < StatusSizeEmu
        invariant ReadStatusBus(stat, b, regTa, acc, step) == goal
        invariant lastBusUseMs == now && statusRam[..] == stat
        decreases StatusSizeEmu - regTa
      {
        var regRa: nat := regTa % 8;
        ghost var start := regTa;
        while regRa < 8 && regTa < StatusSizeEmu
          invariant regRa <= 8 && start <= regTa <= StatusSizeEmu && regRa == start % 8 + (regTa - start)
          invariant regRa < 8 ==> regRa == regTa % 8 && regTa < StatusSizeEmu &&
                                  ReadStatusBus(stat, b, regTa, acc, step) == goal
          invariant regRa == 8 ==> regTa % 8 == 0 &&
                                   ReadStatusBus(stat, Send(b, CrcBytes(acc)), regTa, 0, step) == goal
          invariant lastBusUseMs == now && statusRam[..] == stat
          decreases StatusSizeEmu - regTa
        {
          var data := ReadStatusByte(regTa);
          if !SendOk(b, 1) {
            return Send(b, [data]);
          }
          b := Send(b, [data]);
          acc := step(acc, data);
          regRa := regRa + 1;
          regTa := regTa + 1;
          MarkBusUse(now);
        }
        b := Send(b, CrcBytes(acc));
        acc := 0;
        MarkBusUse(now);
      }
      out := b;
    }

    /** The OTP write of one data byte: the mapped RAM byte becomes `old & newVal` and is marked dirty if it changed; an unemulated page is ignored. */
    method ProgramDataByte(dsAddr: nat, newVal: uint8)
      requires Valid() && dsAddr < Word
      modifies this`dataDirty, this`dataDirtyLo, this`dataDirtyHi, this`commitPos, memory
      ensures Valid() && State() == Burn(old(State()), true, dsAddr, newVal)
    {
      var phys := MapAddressToPhysical(dsAddr);
      MapAddressRange(dsAddr);
      if phys != Unmapped {
        var was := memory[phys];
        var burned := And(was, newVal);
        if burned != was {
          memory[phys] := burned;
          MarkDataDirty(phys);
        }
      }
    }

    /** The OTP write of one status byte: below 256 the byte becomes `old & newVal` and is marked dirty if it changed; above, ignored. */
    method ProgramStatusByte(dsAddr: nat, newVal: uint8)
      requires Valid() && dsAddr < Word
      modifies this`statDirty, this`statDirtyLo, this`statDirtyHi, this`commitPos, statusRam
      ensures Valid() && State() == Burn(old(State()), false, dsAddr, newVal)
    {
      if dsAddr < StatusSizeEmu {
        var was := statusRam[dsAddr];
        var burned := And(was, newVal);
        if burned != was {
          statusRam[dsAddr] := burned;
          MarkStatDirty(dsAddr);
        }
      }
    }

    /** Case 0x0F of `duty`: every further byte is burnt into its mapped RAM byte; unemulated pages are skipped. */
    method WriteMemory(bus: Bus, ta: nat, crc: uint16, now: nat, step: CrcStep) returns (out: Bus)
      requires Valid() && now < Millis && lastBusUseMs == now && ta < Word
      modifies this, memory
      ensures Valid() && State() == BurnAll(old(State()), true, ta, bus.rx)
      ensures out == WriteBus(bus, crc, step)
    {
      var regTa: nat, acc, b := ta, crc, bus;
      while true
        invariant Valid() && regTa < Word && lastBusUseMs == now
        invariant BurnAll(State(), true, regTa, b.rx) == BurnAll(old(State()), true, ta, bus.rx)
        invariant Crc16(step, acc, b.rx) == Crc16(step, crc, bus.rx)
        invariant b.slots == bus.slots && b.tx == bus.tx && b.errors == bus.errors
        decreases |b.rx|
      {
        if !RecvOk(b, 1) {
          break;
        }
        var incoming := b.rx[0];
        acc := step(acc, incoming);
        b := Recv(b, 1);
        ProgramDataByte(regTa, incoming);
        regTa := NextAddress(regTa);
        MarkBusUse(now);
      }
      assert b.rx == [];
      out := Send(b, CrcBytes(acc));
      MarkBusUse(now);
    }

    /** Case 0x55 of `duty`: every further byte below 256 is burnt into its status byte; the rest are skipped. */
    method WriteStatus(bus: Bus, ta: nat, crc: uint16, now: nat, step: CrcStep) returns (out: Bus)
      requires Valid() && now < Millis && lastBusUseMs == now && ta < Word
      modifies this, statusRam
      ensures Valid() && State() == BurnAll(old(State()), false, ta, bus.rx)
      ensures out == WriteBus(bus, crc, step)
    {
      var regTa: nat, acc, b := ta, crc, bus;
      while true
        invariant Valid() && regTa < Word && lastBusUseMs == now
        invariant BurnAll(State(), false, regTa, b.rx) == BurnAll(old(State()), false, ta, bus.rx)
        invariant Crc16(step, acc, b.rx) == Crc16(step, crc, bus.rx)
        invariant b.slots == bus.slots && b.tx == bus.tx && b.errors == bus.errors
        decreases |b.rx|
      {
        if !RecvOk(b, 1) {
          break;
        }
        var incoming := b.rx[0];
        acc := step(acc, incoming);
        b := Recv(b, 1);
        ProgramStatusByte(regTa, incoming);
        regTa := NextAddress(regTa);
        MarkBusUse(now);
      }
      assert b.rx == [];
      out := Send(b, CrcBytes(acc));
      MarkBusUse(now);
    }
  }
}
