/**
 * What one `duty` call does, as a value: the command byte and target
 * address come off the bus, then READ MEMORY streams the data space,
 * READ STATUS streams the status bytes in CRC-closed blocks of eight, and
 * the two WRITE commands burn every further byte into RAM under the OTP
 * rule and answer with the CRC of everything received.
 */
module Ds2506Duty {

  import opened Uint
  import opened Ds2506Map
  import opened Ds2506Model
  import opened Ds2506Mirror
  import opened OneWireBus

  const ReadMemoryCmd: uint8 := 0xF0
  const ReadStatusCmd: uint8 := 0xAA
  const WriteMemoryCmd: uint8 := 0x0F
  const WriteStatusCmd: uint8 := 0x55

  // ---------------------------------------------------------------------------
  // READ MEMORY

  /** The byte READ MEMORY sends for address `a`: the mapped RAM byte, 0xFF for an unemulated page. */
  function MemByteAt(mem: seq<uint8>, a: nat): uint8
    requires |mem| == MemSize && a < Word
  {
    MapAddressRange(a);
    if MapAddress(a) != Unmapped then mem[MapAddress(a)] else 0xFF
  }

  /** The device's data bytes from `ta` to the end of the device. */
  function MemStream(mem: seq<uint8>, ta: nat): (s: seq<uint8>)
    requires |mem| == MemSize
    ensures |s| == if ta < DeviceTotalSize then DeviceTotalSize - ta else 0
    decreases DeviceTotalSize - ta
  {
    if ta >= DeviceTotalSize then [] else [MemByteAt(mem, ta)] + MemStream(mem, ta + 1)
  }

  /** Byte `k` of the stream is the byte of address `ta + k`. */
  lemma {:induction false} MemStreamAt(mem: seq<uint8>, ta: nat, k: nat)
    requires |mem| == MemSize && ta + k < DeviceTotalSize
    ensures MemStream(mem, ta)[k] == MemByteAt(mem, ta + k)
    decreases k
  {
    var s := MemStream(mem, ta);
    assert s == [MemByteAt(mem, ta)] + MemStream(mem, ta + 1);
    if k > 0 {
      MemStreamAt(mem, ta + 1, k - 1);
      assert s[k] == MemStream(mem, ta + 1)[k - 1];
      assert ta + 1 + (k - 1) == ta + k;
    }
  }

  /** READ MEMORY from `ta`, byte by byte: stops when a send fails, and at the end of the device sends the CRC. */
  function ReadMemoryBus(mem: seq<uint8>, bus: Bus, ta: nat, crc: uint16, step: CrcStep): Bus
    requires |mem| == MemSize
    decreases DeviceTotalSize - ta
  {
    if ta >= DeviceTotalSize then Send(bus, CrcBytes(crc))
    else
      var b := MemByteAt(mem, ta);
      if !SendOk(bus, 1) then Send(bus, [b])
      else ReadMemoryBus(mem, Send(bus, [b]), ta + 1, step(crc, b), step)
  }

  /**
   * READ MEMORY sends every data byte from the target address to 0x1FFF and
   * then the inverted CRC of the command, the address and those bytes, for
   * as long as the master clocks; a start at 0x2000 or above sends only the
   * CRC.
   */
  lemma {:induction false} ReadMemoryStream(mem: seq<uint8>, bus: Bus, ta: nat, crc: uint16, step: CrcStep)
    requires |mem| == MemSize
    ensures var s := MemStream(mem, ta);
      ReadMemoryBus(mem, bus, ta, crc, step) == Send(bus, s + CrcBytes(Crc16(step, crc, s)))
    decreases DeviceTotalSize - ta
  {
    var s := MemStream(mem, ta);
    if ta < DeviceTotalSize {
      var b := MemByteAt(mem, ta);
      var rest := MemStream(mem, ta + 1);
      assert s == [b] + rest;
      assert Crc16(step, crc, s) == Crc16(step, step(crc, b), rest) by {
        assert s[0] == b && s[1..] == rest;
      }
      var tail := rest + CrcBytes(Crc16(step, step(crc, b), rest));
      assert s + CrcBytes(Crc16(step, crc, s)) == [b] + tail;
      SendConcat(bus, [b], tail);
      if SendOk(bus, 1) {
        ReadMemoryStream(mem, Send(bus, [b]), ta + 1, step(crc, b), step);
        assert ReadMemoryBus(mem, bus, ta, crc, step) == ReadMemoryBus(mem, Send(bus, [b]), ta + 1, step(crc, b), step);
      } else {
        assert Send(Send(bus, [b]), tail) == Send(bus, [b]);
        assert ReadMemoryBus(mem, bus, ta, crc, step) == Send(bus, [b]);
      }
    } else {
      assert s == [];
      assert s + CrcBytes(Crc16(step, crc, s)) == CrcBytes(crc);
    }
  }

  /** The length of the `chunk` READ MEMORY sends in one pass of its outer loop: the rest of the page, cut at the device's end. */
  function ChunkLength(ta: nat): nat
    requires ta < DeviceTotalSize
  {
    var pageRemain := PageSize - ta % 32;
    var devRemain := DeviceTotalSize - ta;
    if pageRemain > devRemain then devRemain else pageRemain
  }

  /** A chunk is never empty, never crosses a page boundary, never leaves the device. */
  lemma ChunkBounds(ta: nat)
    requires ta < DeviceTotalSize
    ensures 1 <= ChunkLength(ta) <= PageSize
    ensures ta + ChunkLength(ta) <= DeviceTotalSize
    ensures (ta + ChunkLength(ta)) % 32 == 0
    ensures forall a :: ta <= a < ta + ChunkLength(ta) ==> a / 32 == ta / 32
  {
    var q, r := ta / 32, ta % 32;
    assert ta + ChunkLength(ta) == q * 32 + 32;
    PageSplit(q * 32 + 32, q + 1, 0);
    forall a | ta <= a < ta + ChunkLength(ta) ensures a / 32 == ta / 32 {
      PageSplit(a, q, a - q * 32);
    }
  }

  // ---------------------------------------------------------------------------
  // READ STATUS

  /** The status byte at `a` as `readStatusByte` answers it. */
  function StatusByteAt(stat: seq<uint8>, a: nat): uint8
    requires |stat| == StatusSizeEmu
  {
    if a < StatusSizeEmu then stat[a] else 0xFF
  }

  /** READ STATUS from `ta`, byte by byte: after each byte that ends an 8-byte block, the CRC, and the CRC restarts at 0. */
  function ReadStatusBus(stat: seq<uint8>, bus: Bus, ta: nat, crc: uint16, step: CrcStep): Bus
    requires |stat| == StatusSizeEmu
    decreases StatusSizeEmu - ta
  {
    if ta >= StatusSizeEmu then bus
    else
      var b := StatusByteAt(stat, ta);
      if !SendOk(bus, 1) then Send(bus, [b])
      else
        var crc1 := step(crc, b);
        if (ta + 1) % 8 == 0 then ReadStatusBus(stat, Send(Send(bus, [b]), CrcBytes(crc1)), ta + 1, 0, step)
        else ReadStatusBus(stat, Send(bus, [b]), ta + 1, crc1, step)
  }

  /** The end of the 8-byte status block holding `ta`. */
  function BlockEnd(ta: nat): nat
  {
    ta + 8 - ta % 8
  }

  /**
   * The reference framing of READ STATUS: the status bytes from `ta` to the
   * end of its 8-byte block and their CRC (from `crc`), then each following
   * block of eight with a CRC starting from 0.
   */
  function StatusFrames(stat: seq<uint8>, ta: nat, crc: uint16, step: CrcStep): seq<uint8>
    requires |stat| == StatusSizeEmu
    decreases StatusSizeEmu - ta
  {
    if ta >= StatusSizeEmu then []
    else
      var block := stat[ta..BlockEnd(ta)];
      block + CrcBytes(Crc16(step, crc, block)) + StatusFrames(stat, BlockEnd(ta), 0, step)
  }

  lemma BlockEndStep(ta: nat)
    ensures ta < BlockEnd(ta) <= ta + 8 && BlockEnd(ta) % 8 == 0
    ensures (ta + 1) % 8 == 0 ==> BlockEnd(ta) == ta + 1
    ensures (ta + 1) % 8 != 0 ==> BlockEnd(ta + 1) == BlockEnd(ta)
  {
  }

  /** From the last byte of a block: the byte, its block's CRC, then the frames of the next block. */
  lemma StatusFramesLast(stat: seq<uint8>, ta: nat, crc: uint16, step: CrcStep)
    requires |stat| == StatusSizeEmu && ta < StatusSizeEmu && (ta + 1) % 8 == 0
    ensures StatusFrames(stat, ta, crc, step) == [stat[ta]] + CrcBytes(step(crc, stat[ta])) + StatusFrames(stat, ta + 1, 0, step)
  {
    BlockEndStep(ta);
    var block := stat[ta..ta + 1];
    assert block == [stat[ta]];
    assert Crc16(step, crc, block) == Crc16(step, step(crc, stat[ta]), []);
  }

  /** From any other byte: the byte, then the frames from the next byte with the CRC carried on. */
  lemma StatusFramesInner(stat: seq<uint8>, ta: nat, crc: uint16, step: CrcStep)
    requires |stat| == StatusSizeEmu && ta < StatusSizeEmu && (ta + 1) % 8 != 0
    ensures StatusFrames(stat, ta, crc, step) == [stat[ta]] + StatusFrames(stat, ta + 1, step(crc, stat[ta]), step)
  {
    BlockEndStep(ta);
    var e := BlockEnd(ta);
    assert ta + 1 < e <= StatusSizeEmu;
    var block := stat[ta..e];
    var rest := stat[ta + 1..e];
    assert block == [stat[ta]] + rest;
    assert block[0] == stat[ta] && block[1..] == rest;
    var c := CrcBytes(Crc16(step, step(crc, stat[ta]), rest));
    var tail := StatusFrames(stat, e, 0, step);
    assert StatusFrames(stat, ta + 1, step(crc, stat[ta]), step) == rest + c + tail;
    assert StatusFrames(stat, ta, crc, step) == block + c + tail;
  }

  /** READ STATUS puts on the wire exactly the reference framing from `ta`, for as long as the master clocks; from 256 on, nothing. */
  lemma {:induction false} ReadStatusStream(stat: seq<uint8>, bus: Bus, ta: nat, crc: uint16, step: CrcStep)
    requires |stat| == StatusSizeEmu
    ensures ReadStatusBus(stat, bus, ta, crc, step) == Send(bus, StatusFrames(stat, ta, crc, step))
    decreases StatusSizeEmu - ta
  {
    if ta < StatusSizeEmu {
      var b := stat[ta];
      var crc1 := step(crc, b);
      if (ta + 1) % 8 == 0 {
        if SendOk(bus, 1) {
          ReadStatusStream(stat, Send(Send(bus, [b]), CrcBytes(crc1)), ta + 1, 0, step);
        }
        ReadStatusLastStep(stat, bus, ta, crc, step);
      } else {
        if SendOk(bus, 1) {
          ReadStatusStream(stat, Send(bus, [b]), ta + 1, crc1, step);
        }
        ReadStatusInnerStep(stat, bus, ta, crc, step);
      }
    } else {
      assert Send(bus, []) == bus;
    }
  }

  /** The step of `ReadStatusStream` at the last byte of a block, given the claim from the next block on. */
  lemma ReadStatusLastStep(stat: seq<uint8>, bus: Bus, ta: nat, crc: uint16, step: CrcStep)
    requires |stat| == StatusSizeEmu && ta < StatusSizeEmu && (ta + 1) % 8 == 0
    requires var next := Send(Send(bus, [stat[ta]]), CrcBytes(step(crc, stat[ta])));
      SendOk(bus, 1) ==> ReadStatusBus(stat, next, ta + 1, 0, step) == Send(next, StatusFrames(stat, ta + 1, 0, step))
    ensures ReadStatusBus(stat, bus, ta, crc, step) == Send(bus, StatusFrames(stat, ta, crc, step))
  {
    var b := stat[ta];
    var crc1 := step(crc, b);
    StatusFramesLast(stat, ta, crc, step);
    var rest := StatusFrames(stat, ta + 1, 0, step);
    SendConcat(bus, [b], CrcBytes(crc1) + rest);
    SendConcat(Send(bus, [b]), CrcBytes(crc1), rest);
    assert [b] + CrcBytes(crc1) + rest == [b] + (CrcBytes(crc1) + rest);
    if !SendOk(bus, 1) {
      assert Send(Send(bus, [b]), CrcBytes(crc1) + rest) == Send(bus, [b]);
    }
  }

  /** The step of `ReadStatusStream` inside a block, given the claim from the next byte on. */
  lemma ReadStatusInnerStep(stat: seq<uint8>, bus: Bus, ta: nat, crc: uint16, step: CrcStep)
    requires |stat| == StatusSizeEmu && ta < StatusSizeEmu && (ta + 1) % 8 != 0
    requires var next := Send(bus, [stat[ta]]);
      SendOk(bus, 1) ==> ReadStatusBus(stat, next, ta + 1, step(crc, stat[ta]), step) ==
                         Send(next, StatusFrames(stat, ta + 1, step(crc, stat[ta]), step))
    ensures ReadStatusBus(stat, bus, ta, crc, step) == Send(bus, StatusFrames(stat, ta, crc, step))
  {
    var b := stat[ta];
    var crc1 := step(crc, b);
    StatusFramesInner(stat, ta, crc, step);
    var rest := StatusFrames(stat, ta + 1, crc1, step);
    SendConcat(bus, [b], rest);
    if !SendOk(bus, 1) {
      assert Send(Send(bus, [b]), rest) == Send(bus, [b]);
    }
  }

  /** From a block boundary the framing is ten bytes per block: eight status bytes and a CRC pair. */
  lemma {:induction false} StatusFramesLength(stat: seq<uint8>, ta: nat, crc: uint16, step: CrcStep)
    requires |stat| == StatusSizeEmu && ta <= StatusSizeEmu && ta % 8 == 0
    ensures |StatusFrames(stat, ta, crc, step)| * 8 == (StatusSizeEmu - ta) * 10
    decreases StatusSizeEmu - ta
  {
    if ta < StatusSizeEmu {
      assert BlockEnd(ta) == ta + 8;
      StatusFramesLength(stat, ta + 8, 0, step);
    }
  }

  // ---------------------------------------------------------------------------
  // WRITE MEMORY / WRITE STATUS

  /** The bus after a write has received every byte the master sends: the CRC of the whole exchange goes back. */
  function WriteBus(bus: Bus, crc: uint16, step: CrcStep): Bus
  {
    Send(bus.(rx := []), CrcBytes(Crc16(step, crc, bus.rx)))
  }

  // ---------------------------------------------------------------------------
  // `duty`

  /** `duty` at time `now`: the new device state and the bus afterwards. */
  function Duty(d: Device, bus: Bus, now: nat, step: CrcStep): (r: (Device, Bus))
    requires DeviceOk(d) && now < Millis
    ensures DeviceOk(r.0)
  {
    if |bus.rx| < 3 then (d, bus.(rx := []))
    else
      var cmd := bus.rx[0];
      var ta := LittleEndian(bus.rx[1], bus.rx[2]);
      var crc := Crc16(step, 0, bus.rx[..3]);
      LittleEndianRange(bus.rx[1], bus.rx[2]);
      var d1 := d.(lastBusUse := now);
      var bus1 := bus.(rx := bus.rx[3..]);
      if cmd == ReadMemoryCmd then (d1, ReadMemoryBus(d.mem, bus1, ta, crc, step))
      else if cmd == ReadStatusCmd then (d1, ReadStatusBus(d.stat, bus1, ta, crc, step))
      else if cmd == WriteMemoryCmd then (BurnAll(d1, true, ta, bus1.rx), WriteBus(bus1, crc, step))
      else if cmd == WriteStatusCmd then (BurnAll(d1, false, ta, bus1.rx), WriteBus(bus1, crc, step))
      else (d1, RaiseSlaveError(bus1, cmd))
  }

  // ---------------------------------------------------------------------------
  // Properties of `duty`

  /** A duty cut short before the command and address are in changes nothing but the bus's input. */
  lemma ShortDutyIgnored(d: Device, bus: Bus, now: nat, step: CrcStep)
    requires DeviceOk(d) && now < Millis && |bus.rx| < 3
    ensures Duty(d, bus, now, step).0 == d
    ensures Duty(d, bus, now, step).1 == bus.(rx := [])
  {
  }

  /** Reads and unknown commands change no RAM, no EEPROM and no commit state, only the bus-use time. */
  lemma ReadsChangeNothing(d: Device, bus: Bus, now: nat, step: CrcStep)
    requires DeviceOk(d) && now < Millis && |bus.rx| >= 3
    requires bus.rx[0] != WriteMemoryCmd && bus.rx[0] != WriteStatusCmd
    ensures Duty(d, bus, now, step).0 == d.(lastBusUse := now)
  {
  }

  /** An unknown command raises exactly one slave error carrying the command byte and sends nothing. */
  lemma UnknownCommandRaises(d: Device, bus: Bus, now: nat, step: CrcStep)
    requires DeviceOk(d) && now < Millis && |bus.rx| >= 3
    requires bus.rx[0] !in {ReadMemoryCmd, ReadStatusCmd, WriteMemoryCmd, WriteStatusCmd}
    ensures Duty(d, bus, now, step).1.errors == bus.errors + [bus.rx[0]]
    ensures Duty(d, bus, now, step).1.tx == bus.tx
  {
  }

  /** A duty keeps the mirroring invariant: every RAM change it makes waits in a commit backlog. */
  lemma DutyKeepsConsistent(d: Device, bus: Bus, now: nat, step: CrcStep)
    requires Consistent(d) && now < Millis
    ensures Consistent(Duty(d, bus, now, step).0)
  {
    if |bus.rx| >= 3 {
      LittleEndianRange(bus.rx[1], bus.rx[2]);
      var ta := LittleEndian(bus.rx[1], bus.rx[2]);
      var d1 := d.(lastBusUse := now);
      assert Consistent(d1);
      BurnAllKeepsConsistent(d1, true, ta, bus.rx[3..]);
      BurnAllKeepsConsistent(d1, false, ta, bus.rx[3..]);
    }
  }

  /** A write answers with the inverted CRC of every byte it received: command, address and data. */
  lemma WriteAnswersCrc(d: Device, bus: Bus, now: nat, step: CrcStep)
    requires DeviceOk(d) && now < Millis && |bus.rx| >= 3
    requires bus.rx[0] == WriteMemoryCmd || bus.rx[0] == WriteStatusCmd
    ensures Duty(d, bus, now, step).1 == Send(bus.(rx := []), CrcBytes(Crc16(step, 0, bus.rx)))
  {
    Crc16Concat(step, 0, bus.rx[..3], bus.rx[3..]);
    assert bus.rx[..3] + bus.rx[3..] == bus.rx;
  }

  /**
   * A READ MEMORY after a WRITE MEMORY sees, at every address, the old byte
   * ANDed with everything written to it; an unemulated address still reads
   * 0xFF.
   */
  lemma ReadAfterWrite(d: Device, ta: nat, ds: seq<uint8>, a: nat)
    requires DeviceOk(d) && ta < Word && a < DeviceTotalSize
    ensures var after := BurnAll(d, true, ta, ds);
      MemByteAt(after.mem, a) ==
        if MapAddress(a) == Unmapped then 0xFF else And(MemByteAt(d.mem, a), AndMask(true, ta, ds, MapAddress(a)))
  {
    MapAddressRange(a);
    BurnAllIsAndMask(d, true, ta, ds);
  }
}
