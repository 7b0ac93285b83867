/**
 * Geometry and address mapping of the DS2506 emulator. The device's 8 KiB
 * address space is backed by only eight 32-byte pages of RAM; a fixed table
 * says which logical DS2506 page each physical RAM page stands for.
 * Addresses are the firmware's `uint16_t` values, kept as naturals below
 * 0x10000.
 */
module Ds2506Map {

  const DeviceTotalSize := 8192
  const PageSize := 32
  /** `PAGE_MASK`: the offset bits of an address, `PageSize - 1`. */
  const PageMask := 0x1F
  const MemSize := 256
  const PhysPages := MemSize / PageSize
  const StatusSizeEmu := 256
  const EepromMemBase := 0
  const EepromStatBase := 256
  const EepromSize := 512
  /** What `mapAddressToPhysical` answers for an address whose page is not emulated. */
  const Unmapped := 0xFFFF
  /** One past the largest `uint16_t`. */
  const Word := 0x1_0000

  datatype PageMapEntry = PageMapEntry(logical: nat, physical: nat)

  /** `pageMap`: logical pages 0x00, 0x10, 0x1E, 0x26, 0x30, 0x38, 0x3F and 0x40, in physical order. */
  const PageMap: seq<PageMapEntry> := [
    PageMapEntry(0, 0), PageMapEntry(16, 1), PageMapEntry(30, 2), PageMapEntry(38, 3),
    PageMapEntry(48, 4), PageMapEntry(56, 5), PageMapEntry(63, 6), PageMapEntry(64, 7)]

  /** The physical page of the first entry from `i` on whose logical page is `logical`, or -1 if there is none. */
  function FindFrom(logical: nat, i: nat): int
    requires i <= |PageMap|
    decreases |PageMap| - i
  {
    if i == |PageMap| then -1
    else if PageMap[i].logical == logical then PageMap[i].physical
    else FindFrom(logical, i + 1)
  }

  /** The search answers -1 exactly when no entry from `i` on matches, and otherwise the physical page of the first match. */
  lemma {:induction false} FindFromSpec(logical: nat, i: nat)
    requires i <= |PageMap|
    ensures FindFrom(logical, i) == -1 <==> forall j :: i <= j < |PageMap| ==> PageMap[j].logical != logical
    ensures FindFrom(logical, i) != -1 ==> exists j :: i <= j < |PageMap| && PageMap[j].logical == logical &&
                                              PageMap[j].physical == FindFrom(logical, i) &&
                                              forall k :: i <= k < j ==> PageMap[k].logical != logical
    decreases |PageMap| - i
  {
    if i < |PageMap| && PageMap[i].logical != logical {
      FindFromSpec(logical, i + 1);
    }
  }

  /** `logicalToPhysicalPage` as a value: the first matching table entry's physical page, or -1. */
  function PhysicalOf(logical: nat): int
  {
    FindFrom(logical, 0)
  }

  /** `logicalToPhysicalPage`: the search loop over the table. */
  method LogicalToPhysicalPage(logicalPage: nat) returns (phys: int)
    requires logicalPage < 256
    ensures phys == PhysicalOf(logicalPage)
  {
    var i := 0;
    while i < PhysPages
      invariant 0 <= i <= PhysPages
      invariant FindFrom(logicalPage, i) == PhysicalOf(logicalPage)
    {
      var e := PageMap[i];
      if e.logical == logicalPage {
        return e.physical;
      }
      i := i + 1;
    }
    return -1;
  }

  /**
   * `mapAddressToPhysical`: page `uint8_t(dsAddr >> 5)` (the page number
   * truncated to eight bits), offset `dsAddr & PAGE_MASK`.
   */
  function MapAddress(dsAddr: nat): nat
    requires dsAddr < Word
  {
    var logical := (dsAddr / 32) % 256;
    var off := dsAddr % 32;
    var phys := PhysicalOf(logical);
    if phys < 0 then Unmapped else phys * 32 + off
  }

  method MapAddressToPhysical(dsAddr: nat) returns (index: nat)
    requires dsAddr < Word
    ensures index == MapAddress(dsAddr)
  {
    var logical := (dsAddr / 32) % 256;
    var off := dsAddr % 32;
    var phys := LogicalToPhysicalPage(logical);
    if phys < 0 {
      return Unmapped;
    }
    index := phys * 32 + off;
  }

  // ---------------------------------------------------------------------------
  // Properties of the geometry, the table and the mapping

  /**
   * The mask selects the offset within a page, eight pages fill the RAM
   * window, and the two EEPROM regions are disjoint and fill the 512 bytes.
   */
  lemma Geometry()
    ensures PageMask == PageSize - 1 && PhysPages == 8
    ensures forall a :: 0 <= a < Word ==> a % PageSize <= PageMask
    ensures EepromMemBase + MemSize == EepromStatBase && EepromStatBase + StatusSizeEmu == EepromSize
  {
  }

  /** Entry `j` of the table has physical page `j`, and the logical pages are distinct and below 256. */
  lemma PageMapShape()
    ensures |PageMap| == PhysPages
    ensures forall j :: 0 <= j < |PageMap| ==> PageMap[j].physical == j && PageMap[j].logical < 256
    ensures forall j, k :: 0 <= j < k < |PageMap| ==> PageMap[j].logical < PageMap[k].logical
  {
  }

  /** Each listed logical page maps to its own physical page, every other page to -1: the map is one-to-one onto 0..7. */
  lemma PhysicalOfTable(logical: nat)
    ensures PhysicalOf(logical) == -1 || 0 <= PhysicalOf(logical) < PhysPages
    ensures PhysicalOf(logical) >= 0 ==> PageMap[PhysicalOf(logical)].logical == logical
    ensures forall j :: 0 <= j < |PageMap| && PageMap[j].logical == logical ==> PhysicalOf(logical) == j
  {
    PageMapShape();
    FindFromSpec(logical, 0);
  }

  /** A mapped address lands inside the 256-byte RAM window, at the same offset within its page. */
  lemma MapAddressRange(dsAddr: nat)
    requires dsAddr < Word
    ensures MapAddress(dsAddr) == Unmapped || MapAddress(dsAddr) < MemSize
    ensures MapAddress(dsAddr) != Unmapped ==> MapAddress(dsAddr) % 32 == dsAddr % 32
  {
    PhysicalOfTable((dsAddr / 32) % 256);
  }

  /** `n` split into a quotient and a remainder below the page size is `n / 32` and `n % 32`. */
  lemma PageSplit(n: nat, q: nat, r: nat)
    requires n == q * 32 + r && r < 32
    ensures n / 32 == q && n % 32 == r
  {
  }

  /** The eight-bit truncation: an address and the one 0x2000 above it share their RAM byte. */
  lemma MapAddressAliases(dsAddr: nat)
    requires dsAddr + DeviceTotalSize < Word
    ensures MapAddress(dsAddr + DeviceTotalSize) == MapAddress(dsAddr)
  {
    var q, r := dsAddr / 32, dsAddr % 32;
    PageSplit(dsAddr + DeviceTotalSize, q + 256, r);
    assert (q + 256) % 256 == q % 256;
  }

  /** 0x2000, one past the device, is read and written as logical page 0. */
  lemma EndOfDeviceAliasesPageZero()
    ensures MapAddress(DeviceTotalSize) == MapAddress(0) == 0
  {
    MapAddressAliases(0);
  }

  /** Inside the device, a mapped address is its table entry's physical page followed by its offset. */
  lemma MappedInsideDevice(a: nat)
    requires a < DeviceTotalSize && MapAddress(a) != Unmapped
    ensures 0 <= PhysicalOf(a / 32) < PhysPages && PageMap[PhysicalOf(a / 32)].logical == a / 32
    ensures MapAddress(a) == PhysicalOf(a / 32) * 32 + a % 32
  {
    var q := a / 32;
    assert q < 256;
    TruncateSmall(q);
    PhysicalOfTable(q);
  }

  /** A page number below 256 survives the eight-bit truncation. */
  lemma TruncateSmall(q: nat)
    requires q < 256
    ensures q % 256 == q
  {
  }

  /** Inside the device no two addresses share a RAM byte. */
  lemma MapAddressInjective(a: nat, b: nat)
    requires a < DeviceTotalSize && b < DeviceTotalSize
    requires MapAddress(a) == MapAddress(b) != Unmapped
    ensures a == b
  {
    MappedInsideDevice(a);
    MappedInsideDevice(b);
    var pa, pb := PhysicalOf(a / 32), PhysicalOf(b / 32);
    var m := MapAddress(a);
    PageSplit(m, pa, a % 32);
    PageSplit(m, pb, b % 32);
    assert a / 32 == PageMap[pa].logical == b / 32;
    PageJoin(a, b);
  }

  /** Two addresses with the same page and the same offset are the same address. */
  lemma PageJoin(a: nat, b: nat)
    requires a / 32 == b / 32 && a % 32 == b % 32
    ensures a == b
  {
  }

  /** The device address that RAM byte `index` stands for. */
  function LogicalAddress(index: nat): nat
    requires index < MemSize
  {
    PageMap[index / 32].logical * 32 + index % 32
  }

  /** Every RAM byte is reached from exactly the device address `LogicalAddress` names. */
  lemma MapAddressInverse(index: nat)
    requires index < MemSize
    ensures LogicalAddress(index) < DeviceTotalSize
    ensures MapAddress(LogicalAddress(index)) == index
  {
    var j, off := index / 32, index % 32;
    PageMapShape();
    var logical := PageMap[j].logical;
    var a := LogicalAddress(index);
    assert a == logical * 32 + off;
    PageSplit(a, logical, off);
    assert (a / 32) % 256 == logical;
    PhysicalOfTable(logical);
    assert PhysicalOf(logical) == j;
    assert MapAddress(a) == j * 32 + off;
  }
}
