# DS2506 dump toolchain and emulator, modelled in Dafny

The repository has two parts, and each is modelled here.

1. **The host tool `read_ds2506.py`.** It reads an 8 KiB DS2506 1-Wire EPROM image and its 256-byte status memory over a serial bridge. It then:
   - checks the ROM code's Dallas/Maxim CRC-8;
   - reports the write-protected pages and the used 32-byte pages;
   - builds a file-name prefix from fixed offsets of the image;
   - renders hex dumps and a C header (`ds2506_image.h`) for the emulator.
2. **The emulator firmware `DS2506_Custom`.** It answers a 1-Wire master as a DS2506.
   - Only eight logical pages are backed by RAM. A fixed table maps them onto 256 bytes.
   - The status memory is a 256-byte RAM.
   - The four commands are READ MEMORY 0xF0, READ STATUS 0xAA, WRITE MEMORY 0x0F and WRITE STATUS 0x55.
   - Writes follow the one-time-programmable rule: bits only go from 1 to 0.
   - Changed bytes are tracked as a dirty range per region. A budgeted, resumable background commit copies them into a 512-byte EEPROM (data at 0..255, status at 256..511) once the bus has been idle for 20 ms.

Host files:
- `checksum.dfy`: the CRC-8.
- `rom_code.dfy`: parsing the `rom` answer and the CRC verdict.
- `receiver.dfy`: the framed binary and status receivers, over a finite stream of events with poll budgets as deadlines.
- `status_analysis.dfy`: protect bits and EPROM bytes.
- `used_pages.dfy`: the used-page scan.
- `page_ranges.dfy`: compressing page lists into runs.
- `prefix.dfy`: the file-name prefix.
- `hexdump.dfy`: the three hex-dump renderers, with a reader proving the lines decode back to the bytes.
- `c_arrays.dfy` and `c_header.dfy`: the C header generator.
- `text.dfy` and `wrappers.dfy`: shared string and option helpers.

Emulator files:
- `emu_uint.dfy`: the firmware's integer widths and bitwise AND.
- `emu_map.dfy`: geometry and the page map.
- `emu_model.dfy`: the device state as a value, the dirty marks, the commit step and the OTP write.
- `emu_mirror.dfy`: the mirroring invariant, progress of the commit, boot and reset.
- `emu_bus.dfy`: the OneWireHub as a value. Its received bytes, the bytes the master still clocks, the sent log and the raised errors are fields. Its CRC16 is an uninterpreted per-byte step.
- `emu_duty.dfy`: what one `duty` call does, as a function, with reference framings for both reads.
- `emu_device.dfy`: the `Emulator` class.
  - Its RAM mirrors and EEPROM are arrays, and its bookkeeping is fields.
  - Every method is proved to move the object to the state the model's functions give. What is proved about those functions therefore holds of the object.
  - The dirty marks on that write path are the corrected ones from "## Findings", not the firmware's (see "## Left out").

The host's CRC loop gives 0x14 for seven 0xFF bytes, not 0 (`Checksum.KnownVectorErased`).

## Model

| member | source | states |
|---|---|---|
| Checksum.ComputeCrc8Maxim | python/read_ds2506.py:66-76 | the nested shift loop computes the byte-wise reflected CRC-8 (polynomial 0x8C, init 0), defined front to back by `Crc8` |
| Checksum.Crc8OfZeros | python/read_ds2506.py:66-76 | the CRC of any run of zero bytes, the empty run included, is 0 |
| Checksum.Crc8Residue | python/read_ds2506.py:66-76 | appending its own CRC to a message makes the CRC of the whole 0 |
| Checksum.Crc8Snoc | python/read_ds2506.py:68-75 | extending a message by one byte is one XOR and eight shifts of the running CRC |
| Checksum.Shift8Injective | python/read_ds2506.py:70-74 | the eight shifts map only 0 to 0 |
| Checksum.CheckByteEquivalence | python/read_ds2506.py:97-100 | byte 7 equals the CRC of bytes 0..6 exactly when the whole 8-byte code has CRC 0 |
| Checksum.KnownVectorCounting | python/read_ds2506.py:66-76 | 01 23 45 67 89 AB CD gives 0xE9 |
| Checksum.KnownVectorErased | python/read_ds2506.py:66-76 | seven 0xFF bytes give 0x14 |
| RomCode.ParseHexToken | python/read_ds2506.py:89-93 | a token yields a byte exactly when it is one or two hex digits, otherwise it is skipped |
| RomCode.TokenBytes | python/read_ds2506.py:89-93 | the parsed tokens give at most one byte each |
| RomCode.ParseTokens | python/read_ds2506.py:89-93 | the token loop appends exactly the bytes of the tokens that parse, in order |
| RomCode.CollectRomBytes | python/read_ds2506.py:82-93 | the line loop collects the bytes of every `ROM Code` line (after the colon, or with the label removed), in order |
| RomCode.GetRomInfo | python/read_ds2506.py:78-118 | a report exists exactly when eight bytes were collected; it carries those bytes, byte 0 as family, byte 7 as chip CRC, the CRC of bytes 0..6, and `crcOk` exactly when the two agree |
| RomCode.OtherLinesIgnored | python/read_ds2506.py:82-83 | a line not starting with `ROM Code` contributes nothing |
| Receiver.Decode | python/read_ds2506.py:143 | the ASCII decoding never lengthens a line |
| Receiver.TakePayload | python/read_ds2506.py:168-171 | the payload loop takes exactly the first `n` bytes of the stream and leaves exactly the rest |
| Receiver.WaitForStart | python/read_ds2506.py:141-162 | the start-marker loop returns the end marker the start line selects; on an ERROR line or at the deadline it returns none |
| Receiver.ReadPayload | python/read_ds2506.py:168-171 | `read(remaining)` until full never overshoots: exactly `n` bytes, the rest of a partly read burst stays unread |
| Receiver.DrainTrailer | python/read_ds2506.py:183-192 | the trailer lines are read while any are waiting after the wait, and only report whether the end marker was among them |
| Receiver.ReceiveFramed | python/read_ds2506.py:128-198 | one transfer: the result is the reference outcome, always exactly the frame's size when present, and the end marker seen is that of the trailer after the payload |
| Receiver.ReadBinaryData | python/read_ds2506.py:128-198 | the binary receiver returns the reference outcome, of exactly 8192 bytes when present |
| Receiver.ReadStatusData | python/read_ds2506.py:208-275 | the status receiver returns the reference outcome, of exactly 256 bytes when present |
| Receiver.ScanSkipsInert | python/read_ds2506.py:141-158 | lines that neither start nor abort, and empty polls, only use up the deadline |
| Receiver.MarkerSelectsEnd | python/read_ds2506.py:146-153 | a start marker in time selects its own end marker: BINARY_START gives BINARY_END, the legacy alias its own |
| Receiver.LegacyBinaryMarker | python/read_ds2506.py:150-153 | `BIN_START` makes the binary receiver expect `BIN_END` |
| Receiver.StatusMarkers | python/read_ds2506.py:226-231 | `STATUS_START` and `STATUS_BEGIN` both make the status receiver expect `STATUS_END` |
| Receiver.ErrorLineAborts | python/read_ds2506.py:154-156 | a line containing ERROR before any marker ends the transfer with nothing, however much time is left |
| Receiver.NoMarkerTimesOut | python/read_ds2506.py:160-162 | no marker and no ERROR line before the deadline: the transfer yields nothing |
| Receiver.ScanIgnoresLater | python/read_ds2506.py:141-153 | once the wait has started or aborted, later input does not change how it ended |
| Receiver.ResultIgnoresTrailer | python/read_ds2506.py:183-198 | the result of a started transfer does not depend on anything after the payload |
| Receiver.CompleteTransfer | python/read_ds2506.py:128-198 | a marker, then the payload in any chunking, then any trailer: the receiver returns that payload |
| PageRanges.Insert | python/read_ds2506.py:306 | inserting into an ascending list keeps it ascending and adds exactly the element to its multiset |
| PageRanges.SortAsc | python/read_ds2506.py:306 | `sorted(pages)` is ascending and a permutation of the input |
| PageRanges.SortedUnique | python/read_ds2506.py:306 | two ascending arrangements of the same multiset are equal, so the sort is Python's `sorted` |
| PageRanges.FormatPageRanges | python/read_ds2506.py:303-325 | the function returns `(keine)` for no pages, else the comma-joined texts of the runs of the sorted pages |
| PageRanges.CollectRuns | python/read_ds2506.py:306-317 | the start/last loop builds the reference runs of the sorted list |
| PageRanges.RenderRuns | python/read_ds2506.py:319-325 | each run becomes `a` or `a-b` |
| PageRanges.RunTexts | python/read_ds2506.py:319-325 | one text per run, in order |
| PageRanges.RunsFromCover | python/read_ds2506.py:307-317 | a number is in some run exactly when it is in the run in progress or in the rest of the list |
| PageRanges.RunsCover | python/read_ds2506.py:307-317 | the runs of a list cover exactly its elements |
| PageRanges.FormattedPagesAreTheInput | python/read_ds2506.py:303-317 | the reported runs cover exactly the pages passed in, whatever their order |
| PageRanges.RunsFromCanonical | python/read_ds2506.py:310-317 | over a strictly ascending rest the runs are well formed, start at the run in progress, and are separated by gaps, so they are maximal |
| PageRanges.RunsCanonical | python/read_ds2506.py:303-317 | for strictly ascending pages the runs are maximal and disjoint |
| PageRanges.ExampleRuns | python/read_ds2506.py:306-317 | 0,1,2,5,7,8 gives the runs 0-2, 5 and 7-8 |
| PageRanges.RangesExample | python/read_ds2506.py:303-325 | 0,1,2,5,7,8 is rendered `0-2,5,7-8`; no pages is `(keine)` |
| StatusAnalysis.PageBits | python/read_ds2506.py:357-364 | one bit flag per page, 256 of them |
| StatusAnalysis.MarkedSpec | python/read_ds2506.py:358-364 | the collected list holds exactly the marked positions, each once, ascending |
| StatusAnalysis.ProtectedPagesSpec | python/read_ds2506.py:357-383 | page p is listed exactly when bit p%8 of byte base + p//8 exists and is 0; the list is strictly ascending and below 256 |
| StatusAnalysis.WriteProtectedPages | python/read_ds2506.py:357-364 | the write-protect loop collects the protected pages of bytes 0x00..0x1F |
| StatusAnalysis.CopyProtectedPages | python/read_ds2506.py:376-383 | the copy-protect loop collects the protected pages from byte 0x100 on, where the data reaches |
| StatusAnalysis.CountNotErased | python/read_ds2506.py:371 | the count is at most the length and is 0 exactly when every byte is 0xFF |
| StatusAnalysis.EpromBytes | python/read_ds2506.py:370 | the EPROM slice has at most 32 bytes |
| StatusAnalysis.AnalyzeStatus | python/read_ds2506.py:348-390 | the report is the newline-joined report lines, with both page lists and the EPROM count |
| StatusAnalysis.NoClearBits | python/read_ds2506.py:357-364 | no clear bit in an area means no protected page |
| StatusAnalysis.ShortStatusHasNoCopyProtection | python/read_ds2506.py:376-383 | status data of at most 256 bytes never reports a copy-protected page |
| StatusAnalysis.ErasedStatus | python/read_ds2506.py:357-383 | erased status memory: no write- or copy-protected page and EPROM count 0 |
| StatusAnalysis.ReportBounds | python/read_ds2506.py:366-385 | both page counts are at most 256 and the EPROM count at most 32 |
| StatusAnalysis.SingleProtectedPage | python/read_ds2506.py:357-364 | clearing bit k of byte j of erased status memory protects exactly page 8j + k |
| StatusAnalysis.OnlyBitCleared | python/read_ds2506.py:363 | in `0xFF ^ (1 << k)` exactly bit k is clear |
| StatusAnalysis.ErasedByteHasNoClearBit | python/read_ds2506.py:363 | 0xFF has no clear bit |
| UsedPages.UsedFromSpec | python/read_ds2506.py:404-410 | page i is listed exactly when some byte of `data[32i:32i+32]` differs from 0xFF; the list is strictly ascending |
| UsedPages.CalcUsedPages | python/read_ds2506.py:394-434 | the scan returns the used pages, ascending, and a map whose keys are exactly those pages, each with its two-line dump |
| UsedPages.ErasedImageUsesNothing | python/read_ds2506.py:404-410 | an all-0xFF image has no used page |
| UsedPages.SingleByteUsesItsPage | python/read_ds2506.py:404-410 | one programmed byte at j in an erased 8 KiB image makes exactly page j/32 used |
| UsedPages.UsedPageDumpShowsPage | python/read_ds2506.py:424-428 | the stored dump of a used page reads back as that page's two halves at their addresses |
| Prefix.SafeTag | python/read_ds2506.py:512-514 | the tag keeps its length; each character is kept if it is an ASCII letter, digit or one of `-_.`, else it becomes `_` |
| Prefix.DecodeDeviceBytes | python/read_ds2506.py:475-483 | the device loop skips 0x00/0xFF, keeps printable bytes and turns the rest into `_` |
| Prefix.DeviceField | python/read_ds2506.py:467-487 | the device text: a leading 'G' dropped, decoded, stripped, `UNKDEV` if empty |
| Prefix.ApprovalField | python/read_ds2506.py:489-503 | the approval text: `UNKZUL` for all 00 or all FF, else the decimal of the big-endian u32 |
| Prefix.BuildPrefix | python/read_ds2506.py:461-521 | the prefix is device, tag and approval joined by `_`; an image of at most 0x7F5 bytes gives `UNKDEV` and `UNKZUL` |
| Prefix.SafeTagClean | python/read_ds2506.py:512-514 | a cleaned tag holds only kept characters, and cleaning is idempotent |
| Prefix.SafeTagKeepsCleanTags | python/read_ds2506.py:512-514 | a tag of kept characters is used unchanged |
| Prefix.DeviceCharsPrintable | python/read_ds2506.py:475-483 | every decoded device character is printable ASCII |
| Prefix.DevicePartShape | python/read_ds2506.py:462-487 | the device part is never empty, printable, and does not start or end with a space |
| Prefix.ApprovalPartValue | python/read_ds2506.py:489-501 | a known approval part is a decimal numeral that reads back as the big-endian value of bytes 0x7F2..0x7F5, below 2^32 |
| Prefix.ErasedApprovalUnknown | python/read_ds2506.py:492-493 | erased approval bytes give `UNKZUL`, not 4294967295 |
| Prefix.DeviceExampleG | python/read_ds2506.py:470-471 | 47 41 42 43 gives `ABC` |
| Prefix.DeviceExampleFill | python/read_ds2506.py:476-483 | 00 42 01 FF gives `B_` |
| Prefix.ApprovalExample | python/read_ds2506.py:495-501 | 00 00 03 E8 gives `1000` |
| Text.StripShape | python/read_ds2506.py:485 | `strip` leaves an infix without leading or trailing whitespace |
| Text.Words | python/read_ds2506.py:86 | `split()` gives non-empty words without whitespace |
| Text.After | python/read_ds2506.py:84-86 | the text after the first colon exists exactly when there is a colon, and is the suffix after it |
| Text.PadRight | python/read_ds2506.py:297 | `{:<48}` pads with spaces to 48 columns and never truncates |
| Text.DecimalRoundTrip | python/read_ds2506.py:501 | `str(n)` reads back as n and has no leading zero |
| Text.Hex2RoundTrip | python/read_ds2506.py:295 | `{:02X}` of a byte is two digits that read back as the byte |
| Text.Hex4RoundTrip | python/read_ds2506.py:297 | `{:04X}` of a 16-bit value is four digits that read back as the value |
| Text.HexJoinShape | python/read_ds2506.py:295 | the space-joined pairs take three columns per byte, the last two, with byte i's digits at columns 3i and 3i+1 |
| Hexdump.AsciiColumn | python/read_ds2506.py:296 | one character per byte: printable 32..126 as itself, everything else as `.` |
| Hexdump.RenderLine | python/read_ds2506.py:330-333 | one loop pass builds the line of the 16-byte chunk at the offset |
| Hexdump.DumpLines | python/read_ds2506.py:327-334 | one line per started group of 16 bytes |
| Hexdump.HexdumpLines | python/read_ds2506.py:327-334 | `_hexdump_lines` builds the reference lines, numbered from the start address |
| Hexdump.PageLines | python/read_ds2506.py:336-344 | a page dump has exactly two lines |
| Hexdump.HexdumpPage32 | python/read_ds2506.py:336-344 | `_hexdump_page_32bytes` builds the two indented lines of the page |
| Hexdump.HexdumpFileLines | python/read_ds2506.py:293-297 | one newline-terminated line per started group of 16 bytes |
| Hexdump.SaveHexdump | python/read_ds2506.py:291-299 | the file text is the lower-case dump lines from address 0 |
| Hexdump.DumpLineLayout | python/read_ds2506.py:333 | a line is 55 + n columns: four address digits, `": "`, the 48-column hex field, a space, the ASCII column |
| Hexdump.DumpLineRoundTrip | python/read_ds2506.py:331-333 | every line of a 16-bit address and at most 16 bytes reads back as that address and those bytes |
| Hexdump.FileLineRoundTrip | python/read_ds2506.py:293-297 | line k of the file reads back as address 16k and the k-th chunk of the image |
| Hexdump.PageLinesRoundTrip | python/read_ds2506.py:338-343 | both page lines read back, after the indent, as the page's halves at their addresses |
| CArrays.CByte | python/read_ds2506.py:612 | `0x{:02X}` is four characters |
| CArrays.PageRows | python/read_ds2506.py:610-613 | a page array has four rows |
| CArrays.PageArrayLines | python/read_ds2506.py:606-616 | a page array is eight lines: comment, declaration, four rows, brace, empty line |
| CArrays.PageRowText | python/read_ds2506.py:611-613 | one pass of the page loop renders the eight bytes from offset 8r |
| CArrays.FormatCArrayPage | python/read_ds2506.py:606-616 | `_format_c_array_page` is the newline-joined page array lines |
| CArrays.BlockComments | python/read_ds2506.py:625 | sixteen offset comments |
| CArrays.BlockRows | python/read_ds2506.py:622-626 | sixteen rows of sixteen bytes |
| CArrays.StatusArrayLines | python/read_ds2506.py:618-629 | the status array is 36 lines |
| CArrays.StatusBlock | python/read_ds2506.py:623-626 | one pass of the status loop renders the comment and the row of block b |
| CArrays.FormatCArrayStatus | python/read_ds2506.py:618-629 | `_format_c_array_status` is the newline-joined status array lines |
| CArrays.CByteListShape | python/read_ds2506.py:612 | each literal takes five columns, with byte i's digits at columns 5i+2 and 5i+3 |
| CArrays.ByteRowRoundTrip | python/read_ds2506.py:612-613 | a rendered row reads back as its bytes |
| CArrays.PageArrayRoundTrip | python/read_ds2506.py:608-614 | line 2+r of a page array holds bytes 8r..8r+7 of the page |
| CArrays.PageCommentAddresses | python/read_ds2506.py:608 | the page comment reads back as the page's first and last address |
| CArrays.StatusArrayRoundTrip | python/read_ds2506.py:622-626 | line 3+2k holds status bytes 16k..16k+15, under the comment naming offset 16k |
| CHeader.RomCommentLines | python/read_ds2506.py:651-664 | the ROM comment appears only for an 8-byte report and recomputes the CRC of bytes 0..6 |
| CHeader.CrcVerdict | python/read_ds2506.py:659-663 | the CRC line says `(OK)` exactly when the eight ROM bytes have CRC 0 as a whole |
| CHeader.ExportPage | python/read_ds2506.py:673-677 | a used page's array is named `page_XXXX` after its start address and holds its 32 bytes |
| CHeader.CollectPageArrays | python/read_ds2506.py:667-677 | the page loop exports an array for every page that is not erased, ascending |
| CHeader.ArraysOf | python/read_ds2506.py:667-677 | one array text per listed page, in order |
| CHeader.PageArraysFollowUsedPages | python/read_ds2506.py:667-677 | the header exports arrays for exactly the pages the used-page scan lists, in the same order |
| CHeader.ErasedImageExportsNoPages | python/read_ds2506.py:673 | an erased image exports no page array |
| CHeader.RenderHeader | python/read_ds2506.py:642-681 | the header is the preamble, the ROM comment, the page arrays and the status array |
| CHeader.GenerateDs2506Header | python/read_ds2506.py:631-693 | a header exists exactly when the image is 8192 bytes and the status 256, and it is the reference text |
| Uint.And | arduino/emulator/DS2506_Custom.cpp:150 | `old & incoming` is at most either operand |
| Uint.AndIsBitwise | arduino/emulator/DS2506_Custom.cpp:150 | each bit of the result is the AND of the operands' bits |
| Uint.AndCommutes | arduino/emulator/DS2506_Custom.cpp:150 | the AND commutes |
| Uint.AndIdempotent | arduino/emulator/DS2506_Custom.cpp:150 | a byte ANDed with itself is unchanged |
| Uint.AndAssociates | arduino/emulator/DS2506_Custom.cpp:150 | the AND associates |
| Uint.AndAllOnes | arduino/emulator/DS2506_Custom.cpp:150 | 0xFF keeps every bit |
| Uint.SubMask | arduino/emulator/DS2506_Custom.cpp:150 | a burnt byte is a sub-mask of the old byte |
| Uint.AndAbsorbs | arduino/emulator/DS2506_Custom.cpp:150 | burning the same byte twice changes nothing |
| Ds2506Map.Geometry | arduino/emulator/DS2506_Custom.h:44-58 | PAGE_MASK is PAGE_SIZE - 1, PHYS_PAGES is 8, and the EEPROM regions are disjoint and fill 512 bytes |
| Ds2506Map.PageMapShape | arduino/emulator/DS2506_Custom.cpp:13-16 | eight entries, entry j has physical page j, logical pages distinct, ascending and below 256 |
| Ds2506Map.FindFromSpec | arduino/emulator/DS2506_Custom.cpp:65-72 | the search gives -1 exactly when no entry matches, otherwise the physical page of the first match |
| Ds2506Map.LogicalToPhysicalPage | arduino/emulator/DS2506_Custom.cpp:65-72 | the loop returns the reference search result |
| Ds2506Map.PhysicalOfTable | arduino/emulator/DS2506_Custom.cpp:13-16 | the listed logical pages map one-to-one onto 0..7, every other page to -1 |
| Ds2506Map.MapAddressToPhysical | arduino/emulator/DS2506_Custom.cpp:73-80 | the method returns the reference mapping, with the page number truncated to eight bits |
| Ds2506Map.MapAddressRange | arduino/emulator/DS2506_Custom.cpp:73-80 | the result is 0xFFFF or below 256, and keeps the offset within the page |
| Ds2506Map.MapAddressAliases | arduino/emulator/DS2506_Custom.cpp:75 | an address and the one 0x2000 above it share their RAM byte |
| Ds2506Map.EndOfDeviceAliasesPageZero | arduino/emulator/DS2506_Custom.cpp:75 | 0x2000 maps like 0, to RAM byte 0 |
| Ds2506Map.MappedInsideDevice | arduino/emulator/DS2506_Custom.cpp:73-80 | inside the device a mapped address is its entry's physical page times 32 plus its offset |
| Ds2506Map.MapAddressInjective | arduino/emulator/DS2506_Custom.cpp:73-80 | inside the device no two addresses share a RAM byte |
| Ds2506Map.MapAddressInverse | arduino/emulator/DS2506_Custom.cpp:73-80 | every RAM byte is reached from a device address below 0x2000 |
| Ds2506Model.MarkSpec | arduino/emulator/DS2506_Custom.h:145-154 | a mark sets the region dirty, lo := min(lo, idx), hi := max(hi, idx), keeps the tracker well formed and leaves the other region alone |
| Ds2506Model.MarkAllCovers | arduino/emulator/DS2506_Custom.h:145-154 | after several marks every marked index and the old range lie in [lo, hi] |
| Ds2506Model.StartCommitKeepsOk | arduino/emulator/DS2506_Custom.cpp:241-247 | starting a commit keeps the tracker well formed |
| Ds2506Model.CommitRun | arduino/emulator/DS2506_Custom.cpp:255-260 | the copy loop stops at min(hi + 1, pos + budget); every processed index is mirrored and nothing else in EEPROM changes |
| Ds2506Model.CommitRegion | arduino/emulator/DS2506_Custom.cpp:253-279 | a step on the active region keeps the state well formed and changes neither RAM nor the bus-use time |
| Ds2506Model.CommitStep | arduino/emulator/DS2506_Custom.cpp:249-280 | `commitStep_` keeps the state well formed and changes neither RAM nor the bus-use time |
| Ds2506Model.IdleService | arduino/emulator/DS2506_Custom.cpp:286-287 | an idle service keeps the state well formed and changes neither RAM nor the bus-use time |
| Ds2506Model.BurnAtRam | arduino/emulator/DS2506_Custom.cpp:149-152 | the target RAM byte becomes `old & incoming` and nothing else in RAM changes |
| Ds2506Model.BurnAll | arduino/emulator/DS2506_Custom.cpp:140-160 | a write keeps the state well formed and leaves EEPROM, the bus-use time and the other region's RAM alone |
| Ds2506Model.BurnKeepsOk | arduino/emulator/DS2506_Custom.cpp:143-159 | one incoming byte keeps the state well formed and touches only its own region's RAM |
| Ds2506Model.BurnByte | arduino/emulator/DS2506_Custom.cpp:149-152 | one incoming byte ANDs itself into the byte its address lands on and nothing else |
| Ds2506Model.BurnAllIsAndMask | arduino/emulator/DS2506_Custom.cpp:140-194 | after a write every RAM byte is its old value ANDed with all bytes written to it |
| Ds2506Model.WriteOnlyClearsBits | arduino/emulator/DS2506_Custom.cpp:149-152 | writes only clear bits: every byte ends as a sub-mask of its old value and never grows |
| Ds2506Model.UnmappedWriteIgnored | arduino/emulator/DS2506_Custom.cpp:143-147 | a byte for an unmapped page (memory) or an address of 256 and above (status) changes nothing |
| Ds2506Model.NoMarkWithoutChange | arduino/emulator/DS2506_Custom.cpp:151-156 | a byte that leaves RAM as it was leaves the whole state as it was: no dirty mark without a change |
| Ds2506Model.BurnAllNoop | arduino/emulator/DS2506_Custom.cpp:140-194 | a write whose bytes are all already burnt in changes nothing |
| Ds2506Model.WriteIdempotent | arduino/emulator/DS2506_Custom.cpp:140-194 | repeating the same write at the same address changes nothing |
| Ds2506Mirror.MarkKeepsBacklog | arduino/emulator/DS2506_Custom.h:145-154 | a mark keeps every byte that was waiting for the commit waiting |
| Ds2506Mirror.MarkAddsBacklog | arduino/emulator/DS2506_Custom.h:145-154 | after a mark the marked byte waits for the commit, even when a running commit had passed it |
| Ds2506Mirror.BurnAtKeepsConsistent | arduino/emulator/DS2506_Custom.cpp:149-156 | burning a RAM byte keeps every RAM/EEPROM difference in the commit backlog |
| Ds2506Mirror.BurnKeepsConsistent | arduino/emulator/DS2506_Custom.cpp:143-157 | one incoming byte keeps the mirroring invariant |
| Ds2506Mirror.BurnAllKeepsConsistent | arduino/emulator/DS2506_Custom.cpp:140-194 | a whole WRITE MEMORY or WRITE STATUS keeps the mirroring invariant |
| Ds2506Mirror.LostWriteStart | arduino/emulator/DS2506_Custom.cpp:249-265 | the scenario's start state satisfies the mirroring invariant |
| Ds2506Mirror.LostWriteAsWritten | arduino/emulator/DS2506_Custom.cpp:249-265 | with the firmware's marks, a byte burnt behind a running commit never reaches EEPROM: the data region ends clean with RAM 0x00 and EEPROM 0xF0, and further service changes nothing |
| Ds2506Mirror.LostWriteCorrected | arduino/emulator/DS2506_Custom.h:145-149 | with the rewinding mark the same byte stays in the backlog and the invariant holds |
| Ds2506Mirror.StartCommitKeepsConsistent | arduino/emulator/DS2506_Custom.cpp:241-247 | starting a commit keeps the mirroring invariant |
| Ds2506Mirror.StartCommitCommitsWhenDirty | arduino/emulator/DS2506_Custom.cpp:241-247 | a commit runs afterwards exactly when one ran or something is dirty; a running one is untouched; data before status; the position starts at that region's lo |
| Ds2506Mirror.CommitRegionCopies | arduino/emulator/DS2506_Custom.cpp:253-279 | at most `budget` bytes are copied, each now equal to RAM, nothing else in EEPROM changes, and the commit ends exactly when the position passes hi; a finished region is reset to clean (not dirty, lo 0xFFFF, hi 0), an unfinished one keeps its range, and the other region is untouched |
| Ds2506Mirror.CommitRegionKeepsConsistent | arduino/emulator/DS2506_Custom.cpp:253-279 | a commit step on the active region keeps the mirroring invariant |
| Ds2506Mirror.CommitStepKeepsConsistent | arduino/emulator/DS2506_Custom.cpp:249-280 | `commitStep_` keeps the mirroring invariant |
| Ds2506Mirror.IdleServiceKeepsConsistent | arduino/emulator/DS2506_Custom.cpp:286-287 | an idle service keeps the mirroring invariant |
| Ds2506Mirror.ServiceKeepsConsistent | arduino/emulator/DS2506_Custom.cpp:282-288 | `serviceBackground`, idle or not, keeps the invariant |
| Ds2506Mirror.WorkBound | arduino/emulator/DS2506_Custom.cpp:249-280 | never more than 514 idle service calls of backlog are outstanding |
| Ds2506Mirror.StartCommitKeepsWork | arduino/emulator/DS2506_Custom.cpp:241-247 | starting a commit does not change the backlog |
| Ds2506Mirror.IdleServiceProgress | arduino/emulator/DS2506_Custom.cpp:282-288 | while anything is dirty each idle service strictly shrinks the backlog |
| Ds2506Mirror.IdleServiceWhenClean | arduino/emulator/DS2506_Custom.cpp:282-288 | with nothing dirty an idle service changes nothing |
| Ds2506Mirror.CleanIsMirrored | arduino/emulator/DS2506_Custom.cpp:249-280 | with nothing dirty EEPROM holds exactly the RAM mirrors |
| Ds2506Mirror.IdleServices | arduino/emulator/DS2506_Custom.cpp:282-288 | repeated idle service keeps the state well formed |
| Ds2506Mirror.EventuallyMirrored | arduino/emulator/DS2506_Custom.cpp:249-288 | with no writes in between, as many idle services as the backlog leave nothing dirty and EEPROM equal to RAM |
| Ds2506Mirror.BusIdleElapsed | arduino/emulator/DS2506_Custom.h:117-123 | the bus is idle exactly when at least 20 ms passed since the last use, across a wrap of the 32-bit counter |
| Ds2506Mirror.FactoryResetState | arduino/emulator/DS2506_Custom.cpp:205-223 | after the reset RAM is the factory image, EEPROM mirrors it, nothing is dirty (lo 0xFFFF, hi 0) and no commit runs |
| Ds2506Mirror.LoadMirrors | arduino/emulator/DS2506_Custom.cpp:226-230 | after a load RAM mirrors EEPROM and the invariant holds |
| Ds2506Mirror.Boot | arduino/emulator/DS2506_Custom.cpp:35-50 | the booted state is well formed |
| Ds2506Mirror.BootFromEeprom | arduino/emulator/DS2506_Custom.cpp:48-50 | a boot from a non-blank EEPROM starts mirrored and clean |
| Ds2506Mirror.BlankBootConsistency | arduino/emulator/DS2506_Custom.cpp:37-47 | a blank boot satisfies the mirroring invariant exactly when EEPROM already holds the images |
| OneWireBus.Send | arduino/emulator/DS2506_Custom.cpp:108 | sending never consumes input or raises errors |
| OneWireBus.Recv | arduino/emulator/DS2506_Custom.cpp:90-91 | receiving never sends or raises errors |
| OneWireBus.RaiseSlaveError | arduino/emulator/DS2506_Custom.cpp:198 | raising an error appends exactly that code and changes nothing else |
| OneWireBus.CrcBytes | arduino/emulator/DS2506_Custom.cpp:19-28 | the raw CRC is two bytes |
| OneWireBus.CrcBytesInvert | arduino/emulator/DS2506_Custom.cpp:19-28 | the two bytes read little-endian and inverted give back the CRC |
| OneWireBus.LittleEndianRange | arduino/emulator/DS2506_Custom.cpp:91 | the two address bytes form a 16-bit value whose low byte comes first |
| OneWireBus.SendTx | arduino/emulator/DS2506_Custom.cpp:108 | a send puts on the wire the part the master still clocks, and succeeds exactly when that is all of it |
| OneWireBus.SendConcat | arduino/emulator/DS2506_Custom.cpp:105-113 | sending piece by piece is sending the whole at once |
| OneWireBus.Crc16Concat | arduino/emulator/DS2506_Custom.cpp:90-108 | the running CRC over two pieces is the CRC over the second from the CRC over the first |
| Ds2506Duty.MemStream | arduino/emulator/DS2506_Custom.cpp:99-112 | the read stream from TA has exactly 8192 - TA bytes, none from 0x2000 on |
| Ds2506Duty.MemStreamAt | arduino/emulator/DS2506_Custom.cpp:105-107 | byte k of the stream is the mapped RAM byte of TA + k, or 0xFF if unmapped |
| Ds2506Duty.ReadMemoryStream | arduino/emulator/DS2506_Custom.cpp:97-115 | READ MEMORY sends the data bytes from TA to 0x1FFF in order, then the inverted CRC of command, address and data, as far as the master clocks |
| Ds2506Duty.ChunkBounds | arduino/emulator/DS2506_Custom.cpp:101-103 | a chunk is 1..32 bytes, ends on a page boundary and never leaves the device |
| Ds2506Duty.BlockEndStep | arduino/emulator/DS2506_Custom.cpp:122-123 | the block of TA ends at the next multiple of 8 |
| Ds2506Duty.StatusFramesLast | arduino/emulator/DS2506_Custom.cpp:123-132 | the last byte of a block is followed by the block's CRC, then the next block from CRC 0 |
| Ds2506Duty.StatusFramesInner | arduino/emulator/DS2506_Custom.cpp:123-129 | any other byte is followed by the rest of its block with the CRC carried on |
| Ds2506Duty.ReadStatusStream | arduino/emulator/DS2506_Custom.cpp:118-134 | READ STATUS sends `readStatusByte(a)` for a = TA..255 with a CRC after each block end, the CRC restarting at 0, as far as the master clocks |
| Ds2506Duty.StatusFramesLength | arduino/emulator/DS2506_Custom.cpp:120-133 | from a block boundary the framing is ten bytes per block of eight |
| Ds2506Duty.Duty | arduino/emulator/DS2506_Custom.cpp:83-201 | a duty keeps the state well formed |
| Ds2506Duty.ShortDutyIgnored | arduino/emulator/DS2506_Custom.cpp:90-91 | a duty cut short before command and address changes no state |
| Ds2506Duty.ReadsChangeNothing | arduino/emulator/DS2506_Custom.cpp:92-134 | reads and unknown commands change only the bus-use time |
| Ds2506Duty.UnknownCommandRaises | arduino/emulator/DS2506_Custom.cpp:197-199 | an unknown command raises exactly one slave error with its code and sends nothing |
| Ds2506Duty.DutyKeepsConsistent | arduino/emulator/DS2506_Custom.cpp:83-201 | every RAM change a duty makes waits in a commit backlog |
| Ds2506Duty.WriteAnswersCrc | arduino/emulator/DS2506_Custom.cpp:140-163 | a write answers with the inverted CRC of every byte received: command, address and data |
| Ds2506Duty.ReadAfterWrite | arduino/emulator/DS2506_Custom.cpp:140-160 | a read after a write sees each mapped byte as its old value ANDed with all bytes written to it, and 0xFF elsewhere |
| Ds2506Device.HeaderCrc | arduino/emulator/DS2506_Custom.cpp:90-91 | the CRC after the header is the step over command and both address bytes |
| Ds2506Device.Emulator.constructor | arduino/emulator/DS2506_Custom.cpp:31-62 | a blank EEPROM boots with the factory images in RAM, any other EEPROM is loaded; the bookkeeping has its initial values |
| Ds2506Device.Emulator.CopyInto | arduino/emulator/DS2506_Custom.cpp:39-47 | the RAM mirror ends as the flash image |
| Ds2506Device.Emulator.MarkDataDirty | arduino/emulator/DS2506_Custom.h:145-149 | the mark widens the data range, rewinding a data commit that has passed the index, and changes nothing else |
| Ds2506Device.Emulator.MarkStatDirty | arduino/emulator/DS2506_Custom.h:150-154 | the same for the status range; the data fields are untouched |
| Ds2506Device.Emulator.MarkBusUse | arduino/emulator/DS2506_Custom.h:110-116 | the last bus use becomes `now` |
| Ds2506Device.Emulator.ReadStatusByte | arduino/emulator/DS2506_Custom.h:96-98 | the status byte for a < 256, 0xFF otherwise |
| Ds2506Device.Emulator.LoadFromEepromToRam | arduino/emulator/DS2506_Custom.cpp:226-230 | both RAM mirrors become their EEPROM regions |
| Ds2506Device.Emulator.EepromLooksBlank | arduino/emulator/DS2506_Custom.cpp:233-238 | true exactly when the first `sample` bytes of both EEPROM regions are 0xFF |
| Ds2506Device.Emulator.ProgramImages | arduino/emulator/DS2506_Custom.cpp:207-215 | the EEPROM becomes the eight page images followed by the status image |
| Ds2506Device.Emulator.EepromFactoryReset | arduino/emulator/DS2506_Custom.cpp:205-223 | the object ends in the reset state, which `FactoryResetState` shows clean and mirrored |
| Ds2506Device.Emulator.StartCommitIfNeeded | arduino/emulator/DS2506_Custom.cpp:241-247 | only the commit fields change, as `StartCommit` gives |
| Ds2506Device.Emulator.CopyRun | arduino/emulator/DS2506_Custom.cpp:255-260 | the copy loop leaves the EEPROM and position the reference run gives |
| Ds2506Device.Emulator.CommitStep | arduino/emulator/DS2506_Custom.cpp:249-280 | the object moves to the model's commit step, so the invariant and progress lemmas apply |
| Ds2506Device.Emulator.ServiceBackground | arduino/emulator/DS2506_Custom.cpp:282-288 | the object moves to the model's service step; nothing changes while the bus is busy |
| Ds2506Device.Emulator.Duty | arduino/emulator/DS2506_Custom.cpp:83-201 | the object and the bus move exactly as the model's `Duty` says |
| Ds2506Device.Emulator.MemoryByte | arduino/emulator/DS2506_Custom.cpp:106-107 | the mapped RAM byte, or 0xFF for an unmapped page |
| Ds2506Device.Emulator.ReadMemory | arduino/emulator/DS2506_Custom.cpp:97-115 | the chunked loops send what `ReadMemoryStream` characterises and change no state |
| Ds2506Device.Emulator.ReadStatus | arduino/emulator/DS2506_Custom.cpp:118-134 | the block loops send what `ReadStatusStream` characterises and change no state |
| Ds2506Device.Emulator.ProgramDataByte | arduino/emulator/DS2506_Custom.cpp:143-157 | one data byte is burnt as the model's `Burn` says |
| Ds2506Device.Emulator.ProgramStatusByte | arduino/emulator/DS2506_Custom.cpp:174-187 | one status byte is burnt as the model's `Burn` says |
| Ds2506Device.Emulator.WriteMemory | arduino/emulator/DS2506_Custom.cpp:138-165 | every received byte is burnt in order from TA, wrapping at 0x10000, and the CRC of all received bytes is sent |
| Ds2506Device.Emulator.WriteStatus | arduino/emulator/DS2506_Custom.cpp:168-194 | the same for the status memory |

## Left out

- The serial port: `connect`, `disconnect` and `send_command`. The receivers and `GetRomInfo` take the bridge's lines or event stream as input.
- Wall clocks: the 5 s and 2 s deadlines are poll budgets, one poll per event.
- Receiver.ReadPayload: needs the stream to hold the whole payload, because the source's payload loop has no timeout and waits forever otherwise.
- File writing (`save_binary`, `save_status`, `save_hexdump`'s file, `save_full_report` with its timestamp) and all `print` output. The renderers return the text a file would hold.
- `interactive_mode` and `main`: command dispatch and user input.
- Receiver.DrainTrailer: a Bytes event left over from the payload read counts as one trailer line. `readline` would stop at its first 0x0A, so an end marker after a newline inside that leftover burst is reported unseen. Only the "end marker recognised" log line depends on this.
- Receiver.WaitForStart: a Bytes event met while waiting for the start marker also counts as one line. `readline` would split it at every 0x0A, so a start marker after a newline inside such a burst is missed. The model's Line events are the lines `readline` returns.
- StatusAnalysis.AnalyzeStatus: requires at least 32 bytes of status data, and so does StatusAnalysis.WriteProtectedPages. Shorter data makes the source raise an IndexError at the unguarded reads of bytes 0x00-0x1F. Every caller passes the 256 bytes of a status read.
- Receiver.Decode: UTF-8 decoding with `errors="ignore"` is restricted to ASCII; bytes of 0x80 and above are dropped.
- Prefix.SafeTag: `str.isalnum` is restricted to ASCII letters and digits.
- The first, dead `safe_tag` assignment in `build_prefix`, which is overwritten at once.
- RomCode.ParseHexToken: accepts one or two hex digits only. `int(p, 16)` also accepts tokens such as `0x28`, `028` or `+28`, which the source reads as bytes up to 255 and the model skips; longer tokens with values above 255 are skipped by the model too.
- The OneWireHub is a value: bytes sent by the master, bytes it will still clock out, the sent log and the raised errors.
  - A failing `recv` drops what is left.
  - The hub's CRC16 is an uninterpreted step function passed as a parameter.
  - ROM search, MATCH/SKIP ROM and the `OneWireItem` base are not part of this model.
- `millis()` is a parameter `now`, constant during one `duty` call, so the repeated `markBusUse` calls inside a command all record the same time.
- Compile-time switches are fixed: write enabled, non-strict address check, EEPROM persistence on, `send` without a CRC reference.
- `ds2506_image.h` is not part of this model. The PROGMEM page arrays are an image parameter of 256 bytes in physical page order, and `status_mem` is a second parameter.
- `memcpy_P`, `pgm_read_byte`, `eeprom_read_byte` and `eeprom_update_byte` are array copies, reads and writes. An update that writes the same value is modelled as a plain write.
- `programDataByte` and `programStatusByte` are declared in the header but defined nowhere. `Emulator.ProgramDataByte` and `Emulator.ProgramStatusByte` model the write code inlined in `duty`.
- The 16-bit fields (`dirtyLo`/`Hi`, `commitPos`) and the 32-bit `lastBusUseMs_` are naturals. The invariant keeps dirty bounds below 256 and `commitPos` at most 256; a clean region keeps the 0xFFFF sentinel in `lo`. Addresses stay below 0x10000 and wrap explicitly (`NextAddress`).
- The write path uses the corrected, rewinding dirty mark of "## Findings" (`Ds2506Model.Mark`), not the firmware's `markDataDirty`/`markStatDirty` (`Ds2506Model.MarkAsWritten`). A byte burnt behind a running commit therefore rewinds `commitPos` to that byte in the model, while the firmware keeps `commitPos_` and loses the byte. The members built on it are:
  - Ds2506Model.BurnAt, Ds2506Model.Burn and Ds2506Model.BurnAll: their tracker uses `Mark`.
  - Ds2506Duty.Duty and Ds2506Duty.DutyKeepsConsistent: WRITE MEMORY and WRITE STATUS go through `BurnAll`.
  - Ds2506Device.Emulator.MarkDataDirty and Ds2506Device.Emulator.MarkStatDirty: they rewind `commitPos`.
  - Ds2506Device.Emulator.ProgramDataByte, Ds2506Device.Emulator.ProgramStatusByte, Ds2506Device.Emulator.WriteMemory, Ds2506Device.Emulator.WriteStatus and Ds2506Device.Emulator.Duty: they call those marks.
- The blank-EEPROM boot does not write EEPROM, as in the source. `BlankBootConsistency` states what follows from that.

## Findings

| source | as written | input that shows it | evidently intended | confidence | as-written member | corrected member |
|---|---|---|---|---|---|---|
| arduino/emulator/DS2506_Custom.h:145-154 | `markDataDirty` (lines 145-149) and `markStatDirty` (lines 150-154) lower `lo` but leave `commitPos_` alone; `commitStep_` (DS2506_Custom.cpp:253-265) clears the region once the position passes `hi`. | Bytes 0..8 dirty. One idle service commits 0..7, leaving `commitPos_` at 8. WRITE MEMORY then burns byte 3 to 0x00. The next service commits 8 and marks the data region clean. EEPROM byte 3 keeps 0xF0 for good. | Every byte written to RAM eventually reaches EEPROM: a mark behind a running commit makes the commit resume from that byte. | not executed | Ds2506Mirror.LostWriteAsWritten | Ds2506Device.Emulator.MarkDataDirty |
