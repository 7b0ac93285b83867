/**
 * `generate_ds2506_header`: the C header the emulator is built from. It is
 * a fixed preamble, an optional ROM-code comment, one array per used page
 * of the 8 KiB data image (`page_XXXX`, named after its start address) and
 * the `status_mem` array.
 */
module CHeader {

  import opened Wrappers
  import opened Text
  import opened Checksum
  import opened RomCode
  import opened UsedPages
  import opened CArrays

  // ---------------------------------------------------------------------------
  // `generate_ds2506_header`

  /** The fixed opening lines; two of them carry their own extra newline. */
  function Preamble(): seq<string>
  {
    [ "// AUTOMATISCH GENERIERT von read_ds2506.py",
      "// Datei f\U{00FC}r den Emulator (DS2506_Custom).",
      "// WARNUNG: Manuelle \U{00C4}nderungen werden beim n\U{00E4}chsten Export \U{00FC}berschrieben.\n",
      "#pragma once",
      "#include <Arduino.h>",
      "#include <avr/pgmspace.h>\n" ]
  }

  /** The CRC line: the recomputed CRC of the first seven bytes and the verdict against byte 7. */
  function CrcCalcLine(rb: seq<bv8>): string
    requires |rb| == 8
  {
    var crc := Crc8(rb[..7]);
    "// CRC Calc:    0x" + Hex2(crc, true) + " " + (if crc == rb[7] then "(OK)" else "(MISMATCH)")
  }

  /** The ROM comment, present only for a ROM report of eight bytes. */
  function RomComment(rom: Option<RomInfo>): seq<string>
  {
    if rom.Some? && |rom.value.romBytes| == 8 then
      var rb := rom.value.romBytes;
      [ "// ROM Code: " + HexJoin(rb, " ", true),
        "// Family Code: 0x" + Hex2(rb[0], true),
        "// CRC Chip:    0x" + Hex2(rb[7], true),
        CrcCalcLine(rb),
        "" ]
    else []
  }

  /** `f"page_{start:04X}"`. */
  function PageArrayName(p: nat): string
  {
    "page_" + Hex(p * PageSize, 4, true)
  }

  /** The array text for page `p` of the image. */
  function PageArrayText(binary: seq<bv8>, p: nat): string
  {
    Join("\n", PageArrayLines(PageArrayName(p), Slice(binary, p * PageSize, p * PageSize + PageSize), p * PageSize))
  }

  /** The arrays of the used pages from `from` on, ascending. */
  function PageArrays(binary: seq<bv8>, from: nat): seq<string>
    decreases PageTotal(binary) - from
  {
    if from >= PageTotal(binary) then []
    else
      var rest := PageArrays(binary, from + 1);
      if PageUsed(binary, from) then [PageArrayText(binary, from)] + rest else rest
  }

  /** The whole header file. */
  function HeaderText(rom: Option<RomInfo>, binary: seq<bv8>, status: seq<bv8>): string
  {
    Join("\n", Preamble() + RomComment(rom) + PageArrays(binary, 0) + [Join("\n", StatusArrayLines(status))])
  }

  /** The ROM-comment block of `generate_ds2506_header`, recomputing the CRC of bytes 0-6. */
  method RomCommentLines(rom: Option<RomInfo>) returns (lines: seq<string>)
    ensures lines == RomComment(rom)
  {
    lines := [];
    if rom.Some? && |rom.value.romBytes| == 8 {
      var rb := rom.value.romBytes;
      var calcCrc := ComputeCrc8Maxim(rb[..7]);
      var crcLine := "// CRC Calc:    0x" + Hex2(calcCrc, true) + " " + (if calcCrc == rb[7] then "(OK)" else "(MISMATCH)");
      lines := ["// ROM Code: " + HexJoin(rb, " ", true), "// Family Code: 0x" + Hex2(rb[0], true), "// CRC Chip:    0x" + Hex2(rb[7], true), crcLine, ""];
    }
  }

  /** One used page's array, named after its start address. */
  method ExportPage(binary: seq<bv8>, pageIndex: nat) returns (arrTxt: string)
    requires (pageIndex + 1) * PageSize <= |binary|
    ensures arrTxt == PageArrayText(binary, pageIndex)
  {
    var start := pageIndex * PageSize;
    var chunk := binary[start .. start + PageSize];
    assert Slice(binary, start, start + PageSize) == chunk;
    arrTxt := FormatCArrayPage("page_" + Hex(start, 4, true), chunk, start);
  }

  /** The page loop of `generate_ds2506_header`: an array for every page that is not erased. */
  method CollectPageArrays(binary: seq<bv8>) returns (pageTexts: seq<string>)
    ensures pageTexts == PageArrays(binary, 0)
  {
    var totalPages := |binary| / PageSize;
    pageTexts := [];
    var pageIndex := 0;
    while pageIndex < totalPages
      invariant 0 <= pageIndex <= totalPages
      invariant pageTexts + PageArrays(binary, pageIndex) == PageArrays(binary, 0)
    {
      var start := pageIndex * PageSize;
      var chunk := binary[start .. start + PageSize];
      assert chunk == PageBytes(binary, pageIndex);
      if !Erased(chunk) {
        var arrTxt := ExportPage(binary, pageIndex);
        AppendAssoc(pageTexts, [arrTxt], PageArrays(binary, pageIndex + 1));
        pageTexts := pageTexts + [arrTxt];
      }
      pageIndex := pageIndex + 1;
    }
    AppendEmpty(pageTexts);
  }

  /** The header text `generate_ds2506_header` assembles once both sizes are right. */
  method RenderHeader(rom: Option<RomInfo>, binary: seq<bv8>, status: seq<bv8>) returns (text: string)
    ensures text == HeaderText(rom, binary, status)
  {
    var romLines := RomCommentLines(rom);
    var headerLines := Preamble() + romLines;
    var pageTexts := CollectPageArrays(binary);
    headerLines := headerLines + pageTexts;
    var statusTxt := FormatCArrayStatus(status);
    headerLines := headerLines + [statusTxt];
    text := Join("\n", headerLines);
  }

  /**
   * `generate_ds2506_header` with the file replaced by the text it would
   * hold: nothing unless the image has 8192 bytes and the status 256.
   */
  method GenerateDs2506Header(rom: Option<RomInfo>, binary: seq<bv8>, status: seq<bv8>) returns (text: Option<string>)
    ensures text.Some? <==> |binary| == 8192 && |status| == 256
    ensures text.Some? ==> text.value == HeaderText(rom, binary, status)
  {
    if |binary| != 8192 || |status| != 256 {
      text := None;
    } else {
      var header := RenderHeader(rom, binary, status);
      text := Some(header);
    }
  }

  /** The array texts of the pages `ps`, in order. */
  function ArraysOf(binary: seq<bv8>, ps: seq<nat>): (ts: seq<string>)
    ensures |ts| == |ps|
    ensures forall k :: 0 <= k < |ps| ==> ts[k] == PageArrayText(binary, ps[k])
  {
    if ps == [] then [] else [PageArrayText(binary, ps[0])] + ArraysOf(binary, ps[1..])
  }

  /** The header exports an array for exactly the pages the used-page report lists, in the same order. */
  lemma {:induction false} PageArraysFollowUsedPages(binary: seq<bv8>, from: nat)
    ensures PageArrays(binary, from) == ArraysOf(binary, UsedFrom(binary, from))
    decreases PageTotal(binary) - from
  {
    if from < PageTotal(binary) {
      PageArraysFollowUsedPages(binary, from + 1);
      var used := UsedFrom(binary, from + 1);
      if PageUsed(binary, from) {
        assert ([from] + used)[1..] == used;
      }
    }
  }

  /** An erased image exports no page array. */
  lemma ErasedImageExportsNoPages(binary: seq<bv8>)
    requires Erased(binary)
    ensures PageArrays(binary, 0) == []
  {
    PageArraysFollowUsedPages(binary, 0);
    ErasedImageUsesNothing(binary);
  }

  /** The CRC line says `(OK)` exactly when the eight ROM bytes have CRC 0 as a whole. */
  lemma CrcVerdict(rb: seq<bv8>)
    requires |rb| == 8
    ensures CrcCalcLine(rb)[|CrcCalcLine(rb)| - 4..] == "(OK)" <==> Crc8(rb) == 0
  {
    CheckByteEquivalence(rb);
    var line := CrcCalcLine(rb);
    if Crc8(rb[..7]) != rb[7] {
      assert line[|line| - 4..] == "TCH)";
    }
  }
}
