/**
 * Parsing the ROM-code listing the bridge prints for the `rom` command and
 * checking its CRC-8 (host tool, `get_rom_info`).
 */
module RomCode {

  import opened Wrappers
  import opened Text
  import opened Checksum

  /** The identifier block and its check, as the tool reports it. */
  datatype RomInfo = RomInfo(romBytes: seq<bv8>, familyCode: bv8, crcChip: bv8, crcCalc: bv8, crcOk: bool)

  /** `int(p, 16)` for tokens of one or two hex digits; anything else is skipped like a ValueError. */
  function ParseHexToken(p: string): (r: Option<bv8>)
    ensures r.Some? <==> 1 <= |p| <= 2 && forall i :: 0 <= i < |p| ==> IsHexDigit(p[i])
  {
    if |p| == 1 && IsHexDigit(p[0]) then Some(HexDigitValue(p[0]) as bv8)
    else if |p| == 2 && IsHexDigit(p[0]) && IsHexDigit(p[1]) then Some(HexPairValue(p[0], p[1]))
    else None
  }

  /** The hex tokens of a `ROM Code` line: after the first colon if there is one, else with the label removed. */
  function RomTokens(line: string): seq<string>
  {
    match After(line, ':')
    case Some(rest) => Words(Strip(rest))
    case None => Words(Strip(RemoveAll(line, "ROM Code")))
  }

  /** The bytes of the tokens that parse, in order. */
  function TokenBytes(ts: seq<string>): (r: seq<bv8>)
    ensures |r| <= |ts|
  {
    if ts == [] then []
    else
      var n := |ts|;
      TokenBytes(ts[..n - 1]) + (match ParseHexToken(ts[n - 1]) case Some(b) => [b] case None => [])
  }

  /** What one response line contributes to the ROM bytes. */
  function LineBytes(line: string): seq<bv8>
  {
    if StartsWith(line, "ROM Code") then TokenBytes(RomTokens(line)) else []
  }

  /** The ROM bytes collected over all response lines. */
  function RomBytes(lines: seq<string>): seq<bv8>
  {
    if lines == [] then []
    else
      var n := |lines|;
      RomBytes(lines[..n - 1]) + LineBytes(lines[n - 1])
  }

  /** The inner loop: every token tried with `int(p, 16)`, failures skipped. */
  method ParseTokens(hexlist: seq<string>) returns (bytes: seq<bv8>)
    ensures bytes == TokenBytes(hexlist)
  {
    bytes := [];
    for j := 0 to |hexlist|
      invariant bytes == TokenBytes(hexlist[..j])
    {
      var parsed := ParseHexToken(hexlist[j]);
      if parsed.Some? {
        bytes := bytes + [parsed.value];
      }
      assert hexlist[..j + 1][..j] == hexlist[..j];
    }
    assert hexlist[..|hexlist|] == hexlist;
  }

  /** The ROM bytes of all response lines, in order. */
  method CollectRomBytes(lines: seq<string>) returns (romBytes: seq<bv8>)
    ensures romBytes == RomBytes(lines)
  {
    romBytes := [];
    for i := 0 to |lines|
      invariant romBytes == RomBytes(lines[..i])
    {
      var line := lines[i];
      var more: seq<bv8> := [];
      if StartsWith(line, "ROM Code") {
        more := ParseTokens(RomTokens(line));
      }
      romBytes := romBytes + more;
      assert lines[..i + 1][..i] == lines[..i];
    }
    assert lines[..|lines|] == lines;
  }

  /**
   * The parse-and-check part of `get_rom_info`, over the lines the bridge
   * answered: a result exactly when eight bytes were collected.
   */
  method GetRomInfo(lines: seq<string>) returns (info: Option<RomInfo>)
    ensures info.Some? <==> |RomBytes(lines)| == 8
    ensures info.Some? ==> info.value.romBytes == RomBytes(lines)
    ensures info.Some? ==> ValidReport(info.value)
  {
    var romBytes := CollectRomBytes(lines);
    if |romBytes| == 8 {
      var calcCrc := ComputeCrc8Maxim(romBytes[..7]);
      var chipCrc := romBytes[7];
      var crcOk := calcCrc == chipCrc;
      CheckByteEquivalence(romBytes);
      info := Some(RomInfo(romBytes, romBytes[0], chipCrc, calcCrc, crcOk));
    } else {
      info := None;
    }
  }

  /** What a report of eight bytes says: family byte 0, stored CRC byte 7, and the check verdict. */
  predicate ValidReport(r: RomInfo) {
    && |r.romBytes| == 8
    && r.familyCode == r.romBytes[0]
    && r.crcChip == r.romBytes[7]
    && r.crcCalc == Crc8(r.romBytes[..7])
    && (r.crcOk <==> Crc8(r.romBytes[..7]) == r.romBytes[7])
    && (r.crcOk <==> Crc8(r.romBytes) == 0)
  }

  /** Lines that do not start with the label contribute nothing. */
  lemma {:induction false} OtherLinesIgnored(lines: seq<string>, extra: string)
    requires !StartsWith(extra, "ROM Code")
    ensures RomBytes(lines + [extra]) == RomBytes(lines)
  {
    assert (lines + [extra])[..|lines|] == lines;
  }
}
