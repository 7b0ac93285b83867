/**
 * The C-array formatters of the header generator: `_format_c_array_page`
 * (one 32-byte page as a `PROGMEM` array, four rows of eight `0xHH`
 * literals) and `_format_c_array_status` (the 256-byte status memory,
 * sixteen rows of sixteen, each under a comment naming its offset), with a
 * reader for the rows that shows they hold the bytes they were made from.
 */
module CArrays {

  import opened Text

  /** `f"0x{b:02X}"`. */
  function CByte(b: bv8): (s: string)
    ensures |s| == 4
  {
    "0x" + Hex2(b, true)
  }

  /** `",".join(f"0x{b:02X}" for b in bs)`. */
  function CByteList(bs: seq<bv8>): string
  {
    if bs == [] then ""
    else if |bs| == 1 then CByte(bs[0])
    else CByte(bs[0]) + "," + CByteList(bs[1..])
  }

  /** One row of an array initialiser: indented, with a trailing comma. */
  function ByteRow(bs: seq<bv8>): string
  {
    "  " + CByteList(bs) + ","
  }

  // ---------------------------------------------------------------------------
  // `_format_c_array_page`

  /** Row `r` of a page array: bytes `8r .. 8r+7` of the chunk. */
  function PageRow(chunk: seq<bv8>, r: nat): string
  {
    ByteRow(Slice(chunk, 8 * r, 8 * r + 8))
  }

  /** The rows from row `r` on; a page has four. */
  function PageRows(chunk: seq<bv8>, r: nat): (ls: seq<string>)
    ensures |ls| == if r < 4 then 4 - r else 0
    decreases 4 - r
  {
    if r >= 4 then [] else [PageRow(chunk, r)] + PageRows(chunk, r + 1)
  }

  /** The comment naming the page's first and last address, `// Page @ 0xAAAA - 0xBBBB`. */
  function PageComment(startAddr: nat): string
  {
    "// Page @ 0x" + Hex(startAddr, 4, true) + " - 0x" + Hex(startAddr + 31, 4, true)
  }

  /** The declaration line `const uint8_t NAME[32] PROGMEM = {`. */
  function PageDeclaration(name: string): string
  {
    "const uint8_t " + name + "[32] PROGMEM = {"
  }

  /** The lines of one page array: the comment, the declaration, four rows of eight bytes, the closing brace and an empty line. */
  function PageArrayLines(name: string, chunk: seq<bv8>, startAddr: nat): (ls: seq<string>)
    ensures |ls| == 8
  {
    [PageComment(startAddr), PageDeclaration(name)] + PageRows(chunk, 0) + ["};", ""]
  }

  /** One pass of the page loop: the row of the eight bytes from offset `8 * row`. */
  method PageRowText(chunk: seq<bv8>, row: nat) returns (line: string)
    ensures line == PageRow(chunk, row)
  {
    var i := 8 * row;
    var part := Slice(chunk, i, i + 8);
    var byteStr := CByteList(part);
    line := "  " + byteStr + ",";
  }

  /** `_format_c_array_page`; the loop runs over the row number rather than the offset. */
  method FormatCArrayPage(name: string, chunk: seq<bv8>, startAddr: nat) returns (text: string)
    ensures text == Join("\n", PageArrayLines(name, chunk, startAddr))
  {
    var linesOut := ["// Page @ 0x" + Hex(startAddr, 4, true) + " - 0x" + Hex(startAddr + 31, 4, true)];
    linesOut := linesOut + ["const uint8_t " + name + "[32] PROGMEM = {"];
    assert linesOut == [PageComment(startAddr), PageDeclaration(name)];
    var row := 0;
    while row < 4
      invariant row <= 4
      invariant linesOut + PageRows(chunk, row) == [PageComment(startAddr), PageDeclaration(name)] + PageRows(chunk, 0)
    {
      var line := PageRowText(chunk, row);
      AppendAssoc(linesOut, [line], PageRows(chunk, row + 1));
      linesOut := linesOut + [line];
      row := row + 1;
    }
    assert PageRows(chunk, row) == [];
    AppendEmpty(linesOut);
    ghost var body := linesOut;
    AppendAssoc(linesOut, ["};"], [""]);
    linesOut := linesOut + ["};"];
    linesOut := linesOut + [""];
    assert linesOut == body + ["};", ""];
    text := Join("\n", linesOut);
  }

  // ---------------------------------------------------------------------------
  // `_format_c_array_status`

  /** The offset comment above status block `b`. */
  function BlockComment(b: nat): string
  {
    "  // 0x" + Hex(16 * b, 4, true)
  }

  /** The bytes of status block `b`, the sixteen from offset 16b. */
  function BlockRow(status: seq<bv8>, b: nat): string
  {
    ByteRow(Slice(status, 16 * b, 16 * b + 16))
  }

  /** The sixteen offset comments and the sixteen byte rows. */
  function BlockComments(): (cs: seq<string>)
    ensures |cs| == 16
  {
    seq(16, b requires 0 <= b < 16 => BlockComment(b))
  }

  function BlockRows(status: seq<bv8>): (rs: seq<string>)
    ensures |rs| == 16
  {
    seq(16, b requires 0 <= b < 16 => BlockRow(status, b))
  }

  function StatusHead(): seq<string>
  {
    ["// Status Memory (256 Bytes)", "const uint8_t status_mem[256] PROGMEM = {"]
  }

  function StatusArrayLines(status: seq<bv8>): (ls: seq<string>)
    ensures |ls| == 36
  {
    StatusHead() + Interleave(BlockComments(), BlockRows(status)) + ["};", ""]
  }

  /** One pass of the status loop: the comment and the row for the block at offset `16 * block`. */
  method StatusBlock(status: seq<bv8>, block: nat) returns (comment: string, row: string)
    ensures comment == BlockComment(block) && row == BlockRow(status, block)
  {
    var base := 16 * block;
    var chunk := Slice(status, base, base + 16);
    var byteStr := CByteList(chunk);
    comment := "  // 0x" + Hex(base, 4, true);
    row := "  " + byteStr + ",";
  }

  /** `_format_c_array_status`; the loop runs over the block number rather than the offset. */
  method FormatCArrayStatus(status: seq<bv8>) returns (text: string)
    ensures text == Join("\n", StatusArrayLines(status))
  {
    var outLines := ["// Status Memory (256 Bytes)", "const uint8_t status_mem[256] PROGMEM = {"];
    var block := 0;
    while block < 16
      invariant block <= 16
      invariant outLines == StatusHead() + Interleave(BlockComments()[..block], BlockRows(status)[..block])
    {
      var comment, row := StatusBlock(status, block);
      InterleaveSnoc(BlockComments(), BlockRows(status), block);
      AppendAssoc(StatusHead(), Interleave(BlockComments()[..block], BlockRows(status)[..block]), [comment, row]);
      outLines := outLines + [comment, row];
      block := block + 1;
    }
    assert BlockComments()[..16] == BlockComments() && BlockRows(status)[..16] == BlockRows(status);
    ghost var body := outLines;
    AppendAssoc(outLines, ["};"], [""]);
    outLines := outLines + ["};"];
    outLines := outLines + [""];
    assert outLines == body + ["};", ""];
    text := Join("\n", outLines);
  }

  // ---------------------------------------------------------------------------
  // Reading the arrays back

  /** The byte whose literal starts at column 2 + 5i of a row, or 0 where there is none. */
  function RowByteAt(row: string, i: int): bv8
  {
    if 0 <= i && 5 + 5 * i < |row| && IsHexDigit(row[4 + 5 * i]) && IsHexDigit(row[5 + 5 * i])
    then HexPairValue(row[4 + 5 * i], row[5 + 5 * i])
    else 0
  }

  /** A reader for the rows: every literal takes five columns after the two-column indent. */
  function RowBytes(row: string): seq<bv8>
  {
    if |row| < 2 then [] else seq((|row| - 2) / 5, i => RowByteAt(row, i))
  }

  /** Each literal takes five columns (four and the comma), the last one four. */
  lemma {:induction false} CByteListShape(bs: seq<bv8>)
    requires bs != []
    ensures |CByteList(bs)| == 5 * |bs| - 1
    ensures forall i :: 0 <= i < |bs| ==>
      CByteList(bs)[5 * i + 2] == Hex2(bs[i], true)[0] &&
      CByteList(bs)[5 * i + 3] == Hex2(bs[i], true)[1]
  {
    var l := CByteList(bs);
    if |bs| > 1 {
      var rest := bs[1..];
      CByteListShape(rest);
      var t := CByteList(rest);
      assert l == CByte(bs[0]) + "," + t;
      forall i | 0 <= i < |bs|
        ensures l[5 * i + 2] == Hex2(bs[i], true)[0] && l[5 * i + 3] == Hex2(bs[i], true)[1]
      {
        if i > 0 {
          assert l[5 * i + 2] == t[5 * (i - 1) + 2] && l[5 * i + 3] == t[5 * (i - 1) + 3];
          assert bs[i] == rest[i - 1];
        }
      }
    }
  }

  /** A row of at least one byte reads back as those bytes. */
  lemma ByteRowRoundTrip(bs: seq<bv8>)
    requires bs != []
    ensures RowBytes(ByteRow(bs)) == bs
  {
    var row := ByteRow(bs);
    CByteListShape(bs);
    assert |row| == 5 * |bs| + 2;
    forall i | 0 <= i < |bs| ensures RowByteAt(row, i) == bs[i] {
      assert row[4 + 5 * i] == CByteList(bs)[5 * i + 2];
      assert row[5 + 5 * i] == CByteList(bs)[5 * i + 3];
      Hex2RoundTrip(bs[i], true);
    }
  }

  /** Row `r - q` of the rows from `q` on is row `r`. */
  lemma {:induction false} PageRowsAt(chunk: seq<bv8>, q: nat, r: nat)
    requires q <= r < 4
    ensures PageRows(chunk, q)[r - q] == PageRow(chunk, r)
    decreases r - q
  {
    if q < r {
      PageRowsAt(chunk, q + 1, r);
      IndexAfter([PageRow(chunk, q)], PageRows(chunk, q + 1), r - q - 1);
    }
  }

  /** Line 2 + r of a page array holds bytes `8r .. 8r+7` of the page, so the four rows hold all 32 in order. */
  lemma PageArrayRoundTrip(name: string, chunk: seq<bv8>, startAddr: nat, r: nat)
    requires |chunk| == 32 && r < 4
    ensures RowBytes(PageArrayLines(name, chunk, startAddr)[2 + r]) == chunk[8 * r .. 8 * r + 8]
  {
    PageRowsAt(chunk, 0, r);
    var head := [PageComment(startAddr), PageDeclaration(name)];
    IndexAfter(head, PageRows(chunk, 0) + ["};", ""], r);
    assert (head + PageRows(chunk, 0) + ["};", ""])[2 + r] == PageRows(chunk, 0)[r];
    ByteRowRoundTrip(chunk[8 * r .. 8 * r + 8]);
  }

  /** The address range in a page array's comment reads back as the page's first and last address. */
  lemma PageCommentAddresses(startAddr: nat)
    requires startAddr + 31 < 0x10000
    ensures var c := PageComment(startAddr);
      |c| == 25 &&
      (forall i :: 12 <= i < 16 || 21 <= i < 25 ==> IsHexDigit(c[i])) &&
      HexValue(c[12..16]) == startAddr && HexValue(c[21..25]) == startAddr + 31
  {
    Hex4RoundTrip(startAddr, true);
    Hex4RoundTrip(startAddr + 31, true);
    var c := PageComment(startAddr);
    assert c[12..16] == Hex(startAddr, 4, true);
    assert c[21..25] == Hex(startAddr + 31, 4, true);
  }

  /** Line 3 + 2k of the status array holds status bytes `16k .. 16k+15`, under the comment that names offset 16k. */
  lemma StatusArrayRoundTrip(status: seq<bv8>, k: nat)
    requires |status| == 256 && k < 16
    ensures StatusArrayLines(status)[2 + 2 * k] == "  // 0x" + Hex(16 * k, 4, true)
    ensures RowBytes(StatusArrayLines(status)[3 + 2 * k]) == status[16 * k .. 16 * k + 16]
  {
    var rows := Interleave(BlockComments(), BlockRows(status));
    InterleaveAt(BlockComments(), BlockRows(status), k);
    IndexAfter(StatusHead(), rows + ["};", ""], 2 * k);
    IndexAfter(StatusHead(), rows + ["};", ""], 2 * k + 1);
    AppendAssoc(StatusHead(), rows, ["};", ""]);
    ByteRowRoundTrip(status[16 * k .. 16 * k + 16]);
  }
}
