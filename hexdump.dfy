/**
 * The three hexdump renderers of the host tool: `save_hexdump` (lower-case,
 * whole image, newline-terminated lines), `_hexdump_lines` (upper-case, from
 * a start address) and `_hexdump_page_32bytes` (the two indented lines of
 * one 32-byte page). A line is the address, `": "`, the bytes as hex pairs
 * padded to 48 columns, one space and the printable-ASCII column.
 */
module Hexdump {

  import opened Wrappers
  import opened Text

  /** Printable ASCII (32..126) as itself, everything else as `.`. */
  function AsciiChar(b: bv8): char
  {
    if 32 <= b < 127 then (b as int) as char else '.'
  }

  function AsciiColumn(chunk: seq<bv8>): (s: string)
    ensures |s| == |chunk|
    ensures forall i :: 0 <= i < |chunk| ==> s[i] == AsciiChar(chunk[i])
  {
    if chunk == [] then "" else [AsciiChar(chunk[0])] + AsciiColumn(chunk[1..])
  }

  /** `f"{addr:04X}: {hex_str:<48} {ascii_str}"` (or `04x` and lower-case pairs). */
  function DumpLine(addr: nat, chunk: seq<bv8>, upper: bool): string
  {
    Hex(addr, 4, upper) + ": " + PadRight(HexJoin(chunk, " ", upper), 48) + " " + AsciiColumn(chunk)
  }

  /** The 16 bytes (fewer at the end, none past it) that start at `offs`. */
  function ChunkAt(data: seq<bv8>, offs: nat): seq<bv8>
  {
    Slice(data, offs, offs + 16)
  }

  /** One line per started group of 16 bytes. */
  function LineCount(n: nat): nat
  {
    (n + 15) / 16
  }

  // ---------------------------------------------------------------------------
  // The renderers

  /** The line the dump loops build for the chunk at `offs`, numbered `addr`. */
  method RenderLine(data: seq<bv8>, offs: nat, addr: nat, upper: bool) returns (line: string)
    ensures line == DumpLine(addr, ChunkAt(data, offs), upper)
  {
    var chunk := Slice(data, offs, offs + 16);
    var hexStr := HexJoin(chunk, " ", upper);
    var asciiStr := AsciiColumn(chunk);
    line := Hex(addr, 4, upper) + ": " + PadRight(hexStr, 48) + " " + asciiStr;
  }

  /** The upper-case lines of `data`, numbered from `startAddr`. */
  function DumpLines(data: seq<bv8>, startAddr: nat): (ls: seq<string>)
    ensures |ls| == LineCount(|data|)
  {
    seq(LineCount(|data|), k requires 0 <= k < LineCount(|data|) => DumpLine(startAddr + 16 * k, ChunkAt(data, 16 * k), true))
  }

  /** `_hexdump_lines`: upper-case lines for `data`, numbered from `startAddr`. */
  method HexdumpLines(data: seq<bv8>, startAddr: nat) returns (lines: seq<string>)
    ensures lines == DumpLines(data, startAddr)
  {
    ghost var all := DumpLines(data, startAddr);
    lines := [];
    var offs := 0;
    ghost var n := 0;
    while offs < |data|
      invariant offs == 16 * n && n <= |all|
      invariant offs <= |data| + 15
      invariant lines == all[..n]
    {
      var line := RenderLine(data, offs, startAddr + offs, true);
      assert line == all[n];
      TakeSnoc(all, n);
      lines := lines + [line];
      offs := offs + 16;
      n := n + 1;
    }
    TakeAll(all);
  }

  /** One line of a page dump, indented by two spaces. */
  function PageLine(data: seq<bv8>, addr: nat): string
  {
    "  " + DumpLine(addr, ChunkAt(data, addr), true)
  }

  /** The two lines of one 32-byte page. */
  function PageLines(data: seq<bv8>, startAddr: nat): (ls: seq<string>)
    ensures |ls| == 2
  {
    seq(2, k requires 0 <= k < 2 => PageLine(data, startAddr + 16 * k))
  }

  /** `_hexdump_page_32bytes`: two indented upper-case lines for the page at `startAddr`, clamped to the data. */
  method HexdumpPage32(data: seq<bv8>, startAddr: nat) returns (lines: seq<string>)
    ensures lines == PageLines(data, startAddr)
  {
    ghost var expected := PageLines(data, startAddr);
    lines := [];
    var half := 0;
    while half < 2
      invariant half <= 2
      invariant lines == expected[..half]
    {
      var addr := startAddr + 16 * half;
      var body := RenderLine(data, addr, addr, true);
      TakeSnoc(expected, half);
      lines := lines + ["  " + body];
      half := half + 1;
    }
    TakeAll(expected);
  }

  /** The lines `save_hexdump` writes, each with its newline. */
  function HexdumpFileLines(data: seq<bv8>): (ls: seq<string>)
    ensures |ls| == LineCount(|data|)
  {
    seq(LineCount(|data|), k requires 0 <= k < LineCount(|data|) => DumpLine(16 * k, ChunkAt(data, 16 * k), false) + "\n")
  }

  /** `save_hexdump` with the file replaced by the text it would hold: lower-case lines from address 0. */
  method SaveHexdump(data: seq<bv8>) returns (text: string)
    ensures text == Concat(HexdumpFileLines(data))
  {
    ghost var all := HexdumpFileLines(data);
    text := "";
    var offs := 0;
    ghost var n := 0;
    while offs < |data|
      invariant offs == 16 * n && n <= |all|
      invariant offs <= |data| + 15
      invariant text == Concat(all[..n])
    {
      var body := RenderLine(data, offs, offs, false);
      var line := body + "\n";
      assert line == all[n];
      ConcatSnoc(all[..n], line);
      TakeSnoc(all, n);
      text := text + line;
      offs := offs + 16;
      n := n + 1;
    }
    TakeAll(all);
  }

  // ---------------------------------------------------------------------------
  // Reading a line back

  /** The byte whose pair starts at column 6 + 3i, or 0 where there is none. */
  function PairAt(line: string, i: int): bv8
  {
    if 0 <= i && 7 + 3 * i < |line| && IsHexDigit(line[6 + 3 * i]) && IsHexDigit(line[7 + 3 * i])
    then HexPairValue(line[6 + 3 * i], line[7 + 3 * i])
    else 0
  }

  predicate AddressField(line: string)
  {
    |line| >= 4 && forall i :: 0 <= i < 4 ==> IsHexDigit(line[i])
  }

  /**
   * A reader for the dump lines: the address, and as many bytes as the
   * ASCII column is long (the hex field is always 48 columns wide).
   */
  function ParseDumpLine(line: string): Option<(nat, seq<bv8>)>
  {
    if |line| < 55 || !AddressField(line) || line[4..6] != ": " || |line| - 55 > 16 then None
    else Some((HexValue(line[..4]), seq(|line| - 55, i => PairAt(line, i))))
  }

  /** Where the fields of a dump line sit: the address, the separator, then the padded hex field from column 6. */
  lemma DumpLineLayout(addr: nat, chunk: seq<bv8>, upper: bool)
    requires addr < 0x10000
    requires |chunk| <= 16
    ensures var line := DumpLine(addr, chunk, upper);
      var field := PadRight(HexJoin(chunk, " ", upper), 48);
      |line| == 55 + |chunk| && |field| == 48 && line[..4] == Hex(addr, 4, upper) && line[4..6] == ": " &&
      forall j :: 0 <= j < 48 ==> line[6 + j] == field[j]
  {
    Hex4RoundTrip(addr, upper);
    var h := HexJoin(chunk, " ", upper);
    if chunk != [] {
      HexJoinShape(chunk, upper);
    }
    LineFields(Hex(addr, 4, upper), PadRight(h, 48), AsciiColumn(chunk));
  }

  /** The columns of `a + ": " + field + " " + tail` for a four-column `a`. */
  lemma LineFields(a: string, field: string, tail: string)
    requires |a| == 4
    ensures var line := a + ": " + field + " " + tail;
      |line| == 7 + |field| + |tail| && line[..4] == a && line[4..6] == ": " &&
      forall j :: 0 <= j < |field| ==> line[6 + j] == field[j]
  {
    var line := a + ": " + field + " " + tail;
    var head := a + ": ";
    assert line == (head + field) + (" " + tail);
    forall j | 0 <= j < |field| ensures line[6 + j] == field[j] {
      IndexAfter(head, field, j);
    }
  }

  /** Every dumped line of a 16-bit address and at most 16 bytes reads back as that address and those bytes, in either case. */
  lemma DumpLineRoundTrip(addr: nat, chunk: seq<bv8>, upper: bool)
    requires addr < 0x10000
    requires |chunk| <= 16
    ensures ParseDumpLine(DumpLine(addr, chunk, upper)) == Some((addr, chunk))
  {
    var line := DumpLine(addr, chunk, upper);
    DumpLineLayout(addr, chunk, upper);
    Hex4RoundTrip(addr, upper);
    assert AddressField(line);
    var h := HexJoin(chunk, " ", upper);
    if chunk != [] {
      HexJoinShape(chunk, upper);
    }
    var field := PadRight(h, 48);
    forall i | 0 <= i < |chunk| ensures PairAt(line, i) == chunk[i] {
      assert line[6 + 3 * i] == field[3 * i] == h[3 * i];
      assert line[7 + 3 * i] == field[3 * i + 1] == h[3 * i + 1];
      Hex2RoundTrip(chunk[i], upper);
    }
    assert seq(|line| - 55, i => PairAt(line, i)) == chunk;
  }

  /** Lines of the whole-image dump carry consecutive 16-byte addresses and read back as the image. */
  lemma FileLineRoundTrip(data: seq<bv8>, k: nat)
    requires |data| <= 0x10000
    requires k < LineCount(|data|)
    ensures var line := HexdumpFileLines(data)[k];
      ParseDumpLine(line[..|line| - 1]) == Some((16 * k, data[16 * k .. if 16 * k + 16 < |data| then 16 * k + 16 else |data|]))
  {
    var line := HexdumpFileLines(data)[k];
    var body := DumpLine(16 * k, ChunkAt(data, 16 * k), false);
    assert line[..|line| - 1] == body;
    DumpLineRoundTrip(16 * k, ChunkAt(data, 16 * k), false);
  }

  /** Both lines of a page dump read back, after the indent, as the page's two halves. */
  lemma PageLinesRoundTrip(data: seq<bv8>, startAddr: nat)
    requires startAddr + 16 < 0x10000
    ensures ParseDumpLine(PageLines(data, startAddr)[0][2..]) == Some((startAddr, ChunkAt(data, startAddr)))
    ensures ParseDumpLine(PageLines(data, startAddr)[1][2..]) == Some((startAddr + 16, ChunkAt(data, startAddr + 16)))
  {
    var ls := PageLines(data, startAddr);
    assert startAddr + 16 * 0 == startAddr && startAddr + 16 * 1 == startAddr + 16;
    assert ls[0] == PageLine(data, startAddr) && ls[1] == PageLine(data, startAddr + 16);
    assert ls[0][2..] == DumpLine(startAddr, ChunkAt(data, startAddr), true);
    assert ls[1][2..] == DumpLine(startAddr + 16, ChunkAt(data, startAddr + 16), true);
    DumpLineRoundTrip(startAddr, ChunkAt(data, startAddr), true);
    DumpLineRoundTrip(startAddr + 16, ChunkAt(data, startAddr + 16), true);
  }
}
