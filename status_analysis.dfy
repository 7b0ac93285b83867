/**
 * `analyze_status`: reads the 256-byte status memory as write-protect bits
 * (bytes 0x00-0x1F, one bit per page, a clear bit meaning protected),
 * redirection/EPROM bytes (0x20-0x3F, anything but 0xFF is set) and the
 * copy-protect bits the tool assumes from 0x100 on, and renders the German
 * report text.
 */
module StatusAnalysis {

  import opened Text
  import opened PageRanges

  const PageCount := 256

  /** `1 << k` for a bit number below 8. */
  function Bit(k: nat): bv8
    requires k < 8
  {
    [0x01, 0x02, 0x04, 0x08, 0x10, 0x20, 0x40, 0x80][k]
  }

  /** `not (b & (1 << k))`. */
  predicate BitClear(b: bv8, k: nat)
    requires k < 8
  {
    b & Bit(k) == 0
  }

  /** Page `p`'s bit lives in byte `base + p // 8`, bit `p % 8`; it counts only if that byte exists. */
  predicate PageBitClear(data: seq<bv8>, base: nat, p: nat)
  {
    base + p / 8 < |data| && BitClear(data[base + p / 8], p % 8)
  }

  /** The bit table of one protection area: entry `p` says whether page `p`'s bit is clear. */
  function PageBits(data: seq<bv8>, base: nat): (bits: seq<bool>)
    ensures |bits| == PageCount
  {
    seq(PageCount, p requires 0 <= p < PageCount => PageBitClear(data, base, p))
  }

  /** The positions below `n` marked in `bits`, in ascending order. */
  function Marked(bits: seq<bool>, n: nat): seq<nat>
    requires n <= |bits|
  {
    if n == 0 then []
    else
      var prev := Marked(bits, n - 1);
      if bits[n - 1] then prev + [n - 1] else prev
  }

  /** The pages of one protection area whose bit is clear, ascending. */
  function ProtectedPages(data: seq<bv8>, base: nat): seq<nat>
  {
    Marked(PageBits(data, base), PageCount)
  }

  /** The list holds exactly the marked positions below `n`, each once, ascending. */
  lemma MarkedSpec(bits: seq<bool>, n: nat)
    requires n <= |bits|
    ensures var ps := Marked(bits, n);
      (forall i :: 0 <= i < |ps| ==> ps[i] < n) &&
      StrictlyAscending(ps) &&
      (forall p: nat :: p in ps <==> p < n && bits[p])
  {
    MarkedMembers(bits, n);
    MarkedAscending(bits, n);
  }

  lemma {:induction false} MarkedMembers(bits: seq<bool>, n: nat)
    requires n <= |bits|
    ensures var ps := Marked(bits, n);
      (forall i :: 0 <= i < |ps| ==> ps[i] < n) &&
      (forall p: nat :: p in ps <==> p < n && bits[p])
  {
    if n > 0 {
      MarkedMembers(bits, n - 1);
      var prev := Marked(bits, n - 1);
      if bits[n - 1] {
        var ps := prev + [n - 1];
        assert forall i :: 0 <= i < |prev| ==> ps[i] == prev[i];
        assert forall p: nat :: p in ps <==> p in prev || p == n - 1;
      }
    }
  }

  lemma {:induction false} MarkedAscending(bits: seq<bool>, n: nat)
    requires n <= |bits|
    ensures StrictlyAscending(Marked(bits, n))
  {
    if n > 0 {
      MarkedAscending(bits, n - 1);
      MarkedMembers(bits, n - 1);
      var prev := Marked(bits, n - 1);
      if bits[n - 1] {
        var ps := prev + [n - 1];
        forall i, j | 0 <= i < j < |ps| ensures ps[i] < ps[j] {
          assert ps[i] == prev[i];
          if j < |prev| {
            assert ps[j] == prev[j];
          }
        }
      }
    }
  }

  /** The protected pages are exactly the pages below 256 whose bit is clear, each once, ascending. */
  lemma ProtectedPagesSpec(data: seq<bv8>, base: nat)
    ensures var ps := ProtectedPages(data, base);
      (forall i :: 0 <= i < |ps| ==> ps[i] < PageCount) &&
      StrictlyAscending(ps) &&
      (forall p: nat :: p in ps <==> p < PageCount && PageBitClear(data, base, p))
  {
    MarkedSpec(PageBits(data, base), PageCount);
  }

  lemma PageByte(page: nat)
    requires page < PageCount
    ensures page / 8 < 0x20 && page % 8 < 8
  {
  }

  /** The write-protect loop; the source checks `byte_i < 0x20`, which every page below 256 meets. */
  method WriteProtectedPages(data: seq<bv8>) returns (wp: seq<nat>)
    requires |data| >= 0x20
    ensures wp == ProtectedPages(data, 0)
  {
    ghost var bits := PageBits(data, 0);
    wp := [];
    var page: nat := 0;
    while page < PageCount
      invariant page <= PageCount
      invariant wp == Marked(bits, page)
    {
      var byteIndex := page / 8;
      var bitIndex := page % 8;
      PageByte(page);
      assert bits[page] == PageBitClear(data, 0, page);
      if byteIndex < 0x20 {
        if BitClear(data[byteIndex], bitIndex) {
          wp := wp + [page];
        }
      }
      page := page + 1;
    }
  }

  /** The copy-protect loop: bits from byte 0x100 on, only where the data reaches. */
  method CopyProtectedPages(data: seq<bv8>) returns (cp: seq<nat>)
    ensures cp == ProtectedPages(data, 0x100)
  {
    ghost var bits := PageBits(data, 0x100);
    cp := [];
    var page: nat := 0;
    while page < PageCount
      invariant page <= PageCount
      invariant cp == Marked(bits, page)
    {
      var byteIndex := 0x100 + page / 8;
      var bitIndex := page % 8;
      PageByte(page);
      assert bits[page] == PageBitClear(data, 0x100, page);
      if byteIndex < |data| {
        if BitClear(data[byteIndex], bitIndex) {
          cp := cp + [page];
        }
      }
      page := page + 1;
    }
  }

  /** Bytes other than 0xFF. */
  function CountNotErased(s: seq<bv8>): (n: nat)
    ensures n <= |s|
    ensures n == 0 <==> forall i :: 0 <= i < |s| ==> s[i] == 0xFF
  {
    if s == [] then 0 else (if s[0] != 0xFF then 1 else 0) + CountNotErased(s[1..])
  }

  /** The redirection/EPROM bytes: `data[0x20:0x40]`, shorter when the data is. */
  function EpromBytes(data: seq<bv8>): (e: seq<bv8>)
    ensures |e| <= 32
  {
    Slice(data, 0x20, 0x40)
  }

  /** The report lines, in order (each also printed by the source). */
  function ReportLines(data: seq<bv8>): seq<string>
  {
    var wp := ProtectedPages(data, 0);
    var e := EpromBytes(data);
    var cp := ProtectedPages(data, 0x100);
    [ "\n=== Status Memory Analyse (Python) ===",
      "Write-Protected Pages: " + Decimal(|wp|) + "/256",
      "  Seiten gesperrt: " + PageRangesText(wp),
      "EPROM/Redirection gesetzt (Bytes 0x20-0x3F != FF): " + Decimal(CountNotErased(e)) + "/32",
      "  Redirection/EPROM Bytes:",
      "   " + HexJoin(e, " ", true),
      "Copy-Protected Pages: " + Decimal(|cp|) + "/256",
      "  Copy-gesch\U{00FC}tzt: " + PageRangesText(cp),
      "=== Ende Status Analyse ===",
      "" ]
  }

  /** `analyze_status`: the report joined with newlines. The source indexes bytes 0x00-0x1F unguarded, so it needs 32 bytes. */
  method AnalyzeStatus(data: seq<bv8>) returns (report: string)
    requires |data| >= 0x20
    ensures report == Join("\n", ReportLines(data))
  {
    var title := "\n=== Status Memory Analyse (Python) ===";
    var wp := WriteProtectedPages(data);
    var wpText := FormatPageRanges(wp);
    var wpCount := "Write-Protected Pages: " + Decimal(|wp|) + "/256";
    var wpList := "  Seiten gesperrt: " + wpText;
    var epromBytes := Slice(data, 0x20, 0x40);
    var epromCount := CountNotErased(epromBytes);
    var epromLine := "EPROM/Redirection gesetzt (Bytes 0x20-0x3F != FF): " + Decimal(epromCount) + "/32";
    var epromHead := "  Redirection/EPROM Bytes:";
    var epromHex := "   " + HexJoin(epromBytes, " ", true);
    var cp := CopyProtectedPages(data);
    var cpText := FormatPageRanges(cp);
    var cpCount := "Copy-Protected Pages: " + Decimal(|cp|) + "/256";
    var cpList := "  Copy-gesch\U{00FC}tzt: " + cpText;
    var lines := [title, wpCount, wpList, epromLine, epromHead, epromHex, cpCount, cpList, "=== Ende Status Analyse ===", ""];
    report := Join("\n", lines);
  }

  // ---------------------------------------------------------------------------
  // Properties

  /** With no marked position below `n`, the list is empty. */
  lemma {:induction false} NoneMarked(bits: seq<bool>, n: nat)
    requires n <= |bits|
    requires forall p :: 0 <= p < n ==> !bits[p]
    ensures Marked(bits, n) == []
  {
    if n > 0 {
      NoneMarked(bits, n - 1);
    }
  }

  /** The list when only position `p` is marked. */
  lemma {:induction false} OnlyMarked(bits: seq<bool>, p: nat, n: nat)
    requires n <= |bits|
    requires p < |bits| && bits[p]
    requires forall q :: 0 <= q < |bits| && q != p ==> !bits[q]
    ensures Marked(bits, n) == if p < n then [p] else []
  {
    if n > 0 {
      OnlyMarked(bits, p, n - 1);
    }
  }

  /** No clear bit in an area means no protected page in it. */
  lemma NoClearBits(data: seq<bv8>, base: nat)
    requires forall p: nat :: p < PageCount ==> !PageBitClear(data, base, p)
    ensures ProtectedPages(data, base) == []
  {
    var bits := PageBits(data, base);
    forall p | 0 <= p < PageCount ensures !bits[p] {
    }
    NoneMarked(bits, PageCount);
  }

  /** Status data that ends at 0x100 has no copy-protect bits at all. */
  lemma ShortStatusHasNoCopyProtection(data: seq<bv8>)
    requires |data| <= 0x100
    ensures ProtectedPages(data, 0x100) == []
  {
    NoClearBits(data, 0x100);
  }

  /** An erased byte has no clear bit. */
  lemma ErasedByteHasNoClearBit(m: nat)
    requires m < 8
    ensures !BitClear(0xFF, m)
  {
  }

  /** Erased status memory (all 0xFF): nothing is protected and no redirection is set. */
  lemma ErasedStatus(data: seq<bv8>)
    requires |data| == 256
    requires forall i :: 0 <= i < |data| ==> data[i] == 0xFF
    ensures ProtectedPages(data, 0) == []
    ensures ProtectedPages(data, 0x100) == []
    ensures CountNotErased(EpromBytes(data)) == 0
  {
    forall p: nat | p < PageCount ensures !PageBitClear(data, 0, p) {
      ErasedByteHasNoClearBit(p % 8);
    }
    NoClearBits(data, 0);
    NoClearBits(data, 0x100);
  }

  /** Every page count the report prints is at most 256 and the EPROM count at most 32. */
  lemma ReportBounds(data: seq<bv8>)
    ensures |ProtectedPages(data, 0)| <= PageCount
    ensures |ProtectedPages(data, 0x100)| <= PageCount
    ensures CountNotErased(EpromBytes(data)) <= 32
  {
    ProtectedPagesSpec(data, 0);
    ProtectedPagesSpec(data, 0x100);
    AscendingBelowBound(ProtectedPages(data, 0));
    AscendingBelowBound(ProtectedPages(data, 0x100));
  }

  /** A strictly ascending list of page numbers below 256 has at most 256 entries. */
  lemma AscendingBelowBound(ps: seq<nat>)
    requires StrictlyAscending(ps)
    requires forall i :: 0 <= i < |ps| ==> ps[i] < PageCount
    ensures |ps| <= PageCount
  {
    if ps != [] {
      AscendingFloor(ps, |ps| - 1);
    }
  }

  lemma {:induction false} AscendingFloor(ps: seq<nat>, i: nat)
    requires StrictlyAscending(ps)
    requires i < |ps|
    ensures ps[i] >= i
  {
    if i > 0 {
      AscendingFloor(ps, i - 1);
    }
  }

  /** In `0xFF ^ (1 << k)` exactly bit `k` is clear. */
  lemma OnlyBitCleared(b: bv8, k: nat)
    requires k < 8
    requires b == 0xFF ^ Bit(k)
    ensures forall m :: 0 <= m < 8 ==> (BitClear(b, m) <==> m == k)
  {
  }

  /** Clearing bit `k` of write-protect byte `j` protects exactly page `8j + k` when everything else is erased. */
  lemma SingleProtectedPage(data: seq<bv8>, j: nat, k: nat)
    requires |data| == 256
    requires j < 0x20 && k < 8
    requires data[j] == 0xFF ^ Bit(k)
    requires forall i :: 0 <= i < |data| && i != j ==> data[i] == 0xFF
    ensures ProtectedPages(data, 0) == [8 * j + k]
  {
    var p := 8 * j + k;
    assert p / 8 == j && p % 8 == k;
    OnlyBitCleared(data[j], k);
    var bits := PageBits(data, 0);
    forall q | 0 <= q < PageCount && q != p ensures !bits[q] {
      if q / 8 != j {
        ErasedByteHasNoClearBit(q % 8);
      } else {
        assert q % 8 != k;
      }
    }
    OnlyMarked(bits, p, PageCount);
  }
}
