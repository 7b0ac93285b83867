/**
 * `calc_used_pages_from_binary`: a 32-byte page of the data image is in use
 * when any of its bytes differs from the erased value 0xFF; every used page
 * is listed, with its two-line hexdump, in ascending order.
 */
module UsedPages {

  import opened Wrappers
  import opened Text
  import opened PageRanges
  import opened Hexdump

  const PageSize := 32

  /** All bytes of `s` are erased (0xFF). */
  predicate Erased(s: seq<bv8>) {
    forall i :: 0 <= i < |s| ==> s[i] == 0xFF
  }

  /** The bytes of page `p`; the source only looks at whole pages. */
  function PageBytes(data: seq<bv8>, p: nat): seq<bv8>
    requires (p + 1) * PageSize <= |data|
  {
    data[p * PageSize .. (p + 1) * PageSize]
  }

  /** `any(b != 0xFF for b in chunk)` for page `p`, which must be a whole page of the data. */
  predicate PageUsed(data: seq<bv8>, p: nat)
  {
    (p + 1) * PageSize <= |data| && !Erased(PageBytes(data, p))
  }

  /** The number of whole pages, `TOTAL_SIZE // PAGE_SIZE`. */
  function PageTotal(data: seq<bv8>): nat
  {
    |data| / PageSize
  }

  /** Used pages from `from` on, ascending. */
  function UsedFrom(data: seq<bv8>, from: nat): seq<nat>
    decreases PageTotal(data) - from
  {
    if from >= PageTotal(data) then []
    else
      var rest := UsedFrom(data, from + 1);
      if PageUsed(data, from) then [from] + rest else rest
  }

  lemma {:induction false} UsedFromSpec(data: seq<bv8>, from: nat)
    ensures var ps := UsedFrom(data, from);
      (forall i :: 0 <= i < |ps| ==> from <= ps[i] < PageTotal(data)) &&
      StrictlyAscending(ps) &&
      (forall p: nat :: p in ps <==> from <= p && PageUsed(data, p))
    decreases PageTotal(data) - from
  {
    if from < PageTotal(data) {
      UsedFromSpec(data, from + 1);
      var rest := UsedFrom(data, from + 1);
      if PageUsed(data, from) {
        var ps := [from] + rest;
        assert forall i :: 1 <= i < |ps| ==> ps[i] == rest[i - 1];
      }
    } else {
      forall p: nat | from <= p ensures !PageUsed(data, p) {
        assert (p + 1) * PageSize > |data|;
      }
    }
  }

  /**
   * The used pages, ascending, and the page-to-hexdump map with exactly
   * those pages as keys. The progress lines the source prints are not modelled.
   */
  method CalcUsedPages(data: seq<bv8>) returns (used: seq<nat>, dumps: map<nat, seq<string>>)
    ensures used == UsedFrom(data, 0)
    ensures StrictlyAscending(used)
    ensures forall p: nat :: p in used <==> PageUsed(data, p)
    ensures forall p: nat :: p in dumps <==> p in used
    ensures forall p :: p in dumps ==> dumps[p] == PageLines(data, p * PageSize)
  {
    var pageCount := |data| / PageSize;
    used := [];
    dumps := map[];
    var page := 0;
    while page < pageCount
      invariant 0 <= page <= pageCount
      invariant used + UsedFrom(data, page) == UsedFrom(data, 0)
      invariant forall p: nat :: p in dumps <==> p < page && PageUsed(data, p)
      invariant forall p :: p in dumps ==> dumps[p] == PageLines(data, p * PageSize)
    {
      var start := page * PageSize;
      var chunk := data[start .. start + PageSize];
      assert chunk == PageBytes(data, page);
      if !Erased(chunk) {
        used := used + [page];
        var pageLines := HexdumpPage32(data, start);
        dumps := dumps[page := pageLines];
      }
      page := page + 1;
    }
    assert UsedFrom(data, page) == [];
    assert used + [] == used;
    UsedFromSpec(data, 0);
  }

  // ---------------------------------------------------------------------------
  // Properties

  /** An erased image uses no page. */
  lemma ErasedImageUsesNothing(data: seq<bv8>)
    requires Erased(data)
    ensures UsedFrom(data, 0) == []
  {
    NoneUsedFrom(data, 0);
  }

  lemma {:induction false} NoneUsedFrom(data: seq<bv8>, from: nat)
    requires Erased(data)
    ensures UsedFrom(data, from) == []
    decreases PageTotal(data) - from
  {
    if from < PageTotal(data) {
      NoneUsedFrom(data, from + 1);
      assert Erased(PageBytes(data, from));
    }
  }

  /** One programmed byte at offset `j` of an otherwise erased image puts exactly page `j / 32` in use. */
  lemma SingleByteUsesItsPage(data: seq<bv8>, j: nat)
    requires |data| == 8192
    requires j < |data| && data[j] != 0xFF
    requires forall i :: 0 <= i < |data| && i != j ==> data[i] == 0xFF
    ensures UsedFrom(data, 0) == [j / PageSize]
  {
    var p := j / PageSize;
    assert PageUsed(data, p) by {
      assert PageBytes(data, p)[j - p * PageSize] == data[j];
    }
    forall q: nat | q != p ensures !PageUsed(data, q) {
      if (q + 1) * PageSize <= |data| {
        forall i | 0 <= i < PageSize ensures PageBytes(data, q)[i] == 0xFF {
          assert PageBytes(data, q)[i] == data[q * PageSize + i];
          assert q * PageSize + i != j;
        }
      }
    }
    OnlyUsed(data, p, 0);
  }

  lemma {:induction false} OnlyUsed(data: seq<bv8>, p: nat, from: nat)
    requires PageUsed(data, p)
    requires forall q: nat :: q != p ==> !PageUsed(data, q)
    ensures UsedFrom(data, from) == if from <= p then [p] else []
    decreases PageTotal(data) - from
  {
    if from < PageTotal(data) {
      OnlyUsed(data, p, from + 1);
    } else {
      assert (p + 1) * PageSize <= |data|;
    }
  }

  /** The stored hexdump of a used page of the 8 KiB image shows that page's bytes at its addresses. */
  lemma UsedPageDumpShowsPage(data: seq<bv8>, p: nat)
    requires |data| == 8192
    requires PageUsed(data, p)
    ensures var ls := PageLines(data, p * PageSize);
      ParseDumpLine(ls[0][2..]) == Some((p * PageSize, PageBytes(data, p)[..16])) &&
      ParseDumpLine(ls[1][2..]) == Some((p * PageSize + 16, PageBytes(data, p)[16..]))
  {
    var start := p * PageSize;
    PageLinesRoundTrip(data, start);
    assert ChunkAt(data, start) == PageBytes(data, p)[..16];
    assert ChunkAt(data, start + 16) == PageBytes(data, p)[16..];
  }
}
