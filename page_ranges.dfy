/**
 * `_format_page_ranges`: a list of page numbers as comma-separated runs of
 * consecutive numbers (`0-2,5,7-8`), or `(keine)` for no pages.
 */
module PageRanges {

  import opened Text

  predicate Ascending(s: seq<nat>) {
    forall i, j :: 0 <= i < j < |s| ==> s[i] <= s[j]
  }

  predicate StrictlyAscending(s: seq<nat>) {
    forall i, j :: 0 <= i < j < |s| ==> s[i] < s[j]
  }

  lemma AscendingCons(h: nat, t: seq<nat>)
    requires Ascending(t)
    requires t == [] || h <= t[0]
    ensures Ascending([h] + t)
  {
    var r := [h] + t;
    forall i, j | 0 <= i < j < |r| ensures r[i] <= r[j] {
      if i > 0 {
        assert r[i] == t[i - 1] && r[j] == t[j - 1];
      } else {
        assert r[j] == t[j - 1];
      }
    }
  }

  function Insert(x: nat, s: seq<nat>): (r: seq<nat>)
    requires Ascending(s)
    ensures Ascending(r)
    ensures multiset(r) == multiset(s) + multiset{x}
    ensures r[0] == if s == [] || x <= s[0] then x else s[0]
  {
    if s == [] then [x]
    else if x <= s[0] then
      AscendingCons(x, s);
      [x] + s
    else
      assert s == [s[0]] + s[1..];
      assert Ascending(s[1..]) by {
        forall i, j | 0 <= i < j < |s| - 1 ensures s[1..][i] <= s[1..][j] {
          assert s[1..][i] == s[i + 1] && s[1..][j] == s[j + 1];
        }
      }
      var t := Insert(x, s[1..]);
      AscendingCons(s[0], t);
      [s[0]] + t
  }

  /** `sorted(pages)`: an ascending permutation of the input. */
  function SortAsc(s: seq<nat>): (r: seq<nat>)
    ensures Ascending(r)
    ensures multiset(r) == multiset(s)
  {
    if s == [] then []
    else
      assert s == [s[0]] + s[1..];
      Insert(s[0], SortAsc(s[1..]))
  }

  /** There is only one ascending arrangement of a multiset, so `SortAsc` is `sorted`, whatever algorithm computes it. */
  lemma {:induction false} SortedUnique(a: seq<nat>, b: seq<nat>)
    requires Ascending(a) && Ascending(b)
    requires multiset(a) == multiset(b)
    ensures a == b
    decreases |a|
  {
    if a == [] {
      assert |multiset(b)| == 0;
    } else {
      SameHeads(a, b);
      AscendingTail(a);
      AscendingTail(b);
      SortedUnique(a[1..], b[1..]);
      ConsTail(a);
      ConsTail(b);
    }
  }

  /** Two ascending arrangements of one non-empty multiset start alike, and so do their remainders. */
  lemma SameHeads(a: seq<nat>, b: seq<nat>)
    requires Ascending(a) && Ascending(b)
    requires multiset(a) == multiset(b)
    requires a != []
    ensures b != [] && a[0] == b[0]
    ensures multiset(a[1..]) == multiset(b[1..])
  {
    assert a[0] in multiset(b) by {
      assert a[0] in a;
    }
    assert b != [];
    assert b[0] in multiset(a) by {
      assert b[0] in b;
    }
    HeadIsMin(a, b[0]);
    HeadIsMin(b, a[0]);
    MultisetTail(a);
    MultisetTail(b);
  }

  /** The head of an ascending list is its least element. */
  lemma HeadIsMin(s: seq<nat>, x: nat)
    requires Ascending(s)
    requires x in multiset(s)
    ensures s[0] <= x
  {
    var i :| 0 <= i < |s| && s[i] == x;
    assert s[0] <= s[i];
  }

  lemma ConsTail(s: seq<nat>)
    requires s != []
    ensures s == [s[0]] + s[1..]
  {
  }

  lemma MultisetTail(s: seq<nat>)
    requires s != []
    ensures multiset(s[1..]) == multiset(s) - multiset{s[0]}
  {
    assert s == [s[0]] + s[1..];
  }

  lemma AscendingTail(s: seq<nat>)
    requires Ascending(s) && s != []
    ensures Ascending(s[1..])
  {
    forall p, q | 0 <= p < q < |s| - 1 ensures s[1..][p] <= s[1..][q] {
      assert s[1..][p] == s[p + 1] && s[1..][q] == s[q + 1];
    }
  }

  /** A run of consecutive page numbers, first and last. */
  datatype Run = Run(first: nat, last: nat)

  /**
   * The run-building loop: the run in progress spans `first..last`; a
   * number one above `last` extends it, anything else closes it and
   * opens a new one.
   */
  function RunsFrom(first: nat, last: nat, rest: seq<nat>): (rs: seq<Run>)
    ensures |rs| >= 1
    decreases |rest|
  {
    if rest == [] then [Run(first, last)]
    else if rest[0] == last + 1 then RunsFrom(first, rest[0], rest[1..])
    else [Run(first, last)] + RunsFrom(rest[0], rest[0], rest[1..])
  }

  function Runs(s: seq<nat>): seq<Run>
    requires s != []
  {
    RunsFrom(s[0], s[0], s[1..])
  }

  function RunText(r: Run): string
  {
    if r.first == r.last then Decimal(r.first) else Decimal(r.first) + "-" + Decimal(r.last)
  }

  function RunTexts(rs: seq<Run>): (ts: seq<string>)
    ensures |ts| == |rs|
    ensures forall k :: 0 <= k < |rs| ==> ts[k] == RunText(rs[k])
  {
    if rs == [] then [] else [RunText(rs[0])] + RunTexts(rs[1..])
  }

  /** The text `_format_page_ranges` returns. */
  function PageRangesText(pages: seq<nat>): string
  {
    if pages == [] then "(keine)" else Join(",", RunTexts(Runs(SortAsc(pages))))
  }

  method FormatPageRanges(pages: seq<nat>) returns (text: string)
    ensures text == PageRangesText(pages)
  {
    if pages == [] {
      return "(keine)";
    }
    var sorted := SortAsc(pages);
    assert sorted != [] by {
      assert |multiset(sorted)| == |multiset(pages)|;
    }
    var ranges := CollectRuns(sorted);
    var out := RenderRuns(ranges);
    text := Join(",", out);
  }

  /** The first loop of `_format_page_ranges`. */
  method CollectRuns(sorted: seq<nat>) returns (ranges: seq<Run>)
    requires sorted != []
    ensures ranges == Runs(sorted)
  {
    ranges := [];
    var first := sorted[0];
    var last := sorted[0];
    var i := 1;
    while i < |sorted|
      invariant 1 <= i <= |sorted|
      invariant ranges + RunsFrom(first, last, sorted[i..]) == Runs(sorted)
    {
      var p := sorted[i];
      assert sorted[i..] == [p] + sorted[i + 1..];
      if p == last + 1 {
        last := p;
      } else {
        ranges := ranges + [Run(first, last)];
        first := p;
        last := p;
      }
      i := i + 1;
    }
    ranges := ranges + [Run(first, last)];
  }

  /** The second loop: `str(a)` or `f"{a}-{b}"` per run. */
  method RenderRuns(ranges: seq<Run>) returns (out: seq<string>)
    ensures out == RunTexts(ranges)
  {
    out := [];
    var k := 0;
    while k < |ranges|
      invariant 0 <= k <= |ranges|
      invariant out == RunTexts(ranges[..k])
    {
      var r := ranges[k];
      if r.first == r.last {
        out := out + [Decimal(r.first)];
      } else {
        out := out + [Decimal(r.first) + "-" + Decimal(r.last)];
      }
      assert ranges[..k + 1] == ranges[..k] + [r];
      RunTextsAppend(ranges[..k], r);
      k := k + 1;
    }
    assert ranges[..k] == ranges;
  }

  lemma {:induction false} RunTextsAppend(rs: seq<Run>, r: Run)
    ensures RunTexts(rs + [r]) == RunTexts(rs) + [RunText(r)]
  {
  }

  // ---------------------------------------------------------------------------
  // What the runs mean

  /** Some run contains `x`. */
  predicate Covered(rs: seq<Run>, x: nat)
  {
    rs != [] && (rs[0].first <= x <= rs[0].last || Covered(rs[1..], x))
  }

  /** The runs cover exactly the numbers of the input: nothing is lost and nothing is invented, for any input order. */
  lemma {:induction false} RunsFromCover(first: nat, last: nat, rest: seq<nat>, x: nat)
    requires first <= last
    ensures Covered(RunsFrom(first, last, rest), x) <==> (first <= x <= last || x in rest)
    decreases |rest|
  {
    if rest == [] {
    } else if rest[0] == last + 1 {
      RunsFromCover(first, rest[0], rest[1..], x);
      assert rest == [rest[0]] + rest[1..];
    } else {
      RunsFromCover(rest[0], rest[0], rest[1..], x);
      assert rest == [rest[0]] + rest[1..];
      assert ([Run(first, last)] + RunsFrom(rest[0], rest[0], rest[1..]))[1..] == RunsFrom(rest[0], rest[0], rest[1..]);
    }
  }

  lemma RunsCover(s: seq<nat>, x: nat)
    requires s != []
    ensures Covered(Runs(s), x) <==> x in s
  {
    RunsFromCover(s[0], s[0], s[1..], x);
    assert s == [s[0]] + s[1..];
  }

  /** The reported runs cover exactly the pages passed in. */
  lemma FormattedPagesAreTheInput(pages: seq<nat>, x: nat)
    requires pages != []
    ensures Covered(Runs(SortAsc(pages)), x) <==> x in pages
  {
    var s := SortAsc(pages);
    assert multiset(s) == multiset(pages);
    assert s != [] by {
      assert |multiset(s)| == |multiset(pages)|;
    }
    RunsCover(s, x);
    assert x in s <==> x in multiset(s);
  }

  /**
   * Runs are well formed and maximal: each is non-empty, and between two
   * neighbouring runs at least one number is missing, so no two runs could
   * have been merged.
   */
  predicate Canonical(rs: seq<Run>)
  {
    (forall k :: 0 <= k < |rs| ==> rs[k].first <= rs[k].last)
    && (forall k :: 0 <= k < |rs| - 1 ==> rs[k].last + 1 < rs[k + 1].first)
  }

  lemma {:induction false} RunsFromCanonical(first: nat, last: nat, rest: seq<nat>)
    requires first <= last
    requires forall i :: 0 <= i < |rest| ==> last < rest[i]
    requires StrictlyAscending(rest)
    ensures Canonical(RunsFrom(first, last, rest))
    ensures RunsFrom(first, last, rest)[0].first == first
    decreases |rest|
  {
    if rest != [] {
      var t := rest[1..];
      assert forall i :: 0 <= i < |t| ==> rest[0] < t[i] by {
        forall i | 0 <= i < |t| ensures rest[0] < t[i] {
          assert t[i] == rest[i + 1];
        }
      }
      if rest[0] == last + 1 {
        RunsFromCanonical(first, rest[0], t);
      } else {
        RunsFromCanonical(rest[0], rest[0], t);
        var tail := RunsFrom(rest[0], rest[0], t);
        var rs := [Run(first, last)] + tail;
        assert forall k :: 1 <= k < |rs| ==> rs[k] == tail[k - 1];
      }
    }
  }

  /** Sorting an ascending list changes nothing. */
  lemma SortAscIdentity(s: seq<nat>)
    requires Ascending(s)
    ensures SortAsc(s) == s
  {
    SortedUnique(SortAsc(s), s);
  }

  /** For strictly ascending pages, as the status analysis produces them, the runs are canonical. */
  lemma RunsCanonical(pages: seq<nat>)
    requires pages != []
    requires StrictlyAscending(pages)
    ensures Canonical(Runs(SortAsc(pages)))
  {
    SortAscIdentity(pages);
    var t := pages[1..];
    forall i | 0 <= i < |t| ensures pages[0] < t[i] {
      assert t[i] == pages[i + 1];
    }
    assert StrictlyAscending(t) by {
      forall p, q | 0 <= p < q < |t| ensures t[p] < t[q] {
        assert t[p] == pages[p + 1] && t[q] == pages[q + 1];
      }
    }
    RunsFromCanonical(pages[0], pages[0], t);
  }

  lemma ExampleSorted()
    ensures SortAsc([0, 1, 2, 5, 7, 8]) == [0, 1, 2, 5, 7, 8]
  {
    var s: seq<nat> := [0, 1, 2, 5, 7, 8];
    SortAscIdentity(s);
  }

  lemma ExampleRuns()
    ensures Runs([0, 1, 2, 5, 7, 8]) == [Run(0, 2), Run(5, 5), Run(7, 8)]
  {
    var s: seq<nat> := [0, 1, 2, 5, 7, 8];
    var rs := [Run(0, 2), Run(5, 5), Run(7, 8)];
    var t1: seq<nat> := [1, 2, 5, 7, 8];
    var t2: seq<nat> := [2, 5, 7, 8];
    var t3: seq<nat> := [5, 7, 8];
    var t4: seq<nat> := [7, 8];
    var t5: seq<nat> := [8];
    assert s[1..] == t1 && t1[1..] == t2 && t2[1..] == t3 && t3[1..] == t4 && t4[1..] == t5 && t5[1..] == [];
    assert RunsFrom(7, 7, t5) == [Run(7, 8)];
    assert RunsFrom(5, 5, t4) == [Run(5, 5), Run(7, 8)];
    assert RunsFrom(0, 2, t3) == rs;
    assert RunsFrom(0, 1, t2) == rs;
    assert RunsFrom(0, 0, t1) == rs;
  }

  lemma ExampleText()
    ensures Join(",", RunTexts([Run(0, 2), Run(5, 5), Run(7, 8)])) == "0-2,5,7-8"
  {
    var rs := [Run(0, 2), Run(5, 5), Run(7, 8)];
    assert Decimal(0) == "0" && Decimal(2) == "2" && Decimal(5) == "5" && Decimal(7) == "7" && Decimal(8) == "8";
    assert RunText(rs[0]) == "0-2";
    assert RunText(rs[1]) == "5";
    assert RunText(rs[2]) == "7-8";
    var ts := RunTexts(rs);
    assert ts == ["0-2", "5", "7-8"];
    assert ts[1..] == ["5", "7-8"] && ts[2..] == ["7-8"];
    assert Join(",", ts[1..]) == "5,7-8";
  }

  /** Runs of three, one and two pages, and the empty list. */
  lemma RangesExample()
    ensures PageRangesText([0, 1, 2, 5, 7, 8]) == "0-2,5,7-8"
    ensures PageRangesText([]) == "(keine)"
  {
    ExampleSorted();
    ExampleRuns();
    ExampleText();
  }
}
