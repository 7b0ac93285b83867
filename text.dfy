/**
 * Character and string helpers shared by the host-side tools: the parts of
 * Python's `str` and format machinery that the dump pipeline relies on
 * (`strip`, `split`, `replace`, `join`, `ljust`, `str(int)`, `{:02X}`,
 * `{:04x}` and clamped slicing), restricted to ASCII.
 */
module Text {

  import opened Wrappers

  /** ASCII whitespace as `str.isspace`, `str.strip` and `str.split` see it. */
  predicate IsSpace(c: char) {
    ('\t' <= c <= '\r') || ('\U{001C}' <= c <= '\U{001F}') || c == ' '
  }

  predicate IsDigit(c: char) { '0' <= c <= '9' }

  predicate IsHexDigit(c: char) { IsDigit(c) || 'a' <= c <= 'f' || 'A' <= c <= 'F' }

  predicate IsAsciiAlnum(c: char) { IsDigit(c) || 'a' <= c <= 'z' || 'A' <= c <= 'Z' }

  // ---------------------------------------------------------------------------
  // Python sequence slicing with non-negative bounds: `s[i:j]` never fails,
  // it clamps both ends to the length.

  function Slice<T>(s: seq<T>, i: nat, j: nat): (r: seq<T>)
    ensures |r| == if i < j && i < |s| then (if j < |s| then j else |s|) - i else 0
    ensures forall k :: 0 <= k < |r| ==> r[k] == s[i + k]
  {
    var hi := if j < |s| then j else |s|;
    if i < hi then s[i..hi] else []
  }

  /** Sequence identities for any element type, for clients whose elements are large strings. */
  lemma AppendAssoc<T>(a: seq<T>, b: seq<T>, c: seq<T>)
    ensures (a + b) + c == a + (b + c)
  {
  }

  lemma AppendEmpty<T>(a: seq<T>)
    ensures [] + a == a && a + [] == a
  {
  }

  lemma IndexAfter<T>(p: seq<T>, rest: seq<T>, i: nat)
    requires i < |rest|
    ensures (p + rest)[|p| + i] == rest[i]
  {
  }

  lemma TakeSnoc<T>(s: seq<T>, n: nat)
    requires n < |s|
    ensures s[..n + 1] == s[..n] + [s[n]]
  {
  }

  lemma TakeAll<T>(s: seq<T>)
    ensures s[..|s|] == s
  {
  }

  /** `[xs[0], ys[0], xs[1], ys[1], ...]` for two sequences of the same length. */
  function Interleave<T>(xs: seq<T>, ys: seq<T>): (r: seq<T>)
    requires |xs| == |ys|
    ensures |r| == 2 * |xs|
  {
    if xs == [] then [] else Interleave(xs[..|xs| - 1], ys[..|ys| - 1]) + [xs[|xs| - 1], ys[|ys| - 1]]
  }

  /** Taking one more pair from each side appends that pair. */
  lemma InterleaveSnoc<T>(xs: seq<T>, ys: seq<T>, n: nat)
    requires |xs| == |ys| && n < |xs|
    ensures Interleave(xs[..n + 1], ys[..n + 1]) == Interleave(xs[..n], ys[..n]) + [xs[n], ys[n]]
  {
    assert xs[..n + 1][..n] == xs[..n] && ys[..n + 1][..n] == ys[..n];
  }

  /** Positions 2k and 2k + 1 hold `xs[k]` and `ys[k]`. */
  lemma {:induction false} InterleaveAt<T>(xs: seq<T>, ys: seq<T>, k: nat)
    requires |xs| == |ys| && k < |xs|
    ensures Interleave(xs, ys)[2 * k] == xs[k] && Interleave(xs, ys)[2 * k + 1] == ys[k]
  {
    var n := |xs| - 1;
    if k < n {
      InterleaveAt(xs[..n], ys[..n], k);
    }
  }

  // ---------------------------------------------------------------------------
  // strip / split

  function LStrip(s: string): (r: string)
    ensures |r| <= |s|
    ensures r == [] || !IsSpace(r[0])
  {
    if s != [] && IsSpace(s[0]) then LStrip(s[1..]) else s
  }

  function RStrip(s: string): (r: string)
    ensures |r| <= |s|
    ensures r == [] || !IsSpace(r[|r| - 1])
  {
    if s != [] && IsSpace(s[|s| - 1]) then RStrip(s[..|s| - 1]) else s
  }

  /** `str.strip()`: the longest infix without leading or trailing whitespace. */
  function Strip(s: string): string
  {
    RStrip(LStrip(s))
  }

  /** `lstrip` removes a prefix, and that prefix is all whitespace. */
  lemma {:induction false} LStripShape(s: string)
    ensures var r := LStrip(s); r == s[|s| - |r|..] && forall i :: 0 <= i < |s| - |r| ==> IsSpace(s[i])
  {
    if s != [] && IsSpace(s[0]) {
      LStripShape(s[1..]);
    }
  }

  /** `rstrip` removes a suffix, and that suffix is all whitespace. */
  lemma {:induction false} RStripShape(s: string)
    ensures var r := RStrip(s); r == s[..|r|] && forall i :: |r| <= i < |s| ==> IsSpace(s[i])
  {
    if s != [] && IsSpace(s[|s| - 1]) {
      RStripShape(s[..|s| - 1]);
    }
  }

  /** `strip` leaves an infix of `s` that neither starts nor ends with whitespace. */
  lemma StripShape(s: string)
    ensures var r := Strip(s); r == [] || (!IsSpace(r[0]) && !IsSpace(r[|r| - 1]))
    ensures forall c :: c in Strip(s) ==> c in s
  {
    var l := LStrip(s);
    LStripShape(s);
    RStripShape(l);
    var r := RStrip(l);
    assert forall k :: 0 <= k < |r| ==> r[k] == s[|s| - |l| + k];
  }

  /** Length of the run of non-whitespace characters that starts `s`. */
  function TokenLen(s: string): (n: nat)
    ensures n <= |s|
    ensures forall i :: 0 <= i < n ==> !IsSpace(s[i])
    ensures n == |s| || IsSpace(s[n])
  {
    if s == [] || IsSpace(s[0]) then 0 else 1 + TokenLen(s[1..])
  }

  /** `str.split()` without arguments: the maximal runs of non-whitespace. */
  function Words(s: string): (ws: seq<string>)
    ensures forall k :: 0 <= k < |ws| ==> ws[k] != [] && forall i :: 0 <= i < |ws[k]| ==> !IsSpace(ws[k][i])
    decreases |s|
  {
    var t := LStrip(s);
    if t == [] then []
    else
      var n := TokenLen(t);
      [t[..n]] + Words(t[n..])
  }

  predicate StartsWith(s: string, p: string) {
    |p| <= |s| && s[..|p|] == p
  }

  /** Python's `p in s` for strings. */
  predicate Contains(s: string, p: string)
    decreases |s|
  {
    StartsWith(s, p) || (s != [] && Contains(s[1..], p))
  }

  /** `s.replace(p, "")`: every occurrence of `p`, left to right and not overlapping, removed. */
  function RemoveAll(s: string, p: string): (r: string)
    requires p != []
    ensures |r| <= |s|
    decreases |s|
  {
    if s == [] then []
    else if StartsWith(s, p) then RemoveAll(s[|p|..], p)
    else [s[0]] + RemoveAll(s[1..], p)
  }

  /** The text after the first `c` in `s`, or None when `c` does not occur (`s.split(c, 1)[1]`). */
  function After(s: string, c: char): (r: Option<string>)
    ensures r.None? <==> c !in s
    ensures r.Some? ==> |r.value| < |s| && r.value == s[|s| - |r.value|..] && s[|s| - |r.value| - 1] == c
  {
    if s == [] then None
    else if s[0] == c then Some(s[1..])
    else After(s[1..], c)
  }

  /** `sep.join(parts)`. */
  function Join(sep: string, parts: seq<string>): string
  {
    if parts == [] then ""
    else if |parts| == 1 then parts[0]
    else parts[0] + sep + Join(sep, parts[1..])
  }

  /** Concatenation of all parts (lines already carrying their own terminators). */
  function Concat(parts: seq<string>): string
  {
    if parts == [] then "" else parts[0] + Concat(parts[1..])
  }

  lemma {:induction false} ConcatSnoc(parts: seq<string>, last: string)
    ensures Concat(parts + [last]) == Concat(parts) + last
  {
    if parts == [] {
      assert parts + [last] == [last];
    } else {
      assert (parts + [last])[1..] == parts[1..] + [last];
      ConcatSnoc(parts[1..], last);
    }
  }

  function Repeat(c: char, n: nat): (r: string)
    ensures |r| == n && forall i :: 0 <= i < n ==> r[i] == c
  {
    if n == 0 then "" else [c] + Repeat(c, n - 1)
  }

  /** `f"{s:<w}"`: left-justified in `w` columns, never truncated. */
  function PadRight(s: string, w: nat): (r: string)
    ensures |r| == if |s| < w then w else |s|
    ensures r[..|s|] == s
    ensures forall i :: |s| <= i < |r| ==> r[i] == ' '
  {
    if |s| < w then s + Repeat(' ', w - |s|) else s
  }

  // ---------------------------------------------------------------------------
  // Decimal numerals: `str(n)` for n >= 0

  function DigitChar(d: nat): (c: char)
    requires d < 10
    ensures IsDigit(c)
  {
    ('0' as int + d) as char
  }

  function Decimal(n: nat): (s: string)
    ensures |s| >= 1
    ensures forall i :: 0 <= i < |s| ==> IsDigit(s[i])
  {
    if n < 10 then [DigitChar(n)] else Decimal(n / 10) + [DigitChar(n % 10)]
  }

  function DigitValue(c: char): (d: nat)
    requires IsDigit(c)
    ensures d < 10
  {
    c as int - '0' as int
  }

  function DecimalValue(s: string): nat
    requires forall i :: 0 <= i < |s| ==> IsDigit(s[i])
  {
    if s == [] then 0 else 10 * DecimalValue(s[..|s| - 1]) + DigitValue(s[|s| - 1])
  }

  /** Reading back the numeral `str(n)` gives `n`, and it has no leading zero. */
  lemma {:induction false} DecimalRoundTrip(n: nat)
    ensures DecimalValue(Decimal(n)) == n
    ensures n > 0 ==> Decimal(n)[0] != '0'
  {
    if n >= 10 {
      DecimalRoundTrip(n / 10);
      var s := Decimal(n);
      assert s[..|s| - 1] == Decimal(n / 10);
    }
  }

  // ---------------------------------------------------------------------------
  // Hexadecimal numerals: `f"{n:0{w}X}"` (upper) and `f"{n:0{w}x}"` (lower)

  function HexDigit(d: nat, upper: bool): (c: char)
    requires d < 16
    ensures IsHexDigit(c)
  {
    if d < 10 then DigitChar(d)
    else ((if upper then 'A' else 'a') as int + d - 10) as char
  }

  function HexDigitValue(c: char): (d: nat)
    requires IsHexDigit(c)
    ensures d < 16
  {
    if IsDigit(c) then c as int - '0' as int
    else if 'a' <= c <= 'f' then c as int - 'a' as int + 10
    else c as int - 'A' as int + 10
  }

  lemma HexDigitRoundTrip(d: nat, upper: bool)
    requires d < 16
    ensures HexDigitValue(HexDigit(d, upper)) == d
  {
  }

  /** The shortest hexadecimal numeral of `n`. */
  function HexDigits(n: nat, upper: bool): (s: string)
    ensures |s| >= 1 && (n < 16 <==> |s| == 1)
    ensures forall i :: 0 <= i < |s| ==> IsHexDigit(s[i])
  {
    if n < 16 then [HexDigit(n, upper)] else HexDigits(n / 16, upper) + [HexDigit(n % 16, upper)]
  }

  /** Zero-padded to at least `width` digits, longer when `n` needs more. */
  function Hex(n: nat, width: nat, upper: bool): (s: string)
    ensures forall i :: 0 <= i < |s| ==> IsHexDigit(s[i])
  {
    var d := HexDigits(n, upper);
    (if |d| < width then Repeat('0', width - |d|) else "") + d
  }

  /** `f"{b:02X}"` / `f"{b:02x}"`: exactly two digits, high nibble first. */
  function Hex2(b: bv8, upper: bool): string
  {
    var n := b as int;
    [HexDigit(n / 16, upper), HexDigit(n % 16, upper)]
  }

  /** Value of a two-digit hex pair. */
  function HexPairValue(hi: char, lo: char): bv8
    requires IsHexDigit(hi) && IsHexDigit(lo)
  {
    (HexDigitValue(hi) * 16 + HexDigitValue(lo)) as bv8
  }

  lemma Hex2RoundTrip(b: bv8, upper: bool)
    ensures var s := Hex2(b, upper); HexPairValue(s[0], s[1]) == b
  {
    HexDigitRoundTrip(b as int / 16, upper);
    HexDigitRoundTrip(b as int % 16, upper);
  }

  /** Value of a hexadecimal numeral, most significant digit first. */
  function HexValue(s: string): nat
    requires forall i :: 0 <= i < |s| ==> IsHexDigit(s[i])
  {
    if s == [] then 0 else 16 * HexValue(s[..|s| - 1]) + HexDigitValue(s[|s| - 1])
  }

  lemma {:induction false} HexDigitsRoundTrip(n: nat, upper: bool)
    ensures HexValue(HexDigits(n, upper)) == n
  {
    HexDigitRoundTrip(n % 16, upper);
    if n >= 16 {
      HexDigitsRoundTrip(n / 16, upper);
      var s := HexDigits(n, upper);
      assert s[..|s| - 1] == HexDigits(n / 16, upper);
    } else {
      HexDigitRoundTrip(n, upper);
    }
  }

  lemma {:induction false} ZerosValue(k: nat)
    ensures HexValue(Repeat('0', k)) == 0
  {
    if k > 0 {
      assert Repeat('0', k)[..k - 1] == Repeat('0', k - 1);
      ZerosValue(k - 1);
    }
  }

  /** Leading zeros do not change the value. */
  lemma {:induction false} LeadingZerosValue(k: nat, d: string)
    requires forall i :: 0 <= i < |d| ==> IsHexDigit(d[i])
    ensures HexValue(Repeat('0', k) + d) == HexValue(d)
    decreases |d|
  {
    var z := Repeat('0', k);
    if d == [] {
      assert z + d == z;
      ZerosValue(k);
    } else {
      var s := z + d;
      assert s[..|s| - 1] == z + d[..|d| - 1];
      LeadingZerosValue(k, d[..|d| - 1]);
    }
  }

  /** A number below 16^4 has at most four hex digits. */
  lemma HexDigitsAtMostFour(n: nat, upper: bool)
    requires n < 0x10000
    ensures |HexDigits(n, upper)| <= 4
  {
    if n >= 16 {
      assert HexDigits(n, upper) == HexDigits(n / 16, upper) + [HexDigit(n % 16, upper)];
      var m := n / 16;
      if m >= 16 {
        assert HexDigits(m, upper) == HexDigits(m / 16, upper) + [HexDigit(m % 16, upper)];
        var q := m / 16;
        if q >= 16 {
          assert HexDigits(q, upper) == HexDigits(q / 16, upper) + [HexDigit(q % 16, upper)];
          assert q / 16 < 16;
          assert |HexDigits(q / 16, upper)| == 1;
        }
      }
    }
  }

  /** `f"{n:04X}"` of a 16-bit value is four digits that read back as `n`. */
  lemma Hex4RoundTrip(n: nat, upper: bool)
    requires n < 0x10000
    ensures |Hex(n, 4, upper)| == 4
    ensures HexValue(Hex(n, 4, upper)) == n
  {
    var d := HexDigits(n, upper);
    HexDigitsAtMostFour(n, upper);
    HexDigitsRoundTrip(n, upper);
    if |d| < 4 {
      LeadingZerosValue(4 - |d|, d);
    } else {
      assert Hex(n, 4, upper) == d;
    }
  }

  /** `" ".join(f"{b:02X}" for b in bytes)` (or with another separator). */
  function HexJoin(bytes: seq<bv8>, sep: string, upper: bool): string
  {
    if bytes == [] then ""
    else if |bytes| == 1 then Hex2(bytes[0], upper)
    else Hex2(bytes[0], upper) + sep + HexJoin(bytes[1..], sep, upper)
  }

  /**
   * `" ".join(...)` of two-digit groups: each byte takes three columns
   * (two digits and the separator), the last one two.
   */
  lemma {:induction false} HexJoinShape(bytes: seq<bv8>, upper: bool)
    requires bytes != []
    ensures |HexJoin(bytes, " ", upper)| == 3 * |bytes| - 1
    ensures forall i :: 0 <= i < |bytes| ==>
      HexJoin(bytes, " ", upper)[3 * i] == Hex2(bytes[i], upper)[0] &&
      HexJoin(bytes, " ", upper)[3 * i + 1] == Hex2(bytes[i], upper)[1]
  {
    var h := HexJoin(bytes, " ", upper);
    if |bytes| > 1 {
      var rest := bytes[1..];
      HexJoinShape(rest, upper);
      var t := HexJoin(rest, " ", upper);
      assert h == Hex2(bytes[0], upper) + " " + t;
      forall i | 0 <= i < |bytes|
        ensures h[3 * i] == Hex2(bytes[i], upper)[0] && h[3 * i + 1] == Hex2(bytes[i], upper)[1]
      {
        if i > 0 {
          assert h[3 * i] == t[3 * (i - 1)] && h[3 * i + 1] == t[3 * (i - 1) + 1];
          assert bytes[i] == rest[i - 1];
        }
      }
    }
  }
}
