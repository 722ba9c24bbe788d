/** The page-list helpers of the command-line tool (pdfutil/src/main.rs):
    reading a page selection such as `1,3-5` into page numbers, and the pages
    of a document a selection leaves out. */
module PageRanges {
  import opened PdfTypes
  import opened Strings

  /** Every token as a `u32`, or nothing when one is not a number (where the
      tool's `unwrap` panics). */
  function ParseAll(tokens: seq<string>): (r: Option<seq<u32>>)
    ensures r.Some? <==> forall k :: 0 <= k < |tokens| ==> ParseU32(tokens[k]).Some?
    ensures r.Some? ==> |r.value| == |tokens|
    ensures r.Some? ==> forall k :: 0 <= k < |tokens| ==> r.value[k] == ParseU32(tokens[k]).value
    decreases |tokens|
  {
    if tokens == [] then Some([])
    else
      var head := ParseU32(tokens[0]);
      var rest := ParseAll(tokens[1..]);
      assert forall k :: 1 <= k < |tokens| ==> tokens[1..][k - 1] == tokens[k];
      if head.Some? && rest.Some? then
        var r := [head.value] + rest.value;
        assert forall k :: 1 <= k < |tokens| ==> r[k] == rest.value[k - 1];
        Some(r)
      else
        None
  }

  lemma ParsePair(s: string, t: string, a: u32, b: u32)
    requires ParseU32(s) == Some(a) && ParseU32(t) == Some(b)
    ensures ParseAll([s, t]) == Some([a, b])
  {
    assert ParseAll([s, t]).value == [a, b];
  }

  /** The numbers from `first` up to but not including `end`. */
  function Range(first: nat, end: nat): (r: seq<u32>)
    requires end <= U32_MODULUS
    ensures |r| == if first < end then end - first else 0
    ensures forall k :: 0 <= k < |r| ==> r[k] == first + k
    decreases end - first
  {
    if first >= end then [] else [first] + Range(first + 1, end)
  }

  lemma RangeStep(first: nat, end: nat)
    requires first <= end < U32_MODULUS
    ensures Range(first, end + 1) == Range(first, end) + [end]
  {
    assert |Range(first, end + 1)| == |Range(first, end) + [end]|;
  }

  /** One comma-separated segment: `n` gives n, `a-b` gives a to b inclusive
      (nothing when a > b), and three or more numbers give nothing. A
      non-numeric or empty piece, or b at the largest `u32` (where `b + 1`
      overflows), is a failure. */
  function SegmentPages(segment: string): Option<seq<u32>> {
    var nums :- ParseAll(Split(segment, '-'));
    if |nums| == 1 then Some([nums[0]])
    else if |nums| == 2 then
      if nums[1] == U32_MAX then None else Some(Range(nums[0], nums[1] + 1))
    else Some([])
  }

  /** The segments' pages concatenated in order, or a failure if any
      segment fails. */
  function SegmentsPages(segments: seq<string>): Option<seq<u32>>
    decreases |segments|
  {
    if segments == [] then Some([])
    else
      var head :- SegmentPages(segments[0]);
      var rest :- SegmentsPages(segments[1..]);
      Some(head + rest)
  }

  /** `compute_page_numbers`. */
  function PageNumbers(pages: string): Option<seq<u32>> {
    SegmentsPages(Split(pages, ','))
  }

  function Both(a: Option<seq<u32>>, b: Option<seq<u32>>): Option<seq<u32>> {
    if a.Some? && b.Some? then Some(a.value + b.value) else None
  }

  lemma {:induction false} SegmentsPagesConcat(a: seq<string>, b: seq<string>)
    ensures SegmentsPages(a + b) == Both(SegmentsPages(a), SegmentsPages(b))
    decreases |a|
  {
    if a == [] {
      assert a + b == b;
      if SegmentsPages(b).Some? {
        assert [] + SegmentsPages(b).value == SegmentsPages(b).value;
      }
    } else {
      assert (a + b)[0] == a[0] && (a + b)[1..] == a[1..] + b;
      SegmentsPagesConcat(a[1..], b);
      if SegmentPages(a[0]).Some? && SegmentsPages(a[1..]).Some? && SegmentsPages(b).Some? {
        var h := SegmentPages(a[0]).value;
        assert h + (SegmentsPages(a[1..]).value + SegmentsPages(b).value)
            == (h + SegmentsPages(a[1..]).value) + SegmentsPages(b).value;
      }
    }
  }

  /** The selection is read segment by segment: the pages of `x,y` are those
      of `x` followed by those of `y`, with no sorting and no removal of
      duplicates. */
  lemma PageNumbersConcat(x: string, y: string)
    ensures PageNumbers(x + [','] + y) == Both(PageNumbers(x), PageNumbers(y))
  {
    SplitConcat(x, ',', y);
    SegmentsPagesConcat(Split(x, ','), Split(y, ','));
  }

  /** A selection without a comma is a single segment. */
  lemma OneSegment(segment: string)
    requires ',' !in segment
    ensures PageNumbers(segment) == SegmentPages(segment)
  {
    assert forall i :: 0 <= i < |segment| ==> segment[i] in segment;
    SplitWithoutSeparator(segment, ',');
    assert [segment][1..] == [];
    assert SegmentsPages([]) == Some([]);
    if SegmentPages(segment).Some? {
      var pages := SegmentPages(segment).value;
      assert SegmentsPages([segment]) == Some(pages + []);
      assert pages + [] == pages;
    }
  }

  /** The digits of a number are one token that reads back as the number. */
  lemma NumberToken(n: u32, sep: char)
    requires !IsDigit(sep)
    ensures sep !in DecimalString(n)
    ensures Split(DecimalString(n), sep) == [DecimalString(n)]
    ensures ParseU32(DecimalString(n)) == Some(n)
  {
    var s := DecimalString(n);
    assert forall i :: 0 <= i < |s| ==> IsDigit(s[i]);
    SplitWithoutSeparator(s, sep);
    ParseU32OfDecimal(n);
  }

  /** A single number selects that page. */
  lemma SinglePage(n: u32)
    ensures PageNumbers(DecimalString(n)) == Some([n])
  {
    NumberToken(n, ',');
    NumberToken(n, '-');
    SingleToken(DecimalString(n), n);
  }

  lemma SingleToken(s: string, n: u32)
    requires ',' !in s && Split(s, '-') == [s] && ParseU32(s) == Some(n)
    ensures PageNumbers(s) == Some([n])
  {
    OneSegment(s);
    assert ParseAll([s]).value == [n];
  }

  /** `a-b` selects a, a+1, ..., b, and nothing when a > b. */
  lemma PageRange(a: u32, b: u32)
    requires b < U32_MAX
    ensures PageNumbers(DecimalString(a) + ['-'] + DecimalString(b)) == Some(Range(a, b + 1))
    ensures a > b ==> PageNumbers(DecimalString(a) + ['-'] + DecimalString(b)) == Some([])
  {
    NumberToken(a, ',');
    NumberToken(b, ',');
    NumberToken(a, '-');
    NumberToken(b, '-');
    RangeTokens(DecimalString(a), DecimalString(b), a, b);
  }

  lemma RangeTokens(s: string, t: string, a: u32, b: u32)
    requires ',' !in s && ',' !in t && b < U32_MAX
    requires Split(s, '-') == [s] && Split(t, '-') == [t]
    requires ParseU32(s) == Some(a) && ParseU32(t) == Some(b)
    ensures PageNumbers(s + ['-'] + t) == Some(Range(a, b + 1))
  {
    var segment := s + ['-'] + t;
    assert ',' !in segment;
    OneSegment(segment);
    SplitConcat(s, '-', t);
    assert [s] + [t] == [s, t];
    PairSegment(segment, s, t, a, b);
  }

  lemma PairSegment(segment: string, s: string, t: string, a: u32, b: u32)
    requires Split(segment, '-') == [s, t] && b < U32_MAX
    requires ParseU32(s) == Some(a) && ParseU32(t) == Some(b)
    ensures SegmentPages(segment) == Some(Range(a, b + 1))
  {
    ParsePair(s, t, a, b);
  }

  /** `a-b-c`, three numbers in one segment, selects nothing (and does
      not fail). */
  lemma ThreeNumbers(a: u32, b: u32, c: u32)
    ensures PageNumbers(DecimalString(a) + (['-'] + (DecimalString(b) + (['-'] + DecimalString(c))))) == Some([])
  {
    NumberToken(a, ',');
    NumberToken(b, ',');
    NumberToken(c, ',');
    NumberToken(a, '-');
    NumberToken(b, '-');
    NumberToken(c, '-');
    ThreeTokens(DecimalString(a), DecimalString(b), DecimalString(c), a, b, c);
  }

  lemma ThreeTokens(s: string, t: string, u: string, a: u32, b: u32, c: u32)
    requires ',' !in s && ',' !in t && ',' !in u
    requires Split(s, '-') == [s] && Split(t, '-') == [t] && Split(u, '-') == [u]
    requires ParseU32(s) == Some(a) && ParseU32(t) == Some(b) && ParseU32(u) == Some(c)
    ensures PageNumbers(s + (['-'] + (t + (['-'] + u)))) == Some([])
  {
    var segment := s + (['-'] + (t + (['-'] + u)));
    assert ',' !in segment;
    OneSegment(segment);
    SplitThree(s, t, u);
    TripleSegment(segment, s, t, u, a, b, c);
  }

  lemma SplitThree(s: string, t: string, u: string)
    requires Split(s, '-') == [s] && Split(t, '-') == [t] && Split(u, '-') == [u]
    ensures Split(s + (['-'] + (t + (['-'] + u))), '-') == [s, t, u]
  {
    var tail := t + (['-'] + u);
    assert Split(tail, '-') == [t, u] by {
      SplitConcat(t, '-', u);
      assert t + ['-'] + u == tail;
    }
    SplitConcat(s, '-', tail);
    assert s + ['-'] + tail == s + (['-'] + tail);
  }

  lemma TripleSegment(segment: string, s: string, t: string, u: string, a: u32, b: u32, c: u32)
    requires Split(segment, '-') == [s, t, u]
    requires ParseU32(s) == Some(a) && ParseU32(t) == Some(b) && ParseU32(u) == Some(c)
    ensures SegmentPages(segment) == Some([])
  {
    ParseTriple(s, t, u, a, b, c);
  }

  lemma ParseTriple(s: string, t: string, u: string, a: u32, b: u32, c: u32)
    requires ParseU32(s) == Some(a) && ParseU32(t) == Some(b) && ParseU32(u) == Some(c)
    ensures ParseAll([s, t, u]) == Some([a, b, c])
  {
    var tokens := [s, t, u];
    assert tokens[1..] == [t, u];
    ParsePair(t, u, b, c);
    assert ParseAll(tokens) == Some([a] + [b, c]);
    assert [a] + [b, c] == [a, b, c];
  }

  /** A segment that is empty, as in `1,,2` or a trailing comma, fails. */
  lemma EmptySegmentFails(x: string, y: string)
    ensures PageNumbers(x + [','] + [','] + y) == None
  {
    var sx := Split(x, ',');
    var sy := Split(y, ',');
    assert x + [','] + [','] + y == x + [','] + ([','] + y);
    SplitConcat(x, ',', [','] + y);
    assert [] + [','] + y == [','] + y;
    SplitConcat([], ',', y);
    SplitWithoutSeparator([], ',');
    SplitWithoutSeparator([], '-');
    assert ParseU32([]) == None;
    var rest: seq<string> := [[]] + sy;
    assert Split(x + [','] + [','] + y, ',') == sx + rest;
    assert SegmentsPages(rest) == None;
    SegmentsPagesConcat(sx, rest);
  }

  /** The `map(u32::from_str(..).unwrap()).collect()` over a segment's pieces. */
  method ParseTokens(tokens: seq<string>) returns (r: Option<seq<u32>>)
    ensures r == ParseAll(tokens)
  {
    var nums: seq<u32> := [];
    for j := 0 to |tokens|
      invariant |nums| == j
      invariant forall k :: 0 <= k < j ==> ParseU32(tokens[k]) == Some(nums[k])
    {
      var n := ParseU32(tokens[j]);
      if n.None? {
        return None;
      }
      nums := nums + [n.value];
    }
    assert ParseAll(tokens).value == nums;
    return Some(nums);
  }

  /** Appends `first..end` one number at a time. */
  method AppendRange(numbers: seq<u32>, first: u32, end: nat) returns (r: seq<u32>)
    requires end <= U32_MAX
    ensures r == numbers + Range(first, end)
  {
    r := numbers;
    var k: nat := first;
    while k < end
      invariant first <= k <= U32_MAX && (first <= end ==> k <= end) && (end < first ==> k == first)
      invariant r == numbers + Range(first, k)
    {
      RangeStep(first, k);
      r := r + [k];
      k := k + 1;
    }
    if end < first {
      assert |Range(first, k)| == 0 == |Range(first, end)|;
    }
  }

  /** The pages of one segment, appended to those read so far. */
  method AppendSegment(numbers: seq<u32>, segment: string) returns (r: Option<seq<u32>>)
    ensures r == Both(Some(numbers), SegmentPages(segment))
  {
    var nums := ParseTokens(Split(segment, '-'));
    if nums.None? {
      return None;
    }
    var values := nums.value;
    if |values| == 1 {
      return Some(numbers + [values[0]]);
    } else if |values| == 2 {
      if values[1] == U32_MAX {
        return None;
      }
      var appended := AppendRange(numbers, values[0], values[1] + 1);
      return Some(appended);
    }
    assert numbers + [] == numbers;
    return Some(numbers);
  }

  /** `compute_page_numbers`, with its loop over segments. */
  method ComputePageNumbers(pages: string) returns (r: Option<seq<u32>>)
    ensures r == PageNumbers(pages)
  {
    var segments := Split(pages, ',');
    var numbers: seq<u32> := [];
    assert segments[0..] == segments;
    BothEmpty(SegmentsPages(segments));
    for i := 0 to |segments|
      invariant SegmentsPages(segments) == Both(Some(numbers), SegmentsPages(segments[i..]))
    {
      SegmentsPagesStep(segments, i);
      BothAssociative(Some(numbers), SegmentPages(segments[i]), SegmentsPages(segments[i + 1..]));
      var next := AppendSegment(numbers, segments[i]);
      if next.None? {
        return None;
      }
      numbers := next.value;
    }
    assert segments[|segments|..] == [];
    assert numbers + [] == numbers;
    return Some(numbers);
  }

  lemma BothEmpty(a: Option<seq<u32>>)
    ensures Both(Some([]), a) == a
  {
    if a.Some? {
      assert [] + a.value == a.value;
    }
  }

  lemma BothAssociative(a: Option<seq<u32>>, b: Option<seq<u32>>, c: Option<seq<u32>>)
    ensures Both(a, Both(b, c)) == Both(Both(a, b), c)
  {
    if a.Some? && b.Some? && c.Some? {
      assert a.value + (b.value + c.value) == (a.value + b.value) + c.value;
    }
  }

  lemma SegmentsPagesStep(segments: seq<string>, i: nat)
    requires i < |segments|
    ensures SegmentsPages(segments[i..]) == Both(SegmentPages(segments[i]), SegmentsPages(segments[i + 1..]))
  {
    assert segments[i..][0] == segments[i] && segments[i..][1..] == segments[i + 1..];
  }

  /** `complement_page_numbers`: the pages from 1 to `total` that are not
      selected, in ascending order. `total + 1` must not overflow. */
  method ComplementPageNumbers(pages: seq<u32>, total: u32) returns (r: seq<u32>)
    requires total < U32_MAX
    ensures forall p :: p in r <==> 1 <= p <= total && p !in pages
    ensures forall i, j :: 0 <= i < j < |r| ==> r[i] < r[j]
    ensures total == 0 ==> r == []
  {
    r := [];
    var page: u32 := 1;
    while page < total + 1
      invariant 1 <= page <= total + 1
      invariant forall p :: p in r <==> 1 <= p < page && p !in pages
      invariant forall i, j :: 0 <= i < j < |r| ==> r[i] < r[j]
      invariant forall i :: 0 <= i < |r| ==> r[i] < page
      invariant |r| < page
    {
      if page !in pages {
        r := r + [page];
      }
      page := page + 1;
    }
  }
}
