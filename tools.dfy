/**
  The document operations of tools.py: merging PDFs, splitting one PDF by a
  page count or by 1-based page ranges into a zip of PDFs, compressing by
  re-rendering every page at a lower resolution, and rendering every page to
  its own JPEG file in a zip. Each operation is a method with the loops of the
  source, proved against a function that says what it computes; the lemmas
  state what those functions guarantee.

  A PDF input is modelled as its already-opened `Document`; output paths,
  which the source draws from `uuid4`, are fresh names and not modelled; an
  archive is the map from file name to content of the directory it zips.
*/
module Tools {
  import opened Wrappers
  import opened PyStr
  import opened Pdf

  function Min(a: int, b: int): int { if a <= b then a else b }

  function Max(a: int, b: int): int { if a >= b then a else b }

  // =================================================================== merge

  /** `merge_pdfs`: every input document appended in turn. */
  method MergePdfs(docs: seq<Document>) returns (merged: Document)
    ensures merged == Concat(docs)
  {
    merged := [];
    for i := 0 to |docs|
      invariant merged == Concat(docs[..i])
    {
      ConcatAppend(docs[..i], docs[i]);
      assert docs[..i + 1] == docs[..i] + [docs[i]];
      merged := merged + docs[i];
    }
    assert docs[..|docs|] == docs;
  }

  /** The merged document has as many pages as its inputs together, and page
      `t` of input `j` sits after all pages of the inputs before `j`. */
  lemma {:induction false} MergedPageAt(docs: seq<Document>, j: nat, t: nat)
    requires j < |docs| && t < |docs[j]|
    ensures |Concat(docs)| == TotalPages(docs)
    ensures TotalPages(docs[..j]) + t < |Concat(docs)|
    ensures Concat(docs)[TotalPages(docs[..j]) + t] == docs[j][t]
    decreases j
  {
    ConcatLength(docs);
    if j > 0 {
      MergedPageAt(docs[1..], j - 1, t);
      assert docs[1..][j - 1] == docs[j];
      assert docs[..j][1..] == docs[1..][..j - 1];
      assert docs[..j][0] == docs[0];
    } else {
      assert docs[..0] == [];
    }
  }

  lemma {:induction false} ConcatLength(docs: seq<Document>)
    ensures |Concat(docs)| == TotalPages(docs)
    decreases |docs|
  {
    if |docs| > 0 {
      ConcatLength(docs[1..]);
    }
  }

  /** Merging single-page documents: page `i` of the result is input `i`'s page. */
  lemma {:induction false} MergeSinglePages(docs: seq<Document>)
    requires forall i :: 0 <= i < |docs| ==> |docs[i]| == 1
    ensures |Concat(docs)| == |docs|
    ensures forall i :: 0 <= i < |docs| ==> Concat(docs)[i] == docs[i][0]
    decreases |docs|
  {
    if |docs| > 0 {
      MergeSinglePages(docs[1..]);
      forall i | 0 < i < |docs| ensures Concat(docs)[i] == docs[i][0] {
        assert docs[1..][i - 1] == docs[i];
      }
    }
  }

  // =================================================================== split

  /** Why `split_pdf` raises. In Python each of these is a `ValueError`. */
  datatype SplitError =
    | MissingSplitValue(splitType: string)  // "split_value required for '<splitType>'"
    | InvalidSplitType                      // "Invalid split_type, must be 'pages' or 'ranges'"
    | NotAnInteger(text: string)            // `int()` of a string that is no integer
    | MalformedRange(token: string)         // a token that is not two pieces around one "-"
    | ZeroStep                              // `range()` with a step of 0

  /** The file name `pages_{first}_to_{last}.pdf` of a part. */
  function PartName(first: int, last: int): string
  {
    "pages_" + IntToString(first) + "_to_" + IntToString(last) + ".pdf"
  }

  /** Two parts have the same file name exactly when their two numbers agree. */
  lemma PartNameInjective(a: int, b: int, c: int, d: int)
    ensures PartName(a, b) == PartName(c, d) <==> a == c && b == d
  {
    if PartName(a, b) == PartName(c, d) {
      IntToStringDigits(a);
      IntToStringDigits(c);
      SeparatedEqual("pages_", IntToString(a), "_to_", IntToString(b), ".pdf", IntToString(c), IntToString(d));
      IntToStringInjective(a, c);
      IntToStringInjective(b, d);
    }
  }

  // ------------------------------------------------------------ ranges and parts

  /** The pages of the 1-based range `first..last`: the 0-based pages `i` with
      `first - 1 <= i < last` that exist in the document, in order; pages
      outside the document are dropped rather than rejected. */
  function RangePages(doc: Document, first: int, last: int): Document
  {
    var lo := Max(first - 1, 0);
    var hi := Min(last, |doc|);
    if lo < hi then doc[lo..hi] else []
  }

  /** Clamping, not rejecting: a range gives the same pages as the range cut
      down to `1..n`, and it is empty exactly when that cut range is. */
  lemma RangePagesClamp(doc: Document, first: int, last: int)
    ensures RangePages(doc, first, last) == RangePages(doc, Max(first, 1), Min(last, |doc|))
    ensures RangePages(doc, first, last) == [] <==> Max(first, 1) > Min(last, |doc|)
    ensures 1 <= first <= last <= |doc| ==> RangePages(doc, first, last) == doc[first - 1..last]
    ensures |RangePages(doc, first, last)| <= |doc|
  {
  }

  /** The part a range `first-last` produces. */
  function RangePart(doc: Document, range: (int, int)): Part
  {
    Part(PartName(range.0, range.1), RangePages(doc, range.0, range.1))
  }

  /** One part per range, in order, including the empty ones. */
  function RangeParts(doc: Document, ranges: seq<(int, int)>): (parts: seq<Part>)
    ensures |parts| == |ranges|
    ensures forall j :: 0 <= j < |ranges| ==> parts[j] == RangePart(doc, ranges[j])
  {
    seq(|ranges|, j requires 0 <= j < |ranges| => RangePart(doc, ranges[j]))
  }

  /** One range token: split at `-` into exactly two pieces, each read with
      `int()`; a token with any other number of dashes, or a piece that is
      not a number, is an error. */
  function ParseRange(token: string): (r: Result<(int, int), SplitError>)
    ensures r.Ok? ==> r.value.0 >= 0 && r.value.1 >= 0
  {
    var ends := Split(token, '-');
    SplitPieces(token, '-');
    if |ends| != 2 then Err(MalformedRange(token))
    else match ParseInt(ends[0])
      case None => Err(NotAnInteger(ends[0]))
      case Some(first) =>
        match ParseInt(ends[1])
        case None => Err(NotAnInteger(ends[1]))
        case Some(last) => Ok((first, last))
  }

  /** The ranges of the tokens, or the error of the first token that fails. */
  function ParseTokens(tokens: seq<string>): Result<seq<(int, int)>, SplitError>
    decreases |tokens|
  {
    if |tokens| == 0 then Ok([])
    else match ParseTokens(tokens[..|tokens| - 1])
      case Err(e) => Err(e)
      case Ok(ranges) =>
        match ParseRange(tokens[|tokens| - 1])
        case Err(e) => Err(e)
        case Ok(range) => Ok(ranges + [range])
  }

  /** The comma-separated `a-b` list of ranges mode. */
  function ParseRanges(value: string): Result<seq<(int, int)>, SplitError>
  {
    ParseTokens(Split(value, ','))
  }

  lemma {:induction false} ParseTokensKeepsError(tokens: seq<string>, m: nat)
    requires m <= |tokens| && ParseTokens(tokens[..m]).Err?
    ensures ParseTokens(tokens) == ParseTokens(tokens[..m])
    decreases |tokens| - m
  {
    if m < |tokens| {
      assert tokens[..m + 1][..m] == tokens[..m];
      ParseTokensKeepsError(tokens, m + 1);
    } else {
      assert tokens[..m] == tokens;
    }
  }

  // ------------------------------------------------------------ by page count

  /** The ranges of page-count mode on `n` pages from the 0-based page `start`
      on: the 1-based range `start+1 .. min(start+k, n)`, then the same from
      `start + k`, as the loop over `range(start, n, k)` visits them. Page-count
      mode yields the parts ranges mode would yield for these ranges. */
  function CountRanges(n: nat, k: nat, start: nat): seq<(int, int)>
    requires k > 0
    decreases n - start
  {
    if start >= n then []
    else [(start + 1, Min(start + k, n))] + CountRanges(n, k, start + k)
  }

  /** The ranges of page-count mode lie within `start + 1 .. n` in increasing
      order; each has at most `k` pages, every one but the last exactly `k`, and
      the last one ends at page `n`. */
  lemma {:induction false} CountRangesShape(n: nat, k: nat, start: nat)
    requires k > 0
    ensures var ranges := CountRanges(n, k, start);
      && (|ranges| == 0 <==> start >= n)
      && (forall j :: 0 <= j < |ranges| ==> start + 1 <= ranges[j].0 <= ranges[j].1 <= n)
      && (forall j :: 0 <= j < |ranges| ==> ranges[j].1 - ranges[j].0 < k)
      && (forall j :: 0 <= j < |ranges| - 1 ==> ranges[j].1 == ranges[j].0 + k - 1)
      && (forall i, j :: 0 <= i < j < |ranges| ==> ranges[i].1 < ranges[j].0)
      && (|ranges| > 0 ==> ranges[0].0 == start + 1 && ranges[|ranges| - 1].1 == n)
    decreases n - start
  {
    if start < n {
      CountRangesShape(n, k, start + k);
      var rest := CountRanges(n, k, start + k);
      var head := (start + 1, Min(start + k, n));
      assert |rest| > 0 ==> head.1 == start + k && rest[0].0 == start + k + 1;
      var ranges := [head] + rest;
      assert CountRanges(n, k, start) == ranges;
      assert forall j :: 0 < j < |ranges| ==> ranges[j] == rest[j - 1];
    }
  }

  /** The parts of page-count mode: groups of `k` consecutive pages, the last
      one possibly shorter, each named by its 1-based first and last page. */
  function CountParts(doc: Document, k: nat): seq<Part>
    requires k > 0
  {
    RangeParts(doc, CountRanges(|doc|, k, 0))
  }

  lemma MulAtLeast(d: int, k: int)
    requires d >= 1 && k > 0
    ensures d * k >= k
  {
  }

  lemma DivUnique(x: int, k: int, q: int)
    requires k > 0 && q * k <= x < q * k + k
    ensures x / k == q
  {
    var d := x / k - q;
    assert d * k == (x / k) * k - q * k;
    if d >= 1 {
      MulAtLeast(d, k);
    }
    if d <= -1 {
      MulAtLeast(-d, k);
    }
  }

  /** `ceil(m / k)`, written `(m + k - 1) / k`, at 0, up to `k`, and one step of `k` further. */
  lemma CeilSteps(m: int, k: int)
    requires k > 0 && m >= 0
    ensures m == 0 ==> (m + k - 1) / k == 0
    ensures 0 < m <= k ==> (m + k - 1) / k == 1
    ensures m > k ==> (m + k - 1) / k == (m - k + k - 1) / k + 1
  {
    DivUnique(k - 1, k, 0);
    if 0 < m <= k {
      DivUnique(m + k - 1, k, 1);
    }
    if m > k {
      var c := (m - 1) / k;
      assert c * k <= m - 1 < c * k + k;
      assert (c + 1) * k == c * k + k;
      DivUnique(m - 1 + k, k, c + 1);
    }
  }

  /** Page-count mode on `n` pages from `start` on has `ceil((n - start) / k)` ranges. */
  lemma {:induction false} CountRangesLength(n: nat, k: nat, start: nat)
    requires k > 0
    ensures |CountRanges(n, k, start)| == (Max(n - start, 0) + k - 1) / k
    decreases n - start
  {
    var m := Max(n - start, 0);
    CeilSteps(m, k);
    if start < n {
      CountRangesLength(n, k, start + k);
      assert Max(n - (start + k), 0) == if m > k then m - k else 0;
    }
  }

  lemma CountRangesHead(n: nat, k: nat, start: nat)
    requires k > 0 && 0 < |CountRanges(n, k, start)|
    ensures CountRanges(n, k, start)[0] == (start + 1, Min(start + k, n))
  {
  }

  lemma CountRangesTail(n: nat, k: nat, start: nat, j: nat)
    requires k > 0 && 0 < j < |CountRanges(n, k, start)|
    ensures CountRanges(n, k, start)[j] == CountRanges(n, k, start + k)[j - 1]
  {
  }

  lemma MulSucc(j: int, k: int)
    ensures (j + 1) * k == j * k + k
  {
  }

  lemma ShiftByMultiple(start: int, k: int, j: int)
    requires j > 0
    ensures start + k + (j - 1) * k == start + j * k
  {
    MulSucc(j - 1, k);
  }

  /** Range `j` of page-count mode starts at the 1-based page `start + j*k + 1`. */
  lemma {:induction false} CountRangeStart(n: nat, k: nat, start: nat, j: nat)
    requires k > 0 && j < |CountRanges(n, k, start)|
    ensures CountRanges(n, k, start)[j].0 == start + j * k + 1
    decreases j
  {
    if j == 0 {
      CountRangesHead(n, k, start);
    } else {
      CountRangesTail(n, k, start, j);
      CountRangeStart(n, k, start + k, j - 1);
      ShiftByMultiple(start, k, j);
    }
  }

  /** Every range of page-count mode runs for `k` pages or up to the last page. */
  lemma CountRangeEnd(n: nat, k: nat, start: nat, j: nat)
    requires k > 0 && j < |CountRanges(n, k, start)|
    ensures CountRanges(n, k, start)[j].1 == Min(CountRanges(n, k, start)[j].0 + k - 1, n)
  {
    CountRangesShape(n, k, start);
  }

  /** Range `j` of page-count mode covers the 1-based pages `start + j*k + 1`
      to `min(start + j*k + k, n)`. */
  lemma CountRangeAt(n: nat, k: nat, start: nat, j: nat)
    requires k > 0 && j < |CountRanges(n, k, start)|
    ensures CountRanges(n, k, start)[j] == (start + j * k + 1, Min(start + j * k + k, n))
  {
    CountRangeStart(n, k, start, j);
    CountRangeEnd(n, k, start, j);
  }

  lemma CountRangesLengthFromZero(n: nat, k: nat)
    requires k > 0
    ensures |CountRanges(n, k, 0)| == (n + k - 1) / k
  {
    CountRangesLength(n, k, 0);
    assert Max(n - 0, 0) == n;
  }

  lemma CountPartsPerRange(doc: Document, k: nat)
    requires k > 0
    ensures |CountParts(doc, k)| == |CountRanges(|doc|, k, 0)|
  {
  }

  lemma CountPartIsRangePart(doc: Document, k: nat, j: nat)
    requires k > 0 && j < |CountParts(doc, k)|
    ensures j < |CountRanges(|doc|, k, 0)|
    ensures CountParts(doc, k)[j] == RangePart(doc, CountRanges(|doc|, k, 0)[j])
  {
  }

  lemma CountRangeFrom(doc: Document, k: nat, j: nat, lo: nat)
    requires k > 0 && j < |CountRanges(|doc|, k, 0)| && lo == j * k
    ensures CountRanges(|doc|, k, 0)[j] == (lo + 1, Min(lo + k, |doc|))
    ensures lo + 1 <= Min(lo + k, |doc|) <= |doc|
  {
    CountRangeAt(|doc|, k, 0, j);
    CountRangesShape(|doc|, k, 0);
  }

  /** Page-count mode on `n` pages yields `ceil(n / k)` parts. */
  lemma CountPartsLength(doc: Document, k: nat)
    requires k > 0
    ensures |CountParts(doc, k)| == (|doc| + k - 1) / k
  {
    CountRangesLengthFromZero(|doc|, k);
    CountPartsPerRange(doc, k);
  }

  /** The part of a range inside the document holds exactly its pages. */
  lemma RangePartInside(doc: Document, range: (int, int))
    requires 1 <= range.0 <= range.1 <= |doc|
    ensures RangePart(doc, range) == Part(PartName(range.0, range.1), doc[range.0 - 1..range.1])
  {
  }

  /** Part `j` of page-count mode holds the 0-based pages `[lo, min(lo + k, n))`
      with `lo == j*k`, and is named after them, 1-based. */
  lemma CountPartAt(doc: Document, k: nat, j: nat, lo: nat)
    requires k > 0 && j < |CountParts(doc, k)| && lo == j * k
    ensures lo < |doc|
    ensures CountParts(doc, k)[j] == Part(PartName(lo + 1, Min(lo + k, |doc|)), doc[lo..Min(lo + k, |doc|)])
  {
    CountPartIsRangePart(doc, k, j);
    CountRangeFrom(doc, k, j, lo);
    RangePartInside(doc, (lo + 1, Min(lo + k, |doc|)));
  }

  lemma CountPartLength(doc: Document, k: nat, j: nat)
    requires k > 0 && j < |CountParts(doc, k)|
    ensures var range := CountRanges(|doc|, k, 0)[j];
      |CountParts(doc, k)[j].pages| == range.1 - range.0 + 1
  {
    CountPartIsRangePart(doc, k, j);
    CountRangesShape(|doc|, k, 0);
  }

  /** Every part but the last has exactly `k` pages; the last has 1 to `k`. */
  lemma CountPartSizes(doc: Document, k: nat)
    requires k > 0
    ensures var parts := CountParts(doc, k);
      && (forall j :: 0 <= j < |parts| - 1 ==> |parts[j].pages| == k)
      && (|parts| > 0 ==> 1 <= |parts[|parts| - 1].pages| <= k)
  {
    var parts := CountParts(doc, k);
    CountPartsPerRange(doc, k);
    CountRangesShape(|doc|, k, 0);
    forall j | 0 <= j < |parts| ensures |parts[j].pages| == CountRanges(|doc|, k, 0)[j].1 - CountRanges(|doc|, k, 0)[j].0 + 1 {
      CountPartLength(doc, k, j);
    }
  }

  /** The parts of a list of ranges headed by `range`. */
  lemma RangePartsCons(doc: Document, range: (int, int), ranges: seq<(int, int)>)
    ensures RangeParts(doc, [range] + ranges) == [RangePart(doc, range)] + RangeParts(doc, ranges)
  {
    var l, r := RangeParts(doc, [range] + ranges), [RangePart(doc, range)] + RangeParts(doc, ranges);
    forall j | 0 <= j < |l| ensures l[j] == r[j] {
      if j > 0 {
        assert ([range] + ranges)[j] == ranges[j - 1];
      }
    }
  }

  lemma CountRangesUnfold(n: nat, k: nat, start: nat)
    requires k > 0 && start < n
    ensures CountRanges(n, k, start) == [(start + 1, Min(start + k, n))] + CountRanges(n, k, start + k)
  {
  }

  /** The pages of each range, in order. */
  function RangesPages(doc: Document, ranges: seq<(int, int)>): (docs: seq<Document>)
    ensures |docs| == |ranges|
    ensures forall j :: 0 <= j < |ranges| ==> docs[j] == RangePages(doc, ranges[j].0, ranges[j].1)
  {
    seq(|ranges|, j requires 0 <= j < |ranges| => RangePages(doc, ranges[j].0, ranges[j].1))
  }

  lemma PagesOfRangeParts(doc: Document, ranges: seq<(int, int)>)
    ensures PagesOf(RangeParts(doc, ranges)) == RangesPages(doc, ranges)
  {
  }

  lemma RangesPagesCons(doc: Document, range: (int, int), ranges: seq<(int, int)>)
    ensures RangesPages(doc, [range] + ranges) == [RangePages(doc, range.0, range.1)] + RangesPages(doc, ranges)
  {
    var l, r := RangesPages(doc, [range] + ranges), [RangePages(doc, range.0, range.1)] + RangesPages(doc, ranges);
    forall j | 0 <= j < |l| ensures l[j] == r[j] {
      if j > 0 {
        assert ([range] + ranges)[j] == ranges[j - 1];
      }
    }
  }

  lemma CountPagesStep(doc: Document, k: nat, start: nat)
    requires k > 0 && start < |doc|
    ensures Concat(RangesPages(doc, CountRanges(|doc|, k, start)))
      == doc[start..Min(start + k, |doc|)] + Concat(RangesPages(doc, CountRanges(|doc|, k, start + k)))
  {
    var end := Min(start + k, |doc|);
    var rest := CountRanges(|doc|, k, start + k);
    CountRangesUnfold(|doc|, k, start);
    RangesPagesCons(doc, (start + 1, end), rest);
    ConcatCons(RangePages(doc, start + 1, end), RangesPages(doc, rest));
  }

  lemma CountPagesPastEnd(doc: Document, k: nat, start: nat)
    requires k > 0 && start >= |doc|
    ensures Concat(RangesPages(doc, CountRanges(|doc|, k, start))) == []
  {
  }

  lemma {:induction false} CountPagesReassemble(doc: Document, k: nat, start: nat)
    requires k > 0 && start <= |doc|
    ensures Concat(RangesPages(doc, CountRanges(|doc|, k, start))) == doc[start..]
    decreases |doc| - start
  {
    if start < |doc| {
      var end := Min(start + k, |doc|);
      CountPagesStep(doc, k, start);
      if start + k < |doc| {
        CountPagesReassemble(doc, k, start + k);
        assert doc[start..] == doc[start..end] + doc[start + k..];
      } else {
        CountPagesPastEnd(doc, k, start + k);
        assert doc[start..] == doc[start..end] + [];
      }
    }
  }

  /** The parts, put back together in order, are the document. */
  lemma CountPartsReassemble(doc: Document, k: nat)
    requires k > 0
    ensures Concat(PagesOf(CountParts(doc, k))) == doc
  {
    PagesOfRangeParts(doc, CountRanges(|doc|, k, 0));
    CountPagesReassemble(doc, k, 0);
    assert doc[0..] == doc;
  }

  /** No two parts of page-count mode share a file name, so the archive holds
      each part under its own name. */
  lemma CountArchive(doc: Document, k: nat)
    requires k > 0
    ensures var parts := CountParts(doc, k);
      && |ArchiveOf(parts)| == |parts|
      && forall j :: 0 <= j < |parts| ==> parts[j].name in ArchiveOf(parts) && ArchiveOf(parts)[parts[j].name] == parts[j].pages
  {
    var ranges := CountRanges(|doc|, k, 0);
    CountRangesShape(|doc|, k, 0);
    var files := PartFiles(CountParts(doc, k));
    forall i, j | 0 <= i < j < |files| ensures files[i].0 != files[j].0 {
      PartNameInjective(ranges[i].0, ranges[i].1, ranges[j].0, ranges[j].1);
    }
    DirectoryOfDistinctNames(files);
  }

  /** The inner loop of page-count mode: pages `start` to `end - 1` are added to a new writer one by one. */
  method CopyPages(doc: Document, start: nat, end: nat) returns (pages: Document)
    requires start <= end <= |doc|
    ensures pages == doc[start..end]
  {
    pages := [];
    for i := start to end
      invariant pages == doc[start..i]
    {
      pages := pages + [doc[i]];
    }
  }

  /** The page-count loop of `split_pdf`: one part per `range(0, n, k)` start. */
  method SplitByCount(doc: Document, k: int) returns (parts: seq<Part>)
    requires k != 0
    ensures parts == if k > 0 then CountParts(doc, k) else []
  {
    parts := [];
    if k < 0 {
      // range(0, n, k) with a negative step and n >= 0 is empty
      return;
    }
    var start := 0;
    while start < |doc|
      invariant parts + RangeParts(doc, CountRanges(|doc|, k, start)) == CountParts(doc, k)
      decreases |doc| - start
    {
      var end := Min(start + k, |doc|);
      var pages := CopyPages(doc, start, end);
      RangePartsCons(doc, (start + 1, end), CountRanges(|doc|, k, start + k));
      parts := parts + [Part(PartName(start + 1, end), pages)];
      start := start + k;
    }
  }

  // ------------------------------------------------------------ by page ranges

  /** `range(start, end)` filtered to the pages that exist. */
  method CopyRange(doc: Document, start: int, end: int) returns (pages: Document)
    ensures pages == RangePages(doc, start + 1, end)
  {
    pages := [];
    var i := start;
    while i < end
      invariant start <= i && (i <= end || i == start)
      invariant pages == RangePages(doc, start + 1, i)
      decreases end - i
    {
      if 0 <= i < |doc| {
        pages := pages + [doc[i]];
      }
      i := i + 1;
    }
  }

  /** One more token: its range is appended, or its error ends the parse. */
  lemma ParseTokensStep(tokens: seq<string>, j: nat, ranges: seq<(int, int)>)
    requires j < |tokens| && ParseTokens(tokens[..j]) == Ok(ranges)
    ensures ParseTokens(tokens[..j + 1]) == match ParseRange(tokens[j])
      case Ok(range) => Ok(ranges + [range])
      case Err(e) => Err(e)
  {
    assert tokens[..j + 1][..j] == tokens[..j];
  }

  lemma ParseTokensStepOk(tokens: seq<string>, j: nat, ranges: seq<(int, int)>, range: (int, int))
    requires j < |tokens| && ParseTokens(tokens[..j]) == Ok(ranges) && ParseRange(tokens[j]) == Ok(range)
    ensures ParseTokens(tokens[..j + 1]) == Ok(ranges + [range])
  {
    ParseTokensStep(tokens, j, ranges);
  }

  lemma RangePartsSnoc(doc: Document, ranges: seq<(int, int)>, range: (int, int))
    ensures RangeParts(doc, ranges + [range]) == RangeParts(doc, ranges) + [RangePart(doc, range)]
  {
    var l, r := RangeParts(doc, ranges + [range]), RangeParts(doc, ranges) + [RangePart(doc, range)];
    forall j | 0 <= j < |l| ensures l[j] == r[j] {
      if j < |ranges| {
        assert (ranges + [range])[j] == ranges[j];
      }
    }
  }

  /** The ranges loop of `split_pdf`: one part per token, stopping with the
      first token that fails to parse. */
  method SplitByRanges(doc: Document, value: string) returns (r: Result<seq<Part>, SplitError>)
    ensures r == match ParseRanges(value)
      case Ok(ranges) => Ok(RangeParts(doc, ranges))
      case Err(e) => Err(e)
  {
    var tokens := Split(value, ',');
    var parts: seq<Part> := [];
    ghost var ranges: seq<(int, int)> := [];
    for j := 0 to |tokens|
      invariant ParseTokens(tokens[..j]) == Ok(ranges)
      invariant parts == RangeParts(doc, ranges)
    {
      ParseTokensStep(tokens, j, ranges);
      var range := ParseRange(tokens[j]);
      if range.Err? {
        ParseTokensKeepsError(tokens, j + 1);
        return Err(range.error);
      }
      var first, last := range.value.0, range.value.1;
      var pages := CopyRange(doc, first - 1, last);
      RangePartsSnoc(doc, ranges, (first, last));
      parts := parts + [Part(PartName(first, last), pages)];
      ranges := ranges + [(first, last)];
    }
    assert tokens[..|tokens|] == tokens;
    r := Ok(parts);
  }

  /** `"a-b"` for a range of natural numbers, as a user writes it. */
  function FormatRange(range: (nat, nat)): string
  {
    NatToString(range.0) + "-" + NatToString(range.1)
  }

  /** The tokens of ranges written out one by one. */
  function FormatTokens(ranges: seq<(nat, nat)>): (tokens: seq<string>)
    ensures |tokens| == |ranges|
    ensures forall j :: 0 <= j < |ranges| ==> tokens[j] == FormatRange(ranges[j])
  {
    seq(|ranges|, j requires 0 <= j < |ranges| => FormatRange(ranges[j]))
  }

  /** Ranges written as the comma-separated list ranges mode expects. */
  function FormatRanges(ranges: seq<(nat, nat)>): string
  {
    Join(FormatTokens(ranges), ',')
  }

  lemma ParseRangeOfFormat(range: (nat, nat))
    ensures ParseRange(FormatRange(range)) == Ok((range.0 as int, range.1 as int))
  {
    var a, b := NatToString(range.0), NatToString(range.1);
    NatToStringPlain(range.0);
    NatToStringPlain(range.1);
    SplitAtFirstSeparator(a, b, '-');
    SplitWithoutSeparator(b, '-');
    assert Split(FormatRange(range), '-') == [a, b];
    ParseIntOfNatToString(range.0);
    ParseIntOfNatToString(range.1);
  }

  lemma TakeSnoc<T>(s: seq<T>, m: nat)
    requires 0 < m <= |s|
    ensures s[..m - 1] + [s[m - 1]] == s[..m]
    ensures s[..m - 1 + 1] == s[..m]
  {
  }

  /** Tokens that each parse give, on every prefix, the list of their ranges. */
  lemma {:induction false} ParseTokensPrefixOk(tokens: seq<string>, ranges: seq<(int, int)>, m: nat)
    requires |tokens| == |ranges| && m <= |tokens|
    requires forall j {:trigger ParseRange(tokens[j])} :: 0 <= j < |tokens| ==> ParseRange(tokens[j]) == Ok(ranges[j])
    ensures ParseTokens(tokens[..m]) == Ok(ranges[..m])
    decreases m
  {
    if m == 0 {
      assert tokens[..0] == [] && ranges[..0] == [];
    } else {
      ParseTokensPrefixOk(tokens, ranges, m - 1);
      ParseTokensStepOk(tokens, m - 1, ranges[..m - 1], ranges[m - 1]);
      TakeSnoc(ranges, m);
      TakeSnoc(tokens, m);
    }
  }

  /** Tokens that each parse give the list of their ranges. */
  lemma ParseTokensAllOk(tokens: seq<string>, ranges: seq<(int, int)>)
    requires |tokens| == |ranges|
    requires forall j {:trigger ParseRange(tokens[j])} :: 0 <= j < |tokens| ==> ParseRange(tokens[j]) == Ok(ranges[j])
    ensures ParseTokens(tokens) == Ok(ranges)
  {
    ParseTokensPrefixOk(tokens, ranges, |tokens|);
    assert tokens[..|tokens|] == tokens && ranges[..|ranges|] == ranges;
  }

  lemma ParseTokensOfFormat(ranges: seq<(nat, nat)>)
    ensures ParseTokens(FormatTokens(ranges)) == Ok(ranges)
  {
    var tokens := FormatTokens(ranges);
    forall j | 0 <= j < |tokens| ensures ParseRange(tokens[j]) == Ok(ranges[j]) {
      ParseRangeOfFormat(ranges[j]);
    }
    ParseTokensAllOk(tokens, ranges);
  }

  lemma FormatTokensHaveNoComma(ranges: seq<(nat, nat)>)
    ensures forall j :: 0 <= j < |ranges| ==> ',' !in FormatTokens(ranges)[j]
  {
    forall j | 0 <= j < |ranges| ensures ',' !in FormatTokens(ranges)[j] {
      var a, b := NatToString(ranges[j].0), NatToString(ranges[j].1);
      NatToStringPlain(ranges[j].0);
      NatToStringPlain(ranges[j].1);
      assert FormatTokens(ranges)[j] == a + "-" + b;
    }
  }

  /** Parsing a written-out, non-empty list of ranges gives back the ranges. */
  lemma ParseRangesOfFormat(ranges: seq<(nat, nat)>)
    requires |ranges| >= 1
    ensures ParseRanges(FormatRanges(ranges)) == Ok(ranges)
  {
    FormatTokensHaveNoComma(ranges);
    SplitJoin(FormatTokens(ranges), ',');
    ParseTokensOfFormat(ranges);
  }

  /** A token without exactly one "-" is rejected, whatever surrounds it. */
  lemma MalformedTokenRejected(token: string)
    requires multiset(token)['-'] != 1
    ensures ParseRange(token) == Err(MalformedRange(token))
  {
    SplitPieces(token, '-');
  }

  /** Parts of equal names have equal pages, as a name determines its range. */
  lemma RangeFilesConsistent(doc: Document, ranges: seq<(int, int)>)
    ensures var files := PartFiles(RangeParts(doc, ranges));
      forall i, j :: 0 <= i < |files| && 0 <= j < |files| && files[i].0 == files[j].0 ==> files[i].1 == files[j].1
  {
    var files := PartFiles(RangeParts(doc, ranges));
    forall i, j | 0 <= i < |files| && 0 <= j < |files| && files[i].0 == files[j].0
      ensures files[i].1 == files[j].1
    {
      PartNameInjective(ranges[i].0, ranges[i].1, ranges[j].0, ranges[j].1);
    }
  }

  lemma RangeArchiveValues(doc: Document, ranges: seq<(int, int)>)
    ensures var archive := ArchiveOf(RangeParts(doc, ranges));
      forall j :: 0 <= j < |ranges| ==>
        PartName(ranges[j].0, ranges[j].1) in archive && archive[PartName(ranges[j].0, ranges[j].1)] == RangePages(doc, ranges[j].0, ranges[j].1)
  {
    var files := PartFiles(RangeParts(doc, ranges));
    RangeFilesConsistent(doc, ranges);
    DirectoryOfConsistentFiles(files);
    forall j | 0 <= j < |ranges|
      ensures files[j] == (PartName(ranges[j].0, ranges[j].1), RangePages(doc, ranges[j].0, ranges[j].1))
    {
    }
  }

  lemma RangeArchiveKeys(doc: Document, ranges: seq<(int, int)>)
    ensures ArchiveOf(RangeParts(doc, ranges)).Keys == (set j | 0 <= j < |ranges| :: PartName(ranges[j].0, ranges[j].1))
  {
    var files := PartFiles(RangeParts(doc, ranges));
    DirectoryNames(files);
    var written := set j | 0 <= j < |files| :: files[j].0;
    var names := set j | 0 <= j < |ranges| :: PartName(ranges[j].0, ranges[j].1);
    assert names <= written by {
      forall j | 0 <= j < |ranges| ensures PartName(ranges[j].0, ranges[j].1) in written {
        assert files[j].0 == PartName(ranges[j].0, ranges[j].1);
      }
    }
    assert written <= names by {
      forall j | 0 <= j < |files| ensures files[j].0 in names {
        assert files[j].0 == PartName(ranges[j].0, ranges[j].1);
      }
    }
  }

  /** The archive of ranges mode holds one file per distinct range: parts of
      equal ranges share a name and overwrite one another with equal pages. */
  lemma RangeArchive(doc: Document, ranges: seq<(int, int)>)
    ensures var archive := ArchiveOf(RangeParts(doc, ranges));
      && archive.Keys == (set j | 0 <= j < |ranges| :: PartName(ranges[j].0, ranges[j].1))
      && forall j :: 0 <= j < |ranges| ==> archive[PartName(ranges[j].0, ranges[j].1)] == RangePages(doc, ranges[j].0, ranges[j].1)
  {
    RangeArchiveKeys(doc, ranges);
    RangeArchiveValues(doc, ranges);
  }

  /** Writing the same content whenever a name repeats leaves each name with that content. */
  lemma {:induction false} DirectoryOfConsistentFiles<T>(files: seq<(string, T)>)
    requires forall i, j :: 0 <= i < |files| && 0 <= j < |files| && files[i].0 == files[j].0 ==> files[i].1 == files[j].1
    ensures forall j :: 0 <= j < |files| ==> files[j].0 in Directory(files) && Directory(files)[files[j].0] == files[j].1
    decreases |files|
  {
    if |files| > 0 {
      var init := files[..|files| - 1];
      forall i, j | 0 <= i < |init| && 0 <= j < |init| && init[i].0 == init[j].0 ensures init[i].1 == init[j].1 {
        assert init[i] == files[i] && init[j] == files[j];
      }
      DirectoryOfConsistentFiles(init);
      forall j | 0 <= j < |files| ensures files[j].0 in Directory(files) && Directory(files)[files[j].0] == files[j].1 {
        if j < |init| {
          assert init[j] == files[j];
        }
      }
    }
  }

  /** Two tokens of the same range give a single archive entry. */
  lemma RepeatedRangeOneEntry(doc: Document, range: (int, int))
    ensures ArchiveOf(RangeParts(doc, [range, range]))
      == map[PartName(range.0, range.1) := RangePages(doc, range.0, range.1)]
  {
    var p := RangePart(doc, range);
    var f: (string, Document) := (p.name, p.pages);
    assert RangeParts(doc, [range, range]) == [p, p];
    assert PartFiles([p, p]) == [f, f];
    assert [f, f][..1] == [f];
    assert Directory([f]) == Directory([f][..0])[f.0 := f.1];
    assert Directory([f, f]) == Directory([f])[f.0 := f.1];
  }

  // ------------------------------------------------------------ split_pdf

  /** What `split_pdf` writes, as its list of parts, or why it raises. */
  function SplitParts(doc: Document, splitType: Option<string>, splitValue: Option<string>): (r: Result<seq<Part>, SplitError>)
    ensures splitType != Some("pages") && splitType != Some("ranges") ==> r == Err(InvalidSplitType)
    ensures (splitType == Some("pages") || splitType == Some("ranges")) && (splitValue == None || splitValue == Some(""))
      ==> r == Err(MissingSplitValue(splitType.value))
  {
    if splitType == Some("pages") then
      if splitValue == None || splitValue == Some("") then Err(MissingSplitValue("pages"))
      else match ParseInt(splitValue.value)
        case None => Err(NotAnInteger(splitValue.value))
        case Some(k) =>
          if k == 0 then Err(ZeroStep)
          else if k < 0 then Ok([])
          else Ok(CountParts(doc, k))
    else if splitType == Some("ranges") then
      if splitValue == None || splitValue == Some("") then Err(MissingSplitValue("ranges"))
      else match ParseRanges(splitValue.value)
        case Err(e) => Err(e)
        case Ok(ranges) => Ok(RangeParts(doc, ranges))
    else Err(InvalidSplitType)
  }

  /** `split_pdf`: the archive of the parts, or the error it raises. */
  method SplitPdf(doc: Document, splitType: Option<string>, splitValue: Option<string>)
    returns (r: Result<map<string, Document>, SplitError>)
    ensures r == match SplitParts(doc, splitType, splitValue)
      case Ok(parts) => Ok(ArchiveOf(parts))
      case Err(e) => Err(e)
  {
    if splitType == Some("pages") {
      if splitValue == None || splitValue == Some("") {
        return Err(MissingSplitValue("pages"));
      }
      var k := ParseInt(splitValue.value);
      if k.None? {
        return Err(NotAnInteger(splitValue.value));
      }
      if k.value == 0 {
        return Err(ZeroStep);
      }
      var parts := SplitByCount(doc, k.value);
      r := Ok(ArchiveOf(parts));
    } else if splitType == Some("ranges") {
      if splitValue == None || splitValue == Some("") {
        return Err(MissingSplitValue("ranges"));
      }
      var parts := SplitByRanges(doc, splitValue.value);
      match parts {
        case Err(e) => r := Err(e);
        case Ok(ps) => r := Ok(ArchiveOf(ps));
      }
    } else {
      r := Err(InvalidSplitType);
    }
  }

  /** A page count that reads as 0 raises; a negative one yields no parts. */
  lemma SplitCountSign(doc: Document, value: string, k: int)
    requires ParseInt(value) == Some(k)
    ensures k == 0 ==> SplitParts(doc, Some("pages"), Some(value)) == Err(ZeroStep)
    ensures k < 0 ==> SplitParts(doc, Some("pages"), Some(value)) == Ok([])
    ensures k > 0 ==> SplitParts(doc, Some("pages"), Some(value)) == Ok(CountParts(doc, k))
  {
    assert value != "";
  }

  /** A document without pages splits by count into no parts at all. */
  lemma SplitEmptyDocument(k: nat)
    requires k > 0
    ensures CountParts([], k) == [] && ArchiveOf(CountParts([], k)) == map[]
  {
  }

  /** Splitting by a count of 1 and merging the parts in order gives back the document. */
  lemma SplitByOneThenMerge(doc: Document)
    ensures Concat(PagesOf(CountParts(doc, 1))) == doc
    ensures |CountParts(doc, 1)| == |doc|
  {
    CountPartsReassemble(doc, 1);
    CountPartsLength(doc, 1);
  }

  lemma ThreeToTenParses()
    ensures ParseRanges("3-10") == Ok([(3, 10)])
  {
    var ranges: seq<(nat, nat)> := [(3, 10)];
    assert NatToString(3) == "3";
    assert NatToString(10) == "10";
    assert FormatRange((3, 10)) == "3-10";
    assert FormatTokens(ranges) == ["3-10"];
    assert FormatRanges(ranges) == Join(["3-10"], ',') == "3-10";
    ParseRangesOfFormat(ranges);
  }

  lemma RangesModeParts(doc: Document, value: string, ranges: seq<(int, int)>)
    requires value != "" && ParseRanges(value) == Ok(ranges)
    ensures SplitParts(doc, Some("ranges"), Some(value)) == Ok(RangeParts(doc, ranges))
  {
  }

  lemma ThreeToTenOfFive(doc: Document)
    requires |doc| == 5
    ensures RangeParts(doc, [(3, 10)]) == [Part("pages_3_to_10.pdf", doc[2..5])]
  {
    assert IntToString(3) == "3" && IntToString(10) == "10";
    assert PartName(3, 10) == "pages_3_to_10.pdf";
    assert RangePages(doc, 3, 10) == doc[2..5];
  }

  /** Ranges mode on "3-10" over five pages: one part holding pages 3 to 5. */
  lemma FivePagesThreeToTen(doc: Document)
    requires |doc| == 5
    ensures SplitParts(doc, Some("ranges"), Some("3-10")) == Ok([Part("pages_3_to_10.pdf", doc[2..5])])
  {
    ThreeToTenParses();
    RangesModeParts(doc, "3-10", [(3, 10)]);
    ThreeToTenOfFive(doc);
  }

  // =================================================================== compress

  /** How a compression level re-renders: the scale in percent and whether
      the output streams are deflated. */
  datatype Settings = Settings(scalePercent: nat, deflate: bool)

  /** The level table: "low" keeps the resolution and does not deflate,
      "medium" renders at 80% and deflates, and every other string, not just
      "high", renders at 50% and deflates. */
  function LevelSettings(level: string): (s: Settings)
    ensures s.scalePercent == 100 <==> level == "low"
    ensures s.scalePercent == 80 <==> level == "medium"
    ensures s.deflate <==> level != "low"
    ensures s in {Settings(100, false), Settings(80, true), Settings(50, true)}
  {
    if level == "low" then Settings(100, false)
    else if level == "medium" then Settings(80, true)
    else Settings(50, true)
  }

  /** The resolution never grows, and it falls from "low" to "medium" to any other level. */
  lemma LevelScalesFall(level: string)
    ensures LevelSettings(level).scalePercent <= LevelSettings("low").scalePercent
    ensures level != "low" ==> LevelSettings(level).scalePercent <= LevelSettings("medium").scalePercent
    ensures level != "low" && level != "medium" ==> LevelSettings(level) == LevelSettings("high")
  {
  }

  /** A compressed PDF: its pages and whether it is saved with deflate. */
  datatype CompressedPdf = CompressedPdf(pages: Document, deflate: bool)

  /** The output of `compress_pdf`: page `i` is a new page holding page `i`
      rendered at the level's scale. */
  function Compressed(doc: Document, level: string): CompressedPdf
  {
    var s := LevelSettings(level);
    CompressedPdf(seq(|doc|, i requires 0 <= i < |doc| => ImagePage(Raster(doc[i], s.scalePercent))), s.deflate)
  }

  /** `compress_pdf`: one new page per input page, in the same order. */
  method CompressPdf(doc: Document, level: string) returns (out: CompressedPdf)
    ensures |out.pages| == |doc|
    ensures forall i :: 0 <= i < |doc| ==> out.pages[i] == ImagePage(Raster(doc[i], LevelSettings(level).scalePercent))
    ensures out.deflate == LevelSettings(level).deflate
    ensures out == Compressed(doc, level)
  {
    var s := LevelSettings(level);
    var pages: Document := [];
    for i := 0 to |doc|
      invariant |pages| == i
      invariant forall t :: 0 <= t < i ==> pages[t] == ImagePage(Raster(doc[t], s.scalePercent))
    {
      var pix := Raster(doc[i], s.scalePercent);
      pages := pages + [ImagePage(pix)];
    }
    out := CompressedPdf(pages, s.deflate);
  }

  // =================================================================== pdf_to_jpg

  /** The file name `page_{number}.jpg` of a rendered page. */
  function ImageName(number: int): string
  {
    "page_" + IntToString(number) + ".jpg"
  }

  lemma ImageNameInjective(a: int, b: int)
    ensures ImageName(a) == ImageName(b) <==> a == b
  {
    if ImageName(a) == ImageName(b) {
      FramedEqual("page_", IntToString(a), IntToString(b), ".jpg");
      IntToStringInjective(a, b);
    }
  }

  /** The image files in the order `pdf_to_jpg` writes them: page `i`
      (0-based), rendered at the default resolution, as `page_{i+1}.jpg`. */
  function ImageFiles(doc: Document): (files: seq<(string, Raster)>)
    ensures |files| == |doc|
    ensures forall i :: 0 <= i < |doc| ==> files[i] == (ImageName(i + 1), Raster(doc[i], 100))
  {
    seq(|doc|, i requires 0 <= i < |doc| => (ImageName(i + 1), Raster(doc[i], 100)))
  }

  /** The archive of `pdf_to_jpg`. */
  function JpgArchive(doc: Document): map<string, Raster>
  {
    Directory(ImageFiles(doc))
  }

  lemma ImageFilesDistinct(doc: Document)
    ensures forall i, j :: 0 <= i < j < |doc| ==> ImageFiles(doc)[i].0 != ImageFiles(doc)[j].0
  {
    forall i, j | 0 <= i < j < |doc| ensures ImageFiles(doc)[i].0 != ImageFiles(doc)[j].0 {
      ImageNameInjective(i + 1, j + 1);
    }
  }

  lemma JpgArchiveEntries(doc: Document)
    ensures |JpgArchive(doc)| == |doc|
    ensures forall n :: 1 <= n <= |doc| ==> ImageName(n) in JpgArchive(doc) && JpgArchive(doc)[ImageName(n)] == Raster(doc[n - 1], 100)
  {
    var files := ImageFiles(doc);
    ImageFilesDistinct(doc);
    DirectoryOfDistinctNames(files);
    assert JpgArchive(doc) == Directory(files);
    forall n | 1 <= n <= |doc|
      ensures ImageName(n) in JpgArchive(doc) && JpgArchive(doc)[ImageName(n)] == Raster(doc[n - 1], 100)
    {
      assert files[n - 1] == (ImageName(n), Raster(doc[n - 1], 100));
    }
  }

  lemma JpgArchiveKeys(doc: Document)
    ensures JpgArchive(doc).Keys == set n | 1 <= n <= |doc| :: ImageName(n)
  {
    var files := ImageFiles(doc);
    DirectoryNames(files);
    var names := set n | 1 <= n <= |doc| :: ImageName(n);
    var written := set j | 0 <= j < |files| :: files[j].0;
    assert names <= written by {
      forall n | 1 <= n <= |doc| ensures ImageName(n) in written {
        assert files[n - 1].0 == ImageName(n);
      }
    }
    assert written <= names by {
      forall j | 0 <= j < |files| ensures files[j].0 in names {
        assert files[j].0 == ImageName(j + 1);
      }
    }
  }

  /** One image per page: the archive has exactly the names `page_1.jpg` to
      `page_n.jpg`, each with its page; a document without pages gives an
      empty archive. */
  lemma JpgArchiveContents(doc: Document)
    ensures |JpgArchive(doc)| == |doc|
    ensures JpgArchive(doc).Keys == set n | 1 <= n <= |doc| :: ImageName(n)
    ensures forall n :: 1 <= n <= |doc| ==> ImageName(n) in JpgArchive(doc) && JpgArchive(doc)[ImageName(n)] == Raster(doc[n - 1], 100)
  {
    JpgArchiveEntries(doc);
    JpgArchiveKeys(doc);
  }

  /** `pdf_to_jpg`: each page saved under its name into the output directory. */
  method PdfToJpg(doc: Document) returns (archive: map<string, Raster>)
    ensures archive == JpgArchive(doc)
    ensures |archive| == |doc|
    ensures forall n :: 1 <= n <= |doc| ==> ImageName(n) in archive && archive[ImageName(n)] == Raster(doc[n - 1], 100)
  {
    var dir: map<string, Raster> := map[];
    ghost var files := ImageFiles(doc);
    for i := 0 to |doc|
      invariant dir == Directory(files[..i])
    {
      assert files[..i + 1][..i] == files[..i];
      var pix := Raster(doc[i], 100);
      dir := dir[ImageName(i + 1) := pix];
    }
    assert files[..|doc|] == files;
    archive := dir;
    JpgArchiveContents(doc);
  }
}
