/**
 * The page selection of the PDF text extractor: an optional page spec (`N` or
 * `A-B`) and the page count give a clamped `[startPage, endPage]`, and the pages
 * of that range are read in order, one record per page.
 *
 * The PDF document is a page count and a function from page number to text
 * content.
 */
module PageRange {
  import opened Wrappers
  import opened PyStr

  /** `\d` in a regular expression without the `u` flag. */
  predicate IsDigit(c: char) { '0' <= c <= '9' }

  /** The regular expression `/^\d+$/`. */
  predicate IsDigits(s: string)
  {
    |s| >= 1 && forall k :: 0 <= k < |s| ==> IsDigit(s[k])
  }

  /** The regular expression `/^\d+-\d+$/`: digits, one hyphen, digits. */
  predicate IsDigitRange(s: string)
  {
    exists k :: 0 <= k < |s| && s[k] == '-' && IsDigits(s[..k]) && IsDigits(s[k + 1..])
  }

  function DigitValue(c: char): (d: nat)
    requires IsDigit(c)
    ensures d < 10
  {
    c as int - '0' as int
  }

  /** `parseInt` of a string of decimal digits. */
  function DecimalValue(s: string): (n: nat)
    requires forall k :: 0 <= k < |s| ==> IsDigit(s[k])
  {
    if s == [] then 0
    else 10 * DecimalValue(s[..|s| - 1]) + DigitValue(s[|s| - 1])
  }

  /** The decimal digits of `n`, most significant first. */
  function DecimalDigits(n: nat): (s: string)
    ensures IsDigits(s)
  {
    if n < 10 then [('0' as int + n) as char]
    else DecimalDigits(n / 10) + [('0' as int + n % 10) as char]
  }

  /** Reading the digits of a number gives the number back. */
  lemma {:induction false} DecimalRoundTrip(n: nat)
    ensures DecimalValue(DecimalDigits(n)) == n
  {
    var s := DecimalDigits(n);
    if n >= 10 {
      DecimalRoundTrip(n / 10);
      assert s[..|s| - 1] == DecimalDigits(n / 10);
    }
  }

  /** The one hyphen of a range spec is where `split("-")` cuts it: two parts,
      the digits before it and the digits after it. */
  lemma SplitDigitRange(s: string, k: nat)
    requires k < |s| && s[k] == '-' && IsDigits(s[..k]) && IsDigits(s[k + 1..])
    ensures Split(s, '-') == [s[..k], s[k + 1..]]
  {
    assert '-' !in s[..k] by {
      forall j | 0 <= j < k ensures s[..k][j] != '-' { assert IsDigit(s[..k][j]); }
    }
    var after := s[k + 1..];
    assert '-' !in after by {
      forall j | 0 <= j < |after| ensures after[j] != '-' { assert IsDigit(after[j]); }
    }
    assert s == s[..k] + ['-'] + s[k + 1..];
    SplitConcat(s[..k], s[k + 1..], '-');
    SplitNoSeparator(s[..k], '-');
    SplitNoSeparator(s[k + 1..], '-');
  }

  /** `[startPage, endPage]` as the extractor computes it. A missing or empty
      spec (JavaScript falsy) and a spec matching neither pattern select all pages. */
  function SelectedRange(pageSpec: Option<string>, numPages: nat): (range: (int, int))
    ensures numPages >= 1 ==> 1 <= range.0 && range.1 <= numPages
  {
    if pageSpec.Some? && pageSpec.value != [] && IsDigits(pageSpec.value) then
      var page := Max(1, Min(numPages, DecimalValue(pageSpec.value)));
      (page, page)
    else if pageSpec.Some? && pageSpec.value != [] && IsDigitRange(pageSpec.value) then
      var parts := Split(pageSpec.value, '-');
      // always two digit strings after the pattern test (SplitDigitRange)
      if |parts| == 2 && (forall k :: 0 <= k < |parts[0]| ==> IsDigit(parts[0][k]))
                      && (forall k :: 0 <= k < |parts[1]| ==> IsDigit(parts[1][k])) then
        (Max(1, DecimalValue(parts[0])), Min(numPages, DecimalValue(parts[1])))
      else (1, numPages)
    else (1, numPages)
  }

  /** The three cases of the page spec. */
  lemma SelectedRangeSpec(pageSpec: Option<string>, numPages: nat)
    ensures var range := SelectedRange(pageSpec, numPages);
      && ((pageSpec.None? || (!IsDigits(pageSpec.value) && !IsDigitRange(pageSpec.value))) ==> range == (1, numPages))
      && (pageSpec.Some? && IsDigits(pageSpec.value) ==>
            range.0 == range.1 == Max(1, Min(numPages, DecimalValue(pageSpec.value))))
      && (forall k :: 0 <= k < |pageSpec.GetOr("")| && pageSpec.value[k] == '-' &&
                      IsDigits(pageSpec.value[..k]) && IsDigits(pageSpec.value[k + 1..]) ==>
            range == (Max(1, DecimalValue(pageSpec.value[..k])), Min(numPages, DecimalValue(pageSpec.value[k + 1..]))))
  {
    forall k | 0 <= k < |pageSpec.GetOr("")| && pageSpec.value[k] == '-' &&
               IsDigits(pageSpec.value[..k]) && IsDigits(pageSpec.value[k + 1..])
      ensures SelectedRange(pageSpec, numPages) ==
              (Max(1, DecimalValue(pageSpec.value[..k])), Min(numPages, DecimalValue(pageSpec.value[k + 1..])))
    {
      var s := pageSpec.value;
      assert !IsDigits(s) by { assert !IsDigit(s[k]); }
      assert IsDigitRange(s);
      SplitDigitRange(s, k);
    }
  }

  /** Whatever the spec, every selected page exists once the document has a page:
      the start is never below 1 and the end never above the page count. */
  lemma SelectedPagesExist(pageSpec: Option<string>, numPages: nat)
    requires numPages >= 1
    ensures var (startPage, endPage) := SelectedRange(pageSpec, numPages);
      1 <= startPage && endPage <= numPages
  {
  }

  /** `"12a"` and `"-3"` match neither pattern, so every page is read. */
  lemma NonMatchingSpecsSelectAll(numPages: nat)
    ensures SelectedRange(Some("12a"), numPages) == (1, numPages)
    ensures SelectedRange(Some("-3"), numPages) == (1, numPages)
  {
    assert !IsDigits("12a") by { assert !IsDigit("12a"[2]); }
    assert !IsDigitRange("12a") by {
      forall k | 0 <= k < 3 ensures "12a"[k] != '-' { }
    }
    assert !IsDigits("-3") by { assert !IsDigit("-3"[0]); }
    assert !IsDigitRange("-3") by {
      forall k | 0 <= k < 2 && "-3"[k] == '-' ensures !IsDigits("-3"[..k]) {
        assert k == 0;
      }
    }
  }

  /** A reversed range `"5-2"` is not reordered: it selects no page. */
  lemma ReversedRangeSelectsNothing(numPages: nat)
    requires numPages >= 2
    ensures var (startPage, endPage) := SelectedRange(Some("5-2"), numPages);
      startPage == 5 && endPage == 2
  {
    var s := "5-2";
    assert s[..1] == "5" && s[2..] == "2";
    assert IsDigits(s[..1]) && IsDigits(s[2..]);
    SelectedRangeSpec(Some(s), numPages);
  }

  /** One record of the output: `{ page: i, content }`. */
  datatype PageRecord<C> = PageRecord(page: int, content: C)

  /** The page-spec test of `extractTextFromPdf`: `startPage` and `endPage` as
      the two regular expressions and `parseInt` set them. */
  method PageBounds(pageSpec: Option<string>, numPages: nat) returns (startPage: int, endPage: int)
    ensures startPage == SelectedRange(pageSpec, numPages).0 && endPage == SelectedRange(pageSpec, numPages).1
  {
    startPage := 1;
    endPage := numPages;
    if pageSpec.Some? && pageSpec.value != [] && IsDigits(pageSpec.value) {
      startPage := Max(1, Min(numPages, DecimalValue(pageSpec.value)));
      endPage := startPage;
    } else if pageSpec.Some? && pageSpec.value != [] && IsDigitRange(pageSpec.value) {
      var k :| 0 <= k < |pageSpec.value| && pageSpec.value[k] == '-' &&
               IsDigits(pageSpec.value[..k]) && IsDigits(pageSpec.value[k + 1..]);
      SplitDigitRange(pageSpec.value, k);
      var parts := Split(pageSpec.value, '-');
      var start, end := DecimalValue(parts[0]), DecimalValue(parts[1]);
      startPage := Max(1, start);
      endPage := Min(numPages, end);
    }
  }

  /** The page loop of `extractTextFromPdf`: one record per page from
      `startPage` to `endPage`, in increasing order; `getTextContent(i)` stands
      for `(await doc.getPage(i)).getTextContent()`. */
  method ExtractTextFromPdf<C>(pageSpec: Option<string>, numPages: nat, getTextContent: int -> C)
    returns (allPagesContent: seq<PageRecord<C>>)
    ensures |allPagesContent| == Max(0, SelectedRange(pageSpec, numPages).1 - SelectedRange(pageSpec, numPages).0 + 1)
    ensures forall k :: 0 <= k < |allPagesContent| ==>
              allPagesContent[k] == PageRecord(SelectedRange(pageSpec, numPages).0 + k,
                                               getTextContent(SelectedRange(pageSpec, numPages).0 + k))
    ensures numPages >= 1 ==> forall k :: 0 <= k < |allPagesContent| ==> 1 <= allPagesContent[k].page <= numPages
    ensures forall k, j :: 0 <= k < j < |allPagesContent| ==> allPagesContent[k].page < allPagesContent[j].page
  {
    var startPage, endPage := PageBounds(pageSpec, numPages);
    allPagesContent := [];
    var i := startPage;
    while i <= endPage
      invariant startPage <= i <= Max(startPage, endPage + 1)
      invariant |allPagesContent| == i - startPage
      invariant forall k :: 0 <= k < |allPagesContent| ==>
                  allPagesContent[k] == PageRecord(startPage + k, getTextContent(startPage + k))
      decreases endPage - i
    {
      var content := getTextContent(i);
      allPagesContent := allPagesContent + [PageRecord(i, content)];
      i := i + 1;
    }
    if numPages >= 1 {
      SelectedPagesExist(pageSpec, numPages);
    }
  }
}
