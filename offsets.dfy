/**
 * The page-offset table: entry `i` is the number of characters extracted from
 * the pages before page `i` (0-based), so that a position on a page becomes a
 * position in the concatenation of all page texts.
 */
module PageOffsets {
  import opened Wrappers
  import opened Errors

  /** Total length of a run of page texts. */
  function SumLengths(pages: seq<string>): (total: nat)
  {
    if pages == [] then 0 else SumLengths(pages[..|pages| - 1]) + |pages[|pages| - 1]|
  }

  /** The document text as one string: the page texts one after the other. */
  function Flatten(pages: seq<string>): (text: string)
  {
    if pages == [] then [] else Flatten(pages[..|pages| - 1]) + pages[|pages| - 1]
  }

  /** The document is as long as its pages together. */
  lemma {:induction false} FlattenLength(pages: seq<string>)
    ensures |Flatten(pages)| == SumLengths(pages)
  {
    if pages != [] {
      FlattenLength(pages[..|pages| - 1]);
    }
  }

  /** The table `calculate_page_offsets` builds: `len(pages) + 1` prefix sums. */
  function Offsets(pages: seq<string>): (table: seq<nat>)
    ensures |table| == |pages| + 1 && table[0] == 0
    ensures table[|pages|] == SumLengths(pages)
  {
    assert pages[..|pages|] == pages;
    seq(|pages| + 1, i requires 0 <= i <= |pages| => SumLengths(pages[..i]))
  }

  lemma SumLengthsStep(pages: seq<string>, i: nat)
    requires i < |pages|
    ensures SumLengths(pages[..i + 1]) == SumLengths(pages[..i]) + |pages[i]|
  {
    assert pages[..i + 1][..i] == pages[..i];
  }

  /** The offset table is cumulative: it starts at 0, has one entry per page
      boundary, each entry is the previous one plus that page's length, it is
      non-decreasing, and it ends at the document length. */
  lemma OffsetsCumulative(pages: seq<string>)
    ensures var table := Offsets(pages);
      && |table| == |pages| + 1
      && table[0] == 0
      && (forall i :: 0 <= i < |pages| ==> table[i + 1] == table[i] + |pages[i]|)
      && (forall i, j :: 0 <= i <= j <= |pages| ==> table[i] <= table[j])
      && table[|pages|] == |Flatten(pages)|
  {
    var table := Offsets(pages);
    forall i | 0 <= i < |pages| ensures table[i + 1] == table[i] + |pages[i]| {
      SumLengthsStep(pages, i);
    }
    forall i, j | 0 <= i <= j <= |pages| ensures table[i] <= table[j] {
      OffsetsMonotone(pages, i, j);
    }
    assert pages[..|pages|] == pages;
  }

  lemma {:induction false} OffsetsMonotone(pages: seq<string>, i: nat, j: nat)
    requires i <= j <= |pages|
    ensures SumLengths(pages[..i]) <= SumLengths(pages[..j])
    decreases j - i
  {
    if i < j {
      SumLengthsStep(pages, j - 1);
      OffsetsMonotone(pages, i, j - 1);
    }
  }

  lemma {:induction false} FlattenConcat(a: seq<string>, b: seq<string>)
    ensures Flatten(a + b) == Flatten(a) + Flatten(b)
    decreases |b|
  {
    if b != [] {
      var b' := b[..|b| - 1];
      assert (a + b)[..|a + b| - 1] == a + b';
      FlattenConcat(a, b');
    } else {
      assert a + b == a;
    }
  }

  /** Page `i` sits in the document text right after the pages before it: it
      is the piece of the document that starts at the page's table entry. */
  lemma PageInDocument(pages: seq<string>, i: nat)
    requires i < |pages|
    ensures Offsets(pages)[i] + |pages[i]| <= |Flatten(pages)|
    ensures Flatten(pages)[Offsets(pages)[i]..Offsets(pages)[i] + |pages[i]|] == pages[i]
  {
    FlattenAround(pages, i);
    FlattenLength(pages[..i]);
    assert Offsets(pages)[i] == |Flatten(pages[..i])|;
    MiddleOf(Flatten(pages[..i]), pages[i], Flatten(pages[i + 1..]));
  }

  /** The document is the pages before page `i`, page `i`, and the pages after. */
  lemma FlattenAround(pages: seq<string>, i: nat)
    requires i < |pages|
    ensures Flatten(pages) == Flatten(pages[..i]) + pages[i] + Flatten(pages[i + 1..])
  {
    var before, after := pages[..i], pages[i + 1..];
    var upTo := before + [pages[i]];
    CutAt(pages, i);
    calc {
      Flatten(pages);
      { FlattenConcat(upTo, after); }
      Flatten(upTo) + Flatten(after);
      { FlattenConcat(before, [pages[i]]); FlattenOne(pages[i]); }
      Flatten(before) + pages[i] + Flatten(after);
    }
  }

  lemma CutAt<T>(s: seq<T>, i: nat)
    requires i < |s|
    ensures (s[..i] + [s[i]]) + s[i + 1..] == s
  {
  }

  lemma FlattenOne(page: string)
    ensures Flatten([page]) == page
  {
    assert [page][..0] == [];
  }

  lemma MiddleOf<T>(x: seq<T>, y: seq<T>, z: seq<T>)
    ensures (x + y + z)[|x|..|x| + |y|] == y
  {
  }

  /** `get_page_offset(reader, page_index)`: the sum of the lengths of the pages
      before `page_index`, which is entry `page_index` of the offset table.
      An index past the last page raises `ValueError`; a negative index passes
      the check and `range` of it is empty, so it yields 0. */
  method GetPageOffset(pages: seq<string>, pageIndex: int) returns (r: Result<nat, Error>)
    ensures pageIndex >= |pages| <==> r == Failure(InvalidPageIndex)
    ensures pageIndex < 0 ==> r == Success(0)
    ensures 0 <= pageIndex < |pages| ==> r == Success(Offsets(pages)[pageIndex])
  {
    if pageIndex >= |pages| {
      return Failure(InvalidPageIndex);
    }
    var offset := 0;
    var i := 0;
    while i < pageIndex
      invariant 0 <= i <= |pages|
      invariant i <= if pageIndex < 0 then 0 else pageIndex
      invariant offset == SumLengths(pages[..i])
    {
      var pageText := pages[i];
      SumLengthsStep(pages, i);
      offset := offset + |pageText|;
      i := i + 1;
    }
    if pageIndex < 0 {
      assert pages[..0] == [];
    } else {
      assert Offsets(pages)[pageIndex] == SumLengths(pages[..i]);
    }
    return Success(offset);
  }
}
