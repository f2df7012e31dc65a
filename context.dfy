/**
 * `find_context`: the page-context translator. It finds the snippet on one
 * page, turns the local match index into global start/end positions in the
 * concatenated document text (the W3C Web Annotation TextPositionSelector,
 * section 4.2.5 of the Web Annotation Data Model) and cuts up to 31 characters
 * of prefix and suffix around the match, clipped to the page (the
 * TextQuoteSelector, section 4.2.4).
 *
 * This module is the value-level definition; `Session.Session.FindContext`
 * is the stateful routine with the lazily built offset table.
 */
module PageContext {
  import opened Wrappers
  import opened Errors
  import opened PyStr
  import opened Matcher
  import opened PageOffsets

  /** The prefix and suffix are at most this long. */
  const ContextLength := 31

  /** What `find_context` returns: `preceding`, `succeeding`, `start_pos`, `end_pos`. */
  datatype Context = Context(preceding: string, succeeding: string, startPos: int, endPos: int)


  /** `find_context(pdf_path, page_number, search_string)` over the extracted
      page texts. The page number is 1-based; out of range it raises `ValueError`. */
  function FindContext(pages: seq<string>, pageNumber: int, searchString: string, ratio: Scorer)
    : (r: Result<Context, Error>)
    ensures r.Failure? <==> pageNumber < 1 || pageNumber > |pages|
    ensures r.Failure? ==> r.error == PageNumberOutOfRange
    ensures r.Success? ==> r.value.endPos - r.value.startPos == |searchString|
    ensures r.Success? ==> |r.value.succeeding| <= ContextLength
  {
    if pageNumber < 1 || pageNumber > |pages| then Failure(PageNumberOutOfRange)
    else
      var originalText := pages[pageNumber - 1];
      var matchIndex := ClosestIndex(originalText, searchString, ratio);
      var pageStartOffset := Offsets(pages)[pageNumber - 1];
      var globalStartPos := pageStartOffset + matchIndex;
      var globalEndPos := pageStartOffset + matchIndex + |searchString|;
      var localStartPos := Max(0, matchIndex - ContextLength);
      var localEndPos := Min(|originalText|, matchIndex + |searchString| + ContextLength);
      Success(Context(
        Slice(originalText, localStartPos, matchIndex),
        Slice(originalText, matchIndex + |searchString|, localEndPos),
        globalStartPos,
        globalEndPos))
  }

  /** The fields of a matched context, with the slice bounds resolved. */
  lemma MatchedFields(pages: seq<string>, pageNumber: int, searchString: string, ratio: Scorer)
    requires 1 <= pageNumber <= |pages|
    requires ClosestIndex(pages[pageNumber - 1], searchString, ratio) != -1
    ensures var text, index := pages[pageNumber - 1], ClosestIndex(pages[pageNumber - 1], searchString, ratio);
      var n := |searchString|;
      var lo, hi := Max(0, index - ContextLength), Min(|text|, index + n + ContextLength);
      && 0 <= lo <= index && index + n <= hi <= |text|
      && FindContext(pages, pageNumber, searchString, ratio) ==
           Success(Context(text[lo..index], text[index + n..hi],
                           Offsets(pages)[pageNumber - 1] + index, Offsets(pages)[pageNumber - 1] + index + n))
  {
    var text, index := pages[pageNumber - 1], ClosestIndex(pages[pageNumber - 1], searchString, ratio);
    var n := |searchString|;
    assert 0 <= index < WindowCount(text, searchString);
    var lo, hi := Max(0, index - ContextLength), Min(|text|, index + n + ContextLength);
    assert Slice(text, lo, index) == text[lo..index];
    assert Slice(text, index + n, hi) == text[index + n..hi];
  }

  /** When the snippet matches at `index` on the page, the prefix is the (up to)
      31 characters that end exactly at `index`, and the suffix is the (up to) 31
      characters that start right after the matched window, both clipped to the page. */
  lemma ContextAroundMatch(pages: seq<string>, pageNumber: int, searchString: string, ratio: Scorer)
    requires 1 <= pageNumber <= |pages|
    requires ClosestIndex(pages[pageNumber - 1], searchString, ratio) != -1
    ensures var text, index := pages[pageNumber - 1], ClosestIndex(pages[pageNumber - 1], searchString, ratio);
      var n := |searchString|;
      var c := FindContext(pages, pageNumber, searchString, ratio).value;
      && 0 <= index && index + n <= |text|
      && |c.preceding| == Min(ContextLength, index)
      && c.preceding == text[index - |c.preceding|..index]
      && |c.succeeding| == Min(ContextLength, |text| - index - n)
      && c.succeeding == text[index + n..index + n + |c.succeeding|]
  {
    MatchedFields(pages, pageNumber, searchString, ratio);
  }

  /** When the snippet matches, `start_pos`/`end_pos` address the matched window
      in the concatenated document text: they count from the page's offset, the
      sum of the lengths of the pages before it. */
  lemma ContextAddressesMatch(pages: seq<string>, pageNumber: int, searchString: string, ratio: Scorer, c: Context)
    requires 1 <= pageNumber <= |pages|
    requires ClosestIndex(pages[pageNumber - 1], searchString, ratio) != -1
    requires FindContext(pages, pageNumber, searchString, ratio) == Success(c)
    ensures var text, index := pages[pageNumber - 1], ClosestIndex(pages[pageNumber - 1], searchString, ratio);
      && c.startPos == SumLengths(pages[..pageNumber - 1]) + index
      && c.endPos == c.startPos + |searchString| <= |Flatten(pages)|
      && Flatten(pages)[c.startPos..c.endPos] == text[index..index + |searchString|]
  {
    var text, index := pages[pageNumber - 1], ClosestIndex(pages[pageNumber - 1], searchString, ratio);
    var n := |searchString|;
    MatchedFields(pages, pageNumber, searchString, ratio);
    var lo, hi := Max(0, index - ContextLength), Min(|text|, index + n + ContextLength);
    PageInDocument(pages, pageNumber - 1);
    ContextInDocument(Flatten(pages), text, Offsets(pages)[pageNumber - 1], lo, index, n, hi, c);
  }

  /** Prefix, window and suffix read off the document contiguously: the text
      from `start_pos - len(preceding)` to `end_pos + len(succeeding)` is the
      prefix, the document text from `start_pos` to `end_pos` (the matched
      window, by `ContextAddressesMatch`) and the suffix. */
  lemma ContextLocatesMatch(pages: seq<string>, pageNumber: int, searchString: string, ratio: Scorer, c: Context)
    requires 1 <= pageNumber <= |pages|
    requires ClosestIndex(pages[pageNumber - 1], searchString, ratio) != -1
    requires FindContext(pages, pageNumber, searchString, ratio) == Success(c)
    ensures 0 <= c.startPos - |c.preceding| && c.startPos <= c.endPos
    ensures c.endPos + |c.succeeding| <= |Flatten(pages)|
    ensures Flatten(pages)[c.startPos - |c.preceding|..c.endPos + |c.succeeding|]
              == c.preceding + Flatten(pages)[c.startPos..c.endPos] + c.succeeding
  {
    var text, index := pages[pageNumber - 1], ClosestIndex(pages[pageNumber - 1], searchString, ratio);
    var n := |searchString|;
    MatchedFields(pages, pageNumber, searchString, ratio);
    var lo, hi := Max(0, index - ContextLength), Min(|text|, index + n + ContextLength);
    PageInDocument(pages, pageNumber - 1);
    ContextInDocument(Flatten(pages), text, Offsets(pages)[pageNumber - 1], lo, index, n, hi, c);
  }

  /** A context cut from a page that sits at offset `o` of the document `doc`. */
  lemma ContextInDocument(doc: string, text: string, o: nat, lo: nat, index: nat, n: nat, hi: nat, c: Context)
    requires lo <= index && index + n <= hi <= |text|
    requires o + |text| <= |doc| && doc[o..o + |text|] == text
    requires c == Context(text[lo..index], text[index + n..hi], o + index, o + index + n)
    ensures c.endPos <= |doc| && doc[c.startPos..c.endPos] == text[index..index + n]
    ensures 0 <= c.startPos - |c.preceding| && c.endPos + |c.succeeding| <= |doc|
    ensures doc[c.startPos - |c.preceding|..c.endPos + |c.succeeding|] == c.preceding + text[index..index + n] + c.succeeding
  {
    SliceOfPiece(doc, text, o, index, index + n);
    SliceOfPiece(doc, text, o, lo, hi);
    ThreePieces(text, lo, index, index + n, hi);
  }

  /** A slice of a piece found at offset `o` is the slice of the document shifted by `o`. */
  lemma SliceOfPiece(doc: string, text: string, o: nat, lo: nat, hi: nat)
    requires o + |text| <= |doc| && doc[o..o + |text|] == text
    requires lo <= hi <= |text|
    ensures doc[o + lo..o + hi] == text[lo..hi]
  {
    forall k | 0 <= k < hi - lo ensures doc[o + lo..o + hi][k] == text[lo..hi][k] {
      assert doc[o..o + |text|][lo + k] == doc[o + lo + k];
    }
  }

  lemma ThreePieces(text: string, lo: nat, mid1: nat, mid2: nat, hi: nat)
    requires lo <= mid1 <= mid2 <= hi <= |text|
    ensures text[lo..hi] == text[lo..mid1] + text[mid1..mid2] + text[mid2..hi]
  {
  }

  /** With no match the index -1 is not rejected: `start_pos` is one before the
      page's offset, and the prefix `text[0:-1]` is the whole page but its last
      character (Python's negative slice bound). */
  lemma ContextWithoutMatch(pages: seq<string>, pageNumber: int, searchString: string, ratio: Scorer)
    requires 1 <= pageNumber <= |pages|
    requires ClosestIndex(pages[pageNumber - 1], searchString, ratio) == -1
    ensures var text := pages[pageNumber - 1];
      var c := FindContext(pages, pageNumber, searchString, ratio).value;
      && c.startPos == SumLengths(pages[..pageNumber - 1]) - 1
      && c.endPos == c.startPos + |searchString|
      && c.preceding == (if text == [] then [] else text[..|text| - 1])
  {
  }

  /** An exact-match scorer, used for the worked example below. */
  function ExactRatio(a: string, b: string): (score: Ratio)
  {
    if a == b then 100 else 0
  }

  /** On "abcXYZdef" the exact scorer picks window 3. */
  lemma ExampleIndex()
    ensures ClosestIndex("abcXYZdef", "XYZ", ExactRatio) == 3
  {
    var text := "abcXYZdef";
    assert Window(text, "XYZ", 3) == "XYZ";
    forall j | 0 <= j < 3 ensures ScoreAt(text, "XYZ", ExactRatio, j) < 100 {
      assert Window(text, "XYZ", j)[0] == text[j];
      assert text[j] != 'X';
    }
    ClosestIndexUnique(text, "XYZ", ExactRatio, 3);
  }

  /** The page "abcXYZdef" and the snippet "XYZ": positions 3 to 6, prefix
      "abc", suffix "def". */
  lemma ExampleExactMatch()
    ensures FindContext(["abcXYZdef"], 1, "XYZ", ExactRatio) == Success(Context("abc", "def", 3, 6))
  {
    var pages := ["abcXYZdef"];
    ExampleIndex();
    assert pages[..0] == [];
    OffsetsCumulative(pages);
    var t := pages[0];
    assert t == "abc" + "XYZ" + "def";
    assert t[0..3] == "abc";
    assert t[6..9] == "def";
  }
}
