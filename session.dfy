/**
 * The scripts' module-level state: the global `page_offsets` table, filled
 * lazily by the first `find_context`, and the global `annotations` list, which
 * the bookmark loop (`process_annotations` in one script,
 * `format_annotations_as_markdown` in the other) appends to.
 *
 * The extracted page texts stand in for the PDF reader; they do not change.
 */
module Session {
  import opened Wrappers
  import opened Errors
  import opened Matcher
  import opened PageOffsets
  import PageContext
  import opened Annotations

  class Session {
    /** `page.extract_text()` for every page of the PDF, in order. */
    const pages: seq<string>
    /** The global `page_offsets`: empty until computed. */
    var pageOffsets: seq<nat>
    /** The global `annotations`. */
    var annotations: seq<Annotation>

    /** The table is either not yet built or is the cumulative table of the pages. */
    ghost predicate Valid()
      reads this
    {
      pageOffsets == [] || pageOffsets == Offsets(pages)
    }

    /** `page_offsets = []` and `annotations = []` at start-up. */
    constructor(pages: seq<string>)
      ensures this.pages == pages && pageOffsets == [] && annotations == []
      ensures Valid()
    {
      this.pages := pages;
      pageOffsets := [];
      annotations := [];
    }

    /** `calculate_page_offsets(pdf_path)`: `[0]`, then one cumulative length per page. */
    method CalculatePageOffsets()
      modifies this`pageOffsets
      ensures pageOffsets == Offsets(pages)
    {
      pageOffsets := [0];
      var cumulativeLength := 0;
      for i := 0 to |pages|
        invariant cumulativeLength == SumLengths(pages[..i])
        invariant pageOffsets == Offsets(pages)[..i + 1]
      {
        var text := pages[i];
        SumLengthsStep(pages, i);
        cumulativeLength := cumulativeLength + |text|;
        pageOffsets := pageOffsets + [cumulativeLength];
      }
    }

    /** `find_context(pdf_path, page_number, search_string)`: builds the offset
        table on first use (a table already built is reused as it is), checks the
        page number and returns what `PageContext.FindContext` describes. */
    method FindContext(pageNumber: int, searchString: string, ratio: Scorer)
      returns (r: Result<PageContext.Context, Error>)
      requires Valid()
      modifies this`pageOffsets
      ensures pageOffsets == Offsets(pages)
      ensures old(pageOffsets) != [] ==> pageOffsets == old(pageOffsets)
      ensures r == PageContext.FindContext(pages, pageNumber, searchString, ratio)
    {
      if pageOffsets == [] {
        CalculatePageOffsets();
      }
      if pageNumber < 1 || pageNumber > |pages| {
        return Failure(PageNumberOutOfRange);
      }
      var originalText := pages[pageNumber - 1];
      var _, matchIndex := FindClosestMatch(originalText, searchString, ratio);
      var pageStartOffset := pageOffsets[pageNumber - 1];
      var globalStartPos := pageStartOffset + matchIndex;
      var globalEndPos := pageStartOffset + matchIndex + |searchString|;
      var localStartPos := PyStr.Max(0, matchIndex - PageContext.ContextLength);
      var localEndPos := PyStr.Min(|originalText|, matchIndex + |searchString| + PageContext.ContextLength);
      var precedingText := PyStr.Slice(originalText, localStartPos, matchIndex);
      var succeedingText := PyStr.Slice(originalText, matchIndex + |searchString|, localEndPos);
      return Success(PageContext.Context(precedingText, succeedingText, globalStartPos, globalEndPos));
    }

    /** The bookmark loop. `bookmarks` is `None` when the metadata has no
        `"bookmarks"` key; `draws(k)` are the identifier choices for bookmark `k`.
        Annotations are appended in bookmark order; the first failing bookmark
        stops the loop with its error, keeping what was appended before it. The
        offset table is built by the first context lookup, if there is one, and
        is otherwise left as it was. */
    method ProcessAnnotations(title: Option<string>, bookmarks: Option<seq<Bookmark>>, needsContext: bool,
                              ratio: Scorer, draws: nat -> IdDraws)
      returns (failure: Option<Error>)
      requires Valid()
      modifies this`pageOffsets, this`annotations
      ensures Valid()
      ensures old(pageOffsets) != [] ==> pageOffsets == old(pageOffsets)
      ensures !needsContext || bookmarks.None? || title.None? ==> pageOffsets == old(pageOffsets)
      ensures needsContext && bookmarks.Some? && bookmarks.value != [] && title.Some? ==> pageOffsets == Offsets(pages)
      ensures bookmarks.None? ==> failure == None && annotations == old(annotations)
      ensures bookmarks.Some? ==>
        var (made, stopped) := ResolveAll(pages, title, bookmarks.value, needsContext, ratio, draws);
        annotations == old(annotations) + made && failure == stopped
    {
      failure := None;
      if bookmarks.None? {
        return;
      }
      var bms := bookmarks.value;
      for i := 0 to |bms|
        invariant Valid()
        invariant old(pageOffsets) != [] ==> pageOffsets == old(pageOffsets)
        invariant !needsContext || title.None? ==> pageOffsets == old(pageOffsets)
        invariant needsContext && 0 < i ==> pageOffsets == Offsets(pages)
        invariant ResolveAll(pages, title, bms[..i], needsContext, ratio, draws).1 == None
        invariant annotations == old(annotations) + ResolveAll(pages, title, bms[..i], needsContext, ratio, draws).0
      {
        var bookmark := bms[i];
        ResolveAllNext(pages, title, bms, needsContext, ratio, draws, i);
        var pageNo := bookmark.page.GetOr(1);
        var text := bookmark.text.GetOr("");
        var notes := bookmark.notes.GetOr(DefaultNotes);
        if title.None? {
          ResolveAllStops(pages, title, bms, needsContext, ratio, draws, i + 1);
          return Some(MissingTitle);
        }
        var context := None;
        if needsContext {
          var found := FindContext(pageNo, notes, ratio);
          if found.Failure? {
            ResolveAllStops(pages, title, bms, needsContext, ratio, draws, i + 1);
            return Some(found.error);
          }
          context := Some(found.value);
        }
        annotations := annotations + [Annotation(UniqueId(draws(i)), text, notes, pageNo, context)];
      }
      assert bms[..|bms|] == bms;
    }
  }
}
