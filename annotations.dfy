/**
 * Annotation records and the small text helpers the scripts apply to them:
 * `Annotation.nonewlines`, `remove_whitespace`, `Text.print`, the shape of
 * `Annotation.unique_id`, and how one KOReader bookmark becomes an annotation
 * in `process_annotations` / `format_annotations_as_markdown`.
 */
module Annotations {
  import opened Wrappers
  import opened Errors
  import opened PyStr
  import opened Matcher
  import opened PageContext

  // ---------------------------------------------------------------------------
  // nonewlines

  /** `string.replace('\r\n', '').replace('\n', '')`. */
  function Nonewlines(s: string): (r: string)
    ensures |r| <= |s|
  {
    var once := ReplaceAll(s, "\r\n", "");
    ReplaceAllShrinks(s, "\r\n", "");
    ReplaceAllShrinks(once, "\n", "");
    ReplaceAll(once, "\n", "")
  }

  lemma {:induction false} RemoveCharGone(s: string, c: char)
    ensures c !in ReplaceAll(s, [c], "")
  {
    if s != [] {
      RemoveCharGone(s[1..], c);
    }
  }

  lemma NoLineFeedNoCrLf(s: string)
    requires '\n' !in s
    ensures forall j :: !OccursAt(s, "\r\n", j)
  {
    forall j ensures !OccursAt(s, "\r\n", j) {
      if 0 <= j && j + 2 <= |s| {
        assert s[j + 1] != '\n';
        assert s[j..j + 2][1] == s[j + 1];
      }
    }
  }

  /** No line feed survives `nonewlines`. */
  lemma NonewlinesNoLineFeed(s: string)
    ensures '\n' !in Nonewlines(s)
  {
    RemoveCharGone(ReplaceAll(s, "\r\n", ""), '\n');
  }

  /** A string without line feeds, lone carriage returns included, is unchanged. */
  lemma NonewlinesKeepsLineFeedFree(s: string)
    requires '\n' !in s
    ensures Nonewlines(s) == s
  {
    NoLineFeedNoCrLf(s);
    ReplaceAllNoOccurrence(s, "\r\n", "");
    forall j ensures !OccursAt(s, "\n", j) {
      if 0 <= j && j + 1 <= |s| {
        assert s[j] != '\n';
        assert s[j..j + 1][0] == s[j];
      }
    }
    ReplaceAllNoOccurrence(s, "\n", "");
  }

  /** Applying `nonewlines` twice is applying it once. */
  lemma NonewlinesIdempotent(s: string)
    ensures Nonewlines(Nonewlines(s)) == Nonewlines(s)
  {
    NonewlinesNoLineFeed(s);
    NonewlinesKeepsLineFeedFree(Nonewlines(s));
  }

  lemma LineFeedConcat(a: string, b: string)
    ensures ReplaceAll(a + b, "\n", "") == ReplaceAll(a, "\n", "") + ReplaceAll(b, "\n", "")
  {
    ReplaceAllConcat(a, b, "\n", "");
  }

  /** A CRLF line break vanishes and the text on either side is cleaned on its own. */
  lemma NonewlinesDropsCrLf(a: string, b: string)
    ensures Nonewlines(a + "\r\n" + b) == Nonewlines(a) + Nonewlines(b)
  {
    var t := "\r\n" + b;
    assert a + "\r\n" + b == a + t;
    assert NoStraddle(a, t, "\r\n") by {
      forall j | 0 <= j < |a| < j + 2 ensures !OccursAt(a + t, "\r\n", j) {
        assert (a + t)[j + 1] == '\r';
        assert j + 2 <= |a + t| ==> (a + t)[j..j + 2][1] == (a + t)[j + 1];
      }
    }
    ReplaceAllConcat(a, t, "\r\n", "");
    assert StartsWith(t, "\r\n");
    assert t[2..] == b;
    var ra, rb := ReplaceAll(a, "\r\n", ""), ReplaceAll(b, "\r\n", "");
    assert ReplaceAll(t, "\r\n", "") == rb;
    assert ReplaceAll(a + t, "\r\n", "") == ra + rb;
    LineFeedConcat(ra, rb);
  }

  /** A bare LF line break vanishes too, unless it ends a CRLF pair. */
  lemma NonewlinesDropsLf(a: string, b: string)
    requires a == [] || a[|a| - 1] != '\r'
    ensures Nonewlines(a + "\n" + b) == Nonewlines(a) + Nonewlines(b)
  {
    CrLfPassKeepsLf(a, b);
    var ra, rb := ReplaceAll(a, "\r\n", ""), ReplaceAll(b, "\r\n", "");
    Associate(ra, "\n", rb);
    LineFeedConcat(ra, "\n" + rb);
    ReplaceAllLeading("\n", rb, "");
  }

  /** The CRLF pass leaves a line feed that does not follow a carriage return. */
  lemma CrLfPassKeepsLf(a: string, b: string)
    requires a == [] || a[|a| - 1] != '\r'
    ensures ReplaceAll(a + "\n" + b, "\r\n", "") == ReplaceAll(a, "\r\n", "") + "\n" + ReplaceAll(b, "\r\n", "")
  {
    var t := "\n" + b;
    Associate(a, "\n", b);
    assert NoStraddle(a, t, "\r\n") by {
      forall j | 0 <= j < |a| < j + 2 ensures !OccursAt(a + t, "\r\n", j) {
        assert (a + t)[j] == a[|a| - 1];
        assert j + 2 <= |a + t| ==> (a + t)[j..j + 2][0] == (a + t)[j];
      }
    }
    ReplaceAllConcat(a, t, "\r\n", "");
    LineFeedNotCrLf(b);
    Associate(ReplaceAll(a, "\r\n", ""), "\n", ReplaceAll(b, "\r\n", ""));
  }

  /** The line feed at the head of `"\n" + b` is kept by the CRLF pass. */
  lemma LineFeedNotCrLf(b: string)
    ensures ReplaceAll("\n" + b, "\r\n", "") == "\n" + ReplaceAll(b, "\r\n", "")
  {
    var t := "\n" + b;
    assert !StartsWith(t, "\r\n") by {
      assert |t| >= 2 ==> t[..2][0] == '\n';
    }
    assert t[1..] == b;
  }

  lemma Associate<T>(a: seq<T>, b: seq<T>, c: seq<T>)
    ensures a + b + c == a + (b + c)
  {
  }

  // ---------------------------------------------------------------------------
  // remove_whitespace

  /** Python's `\s` on `str`: the characters `str.isspace` accepts. */
  predicate IsSpace(c: char)
  {
    var n := c as int;
    || 9 <= n <= 13 || 28 <= n <= 32 || n == 0x85 || n == 0xA0 || n == 0x1680
    || 0x2000 <= n <= 0x200A || n == 0x2028 || n == 0x2029 || n == 0x202F
    || n == 0x205F || n == 0x3000
  }

  /** `re.sub(r'\s+', '', text)`: every whitespace run replaced by nothing. */
  function RemoveWhitespace(text: string): (r: string)
    ensures forall k :: 0 <= k < |r| ==> !IsSpace(r[k])
    ensures |r| <= |text|
  {
    if text == [] then []
    else if IsSpace(text[0]) then RemoveWhitespace(text[1..])
    else [text[0]] + RemoveWhitespace(text[1..])
  }

  /** Text without whitespace is left as it is; so removing twice is removing once. */
  lemma {:induction false} RemoveWhitespaceFixesClean(text: string)
    requires forall k :: 0 <= k < |text| ==> !IsSpace(text[k])
    ensures RemoveWhitespace(text) == text
  {
    if text != [] {
      RemoveWhitespaceFixesClean(text[1..]);
      assert [text[0]] + text[1..] == text;
    }
  }

  lemma RemoveWhitespaceIdempotent(text: string)
    ensures RemoveWhitespace(RemoveWhitespace(text)) == RemoveWhitespace(text)
  {
    RemoveWhitespaceFixesClean(RemoveWhitespace(text));
  }

  /** Removal works piece by piece: it keeps the non-whitespace characters in order. */
  lemma {:induction false} RemoveWhitespaceConcat(a: string, b: string)
    ensures RemoveWhitespace(a + b) == RemoveWhitespace(a) + RemoveWhitespace(b)
  {
    if a != [] {
      assert (a + b)[1..] == a[1..] + b;
      RemoveWhitespaceConcat(a[1..], b);
    } else {
      assert a + b == b;
    }
  }

  /** A lone whitespace character is removed entirely. */
  lemma RemoveWhitespaceDropsSpace(c: char)
    requires IsSpace(c)
    ensures RemoveWhitespace([c]) == []
  {
    assert [c][1..] == [];
  }

  // ---------------------------------------------------------------------------
  // Text.print

  /** `Text.print`: `**Highlight**: ==<highlight>==` and `**Notes**: <text>`, one per line. */
  function TextPrint(highlight: string, text: string): (r: string)
    ensures StartsWith(r, "**Highlight**: ==") && r[|r| - 1] == '\n'
  {
    "**Highlight**: ==" + highlight + "==\n**Notes**: " + text + "\n"
  }

  /** For single-line fields the rendering is exactly two lines, the highlight
      line and the notes line, each ending in a line feed. */
  lemma TextPrintLines(highlight: string, text: string)
    requires '\n' !in highlight && '\n' !in text
    ensures Split(TextPrint(highlight, text), '\n') ==
            ["**Highlight**: ==" + highlight + "==", "**Notes**: " + text, ""]
  {
    var first, second := "**Highlight**: ==" + highlight + "==", "**Notes**: " + text;
    TextPrintPieces(highlight, text);
    SplitTwoLines(first, second, '\n');
  }

  /** The rendering is the highlight line and the notes line, each followed by a
      line feed, and neither line holds a line feed of its own. */
  lemma TextPrintPieces(highlight: string, text: string)
    requires '\n' !in highlight && '\n' !in text
    ensures var first, second := "**Highlight**: ==" + highlight + "==", "**Notes**: " + text;
      && TextPrint(highlight, text) == first + ['\n'] + second + ['\n']
      && '\n' !in first && '\n' !in second
  {
    LabelsSingleLine();
    NotInLabelled("**Highlight**: ==", highlight, "==");
    NotInLabelled("**Notes**: ", text, "");
    assert "**Notes**: " + text + "" == "**Notes**: " + text;
    assert "==\n**Notes**: " == "==" + ['\n'] + "**Notes**: ";
  }

  lemma LabelsSingleLine()
    ensures '\n' !in "**Highlight**: ==" && '\n' !in "==" && '\n' !in "**Notes**: " && '\n' !in ""
  {
  }

  lemma NotInLabelled(prefix: string, field: string, suffix: string)
    requires '\n' !in prefix && '\n' !in field && '\n' !in suffix
    ensures '\n' !in prefix + field + suffix
  {
  }

  /** Two lines, each ended by the separator, split into the two lines and an empty tail. */
  lemma SplitTwoLines(first: string, second: string, sep: char)
    requires sep !in first && sep !in second
    ensures Split(first + [sep] + second + [sep], sep) == [first, second, []]
  {
    assert first + [sep] + second + [sep] == first + [sep] + (second + [sep] + []);
    SplitConcat(first, second + [sep] + [], sep);
    SplitConcat(second, [], sep);
    SplitNoSeparator(first, sep);
    SplitNoSeparator(second, sep);
  }

  // ---------------------------------------------------------------------------
  // unique_id

  /** One `random.choice` over `string.ascii_lowercase + string.digits`: an index into those 36 characters. */
  type Draw = d: int | 0 <= d < 36

  /** The ten draws behind one identifier (`for _ in range(10)`). */
  type IdDraws = s: seq<Draw> | |s| == 10 witness [0, 0, 0, 0, 0, 0, 0, 0, 0, 0]

  /** Character `d` of `ascii_lowercase + digits`. */
  function IdChar(d: Draw): (c: char)
    ensures 'a' <= c <= 'z' || '0' <= c <= '9'
  {
    if d < 26 then ('a' as int + d) as char else ('0' as int + d - 26) as char
  }

  /** Which draw produced an identifier character. */
  function DrawOf(c: char): (draw: int)
  {
    if 'a' <= c <= 'z' then c as int - 'a' as int else c as int - '0' as int + 26
  }

  /** `''.join(random.choice(characters) for _ in range(10))`, with the choices given. */
  function UniqueId(draws: IdDraws): (id: string)
    ensures |id| == 10
    ensures forall k :: 0 <= k < |id| ==> 'a' <= id[k] <= 'z' || '0' <= id[k] <= '9'
  {
    seq(10, k requires 0 <= k < 10 => IdChar(draws[k]))
  }

  /** The identifier determines the draws: reading each character back gives them. */
  lemma UniqueIdDecodes(draws: IdDraws)
    ensures forall k :: 0 <= k < 10 ==> DrawOf(UniqueId(draws)[k]) == draws[k]
  {
  }

  /** Distinct draws give distinct identifiers. */
  lemma UniqueIdInjective(d1: IdDraws, d2: IdDraws)
    requires UniqueId(d1) == UniqueId(d2)
    ensures d1 == d2
  {
    UniqueIdDecodes(d1);
    UniqueIdDecodes(d2);
    assert forall k :: 0 <= k < 10 ==> d1[k] == DrawOf(UniqueId(d1)[k]) == d2[k];
  }

  // ---------------------------------------------------------------------------
  // annotation records

  /** A bookmark of the KOReader metadata: each field may be missing. */
  datatype Bookmark = Bookmark(page: Option<int>, text: Option<string>, notes: Option<string>)

  /** What the script keeps of an `Annotation`: `context` is `None` where the
      script records the placeholder `'na'` (a metadata file passed directly). */
  datatype Annotation = Annotation(
    uniqueId: string, text: string, notes: string, pageNumber: int, context: Option<Context>)

  const DefaultNotes := "No notes available"

  /** One iteration of the bookmark loop: defaults for missing fields, the
      document title (`json_data['doc_props']['title']`, a `KeyError` when it is
      missing), then `find_context(file_path, page_no, notes)` when context is needed. */
  function Resolve(pages: seq<string>, title: Option<string>, bookmark: Bookmark, needsContext: bool,
                   ratio: Scorer, draws: IdDraws)
    : (r: Result<Annotation, Error>)
    ensures r.Failure? <==> title.None? || (needsContext && !(1 <= bookmark.page.GetOr(1) <= |pages|))
    ensures r.Failure? ==> r.error == if title.None? then MissingTitle else PageNumberOutOfRange
    ensures r.Success? ==>
      && r.value.pageNumber == bookmark.page.GetOr(1)
      && r.value.text == bookmark.text.GetOr("")
      && r.value.notes == bookmark.notes.GetOr(DefaultNotes)
      && r.value.uniqueId == UniqueId(draws)
      && (r.value.context.Some? <==> needsContext)
      && (needsContext ==> FindContext(pages, r.value.pageNumber, r.value.notes, ratio) == Success(r.value.context.value))
  {
    var pageNo := bookmark.page.GetOr(1);
    var text := bookmark.text.GetOr("");
    var notes := bookmark.notes.GetOr(DefaultNotes);
    if title.None? then Failure(MissingTitle)
    else if needsContext then
      match FindContext(pages, pageNo, notes, ratio)
      case Failure(e) => Failure(e)
      case Success(c) => Success(Annotation(UniqueId(draws), text, notes, pageNo, Some(c)))
    else
      Success(Annotation(UniqueId(draws), text, notes, pageNo, None))
  }

  /** The whole bookmark loop: the annotations appended, and the error that
      stopped it (an exception ends the loop at the first failing bookmark).
      `draws(k)` are the identifier choices made for bookmark `k`. */
  function ResolveAll(pages: seq<string>, title: Option<string>, bookmarks: seq<Bookmark>, needsContext: bool,
                      ratio: Scorer, draws: nat -> IdDraws)
    : (seq<Annotation>, Option<Error>)
  {
    if bookmarks == [] then ([], None)
    else
      var n := |bookmarks| - 1;
      var prev := ResolveAll(pages, title, bookmarks[..n], needsContext, ratio, draws);
      if prev.1.Some? then prev
      else match Resolve(pages, title, bookmarks[n], needsContext, ratio, draws(n))
        case Failure(e) => (prev.0, Some(e))
        case Success(a) => (prev.0 + [a], None)
  }

  /** The loop resolves bookmarks in order; it either resolves all of them, or
      stops at the first one that fails, keeping those before it. */
  lemma {:induction false} ResolveAllSpec(pages: seq<string>, title: Option<string>, bookmarks: seq<Bookmark>,
                                          needsContext: bool, ratio: Scorer, draws: nat -> IdDraws)
    ensures var made := ResolveAll(pages, title, bookmarks, needsContext, ratio, draws).0;
      var failure := ResolveAll(pages, title, bookmarks, needsContext, ratio, draws).1;
      && |made| <= |bookmarks|
      && (forall k :: 0 <= k < |made| ==> Resolve(pages, title, bookmarks[k], needsContext, ratio, draws(k)) == Success(made[k]))
      && (failure.None? ==> |made| == |bookmarks|)
      && (failure.Some? ==>
            |made| < |bookmarks| &&
            Resolve(pages, title, bookmarks[|made|], needsContext, ratio, draws(|made|)) == Failure(failure.value))
  {
    if bookmarks != [] {
      var n := |bookmarks| - 1;
      var bs := bookmarks[..n];
      ResolveAllSpec(pages, title, bs, needsContext, ratio, draws);
      var prev := ResolveAll(pages, title, bs, needsContext, ratio, draws);
      var made := ResolveAll(pages, title, bookmarks, needsContext, ratio, draws).0;
      assert |prev.0| <= |made| <= |prev.0| + 1 && made[..|prev.0|] == prev.0;
      forall k | 0 <= k < |made|
        ensures Resolve(pages, title, bookmarks[k], needsContext, ratio, draws(k)) == Success(made[k])
      {
        if k < |prev.0| {
          assert bs[k] == bookmarks[k] && made[..|prev.0|][k] == made[k];
        }
      }
      if prev.1.Some? {
        assert bs[|prev.0|] == bookmarks[|prev.0|];
      }
    }
  }

  /** One more iteration of the loop, while it has not stopped. */
  lemma ResolveAllNext(pages: seq<string>, title: Option<string>, bookmarks: seq<Bookmark>,
                       needsContext: bool, ratio: Scorer, draws: nat -> IdDraws, i: nat)
    requires i < |bookmarks|
    requires ResolveAll(pages, title, bookmarks[..i], needsContext, ratio, draws).1 == None
    ensures var prev := ResolveAll(pages, title, bookmarks[..i], needsContext, ratio, draws).0;
      ResolveAll(pages, title, bookmarks[..i + 1], needsContext, ratio, draws) ==
        match Resolve(pages, title, bookmarks[i], needsContext, ratio, draws(i))
        case Failure(e) => (prev, Some(e))
        case Success(a) => (prev + [a], None)
  {
    PrefixOfPrefix(bookmarks, i);
  }

  lemma PrefixOfPrefix<T>(s: seq<T>, i: nat)
    requires i < |s|
    ensures s[..i + 1][..i] == s[..i] && s[..i + 1][i] == s[i]
  {
  }

  /** Once the loop has stopped, later bookmarks change nothing. */
  lemma {:induction false} ResolveAllStops(pages: seq<string>, title: Option<string>, bookmarks: seq<Bookmark>,
                                           needsContext: bool, ratio: Scorer, draws: nat -> IdDraws, k: nat)
    requires k <= |bookmarks|
    requires ResolveAll(pages, title, bookmarks[..k], needsContext, ratio, draws).1.Some?
    ensures ResolveAll(pages, title, bookmarks, needsContext, ratio, draws) ==
            ResolveAll(pages, title, bookmarks[..k], needsContext, ratio, draws)
    decreases |bookmarks| - k
  {
    if k < |bookmarks| {
      var n := |bookmarks| - 1;
      assert bookmarks[..n][..k] == bookmarks[..k];
      ResolveAllStops(pages, title, bookmarks[..n], needsContext, ratio, draws, k);
    } else {
      assert bookmarks[..k] == bookmarks;
    }
  }

  /** Without context (a metadata file given directly) only a missing title can fail. */
  lemma {:induction false} ResolveAllWithoutContext(pages: seq<string>, title: string, bookmarks: seq<Bookmark>,
                                                    ratio: Scorer, draws: nat -> IdDraws)
    ensures ResolveAll(pages, Some(title), bookmarks, false, ratio, draws).1 == None
  {
    if bookmarks != [] {
      var n := |bookmarks| - 1;
      ResolveAllWithoutContext(pages, title, bookmarks[..n], ratio, draws);
    }
  }
}
