# KOReader highlights to Obsidian: a Dafny model

Two Python scripts convert the highlights stored in a KOReader metadata file
(`metadata.pdf.lua`) into Obsidian files. `kohico.py` writes an
obsidian-annotator file, a plain markdown export, or both. `ko2hyp.py` is the
older single-purpose version that writes only the annotator file. Two small
Node scripts go with them: one extracts the text of selected PDF pages with
pdf.js, and one computes Readest's book key, a partial MD5 of the file.

This project models what the scripts compute.

- **Locating a highlight.** A sliding window is matched against the page text
  (`find_closest_match`). The scripts build a cumulative table of page offsets
  (`calculate_page_offsets`, `get_page_offset`). They then return the global
  position of the match and up to 31 characters of context on each side
  (`find_context`).
- **Resolving bookmarks.** Each bookmark becomes an annotation record: missing
  fields get their defaults, a random ten-character id is drawn, and the first
  error stops the loop. The annotations are kept in the scripts' global list.
  The markdown export sorts them by page with a stable sort.
- **Text helpers.** Newline removal, whitespace removal, and the two-line
  `Text.print` rendering.
- **Command line.** The output-format validator (`parse_choices`), the rule
  for a metadata file given directly, the search for the vault root
  (`find_relative_path_to_pdf`), the `vault:/` URI, and the output file names.
- **Node scripts.** The page-range selection and page loop of
  `extractTextFromPdf`. The windows fed to the hasher by `partialMD5`,
  including JavaScript's 32-bit `<<` for the shift by `-2`.

The model is split into these modules:

| module | file | contents |
|---|---|---|
| `Wrappers` | `wrappers.dfy` | Option and Result types |
| `Errors` | `wrappers.dfy` | the errors the scripts raise or exit with |
| `PyStr` | `pystr.dfy` | Python's slicing, `split`, `join`, `replace` (first and all) |
| `Matcher` | `matcher.dfy` | the sliding-window search |
| `PageOffsets` | `offsets.dfy` | the offset table and `get_page_offset` |
| `PageContext` | `context.dfy` | `find_context` as a function of the page texts |
| `Annotations` | `annotations.dfy` | `nonewlines`, `remove_whitespace`, `Text.print`, the id, the bookmark loop as a function |
| `Session` | `session.dfy` | class `Session`, holding the module globals `page_offsets` and `annotations`, with the stateful `find_context` and the bookmark loop as methods |
| `MarkdownOrder` | `ordering.dfy` | the sorted, numbered markdown order |
| `Cli` | `cli.dfy` | command-line helpers |
| `PageRange` | `pagerange.dfy` | `extractTextFromPdf` |
| `BookKey` | `bookkey.dfy` | `partialMD5` |

The world outside the scripts is passed in as parameters:

- **PDF text.** The text PyPDF2 extracts from each page is the sequence
  `pages`.
- **Fuzzy ratio.** `fuzz.ratio` is a scorer function with results in 0..100.
- **File system.** `os.path.exists` is a predicate on paths.
- **Random id.** The `random.choice` draws of a unique id are ten numbers
  in 0..35.
- **pdf.js.** `getTextContent` of page `i` is a function of `i`.

Code that is the same in both scripts is modelled once: `find_closest_match`,
`find_context`, the offset table, `nonewlines`, `remove_whitespace` and
`find_relative_path_to_pdf`. Each row below cites one copy; the other copy is
named in the row's text.

## Model

| member | source | states |
|---|---|---|
| Matcher.Scan | kohico.py:136-143 | After the first k windows, the kept index is -1 with score 0 when all of them scored 0. Otherwise the kept score is the positive score of the kept window, no window so far beats it, and every window before it scores strictly less. |
| Matcher.ClosestIndex | kohico.py:130-145 | The returned index is -1 or the start of one of the windows. |
| Matcher.FindClosestMatch | kohico.py:130-145 | The loop returns the first window with the strictly highest positive score and that window's text. It returns -1 and no match when no window scores above 0. The same code is ko2hyp.py:128-143. |
| Matcher.ClosestIndexSpec | kohico.py:130-145 | The index is -1 exactly when every window scores 0, which includes the case of no window at all. Otherwise it is a window whose score is positive and maximal, and every earlier window scores strictly less. |
| Matcher.ClosestIndexUnique | kohico.py:140-143 | Because the comparison is a strict `>`, only one index is the first best window, and it is the result. |
| Matcher.LongNeedleNoMatch | kohico.py:136 | A needle longer than the haystack gives an empty `range`, so the result is -1. |
| PageOffsets.Offsets | kohico.py:117-128 | The table has one entry more than there are pages. It starts at 0 and ends at the total length of the pages. |
| PageOffsets.OffsetsCumulative | kohico.py:117-128 | The table starts at 0 and has one more entry than there are pages. Each entry is the previous one plus the length of that page. The table never decreases, and it ends at the length of the whole document. |
| PageOffsets.PageInDocument | kohico.py:117-128 | Page `i` occupies exactly the positions from `page_offsets[i]` to `page_offsets[i] + len(page)` of the concatenated document text. |
| PageOffsets.GetPageOffset | kohico.py:106-115 | An index equal to or greater than the number of pages raises 'Invalid page index', and only such an index does. A negative index gives offset 0. Any other index gives the total length of the pages before it, which equals the table entry. The same code is ko2hyp.py:104-113. |
| Session.Session.constructor | kohico.py:362 | At start-up the offset table and the annotation list are both empty. |
| Session.Session.CalculatePageOffsets | kohico.py:117-128 | The global table becomes `[0]` followed by the cumulative page lengths. |
| Session.Session.FindContext | kohico.py:147-182 | The first call builds the offset table and later calls reuse it. A page number outside 1..number of pages raises 'Page number out of range'. Otherwise the result is the context that `PageContext.FindContext` describes. |
| PageContext.FindContext | kohico.py:147-182 | The call fails exactly when the page number is out of range. On success, `end_pos - start_pos` is the length of the search string and the suffix has at most 31 characters. The same code is ko2hyp.py:145-180. |
| PageContext.MatchedFields | kohico.py:162-182 | When a window matches, each field of the result is computed from the page text, the match index and the page's offset. Both slice bounds are clipped to the page. |
| PageContext.ContextAroundMatch | kohico.py:170-175 | The prefix is the min(31, index) characters that end exactly at the match. The suffix is the min(31, characters left) characters that start right after the matched window. |
| PageContext.ContextAddressesMatch | kohico.py:165-167 | `start_pos` is the page's offset plus the match index. Positions `start_pos` to `end_pos` of the concatenated document lie inside the document and hold exactly the matched window of the page. |
| PageContext.ContextLocatesMatch | kohico.py:165-175 | The prefix, the matched text and the suffix appear in that order, contiguously, in the concatenated document text, ending at `end_pos + len(suffix)`. |
| PageContext.ContextWithoutMatch | kohico.py:162-175 | With no match the index -1 is used as it is. `start_pos` is one before the page's offset, and the prefix `text[0:-1]` is the whole page except its last character. |
| PageContext.ExampleIndex | kohico.py:130-145 | With an exact-match scorer, `XYZ` is found at index 3 of `abcXYZdef`. |
| PageContext.ExampleExactMatch | kohico.py:147-182 | This one-page example gives the context `abc`/`def` at positions 3 to 6. |
| Annotations.Nonewlines | kohico.py:66-67 | The two replacements only remove characters, so the result is never longer than the input. |
| Annotations.NonewlinesNoLineFeed | kohico.py:66-67 | The result of `nonewlines` contains no line feed. The same code is ko2hyp.py:82-83. |
| Annotations.NonewlinesKeepsLineFeedFree | kohico.py:66-67 | A string without a line feed is returned unchanged, including any bare carriage returns. |
| Annotations.NonewlinesIdempotent | kohico.py:66-67 | Applying `nonewlines` twice gives the same result as applying it once. |
| Annotations.NonewlinesDropsCrLf | kohico.py:66-67 | A CR LF between two strings is removed completely, and each side is cleaned on its own. |
| Annotations.NonewlinesDropsLf | kohico.py:66-67 | A line feed that does not follow a carriage return is removed, and each side is cleaned on its own. |
| Annotations.RemoveWhitespace | kohico.py:103-104 | The result contains no whitespace character and is no longer than the input. The same code is ko2hyp.py:101-102. |
| Annotations.RemoveWhitespaceFixesClean | kohico.py:103-104 | A string with no whitespace is returned unchanged. |
| Annotations.RemoveWhitespaceIdempotent | kohico.py:103-104 | Removing whitespace twice gives the same result as removing it once. |
| Annotations.RemoveWhitespaceConcat | kohico.py:103-104 | Removing whitespace distributes over concatenation. |
| Annotations.RemoveWhitespaceDropsSpace | kohico.py:103-104 | A string made of one whitespace character becomes empty. |
| Annotations.TextPrint | ko2hyp.py:36-37 | The rendering opens with the `**Highlight**: ==` label and ends with a line feed. |
| Annotations.TextPrintLines | ko2hyp.py:36-37 | For single-line fields, `Text.print` is exactly two lines, the highlight line and then the notes line, each ended by a line feed. |
| Annotations.UniqueId | kohico.py:24-25 | The id has ten characters, each a lower-case ASCII letter or a decimal digit. |
| Annotations.UniqueIdDecodes | kohico.py:24-25 | Each character of the id gives back the draw it was made from. |
| Annotations.UniqueIdInjective | kohico.py:24-25 | Different draws give different ids. |
| Annotations.Resolve | kohico.py:199-208 | One bookmark fails exactly when the title is missing, or when context is needed and the page is out of range; the error is the title error if the title is missing. On success: the page defaults to 1, the text to empty, and the notes to 'No notes available'. Context is present exactly when it is needed, and then it is `find_context` of that page and the notes. |
| Annotations.ResolveAllSpec | kohico.py:194-208 | The loop resolves the bookmarks in order. Either all of them succeed, or it stops at the first one that fails, with that bookmark's error, keeping the annotations made before it. |
| Annotations.ResolveAllStops | kohico.py:198-208 | Once a bookmark has failed, later bookmarks change nothing. |
| Annotations.ResolveAllWithoutContext | kohico.py:204-207 | Without context (a metadata file given directly) no bookmark fails once the document has a title. |
| Session.Session.ProcessAnnotations | kohico.py:194-208 | Without a `bookmarks` key nothing is appended. Otherwise the global list grows by exactly the annotations the loop resolves, in order, and the first error is returned. The offset table stays valid. `format_annotations_as_markdown` (ko2hyp.py:182-205) is the same loop with context always needed. |
| MarkdownOrder.Insert | kohico.py:227 | One insertion step lengthens the run by exactly one. |
| MarkdownOrder.SortByPage | kohico.py:227 | The sorted list has as many annotations as the input. |
| MarkdownOrder.InsertSpec | kohico.py:227 | One insertion step keeps the run sorted and adds exactly the new annotation. The new annotation goes after every annotation of its own page. |
| MarkdownOrder.SortByPageSpec | kohico.py:227 | The sorted list has non-decreasing page numbers and the same annotations, as a multiset. Annotations on the same page keep their input order, as Python's sort is stable. |
| MarkdownOrder.MarkdownEntries | kohico.py:227-229 | There is one entry per annotation, and entry i carries the number i + 1. |
| MarkdownOrder.MarkdownEntriesSpec | kohico.py:227-229 | The entries are numbered 1, 2, … in order, one per annotation, with non-decreasing pages. They hold exactly the annotations given, and on each page the input order is kept. |
| Cli.ParseChoices | kohico.py:333-339 | The call succeeds exactly when every comma-separated element is one of the five formats. It then returns the elements in order, and they join back to the argument. Otherwise the error names the first invalid element. |
| Cli.ParseDefault | kohico.py:343 | The default `obsidian-annotator` is the one-element list. |
| Cli.ParseEmpty | kohico.py:333-339 | An empty argument is one empty choice, and it is rejected. |
| Cli.ParseStopsAtFirstInvalid | kohico.py:336-338 | For `md,pdf,obs` the error names `pdf`. |
| Cli.IsLuaPath | kohico.py:352 | Only a path at least three characters long can pass the `[-3:] == 'lua'` test. |
| Cli.IsLuaPathSuffix | kohico.py:352 | `file_path[-3:] == 'lua'` holds exactly when the path is at least three characters long and ends in `lua`. |
| Cli.NeedsContext | kohico.py:350-357 | A metadata file with any format other than `md` or `markdown` exits the script, and nothing else does. Otherwise context is needed exactly when the path is not a metadata file. |
| Cli.FindRelativePathToPdf | kohico.py:318-331 | The result is None exactly when no proper prefix of the path is a vault root. Otherwise the longest such prefix is the vault root, the result is the rest of the path after it, and the root joined with `/` and the result gives back the path. The same code is ko2hyp.py:260-273. |
| Cli.VaultPath | kohico.py:361 | Without a vault the concatenation fails. Otherwise the URI is `vault:/` followed by the relative path. ko2hyp.py:283 does the same. |
| Cli.VaultPathRoundTrip | ko2hyp.py:296 | Removing the first `vault:/` from the URI gives back the relative path. kohico.py:213 does the same. |
| Cli.AnnotationTarget | kohico.py:213 | The first line of the annotator file opens with `annotation-target::[[` and ends with a line feed. |
| Cli.AnnotationTargetNamesPdf | kohico.py:213 | The first line of the annotator file names the PDF by its path relative to the vault. |
| Cli.OutputFileNameSpec | kohico.py:217 | Only the first `.pdf` is removed, wherever it occurs, and then the suffix is appended. A path without `.pdf` just gets the suffix. The same rule is used at kohico.py:232 and ko2hyp.py:301. |
| Cli.OutputFileNameExample | kohico.py:232 | `/x.pdfs/b.pdf` becomes `/xs/b.pdf_anno.md`: the directory loses `.pdf`, not the file name. |
| Cli.AnnotatorFileNameExample | kohico.py:217 | The annotator file of `/v/b.pdf` is `/v/b_obs-anno.md`: the `.pdf` gives way to the `_obs-anno.md` suffix. |
| PageRange.DecimalRoundTrip | nodescripts/extract-pdf-text.js:49 | `parseInt` of the decimal digits of n gives back n. |
| PageRange.SplitDigitRange | nodescripts/extract-pdf-text.js:51-52 | A spec that matches `^\d+-\d+$` splits at its hyphen into exactly two digit strings. |
| PageRange.SelectedRange | nodescripts/extract-pdf-text.js:45-54 | For a document with at least one page, the start page is at least 1 and the end page at most the page count, whatever the spec. |
| PageRange.SelectedRangeSpec | nodescripts/extract-pdf-text.js:45-54 | A missing or non-matching spec selects pages 1 to the page count. A single number selects one page, clamped to 1..count. `A-B` selects max(1, A) to min(count, B). |
| PageRange.SelectedPagesExist | nodescripts/extract-pdf-text.js:45-54 | For a non-empty document, the selected start is at least 1 and the end at most the page count. |
| PageRange.NonMatchingSpecsSelectAll | nodescripts/extract-pdf-text.js:48-50 | `12a` and `-3` match neither pattern, so every page is selected. |
| PageRange.ReversedRangeSelectsNothing | nodescripts/extract-pdf-text.js:50-54 | `5-2` is not reordered: the start is 5 and the end is 2. |
| PageRange.PageBounds | nodescripts/extract-pdf-text.js:45-54 | The two regular-expression branches set `startPage` and `endPage` to the selected range. |
| PageRange.ExtractTextFromPdf | nodescripts/extract-pdf-text.js:45-62 | There is one record per page of the selected range, none for a reversed range. Record k is page start + k with that page's content. The pages strictly increase and exist in the document. |
| BookKey.Shl | nodescripts/get-readest-bookkey.js:12 | JavaScript's `<<` always yields a signed 32-bit integer. |
| BookKey.Offset | nodescripts/get-readest-bookkey.js:12 | The offset `step << (2 * i)` of every iteration is a signed 32-bit integer. |
| BookKey.FirstShiftIsZero | nodescripts/get-readest-bookkey.js:11-12 | Under 32-bit shift semantics, `1024 << -2` is 0, so the first window starts at byte 0. |
| BookKey.ShiftIsExact | nodescripts/get-readest-bookkey.js:11-12 | For i = 0..10, `1024 << 2i` does not wrap: it is 2^(10+2i), at most 2^30. |
| BookKey.OffsetValue | nodescripts/get-readest-bookkey.js:12 | The unclamped offset of iteration i is 0 for i = -1, and 2^(10+2i) otherwise. |
| BookKey.WindowAtShape | nodescripts/get-readest-bookkey.js:12-13 | The window of an iteration whose start is inside the file starts at that iteration's offset, is non-empty, lies inside the file and is at most 1024 bytes long. |
| BookKey.ScheduleShape | nodescripts/get-readest-bookkey.js:11-15 | From iteration i on, at most 11 - i windows are read. The k-th of them starts at the offset of iteration i + k, and each is non-empty, inside the file and at most 1024 bytes long. |
| BookKey.ScheduleStops | nodescripts/get-readest-bookkey.js:15 | When fewer windows are read than iterations remain, the iteration after the last window read had its offset at or past the end of the file: the loop broke there. |
| BookKey.Windows | nodescripts/get-readest-bookkey.js:11-15 | The loop reads at most twelve windows. |
| BookKey.WindowStarts | nodescripts/get-readest-bookkey.js:11-15 | Window k of the schedule starts at 0 for k = 0, and at 4^(k+4) otherwise. |
| BookKey.StartsIncrease | nodescripts/get-readest-bookkey.js:12 | The window starts strictly increase. |
| BookKey.WindowsSpec | nodescripts/get-readest-bookkey.js:4-26 | There are at most twelve windows, each non-empty, within the file and at most 1024 bytes long. Their starts are 0, 4^5, 4^6, … in increasing order. There are fewer than twelve only when the next offset is at or past the end of the file. |
| BookKey.EmptyFileReadsNothing | nodescripts/get-readest-bookkey.js:15 | An empty file feeds nothing to the hasher. |
| BookKey.FirstWindowIsFirstKilobyte | nodescripts/get-readest-bookkey.js:11-15 | For a non-empty file, the first window is its first min(size, 1024) bytes. |
| BookKey.Hasher.constructor | nodescripts/get-readest-bookkey.js:7 | A new hasher has received nothing. |
| BookKey.Hasher.Update | nodescripts/get-readest-bookkey.js:22 | The hasher's input grows by exactly the buffer's bytes. |
| BookKey.ReadSync | nodescripts/get-readest-bookkey.js:17-20 | The buffer is filled with the file's bytes starting at `position`. |
| BookKey.PartialMD5 | nodescripts/get-readest-bookkey.js:4-26 | The hasher receives one buffer per window of the schedule, in order, each holding exactly that window's bytes of the file. |

## Left out

- Matcher.FindClosestMatch: the method's contract does not state "-1 exactly when every window scores 0". That equivalence is stated and proved for the same function in `Matcher.ClosestIndexSpec`, and the method's result equals that function.
- `fuzz.ratio`: this scoring function from `fuzzywuzzy` is not part of this model; it is a parameter with results in 0..100.
- PDF access: opening the PDF and PyPDF2's `extract_text` are not modelled (the page texts are given). In the Node script, pdf.js loading, `getPage` and `getTextContent` are not modelled (the content is a function of the page number), and neither are its rejected promises.
- The MD5 digest itself: the model proves which bytes are fed to the hasher, not the hash, and `fs.statSync`/`openSync`/`closeSync` are not modelled.
- Lua and JSON: running the embedded Lua script and parsing JSON (`lua_to_json`, the `metadata.pdf.lua` path rule) are not modelled. Bookmarks arrive already parsed, with optional fields; a missing `doc_props.title` is the `MissingTitle` error.
- Rendering: `Annotation.hypothesis`, `hypothesis_data`, `markdown`, `default_markdown_template`, the `--template` option and the JSON `data` payload are string templating and are not modelled. Their inputs are modelled: `nonewlines`, the id, the context, and the sort and numbering order.
- `Annotation.context` is `None` where `process_annotations` stores the `'na'` placeholder dictionary.
- Writing the output files and the progress messages are I/O and are not modelled, but the file names and the ordering of the entries are.
- `convert_annotations_bake` (kohico.py:238-262): needs PyMuPDF's page search and annotation API, which is not part of this model.
- `fingerprint`, `file_id_from`, `hash_of_first_kilobyte`, `hexify`: they need pdfminer and hashlib, which are not part of this model.
- Top-level flow: argparse itself, `sys.exit`, the ko2hyp argument check (ko2hyp.py:275-280) and the dispatch over output formats (kohico.py:365-381) are control flow around the modelled operations and are not modelled.
- `datetime` and `random`: the timestamps are dropped with the data payload; the random draws are a parameter.
- `parseInt` is exact on arbitrarily long digit strings in the model, while JavaScript loses precision beyond 2^53.
- `os.sep` is taken to be `/`, and `os.path.join` is modelled only for a relative second argument.
- The commented-out `highlight` block of `format_annotations_as_markdown` (ko2hyp.py:196-203) does nothing and is not modelled. Its `markdown_output` list is never used after the loop.
