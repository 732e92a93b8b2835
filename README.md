# Adamus ingestion scripts: a Dafny model

Two Python scripts fill the Adamus study database:

- `scripts/adamus-index-images.py` runs a folder of page scans through an OCR service.
- `scripts/adamus-index-pdf.py` extracts the text of a PDF.

Both scripts then do the same thing with each page:

1. Upsert a `material_pages` row.
2. Delete its `material_chunks`.
3. Cut the page text into chunks and insert them, numbered from 1.

A page that already has chunks is skipped. The image script also re-processes any page listed in `ADAMUS_FORCE_PAGES`. The image script retries a refused chunk as ASCII text; the PDF script aborts the run on the first refused chunk.

This project models the logic between the HTTP calls and proves what it guarantees. Functions the two scripts share (`sql_escape`, `load_env`, the packing loop of `chunk_text`) are modelled once.

The modules, one file each:

- `Text` (`text.dfy`): `str.strip`, `split(",")`, `",".join`, `str(n)` and `int(s)`.
- `Sanitize` (`sanitize.dfy`): `sanitize_text`.
- `SqlQuote` (`sqlquote.dfy`): `sql_escape`, the counter-tag `sql_literal` of the image script and the three-tag `sql_literal` of the PDF script.
- `EnvFile` (`envfile.dfy`): `load_env` over the lines of the file.
- `Chunker` (`chunker.dfy`): `chunk_text`, with paragraphs split at runs of blank lines (image script) or at line boundaries (PDF script). An oversized paragraph is cut into windows while `start < len(p)`, so a 3000-character paragraph at max 1200 / overlap 200 gives four windows, starting at 0, 1000, 2000 and 2800 (Chunker.LongParagraphSpans).
- `ImageSelection` (`images.dfy`): `select_images` over the names of a directory listing.
- `Reconcile` (`reconcile.dfy`): the page loops of both `main` functions against a `Store` class.

About the `Reconcile` model:

- `Store` holds the material's pages as `map<int, PageRow>`, keyed by page number. Its methods are the upsert, delete and insert statements.
- Each script's loop, written imperatively (`RunImages`, `RunPdf`), is proved equal to a function of the old store (`ImagePages`, `PdfPages`).
- Lemmas about those functions state what a run does to each page: which pages are skipped, what a rebuilt page holds, what an aborted run leaves, and that a second run changes nothing.
- A refused insert (the `except` branch) is modelled as the database refusing a chunk's stored content. The refused contents are a parameter `rejected: set<string>`.

## Model

| member | source | states |
|---|---|---|
| Text.Strip | scripts/adamus-index-images.py:106 | the result has no whitespace at either end and is no longer than the input |
| Text.StripSlice | scripts/adamus-index-images.py:106 | strip returns a slice s[i:j] of its argument with only whitespace outside it |
| Text.StripParts | scripts/adamus-index-images.py:26 | every string is whitespace + strip(s) + whitespace |
| Text.StripUnique | scripts/adamus-index-images.py:26 | whitespace + m + whitespace strips to m for every stripped m, so the strip is determined by the text between the whitespace runs |
| Text.StripEmpty | scripts/adamus-index-pdf.py:118-120 | strip gives "" exactly for strings made only of whitespace |
| Text.StripChars | scripts/adamus-index-images.py:106 | strip keeps only characters of its argument |
| Text.SplitOn | scripts/adamus-index-images.py:184 | split(",") gives at least one piece, and no piece contains the separator |
| Text.SplitJoin | scripts/adamus-index-images.py:184 | splitting a join whose parts omit the separator gives the parts back |
| Text.DecimalValueOfDigits | scripts/adamus-index-images.py:183 | int(str(n)) == n |
| Text.Digits | scripts/adamus-index-images.py:45 | str(n) is a non-empty run of decimal digits |
| Text.DigitsInjective | scripts/adamus-index-images.py:45 | different counters print differently |
| Text.IndexOf | scripts/adamus-index-images.py:29 | the first position of the character, or the length when it does not occur |
| Sanitize.SanitizeText | scripts/adamus-index-images.py:15-20 | "" maps to ""; the output has no '\r' and no character of [\x00-\x08\x0B\x0C\x0E-\x1F]; SanitizeStep and SanitizePieces fix every other character of the output |
| Sanitize.CrToLf | scripts/adamus-index-images.py:19 | replace("\r", "\n") keeps the length; at each position a '\r' becomes '\n' and any other character stays |
| Sanitize.CrLfToLfCounts | scripts/adamus-index-images.py:19 | replace("\r\n", "\n") keeps the '\n' and tab counts and removes one '\r' per pair |
| Sanitize.CrToLfCounts | scripts/adamus-index-images.py:19 | replace("\r", "\n") turns each '\r' into a '\n' and keeps tabs |
| Sanitize.DropControlsCounts | scripts/adamus-index-images.py:20 | the regex substitution keeps every '\n' and tab |
| Sanitize.DropControls | scripts/adamus-index-images.py:20 | the regex substitution leaves none of the class, adds no character and never lengthens |
| Sanitize.SanitizeKeepsTabsAndLines | scripts/adamus-index-images.py:15-20 | every tab survives; the number of '\n' is the input's '\n' plus '\r' minus "\r\n" pairs, so each line ending becomes one '\n' |
| Sanitize.SanitizeOfClean | scripts/adamus-index-images.py:15-20 | text that is already clean passes unchanged |
| Sanitize.SanitizeIdempotent | scripts/adamus-index-images.py:15-20 | sanitize_text applied twice equals once |
| Sanitize.CrLfToLfAppend | scripts/adamus-index-images.py:19 | replace("\r\n", "\n") of a + b is the replace of a followed by the replace of b, whenever the cut does not split a "\r\n" pair (a ends in '\r' and b starts with '\n') |
| Sanitize.CrLfToLfPieces | scripts/adamus-index-images.py:19 | replace("\r\n", "\n") turns "\r\n" into "\n" and keeps every single character |
| Sanitize.CrToLfAppend | scripts/adamus-index-images.py:19 | replace("\r", "\n") of a + b is the replace of a followed by the replace of b |
| Sanitize.DropControlsAppend | scripts/adamus-index-images.py:20 | the regex substitution of a + b is the substitution of a followed by that of b |
| Sanitize.DropControlsChar | scripts/adamus-index-images.py:20 | the regex substitution deletes a single character exactly when it is in [\x00-\x08\x0B\x0C\x0E-\x1F] and keeps it otherwise |
| Sanitize.SanitizeAppend | scripts/adamus-index-images.py:15-20 | sanitize_text of a + b is sanitize_text(a) + sanitize_text(b) whenever the cut does not split a "\r\n" pair |
| Sanitize.SanitizePieces | scripts/adamus-index-images.py:15-20 | sanitize_text maps "\r\n" to "\n", a lone '\r' to "\n", a character of the control class to "" and any other character to itself |
| Sanitize.SanitizeStep | scripts/adamus-index-images.py:15-20 | read left to right, a leading "\r\n" becomes "\n" and any other leading character is sanitized on its own before the rest; with SanitizePieces this fixes the output of every text |
| Sanitize.SanitizeCrBefore | scripts/adamus-index-images.py:19 | a lone '\r' before a character other than '\n' becomes its own "\n" followed by sanitize_text of that character, so "\ra" gives "\na" |
| Sanitize.SanitizeCrLfBetween | scripts/adamus-index-images.py:15-20 | a "\r\n" between two characters that are kept becomes one "\n" and both characters stay |
| SqlQuote.Escape | scripts/adamus-index-images.py:34-35 | the output is longer than the input by exactly the number of quotes |
| SqlQuote.UnescapeEscape | scripts/adamus-index-images.py:34-35 | un-doubling the quotes of the output left to right gives back the input; the PDF script's sql_escape is the same code |
| SqlQuote.EscapeIsPaired | scripts/adamus-index-images.py:34-35 | the output has no unpaired quote |
| SqlQuote.EscapeUnescape | scripts/adamus-index-images.py:34-35 | every string without an unpaired quote is the escape of its un-doubling |
| SqlQuote.Tag | scripts/adamus-index-images.py:41-45 | every tag starts with "$adamus" and ends with '$' |
| SqlQuote.TagPrefixFree | scripts/adamus-index-images.py:43-45 | no tag is a prefix of another, so at most one counter's tag starts at any position |
| SqlQuote.TagsAtSamePosition | scripts/adamus-index-images.py:43-45 | two tags that both start the same text are the same tag |
| SqlQuote.TagsInBound | scripts/adamus-index-images.py:43-45 | at most |s| counters have a tag occurring in s |
| SqlQuote.OccurringTagsBound | scripts/adamus-index-images.py:43-45 | if the tags of all counters below n occur in s, then n <= |s|, so the loop terminates |
| SqlQuote.FreeTag | scripts/adamus-index-images.py:40-45 | the loop's tag is Tag(counter), is absent from the content, every earlier tag occurs, and counter <= the content's length |
| SqlQuote.SqlLiteral | scripts/adamus-index-images.py:38-46 | the literal is tag + sanitize_text(value) + tag for the first absent tag $adamus$, $adamus_1$, ..., with counter <= the content's length |
| SqlQuote.RemoveNul | scripts/adamus-index-pdf.py:32 | the result holds no NUL |
| SqlQuote.RemoveNulCounts | scripts/adamus-index-pdf.py:32 | only NULs are removed: every other character keeps its number of occurrences |
| SqlQuote.RemoveNulOfClean | scripts/adamus-index-pdf.py:32 | content without NUL is kept as it is |
| SqlQuote.PdfSqlLiteral | scripts/adamus-index-pdf.py:31-38 | the literal is tag + content + tag, where tag is the first of the three tags absent from the NUL-free content, or $adamus_chunk$ when all three occur |
| EnvFile.ParseLine | scripts/adamus-index-images.py:26-30 | a blank line, a '#' line or a line without '=' contributes nothing; otherwise the key has no '=' and key and value are stripped (which key and value: ParseSplit) |
| EnvFile.ParseAssignment | scripts/adamus-index-images.py:29-30 | a stripped key without '=' that does not start with '#', followed by "=" and a stripped value, is read back as exactly that key and value |
| EnvFile.ParseSplit | scripts/adamus-index-images.py:26-30 | for a key part k without '=' and any value part v, the line k + "=" + v gives nothing when strip(k) starts with '#', and otherwise the pair (strip(k), strip(v)): the split is at the first '=' and both sides are stripped |
| EnvFile.ParseAtFirstEq | scripts/adamus-index-images.py:26-30 | when the stripped line is pre + "=" + w with no '=' in pre, the line gives nothing if pre starts with '#', and otherwise (strip(pre), strip(w)) |
| EnvFile.StripAssignment | scripts/adamus-index-images.py:26 | stripping k + "=" + v (no '=' in k) leaves pre + "=" + post where pre strips to strip(k), post strips to strip(v), and pre starts with '#' exactly when strip(k) does |
| EnvFile.ParseSpacedExample | scripts/adamus-index-images.py:26-30 | the line " KEY = VALUE " defines KEY as VALUE |
| EnvFile.LoadEnv | scripts/adamus-index-images.py:23-31 | the loop builds EnvOf(lines); the PDF script's load_env is the same code |
| EnvFile.EnvKeys | scripts/adamus-index-images.py:23-31 | a key is present exactly when some line defines it |
| EnvFile.EnvLastWins | scripts/adamus-index-images.py:30 | a key's value is the one of the last line that defines it |
| Chunker.FirstBlank | scripts/adamus-index-images.py:106 | the leftmost start of "\n\n", or the length when there is none |
| Chunker.NewlineRunEnd | scripts/adamus-index-images.py:106 | the greedy end of \n{2,}: newlines up to it and none at it |
| Chunker.SplitBlankRuns | scripts/adamus-index-images.py:106 | re.split(r"\n{2,}") gives at least one piece, each made of characters of the text |
| Chunker.SplitBlankRunsNoBlank | scripts/adamus-index-images.py:106 | no piece contains "\n\n" |
| Chunker.BlankSepsCount | scripts/adamus-index-images.py:106 | there is one more piece than removed separator |
| Chunker.BlankSepsAreRuns | scripts/adamus-index-images.py:106 | every removed separator is a run of two or more newlines |
| Chunker.SplitBlankRunsRebuild | scripts/adamus-index-images.py:106 | the pieces, woven back with the removed runs in order, give the text: nothing is lost |
| Chunker.SplitBlankRunsSeams | scripts/adamus-index-images.py:106 | each removed run is maximal: the piece before it does not end in "\n" and the piece after it does not start with one |
| Chunker.SplitAtBlank | scripts/adamus-index-images.py:106 | a text a + "\n\n" + b splits into a followed by the pieces of b, when a has no blank and neither side has a newline at the seam |
| Chunker.FirstLineBreak | scripts/adamus-index-pdf.py:67 | the first line boundary, or the length when there is none |
| Chunker.SplitLines | scripts/adamus-index-pdf.py:67 | splitlines gives lines without any line boundary, made of characters of the text |
| Chunker.SplitLinesRebuild | scripts/adamus-index-pdf.py:67 | each line followed by the boundary that ended it gives back the text: nothing is lost |
| Chunker.LineEndsAreBoundaries | scripts/adamus-index-pdf.py:67 | every consumed boundary is one line-break character or "\r\n"; only the last line may lack one, and then it is not empty (a final boundary opens no empty line) |
| Chunker.CrLfIsOneBoundary | scripts/adamus-index-pdf.py:67 | "\r\n" is one boundary: a lone "\r" boundary is never followed by an empty line ended by "\n" |
| Chunker.NonBlank | scripts/adamus-index-images.py:106 | the kept paragraphs are stripped, non-empty and no more than the pieces |
| Chunker.NonBlankSnoc | scripts/adamus-index-images.py:106 | one more piece adds its stripped form at the end when that is not empty, and nothing otherwise: the paragraphs are the non-blank stripped pieces in order |
| Chunker.Paragraphs | scripts/adamus-index-pdf.py:67 | every paragraph is stripped and non-empty |
| Chunker.LineParagraphsHaveNoBreaks | scripts/adamus-index-pdf.py:67 | the PDF script's paragraphs contain no line boundary |
| Chunker.SpansFrom | scripts/adamus-index-images.py:118-122 | the windows lie within the paragraph, are at most max_len long, and the first starts at the start |
| Chunker.WindowsFrom | scripts/adamus-index-images.py:118-122 | every window is non-empty and at most max_len long |
| Chunker.WindowsAreSpans | scripts/adamus-index-images.py:121 | window k is p[start:end] of span k |
| Chunker.SpansIncrease | scripts/adamus-index-images.py:122 | window starts strictly increase and ends never decrease |
| Chunker.SpansReachEnd | scripts/adamus-index-images.py:119-122 | with overlap >= 0 the last window ends at len(p) |
| Chunker.SpansStepBack | scripts/adamus-index-images.py:122 | with 0 <= overlap < max_len each window starts overlap characters before the previous one ends |
| Chunker.SpansCover | scripts/adamus-index-pdf.py:79-84 | with overlap >= 0 the windows cover every position of the paragraph |
| Chunker.WindowsShareOverlap | scripts/adamus-index-images.py:117-123 | with 0 <= overlap < max_len consecutive windows share exactly overlap characters |
| Chunker.WindowsRebuild | scripts/adamus-index-images.py:117-123 | gluing the windows back, minus the repeated characters, gives the paragraph: nothing is lost |
| Chunker.StripMerge | scripts/adamus-index-images.py:111 | f"{current}\n{p}".strip() is the plain join for a stripped buffer and paragraph |
| Chunker.Feed | scripts/adamus-index-images.py:110-123 | one paragraph step keeps the buffer stripped (what it emits is stated by FeedGreedy and FlushFeed) |
| Chunker.HardSplit | scripts/adamus-index-images.py:118-122 | the window loop appends exactly the windows of p |
| Chunker.FeedParagraph | scripts/adamus-index-images.py:110-123 | one turn of the paragraph loop is the step Feed |
| Chunker.PackParagraphs | scripts/adamus-index-images.py:107-126 | the paragraph loop and the final flush give Chunks(paragraphs) |
| Chunker.ChunkText | scripts/adamus-index-images.py:103-126 | chunk_text returns ChunkTextSpec, which is [] for ""; the PDF script's chunk_text is the same loop over line paragraphs |
| Chunker.FeedAllBounded | scripts/adamus-index-images.py:109-123 | after any prefix of paragraphs, emitted chunks are non-empty and at most max_len, and so is the buffer |
| Chunker.ChunksBounded | scripts/adamus-index-images.py:103-126 | with max_len > 0 every chunk is non-empty and at most max_len long |
| Chunker.FlushFeed | scripts/adamus-index-images.py:110-123 | after a step the flushed chunk list is not empty; a paragraph longer than max_len closes the buffer and adds its windows; for one of at most max_len, the "\n"-join of the flushed chunks is the old join + "\n" + p, or p when there was nothing before |
| Chunker.FeedGreedy | scripts/adamus-index-images.py:110-116 | the greedy rule per paragraph: one that fits after a non-empty buffer extends the last chunk with "\n" and itself; into an empty buffer it goes whole; one that does not fit after the buffer (but fits alone) closes it and starts the next chunk |
| Chunker.FeedAllFits | scripts/adamus-index-images.py:109-116 | while the paragraphs joined by "\n" fit in max_len, the buffer holds exactly that join and nothing is emitted |
| Chunker.AllFitOneChunk | scripts/adamus-index-images.py:109-126 | greedy packing: paragraphs whose "\n"-join fits in max_len become exactly one chunk, that join |
| Chunker.ChunksJoin | scripts/adamus-index-images.py:109-126 | without oversized paragraphs the chunks joined by "\n" are the paragraphs joined by "\n", in order, and there is a chunk iff there is a paragraph |
| Chunker.ChunksAroundHardSplit | scripts/adamus-index-images.py:113-123 | an oversized paragraph is a barrier: the chunks before it, its windows and the chunks after it are independent |
| Chunker.BlankTextNoChunks | scripts/adamus-index-pdf.py:64-67 | a text made only of whitespace has no paragraph and no chunk |
| Chunker.ChunkChars | scripts/adamus-index-images.py:103-126 | every character of a chunk is a "\n" or occurs in the text |
| Chunker.SplitTwo | scripts/adamus-index-images.py:106 | two pieces without newlines around one blank line split into exactly those two |
| Chunker.TwoParagraphsExample | scripts/adamus-index-images.py:103-126 | "Para one.\n\nPara two." at 1200/200 gives ["Para one.\nPara two."] |
| Chunker.LongParagraphSpans | scripts/adamus-index-images.py:117-123 | a 3000-character paragraph at 1200/200 has spans (0,1200), (1000,2200), (2000,3000), (2800,3000) |
| Chunker.LongParagraphExample | scripts/adamus-index-images.py:117-123 | its windows are those four slices |
| ImageSelection.LastDot | scripts/adamus-index-images.py:137 | the index of the last '.', or -1 |
| ImageSelection.Suffix | scripts/adamus-index-images.py:132 | a suffix is "" or starts with its only '.' |
| ImageSelection.Stem | scripts/adamus-index-images.py:136 | stem + suffix is the name |
| ImageSelection.Lower | scripts/adamus-index-images.py:132 | lower() keeps the length and lowers each character |
| ImageSelection.ImageFiles | scripts/adamus-index-images.py:130-133 | the kept names are exactly the listed names with a .jpg, .jpeg or .png suffix in any case |
| ImageSelection.BaseStem | scripts/adamus-index-images.py:137-138 | re.sub(r"\s+1$", "") removes something exactly when whitespace + "1" ends where `$` matches (at the end, or before a final "\n"), and then removes the "1" and the whole whitespace run before it, keeping the final "\n" |
| ImageSelection.BaseStemBeforeNewline | scripts/adamus-index-images.py:138 | "IMG_5 1\n" becomes "IMG_5\n": `$` also matches before a final newline |
| ImageSelection.ChooseImages | scripts/adamus-index-images.py:134-145 | the loop builds ChooseAll(entries): the dictionary and its insertion order |
| ImageSelection.ChooseAllValid | scripts/adamus-index-images.py:134-145 | keys and order agree, no key repeats, each file is stored under its own key and is a listed file |
| ImageSelection.ChoiceIsPreferred | scripts/adamus-index-images.py:138-145 | a key is present iff some file has it, and then its file is the first without " 1", or the first of all when every one has " 1" |
| ImageSelection.FirstImg | scripts/adamus-index-images.py:149 | the leftmost match of IMG_\d, or the length |
| ImageSelection.DigitRunEnd | scripts/adamus-index-images.py:149 | the greedy end of \d+ |
| ImageSelection.LeTotal | scripts/adamus-index-images.py:148-155 | the sort_key order is total |
| ImageSelection.LeTrans | scripts/adamus-index-images.py:148-155 | the sort_key order is transitive |
| ImageSelection.SortImages | scripts/adamus-index-images.py:155 | the sort result is a permutation of its input |
| ImageSelection.InsertSorted | scripts/adamus-index-images.py:155 | inserting into a sorted list keeps it sorted |
| ImageSelection.SortImagesSorted | scripts/adamus-index-images.py:155 | the sort puts the images in sort_key order and keeps exactly the same images |
| ImageSelection.SelectImages | scripts/adamus-index-images.py:129-155 | select_images returns SelectSpec(names) |
| ImageSelection.OneFilePerKey | scripts/adamus-index-images.py:138-145 | no two returned files share a key |
| ImageSelection.OnlyListedImages | scripts/adamus-index-images.py:130-133 | every returned file is a listed image |
| ImageSelection.EveryKeyKept | scripts/adamus-index-images.py:138-141 | every listed image has a file of its key in the result |
| ImageSelection.KeptIsPreferred | scripts/adamus-index-images.py:142-145 | the file kept for a key is its first one without " 1" in the stem, or its first one when all have it |
| ImageSelection.SortedOrder | scripts/adamus-index-images.py:147-155 | files come out by (0, n, name) for IMG_<n> stems, then by (1, name) |
| ImageSelection.KeptReplaced | scripts/adamus-index-images.py:144-145 | a " 1" variant seen first gives way to the plain file of its key |
| ImageSelection.SelectReplaced | scripts/adamus-index-images.py:144-145 | a " 1" variant listed before its plain file is dropped from the result |
| ImageSelection.DuplicateExample | scripts/adamus-index-images.py:136-145 | of "IMG_5 1.jpg" and "IMG_5.JPG" only "IMG_5.JPG" is returned |
| ImageSelection.NumericOrderExample | scripts/adamus-index-images.py:147-155 | IMG_9 sorts before IMG_10 by number |
| ImageSelection.TextOrderExample | scripts/adamus-index-images.py:151-153 | "IMG_9.jpg" is not before "IMG_10.jpg" as a plain string, which is why the number is compared |
| Reconcile.Store.UpsertImagePage | scripts/adamus-index-images.py:253-266 | the page gets the new uri and text and keeps its chunks |
| Reconcile.Store.UpsertPdfPage | scripts/adamus-index-pdf.py:171-182 | an existing page keeps its uri and gets the new text; a new page gets the source uri |
| Reconcile.Store.DeleteChunks | scripts/adamus-index-images.py:269-273 | the page keeps no chunk; no other page changes |
| Reconcile.Store.InsertChunk | scripts/adamus-index-images.py:278-287 | one row with the index and content is appended to the page; no other page changes |
| Reconcile.Snapshot | scripts/adamus-index-images.py:228-235 | every row of the existing-pages query is a stored page with its uri and chunk count |
| Reconcile.ByPage | scripts/adamus-index-images.py:236-238 | existing_by_page.get finds a row with that page_no, and finds none iff there is none |
| Reconcile.ByUri | scripts/adamus-index-images.py:239-241 | existing_by_uri.get finds a row with that non-empty uri, and finds none iff there is none |
| Reconcile.ByPageLast | scripts/adamus-index-images.py:236-238 | the dictionary keeps the last row of a page_no |
| Reconcile.ByUriLast | scripts/adamus-index-images.py:239-241 | the dictionary keeps the last row of a uri |
| Reconcile.VisionText | scripts/adamus-index-images.py:100 | the OCR text is clean |
| Reconcile.AsciiOnly | scripts/adamus-index-images.py:293 | encode("ascii", "ignore") keeps only ASCII characters and never lengthens |
| Reconcile.InsertAttempt | scripts/adamus-index-images.py:286-308 | one try/except adds the chunk, or its fallback when the chunk is refused, or nothing |
| Reconcile.InsertNextChunk | scripts/adamus-index-images.py:277-308 | one turn of the chunk loop extends the page's rows by those of chunk c + 1 |
| Reconcile.InsertImageChunks | scripts/adamus-index-images.py:277-308 | the chunk loop appends ImageChunkRows of the chunks to the page |
| Reconcile.ResetImagePage | scripts/adamus-index-images.py:253-273 | after the upsert and the delete the page holds the uri and text and no chunk |
| Reconcile.RebuildImagePage | scripts/adamus-index-images.py:253-308 | a reprocessed page holds the uri, the sanitized text and exactly the rows of its chunks: old chunks do not survive |
| Reconcile.HandleImage | scripts/adamus-index-images.py:245-308 | one iteration skips the page or rebuilds it, as ImageStep says |
| Reconcile.HandleNextImage | scripts/adamus-index-images.py:243-308 | iteration i + 1 extends the run over the first i images |
| Reconcile.HandleImages | scripts/adamus-index-images.py:243-308 | the loop leaves ImagePages of the old store |
| Reconcile.RunImages | scripts/adamus-index-images.py:182-308 | returns false, changing nothing, iff select_images finds no image; otherwise the store becomes ImagePages over the selected images, with force pages parsed from ADAMUS_FORCE_PAGES |
| Reconcile.ImagePagesOutside | scripts/adamus-index-images.py:243 | pages outside 1..n are untouched |
| Reconcile.ImagePagesAt | scripts/adamus-index-images.py:246-308 | page k is left as it was when the row found by page_no k (or else by the file uri) has chunk_count > 0 and k is not forced; otherwise it is exactly the page rebuilt from image k |
| Reconcile.ForcedPageRebuilt | scripts/adamus-index-images.py:247 | a forced page is always rebuilt from its image |
| Reconcile.SnapshotHasPage | scripts/adamus-index-images.py:228-235 | a page the query lists has a row |
| Reconcile.StoredPageFound | scripts/adamus-index-images.py:236-238 | a listed page with chunks is found by page_no with chunk_count > 0 |
| Reconcile.StoredImagePageSkipped | scripts/adamus-index-images.py:246-249 | such a page is skipped by the next unforced run |
| Reconcile.ImageRerunUnchanged | scripts/adamus-index-images.py:243-249 | once every page has chunks, a run without forced pages over a snapshot of the store changes nothing |
| Reconcile.ImageChunkRowsNumbered | scripts/adamus-index-images.py:277-308 | chunk rows are numbered within 1..n in increasing order (no duplicate index), each holding its chunk's content or its fallback |
| Reconcile.ImageChunkRowsAccepted | scripts/adamus-index-images.py:277-288 | when no content is refused, row i is (i + 1, content i) |
| Reconcile.FallbackIsAscii | scripts/adamus-index-images.py:293 | the fallback is ASCII |
| Reconcile.AsciiOnlyAppend | scripts/adamus-index-images.py:293 | encode("ascii", "ignore") of a + b is the encoding of a followed by that of b |
| Reconcile.AsciiOnlyChar | scripts/adamus-index-images.py:293 | a single character is kept exactly when it is below U+0080 and dropped otherwise |
| Reconcile.AsciiOnlyDropsWide | scripts/adamus-index-images.py:293 | a character beyond ASCII in front of an ASCII text is dropped and the text is kept |
| Reconcile.AsciiOnlyOfAscii | scripts/adamus-index-images.py:293 | an ASCII string is its own ASCII encoding |
| Reconcile.FallbackRetried | scripts/adamus-index-images.py:293-295 | a chunk with a non-ASCII character differs from its fallback, which is retried when non-empty; a refused stripped ASCII chunk stores no row |
| Reconcile.CleanChunks | scripts/adamus-index-images.py:276 | the chunks of a clean text are clean |
| Reconcile.RebuiltImagePage | scripts/adamus-index-images.py:251-288 | a rebuilt page stores the OCR text as it is and, when nothing is refused, chunk i is chunk_text's chunk i, numbered i + 1 |
| Reconcile.ForcePagesOfList | scripts/adamus-index-images.py:182-186 | a comma-separated list of numbers gives exactly those pages |
| Reconcile.PageTexts | scripts/adamus-index-pdf.py:115-118 | the loop collects strip(extract_text() or "") of each page |
| Reconcile.NoTextIffBlank | scripts/adamus-index-pdf.py:120 | not any(page_texts) iff every page extracts nothing or only whitespace |
| Reconcile.Accepted | scripts/adamus-index-pdf.py:193-203 | the number of leading chunks the database accepts: all before it accepted, the one at it refused |
| Reconcile.AcceptedIs | scripts/adamus-index-pdf.py:193-203 | that number is unique |
| Reconcile.InsertPdfChunks | scripts/adamus-index-pdf.py:193-203 | the loop inserts the accepted chunks, numbered from 1, and reports the first refused one |
| Reconcile.ResetPdfPage | scripts/adamus-index-pdf.py:171-189 | after the upsert and the delete the page holds its text and no chunk |
| Reconcile.RebuildPdfPage | scripts/adamus-index-pdf.py:171-203 | a reprocessed page is PdfStep of the old store |
| Reconcile.HandlePdfPage | scripts/adamus-index-pdf.py:168-203 | one iteration skips the page or rebuilds it, as PdfStep says |
| Reconcile.HandleNextPdfPage | scripts/adamus-index-pdf.py:167-203 | iteration i + 1 extends the run over the first i pages |
| Reconcile.HandlePdfPages | scripts/adamus-index-pdf.py:167-203 | the loop leaves PdfPages of the old store, and a refusal ends it |
| Reconcile.RunPdf | scripts/adamus-index-pdf.py:115-203 | returns false, changing nothing, iff every page text is empty; otherwise the store and the failure are PdfPages over the page texts |
| Reconcile.PdfPagesStop | scripts/adamus-index-pdf.py:202 | after a refused insert nothing else happens |
| Reconcile.PdfPagesOutside | scripts/adamus-index-pdf.py:167 | pages outside 1..n are untouched |
| Reconcile.PdfFailure | scripts/adamus-index-pdf.py:193-202 | an aborted run stops on a page it rebuilt, at its first refused chunk |
| Reconcile.PdfPagesAt | scripts/adamus-index-pdf.py:168-203 | page k is unchanged if the run stopped earlier or a row with page_no k has chunk_count > 0; otherwise it has the text and exactly the rows of its accepted chunks, and all its chunks unless the run aborted on it |
| Reconcile.StoredPdfPageSkipped | scripts/adamus-index-pdf.py:168-170 | a listed page with chunks is skipped by the next run |
| Reconcile.PdfRerunUnchanged | scripts/adamus-index-pdf.py:167-170 | once every page has chunks, a rerun over a snapshot changes nothing and cannot fail |
| Reconcile.PdfRunComplete | scripts/adamus-index-pdf.py:171-203 | in a run that finishes, a rebuilt page holds its NUL-free text and one row per chunk of chunk_text(text), numbered from 1 |
| Reconcile.PdfAbortedOn | scripts/adamus-index-pdf.py:193-202 | a run aborted on chunk c of page f refused that chunk and leaves page f with the rows of its first c - 1 chunks |
| Reconcile.PdfRunAborted | scripts/adamus-index-pdf.py:192-202 | the same in terms of chunk_text of the page texts |
| Reconcile.PdfRunAbortedLater | scripts/adamus-index-pdf.py:202 | a run aborted on page f leaves every later page as it was |

## Left out

- `sql_query`: the HTTP request, the retries and the backoff. The statements become `Store` methods. Whether the database refuses a chunk's content is the parameter `rejected`.
- Failures of the other queries: the upserts, the deletes, the existing-pages query, and an OCR request that raises. These end the script in Python. The model treats them as always succeeding.
- `call_vision`: the request and the JSON response. The annotation text of each image is the parameter `ocr`, and `VisionText` models the final `sanitize_text(text.strip())`.
- `PdfReader` and `extract_text`: the result of each page is an `Option<string>` input.
- The filesystem (`iterdir`, `is_file`, `read_text`). The listing is a sequence of names, the env file a sequence of lines, and a file's uri is `"file://" + folder + "/" + name`. pathlib's normalisation of the folder path is not modelled.
- The row order of the existing-pages query, which has no ORDER BY. It is the parameter `order` of `Snapshot`. The dictionaries keep the last row of each key.
- The subject and material queries, the environment-variable checks, the text of the SQL statements, `print` and `time.sleep`.
- The UTF-8 encode/decode with "ignore" in `sanitize_text`: strings are already character sequences, so this is the identity.
- Unicode fidelity:
  - `str.isdigit` and `\d` are ASCII digits.
  - `lower()` lowers ASCII letters only.
  - `strip` uses Python's whitespace set.
  - `splitlines` uses Python's line-boundary set.
- Reconcile.RunImages: requires `maxLen > 0`. With `ADAMUS_CHUNK_MAX <= 0` and a non-blank page, the window loop of `chunk_text` runs forever when the overlap is at least max_len, and otherwise emits empty slices or slices of Python's negative-index kind; neither case is modelled. The `int()` parse of that variable is not modelled either.
- Chunker.ChunkText: requires `maxLen > 0` or no paragraph, for the same reason.
- SqlQuote.SqlLiteral: states only that the tag is absent from the content. A content ending in e.g. "$adamus" can still meet the closing tag, so no decoding round trip is claimed.
- Reconcile.HandlePdfPage: computes the chunks before the upsert, while the script calls `chunk_text` after the delete. The chunking is pure, so the order does not matter.
