/** The page loop of both main functions, against an abstract store: which pages are
    skipped, and what a reprocessed page holds afterwards. The HTTP calls become the
    methods of Store; the OCR service, the PDF reader and the database's row order
    become parameters. */
module Reconcile {
  import opened Text
  import opened Sanitize
  import opened SqlQuote
  import opened Chunker
  import opened ImageSelection

  /** A material_chunks row of a page. */
  datatype Chunk = Chunk(index: nat, content: string)

  /** A material_pages row with the chunks that reference it. */
  datatype PageRow = PageRow(uri: string, text: string, chunks: seq<Chunk>)

  /** A row of the existing-pages query: page_no, image_uri ("" for null) and chunk_count. */
  datatype Row = Row(pageNo: int, uri: string, chunkCount: nat)

  /** The pages of one material in the database, by page_no. */
  class Store {
    var pages: map<int, PageRow>

    constructor (pages0: map<int, PageRow>)
      ensures pages == pages0
    {
      pages := pages0;
    }

    /** The image script's page upsert: on conflict the uri and the text are replaced. */
    method UpsertImagePage(pageNo: int, uri: string, text: string)
      modifies this
      ensures pages == old(pages)[pageNo :=
        PageRow(uri, text, if pageNo in old(pages) then old(pages)[pageNo].chunks else [])]
    {
      var chunks := if pageNo in pages then pages[pageNo].chunks else [];
      pages := pages[pageNo := PageRow(uri, text, chunks)];
    }

    /** The PDF script's page upsert: on conflict only the text is replaced. */
    method UpsertPdfPage(pageNo: int, uri: string, text: string)
      modifies this
      ensures pages == old(pages)[pageNo :=
        if pageNo in old(pages) then old(pages)[pageNo].(text := text) else PageRow(uri, text, [])]
    {
      var row := if pageNo in pages then pages[pageNo].(text := text) else PageRow(uri, text, []);
      pages := pages[pageNo := row];
    }

    /** delete from material_chunks where page_id = the page's id */
    method DeleteChunks(pageNo: int)
      requires pageNo in pages
      modifies this
      ensures pages == old(pages)[pageNo := old(pages)[pageNo].(chunks := [])]
    {
      pages := pages[pageNo := pages[pageNo].(chunks := [])];
    }

    /** insert into material_chunks (page_id, chunk_index, content) */
    method InsertChunk(pageNo: int, index: nat, content: string)
      requires pageNo in pages
      modifies this
      ensures pages == old(pages)[pageNo :=
        old(pages)[pageNo].(chunks := old(pages)[pageNo].chunks + [Chunk(index, content)])]
    {
      pages := pages[pageNo := pages[pageNo].(chunks := pages[pageNo].chunks + [Chunk(index, content)])];
    }
  }

  // ------------------------------------------------------- the existing pages

  /** The rows the existing-pages query returns, in the database's order `order`. */
  function Snapshot(pages: map<int, PageRow>, order: seq<int>): (rows: seq<Row>)
    ensures forall i :: 0 <= i < |rows| ==>
      rows[i].pageNo in pages && rows[i] == RowOf(pages, rows[i].pageNo)
  {
    if order == [] then []
    else
      var p := order[|order| - 1];
      Snapshot(pages, order[..|order| - 1]) + (if p in pages then [RowOf(pages, p)] else [])
  }

  function RowOf(pages: map<int, PageRow>, p: int): Row
    requires p in pages
  {
    Row(p, pages[p].uri, |pages[p].chunks|)
  }

  /** existing_by_page.get(page_no): the last row with that page_no. */
  function ByPage(rows: seq<Row>, pageNo: int): (r: Option<Row>)
    ensures r.Some? ==> r.value in rows && r.value.pageNo == pageNo
    ensures r.None? <==> forall i :: 0 <= i < |rows| ==> rows[i].pageNo != pageNo
  {
    if rows == [] then None
    else if rows[|rows| - 1].pageNo == pageNo then Some(rows[|rows| - 1])
    else ByPage(rows[..|rows| - 1], pageNo)
  }

  /** existing_by_uri.get(uri): the last row with that non-empty image_uri. */
  function ByUri(rows: seq<Row>, uri: string): (r: Option<Row>)
    ensures r.Some? ==> r.value in rows && r.value.uri == uri && uri != []
    ensures r.None? <==> uri == [] || forall i :: 0 <= i < |rows| ==> rows[i].uri != uri
  {
    if rows == [] then None
    else if rows[|rows| - 1].uri == uri && uri != [] then Some(rows[|rows| - 1])
    else ByUri(rows[..|rows| - 1], uri)
  }

  /** The dictionary keeps the last row of a page_no: a row found at i has no later row
      with that page_no. */
  lemma {:induction false} ByPageLast(rows: seq<Row>, pageNo: int, i: nat)
    requires i < |rows| && rows[i].pageNo == pageNo
    requires forall j :: i < j < |rows| ==> rows[j].pageNo != pageNo
    ensures ByPage(rows, pageNo) == Some(rows[i])
  {
    if i < |rows| - 1 {
      var init := rows[..|rows| - 1];
      ByPageLast(init, pageNo, i);
    }
  }

  /** The same for the image_uri dictionary. */
  lemma {:induction false} ByUriLast(rows: seq<Row>, uri: string, i: nat)
    requires i < |rows| && rows[i].uri == uri && uri != []
    requires forall j :: i < j < |rows| ==> rows[j].uri != uri
    ensures ByUri(rows, uri) == Some(rows[i])
  {
    if i < |rows| - 1 {
      var init := rows[..|rows| - 1];
      ByUriLast(init, uri, i);
    }
  }

  /** existing_by_page.get(idx) or existing_by_uri.get(image_uri) */
  function Existing(rows: seq<Row>, pageNo: int, uri: string): Option<Row> {
    if ByPage(rows, pageNo).Some? then ByPage(rows, pageNo) else ByUri(rows, uri)
  }

  // ------------------------------------------------------------ image inputs

  /** The page numbers of ADAMUS_FORCE_PAGES: the comma-separated pieces that are
      decimal numerals once stripped. */
  function ForcePages(raw: string): set<int> {
    set p | p in SplitOn(raw, ',') && IsDecimal(Strip(p)) :: DecimalValue(Strip(p))
  }

  /** ",".join(str(n) for n in ns) */
  function JoinNumbers(ns: seq<nat>): string {
    JoinWith(seq(|ns|, i requires 0 <= i < |ns| => Digits(ns[i])), ",")
  }

  /** f"file://{path.as_posix()}" for a name in the folder. */
  function ImageUri(folder: string, name: string): string {
    "file://" + folder + "/" + name
  }

  /** What call_vision returns for the annotation text `raw` ("" when there is none). */
  function VisionText(raw: string): (text: string)
    ensures Clean(text)
  {
    SanitizeText(Strip(raw))
  }

  /** s.encode("ascii", "ignore").decode("ascii") */
  function AsciiOnly(s: string): (r: string)
    ensures forall i :: 0 <= i < |r| ==> r[i] < '\U{80}'
    ensures |r| <= |s|
  {
    if s == [] then [] else (if s[0] < '\U{80}' then [s[0]] else []) + AsciiOnly(s[1..])
  }

  /** The ASCII filter works character by character: it distributes over + ... */
  lemma {:induction false} AsciiOnlyAppend(a: string, b: string)
    ensures AsciiOnly(a + b) == AsciiOnly(a) + AsciiOnly(b)
  {
    if a == [] {
      assert a + b == b;
    } else {
      assert (a + b)[1..] == a[1..] + b;
      AsciiOnlyAppend(a[1..], b);
    }
  }

  /** ... and keeps exactly the characters below U+0080. */
  lemma AsciiOnlyChar(c: char)
    ensures AsciiOnly([c]) == if c < '\U{80}' then [c] else []
  {
    assert [c][1..] == [];
  }

  /** A character beyond ASCII in front of an ASCII text is dropped and the text is kept. */
  lemma AsciiOnlyDropsWide(e: char, s: string)
    requires e >= '\U{80}'
    requires forall i :: 0 <= i < |s| ==> s[i] < '\U{80}'
    ensures AsciiOnly([e] + s) == s
  {
    AsciiOnlyAppend([e], s);
    AsciiOnlyChar(e);
    AsciiOnlyOfAscii(s);
    assert [] + s == s;
  }


  /** The ASCII fallback text of a chunk. */
  function Fallback(chunk: string): string {
    Strip(AsciiOnly(chunk))
  }

  // ------------------------------------------------------------ image run

  /** The branch of the loop that skips page idx. */
  predicate ImageSkip(existing: Option<Row>, idx: int, force: set<int>) {
    existing.Some? && existing.value.chunkCount > 0 && idx !in force
  }

  /** What the loop tries to store for a chunk: the sanitized chunk and, for when the
      database refuses that, the sanitized ASCII fallback if it is non-empty and differs
      from the chunk. */
  datatype Attempt = Attempt(content: string, fallback: Option<string>)

  function AttemptOf(chunk: string): Attempt {
    Attempt(SanitizeText(chunk),
            if Fallback(chunk) != [] && Fallback(chunk) != chunk then Some(SanitizeText(Fallback(chunk))) else None)
  }

  /** The attempts for the chunks of a page. */
  function Attempts(chunks: seq<string>): (attempts: seq<Attempt>)
    ensures |attempts| == |chunks|
  {
    seq(|chunks|, i requires 0 <= i < |chunks| => AttemptOf(chunks[i]))
  }

  lemma AttemptAt(chunks: seq<string>, i: nat)
    requires i < |chunks|
    ensures Attempts(chunks)[i] == AttemptOf(chunks[i])
  {
  }

  /** The rows inserted for chunk number `index`: the content, or the fallback when the
      content is refused, or nothing. */
  function ImageChunkRow(a: Attempt, index: nat, rejected: set<string>): seq<Chunk> {
    if a.content !in rejected then [Chunk(index, a.content)]
    else if a.fallback.Some? && a.fallback.value !in rejected then [Chunk(index, a.fallback.value)]
    else []
  }

  /** The chunk rows of a page after its chunks have been inserted with indexes 1..n. */
  function ImageChunkRows(attempts: seq<Attempt>, rejected: set<string>): seq<Chunk> {
    if attempts == [] then []
    else
      ImageChunkRows(attempts[..|attempts| - 1], rejected)
        + ImageChunkRow(attempts[|attempts| - 1], |attempts|, rejected)
  }

  /** The page as a reprocessing leaves it. */
  function ImagePage(uri: string, text: string, maxLen: int, overlap: int, rejected: set<string>): PageRow
    requires maxLen > 0
  {
    PageRow(uri, SanitizeText(text), ImageChunkRows(Attempts(ChunkTextSpec(text, maxLen, overlap, BlankLines)), rejected))
  }

  /** The parameters of one image run that stay fixed over its pages. */
  datatype ImageRun = ImageRun(
    rows: seq<Row>, force: set<int>, folder: string, ocr: string -> string,
    maxLen: int, overlap: int, rejected: set<string>)

  /** An image of the run: its uri and the page a reprocessing makes of it. */
  datatype Shot = Shot(uri: string, rebuilt: PageRow)

  function ShotOf(run: ImageRun, name: string): Shot
    requires run.maxLen > 0
  {
    var uri := ImageUri(run.folder, name);
    Shot(uri, ImagePage(uri, VisionText(run.ocr(name)), run.maxLen, run.overlap, run.rejected))
  }

  /** The shots of the images. */
  function Shots(run: ImageRun, images: seq<string>): (shots: seq<Shot>)
    requires run.maxLen > 0
    ensures |shots| == |images|
  {
    seq(|images|, i requires 0 <= i < |images| => ShotOf(run, images[i]))
  }

  lemma ShotAt(run: ImageRun, images: seq<string>, i: nat)
    requires run.maxLen > 0 && i < |images|
    ensures Shots(run, images)[i] == ShotOf(run, images[i])
  {
  }

  /** The store after page idx has been handled. */
  function ImageStep(pages: map<int, PageRow>, run: ImageRun, idx: int, shot: Shot): map<int, PageRow> {
    if ImageSkip(Existing(run.rows, idx, shot.uri), idx, run.force) then pages
    else pages[idx := shot.rebuilt]
  }

  /** The store after the loop has handled the images, numbered from 1. */
  function ImagePages(pages: map<int, PageRow>, run: ImageRun, shots: seq<Shot>): map<int, PageRow> {
    if shots == [] then pages
    else ImageStep(ImagePages(pages, run, shots[..|shots| - 1]), run, |shots|, shots[|shots| - 1])
  }

  /** The try/except around the insert of chunk number c + 1. */
  method InsertAttempt(store: Store, idx: int, chunks: seq<string>, c: nat, rejected: set<string>)
    returns (ghost added: seq<Chunk>)
    requires idx in store.pages && c < |chunks|
    modifies store
    ensures added == ImageChunkRow(Attempts(chunks)[c], c + 1, rejected)
    ensures store.pages == old(store.pages)[idx := old(store.pages)[idx].(chunks := old(store.pages)[idx].chunks + added)]
  {
    AttemptAt(chunks, c);
    added := [];
    var chunk := chunks[c];
    var content := SanitizeText(chunk);
    if content !in rejected {
      store.InsertChunk(idx, c + 1, content);
      added := [Chunk(c + 1, content)];
    } else {
      var fallback := Strip(AsciiOnly(chunk));
      if fallback != [] && fallback != chunk {
        var fallbackContent := SanitizeText(fallback);
        if fallbackContent !in rejected {
          store.InsertChunk(idx, c + 1, fallbackContent);
          added := [Chunk(c + 1, fallbackContent)];
        }
      }
    }
    if added == [] {
      assert old(store.pages)[idx].chunks + added == old(store.pages)[idx].chunks;
    }
  }

  /** One turn of the inner loop: chunk c + 1 is tried and, when accepted, inserted. */
  method InsertNextChunk(store: Store, idx: int, chunks: seq<string>, c: nat, rejected: set<string>,
                         ghost start: map<int, PageRow>, ghost row: PageRow, ghost rows: seq<Chunk>)
    returns (ghost rows': seq<Chunk>)
    requires c < |chunks| && rows == ImageChunkRows(Attempts(chunks)[..c], rejected)
    requires store.pages == start[idx := row.(chunks := row.chunks + rows)]
    modifies store
    ensures rows' == ImageChunkRows(Attempts(chunks)[..c + 1], rejected)
    ensures store.pages == start[idx := row.(chunks := row.chunks + rows')]
  {
    ImageChunkRowsSnoc(Attempts(chunks), c, rejected);
    ghost var added := InsertAttempt(store, idx, chunks, c, rejected);
    AppendRows(start, idx, row, rows, added);
    rows' := rows + added;
  }

  /** The rows of the first c + 1 attempts extend those of the first c by the rows of attempt c. */
  lemma ImageChunkRowsSnoc(attempts: seq<Attempt>, c: nat, rejected: set<string>)
    requires c < |attempts|
    ensures ImageChunkRows(attempts[..c + 1], rejected)
      == ImageChunkRows(attempts[..c], rejected) + ImageChunkRow(attempts[c], c + 1, rejected)
  {
    assert attempts[..c + 1][..c] == attempts[..c];
  }

  /** The inner loop over the chunks of a page. */
  method InsertImageChunks(store: Store, idx: int, chunks: seq<string>, rejected: set<string>)
    requires idx in store.pages
    modifies store
    ensures store.pages == old(store.pages)[idx :=
      old(store.pages)[idx].(chunks := old(store.pages)[idx].chunks + ImageChunkRows(Attempts(chunks), rejected))]
  {
    ghost var start := store.pages;
    ghost var row := store.pages[idx];
    ghost var rows: seq<Chunk> := [];
    assert row.chunks + [] == row.chunks;
    for c := 0 to |chunks|
      invariant rows == ImageChunkRows(Attempts(chunks)[..c], rejected)
      invariant store.pages == start[idx := row.(chunks := row.chunks + rows)]
    {
      rows := InsertNextChunk(store, idx, chunks, c, rejected, start, row, rows);
    }
    PrefixAll(Attempts(chunks));
  }

  /** Appending one chunk row to a page of a map that already holds `done` for it. */
  lemma AppendRows(m: map<int, PageRow>, k: int, row: PageRow, done: seq<Chunk>, added: seq<Chunk>)
    ensures m[k := row.(chunks := row.chunks + done)][k := row.(chunks := row.chunks + done).(chunks := row.chunks + done + added)]
      == m[k := row.(chunks := row.chunks + (done + added))]
  {
    assert row.chunks + done + added == row.chunks + (done + added);
  }

  /** The upsert and the delete that start the reprocessing of page idx. */
  method ResetImagePage(store: Store, idx: int, uri: string, text: string)
    modifies store
    ensures store.pages == old(store.pages)[idx := PageRow(uri, text, [])]
  {
    store.UpsertImagePage(idx, uri, text);
    store.DeleteChunks(idx);
  }

  /** Page idx reprocessed: upsert the page, delete its chunks, insert the new ones. */
  method RebuildImagePage(store: Store, idx: int, uri: string, text: string, chunks: seq<string>, rejected: set<string>)
    modifies store
    ensures store.pages == old(store.pages)[idx := PageRow(uri, SanitizeText(text), ImageChunkRows(Attempts(chunks), rejected))]
  {
    ResetImagePage(store, idx, uri, SanitizeText(text));
    ghost var rows := ImageChunkRows(Attempts(chunks), rejected);
    InsertImageChunks(store, idx, chunks, rejected);
    assert [] + rows == rows;
  }

  /** One pass of the loop body: skip page idx, or rebuild it from the image's text. */
  method HandleImage(store: Store, run: ImageRun, idx: int, name: string)
    requires run.maxLen > 0
    modifies store
    ensures store.pages == ImageStep(old(store.pages), run, idx, ShotOf(run, name))
  {
    var uri := ImageUri(run.folder, name);
    var existing := Existing(run.rows, idx, uri);
    if existing.Some? && existing.value.chunkCount > 0 && idx !in run.force {
      return;
    }
    var text := VisionText(run.ocr(name));
    var chunks := ChunkText(text, run.maxLen, run.overlap, BlankLines);
    RebuildImagePage(store, idx, uri, text, chunks, run.rejected);
  }

  /** The loop body for page i + 1, in the terms of the run over the first i images. */
  method HandleNextImage(store: Store, run: ImageRun, images: seq<string>, i: nat, ghost start: map<int, PageRow>)
    requires run.maxLen > 0 && i < |images|
    requires store.pages == ImagePages(start, run, Shots(run, images)[..i])
    modifies store
    ensures store.pages == ImagePages(start, run, Shots(run, images)[..i + 1])
  {
    ghost var shots := Shots(run, images);
    assert shots[..i + 1][..i] == shots[..i];
    ShotAt(run, images, i);
    HandleImage(store, run, i + 1, images[i]);
  }

  /** The loop over the selected images, numbered from 1. */
  method HandleImages(store: Store, run: ImageRun, images: seq<string>)
    requires run.maxLen > 0
    modifies store
    ensures store.pages == ImagePages(old(store.pages), run, Shots(run, images))
  {
    for i := 0 to |images|
      invariant store.pages == ImagePages(old(store.pages), run, Shots(run, images)[..i])
    {
      HandleNextImage(store, run, images, i, old(store.pages));
    }
    PrefixAll(Shots(run, images));
  }

  /** The run of main over a folder. Returns false, changing nothing, when
      there are no images ("No images found."). */
  method RunImages(store: Store, names: seq<string>, folder: string, ocr: string -> string,
                   forceRaw: string, rows: seq<Row>, maxLen: int, overlap: int, rejected: set<string>)
    returns (found: bool)
    requires maxLen > 0
    modifies store
    ensures found <==> SelectSpec(names) != []
    ensures var run := ImageRun(rows, ForcePages(forceRaw), folder, ocr, maxLen, overlap, rejected);
      store.pages == if found then ImagePages(old(store.pages), run, Shots(run, SelectSpec(names))) else old(store.pages)
  {
    var images := SelectImages(names);
    if images == [] {
      return false;
    }
    found := true;
    var run := ImageRun(rows, ForcePages(forceRaw), folder, ocr, maxLen, overlap, rejected);
    HandleImages(store, run, images);
  }

  // ------------------------------------------------ properties of the image run

  /** Page k is in the same state in both stores. */
  predicate Same(before: map<int, PageRow>, after: map<int, PageRow>, k: int) {
    (k in before <==> k in after) && (k in before ==> before[k] == after[k])
  }

  /** Page k after the image run: unchanged when skipped, rebuilt from its image otherwise. */
  predicate ImageHandled(before: map<int, PageRow>, after: map<int, PageRow>, run: ImageRun, k: int, shot: Shot) {
    if ImageSkip(Existing(run.rows, k, shot.uri), k, run.force) then Same(before, after, k)
    else k in after && after[k] == shot.rebuilt
  }

  /** The run changes no page outside 1..|shots|. */
  lemma {:induction false} ImagePagesOutside(pages: map<int, PageRow>, run: ImageRun, shots: seq<Shot>, k: int)
    requires k < 1 || |shots| < k
    ensures Same(pages, ImagePages(pages, run, shots), k)
  {
    if shots != [] {
      ImagePagesOutside(pages, run, shots[..|shots| - 1], k);
    }
  }

  /** Page k of 1..|shots| is skipped or rebuilt from image number k alone, whatever the
      other pages do. */
  lemma {:induction false} ImagePagesAt(pages: map<int, PageRow>, run: ImageRun, shots: seq<Shot>, k: int)
    requires 1 <= k <= |shots|
    ensures ImageHandled(pages, ImagePages(pages, run, shots), run, k, shots[k - 1])
  {
    var init := shots[..|shots| - 1];
    if k == |shots| {
      ImagePagesOutside(pages, run, init, k);
    } else {
      ImagePagesAt(pages, run, init, k);
      assert init[k - 1] == shots[k - 1];
    }
  }

  /** A page listed in ADAMUS_FORCE_PAGES is always rebuilt from its image. */
  lemma ForcedPageRebuilt(pages: map<int, PageRow>, run: ImageRun, images: seq<string>, k: int)
    requires run.maxLen > 0
    requires 1 <= k <= |images| && k in run.force
    ensures var uri := ImageUri(run.folder, images[k - 1]);
      var after := ImagePages(pages, run, Shots(run, images));
      k in after && after[k] == ImagePage(uri, VisionText(run.ocr(images[k - 1])), run.maxLen, run.overlap, run.rejected)
  {
    ImagePagesAt(pages, run, Shots(run, images), k);
    ShotAt(run, images, k - 1);
  }

  /** The row of page k in a snapshot that lists it. */
  lemma {:induction false} SnapshotHasPage(pages: map<int, PageRow>, order: seq<int>, k: int)
    requires k in pages && k in order
    ensures exists i :: 0 <= i < |Snapshot(pages, order)| && Snapshot(pages, order)[i].pageNo == k
  {
    var init := order[..|order| - 1];
    if order[|order| - 1] == k {
      assert Snapshot(pages, order)[|Snapshot(pages, order)| - 1].pageNo == k;
    } else {
      assert k in init;
      SnapshotHasPage(pages, init, k);
      var rows := Snapshot(pages, init);
      var i :| 0 <= i < |rows| && rows[i].pageNo == k;
      assert Snapshot(pages, order)[i] == rows[i];
    }
  }

  /** A page that has chunks in the store is found, with a non-zero chunk count, by the
      next run's page lookup. */
  lemma StoredPageFound(pages: map<int, PageRow>, order: seq<int>, k: int)
    requires k in pages && |pages[k].chunks| > 0 && k in order
    ensures ByPage(Snapshot(pages, order), k).Some?
    ensures ByPage(Snapshot(pages, order), k).value.chunkCount > 0
  {
    SnapshotHasPage(pages, order, k);
  }

  /** A page that has chunks in the store is skipped by the next unforced image run. */
  lemma StoredImagePageSkipped(pages: map<int, PageRow>, order: seq<int>, k: int, uri: string, force: set<int>)
    requires k in pages && |pages[k].chunks| > 0 && k in order && k !in force
    ensures ImageSkip(Existing(Snapshot(pages, order), k, uri), k, force)
  {
    StoredPageFound(pages, order, k);
  }

  /** Once every page of the images has chunks, running again without forced pages over a
      snapshot of the store changes nothing. */
  lemma {:induction false} ImageRerunUnchanged(pages: map<int, PageRow>, run: ImageRun, shots: seq<Shot>, order: seq<int>)
    requires run.rows == Snapshot(pages, order) && run.force == {}
    requires forall k :: 1 <= k <= |shots| ==> k in order && k in pages && |pages[k].chunks| > 0
    ensures ImagePages(pages, run, shots) == pages
  {
    if shots != [] {
      var n := |shots|;
      ImageRerunUnchanged(pages, run, shots[..n - 1], order);
      StoredImagePageSkipped(pages, order, n, shots[n - 1].uri, run.force);
    }
  }

  /** Chunk rows are numbered 1..|attempts| in increasing order, each holding the content
      of the attempt of its number or that attempt's fallback. */
  lemma {:induction false} ImageChunkRowsNumbered(attempts: seq<Attempt>, rejected: set<string>)
    ensures var rows := ImageChunkRows(attempts, rejected);
      forall i :: 0 <= i < |rows| ==>
        (1 <= rows[i].index <= |attempts|
         && (rows[i].content == attempts[rows[i].index - 1].content
             || attempts[rows[i].index - 1].fallback == Some(rows[i].content)))
    ensures var rows := ImageChunkRows(attempts, rejected);
      forall i, j :: 0 <= i < j < |rows| ==> rows[i].index < rows[j].index
    ensures |ImageChunkRows(attempts, rejected)| <= |attempts|
  {
    if attempts != [] {
      var init := attempts[..|attempts| - 1];
      ImageChunkRowsNumbered(init, rejected);
      assert forall i :: 0 <= i < |init| ==> init[i] == attempts[i];
    }
  }

  /** When the database accepts every content, chunk row i holds exactly content i. */
  lemma {:induction false} ImageChunkRowsAccepted(attempts: seq<Attempt>, rejected: set<string>)
    requires forall i :: 0 <= i < |attempts| ==> attempts[i].content !in rejected
    ensures |ImageChunkRows(attempts, rejected)| == |attempts|
    ensures forall i :: 0 <= i < |attempts| ==>
      ImageChunkRows(attempts, rejected)[i] == Chunk(i + 1, attempts[i].content)
  {
    if attempts != [] {
      var init := attempts[..|attempts| - 1];
      ImageChunkRowsAccepted(init, rejected);
    }
  }

  /** The fallback keeps only ASCII characters. */
  lemma FallbackIsAscii(chunk: string)
    ensures forall i :: 0 <= i < |Fallback(chunk)| ==> Fallback(chunk)[i] < '\U{80}'
  {
    StripChars(AsciiOnly(chunk));
  }

  lemma {:induction false} AsciiOnlyOfAscii(s: string)
    requires forall i :: 0 <= i < |s| ==> s[i] < '\U{80}'
    ensures AsciiOnly(s) == s
  {
    if s != [] {
      AsciiOnlyOfAscii(s[1..]);
    }
  }

  /** A chunk with a non-ASCII character differs from its fallback, which is retried when
      it is not empty; a stripped ASCII chunk is its own fallback, so when it is refused no
      row is stored for it. */
  lemma FallbackRetried(chunk: string, index: nat, rejected: set<string>)
    ensures (exists i :: 0 <= i < |chunk| && chunk[i] >= '\U{80}') ==>
      Fallback(chunk) != chunk && (Fallback(chunk) != [] ==> AttemptOf(chunk).fallback.Some?)
    ensures (forall i :: 0 <= i < |chunk| ==> chunk[i] < '\U{80}') && Stripped(chunk) && SanitizeText(chunk) in rejected
      ==> ImageChunkRow(AttemptOf(chunk), index, rejected) == []
  {
    FallbackIsAscii(chunk);
    if (forall i :: 0 <= i < |chunk| ==> chunk[i] < '\U{80}') && Stripped(chunk) {
      AsciiOnlyOfAscii(chunk);
      StripOfStripped(chunk);
    }
  }

  /** The chunks of a clean text are clean: chunk_text adds only line feeds. */
  lemma CleanChunks(text: string, maxLen: int, overlap: int)
    requires maxLen > 0 && Clean(text)
    ensures forall k :: 0 <= k < |ChunkTextSpec(text, maxLen, overlap, BlankLines)| ==>
      Clean(ChunkTextSpec(text, maxLen, overlap, BlankLines)[k])
  {
    ChunkChars(text, maxLen, overlap, BlankLines);
    forall k | 0 <= k < |ChunkTextSpec(text, maxLen, overlap, BlankLines)|
      ensures Clean(ChunkTextSpec(text, maxLen, overlap, BlankLines)[k])
    {
      var chunk := ChunkTextSpec(text, maxLen, overlap, BlankLines)[k];
      assert FromText(chunk, text);
      forall i | 0 <= i < |chunk|
        ensures chunk[i] != '\r' && !IsDroppedControl(chunk[i])
      {
        if chunk[i] != '\n' {
          var j :| 0 <= j < |text| && text[j] == chunk[i];
        }
      }
    }
  }

  /** A rebuilt page stores the vision text as it is, and, when the database accepts its
      chunks, chunk number i holds exactly the i-th chunk of that text. */
  lemma RebuiltImagePage(uri: string, raw: string, maxLen: int, overlap: int, rejected: set<string>)
    requires maxLen > 0
    requires forall chunk :: chunk in ChunkTextSpec(VisionText(raw), maxLen, overlap, BlankLines) ==> chunk !in rejected
    ensures var text := VisionText(raw);
      var chunks := ChunkTextSpec(text, maxLen, overlap, BlankLines);
      var page := ImagePage(uri, text, maxLen, overlap, rejected);
      page.uri == uri && page.text == text && |page.chunks| == |chunks|
        && forall i :: 0 <= i < |chunks| ==> page.chunks[i] == Chunk(i + 1, chunks[i])
  {
    var text := VisionText(raw);
    var chunks := ChunkTextSpec(text, maxLen, overlap, BlankLines);
    SanitizeOfClean(text);
    CleanChunks(text, maxLen, overlap);
    forall i | 0 <= i < |chunks|
      ensures Attempts(chunks)[i].content == chunks[i]
    {
      AttemptAt(chunks, i);
      SanitizeOfClean(chunks[i]);
    }
    ImageChunkRowsAccepted(Attempts(chunks), rejected);
  }

  /** ADAMUS_FORCE_PAGES written as a comma-separated list of numbers gives those pages. */
  lemma ForcePagesOfList(ns: seq<nat>)
    ensures ForcePages(JoinNumbers(ns)) == set i | 0 <= i < |ns| :: ns[i] as int
  {
    var parts := seq(|ns|, i requires 0 <= i < |ns| => Digits(ns[i]));
    if ns == [] {
      assert SplitOn([], ',') == [[]];
    } else {
      forall k | 0 <= k < |parts|
        ensures ',' !in parts[k] && Strip(parts[k]) == parts[k] && IsDecimal(parts[k])
      {
        StripOfStripped(parts[k]);
      }
      SplitJoin(parts, ',');
      forall i | 0 <= i < |ns|
        ensures DecimalValue(parts[i]) == ns[i]
      {
        DecimalValueOfDigits(ns[i]);
      }
      assert SplitOn(JoinNumbers(ns), ',') == parts;
    }
  }

  // --------------------------------------------------------------- PDF run

  /** text.strip() of page.extract_text() or "". */
  function PageText(extracted: Option<string>): string {
    Strip(if extracted.Some? then extracted.value else "")
  }

  /** The loop that collects the stripped text of every page. */
  method PageTexts(extracted: seq<Option<string>>) returns (texts: seq<string>)
    ensures |texts| == |extracted|
    ensures forall i :: 0 <= i < |extracted| ==> texts[i] == PageText(extracted[i])
  {
    texts := [];
    for i := 0 to |extracted|
      invariant |texts| == i
      invariant forall j :: 0 <= j < i ==> texts[j] == PageText(extracted[j])
    {
      var text := if extracted[i].Some? then extracted[i].value else "";
      texts := texts + [Strip(text)];
    }
  }

  /** not any(page_texts) */
  predicate NoText(texts: seq<string>) {
    forall i :: 0 <= i < |texts| ==> texts[i] == []
  }

  /** The PDF has no extractable text exactly when every page extracts nothing or only
      whitespace. */
  lemma NoTextIffBlank(extracted: seq<Option<string>>, texts: seq<string>)
    requires |texts| == |extracted|
    requires forall i :: 0 <= i < |extracted| ==> texts[i] == PageText(extracted[i])
    ensures NoText(texts) <==> forall i :: 0 <= i < |extracted| ==>
      extracted[i].None? || forall j :: 0 <= j < |extracted[i].value| ==> IsSpace(extracted[i].value[j])
  {
    forall i | 0 <= i < |extracted| && extracted[i].Some?
      ensures texts[i] == [] <==> forall j :: 0 <= j < |extracted[i].value| ==> IsSpace(extracted[i].value[j])
    {
      StripEmpty(extracted[i].value);
    }
  }

  /** chunk_text's defaults, which the PDF script uses. */
  const PdfMaxLen := 1200
  const PdfOverlap := 200

  /** A chunk insert the database refused: page number and chunk number. */
  datatype Failure = Failure(page: int, chunk: nat)

  /** The store after a PDF run, and the insert that aborted it, if any. */
  datatype PdfResult = PdfResult(pages: map<int, PageRow>, failure: Option<Failure>)

  /** The parameters of one PDF run that stay fixed over its pages. */
  datatype PdfRun = PdfRun(rows: seq<Row>, sourceUri: string, rejected: set<string>)

  /** chunk_text(text) with its defaults. */
  function PdfChunks(text: string): seq<string> {
    ChunkTextSpec(text, PdfMaxLen, PdfOverlap, LineBreaks)
  }

  /** A page of the PDF: its stripped text and the chunks of that text. */
  datatype PdfPage = PdfPage(text: string, chunks: seq<string>)

  function PdfPageOf(text: string): PdfPage {
    PdfPage(text, PdfChunks(text))
  }

  /** The pages of the page texts. */
  function PdfPagesOf(texts: seq<string>): (ps: seq<PdfPage>)
    ensures |ps| == |texts|
    ensures forall i :: 0 <= i < |texts| ==> ps[i].text == texts[i]
  {
    seq(|texts|, i requires 0 <= i < |texts| => PdfPageOf(texts[i]))
  }

  lemma PdfPageAt(texts: seq<string>, i: nat)
    requires i < |texts|
    ensures PdfPagesOf(texts)[i] == PdfPageOf(texts[i])
  {
  }

  /** The branch of the loop that skips page idx. */
  predicate PdfSkip(rows: seq<Row>, idx: int) {
    ByPage(rows, idx).Some? && ByPage(rows, idx).value.chunkCount > 0
  }

  /** How many leading chunks the database accepts before the first refusal. */
  function Accepted(chunks: seq<string>, rejected: set<string>): (n: nat)
    ensures n <= |chunks|
    ensures forall i :: 0 <= i < n ==> RemoveNul(chunks[i]) !in rejected
    ensures n < |chunks| ==> RemoveNul(chunks[n]) in rejected
  {
    if chunks == [] || RemoveNul(chunks[0]) in rejected then 0
    else 1 + Accepted(chunks[1..], rejected)
  }

  /** Chunk rows 1..n of the chunks, with their NUL characters removed. */
  function PdfChunkRows(chunks: seq<string>): (rows: seq<Chunk>)
    ensures |rows| == |chunks|
    ensures forall i :: 0 <= i < |chunks| ==> rows[i].index == i + 1 && rows[i].content == RemoveNul(chunks[i])
  {
    seq(|chunks|, i requires 0 <= i < |chunks| => Chunk(i + 1, RemoveNul(chunks[i])))
  }

  /** The page after the upsert: a new page gets the source uri, an existing one keeps its uri. */
  function PdfUpserted(pages: map<int, PageRow>, run: PdfRun, idx: int, text: string): PageRow {
    if idx in pages then pages[idx].(text := RemoveNul(text)) else PageRow(run.sourceUri, RemoveNul(text), [])
  }

  /** The store after page idx has been handled. */
  function PdfStep(pages: map<int, PageRow>, run: PdfRun, idx: int, page: PdfPage): PdfResult {
    if PdfSkip(run.rows, idx) then PdfResult(pages, None)
    else
      var n := Accepted(page.chunks, run.rejected);
      PdfResult(pages[idx := PdfUpserted(pages, run, idx, page.text).(chunks := PdfChunkRows(page.chunks[..n]))],
                if n < |page.chunks| then Some(Failure(idx, n + 1)) else None)
  }

  /** The store after the loop over the pages, numbered from 1; the first refused insert
      ends the run. */
  function PdfPages(pages: map<int, PageRow>, run: PdfRun, ps: seq<PdfPage>): PdfResult {
    if ps == [] then PdfResult(pages, None)
    else
      var r := PdfPages(pages, run, ps[..|ps| - 1]);
      if r.failure.Some? then r else PdfStep(r.pages, run, |ps|, ps[|ps| - 1])
  }

  /** Accepted counts exactly the leading chunks up to the first refused one. */
  lemma {:induction false} AcceptedIs(chunks: seq<string>, rejected: set<string>, c: nat)
    requires c <= |chunks|
    requires forall i :: 0 <= i < c ==> RemoveNul(chunks[i]) !in rejected
    requires c < |chunks| ==> RemoveNul(chunks[c]) in rejected
    ensures Accepted(chunks, rejected) == c
  {
    if c > 0 {
      AcceptedIs(chunks[1..], rejected, c - 1);
    }
  }

  /** The inner loop over the chunks of a page; stops at the first refused insert. */
  method InsertPdfChunks(store: Store, idx: int, chunks: seq<string>, rejected: set<string>)
    returns (failed: Option<nat>)
    requires idx in store.pages
    modifies store
    ensures failed == if Accepted(chunks, rejected) < |chunks| then Some(Accepted(chunks, rejected) + 1) else None
    ensures store.pages == old(store.pages)[idx := old(store.pages)[idx].(chunks :=
      old(store.pages)[idx].chunks + PdfChunkRows(chunks[..Accepted(chunks, rejected)]))]
  {
    ghost var start := store.pages;
    ghost var row := store.pages[idx];
    assert row.chunks + [] == row.chunks;
    var c := 0;
    failed := None;
    while c < |chunks|
      invariant c <= |chunks|
      invariant forall i :: 0 <= i < c ==> RemoveNul(chunks[i]) !in rejected
      invariant store.pages == start[idx := row.(chunks := row.chunks + PdfChunkRows(chunks[..c]))]
    {
      var content := RemoveNul(chunks[c]);
      if content in rejected {
        failed := Some(c + 1);
        break;
      }
      ghost var done := PdfChunkRows(chunks[..c]);
      assert PdfChunkRows(chunks[..c + 1]) == done + [Chunk(c + 1, content)];
      store.InsertChunk(idx, c + 1, content);
      AppendRows(start, idx, row, done, [Chunk(c + 1, content)]);
      c := c + 1;
    }
    AcceptedIs(chunks, rejected, c);
  }

  /** The upsert and the delete that start the reprocessing of page idx. */
  method ResetPdfPage(store: Store, run: PdfRun, idx: int, text: string)
    modifies store
    ensures store.pages == old(store.pages)[idx := PdfUpserted(old(store.pages), run, idx, text).(chunks := [])]
  {
    store.UpsertPdfPage(idx, run.sourceUri, RemoveNul(text));
    store.DeleteChunks(idx);
  }

  /** Page idx reprocessed: upsert the page, delete its chunks, insert the new ones until
      one is refused. */
  method RebuildPdfPage(store: Store, run: PdfRun, idx: int, page: PdfPage) returns (failure: Option<Failure>)
    requires !PdfSkip(run.rows, idx)
    modifies store
    ensures PdfResult(store.pages, failure) == PdfStep(old(store.pages), run, idx, page)
  {
    ResetPdfPage(store, run, idx, page.text);
    ghost var rows := PdfChunkRows(page.chunks[..Accepted(page.chunks, run.rejected)]);
    var failed := InsertPdfChunks(store, idx, page.chunks, run.rejected);
    assert [] + rows == rows;
    failure := if failed.Some? then Some(Failure(idx, failed.value)) else None;
  }

  /** One pass of the loop body: skip page idx, or chunk its text and rebuild it. */
  method HandlePdfPage(store: Store, run: PdfRun, idx: int, text: string) returns (failure: Option<Failure>)
    modifies store
    ensures PdfResult(store.pages, failure) == PdfStep(old(store.pages), run, idx, PdfPageOf(text))
  {
    var existing := ByPage(run.rows, idx);
    if existing.Some? && existing.value.chunkCount > 0 {
      return None;
    }
    var chunks := ChunkText(text, PdfMaxLen, PdfOverlap, LineBreaks);
    failure := RebuildPdfPage(store, run, idx, PdfPage(text, chunks));
  }

  /** The loop body for page i + 1, in the terms of the run over the first i pages. */
  method HandleNextPdfPage(store: Store, run: PdfRun, texts: seq<string>, i: nat, ghost start: map<int, PageRow>)
    returns (failure: Option<Failure>)
    requires i < |texts|
    requires PdfPages(start, run, PdfPagesOf(texts)[..i]) == PdfResult(store.pages, None)
    modifies store
    ensures PdfPages(start, run, PdfPagesOf(texts)[..i + 1]) == PdfResult(store.pages, failure)
  {
    ghost var ps := PdfPagesOf(texts);
    assert ps[..i + 1][..i] == ps[..i];
    PdfPageAt(texts, i);
    failure := HandlePdfPage(store, run, i + 1, texts[i]);
  }

  /** The loop over the pages; the first refused insert aborts it. */
  method HandlePdfPages(store: Store, run: PdfRun, texts: seq<string>) returns (failure: Option<Failure>)
    modifies store
    ensures PdfResult(store.pages, failure) == PdfPages(old(store.pages), run, PdfPagesOf(texts))
  {
    failure := None;
    var i := 0;
    while i < |texts|
      invariant i <= |texts| && failure == None
      invariant PdfPages(old(store.pages), run, PdfPagesOf(texts)[..i]) == PdfResult(store.pages, None)
    {
      failure := HandleNextPdfPage(store, run, texts, i, old(store.pages));
      if failure.Some? {
        PdfPagesStop(old(store.pages), run, PdfPagesOf(texts), i + 1);
        return;
      }
      i := i + 1;
    }
    PrefixAll(PdfPagesOf(texts));
  }

  lemma PrefixAll<T>(s: seq<T>)
    ensures s[..|s|] == s
  {
  }

  /** The stripped texts of the pages. */
  function PageTextsOf(extracted: seq<Option<string>>): (texts: seq<string>)
    ensures |texts| == |extracted|
    ensures forall i :: 0 <= i < |extracted| ==> texts[i] == PageText(extracted[i])
  {
    seq(|extracted|, i requires 0 <= i < |extracted| => PageText(extracted[i]))
  }

  /** main of the PDF script from the page texts on. Returns false, changing nothing, when
      the PDF has no extractable text; otherwise the loop runs until a refused chunk insert
      aborts it. */
  method RunPdf(store: Store, extracted: seq<Option<string>>, sourceUri: string, rows: seq<Row>, rejected: set<string>)
    returns (hasText: bool, failure: Option<Failure>)
    modifies store
    ensures hasText <==> !NoText(PageTextsOf(extracted))
    ensures !hasText ==> store.pages == old(store.pages) && failure == None
    ensures hasText ==>
      PdfResult(store.pages, failure)
        == PdfPages(old(store.pages), PdfRun(rows, sourceUri, rejected), PdfPagesOf(PageTextsOf(extracted)))
  {
    var texts := PageTexts(extracted);
    assert texts == PageTextsOf(extracted);
    if forall i :: 0 <= i < |texts| ==> texts[i] == [] {
      return false, None;
    }
    hasText := true;
    failure := HandlePdfPages(store, PdfRun(rows, sourceUri, rejected), texts);
  }

  // -------------------------------------------------- properties of the PDF run

  /** After a refused insert nothing else happens. */
  lemma {:induction false} PdfPagesStop(pages: map<int, PageRow>, run: PdfRun, ps: seq<PdfPage>, i: nat)
    requires i <= |ps| && PdfPages(pages, run, ps[..i]).failure.Some?
    ensures PdfPages(pages, run, ps) == PdfPages(pages, run, ps[..i])
  {
    if i == |ps| {
      assert ps[..i] == ps;
    } else {
      var init := ps[..|ps| - 1];
      assert init[..i] == ps[..i];
      PdfPagesStop(pages, run, init, i);
    }
  }

  /** The run changes no page outside 1..|ps|. */
  lemma {:induction false} PdfPagesOutside(pages: map<int, PageRow>, run: PdfRun, ps: seq<PdfPage>, k: int)
    requires k < 1 || |ps| < k
    ensures Same(pages, PdfPages(pages, run, ps).pages, k)
  {
    if ps != [] {
      PdfPagesOutside(pages, run, ps[..|ps| - 1], k);
    }
  }

  /** A run that aborts does so on a page it rebuilt, at the first refused chunk. */
  lemma {:induction false} PdfFailure(pages: map<int, PageRow>, run: PdfRun, ps: seq<PdfPage>)
    ensures var r := PdfPages(pages, run, ps);
      r.failure.Some? ==>
        var f := r.failure.value.page;
        1 <= f <= |ps| && !PdfSkip(run.rows, f)
          && r.failure.value.chunk == Accepted(ps[f - 1].chunks, run.rejected) + 1
          && r.failure.value.chunk <= |ps[f - 1].chunks|
  {
    if ps != [] {
      var init := ps[..|ps| - 1];
      PdfFailure(pages, run, init);
      if PdfPages(pages, run, init).failure.Some? {
        assert init[PdfPages(pages, run, init).failure.value.page - 1]
          == ps[PdfPages(pages, run, init).failure.value.page - 1];
      }
    }
  }

  /** The run stopped before page k. */
  predicate PdfStopped(r: PdfResult, k: int) {
    r.failure.Some? && r.failure.value.page < k
  }

  /** Page k after the PDF run: unchanged when skipped; otherwise upserted with the text
      (a new page taking the source uri) and holding exactly the chunk rows of the
      accepted chunks, numbered from 1. */
  predicate PdfHandled(before: map<int, PageRow>, after: map<int, PageRow>, run: PdfRun, k: int, page: PdfPage) {
    if PdfSkip(run.rows, k) then Same(before, after, k)
    else
      k in after
        && after[k].uri == (if k in before then before[k].uri else run.sourceUri)
        && after[k].text == RemoveNul(page.text)
        && after[k].chunks == PdfChunkRows(page.chunks[..Accepted(page.chunks, run.rejected)])
  }

  /** Page k of 1..|ps| is untouched when the run aborted on an earlier page, and
      otherwise skipped or rebuilt from page k alone; a rebuilt page other than the one
      the run aborted on holds a row for every chunk. */
  lemma {:induction false} PdfPagesAt(pages: map<int, PageRow>, run: PdfRun, ps: seq<PdfPage>, k: int)
    requires 1 <= k <= |ps|
    ensures var r := PdfPages(pages, run, ps);
      if PdfStopped(r, k) then Same(pages, r.pages, k) else PdfHandled(pages, r.pages, run, k, ps[k - 1])
    ensures var r := PdfPages(pages, run, ps);
      (!PdfStopped(r, k) && !PdfSkip(run.rows, k) && (r.failure.None? || r.failure.value.page != k))
        ==> Accepted(ps[k - 1].chunks, run.rejected) == |ps[k - 1].chunks|
  {
    var n := |ps|;
    var init := ps[..n - 1];
    if k == n {
      PdfPagesOutside(pages, run, init, k);
      PdfFailure(pages, run, init);
    } else {
      PdfPagesAt(pages, run, init, k);
      assert init[k - 1] == ps[k - 1];
    }
  }

  /** A page that has chunks in the store is skipped by the next PDF run. */
  lemma StoredPdfPageSkipped(pages: map<int, PageRow>, order: seq<int>, k: int)
    requires k in pages && |pages[k].chunks| > 0 && k in order
    ensures PdfSkip(Snapshot(pages, order), k)
  {
    StoredPageFound(pages, order, k);
  }

  /** Once every page has chunks, running again over a snapshot of the store changes
      nothing and cannot fail. */
  lemma {:induction false} PdfRerunUnchanged(pages: map<int, PageRow>, run: PdfRun, ps: seq<PdfPage>, order: seq<int>)
    requires run.rows == Snapshot(pages, order)
    requires forall k :: 1 <= k <= |ps| ==> k in order && k in pages && |pages[k].chunks| > 0
    ensures PdfPages(pages, run, ps) == PdfResult(pages, None)
  {
    if ps != [] {
      var n := |ps|;
      PdfRerunUnchanged(pages, run, ps[..n - 1], order);
      StoredPdfPageSkipped(pages, order, n);
    }
  }

  /** A run that finishes: every rebuilt page holds the NUL-free text of its page and one
      row per chunk of that text, numbered from 1. */
  lemma PdfRunComplete(pages: map<int, PageRow>, run: PdfRun, texts: seq<string>, k: int)
    requires PdfPages(pages, run, PdfPagesOf(texts)).failure.None?
    requires 1 <= k <= |texts| && !PdfSkip(run.rows, k)
    ensures var after := PdfPages(pages, run, PdfPagesOf(texts)).pages;
      k in after && after[k].text == RemoveNul(texts[k - 1])
        && after[k].chunks == PdfChunkRows(PdfChunks(texts[k - 1]))
  {
    var ps := PdfPagesOf(texts);
    PdfPagesAt(pages, run, ps, k);
    PdfPageAt(texts, k - 1);
    PrefixAll(ps[k - 1].chunks);
  }

  /** A run that aborts on chunk c of page f: chunk c of page f is the one refused, and
      page f holds the rows of its first c - 1 chunks. */
  lemma PdfAbortedOn(pages: map<int, PageRow>, run: PdfRun, ps: seq<PdfPage>, f: int, c: nat)
    requires PdfPages(pages, run, ps).failure == Some(Failure(f, c))
    ensures 1 <= f <= |ps| && 1 <= c <= |ps[f - 1].chunks|
    ensures RemoveNul(ps[f - 1].chunks[c - 1]) in run.rejected
    ensures var after := PdfPages(pages, run, ps).pages;
      f in after && after[f].chunks == PdfChunkRows(ps[f - 1].chunks[..c - 1])
  {
    var r := PdfPages(pages, run, ps);
    PdfFailure(pages, run, ps);
    PdfPagesAt(pages, run, ps, f);
    assert !PdfStopped(r, f);
  }

  /** The same, for the pages of the extracted texts. */
  lemma PdfRunAborted(pages: map<int, PageRow>, run: PdfRun, texts: seq<string>, f: int, c: nat)
    requires PdfPages(pages, run, PdfPagesOf(texts)).failure == Some(Failure(f, c))
    ensures 1 <= f <= |texts| && 1 <= c <= |PdfChunks(texts[f - 1])|
    ensures RemoveNul(PdfChunks(texts[f - 1])[c - 1]) in run.rejected
    ensures var after := PdfPages(pages, run, PdfPagesOf(texts)).pages;
      f in after && after[f].chunks == PdfChunkRows(PdfChunks(texts[f - 1])[..c - 1])
  {
    PdfAbortedOn(pages, run, PdfPagesOf(texts), f, c);
    PdfPageAt(texts, f - 1);
  }

  /** A run that aborts on page f leaves every later page as it was. */
  lemma PdfRunAbortedLater(pages: map<int, PageRow>, run: PdfRun, texts: seq<string>, f: int, c: nat, k: int)
    requires PdfPages(pages, run, PdfPagesOf(texts)).failure == Some(Failure(f, c))
    requires f < k
    ensures Same(pages, PdfPages(pages, run, PdfPagesOf(texts)).pages, k)
  {
    var ps := PdfPagesOf(texts);
    if 1 <= k <= |ps| {
      PdfPagesAt(pages, run, ps, k);
    } else {
      PdfPagesOutside(pages, run, ps, k);
    }
  }
}
