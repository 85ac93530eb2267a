/** What the steps of the hybrid extractor add up to: the text each page
    contributes, when the fallback flag is set, what the OCR pass appends, the
    exact text file of a document, and the guarantees of the batch (nothing
    existing is overwritten, finished documents are skipped, a second run
    after a clean first run changes nothing). */
module HybridProperties {
  import opened Common
  import opened Artifacts
  import opened HybridSpec

  // ---------------------------------------------------------------------------
  // Reference definitions

  /** The fragments of pages `i..` in page order. */
  function StructuredText(pages: seq<PageData>, i: nat): (r: string)
    requires i <= |pages|
    decreases |pages| - i
  {
    if i == |pages| then "" else PageText(i, pages[i]) + StructuredText(pages, i + 1)
  }

  /** Some page of pages `i..` does not contribute. */
  predicate SomeInsufficient(pages: seq<PageData>, i: nat) {
    exists j :: i <= j < |pages| && !Contributes(pages[j].text)
  }

  /** The structured pass leaves `ocr_fallback` set: it was aborted, or some
      page's text was missing, failed or insufficient. */
  predicate NeedsFallback(read: PdfRead) {
    read.aborted || SomeInsufficient(read.pages, 0)
  }

  function Record(tag: Tag, doc: string, page: nat, present: bool): (r: seq<LogRecord>) {
    if present then [LogRecord(tag, doc, Some(page + 1))] else []
  }

  /** The first page from `k` on that stops the OCR pass, or the page count. */
  function OcrStop(doc: string, pages: seq<RasterPage>, rasters: Dir, k: nat): (stop: nat)
    requires k <= |pages|
    ensures k <= stop <= |pages|
    ensures forall j :: k <= j < stop ==> !Blocked(doc, rasters, j, pages[j])
    ensures stop < |pages| ==> Blocked(doc, rasters, stop, pages[stop])
    decreases |pages| - k
  {
    if k == |pages| || Blocked(doc, rasters, k, pages[k]) then k else OcrStop(doc, pages, rasters, k + 1)
  }

  /** The recognised lines of pages `k..stop-1`, each followed by a newline,
      with no page delimiter. */
  function Recognized(pages: seq<RasterPage>, k: nat, stop: nat): (r: string)
    requires k <= stop <= |pages|
    decreases stop - k
  {
    if k == stop then "" else RecognizedLines(pages[k].recognition.lines) + Recognized(pages, k + 1, stop)
  }

  /** One `[OCR Error]` record per page of `k..stop-1` whose recognition raised. */
  function OcrErrors(doc: string, pages: seq<RasterPage>, k: nat, stop: nat): (r: seq<LogRecord>)
    requires k <= stop <= |pages|
    decreases stop - k
  {
    if k == stop then []
    else Record(OcrError, doc, k, pages[k].recognition.failed) + OcrErrors(doc, pages, k + 1, stop)
  }

  /** What the OCR pass appends when it runs, given the rasters on disk. */
  function OcrText(doc: string, raster: Outcome<seq<RasterPage>>, rasters: Dir): (r: string) {
    match raster
    case Fault => ""
    case Ok(pages) => Recognized(pages, 0, OcrStop(doc, pages, rasters, 0))
  }

  /** What the OCR pass logs when it runs: one `[OCR Fallback Error]` when
      the file cannot be opened; otherwise one `[OCR Error]` per page before
      the first one that stops the pass whose recognition raised, then one
      `[OCR Fallback Error]` when some page stopped it. */
  function OcrLog(doc: string, raster: Outcome<seq<RasterPage>>, rasters: Dir): (r: seq<LogRecord>) {
    match raster
    case Fault => [LogRecord(OcrFallbackError, doc, None)]
    case Ok(pages) =>
      var stop := OcrStop(doc, pages, rasters, 0);
      OcrErrors(doc, pages, 0, stop) + StopRecord(doc, pages, stop)
  }

  /** The text file of a processed document: the structured fragments, then,
      when the flag is set or no page was read, the recognised text of every
      page up to the first one that stops the pass. */
  function ExpectedText(d: Document, rasters: Dir): (text: string) {
    var pages := d.structure.pages;
    StructuredText(pages, 0)
      + (if NeedsFallback(d.structure) || |pages| == 0 then OcrText(d.name, d.raster, rasters) else "")
  }

  // ---------------------------------------------------------------------------
  // One page

  /** The table (image) block changes only its own folder, never an existing
      file of it, creates only files of this page's items, and logs one
      record exactly when the listing raised or an absent item failed. */
  lemma ArtifactStepEffects(s: Store, doc: string, i: nat, kind: Kind, listing: Outcome<seq<Outcome<string>>>)
    ensures var r := ArtifactStep(s, doc, i, kind, listing);
            && r.texts == s.texts && r.rasters == s.rasters
            && (kind == Table ==> r.images == s.images)
            && (kind == Image ==> r.tables == s.tables)
            && Extends(Folder(s, kind), Folder(r, kind))
            && (forall p :: p in Folder(r, kind) && p !in Folder(s, kind) ==>
                  exists j :: p == ArtifactName(doc, kind, i, j))
            && r.log == s.log + Record(KindTag(kind), doc, i, ArtifactsFail(Folder(s, kind), doc, kind, i, listing))
  {
    if listing.Ok? {
      var items := listing.value;
      SaveFromExtends(Folder(s, kind), doc, kind, i, items, 0);
      SaveFromCreatesOwnFiles(Folder(s, kind), doc, kind, i, items, 0);
      SaveFaultIff(Folder(s, kind), doc, kind, i, items);
    }
  }

  /** One page changes no existing file, no text file and no raster, and
      creates only files of its own tables and images. */
  lemma PageStepFiles(p: Progress, doc: string, i: nat, page: PageData)
    ensures var r := PageStep(p, doc, i, page).store;
            && r.texts == p.store.texts && r.rasters == p.store.rasters
            && Extends(p.store.tables, r.tables) && Extends(p.store.images, r.images)
            && (forall q :: q in r.tables && q !in p.store.tables ==>
                  exists j :: q == ArtifactName(doc, Table, i, j))
            && (forall q :: q in r.images && q !in p.store.images ==>
                  exists j :: q == ArtifactName(doc, Image, i, j))
  {
    var s1 := ArtifactStep(p.store, doc, i, Table, page.tables);
    ArtifactStepEffects(p.store, doc, i, Table, page.tables);
    ArtifactStepEffects(s1, doc, i, Image, page.images);
  }

  /** Each of the page's three blocks logs at most one record, in the order
      tables, images, text: a table failure does not stop the image and text
      blocks. */
  lemma PageStepLog(p: Progress, doc: string, i: nat, page: PageData)
    ensures PageStep(p, doc, i, page).store.log
         == p.store.log
            + Record(TableError, doc, i, ArtifactsFail(p.store.tables, doc, Table, i, page.tables))
            + Record(ImageError, doc, i, ArtifactsFail(p.store.images, doc, Image, i, page.images))
            + Record(TextError, doc, i, page.text.Fault?)
  {
    var s1 := ArtifactStep(p.store, doc, i, Table, page.tables);
    ArtifactStepEffects(p.store, doc, i, Table, page.tables);
    ArtifactStepEffects(s1, doc, i, Image, page.images);
  }

  /** One page only appends to the log. */
  lemma PageStepAppends(p: Progress, doc: string, i: nat, page: PageData)
    ensures p.store.log <= PageStep(p, doc, i, page).store.log
  {
    PageStepLog(p, doc, i, page);
  }

  /** The page loop from page `i` on appends the fragments of the pages in
      page order. */
  lemma {:induction false} PagesFromText(p: Progress, doc: string, pages: seq<PageData>, i: nat)
    requires i <= |pages|
    ensures PagesFrom(p, doc, pages, i).text == p.text + StructuredText(pages, i)
    decreases |pages| - i
  {
    if i < |pages| {
      var p' := PageStep(p, doc, i, pages[i]);
      var t, rest := PageText(i, pages[i]), StructuredText(pages, i + 1);
      PagesFromText(p', doc, pages, i + 1);
      ConcatAssoc(p.text, t, rest);
    }
  }

  /** The flag is sticky: after the page loop it is set exactly when it was
      set before or some page does not contribute. */
  lemma {:induction false} PagesFromFlag(p: Progress, doc: string, pages: seq<PageData>, i: nat)
    requires i <= |pages|
    ensures PagesFrom(p, doc, pages, i).fallback == (p.fallback || SomeInsufficient(pages, i))
    decreases |pages| - i
  {
    if i < |pages| {
      PagesFromFlag(PageStep(p, doc, i, pages[i]), doc, pages, i + 1);
      assert SomeInsufficient(pages, i) == (!Contributes(pages[i].text) || SomeInsufficient(pages, i + 1));
    }
  }

  /** The page loop changes no existing file, no text file and no raster,
      only appends to the log, and creates only table and image files of
      this document. */
  lemma {:induction false} PagesFromFiles(p: Progress, doc: string, pages: seq<PageData>, i: nat)
    requires i <= |pages|
    ensures var r := PagesFrom(p, doc, pages, i).store;
            && r.texts == p.store.texts && r.rasters == p.store.rasters
            && Extends(p.store.tables, r.tables) && Extends(p.store.images, r.images)
            && (forall q :: q in r.tables && q !in p.store.tables ==>
                  exists n, j :: q == ArtifactName(doc, Table, n, j))
            && (forall q :: q in r.images && q !in p.store.images ==>
                  exists n, j :: q == ArtifactName(doc, Image, n, j))
            && p.store.log <= r.log
    decreases |pages| - i
  {
    if i < |pages| {
      var p' := PageStep(p, doc, i, pages[i]);
      PageStepFiles(p, doc, i, pages[i]);
      PageStepAppends(p, doc, i, pages[i]);
      PagesFromFiles(p', doc, pages, i + 1);
      var r := PagesFrom(p', doc, pages, i + 1).store;
      forall q | q in r.tables && q !in p.store.tables
        ensures exists n, j :: q == ArtifactName(doc, Table, n, j)
      {
        if q in p'.store.tables {
          var j :| q == ArtifactName(doc, Table, i, j);
        }
      }
      forall q | q in r.images && q !in p.store.images
        ensures exists n, j :: q == ArtifactName(doc, Image, n, j)
      {
        if q in p'.store.images {
          var j :| q == ArtifactName(doc, Image, i, j);
        }
      }
    }
  }

  /** Text that starts with a contributing first page is not blank. */
  lemma StructuredTextNotBlank(pages: seq<PageData>)
    requires |pages| > 0 && Contributes(pages[0].text)
    ensures |Strip(StructuredText(pages, 0))| > 0
  {
    var rest := StructuredText(pages, 1);
    assert StructuredText(pages, 0) == "" + Fragment(0, pages[0].text.value.value) + rest;
    FragmentNotBlank(0, pages[0].text.value.value, "", rest);
  }

  /** The structured pass of a document: its text is the fragments of all
      pages, the flag is NeedsFallback, and the OCR pass then runs exactly
      when the flag is set or the document has no pages (otherwise the text
      holds at least one delimiter and is not blank). */
  lemma StructuredPassDecides(s: Store, doc: string, read: PdfRead)
    ensures var q := StructuredPass(Progress(s, "", false), doc, read);
            && q.text == StructuredText(read.pages, 0)
            && q.fallback == NeedsFallback(read)
            && (OcrRuns(q) <==> NeedsFallback(read) || |read.pages| == 0)
            && q.store.log == PagesFrom(Progress(s, "", false), doc, read.pages, 0).store.log
                              + (if read.aborted then [LogRecord(OpenError, doc, None)] else [])
  {
    var pages := read.pages;
    PagesFromText(Progress(s, "", false), doc, pages, 0);
    PagesFromFlag(Progress(s, "", false), doc, pages, 0);
    if |pages| > 0 && !NeedsFallback(read) {
      StructuredTextNotBlank(pages);
    }
    if |pages| == 0 {
      StripIsTrimmedSlice("");
    }
  }

  // ---------------------------------------------------------------------------
  // The OCR pass

  /** Writing the raster of page `m` does not change whether a later page
      stops the pass. */
  lemma {:induction false} OcrStopIgnoresEarlierRaster(doc: string, pages: seq<RasterPage>, rasters: Dir, m: nat, png: string, k: nat)
    requires m < k <= |pages|
    ensures OcrStop(doc, pages, rasters[RasterName(doc, m) := png], k) == OcrStop(doc, pages, rasters, k)
    decreases |pages| - k
  {
    if k < |pages| {
      if RasterName(doc, k) == RasterName(doc, m) {
        RasterNameInjective(doc, k, m);
      }
      assert Blocked(doc, rasters[RasterName(doc, m) := png], k, pages[k]) == Blocked(doc, rasters, k, pages[k]);
      OcrStopIgnoresEarlierRaster(doc, pages, rasters, m, png, k + 1);
    }
  }

  /** The rasters after visiting page `k` (when it does not stop the pass). */
  function RastersAfter(doc: string, rasters: Dir, k: nat, rp: RasterPage): (r: Dir)
    requires !Blocked(doc, rasters, k, rp)
  {
    var name := RasterName(doc, k);
    if name in rasters then rasters else rasters[name := rp.render.value]
  }

  /** Visiting a page keeps the stopping page of the rest of the pass. */
  lemma OcrStopAfterVisit(doc: string, pages: seq<RasterPage>, rasters: Dir, k: nat)
    requires k < |pages| && !Blocked(doc, rasters, k, pages[k])
    ensures OcrStop(doc, pages, RastersAfter(doc, rasters, k, pages[k]), k + 1)
         == OcrStop(doc, pages, rasters, k)
  {
    if RasterName(doc, k) !in rasters {
      OcrStopIgnoresEarlierRaster(doc, pages, rasters, k, pages[k].render.value, k + 1);
    }
  }

  /** The `[OCR Fallback Error]` record of a pass that stopped before the
      last page. */
  function StopRecord(doc: string, pages: seq<RasterPage>, stop: nat): (r: seq<LogRecord>) {
    if stop < |pages| then [LogRecord(OcrFallbackError, doc, None)] else []
  }

  /** The OCR loop from page `k` on appends, in page order and with no
      delimiter, the recognised lines of every page before the first one
      that stops it. */
  lemma {:induction false} OcrFromText(p: Progress, doc: string, pages: seq<RasterPage>, k: nat)
    requires k <= |pages|
    ensures OcrFrom(p, doc, pages, k).text
         == p.text + Recognized(pages, k, OcrStop(doc, pages, p.store.rasters, k))
    ensures OcrFrom(p, doc, pages, k).fallback == p.fallback
    decreases |pages| - k
  {
    var stop := OcrStop(doc, pages, p.store.rasters, k);
    if k < |pages| && !Blocked(doc, p.store.rasters, k, pages[k]) {
      var rp := pages[k];
      var p' := OcrFrom(p, doc, pages, k);
      var s := p.store.(rasters := RastersAfter(doc, p.store.rasters, k, rp));
      var s' := if rp.recognition.failed then Logged(s, OcrError, doc, Some(k + 1)) else s;
      var next := Progress(s', p.text + RecognizedLines(rp.recognition.lines), p.fallback);
      assert p' == OcrFrom(next, doc, pages, k + 1);
      OcrStopAfterVisit(doc, pages, p.store.rasters, k);
      OcrFromText(next, doc, pages, k + 1);
      ConcatAssoc(p.text, RecognizedLines(rp.recognition.lines), Recognized(pages, k + 1, stop));
    }
  }

  /** The OCR loop logs one `[OCR Error]` per visited page whose recognition
      raised and goes on; the page that stops it ends the pass with one
      `[OCR Fallback Error]`. */
  lemma {:induction false} OcrFromLog(p: Progress, doc: string, pages: seq<RasterPage>, k: nat)
    requires k <= |pages|
    ensures OcrFrom(p, doc, pages, k).store.log
         == p.store.log + OcrErrors(doc, pages, k, OcrStop(doc, pages, p.store.rasters, k))
            + StopRecord(doc, pages, OcrStop(doc, pages, p.store.rasters, k))
    decreases |pages| - k
  {
    var stop := OcrStop(doc, pages, p.store.rasters, k);
    if k < |pages| && !Blocked(doc, p.store.rasters, k, pages[k]) {
      var rp := pages[k];
      var s := p.store.(rasters := RastersAfter(doc, p.store.rasters, k, rp));
      var s' := if rp.recognition.failed then Logged(s, OcrError, doc, Some(k + 1)) else s;
      var next := Progress(s', p.text + RecognizedLines(rp.recognition.lines), p.fallback);
      assert OcrFrom(p, doc, pages, k) == OcrFrom(next, doc, pages, k + 1);
      OcrStopAfterVisit(doc, pages, p.store.rasters, k);
      OcrFromLog(next, doc, pages, k + 1);
      var mine := Record(OcrError, doc, k, rp.recognition.failed);
      assert k < stop;
      assert OcrErrors(doc, pages, k, stop) == mine + OcrErrors(doc, pages, k + 1, stop);
      assert s'.log == p.store.log + mine;
      ConcatAssoc(p.store.log, mine, OcrErrors(doc, pages, k + 1, stop));
    }
  }

  /** The OCR loop writes a raster only when it is absent, leaves every
      other folder alone, and every page it visits has its raster afterwards. */
  lemma {:induction false} OcrFromFiles(p: Progress, doc: string, pages: seq<RasterPage>, k: nat)
    requires k <= |pages|
    ensures var stop := OcrStop(doc, pages, p.store.rasters, k);
            var r := OcrFrom(p, doc, pages, k).store;
            && r.texts == p.store.texts && r.tables == p.store.tables && r.images == p.store.images
            && Extends(p.store.rasters, r.rasters)
            && (forall j :: k <= j < stop ==> RasterName(doc, j) in r.rasters)
    decreases |pages| - k
  {
    if k < |pages| && !Blocked(doc, p.store.rasters, k, pages[k]) {
      var rp := pages[k];
      var s := p.store.(rasters := RastersAfter(doc, p.store.rasters, k, rp));
      var s' := if rp.recognition.failed then Logged(s, OcrError, doc, Some(k + 1)) else s;
      var next := Progress(s', p.text + RecognizedLines(rp.recognition.lines), p.fallback);
      assert OcrFrom(p, doc, pages, k) == OcrFrom(next, doc, pages, k + 1);
      OcrStopAfterVisit(doc, pages, p.store.rasters, k);
      OcrFromFiles(next, doc, pages, k + 1);
    }
  }

  /** The OCR loop creates no raster beyond the pages it visits. */
  lemma {:induction false} OcrFromNewRasters(p: Progress, doc: string, pages: seq<RasterPage>, k: nat)
    requires k <= |pages|
    ensures var stop := OcrStop(doc, pages, p.store.rasters, k);
            var r := OcrFrom(p, doc, pages, k).store;
            forall q :: q in r.rasters && q !in p.store.rasters ==>
              exists j :: k <= j < stop && q == RasterName(doc, j)
    decreases |pages| - k
  {
    if k < |pages| && !Blocked(doc, p.store.rasters, k, pages[k]) {
      var rp := pages[k];
      var s := p.store.(rasters := RastersAfter(doc, p.store.rasters, k, rp));
      var s' := if rp.recognition.failed then Logged(s, OcrError, doc, Some(k + 1)) else s;
      var next := Progress(s', p.text + RecognizedLines(rp.recognition.lines), p.fallback);
      assert OcrFrom(p, doc, pages, k) == OcrFrom(next, doc, pages, k + 1);
      OcrStopAfterVisit(doc, pages, p.store.rasters, k);
      OcrFromNewRasters(next, doc, pages, k + 1);
    }
  }

  /** The OCR fallback block as a whole: what it appends to the text and to
      the log, and that it only adds rasters of this document. */
  lemma OcrPassEffects(p: Progress, doc: string, raster: Outcome<seq<RasterPage>>)
    ensures var r := OcrPass(p, doc, raster);
            && r.text == p.text + OcrText(doc, raster, p.store.rasters)
            && r.store.texts == p.store.texts && r.store.tables == p.store.tables
            && r.store.images == p.store.images
            && Extends(p.store.rasters, r.store.rasters)
            && r.store.log == p.store.log + OcrLog(doc, raster, p.store.rasters)
            && (forall q :: q in r.store.rasters && q !in p.store.rasters ==>
                  exists j :: q == RasterName(doc, j))
  {
    if raster.Ok? {
      var pages := raster.value;
      var stop := OcrStop(doc, pages, p.store.rasters, 0);
      OcrFromText(p, doc, pages, 0);
      OcrFromFiles(p, doc, pages, 0);
      OcrFromNewRasters(p, doc, pages, 0);
      OcrFromLog(p, doc, pages, 0);
      ConcatAssoc(p.store.log, OcrErrors(doc, pages, 0, stop), StopRecord(doc, pages, stop));
    }
  }

  // ---------------------------------------------------------------------------
  // One document

  /** The document after its structured pass and, when it runs, its OCR
      pass: the state the text save starts from. */
  function BeforeSave(s: Store, d: Document): (r: Progress) {
    var q := StructuredPass(Progress(s, "", false), d.name, d.structure);
    if OcrRuns(q) then OcrPass(q, d.name, d.raster) else q
  }

  /** The text that reaches the save is ExpectedText. */
  lemma BeforeSaveText(s: Store, d: Document)
    ensures BeforeSave(s, d).text == ExpectedText(d, s.rasters)
  {
    var q := StructuredPass(Progress(s, "", false), d.name, d.structure);
    StructuredPassDecides(s, d.name, d.structure);
    if OcrRuns(q) {
      PagesFromFiles(Progress(s, "", false), d.name, d.structure.pages, 0);
      assert q.store.rasters == s.rasters;
      OcrPassEffects(q, d.name, d.raster);
    } else {
      assert q.text + "" == q.text;
    }
  }

  /** Before the save, no text file was written, no existing file changed,
      the log only grew, and every new file is one of this document's. */
  lemma BeforeSaveEffects(s: Store, d: Document)
    ensures var r := BeforeSave(s, d);
            && r.text == ExpectedText(d, s.rasters)
            && r.store.texts == s.texts
            && Extends(s.tables, r.store.tables) && Extends(s.images, r.store.images)
            && Extends(s.rasters, r.store.rasters)
            && s.log <= r.store.log
            && (forall p :: p in r.store.tables && p !in s.tables ==>
                  exists n, j :: p == ArtifactName(d.name, Table, n, j))
            && (forall p :: p in r.store.images && p !in s.images ==>
                  exists n, j :: p == ArtifactName(d.name, Image, n, j))
            && (forall p :: p in r.store.rasters && p !in s.rasters ==>
                  exists j :: p == RasterName(d.name, j))
  {
    var q := StructuredPass(Progress(s, "", false), d.name, d.structure);
    BeforeSaveText(s, d);
    PagesFromFiles(Progress(s, "", false), d.name, d.structure.pages, 0);
    if OcrRuns(q) {
      OcrPassEffects(q, d.name, d.raster);
    }
  }

  /** A document whose text file exists is skipped with no write and no log
      record. Otherwise nothing existing changes, and the only new files are
      its own text file, its table and image files and its page rasters. */
  lemma DocumentFiles(s: Store, d: Document)
    ensures var r := DocumentStep(s, d);
            && (TextName(d.name) in s.texts ==> r == s)
            && Extends(s.texts, r.texts) && Extends(s.tables, r.tables)
            && Extends(s.images, r.images) && Extends(s.rasters, r.rasters)
            && s.log <= r.log
            && (forall p :: p in r.texts && p !in s.texts ==> p == TextName(d.name))
            && (forall p :: p in r.tables && p !in s.tables ==>
                  exists n, j :: p == ArtifactName(d.name, Table, n, j))
            && (forall p :: p in r.images && p !in s.images ==>
                  exists n, j :: p == ArtifactName(d.name, Image, n, j))
            && (forall p :: p in r.rasters && p !in s.rasters ==>
                  exists j :: p == RasterName(d.name, j))
  {
    if TextName(d.name) !in s.texts {
      BeforeSaveEffects(s, d);
    }
  }

  /** The text file of a processed document holds exactly ExpectedText
      (even when it is empty); when it cannot be written no text file
      appears and the last log record is its `[Save Text Error]`. */
  lemma DocumentText(s: Store, d: Document)
    requires TextName(d.name) !in s.texts
    ensures var r := DocumentStep(s, d);
            && (d.saves ==> r.texts == s.texts[TextName(d.name) := ExpectedText(d, s.rasters)])
            && (!d.saves ==> r.texts == s.texts && |r.log| > 0
                               && r.log[|r.log| - 1] == LogRecord(SaveTextError, d.name, None))
  {
    BeforeSaveEffects(s, d);
  }

  // ---------------------------------------------------------------------------
  // The batch

  /** The batch never changes or removes an existing file and only appends
      to the log. */
  lemma {:induction false} BatchNeverOverwrites(s: Store, docs: seq<Document>)
    ensures var r := Batch(s, docs);
            && Extends(s.texts, r.texts) && Extends(s.tables, r.tables)
            && Extends(s.images, r.images) && Extends(s.rasters, r.rasters)
            && s.log <= r.log
    decreases |docs|
  {
    if docs != [] {
      DocumentFiles(s, docs[0]);
      BatchNeverOverwrites(DocumentStep(s, docs[0]), docs[1..]);
    }
  }

  /** After the batch every document has its text file, unless writing it
      failed, which the log then records. */
  lemma {:induction false} BatchLeavesTextOrRecord(s: Store, docs: seq<Document>)
    ensures var r := Batch(s, docs);
            forall k :: 0 <= k < |docs| ==>
              TextName(docs[k].name) in r.texts
              || (!docs[k].saves && LogRecord(SaveTextError, docs[k].name, None) in r.log)
    decreases |docs|
  {
    if docs != [] {
      var s' := DocumentStep(s, docs[0]);
      DocumentFiles(s, docs[0]);
      if TextName(docs[0].name) !in s.texts {
        DocumentText(s, docs[0]);
      }
      BatchLeavesTextOrRecord(s', docs[1..]);
      BatchNeverOverwrites(s', docs[1..]);
      var r := Batch(s, docs);
      forall k | 0 <= k < |docs|
        ensures TextName(docs[k].name) in r.texts
                || (!docs[k].saves && LogRecord(SaveTextError, docs[k].name, None) in r.log)
      {
        if k == 0 {
          if !docs[0].saves && TextName(docs[0].name) !in s.texts {
            assert s'.log[|s'.log| - 1] in r.log;
          }
        } else {
          assert docs[k] == docs[1..][k - 1];
        }
      }
    }
  }

  /** A batch whose every document already has its text file changes
      nothing. */
  lemma {:induction false} BatchSkipsFinished(s: Store, docs: seq<Document>)
    requires forall k :: 0 <= k < |docs| ==> TextName(docs[k].name) in s.texts
    ensures Batch(s, docs) == s
    decreases |docs|
  {
    if docs != [] {
      assert DocumentStep(s, docs[0]) == s;
      assert forall k :: 0 <= k < |docs[1..]| ==> docs[1..][k] == docs[k + 1];
      BatchSkipsFinished(s, docs[1..]);
    }
  }

  /** Re-running the batch over the same documents after a run in which
      every text file could be written does nothing at all: no extraction, no
      rendering, no write, no log record. */
  lemma RerunChangesNothing(s: Store, docs: seq<Document>, again: seq<Document>)
    requires forall k :: 0 <= k < |docs| ==> docs[k].saves
    requires forall a :: a in again ==> exists d :: d in docs && d.name == a.name
    ensures Batch(Batch(s, docs), again) == Batch(s, docs)
  {
    var r := Batch(s, docs);
    BatchLeavesTextOrRecord(s, docs);
    forall k | 0 <= k < |again| ensures TextName(again[k].name) in r.texts {
      assert again[k] in again;
      var d :| d in docs && d.name == again[k].name;
      var j :| 0 <= j < |docs| && docs[j] == d;
    }
    BatchSkipsFinished(r, again);
  }
}
