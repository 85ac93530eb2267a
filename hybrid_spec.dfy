/** The hybrid extractor (pdfplumber, then PaddleOCR over fitz page rasters)
    as a sequence of state steps: one function per step the script takes, over
    the folders it writes and its error log. The class in hybrid.dfy runs the
    same steps with loops and is proved to agree with these functions;
    hybrid_properties.dfy proves what the steps add up to. */
module HybridSpec {
  import opened Common
  import opened Artifacts

  /** The bracketed tag that starts each line of the error log. */
  datatype Tag =
    | TableError | ImageError | TextError | OpenError
    | OcrError | OcrFallbackError | SaveTextError

  /** One `log_error` line, without its timestamp and exception text; `page`
      is the 1-based page number the line shows, if any. */
  datatype LogRecord = LogRecord(tag: Tag, doc: string, page: Option<nat>)

  /** What PaddleOCR gave for one raster: the lines appended before it
      stopped, and whether it stopped by raising. */
  datatype Recognition = Recognition(lines: seq<string>, failed: bool)

  /** One page as fitz and PaddleOCR see it: whether `load_page` succeeds,
      the PNG that rendering at 300 DPI and saving would produce (consulted
      only when the raster file is absent), and the recognition result. */
  datatype RasterPage = RasterPage(loads: bool, render: Outcome<string>, recognition: Recognition)

  /** One PDF of the batch: its name without extension, what pdfplumber
      makes of it, what `fitz.open` makes of it, and whether opening its text
      file for writing succeeds. */
  datatype Document = Document(name: string, structure: PdfRead, raster: Outcome<seq<RasterPage>>, saves: bool)

  /** The four output folders and the error log. */
  datatype Store = Store(texts: Dir, tables: Dir, images: Dir, rasters: Dir, log: seq<LogRecord>)

  /** The store with the document's accumulators `all_text` and
      `ocr_fallback`. */
  datatype Progress = Progress(store: Store, text: string, fallback: bool)

  /** The sufficiency threshold of the structured text. */
  const MinTextLength := 10

  /** `text and len(text.strip()) > 10`. */
  predicate Sufficient(text: string) {
    |text| > 0 && |Strip(text)| > MinTextLength
  }

  function Logged(s: Store, tag: Tag, doc: string, page: Option<nat>): (r: Store) {
    s.(log := s.log + [LogRecord(tag, doc, page)])
  }

  function KindTag(kind: Kind): (r: Tag) {
    if kind == Table then TableError else ImageError
  }

  function Folder(s: Store, kind: Kind): (folder: Dir) {
    if kind == Table then s.tables else s.images
  }

  function WithFolder(s: Store, kind: Kind, dir: Dir): (updated: Store) {
    if kind == Table then s.(tables := dir) else s.(images := dir)
  }

  /** The table (image) block of one page, with its own handler. */
  function ArtifactStep(s: Store, doc: string, page: nat, kind: Kind, listing: Outcome<seq<Outcome<string>>>): (after: Store) {
    match listing
    case Fault => Logged(s, KindTag(kind), doc, Some(page + 1))
    case Ok(items) =>
      var r := SaveFrom(Folder(s, kind), doc, kind, page, items, 0);
      var s' := WithFolder(s, kind, r.dir);
      if r.faulted then Logged(s', KindTag(kind), doc, Some(page + 1)) else s'
  }

  /** The text block appends the page's text: it was extracted and strips
      to more than ten characters. */
  predicate Contributes(text: Outcome<Option<string>>) {
    text.Ok? && text.value.Some? && Sufficient(text.value.value)
  }

  /** What page `i` adds to `all_text`. */
  function PageText(i: nat, page: PageData): (r: string) {
    if Contributes(page.text) then Fragment(i, page.text.value.value) else ""
  }

  /** The folders and the log after the three blocks of one page: tables,
      images, then the `[Text Error]` record when extracting text raised. */
  function PageStore(s: Store, doc: string, i: nat, page: PageData): (r: Store) {
    var s' := ArtifactStep(ArtifactStep(s, doc, i, Table, page.tables), doc, i, Image, page.images);
    if page.text.Fault? then Logged(s', TextError, doc, Some(i + 1)) else s'
  }

  /** One iteration of the page loop: a page that does not contribute sets
      `ocr_fallback`, which nothing clears. */
  function PageStep(p: Progress, doc: string, i: nat, page: PageData): (r: Progress) {
    Progress(PageStore(p.store, doc, i, page), p.text + PageText(i, page), p.fallback || !Contributes(page.text))
  }

  /** The page loop from page `i` on. */
  function PagesFrom(p: Progress, doc: string, pages: seq<PageData>, i: nat): (r: Progress)
    requires i <= |pages|
    decreases |pages| - i
  {
    if i == |pages| then p else PagesFrom(PageStep(p, doc, i, pages[i]), doc, pages, i + 1)
  }

  /** The `with pdfplumber.open(...)` block and its `[Open Error]` handler. */
  function StructuredPass(p: Progress, doc: string, read: PdfRead): (r: Progress) {
    var q := PagesFrom(p, doc, read.pages, 0);
    if read.aborted then Progress(Logged(q.store, OpenError, doc, None), q.text, true) else q
  }

  /** `{name}_page{p+1}.png` in the page-raster folder. */
  function RasterName(doc: string, page: nat): (r: string) {
    doc + ("_page" + (Show(page + 1) + ".png"))
  }

  /** The raster file names of one document are distinct. */
  lemma RasterNameInjective(doc: string, page: nat, page': nat)
    requires RasterName(doc, page) == RasterName(doc, page')
    ensures page == page'
  {
    CancelPrefix(doc, "_page" + (Show(page + 1) + ".png"), "_page" + (Show(page' + 1) + ".png"));
    CancelPrefix("_page", Show(page + 1) + ".png", Show(page' + 1) + ".png");
    DigitRunSplit(Show(page + 1), ".png", Show(page' + 1), ".png");
    ShowInjective(page + 1, page' + 1);
  }

  /** The page stops the OCR pass: loading it raises, or its raster is absent
      and rendering or saving it raises. */
  predicate Blocked(doc: string, rasters: Dir, k: nat, rp: RasterPage) {
    !rp.loads || (RasterName(doc, k) !in rasters && rp.render.Fault?)
  }

  /** `for line in res[0]: all_text += line[1][0] + "\n"`, as a value. */
  function RecognizedLines(lines: seq<string>): (r: string) {
    if lines == [] then "" else RecognizedLines(lines[..|lines| - 1]) + lines[|lines| - 1] + "\n"
  }

  /** The OCR page loop from page `k` on. */
  function OcrFrom(p: Progress, doc: string, pages: seq<RasterPage>, k: nat): (r: Progress)
    requires k <= |pages|
    decreases |pages| - k
  {
    if k == |pages| then p
    else if Blocked(doc, p.store.rasters, k, pages[k]) then
      p.(store := Logged(p.store, OcrFallbackError, doc, None))
    else
      var rp := pages[k];
      var name := RasterName(doc, k);
      var rasters := if name in p.store.rasters then p.store.rasters else p.store.rasters[name := rp.render.value];
      var s := p.store.(rasters := rasters);
      var s' := if rp.recognition.failed then Logged(s, OcrError, doc, Some(k + 1)) else s;
      OcrFrom(Progress(s', p.text + RecognizedLines(rp.recognition.lines), p.fallback), doc, pages, k + 1)
  }

  /** The OCR fallback block with its `[OCR Fallback Error]` handler. */
  function OcrPass(p: Progress, doc: string, raster: Outcome<seq<RasterPage>>): (r: Progress) {
    match raster
    case Fault => p.(store := Logged(p.store, OcrFallbackError, doc, None))
    case Ok(pages) => OcrFrom(p, doc, pages, 0)
  }

  /** `ocr_fallback or not all_text.strip()`. */
  predicate OcrRuns(p: Progress) {
    p.fallback || |Strip(p.text)| == 0
  }

  /** One iteration of the document loop. */
  function DocumentStep(s: Store, d: Document): (after: Store) {
    if TextName(d.name) in s.texts then s
    else
      var q := StructuredPass(Progress(s, "", false), d.name, d.structure);
      var r := if OcrRuns(q) then OcrPass(q, d.name, d.raster) else q;
      if d.saves then r.store.(texts := r.store.texts[TextName(d.name) := r.text])
      else Logged(r.store, SaveTextError, d.name, None)
  }

  /** The whole batch, document after document. */
  function Batch(s: Store, docs: seq<Document>): (r: Store)
    decreases |docs|
  {
    if docs == [] then s else Batch(DocumentStep(s, docs[0]), docs[1..])
  }
}
