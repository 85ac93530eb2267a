/** The plain pdfplumber extractor as a sequence of state steps over its
    three output folders and its error log. It shares the page data, file
    names and save loop of the hybrid extractor, but has no sufficiency
    threshold and no OCR fallback, and a document it cannot open gets no
    text file. */
module PlumberSpec {
  import opened Common
  import opened Artifacts

  /** The parenthesised stage that a line of the error log names. */
  datatype Stage = TableStage | ImageStage | TextStage | OpenStage

  /** One line of `log_file`, without the exception text; `page` is the
      1-based page number the line shows, if any. */
  datatype LogRecord = LogRecord(stage: Stage, doc: string, page: Option<nat>)

  /** One PDF of the batch: its name without extension and what pdfplumber
      makes of it. */
  datatype Document = Document(name: string, structure: PdfRead)

  datatype Store = Store(texts: Dir, tables: Dir, images: Dir, log: seq<LogRecord>)

  /** The store with the document's accumulator `all_text`. */
  datatype Progress = Progress(store: Store, text: string)

  function Logged(s: Store, stage: Stage, doc: string, page: Option<nat>): (r: Store) {
    s.(log := s.log + [LogRecord(stage, doc, page)])
  }

  function KindStage(kind: Kind): (r: Stage) {
    if kind == Table then TableStage else ImageStage
  }

  function Folder(s: Store, kind: Kind): (folder: Dir) {
    if kind == Table then s.tables else s.images
  }

  function WithFolder(s: Store, kind: Kind, dir: Dir): (updated: Store) {
    if kind == Table then s.(tables := dir) else s.(images := dir)
  }

  /** The table (image) extraction block of one page, with its own handler. */
  function ArtifactStep(s: Store, doc: string, page: nat, kind: Kind, listing: Outcome<seq<Outcome<string>>>): (after: Store) {
    match listing
    case Fault => Logged(s, KindStage(kind), doc, Some(page + 1))
    case Ok(items) =>
      var r := SaveFrom(Folder(s, kind), doc, kind, page, items, 0);
      var s' := WithFolder(s, kind, r.dir);
      if r.faulted then Logged(s', KindStage(kind), doc, Some(page + 1)) else s'
  }

  /** The text block appends the page's text whenever it is non-empty. */
  predicate Contributes(text: Outcome<Option<string>>) {
    text.Ok? && text.value.Some? && |text.value.value| > 0
  }

  /** What page `i` adds to `all_text`. */
  function PageText(i: nat, page: PageData): (r: string) {
    if Contributes(page.text) then Fragment(i, page.text.value.value) else ""
  }

  /** The folders and the log after the three blocks of one page: tables,
      images, then the `(text)` line when extracting text raised. */
  function PageStore(s: Store, doc: string, i: nat, page: PageData): (r: Store) {
    var s' := ArtifactStep(ArtifactStep(s, doc, i, Table, page.tables), doc, i, Image, page.images);
    if page.text.Fault? then Logged(s', TextStage, doc, Some(i + 1)) else s'
  }

  /** One iteration of the page loop. */
  function PageStep(p: Progress, doc: string, i: nat, page: PageData): (r: Progress) {
    Progress(PageStore(p.store, doc, i, page), p.text + PageText(i, page))
  }

  /** The page loop from page `i` on. */
  function PagesFrom(p: Progress, doc: string, pages: seq<PageData>, i: nat): (r: Progress)
    requires i <= |pages|
    decreases |pages| - i
  {
    if i == |pages| then p else PagesFrom(PageStep(p, doc, i, pages[i]), doc, pages, i + 1)
  }

  /** One iteration of the document loop: skip when the text file exists;
      after an `(open)` failure `continue` before the text is saved. */
  function DocumentStep(s: Store, d: Document): (r: Store) {
    if TextName(d.name) in s.texts then s
    else
      var q := PagesFrom(Progress(s, ""), d.name, d.structure.pages, 0);
      if d.structure.aborted then Logged(q.store, OpenStage, d.name, None)
      else q.store.(texts := q.store.texts[TextName(d.name) := q.text])
  }

  function Batch(s: Store, docs: seq<Document>): (r: Store)
    decreases |docs|
  {
    if docs == [] then s else Batch(DocumentStep(s, docs[0]), docs[1..])
  }

  /** A run: the log file is opened in "w" mode, which empties it, and the
      batch follows. */
  function RunBatch(s: Store, docs: seq<Document>): (r: Store) {
    Batch(s.(log := []), docs)
  }
}
