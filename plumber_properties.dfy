/** What the steps of the plain pdfplumber extractor add up to: the exact
    text file of a document, the open failure that leaves no text file (so
    the next run retries the document), the log that holds only this run's
    records, and how its missing threshold differs from the hybrid
    extractor's. */
module PlumberProperties {
  import opened Common
  import opened Artifacts
  import opened PlumberSpec
  import HybridSpec

  // ---------------------------------------------------------------------------
  // Reference definitions

  /** The fragments of pages `i..` in page order. */
  function PlainText(pages: seq<PageData>, i: nat): (r: string)
    requires i <= |pages|
    decreases |pages| - i
  {
    if i == |pages| then "" else PageText(i, pages[i]) + PlainText(pages, i + 1)
  }

  function Record(stage: Stage, doc: string, page: nat, present: bool): (r: seq<LogRecord>) {
    if present then [LogRecord(stage, doc, Some(page + 1))] else []
  }

  /** Every record from position `from` on names document `doc`. */
  predicate RecordsOf(log: seq<LogRecord>, from: nat, doc: string) {
    forall j :: from <= j < |log| ==> log[j].doc == doc
  }

  // ---------------------------------------------------------------------------
  // One page

  /** The table (image) block changes only its own folder, never an existing
      file of it, creates only files of this page's items, and logs one
      record exactly when the listing raised or an absent item failed. */
  lemma ArtifactStepEffects(s: Store, doc: string, i: nat, kind: Kind, listing: Outcome<seq<Outcome<string>>>)
    ensures var r := ArtifactStep(s, doc, i, kind, listing);
            && r.texts == s.texts
            && (kind == Table ==> r.images == s.images)
            && (kind == Image ==> r.tables == s.tables)
            && Extends(Folder(s, kind), Folder(r, kind))
            && (forall p :: p in Folder(r, kind) && p !in Folder(s, kind) ==>
                  exists j :: p == ArtifactName(doc, kind, i, j))
            && r.log == s.log + Record(KindStage(kind), doc, i, ArtifactsFail(Folder(s, kind), doc, kind, i, listing))
  {
    if listing.Ok? {
      var items := listing.value;
      SaveFromExtends(Folder(s, kind), doc, kind, i, items, 0);
      SaveFromCreatesOwnFiles(Folder(s, kind), doc, kind, i, items, 0);
      SaveFaultIff(Folder(s, kind), doc, kind, i, items);
    }
  }

  /** One page changes no text file and no existing file, and creates only
      its own table and image files. */
  lemma PageStepFiles(p: Progress, doc: string, i: nat, page: PageData)
    ensures var r := PageStep(p, doc, i, page).store;
            && r.texts == p.store.texts
            && Extends(p.store.tables, r.tables) && Extends(p.store.images, r.images)
            && (forall q :: q in r.tables && q !in p.store.tables ==>
                  exists j :: q == ArtifactName(doc, Table, i, j))
            && (forall q :: q in r.images && q !in p.store.images ==>
                  exists j :: q == ArtifactName(doc, Image, i, j))
  {
    var s1 := ArtifactStep(p.store, doc, i, Table, page.tables);
    ArtifactStepEffects(p.store, doc, i, Table, page.tables);
    ArtifactStepEffects(s1, doc, i, Image, page.images);
  }

  /** Each of the page's three blocks logs at most one line, in the order
      table, image, text: a failure in one block does not stop the next. */
  lemma PageStepLog(p: Progress, doc: string, i: nat, page: PageData)
    ensures PageStep(p, doc, i, page).store.log
         == p.store.log
            + Record(TableStage, doc, i, ArtifactsFail(p.store.tables, doc, Table, i, page.tables))
            + Record(ImageStage, doc, i, ArtifactsFail(p.store.images, doc, Image, i, page.images))
            + Record(TextStage, doc, i, page.text.Fault?)
  {
    var s1 := ArtifactStep(p.store, doc, i, Table, page.tables);
    ArtifactStepEffects(p.store, doc, i, Table, page.tables);
    ArtifactStepEffects(s1, doc, i, Image, page.images);
  }

  /** One page only appends to the log, and only records that name its
      document. */
  lemma PageStepRecords(p: Progress, doc: string, i: nat, page: PageData)
    ensures var r := PageStep(p, doc, i, page).store;
            p.store.log <= r.log && RecordsOf(r.log, |p.store.log|, doc)
  {
    PageStepLog(p, doc, i, page);
  }

  /** The page loop appends the fragments of pages `i..` in page order. */
  lemma {:induction false} PagesFromText(p: Progress, doc: string, pages: seq<PageData>, i: nat)
    requires i <= |pages|
    ensures PagesFrom(p, doc, pages, i).text == p.text + PlainText(pages, i)
    decreases |pages| - i
  {
    if i < |pages| {
      var p' := PageStep(p, doc, i, pages[i]);
      var t, rest := PageText(i, pages[i]), PlainText(pages, i + 1);
      PagesFromText(p', doc, pages, i + 1);
      ConcatAssoc(p.text, t, rest);
    }
  }

  /** The page loop changes no text file and no existing file, creates only
      table and image files of this document, and appends only records that
      name it. */
  lemma {:induction false} PagesFromFiles(p: Progress, doc: string, pages: seq<PageData>, i: nat)
    requires i <= |pages|
    ensures var r := PagesFrom(p, doc, pages, i).store;
            && r.texts == p.store.texts
            && Extends(p.store.tables, r.tables) && Extends(p.store.images, r.images)
            && (forall q :: q in r.tables && q !in p.store.tables ==>
                  exists n, j :: q == ArtifactName(doc, Table, n, j))
            && (forall q :: q in r.images && q !in p.store.images ==>
                  exists n, j :: q == ArtifactName(doc, Image, n, j))
            && p.store.log <= r.log && RecordsOf(r.log, |p.store.log|, doc)
    decreases |pages| - i
  {
    if i < |pages| {
      var p' := PageStep(p, doc, i, pages[i]);
      PageStepFiles(p, doc, i, pages[i]);
      PageStepRecords(p, doc, i, pages[i]);
      PagesFromFiles(p', doc, pages, i + 1);
      var r := PagesFrom(p', doc, pages, i + 1).store;
      forall q | q in r.tables && q !in p.store.tables
        ensures exists n, j :: q == ArtifactName(doc, Table, n, j)
      {
        if q in p'.store.tables {
          var j :| q == ArtifactName(doc, Table, i, j);
        }
      }
      forall q | q in r.images && q !in p.store.images
        ensures exists n, j :: q == ArtifactName(doc, Image, n, j)
      {
        if q in p'.store.images {
          var j :| q == ArtifactName(doc, Image, i, j);
        }
      }
    }
  }

  // ---------------------------------------------------------------------------
  // One document

  /** A document whose text file exists is skipped with no write and no log
      record. Otherwise nothing existing changes, its only new files are its
      own text, table and image files, and its log records name it. */
  lemma DocumentFiles(s: Store, d: Document)
    ensures var r := DocumentStep(s, d);
            && (TextName(d.name) in s.texts ==> r == s)
            && Extends(s.texts, r.texts) && Extends(s.tables, r.tables) && Extends(s.images, r.images)
            && (forall p :: p in r.texts && p !in s.texts ==> p == TextName(d.name))
            && (forall p :: p in r.tables && p !in s.tables ==>
                  exists n, j :: p == ArtifactName(d.name, Table, n, j))
            && (forall p :: p in r.images && p !in s.images ==>
                  exists n, j :: p == ArtifactName(d.name, Image, n, j))
            && s.log <= r.log && RecordsOf(r.log, |s.log|, d.name)
  {
    if TextName(d.name) !in s.texts {
      PagesFromFiles(Progress(s, ""), d.name, d.structure.pages, 0);
    }
  }

  /** A document that opens is saved with exactly the fragments of its
      pages, even when that text is empty; one that fails while open gets
      no text file, and its last log record is the `(open)` line. */
  lemma DocumentText(s: Store, d: Document)
    requires TextName(d.name) !in s.texts
    ensures var r := DocumentStep(s, d);
            && (!d.structure.aborted ==>
                  r.texts == s.texts[TextName(d.name) := PlainText(d.structure.pages, 0)])
            && (d.structure.aborted ==>
                  r.texts == s.texts && |r.log| > 0 && r.log[|r.log| - 1] == LogRecord(OpenStage, d.name, None))
  {
    var q := PagesFrom(Progress(s, ""), d.name, d.structure.pages, 0);
    PagesFromText(Progress(s, ""), d.name, d.structure.pages, 0);
    PagesFromFiles(Progress(s, ""), d.name, d.structure.pages, 0);
    assert q.text == PlainText(d.structure.pages, 0);
  }

  // ---------------------------------------------------------------------------
  // The batch and the run

  /** The batch never changes or removes an existing file, only appends to
      the log, and every record it appends names one of its documents. */
  lemma {:induction false} BatchNeverOverwrites(s: Store, docs: seq<Document>)
    ensures var r := Batch(s, docs);
            && Extends(s.texts, r.texts) && Extends(s.tables, r.tables) && Extends(s.images, r.images)
            && s.log <= r.log
            && (forall j :: |s.log| <= j < |r.log| ==> exists d :: d in docs && d.name == r.log[j].doc)
    decreases |docs|
  {
    if docs != [] {
      var s' := DocumentStep(s, docs[0]);
      DocumentFiles(s, docs[0]);
      BatchNeverOverwrites(s', docs[1..]);
      var r := Batch(s, docs);
      forall j | |s.log| <= j < |r.log|
        ensures exists d :: d in docs && d.name == r.log[j].doc
      {
        if j < |s'.log| {
          assert docs[0] in docs;
        } else {
          var d :| d in docs[1..] && d.name == r.log[j].doc;
          assert d in docs;
        }
      }
    }
  }

  /** After the batch every document has its text file, unless it failed
      while open, which the log then records. */
  lemma {:induction false} BatchLeavesTextOrRecord(s: Store, docs: seq<Document>)
    ensures var r := Batch(s, docs);
            forall k :: 0 <= k < |docs| ==>
              TextName(docs[k].name) in r.texts
              || (docs[k].structure.aborted && LogRecord(OpenStage, docs[k].name, None) in r.log)
    decreases |docs|
  {
    if docs != [] {
      var s' := DocumentStep(s, docs[0]);
      DocumentFiles(s, docs[0]);
      if TextName(docs[0].name) !in s.texts {
        DocumentText(s, docs[0]);
      }
      BatchLeavesTextOrRecord(s', docs[1..]);
      BatchNeverOverwrites(s', docs[1..]);
      var r := Batch(s, docs);
      forall k | 0 <= k < |docs|
        ensures TextName(docs[k].name) in r.texts
                || (docs[k].structure.aborted && LogRecord(OpenStage, docs[k].name, None) in r.log)
      {
        if k == 0 {
          if docs[0].structure.aborted && TextName(docs[0].name) !in s.texts {
            assert s'.log[|s'.log| - 1] in r.log;
          }
        } else {
          assert docs[k] == docs[1..][k - 1];
        }
      }
    }
  }

  /** A document that fails while open every time it is met gets no text
      file, so the next run does not skip it but tries it again. */
  lemma {:induction false} OpenFailureIsRetried(s: Store, docs: seq<Document>, name: string)
    requires TextName(name) !in s.texts
    requires forall k :: 0 <= k < |docs| && docs[k].name == name ==> docs[k].structure.aborted
    ensures TextName(name) !in Batch(s, docs).texts
    decreases |docs|
  {
    if docs != [] {
      var s' := DocumentStep(s, docs[0]);
      DocumentFiles(s, docs[0]);
      if docs[0].name == name {
        DocumentText(s, docs[0]);
      } else {
        TextNameInjective(docs[0].name, name);
      }
      assert forall k :: 0 <= k < |docs[1..]| ==> docs[1..][k] == docs[k + 1];
      OpenFailureIsRetried(s', docs[1..], name);
    }
  }

  /** The log file after a run holds only records of that run, each naming
      one of its documents: whatever an earlier run wrote is gone. */
  lemma RunLogIsFresh(s: Store, docs: seq<Document>)
    ensures forall j :: 0 <= j < |RunBatch(s, docs).log| ==>
              exists d :: d in docs && d.name == RunBatch(s, docs).log[j].doc
  {
    var emptied := s.(log := []);
    BatchNeverOverwrites(emptied, docs);
    assert RunBatch(s, docs) == Batch(emptied, docs) && |emptied.log| == 0;
  }

  // ---------------------------------------------------------------------------
  // Against the hybrid extractor

  /** Text that is only whitespace, or at most ten characters long, is
      appended by this extractor, while the hybrid extractor treats it as
      insufficient and falls back to OCR. */
  lemma ShortTextOnlyHere(t: string)
    requires |t| > 0 && (IsBlank(t) || |t| <= HybridSpec.MinTextLength)
    ensures Contributes(Ok(Some(t))) && !HybridSpec.Sufficient(t)
  {
    StripIsTrimmedSlice(t);
  }
}
