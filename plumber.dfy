/** The plain pdfplumber extractor as the script runs it, with the folders
    and the log file as fields that its loops update; each method is proved
    to have exactly the effect of the corresponding step of PlumberSpec. */
module Plumber {
  import opened Common
  import opened Artifacts
  import opened PlumberSpec
  import PlumberProperties

  class Extractor {
    var texts: Dir
    var tables: Dir
    var images: Dir
    var log: seq<LogRecord>

    function Snapshot(): (r: Store)
      reads this
    {
      Store(texts, tables, images, log)
    }

    constructor (s: Store)
      ensures Snapshot() == s
    {
      texts, tables, images, log := s.texts, s.tables, s.images, s.log;
    }

    /** `log_file.write(...)`: appends one line and touches nothing else. */
    method Write(stage: Stage, doc: string, page: Option<nat>)
      modifies this
      ensures log == old(log) + [LogRecord(stage, doc, page)]
      ensures texts == old(texts) && tables == old(tables) && images == old(images)
    {
      log := log + [LogRecord(stage, doc, page)];
    }

    /** The table (image) extraction block of page `i`. */
    method SaveKind(doc: string, i: nat, kind: Kind, listing: Outcome<seq<Outcome<string>>>)
      modifies this
      ensures Snapshot() == ArtifactStep(old(Snapshot()), doc, i, kind, listing)
    {
      match listing
      case Fault =>
        Write(KindStage(kind), doc, Some(i + 1));
      case Ok(items) =>
        var faulted;
        if kind == Table {
          tables, faulted := SaveArtifacts(tables, doc, kind, i, items);
        } else {
          images, faulted := SaveArtifacts(images, doc, kind, i, items);
        }
        if faulted {
          Write(KindStage(kind), doc, Some(i + 1));
        }
    }

    /** One iteration of the page loop over `all_text`. */
    method ExtractPage(doc: string, i: nat, page: PageData, text: string) returns (text': string)
      modifies this
      ensures Progress(Snapshot(), text') == PageStep(Progress(old(Snapshot()), text), doc, i, page)
    {
      SaveKind(doc, i, Table, page.tables);
      SaveKind(doc, i, Image, page.images);
      text' := text;
      match page.text
      case Fault =>
        Write(TextStage, doc, Some(i + 1));
      case Ok(t) =>
        if t.Some? && |t.value| > 0 {
          text' := text' + Fragment(i, t.value);
        }
    }

    /** One iteration of the document loop. */
    method ProcessDocument(d: Document)
      modifies this
      ensures Snapshot() == DocumentStep(old(Snapshot()), d)
    {
      if TextName(d.name) in texts {
        return;
      }
      var text := "";
      var pages := d.structure.pages;
      ghost var start := Progress(Snapshot(), text);
      var i := 0;
      while i < |pages|
        invariant i <= |pages|
        invariant PagesFrom(Progress(Snapshot(), text), d.name, pages, i) == PagesFrom(start, d.name, pages, 0)
      {
        text := ExtractPage(d.name, i, pages[i], text);
        i := i + 1;
      }
      if d.structure.aborted {
        Write(OpenStage, d.name, None);
        return;
      }
      texts := texts[TextName(d.name) := text];
    }

    /** A run: empty the log file, then every document of `docs` in order. */
    method Run(docs: seq<Document>)
      modifies this
      ensures Snapshot() == RunBatch(old(Snapshot()), docs)
      ensures Extends(old(texts), texts) && Extends(old(tables), tables) && Extends(old(images), images)
      ensures forall j :: 0 <= j < |log| ==> exists d :: d in docs && d.name == log[j].doc
    {
      PlumberProperties.BatchNeverOverwrites(Snapshot().(log := []), docs);
      log := [];
      var k := 0;
      while k < |docs|
        invariant k <= |docs|
        invariant Batch(Snapshot(), docs[k..]) == RunBatch(old(Snapshot()), docs)
      {
        assert docs[k..][1..] == docs[k + 1..];
        ProcessDocument(docs[k]);
        k := k + 1;
      }
    }
  }
}
