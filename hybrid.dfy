/** The hybrid extractor as the script runs it: the output folders and the
    error log are fields that the loops update in place. Each method is proved
    to have exactly the effect of the corresponding step of HybridSpec. */
module Hybrid {
  import opened Common
  import opened Artifacts
  import opened HybridSpec
  import HybridProperties

  class Extractor {
    var texts: Dir
    var tables: Dir
    var images: Dir
    var rasters: Dir
    var log: seq<LogRecord>

    function Snapshot(): (r: Store)
      reads this
    {
      Store(texts, tables, images, rasters, log)
    }

    constructor (s: Store)
      ensures Snapshot() == s
    {
      texts, tables, images, rasters, log := s.texts, s.tables, s.images, s.rasters, s.log;
    }

    /** `log_error`: appends one line to the log and touches nothing else. */
    method LogError(tag: Tag, doc: string, page: Option<nat>)
      modifies this
      ensures log == old(log) + [LogRecord(tag, doc, page)]
      ensures texts == old(texts) && tables == old(tables) && images == old(images) && rasters == old(rasters)
    {
      log := log + [LogRecord(tag, doc, page)];
    }

    /** The table (image) block of page `i`. */
    method SaveKind(doc: string, i: nat, kind: Kind, listing: Outcome<seq<Outcome<string>>>)
      modifies this
      ensures Snapshot() == ArtifactStep(old(Snapshot()), doc, i, kind, listing)
    {
      match listing
      case Fault =>
        LogError(KindTag(kind), doc, Some(i + 1));
      case Ok(items) =>
        var faulted;
        if kind == Table {
          tables, faulted := SaveArtifacts(tables, doc, kind, i, items);
        } else {
          images, faulted := SaveArtifacts(images, doc, kind, i, items);
        }
        if faulted {
          LogError(KindTag(kind), doc, Some(i + 1));
        }
    }

    /** One iteration of the page loop over `all_text` and `ocr_fallback`. */
    method ExtractPage(doc: string, i: nat, page: PageData, text: string, fallback: bool)
      returns (text': string, fallback': bool)
      modifies this
      ensures Progress(Snapshot(), text', fallback')
           == PageStep(Progress(old(Snapshot()), text, fallback), doc, i, page)
    {
      SaveKind(doc, i, Table, page.tables);
      SaveKind(doc, i, Image, page.images);
      text', fallback' := text, fallback;
      match page.text
      case Fault =>
        fallback' := true;
        LogError(TextError, doc, Some(i + 1));
      case Ok(t) =>
        if t.Some? && Sufficient(t.value) {
          text' := text' + Fragment(i, t.value);
        } else {
          fallback' := true;
        }
    }

    /** The OCR fallback block; `fallback` only names the flag that the
        block leaves as it is. */
    method RunOcr(doc: string, raster: Outcome<seq<RasterPage>>, text: string, ghost fallback: bool)
      returns (text': string)
      modifies this
      ensures Progress(Snapshot(), text', fallback)
           == OcrPass(Progress(old(Snapshot()), text, fallback), doc, raster)
    {
      text' := text;
      match raster
      case Fault =>
        LogError(OcrFallbackError, doc, None);
      case Ok(pages) =>
        var k := 0;
        while k < |pages|
          invariant k <= |pages|
          invariant OcrFrom(Progress(Snapshot(), text', fallback), doc, pages, k)
                 == OcrPass(Progress(old(Snapshot()), text, fallback), doc, raster)
        {
          var rp := pages[k];
          var name := RasterName(doc, k);
          if !rp.loads {
            LogError(OcrFallbackError, doc, None);
            return;
          }
          if name !in rasters {
            match rp.render
            case Fault =>
              LogError(OcrFallbackError, doc, None);
              return;
            case Ok(png) =>
              rasters := rasters[name := png];
          }
          var lines := rp.recognition.lines;
          var j := 0;
          ghost var before := text';
          while j < |lines|
            invariant j <= |lines|
            invariant text' == before + RecognizedLines(lines[..j])
          {
            assert lines[..j + 1][..j] == lines[..j];
            text' := text' + lines[j] + "\n";
            j := j + 1;
          }
          assert lines[..j] == lines;
          if rp.recognition.failed {
            LogError(OcrError, doc, Some(k + 1));
          }
          k := k + 1;
        }
    }

    /** One iteration of the document loop. */
    method ProcessDocument(d: Document)
      modifies this
      ensures Snapshot() == DocumentStep(old(Snapshot()), d)
    {
      if TextName(d.name) in texts {
        return;
      }
      var text, fallback := "", false;
      var pages := d.structure.pages;
      ghost var start := Progress(Snapshot(), text, fallback);
      var i := 0;
      while i < |pages|
        invariant i <= |pages|
        invariant PagesFrom(Progress(Snapshot(), text, fallback), d.name, pages, i)
               == PagesFrom(start, d.name, pages, 0)
      {
        text, fallback := ExtractPage(d.name, i, pages[i], text, fallback);
        i := i + 1;
      }
      if d.structure.aborted {
        fallback := true;
        LogError(OpenError, d.name, None);
      }
      if fallback || |Strip(text)| == 0 {
        text := RunOcr(d.name, d.raster, text, fallback);
      }
      if d.saves {
        texts := texts[TextName(d.name) := text];
      } else {
        LogError(SaveTextError, d.name, None);
      }
    }

    /** The batch: every document of `docs`, in order. */
    method Run(docs: seq<Document>)
      modifies this
      ensures Snapshot() == Batch(old(Snapshot()), docs)
      ensures Extends(old(texts), texts) && Extends(old(tables), tables)
      ensures Extends(old(images), images) && Extends(old(rasters), rasters)
      ensures old(log) <= log
    {
      HybridProperties.BatchNeverOverwrites(Snapshot(), docs);
      var k := 0;
      while k < |docs|
        invariant k <= |docs|
        invariant Batch(Snapshot(), docs[k..]) == Batch(old(Snapshot()), docs)
      {
        assert docs[k..][1..] == docs[k + 1..];
        ProcessDocument(docs[k]);
        k := k + 1;
      }
    }
  }
}
