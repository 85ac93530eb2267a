/** The PyMuPDF extractor as the script runs it: the PDF folder and the
    text folder are fields that its two loops update. */
module PyMuPdf {
  import opened Common
  import opened PyMuPdfSpec

  class Folders {
    var pdfs: set<string>
    var texts: Dir

    constructor (pdfs: set<string>, texts: Dir)
      ensures this.pdfs == pdfs && this.texts == texts
    {
      this.pdfs, this.texts := pdfs, texts;
    }

    /** `text += page.get_text()` over the pages of one document. */
    static method PageTexts(pages: seq<string>) returns (text: string)
      ensures text == Concat(pages)
    {
      text := "";
      var j := 0;
      while j < |pages|
        invariant j <= |pages|
        invariant text == Concat(pages[..j])
      {
        assert pages[..j + 1][..j] == pages[..j];
        text := text + pages[j];
        j := j + 1;
      }
      assert pages[..|pages|] == pages;
    }

    /** The first pass; `failed` holds the entries whose extraction raised,
        in the order they were reported. */
    method ExtractAll(listing: seq<string>, outcomes: seq<Outcome<seq<string>>>) returns (failed: seq<string>)
      requires |outcomes| == |listing|
      modifies this
      ensures pdfs == old(pdfs)
      ensures Extraction(texts, failed) == ExtractFrom(Extraction(old(texts), []), listing, outcomes, 0)
    {
      failed := [];
      var k := 0;
      while k < |listing|
        invariant k <= |listing| && pdfs == old(pdfs)
        invariant ExtractFrom(Extraction(texts, failed), listing, outcomes, k)
               == ExtractFrom(Extraction(old(texts), []), listing, outcomes, 0)
      {
        var entry := listing[k];
        if IsPdf(entry) {
          var path := ReplacePdf(entry);
          if !(path in texts && Utf8Size(texts[path]) > Threshold) {
            match outcomes[k]
            case Fault =>
              failed := failed + [entry];
            case Ok(pages) =>
              var text := PageTexts(pages);
              texts := texts[path := text];
          }
        }
        k := k + 1;
      }
    }

    /** The clean-up pass over a fresh listing of the PDF folder. */
    method CleanUp(listing: seq<string>)
      requires Enumerates(listing, pdfs)
      modifies this
      ensures texts == old(texts)
      ensures pdfs == old(pdfs) - Stale(old(pdfs), texts)
    {
      var k := 0;
      while k < |listing|
        invariant k <= |listing| && texts == old(texts)
        invariant forall e :: e in pdfs <==>
                    e in old(pdfs) && !(e in listing[..k] && IsPdf(e) && Removable(texts, ReplacePdf(e)))
      {
        var entry := listing[k];
        assert listing[..k + 1] == listing[..k] + [entry];
        if IsPdf(entry) {
          var path := ReplacePdf(entry);
          if !(path in texts) || Utf8Size(texts[path]) < Threshold {
            assert entry !in listing[..k];
            assert entry in pdfs;
            pdfs := pdfs - {entry};
          }
        }
        k := k + 1;
      }
      assert listing[..k] == listing;
    }

    /** The whole script: the first pass over one listing of the folder,
        then the clean-up pass over another. */
    method Run(listing: seq<string>, outcomes: seq<Outcome<seq<string>>>, relisting: seq<string>) returns (failed: seq<string>)
      requires Enumerates(listing, pdfs) && |outcomes| == |listing| && Enumerates(relisting, pdfs)
      modifies this
      ensures Extraction(texts, failed) == ExtractFrom(Extraction(old(texts), []), listing, outcomes, 0)
      ensures pdfs == old(pdfs) - Stale(old(pdfs), texts)
    {
      failed := ExtractAll(listing, outcomes);
      CleanUp(relisting);
    }
  }
}
