/** What the two pdfplumber scripts have in common: how pdfplumber presents a
    page, the names of the per-page table and image files, the page delimiter
    of the text file, and the write-if-absent loop that saves a page's tables
    or images. */
module Artifacts {
  import opened Common

  datatype Kind = Table | Image

  /** One page as pdfplumber presents it. `tables` is `page.extract_tables()`
      and `images` is `page.images`; each item is the content that would be
      written for it (the CSV of a table, the PNG of an image crop) or a Fault
      when serialising, cropping or saving it raises. `text` is
      `page.extract_text()`, which may return None. */
  datatype PageData = PageData(
    tables: Outcome<seq<Outcome<string>>>,
    images: Outcome<seq<Outcome<string>>>,
    text: Outcome<Option<string>>)

  /** A document opened with pdfplumber: the pages the script got to process,
      and whether an exception then escaped to the handler around
      `pdfplumber.open` (the open itself failing, when `pages` is empty, or
      iterating or closing the document failing later). */
  datatype PdfRead = PdfRead(pages: seq<PageData>, aborted: bool)

  /** `{name}.txt` in the text folder. */
  function TextName(doc: string): (r: string) {
    doc + ".txt"
  }

  /** Distinct documents have distinct text files. */
  lemma TextNameInjective(a: string, b: string)
    ensures TextName(a) == TextName(b) ==> a == b
  {
    if TextName(a) == TextName(b) {
      assert a == TextName(a)[..|a|];
      assert b == TextName(b)[..|b|];
    }
  }

  function Infix(kind: Kind): (r: string) {
    if kind == Table then "_table" else "_img"
  }

  function Extension(kind: Kind): (r: string) {
    if kind == Table then ".csv" else ".png"
  }

  /** `{name}_page{i+1}_table{t+1}.csv` and `{name}_page{i+1}_img{k+1}.png`,
      for the 0-based page `page` and item `index`. */
  function ArtifactName(doc: string, kind: Kind, page: nat, index: nat): (r: string) {
    doc + ("_page" + (Show(page + 1) + (Infix(kind) + (Show(index + 1) + Extension(kind)))))
  }

  /** Within one document and kind, the file name determines the page and the
      item: no two tables (no two images) of a document share a file. */
  lemma ArtifactNameInjective(doc: string, kind: Kind, page: nat, index: nat, page': nat, index': nat)
    requires ArtifactName(doc, kind, page, index) == ArtifactName(doc, kind, page', index')
    ensures page == page' && index == index'
  {
    var tail := Infix(kind) + (Show(index + 1) + Extension(kind));
    var tail' := Infix(kind) + (Show(index' + 1) + Extension(kind));
    CancelPrefix(doc, "_page" + (Show(page + 1) + tail), "_page" + (Show(page' + 1) + tail'));
    CancelPrefix("_page", Show(page + 1) + tail, Show(page' + 1) + tail');
    assert tail[0] == '_' && tail'[0] == '_';
    DigitRunSplit(Show(page + 1), tail, Show(page' + 1), tail');
    ShowInjective(page + 1, page' + 1);
    CancelPrefix(Infix(kind), Show(index + 1) + Extension(kind), Show(index' + 1) + Extension(kind));
    assert Extension(kind)[0] == '.';
    DigitRunSplit(Show(index + 1), Extension(kind), Show(index' + 1), Extension(kind));
    ShowInjective(index + 1, index' + 1);
  }

  /** The delimited fragment a page contributes to the text file:
      `"\n--- Page {i+1} ---\n" + text`. */
  function Fragment(page: nat, text: string): (r: string) {
    "\n--- Page " + Show(page + 1) + " ---\n" + text
  }

  /** A fragment is never blank: its delimiter holds dashes. */
  lemma FragmentNotBlank(page: nat, text: string, before: string, after: string)
    ensures |Strip(before + Fragment(page, text) + after)| > 0
  {
    var s := before + Fragment(page, text) + after;
    assert s[|before| + 1] == '-';
    NonBlankStripsToSomething(s, |before| + 1);
  }

  // ---------------------------------------------------------------------------
  // Saving one page's tables or images

  datatype Saved = Saved(dir: Dir, faulted: bool)

  /** The save loop from item `k` on: an item whose file exists is skipped
      without looking at it; otherwise its content is written, and the first
      such item that raises ends the loop (the exception leaves the loop for
      the page's handler). */
  function SaveFrom(dir: Dir, doc: string, kind: Kind, page: nat, items: seq<Outcome<string>>, k: nat): (r: Saved)
    requires k <= |items|
    decreases |items| - k
  {
    if k == |items| then Saved(dir, false)
    else
      var name := ArtifactName(doc, kind, page, k);
      if name in dir then SaveFrom(dir, doc, kind, page, items, k + 1)
      else match items[k]
        case Fault => Saved(dir, true)
        case Ok(content) => SaveFrom(dir[name := content], doc, kind, page, items, k + 1)
  }

  /** The loop over `enumerate(tables)` or `enumerate(images)` of one page. */
  method SaveArtifacts(dir: Dir, doc: string, kind: Kind, page: nat, items: seq<Outcome<string>>)
    returns (saved: Dir, faulted: bool)
    ensures Saved(saved, faulted) == SaveFrom(dir, doc, kind, page, items, 0)
    ensures Extends(dir, saved)
  {
    saved, faulted := dir, false;
    var k := 0;
    while k < |items|
      invariant k <= |items|
      invariant SaveFrom(saved, doc, kind, page, items, k) == SaveFrom(dir, doc, kind, page, items, 0)
      invariant Extends(dir, saved)
    {
      var name := ArtifactName(doc, kind, page, k);
      if name !in saved {
        match items[k]
        case Fault =>
          faulted := true;
          return;
        case Ok(content) =>
          saved := saved[name := content];
      }
      k := k + 1;
    }
  }

  /** Saving never changes or removes an existing file. */
  lemma {:induction false} SaveFromExtends(dir: Dir, doc: string, kind: Kind, page: nat, items: seq<Outcome<string>>, k: nat)
    requires k <= |items|
    ensures Extends(dir, SaveFrom(dir, doc, kind, page, items, k).dir)
    decreases |items| - k
  {
    if k < |items| {
      var name := ArtifactName(doc, kind, page, k);
      if name in dir {
        SaveFromExtends(dir, doc, kind, page, items, k + 1);
      } else if items[k].Ok? {
        SaveFromExtends(dir[name := items[k].value], doc, kind, page, items, k + 1);
      }
    }
  }

  /** Every file the loop creates is the file of one of its items from `k` on. */
  lemma {:induction false} SaveFromCreatesOwnFiles(dir: Dir, doc: string, kind: Kind, page: nat, items: seq<Outcome<string>>, k: nat)
    requires k <= |items|
    ensures forall p :: p in SaveFrom(dir, doc, kind, page, items, k).dir && p !in dir ==>
              exists j :: k <= j < |items| && p == ArtifactName(doc, kind, page, j)
    decreases |items| - k
  {
    if k < |items| {
      var name := ArtifactName(doc, kind, page, k);
      if name in dir {
        SaveFromCreatesOwnFiles(dir, doc, kind, page, items, k + 1);
      } else if items[k].Ok? {
        SaveFromCreatesOwnFiles(dir[name := items[k].value], doc, kind, page, items, k + 1);
      }
    }
  }

  /** The loop reports a failure only for an item whose file was absent and
      whose writing raised. */
  lemma {:induction false} SaveFromFaultHasCause(dir: Dir, doc: string, kind: Kind, page: nat, items: seq<Outcome<string>>, k: nat)
    requires k <= |items|
    requires SaveFrom(dir, doc, kind, page, items, k).faulted
    ensures exists j :: k <= j < |items| && ArtifactName(doc, kind, page, j) !in dir && items[j].Fault?
    decreases |items| - k
  {
    var name := ArtifactName(doc, kind, page, k);
    if name in dir {
      SaveFromFaultHasCause(dir, doc, kind, page, items, k + 1);
    } else if items[k].Ok? {
      SaveFromFaultHasCause(dir[name := items[k].value], doc, kind, page, items, k + 1);
    }
  }

  /** When the loop runs to the end, every item from `k` on has its file, and
      an item whose file was absent was written with its own content. */
  lemma {:induction false} SaveFromWritesEach(dir: Dir, doc: string, kind: Kind, page: nat, items: seq<Outcome<string>>, k: nat)
    requires k <= |items|
    requires !SaveFrom(dir, doc, kind, page, items, k).faulted
    ensures var saved := SaveFrom(dir, doc, kind, page, items, k).dir;
            forall j :: k <= j < |items| ==>
              var name := ArtifactName(doc, kind, page, j);
              name in saved && (name !in dir ==> items[j].Ok? && saved[name] == items[j].value)
    decreases |items| - k
  {
    if k < |items| {
      var name := ArtifactName(doc, kind, page, k);
      var next := if name in dir then dir else dir[name := items[k].value];
      SaveFromWritesEach(next, doc, kind, page, items, k + 1);
      SaveFromExtends(next, doc, kind, page, items, k + 1);
      forall j | k < j < |items|
        ensures ArtifactName(doc, kind, page, j) != name
      {
        if ArtifactName(doc, kind, page, j) == name {
          ArtifactNameInjective(doc, kind, page, j, page, k);
        }
      }
    }
  }

  /** A page's tables (images) produce an error record exactly when listing
      them raised, or some item whose file was absent could not be written. */
  predicate ArtifactsFail(dir: Dir, doc: string, kind: Kind, page: nat, listing: Outcome<seq<Outcome<string>>>) {
    listing.Fault? ||
    exists j :: 0 <= j < |listing.value| && ArtifactName(doc, kind, page, j) !in dir && listing.value[j].Fault?
  }

  lemma SaveFaultIff(dir: Dir, doc: string, kind: Kind, page: nat, items: seq<Outcome<string>>)
    ensures SaveFrom(dir, doc, kind, page, items, 0).faulted <==> ArtifactsFail(dir, doc, kind, page, Ok(items))
  {
    if SaveFrom(dir, doc, kind, page, items, 0).faulted {
      SaveFromFaultHasCause(dir, doc, kind, page, items, 0);
    } else {
      SaveFromWritesEach(dir, doc, kind, page, items, 0);
    }
  }
}
