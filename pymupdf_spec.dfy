/** The PyMuPDF extractor: a pass that writes `{stem}.txt` for every PDF
    whose text file is missing or at most ten bytes long, then a clean-up
    pass that deletes every PDF whose text file is missing or shorter than
    ten bytes. */
module PyMuPdfSpec {
  import opened Common

  /** Size bound of both passes, in bytes. */
  const Threshold := 10

  /** The name ends in `.pdf`; other entries of the folder are ignored. */
  predicate IsPdf(name: string) {
    |name| >= 4 && name[|name| - 4..] == ".pdf"
  }

  /** `name.replace(".pdf", ".txt")`: every occurrence, scanning left to
      right, without overlaps. */
  function ReplacePdf(name: string): (r: string) {
    if |name| < 4 then name
    else if name[..4] == ".pdf" then ".txt" + ReplacePdf(name[4..])
    else [name[0]] + ReplacePdf(name[1..])
  }

  /** Bytes of one character in UTF-8. */
  function Width(c: char): (r: nat) {
    if c as int < 0x80 then 1
    else if c as int < 0x800 then 2
    else if c as int < 0x1_0000 then 3
    else 4
  }

  /** `os.path.getsize` of a file written with UTF-8 encoding. */
  function Utf8Size(s: string): (r: nat) {
    if |s| == 0 then 0 else Width(s[0]) + Utf8Size(s[1..])
  }

  /** The first pass skips the entry: its text file exists and is larger
      than ten bytes. */
  predicate AlreadyExtracted(texts: Dir, path: string) {
    path in texts && Utf8Size(texts[path]) > Threshold
  }

  /** The clean-up pass deletes the entry: its text file is missing or
      smaller than ten bytes. */
  predicate Removable(texts: Dir, path: string) {
    path !in texts || Utf8Size(texts[path]) < Threshold
  }

  /** The texts of the pages, one after the other, with no separator. */
  function Concat(pages: seq<string>): (r: string) {
    if |pages| == 0 then "" else Concat(pages[..|pages| - 1]) + pages[|pages| - 1]
  }

  /** The text folder and the names of the entries reported as failed. */
  datatype Extraction = Extraction(texts: Dir, failed: seq<string>)

  /** One iteration of the first pass. `read` is what opening the PDF and
      reading its pages gives: the page texts, or an exception, which is
      reported and leaves the text folder as it was. */
  function ExtractStep(x: Extraction, entry: string, read: Outcome<seq<string>>): (r: Extraction) {
    if !IsPdf(entry) || AlreadyExtracted(x.texts, ReplacePdf(entry)) then x
    else
      match read
      case Fault => x.(failed := x.failed + [entry])
      case Ok(pages) => x.(texts := x.texts[ReplacePdf(entry) := Concat(pages)])
  }

  /** The first pass from entry `k` of the listing on. */
  function ExtractFrom(x: Extraction, listing: seq<string>, outcomes: seq<Outcome<seq<string>>>, k: nat): (r: Extraction)
    requires |outcomes| == |listing| && k <= |listing|
    decreases |listing| - k
  {
    if k == |listing| then x
    else ExtractFrom(ExtractStep(x, listing[k], outcomes[k]), listing, outcomes, k + 1)
  }

  /** The PDFs of the folder that the clean-up pass deletes. */
  function Stale(pdfs: set<string>, texts: Dir): (r: set<string>) {
    set e | e in pdfs && IsPdf(e) && Removable(texts, ReplacePdf(e))
  }

  predicate Distinct(listing: seq<string>) {
    forall i, j :: 0 <= i < j < |listing| ==> listing[i] != listing[j]
  }

  /** `os.listdir`: every entry of the folder exactly once. */
  ghost predicate Enumerates(listing: seq<string>, entries: set<string>) {
    (forall e :: e in listing <==> e in entries) && Distinct(listing)
  }
}
