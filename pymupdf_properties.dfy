/** What the two passes of the PyMuPDF extractor add up to: where a PDF's
    text goes, what its text file holds afterwards, whether its failure is
    reported, and whether the clean-up pass deletes it. */
module PyMuPdfProperties {
  import opened Common
  import opened PyMuPdfSpec

  // ---------------------------------------------------------------------------
  // Text file names

  /** The replacement swaps four characters for four. */
  lemma {:induction false} ReplacePdfKeepsLength(name: string)
    ensures |ReplacePdf(name)| == |name|
  {
    if |name| >= 4 {
      if name[..4] == ".pdf" {
        ReplacePdfKeepsLength(name[4..]);
      } else {
        ReplacePdfKeepsLength(name[1..]);
      }
    }
  }

  /** No occurrence of `.pdf` can start in `stem` and end in a suffix that
      begins with a dot. */
  lemma NoMatchAcross(stem: string, suffix: string)
    requires 0 < |stem| < 4 <= |stem + suffix| && suffix[0] == '.'
    ensures (stem + suffix)[..4] != ".pdf"
  {
    var name := stem + suffix;
    assert name[..4][|stem|] == '.';
  }

  /** The replacement treats a name split before a dot as two names. */
  lemma {:induction false} ReplaceSplitsAtDot(stem: string, suffix: string)
    requires |suffix| > 0 && suffix[0] == '.'
    ensures ReplacePdf(stem + suffix) == ReplacePdf(stem) + ReplacePdf(suffix)
  {
    var name := stem + suffix;
    if |stem| == 0 {
      assert name == suffix;
    } else if |name| < 4 {
    } else if |stem| < 4 {
      NoMatchAcross(stem, suffix);
      assert name[1..] == stem[1..] + suffix;
      ReplaceSplitsAtDot(stem[1..], suffix);
      assert [stem[0]] + stem[1..] == stem;
    } else if name[..4] == ".pdf" {
      assert stem[..4] == ".pdf";
      assert name[4..] == stem[4..] + suffix;
      ReplaceSplitsAtDot(stem[4..], suffix);
    } else {
      assert stem[..4] == name[..4];
      assert name[1..] == stem[1..] + suffix;
      ReplaceSplitsAtDot(stem[1..], suffix);
    }
  }

  lemma Extensions()
    ensures ReplacePdf(".pdf") == ".txt" && ReplacePdf(".txt") == ".txt"
  {
    var p, t := ".pdf", ".txt";
    assert p[..4] == ".pdf" && p[4..] == [];
    assert t[1] == 't';
    assert t[..4] != ".pdf" && t[1..] == "txt";
  }

  /** The trailing `.pdf` of a name is always one of the occurrences
      replaced. */
  lemma PdfBecomesTxt(stem: string)
    ensures ReplacePdf(stem + ".pdf") == ReplacePdf(stem) + ".txt"
  {
    ReplaceSplitsAtDot(stem, ".pdf");
    Extensions();
  }

  /** A PDF's text file is named like the PDF, ending in `.txt` instead. */
  lemma TextPathOfPdf(name: string)
    requires IsPdf(name)
    ensures var path := ReplacePdf(name);
            |path| == |name| && path[|path| - 4..] == ".txt"
  {
    var stem := name[..|name| - 4];
    assert name == stem + ".pdf";
    PdfBecomesTxt(stem);
    ReplacePdfKeepsLength(stem);
    ReplacePdfKeepsLength(name);
  }

  /** Two different PDFs can share one text file, since every `.pdf` in a
      name is replaced: `{stem}.pdf.pdf` and `{stem}.txt.pdf` both write
      `{stem}.txt.txt`. */
  lemma DistinctPdfsCanShareTextFile(stem: string)
    ensures stem + ".pdf.pdf" != stem + ".txt.pdf"
    ensures ReplacePdf(stem + ".pdf.pdf") == ReplacePdf(stem + ".txt.pdf") == ReplacePdf(stem) + ".txt.txt"
  {
    var p, t := ".pdf", ".txt";
    Extensions();
    ReplaceSplitsAtDot(p, p);
    ReplaceSplitsAtDot(t, p);
    assert p + p == ".pdf.pdf" && t + p == ".txt.pdf" && t + t == ".txt.txt";
    ReplaceSplitsAtDot(stem, p + p);
    ReplaceSplitsAtDot(stem, t + p);
    assert (stem + ".pdf.pdf")[|stem| + 1] == 'p';
    assert (stem + ".txt.pdf")[|stem| + 1] == 't';
  }

  /** No two PDFs of the listing share a text file. */
  predicate DistinctTargets(listing: seq<string>) {
    forall i, j :: 0 <= i < |listing| && 0 <= j < |listing| && i != j && IsPdf(listing[i]) && IsPdf(listing[j])
      ==> ReplacePdf(listing[i]) != ReplacePdf(listing[j])
  }

  /** The PDF `entry` writes to `path`. */
  predicate Targets(entry: string, path: string) {
    IsPdf(entry) && ReplacePdf(entry) == path
  }

  // ---------------------------------------------------------------------------
  // The first pass

  /** The text file at `path`, if there is one. */
  function Entry(texts: Dir, path: string): (r: Option<string>) {
    if path in texts then Some(texts[path]) else None
  }

  /** The text file of a PDF after the first pass, from the one before it:
      a file larger than ten bytes is kept; otherwise the PDF's text
      replaces it, or, when extraction raised, it stays as it was. */
  function Final(before: Option<string>, read: Outcome<seq<string>>): (r: Option<string>) {
    if before.Some? && Utf8Size(before.value) > Threshold then before
    else
      match read
      case Fault => before
      case Ok(pages) => Some(Concat(pages))
  }

  /** A text file that no remaining PDF writes to is left as it is. */
  lemma {:induction false} UntargetedUnchanged(x: Extraction, listing: seq<string>, outcomes: seq<Outcome<seq<string>>>, m: nat, path: string)
    requires |outcomes| == |listing| && m <= |listing|
    requires forall j :: m <= j < |listing| ==> !Targets(listing[j], path)
    ensures Entry(ExtractFrom(x, listing, outcomes, m).texts, path) == Entry(x.texts, path)
    decreases |listing| - m
  {
    if m < |listing| {
      UntargetedUnchanged(ExtractStep(x, listing[m], outcomes[m]), listing, outcomes, m + 1, path);
    }
  }

  /** A text file larger than ten bytes is never rewritten. */
  lemma {:induction false} ExtractedFilesKept(x: Extraction, listing: seq<string>, outcomes: seq<Outcome<seq<string>>>, m: nat, path: string)
    requires |outcomes| == |listing| && m <= |listing|
    requires AlreadyExtracted(x.texts, path)
    ensures Entry(ExtractFrom(x, listing, outcomes, m).texts, path) == Entry(x.texts, path)
    decreases |listing| - m
  {
    if m < |listing| {
      ExtractedFilesKept(ExtractStep(x, listing[m], outcomes[m]), listing, outcomes, m + 1, path);
    }
  }

  /** The text file of the one PDF that writes it ends up as Final says,
      whatever happens to the other entries before and after it. */
  lemma {:induction false} TargetedOnce(x: Extraction, listing: seq<string>, outcomes: seq<Outcome<seq<string>>>, m: nat, k: nat)
    requires |outcomes| == |listing| && m <= k < |listing| && IsPdf(listing[k])
    requires forall j :: m <= j < |listing| && j != k ==> !Targets(listing[j], ReplacePdf(listing[k]))
    ensures Entry(ExtractFrom(x, listing, outcomes, m).texts, ReplacePdf(listing[k]))
         == Final(Entry(x.texts, ReplacePdf(listing[k])), outcomes[k])
    decreases |listing| - m
  {
    var x' := ExtractStep(x, listing[m], outcomes[m]);
    if m < k {
      TargetedOnce(x', listing, outcomes, m + 1, k);
    } else {
      UntargetedUnchanged(x', listing, outcomes, m + 1, ReplacePdf(listing[k]));
    }
  }

  /** When no two PDFs share a text file, each PDF's text file after the
      first pass is Final of its text file before: an error on one PDF
      affects no other. */
  lemma ExtractedText(texts: Dir, listing: seq<string>, outcomes: seq<Outcome<seq<string>>>, k: nat)
    requires |outcomes| == |listing| && k < |listing| && IsPdf(listing[k]) && DistinctTargets(listing)
    ensures Entry(ExtractFrom(Extraction(texts, []), listing, outcomes, 0).texts, ReplacePdf(listing[k]))
         == Final(Entry(texts, ReplacePdf(listing[k])), outcomes[k])
  {
    TargetedOnce(Extraction(texts, []), listing, outcomes, 0, k);
  }

  /** Steps after entry `k` do not report it again. */
  lemma {:induction false} LaterStepsDoNotReport(x: Extraction, listing: seq<string>, outcomes: seq<Outcome<seq<string>>>, m: nat, k: nat)
    requires |outcomes| == |listing| && k < m <= |listing| && Distinct(listing)
    ensures listing[k] in ExtractFrom(x, listing, outcomes, m).failed <==> listing[k] in x.failed
    decreases |listing| - m
  {
    if m < |listing| {
      LaterStepsDoNotReport(ExtractStep(x, listing[m], outcomes[m]), listing, outcomes, m + 1, k);
    }
  }

  /** From entry `m` on, PDF `k` ends up reported exactly when it already
      was, or it is not skipped (judged on the text folder at `m`) and its
      extraction raises; this needs that no entry from `m` up to `k` writes
      the text file of PDF `k`. */
  lemma {:induction false} ReportedFrom(x: Extraction, listing: seq<string>, outcomes: seq<Outcome<seq<string>>>, m: nat, k: nat)
    requires |outcomes| == |listing| && m <= k < |listing| && Distinct(listing)
    requires IsPdf(listing[k]) ==> forall j :: m <= j < k ==> !Targets(listing[j], ReplacePdf(listing[k]))
    ensures listing[k] in ExtractFrom(x, listing, outcomes, m).failed
            <==> listing[k] in x.failed
                 || (IsPdf(listing[k]) && !AlreadyExtracted(x.texts, ReplacePdf(listing[k])) && outcomes[k].Fault?)
    decreases |listing| - m
  {
    var x' := ExtractStep(x, listing[m], outcomes[m]);
    if m < k {
      assert IsPdf(listing[k]) ==> Entry(x'.texts, ReplacePdf(listing[k])) == Entry(x.texts, ReplacePdf(listing[k]));
      ReportedFrom(x', listing, outcomes, m + 1, k);
    } else {
      LaterStepsDoNotReport(x', listing, outcomes, m + 1, k);
    }
  }

  /** A PDF is reported as failed exactly when it was not skipped and its
      extraction raised. */
  lemma Reported(texts: Dir, listing: seq<string>, outcomes: seq<Outcome<seq<string>>>, k: nat)
    requires |outcomes| == |listing| && k < |listing| && Distinct(listing) && DistinctTargets(listing)
    ensures listing[k] in ExtractFrom(Extraction(texts, []), listing, outcomes, 0).failed
            <==> IsPdf(listing[k]) && !AlreadyExtracted(texts, ReplacePdf(listing[k])) && outcomes[k].Fault?
  {
    ReportedFrom(Extraction(texts, []), listing, outcomes, 0, k);
  }

  // ---------------------------------------------------------------------------
  // Both passes

  /** A text file's size in bytes is at least its number of characters. */
  lemma {:induction false} Utf8SizeAtLeastLength(s: string)
    ensures Utf8Size(s) >= |s|
  {
    if |s| > 0 {
      Utf8SizeAtLeastLength(s[1..]);
    }
  }

  /** A PDF survives the script exactly when its text file after the first
      pass exists and is at least ten bytes long. */
  lemma PdfFate(pdfs: set<string>, texts: Dir, listing: seq<string>, outcomes: seq<Outcome<seq<string>>>, k: nat)
    requires Enumerates(listing, pdfs) && |outcomes| == |listing| && DistinctTargets(listing)
    requires k < |listing| && IsPdf(listing[k])
    ensures var after := ExtractFrom(Extraction(texts, []), listing, outcomes, 0).texts;
            var final := Final(Entry(texts, ReplacePdf(listing[k])), outcomes[k]);
            listing[k] in pdfs - Stale(pdfs, after) <==> final.Some? && Utf8Size(final.value) >= Threshold
  {
    ExtractedText(texts, listing, outcomes, k);
  }

  /** A text file of exactly ten bytes falls between the two bounds: the
      first pass extracts the PDF again, and when that raises, the failure
      is reported and the clean-up pass keeps the PDF. */
  lemma TenBytesRetriedAndKept(pdfs: set<string>, texts: Dir, listing: seq<string>, outcomes: seq<Outcome<seq<string>>>, k: nat)
    requires Enumerates(listing, pdfs) && |outcomes| == |listing| && DistinctTargets(listing)
    requires k < |listing| && IsPdf(listing[k])
    requires ReplacePdf(listing[k]) in texts && Utf8Size(texts[ReplacePdf(listing[k])]) == Threshold
    requires outcomes[k].Fault?
    ensures var r := ExtractFrom(Extraction(texts, []), listing, outcomes, 0);
            listing[k] in r.failed && listing[k] in pdfs - Stale(pdfs, r.texts)
  {
    Reported(texts, listing, outcomes, k);
    PdfFate(pdfs, texts, listing, outcomes, k);
  }

  /** A PDF whose extracted text has at least ten characters is kept. */
  lemma LongTextKeepsPdf(pdfs: set<string>, texts: Dir, listing: seq<string>, outcomes: seq<Outcome<seq<string>>>, k: nat)
    requires Enumerates(listing, pdfs) && |outcomes| == |listing| && DistinctTargets(listing)
    requires k < |listing| && IsPdf(listing[k]) && outcomes[k].Ok? && |Concat(outcomes[k].value)| >= Threshold
    ensures listing[k] in pdfs - Stale(pdfs, ExtractFrom(Extraction(texts, []), listing, outcomes, 0).texts)
  {
    PdfFate(pdfs, texts, listing, outcomes, k);
    Utf8SizeAtLeastLength(Concat(outcomes[k].value));
  }
}
