# PDF text extraction stage, modelled in Dafny

This project models the text-extraction step of a corpus pipeline for
scraped arXiv PDFs. Each script walks a folder of PDFs and writes one text
file per document. Two of them also write per-page table (CSV) and image
(PNG) files. Three scripts are modelled, each as an imperative `class` whose
fields are the folders (and error log) that the script changes. Every method
is proved to have exactly the effect of a step function. Lemmas about those
step functions state what the scripts promise.

- **Hybrid extractor** (`scripts/step2_pdfplumber_with_paddle_gpu.py`):
  - pdfplumber extracts tables, images and page text.
  - A page whose text is missing, fails, or strips to at most ten characters sets a sticky `ocr_fallback` flag.
  - When that flag is set, or the text is blank, PyMuPDF renders each page whose 300-dpi PNG is absent, reusing existing ones, until a page fails to load or render, and PaddleOCR recognises each page it reached. The recognised lines are appended.
  - Errors go to an append-only log with tags `[Table Error]`, `[Image Error]`, `[Text Error]`, `[Open Error]`, `[OCR Error]`, `[OCR Fallback Error]` and `[Save Text Error]`.
- **Plain pdfplumber extractor** (`scripts/step2_text_extraction_pdfplumber.py`):
  - The same table, image and text blocks, with no threshold and no OCR.
  - A document that fails while open gets no text file.
  - The log file is emptied at the start of every run.
- **PyMuPDF extractor** (`scripts/step2_text_extraction_PyMuPDF.py`):
  - It writes the concatenated page texts of every `.pdf` entry whose text file is missing or at most ten bytes.
  - It then deletes every PDF whose text file is missing or smaller than ten bytes.

Modules:

- `Common`: the `Option`/`Outcome` wrappers and a folder as a map from file name to contents (`Dir`). It also holds decimal rendering of page numbers (`Show`, with the round trip `Value(Show(n)) == n`) and Python's `str.isspace`/`str.strip`.
- `Artifacts`: page data as the PDF library returns it, file names, the page delimiter, and the write-if-absent loop over the tables (images) of a page. Both pdfplumber scripts use it.
- `HybridSpec`, `Hybrid`, `HybridProperties`: the hybrid extractor's step functions, its class, and the lemmas about it.
- `PlumberSpec`, `Plumber`, `PlumberProperties`: the same for the plain pdfplumber extractor.
- `PyMuPdfSpec`, `PyMuPdf`, `PyMuPdfProperties`: the same for the PyMuPDF extractor.

The engines (pdfplumber, PyMuPDF, PaddleOCR, pandas, PIL) are not modelled. What they return for a given document is an input value: `Outcome.Fault` means the call raised an exception.

## Model

| member | source | states |
|---|---|---|
| Common.ValueOfShow | scripts/step2_pdfplumber_with_paddle_gpu.py:52 | reading back the decimal page or item number in a file name gives the number, so names of different pages or items differ |
| Common.StripIsTrimmedSlice | scripts/step2_pdfplumber_with_paddle_gpu.py:71 | `text.strip()` is the slice of the text left after removing leading and trailing whitespace; it is empty exactly when the text is all whitespace, and otherwise starts and ends with non-whitespace |
| Artifacts.TextNameInjective | scripts/step2_text_extraction_pdfplumber.py:25 | different documents have different `{name}.txt` files |
| Artifacts.ArtifactNameInjective | scripts/step2_pdfplumber_with_paddle_gpu.py:52 | `{name}_page{i+1}_table{k+1}.csv` (`_img…png`) names differ for different pages or items |
| Artifacts.FragmentNotBlank | scripts/step2_pdfplumber_with_paddle_gpu.py:72 | text holding a `--- Page n ---` delimiter never strips to empty |
| Artifacts.SaveArtifacts | scripts/step2_pdfplumber_with_paddle_gpu.py:49-56 | the table (image) loop of one page equals the write-if-absent step function, ends at the first failing write, and only adds files |
| Artifacts.SaveFromExtends | scripts/step2_pdfplumber_with_paddle_gpu.py:53-54 | the loop never changes or removes an existing file |
| Artifacts.SaveFromCreatesOwnFiles | scripts/step2_pdfplumber_with_paddle_gpu.py:52-54 | every file the loop creates is named after one of this page's items |
| Artifacts.SaveFromWritesEach | scripts/step2_pdfplumber_with_paddle_gpu.py:51-54 | when no write fails, every item has its file afterwards, and an absent one holds that item's content |
| Artifacts.SaveFaultIff | scripts/step2_pdfplumber_with_paddle_gpu.py:49-56 | the block logs exactly when the listing raised, or an item whose file was absent failed to be written |
| Hybrid.Extractor.LogError | scripts/step2_pdfplumber_with_paddle_gpu.py:28-31 | a log call appends one record and changes no folder |
| Hybrid.Extractor.SaveKind | scripts/step2_pdfplumber_with_paddle_gpu.py:49-67 | the table or image block of a page has exactly the effect of its step function |
| Hybrid.Extractor.ExtractPage | scripts/step2_pdfplumber_with_paddle_gpu.py:47-77 | one page iteration (tables, then images, then text) updates folders, log, `all_text` and `ocr_fallback` as PageStep does |
| Hybrid.Extractor.RunOcr | scripts/step2_pdfplumber_with_paddle_gpu.py:84-98 | the OCR block appends each recognised line followed by a newline, and has exactly the effect of OcrPass |
| Hybrid.Extractor.ProcessDocument | scripts/step2_pdfplumber_with_paddle_gpu.py:35-106 | one document iteration has exactly the effect of DocumentStep |
| Hybrid.Extractor.Run | scripts/step2_pdfplumber_with_paddle_gpu.py:34-106 | the batch equals Batch over the documents in order, never changes or removes an existing file, and only appends to the log |
| HybridProperties.OcrStop | scripts/step2_pdfplumber_with_paddle_gpu.py:86-90 | the OCR pass stops at the first page that cannot be loaded or whose missing raster cannot be rendered, or else runs through every page |
| HybridProperties.ArtifactStepEffects | scripts/step2_pdfplumber_with_paddle_gpu.py:49-67 | a table (image) block changes only its own folder, adds only files of this page, and logs one tagged record exactly when it failed |
| HybridProperties.PageStepFiles | scripts/step2_pdfplumber_with_paddle_gpu.py:47-77 | a page changes no existing file, no text file and no raster |
| HybridProperties.PageStepLog | scripts/step2_pdfplumber_with_paddle_gpu.py:47-77 | a page logs at most one `[Table Error]`, then one `[Image Error]`, then one `[Text Error]`; a failure in one block does not stop the next |
| HybridProperties.PageStepAppends | scripts/step2_pdfplumber_with_paddle_gpu.py:47-77 | a page only appends to the log |
| HybridProperties.PagesFromText | scripts/step2_pdfplumber_with_paddle_gpu.py:69-72 | the page loop appends `\n--- Page n ---\n` plus the text of every page whose text strips to more than ten characters, in page order |
| HybridProperties.PagesFromFlag | scripts/step2_pdfplumber_with_paddle_gpu.py:73-76 | `ocr_fallback` is sticky: after the loop it is set iff it was set before or some page's text was missing, failed or too short |
| HybridProperties.PagesFromFiles | scripts/step2_pdfplumber_with_paddle_gpu.py:47-77 | the page loop only adds table and image files of this document and only appends to the log |
| HybridProperties.StructuredTextNotBlank | scripts/step2_pdfplumber_with_paddle_gpu.py:72-83 | once the first page has contributed, the collected text holds a page delimiter and so is not blank, and the `strip()` test alone does not call OCR |
| HybridProperties.StructuredPassDecides | scripts/step2_pdfplumber_with_paddle_gpu.py:45-83 | after the pdfplumber pass the flag is set iff the open failed or some page was insufficient, and OCR runs iff that holds or the document had no pages; the log is the page loop's, followed by one `[Open Error]` exactly when the pass was aborted |
| HybridProperties.OcrStopIgnoresEarlierRaster | scripts/step2_pdfplumber_with_paddle_gpu.py:88-90 | writing the raster of one page does not change whether a later page stops the pass |
| HybridProperties.OcrStopAfterVisit | scripts/step2_pdfplumber_with_paddle_gpu.py:86-90 | visiting a page that does not stop the pass leaves the stopping page of the rest unchanged |
| HybridProperties.OcrFromText | scripts/step2_pdfplumber_with_paddle_gpu.py:86-94 | the OCR loop appends the recognised lines of every page before the stopping page, each with a newline and no page delimiter, and leaves the flag alone |
| HybridProperties.OcrFromLog | scripts/step2_pdfplumber_with_paddle_gpu.py:91-98 | the OCR loop logs one `[OCR Error]` per visited page whose recognition raised and goes on; a stopping page adds one `[OCR Fallback Error]` |
| HybridProperties.OcrFromFiles | scripts/step2_pdfplumber_with_paddle_gpu.py:88-90 | every visited page has its raster afterwards; an existing raster is never re-rendered; no other folder changes |
| HybridProperties.OcrFromNewRasters | scripts/step2_pdfplumber_with_paddle_gpu.py:86-90 | the only rasters the OCR loop creates are those of the pages it visits before the one that stops it |
| HybridProperties.OcrPassEffects | scripts/step2_pdfplumber_with_paddle_gpu.py:84-98 | the OCR block appends OcrText (nothing when PyMuPDF cannot open the file) and only adds rasters of this document; it logs exactly OcrLog: one `[OCR Fallback Error]` when the file cannot be opened, otherwise one `[OCR Error]` per failed recognition before the stopping page and one `[OCR Fallback Error]` if a page stopped the pass |
| HybridProperties.BeforeSaveText | scripts/step2_pdfplumber_with_paddle_gpu.py:42-98 | the text reaching the save is ExpectedText: the fragments of the sufficient pages, then the recognised text when the flag is set or no page was read |
| HybridProperties.BeforeSaveEffects | scripts/step2_pdfplumber_with_paddle_gpu.py:42-98 | before the save no text file is written, no existing file changes, the log only grows, and every new table, image or raster file is this document's |
| HybridProperties.DocumentFiles | scripts/step2_pdfplumber_with_paddle_gpu.py:35-106 | a document whose text file exists is skipped with no effect at all; otherwise nothing existing changes and every new file belongs to this document |
| HybridProperties.DocumentText | scripts/step2_pdfplumber_with_paddle_gpu.py:100-104 | the text file is always written, even empty, and holds exactly ExpectedText; when the write fails no file appears and the last record is `[Save Text Error]` |
| HybridProperties.BatchNeverOverwrites | scripts/step2_pdfplumber_with_paddle_gpu.py:34-106 | a batch never changes or removes an existing text, table, image or raster file and only appends to the log |
| HybridProperties.BatchLeavesTextOrRecord | scripts/step2_pdfplumber_with_paddle_gpu.py:100-104 | after a batch each document has its text file, or its write failed and the log holds its `[Save Text Error]` |
| HybridProperties.BatchSkipsFinished | scripts/step2_pdfplumber_with_paddle_gpu.py:38-40 | a batch whose documents all have text files changes nothing |
| HybridProperties.RerunChangesNothing | scripts/step2_pdfplumber_with_paddle_gpu.py:34-106 | after a run in which every text file could be written, re-running the same documents does nothing: no extraction, rendering, write or log record |
| HybridSpec.RasterNameInjective | scripts/step2_pdfplumber_with_paddle_gpu.py:88 | `{name}_page{n}.png` names differ for different pages |
| Plumber.Extractor.Write | scripts/step2_text_extraction_pdfplumber.py:48-75 | a log write (the `(table)`, `(image)`, `(text)` and `(open)` lines) appends one line and changes no folder |
| Plumber.Extractor.SaveKind | scripts/step2_text_extraction_pdfplumber.py:35-65 | the table or image block of a page has exactly the effect of its step function |
| Plumber.Extractor.ExtractPage | scripts/step2_text_extraction_pdfplumber.py:34-73 | one page iteration updates folders, log and `all_text` as PageStep does |
| Plumber.Extractor.ProcessDocument | scripts/step2_text_extraction_pdfplumber.py:22-80 | one document iteration has exactly the effect of DocumentStep |
| Plumber.Extractor.Run | scripts/step2_text_extraction_pdfplumber.py:20-80 | a run empties the log, then runs the batch; it never changes or removes an existing file, and every log line names one of this run's documents |
| PlumberProperties.ArtifactStepEffects | scripts/step2_text_extraction_pdfplumber.py:35-65 | a table (image) block changes only its own folder, adds only files of this page, and logs one `(table)`/`(image)` line exactly when it failed |
| PlumberProperties.PageStepFiles | scripts/step2_text_extraction_pdfplumber.py:34-65 | a page changes no text file and no existing file, and creates only its own table and image files |
| PlumberProperties.PageStepLog | scripts/step2_text_extraction_pdfplumber.py:34-73 | a page logs at most one `(table)`, then one `(image)`, then one `(text)` line; a failure in one block does not stop the next |
| PlumberProperties.PageStepRecords | scripts/step2_text_extraction_pdfplumber.py:47-73 | a page only appends to the log, and only lines that name its document |
| PlumberProperties.PagesFromText | scripts/step2_text_extraction_pdfplumber.py:67-73 | the page loop appends `\n--- Page n ---\n` plus the text of every page with non-empty text, whitespace included, in page order |
| PlumberProperties.PagesFromFiles | scripts/step2_text_extraction_pdfplumber.py:33-76 | the page loop only adds table and image files of this document, and every line it logs names the document |
| PlumberProperties.DocumentFiles | scripts/step2_text_extraction_pdfplumber.py:25-80 | a document whose text file exists is skipped with no effect; otherwise nothing existing changes and every new file and log line belongs to this document |
| PlumberProperties.DocumentText | scripts/step2_text_extraction_pdfplumber.py:74-80 | an opened document's text file holds exactly its fragments, even when empty; one that fails while open gets no text file and its last log line is `(open)` |
| PlumberProperties.BatchNeverOverwrites | scripts/step2_text_extraction_pdfplumber.py:21-80 | a batch never changes or removes an existing file, and every line it appends names one of its documents |
| PlumberProperties.BatchLeavesTextOrRecord | scripts/step2_text_extraction_pdfplumber.py:74-80 | after a batch each document has its text file, or it failed while open and the log holds its `(open)` line |
| PlumberProperties.OpenFailureIsRetried | scripts/step2_text_extraction_pdfplumber.py:74-77 | a document that fails while open gets no text file, so the next run tries it again |
| PlumberProperties.RunLogIsFresh | scripts/step2_text_extraction_pdfplumber.py:20 | after a run the log holds only that run's lines |
| PlumberProperties.ShortTextOnlyHere | scripts/step2_text_extraction_pdfplumber.py:70-71 | text that is non-empty but only whitespace, or at most ten characters, is appended here, while the hybrid extractor treats it as insufficient |
| PyMuPdf.Folders.PageTexts | scripts/step2_text_extraction_PyMuPDF.py:18-20 | the page loop yields the page texts concatenated with no separator |
| PyMuPdf.Folders.ExtractAll | scripts/step2_text_extraction_PyMuPDF.py:8-25 | the first pass equals ExtractFrom over the listing, reports each failure and goes on, and leaves the PDF folder alone |
| PyMuPdf.Folders.CleanUp | scripts/step2_text_extraction_PyMuPDF.py:27-34 | the clean-up pass deletes exactly the `.pdf` entries whose text file is missing or smaller than ten bytes, whatever the listing order |
| PyMuPdf.Folders.Run | scripts/step2_text_extraction_PyMuPDF.py:8-34 | the script is the first pass followed by the clean-up pass over the text folder the first pass left |
| PyMuPdfProperties.ReplacePdfKeepsLength | scripts/step2_text_extraction_PyMuPDF.py:12 | replacing `.pdf` by `.txt` keeps the name's length |
| PyMuPdfProperties.ReplaceSplitsAtDot | scripts/step2_text_extraction_PyMuPDF.py:12 | no replaced occurrence straddles a point before a dot, so the replacement can be done piecewise there |
| PyMuPdfProperties.PdfBecomesTxt | scripts/step2_text_extraction_PyMuPDF.py:9-12 | the trailing `.pdf` of a PDF's name always becomes `.txt` |
| PyMuPdfProperties.TextPathOfPdf | scripts/step2_text_extraction_PyMuPDF.py:9-12 | a PDF's text file has a name of the same length ending in `.txt` |
| PyMuPdfProperties.DistinctPdfsCanShareTextFile | scripts/step2_text_extraction_PyMuPDF.py:12 | `{stem}.pdf.pdf` and `{stem}.txt.pdf` are different PDFs that write the same text file, because every `.pdf` is replaced |
| PyMuPdfProperties.UntargetedUnchanged | scripts/step2_text_extraction_PyMuPDF.py:8-25 | a text file that no listed PDF writes to is left as it is |
| PyMuPdfProperties.ExtractedFilesKept | scripts/step2_text_extraction_PyMuPDF.py:13-15 | a text file larger than ten bytes is never rewritten |
| PyMuPdfProperties.TargetedOnce | scripts/step2_text_extraction_PyMuPDF.py:8-25 | the text file of the one PDF that writes it ends as Final says, whatever the other entries do |
| PyMuPdfProperties.ExtractedText | scripts/step2_text_extraction_PyMuPDF.py:13-25 | with no shared text files, a PDF's text file afterwards is: kept if over ten bytes; else its page texts; else, when extraction raised, unchanged; an error on one file does not affect the others |
| PyMuPdfProperties.LaterStepsDoNotReport | scripts/step2_text_extraction_PyMuPDF.py:24-25 | entries after a PDF do not report it |
| PyMuPdfProperties.ReportedFrom | scripts/step2_text_extraction_PyMuPDF.py:13-25 | from any point of the pass, when no entry between that point and the PDF writes the same text file, a PDF is reported iff it already was, or it is reached, not skipped (judged on the text folder at that point), and raises |
| PyMuPdfProperties.Reported | scripts/step2_text_extraction_PyMuPDF.py:13-25 | when no two listed PDFs share a text file, a PDF is reported as failed exactly when it was not skipped and its extraction raised |
| PyMuPdfProperties.Utf8SizeAtLeastLength | scripts/step2_text_extraction_PyMuPDF.py:13 | a UTF-8 file's size in bytes is at least its number of characters |
| PyMuPdfProperties.PdfFate | scripts/step2_text_extraction_PyMuPDF.py:8-34 | when no two listed PDFs share a text file, a PDF survives the script exactly when its text file after the first pass exists and has at least ten bytes |
| PyMuPdfProperties.TenBytesRetriedAndKept | scripts/step2_text_extraction_PyMuPDF.py:13-33 | when no two listed PDFs share a text file, an existing text file of exactly ten bytes is extracted again; when that raises, the failure is reported and the PDF is kept |
| PyMuPdfProperties.LongTextKeepsPdf | scripts/step2_text_extraction_PyMuPDF.py:18-33 | when no two listed PDFs share a text file, a PDF whose extracted text has at least ten characters is kept |

## Behaviour worth noting

- Skipping finished documents:
  - The hybrid extractor skips a document whose text file exists, even an empty one (`step2_pdfplumber_with_paddle_gpu.py:38`).
  - The plain variant also skips on existence alone.
  - The PyMuPDF variant skips only when the file is over ten bytes.
- The OCR fallback recognises every page again, including pages whose text was already appended (`step2_pdfplumber_with_paddle_gpu.py:86-94`). So a page's text can appear twice.
- The recognised lines are appended, each followed by a newline, with no `--- Page n ---` delimiter.
- A page that cannot be loaded, or whose raster cannot be rendered, ends the whole OCR pass with one `[OCR Fallback Error]`. Only a failed recognition is isolated to its page.
- A table or image failure does not set `ocr_fallback`.
- The plain pdfplumber variant opens its log in "w" mode (`step2_text_extraction_pdfplumber.py:20`), so each run empties the log of the previous one.
- In the PyMuPDF variant, two PDFs can write the same text file (`{stem}.pdf.pdf` and `{stem}.txt.pdf` both write `{stem}.txt.txt`), and the later one then sees the earlier one's file.

## Left out

- Engines:
  - pdfplumber, PyMuPDF, PaddleOCR, pandas and PIL are not modelled; what they return for each document is an input.
  - Recognition results are modelled as their line texts only; the confidence score beside each line is never used by the script.
  - How documents are found is not modelled. `glob` and `os.listdir` give the documents and entries as input sequences, in the order they are visited.
- Error records:
  - They carry the tag, the document and the page, but not the timestamp, the `repr(e)` text or the traceback.
  - The PyMuPDF script prints its errors, and they are returned as a list of entry names.
- `print` and `tqdm` progress output are not modelled.
- Folders:
  - Each output folder is a separate map from file name to contents.
  - The configured absolute paths and `os.makedirs` are not modelled.
  - Rasters are not read back: OCR outcomes are inputs per page.
- Saves:
  - A write that fails halfway, leaving a partial file, is not modelled. A failed save of a table, image, raster or text file creates no file.
  - In the plain pdfplumber variant, a failed text save is not caught and would end the run. The model assumes that write succeeds.
  - In the PyMuPDF variant, an exception raised after the text file was opened but before the text was written is modelled as leaving the folder unchanged.
- Sizes:
  - Text file sizes in the PyMuPDF variant are UTF-8 byte counts, with POSIX newlines.
  - Windows newline translation is not modelled, so the `\n` → `\r\n` growth of a file's size is not captured.
- Concurrency is not modelled: the scripts are sequential.
- The scraping script and the GROBID extraction script are not part of this model.
- PyMuPdfProperties.ExtractedText: states the per-PDF outcome only when no two listed PDFs share a text file. With a shared file (see DistinctPdfsCanShareTextFile) the later PDF sees the earlier one's file. That case is covered by the step function and by ExtractedFilesKept, but not by a per-PDF formula.
- PyMuPdfProperties.ReportedFrom, PyMuPdfProperties.Reported, PyMuPdfProperties.PdfFate, PyMuPdfProperties.TenBytesRetriedAndKept, PyMuPdfProperties.LongTextKeepsPdf: hold under the same condition that no two listed PDFs share a text file (ReportedFrom only needs this for the entries between its starting point and the PDF). Without it they can fail: with `x.pdf.pdf` extracting ten characters and `x.txt.pdf` extracting none, the second PDF overwrites `x.txt.txt` with an empty text, and the clean-up then deletes `x.pdf.pdf` although its own text was long enough.
- PyMuPdf.Folders.CleanUp: assumes `os.remove` succeeds. The clean-up loop has no handler (`step2_text_extraction_PyMuPDF.py:33`), so a removal that raises (no permission, a directory named `*.pdf`, a file still held open) would end the script and keep every later stale PDF; the model does not capture that early end.
- Hybrid.Extractor.LogError: assumes appending to the log succeeds. A `log_error` that raises inside a page handler would escape to the `[Open Error]` handler, whose own `log_error` would then end the run; the model does not capture that.
- Plumber.Extractor.Write: assumes writing a log line succeeds. A write that raises inside a page handler would escape to the `(open)` handler, whose own write would then end the run; the model does not capture that.
