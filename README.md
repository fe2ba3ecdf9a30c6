# OCR pipeline, modelled in Dafny

The repository has two programs around the OCR libraries `ocrmypdf` and `pytesseract`.

- **The web service** (`app.py`) takes a PDF upload and checks it. It derives the stored and output file names and records a job in an in-memory store. It then runs `ocrmypdf.ocr` in the background with keyword arguments built from the form. Clients poll the job's status and download the result.
- **The batch script** (`ocr_process.py`) renders every PDF of an input directory to page images and recognises each page with Tesseract. It writes the recognised text and adds a text layer to each PDF. It keeps statistics over the whole batch and logs a report at the end.

No OCR happens in this code: every recognition or PDF step is a library call. The model takes each such call as an outcome given to it, either success with a value or failure.

The project has six modules:

- `Wrappers`: `Option` and `Result`.
- `PyStr`: the `str` operations the programs use (`lower`, `endswith`, `strip`, `split`, `join`).
- `PyInt`: `int(s)` in base 10 as CPython 3.12 and later reads it, including underscores, the whitespace it skips and the 4300-digit limit, and `str(n)`.
- `PyPath`: `PurePosixPath.name` and `.stem`.
- `WebService` (`app.py`):
  - the job store is a class `JobStore` whose methods update its `jobs` map;
  - a ghost `history` records every status write;
  - the request checks, form parsing and replies are functions;
  - a form field sent empty takes its declared default, as the framework's form binding gives it to `upload`;
  - a download whose output name has a character outside Latin-1 fails with 500, because the server writes response headers in Latin-1;
  - the keyword arguments are built by a method proved against the predicate `IsKwargsFor`.
- `BatchOcr` (`ocr_process.py`):
  - `process_pdf_with_tesseract` and `process_all_pdfs` are methods with loops;
  - each is proved against folds over the per-file results;
  - the `files` dict keeps Python's insertion order as `FileTable(order, entries)`;
  - the report of `save_statistics` is a function of the statistics.

## Model

| member | source | states |
|---|---|---|
| PyStr.StripLeftDropsSpace | app.py:58 | the leading part `strip()` removes is whitespace, and the next character is not |
| PyStr.StripRightDropsSpace | app.py:58 | the trailing part `strip()` removes is whitespace, and the character before it is not |
| PyStr.StripEnds | app.py:58 | neither end of `strip()`'s result is whitespace |
| PyStr.StripEmptyIffAllSpace | app.py:58-59 | a string strips to the empty string exactly when every character of it is whitespace |
| PyStr.SplitWords | ocr_process.py:164 | every word `split()` returns is non-empty and holds no whitespace |
| PyStr.SplitKeepsText | ocr_process.py:164 | the words of `split()`, written one after the other, are the text without its whitespace |
| PyStr.WordCountIsWordStarts | ocr_process.py:164 | `len(s.split())` is the number of positions where a non-whitespace character begins the text or follows whitespace |
| PyStr.WordCountOfJoin | ocr_process.py:162-164 | the word count of texts joined with a whitespace character is the sum of their word counts |
| PyStr.JoinLength | ocr_process.py:162-163 | the length of a join with a one-character separator is the total length of the parts plus one per gap |
| PyInt.IntFromStringOfIntToString | app.py:39 | `int(str(n)) == n` for every integer of at most 4300 digits |
| PyInt.NumeralLengthIsRun | app.py:39 | the numeral `int()` reads is the longest leading run of digits and underscores |
| PyInt.FileSeparatorIsNotSkipped | app.py:39 | `int()` does not skip U+001C: a text starting with it raises, although `strip()` would remove it |
| PyInt.IntFromStringOne | app.py:85 | the form's default optimize text `"1"` parses to 1 |
| WebService.EmptyFormRunCompletes | app.py:39 | with no form field sent, the optimize default `"1"` (app.py:85) passes `int()`, so a run whose library call returns ends without an error |
| PyPath.BaseNameIsLastComponent | app.py:91 | a path's name is the suffix after its last `/`, holding no `/` |
| PyPath.LastIndexOfIsLast | ocr_process.py:250 | the dot the stem cuts at is a dot and no dot follows it |
| PyPath.StemOfPdfName | ocr_process.py:250 | the stem of a name ending in `.pdf` loses exactly those four characters, unless nothing precedes them |
| PyPath.BaseNameOfPdfPath | app.py:87-91 | the name of a path ending in `.pdf` (any case) ends in `.pdf` too |
| WebService.FormFlagsSent | app.py:81-109 | each boolean option is on exactly when its field's text is the four letters of "true" in some mix of cases; deskew is also on when its field is unsent or empty, the other three are off then |
| WebService.EmptyFieldsAreDefaults | app.py:75-85 | in every form, a field sent empty gives the same options as the field not sent |
| WebService.FormFlagCases | app.py:106-109 | a boolean field is true exactly for the four letters of "true" in any mix of cases |
| WebService.EmptyFormOptions | app.py:78-85 | with no field sent, deskew is on, the other flags are off and the texts take their declared defaults |
| WebService.SafeName | app.py:91 | the safe name has at most 60 characters |
| WebService.SafeNameOfPdf | app.py:91 | for an accepted name the safe name is the last component without `.pdf`, cut to 60 characters |
| WebService.InputNameInjective | app.py:92 | with job ids of one length, two stored uploads share a name only for the same id and safe name |
| WebService.OutputNameLatin1 | app.py:93 | the output name is all Latin-1 exactly when the safe name is |
| WebService.OutputNameDecodes | app.py:93 | the output name ends in `_ocr.pdf` and gives back its safe name |
| WebService.ModeOfNames | app.py:43-49 | each special mode is selected by exactly its own name |
| WebService.BuildKwargs | app.py:36-60 | the keyword arguments are the four defaults, the flag of the chosen mode, each cleanup flag that is set, and the stripped page selection when it is not blank |
| WebService.KwargsDetermined | app.py:36-60 | the options and the optimize level determine the keyword arguments completely |
| WebService.ModeFlagsExclusive | app.py:43-49 | at most one of force_ocr, skip_text and redo_ocr is passed, and exactly one unless the mode is normal |
| WebService.PagesPassedIffNotBlank | app.py:58-60 | `pages` is passed exactly when the selection holds a non-whitespace character |
| WebService.EmptyFormKwargs | app.py:36-41 | with no field sent, the library gets exactly deskew, "deu+eng", optimize 1 and one job |
| WebService.TryOcr | app.py:35-62 | the library is called exactly when `int()` accepts the optimize level, with the task's paths and the keyword arguments; the failure is the text of the exception that ended the block |
| WebService.JobStore.constructor | app.py:30 | the store starts with no job |
| WebService.JobStore.Upload | app.py:87-119 | a non-PDF name gets 400 and a body over 200 MiB gets 413, both with the store unchanged; otherwise exactly one queued job with no error is added, with the derived names |
| WebService.JobStore.SetStatus | app.py:63-67 | one job's status and error are written and nothing else changes |
| WebService.JobStore.RunOcr | app.py:33-68 | the job goes to processing, then to exactly one of done (no error) or error (error text set); no other job changes |
| WebService.JobStore.JobStatus | app.py:127-137 | 404 exactly for an unknown job, else the job's status, file name and error |
| WebService.JobStore.Download | app.py:140-155 | 404 for an unknown job, 400 for one not done, 404 for a missing output, 500 for an output name with a character outside Latin-1 (the `Content-Disposition` header cannot be encoded), else the PDF under its output name |
| WebService.UploadAndRun | app.py:113-146 | an accepted upload reads as queued and cannot be downloaded; after its run it is done or error, and the download succeeds exactly when the run succeeded, the output exists and the safe name is all Latin-1 |
| WebService.RejectedUpload | app.py:87-97 | a refused upload leaves an id that status and download report as unknown |
| WebService.SameSafeNameSharesOutput | app.py:91-93 | two uploads with the same safe name share one output path |
| BatchOcr.PageTexts | ocr_process.py:154-160 | the page texts exist exactly when every page was recognised, and are those texts in order |
| BatchOcr.ProcessPdfWithTesseract | ocr_process.py:140-170 | the result is `Recognize` of the rendering: the joined text and its counts, or `(None, 0, 0, 0)` on any failure |
| BatchOcr.RecognizeFailure | ocr_process.py:168-170 | recognition fails exactly when rendering or some page fails, and then all counts are zero |
| BatchOcr.RecognizeCounts | ocr_process.py:162-166 | characters are the page texts plus one newline per gap, words are the pages' words, pages the page count |
| BatchOcr.Put | ocr_process.py:269-286 | assigning a key keeps the table valid; a new key goes last and an existing key keeps its place |
| BatchOcr.OutputNamesFromStem | ocr_process.py:250-259 | both output names begin with the stem and differ from each other |
| BatchOcr.ProcessAllPdfs | ocr_process.py:205-290 | `{}` exactly for no PDF; otherwise `successful + failed == total_files`; totals sum over successful PDFs only; `files` and the text files the script writes are those of the recognised PDFs |
| BatchOcr.CountsConserved | ocr_process.py:244-286 | every PDF is counted exactly once, as a success or a failure |
| BatchOcr.TableIsValid | ocr_process.py:269-286 | the `files` table keeps each stem once, in first-insertion order |
| BatchOcr.TableKeys | ocr_process.py:244-286 | `files` has an entry exactly for the stems of the recognised PDFs |
| BatchOcr.TableEntryIsLastWriter | ocr_process.py:269-286 | a stem's entry is the one of the last recognised PDF with that stem |
| BatchOcr.OcrFailureStep | ocr_process.py:244-247 | an OCR failure adds one failure and changes no total, no entry and no text file |
| BatchOcr.TextLayerFailureStep | ocr_process.py:280-286 | a text-layer failure adds one failure, writes its text, records the fixed error under its stem and changes no total |
| BatchOcr.SuccessStep | ocr_process.py:261-279 | a success adds one success, its counts to the totals, its text file and its entry |
| BatchOcr.NoPdfsRaisesKeyError | ocr_process.py:309 | the report on the `{}` of an empty batch raises instead of reporting |
| BatchOcr.SummaryOf | ocr_process.py:308-336 | an empty batch reports zeros and no line; otherwise the report is the one `save_statistics` gives |
| BatchOcr.RunBatch | ocr_process.py:347-370 | when every file operation succeeds, `main` as written exits with 1 exactly for an empty batch, whose report raises; the text files written are those of the loop; the summary is the corrected report (see Findings), zeros for an empty batch and otherwise the batch's counts, totals and table; it counts every PDF once, and with distinct stems the table has one line per success and its columns add up to the totals |
| BatchOcr.RowsAreSuccesses | ocr_process.py:327-332 | every line of the detailed table shows a successful entry, with that entry's figures |
| BatchOcr.RowCountIsSuccesses | ocr_process.py:327-332 | with distinct keys the detailed table has exactly as many lines as there are successful entries |
| BatchOcr.RowsOfDistinctTable | ocr_process.py:327-332 | with distinct stems the detailed table lists the successful PDFs in input order |
| BatchOcr.SuccessRowsSum | ocr_process.py:264-267 | the lines of the successful PDFs add up to the reported totals |
| BatchOcr.SummaryMatchesTotals | ocr_process.py:327-336 | with distinct stems the table's columns add up to the totals of the summary line |
| BatchOcr.DotPdfStemsCollide | ocr_process.py:250 | `.pdf` and `.pdf.pdf` both have the stem `.pdf` |
| BatchOcr.SharedStemLosesRow | ocr_process.py:264-269 | two successful PDFs with one stem count twice but leave only the later line in the table |

## Left out

- The library calls `ocrmypdf.ocr` (app.py:62 and ocr_process.py:178-188), `convert_from_path` and `pytesseract.image_to_string` are not modelled. Each is an outcome given to the model: `LibraryOutcome`, `Rendering`, and `PdfRun.textLayerOk`.
- File I/O is not modelled: the upload write, unlinking the upload, `stat()`, the batch's text-file write and the JSON dump. Every one of them is taken to succeed. The existence of the output file is the `outputExists` parameter of `Download`.
- `BatchOcr.RunBatch`: its exit code assumes every file operation succeeds. The text-file write (ocr_process.py:251-253) is outside any `try`, so a failing `open` (a stem whose `_tesseract.txt` name exceeds the file system's name limit, say) ends the batch in `main`'s `except` with exit code 1 and no report (ocr_process.py:366-370). The model does not capture that path.
- `BatchOcr.ProcessAllPdfs`: `written` records the text files the script itself writes, with their names and contents. The text-layer call passes the same path as `sidecar` (ocr_process.py:187), so `ocrmypdf` may then overwrite that file with its own text. The model does not capture that second write.
- Directories are string parameters of `JobStore`. A path is the directory, `/` and the name.
- Job ids come from `uuid.uuid4()` in the source. Here they are a parameter, with the requirement that the id is not yet in the store.
- Concurrency is left out. `run_in_executor` becomes a sequential call to `RunOcr` after `Upload`.
- The `ThreadPoolExecutor` pass at the start of `process_all_pdfs` is left out, because its results are discarded.
- The PDF list is taken as given, already in the order `sorted(glob('*.pdf'))` gives.
- The sizes in MB (`input_size_mb`, `output_size_mb`) and the other floating-point values are left out, along with the report's formatting and logging.
- The dependency installer, logging setup, FastAPI routing, CORS and the static mount are left out.
- `WebService.FormFlag` and `WebService.IsPdfName`: `lower()` is modelled for the ASCII letters only. No other letter lowers to a letter of "true" or of ".pdf". The only character whose lowering is longer than one character, U+0130, lowers to "i" followed by U+0307, so it cannot produce the final "f" either. The flag and the `.pdf` check are therefore still exact.
- `PyInt.IntFromString`:
  - it accepts ASCII digits only, where Python also accepts other Unicode decimal digits;
  - its error text quotes the argument between single quotes, without the escapes and the choice of quote character of `repr`; the cut of that `repr` to 200 characters is modelled.
- `WebService.BuildKwargs` takes the optimize level after `int()` has read it. `TryOcr` calls `int()` first. There is no observable difference, because nothing before the call in the source can fail.
- `PyPath.BaseName` agrees with `pathlib`'s `name` for every path whose last component is neither empty nor `.`. Every path ending in `.pdf` is such a path.
- The upload body is described by its length only.
- `RunOcr` requires the job to be queued. Its only caller is the upload's background hand-off.

## Findings

| source | as written | input that shows it | evidently intended | confidence | as-written member | corrected member |
|---|---|---|---|---|---|---|
| ocr_process.py:221-223, ocr_process.py:309 | for an empty directory `process_all_pdfs` returns `{}`, and `save_statistics` then reads `statistics['successful']` from it | an input directory without a PDF: `KeyError`, which `main` turns into exit code 1 after the JSON dump | report an empty batch as zero files | not executed; the `{}` return and the unguarded key read are both in the text | BatchOcr.NoPdfsRaisesKeyError | BatchOcr.SummaryOf |
