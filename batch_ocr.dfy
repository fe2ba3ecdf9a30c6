/**
 * The batch OCR script: every PDF of the input directory is rendered to page
 * images, each page is recognised with Tesseract, the text is saved, a text
 * layer is added to the PDF, and statistics are kept over the whole batch.
 *
 * Rendering, recognition and the text-layer step are library calls; each is
 * given as its outcome (`Rendering`, `PdfRun.textLayerOk`).
 */
module BatchOcr {
  import opened Wrappers
  import opened PyStr
  import opened PyPath

  // ---------------------------------------------------------------------------
  // One PDF through Tesseract

  /**
   * What rendering a PDF gives: `None` when `convert_from_path` raised, or
   * for each page image the text `image_to_string` returned, `None` for a
   * page whose recognition raised.
   */
  type Rendering = Option<seq<Option<string>>>

  /** The tuple `(text, char_count, word_count, page_count)`; `text` is `None` after an exception. */
  datatype Recognition = Recognition(text: Option<string>, characters: nat, words: nat, pages: nat)

  /** What `process_pdf_with_tesseract` returns once it caught an exception. */
  const Unrecognised := Recognition(None, 0, 0, 0)

  /** The texts of all pages in order, or `None` as soon as one page has none. */
  function PageTexts(pages: seq<Option<string>>): (r: Option<seq<string>>)
    ensures r.Some? <==> forall i :: 0 <= i < |pages| ==> pages[i].Some?
    ensures r.Some? ==> |r.value| == |pages| && forall i :: 0 <= i < |pages| ==> r.value[i] == pages[i].value
  {
    if pages == [] then Some([])
    else
      match PageTexts(pages[..|pages| - 1])
      case None => None
      case Some(texts) =>
        match pages[|pages| - 1]
        case None => None
        case Some(t) => Some(texts + [t])
  }

  /**
   * The result `process_pdf_with_tesseract` should give: the page texts
   * joined with newlines, the length of that text, the number of its
   * whitespace-separated words and the number of pages; or `Unrecognised`
   * when rendering or any page failed.
   */
  function Recognize(rendering: Rendering): Recognition {
    match rendering
    case None => Unrecognised
    case Some(pages) =>
      match PageTexts(pages)
      case None => Unrecognised
      case Some(texts) =>
        var full := Join("\n", texts);
        Recognition(Some(full), |full|, WordCount(full), |pages|)
  }

  /** `process_pdf_with_tesseract`: recognise the pages one by one and count the joined text. */
  method ProcessPdfWithTesseract(rendering: Rendering) returns (r: Recognition)
    ensures r == Recognize(rendering)
  {
    if rendering.None? {
      return Unrecognised;
    }
    var images := rendering.value;
    var pageCount := |images|;
    var texts: seq<string> := [];
    var i := 0;
    while i < |images|
      invariant 0 <= i <= |images|
      invariant PageTexts(images[..i]) == Some(texts)
    {
      if images[i].None? {
        return Unrecognised;
      }
      assert images[..i + 1][..i] == images[..i];
      texts := texts + [images[i].value];
      i := i + 1;
    }
    assert images[..i] == images;
    var fullText := Join("\n", texts);
    r := Recognition(Some(fullText), |fullText|, WordCount(fullText), pageCount);
  }

  /** Recognition fails exactly when rendering fails or some page fails, and then every count is zero. */
  lemma RecognizeFailure(rendering: Rendering)
    ensures Recognize(rendering).text.None? <==>
      rendering.None? || exists i :: 0 <= i < |rendering.value| && rendering.value[i].None?
    ensures Recognize(rendering).text.None? ==> Recognize(rendering) == Unrecognised
  {
  }

  /**
   * A recognised PDF counts every page; its characters are those of all
   * pages plus one newline between each two, and its words those of all
   * pages, since a newline never joins two words.
   */
  lemma RecognizeCounts(pages: seq<Option<string>>)
    requires forall i :: 0 <= i < |pages| ==> pages[i].Some?
    ensures var r := Recognize(Some(pages));
      var texts := PageTexts(pages).value;
      && r.text.Some?
      && r.pages == |pages|
      && r.characters == (if pages == [] then 0 else TotalLength(texts) + |pages| - 1)
      && r.words == TotalWords(texts)
  {
    var texts := PageTexts(pages).value;
    if pages != [] {
      JoinLength("\n", texts);
    }
    assert IsSpace('\n');
    WordCountOfJoin('\n', texts);
  }

  // ---------------------------------------------------------------------------
  // The batch

  /** One input PDF: its path, what rendering and recognition give, and whether `add_text_layer_with_ocrmypdf` succeeds. */
  datatype PdfRun = PdfRun(path: string, rendering: Rendering, textLayerOk: bool)

  /** An entry of `statistics['files']`, keyed by the PDF's stem. */
  datatype FileEntry =
    | Success(inputFile: string, pages: nat, characters: nat, words: nat, outputText: string, outputPdf: string)
    | Failure(error: string)

  /** The error recorded for a PDF whose text layer could not be added. */
  const TextLayerFailed := "Text layer creation failed"

  /** A Python dict from stems to entries: its keys in insertion order, and its entries. */
  datatype FileTable = FileTable(order: seq<string>, entries: map<string, FileEntry>)

  /** The order lists every key once and nothing else. */
  predicate TableValid(t: FileTable) {
    && (forall i, j :: 0 <= i < j < |t.order| ==> t.order[i] != t.order[j])
    && (forall i :: 0 <= i < |t.order| ==> t.order[i] in t.entries)
    && (forall k :: k in t.entries ==> k in t.order)
  }

  /** `d[key] = e`: a new key goes last; a key already there keeps its place. */
  function Put(t: FileTable, key: string, e: FileEntry): (r: FileTable)
    ensures TableValid(t) ==> TableValid(r)
    ensures r.entries == t.entries[key := e]
    ensures key in t.entries ==> r.order == t.order
    ensures key !in t.entries ==> r.order == t.order + [key]
  {
    FileTable(if key in t.entries then t.order else t.order + [key], t.entries[key := e])
  }

  /** The saved text of a PDF: `<stem>_tesseract.txt`. */
  function TextName(stem: string): string {
    stem + "_tesseract.txt"
  }

  /** The PDF with its text layer: `<stem>_with_text_layer.pdf`. */
  function LayerName(stem: string): string {
    stem + "_with_text_layer.pdf"
  }

  /** Both output names begin with the stem and differ from each other. */
  lemma OutputNamesFromStem(stem: string)
    ensures TextName(stem)[..|stem|] == stem && LayerName(stem)[..|stem|] == stem
    ensures TextName(stem) != LayerName(stem)
  {
    assert TextName(stem)[|stem|] == '_' && TextName(stem)[|stem| + 1] == 't';
    assert LayerName(stem)[|stem| + 1] == 'w';
  }

  /**
   * What the loop learns about one PDF: its name and stem, what
   * `process_pdf_with_tesseract` returned, and whether the text layer was added.
   */
  datatype FileResult = FileResult(name: string, stem: string, recognition: Recognition, textLayerOk: bool)

  function ResultOf(run: PdfRun): FileResult {
    var name := BaseName(run.path);
    FileResult(name, Stem(name), Recognize(run.rendering), run.textLayerOk)
  }

  /** The result of each PDF, in order. */
  function Results(runs: seq<PdfRun>): (r: seq<FileResult>)
    ensures |r| == |runs| && forall i :: 0 <= i < |runs| ==> r[i] == ResultOf(runs[i])
  {
    seq(|runs|, i requires 0 <= i < |runs| => ResultOf(runs[i]))
  }

  /** `text is not None`. */
  predicate OcrSucceeded(f: FileResult) {
    f.recognition.text.Some?
  }

  /** A PDF counts as successful when it was recognised and got its text layer. */
  predicate Succeeded(f: FileResult) {
    OcrSucceeded(f) && f.textLayerOk
  }

  /** The entry a recognised PDF leaves in `statistics['files']`. */
  function EntryOf(f: FileResult): FileEntry {
    var r := f.recognition;
    if f.textLayerOk then Success(f.name, r.pages, r.characters, r.words, TextName(f.stem), LayerName(f.stem))
    else Failure(TextLayerFailed)
  }

  /** `statistics['files']` after the given PDFs: recognised PDFs write their stem's entry, in order. */
  function Table(rs: seq<FileResult>): FileTable {
    if rs == [] then FileTable([], map[])
    else
      var t := Table(rs[..|rs| - 1]);
      var f := rs[|rs| - 1];
      if OcrSucceeded(f) then Put(t, f.stem, EntryOf(f)) else t
  }

  function CountSucceeded(rs: seq<FileResult>): nat {
    if rs == [] then 0 else CountSucceeded(rs[..|rs| - 1]) + (if Succeeded(rs[|rs| - 1]) then 1 else 0)
  }

  function CountFailed(rs: seq<FileResult>): nat {
    if rs == [] then 0 else CountFailed(rs[..|rs| - 1]) + (if Succeeded(rs[|rs| - 1]) then 0 else 1)
  }

  /** The characters of the successful PDFs. */
  function SumCharacters(rs: seq<FileResult>): nat {
    if rs == [] then 0
    else SumCharacters(rs[..|rs| - 1]) + (if Succeeded(rs[|rs| - 1]) then rs[|rs| - 1].recognition.characters else 0)
  }

  /** The words of the successful PDFs. */
  function SumWords(rs: seq<FileResult>): nat {
    if rs == [] then 0
    else SumWords(rs[..|rs| - 1]) + (if Succeeded(rs[|rs| - 1]) then rs[|rs| - 1].recognition.words else 0)
  }

  /** The pages of the successful PDFs. */
  function SumPages(rs: seq<FileResult>): nat {
    if rs == [] then 0
    else SumPages(rs[..|rs| - 1]) + (if Succeeded(rs[|rs| - 1]) then rs[|rs| - 1].recognition.pages else 0)
  }

  /** A text file the batch writes. */
  datatype TextFile = TextFile(name: string, text: string)

  /** The text files written for the given PDFs: one per recognised PDF, whether or not its text layer follows. */
  function TextsWritten(rs: seq<FileResult>): seq<TextFile> {
    if rs == [] then []
    else
      var f := rs[|rs| - 1];
      TextsWritten(rs[..|rs| - 1]) + (if OcrSucceeded(f) then [TextFile(TextName(f.stem), f.recognition.text.value)] else [])
  }

  /** The `statistics` dict, its two MB sizes left out. */
  datatype Statistics = Statistics(
    totalFiles: nat, successful: nat, failed: nat,
    totalCharacters: nat, totalWords: nat, totalPages: nat,
    files: FileTable)

  /** What `process_all_pdfs` returns: `{}` when there is no PDF, otherwise the statistics. */
  datatype Report = NoPdfs | Processed(stats: Statistics)

  /**
   * `process_all_pdfs` over `pdfFiles`, the PDFs in the order `sorted` gives.
   * Each PDF raises exactly one of `successful` and `failed`; the totals add
   * up the successful PDFs only; recognised PDFs write their text file and
   * their `files` entry.
   */
  method ProcessAllPdfs(pdfFiles: seq<PdfRun>) returns (report: Report, written: seq<TextFile>)
    ensures report.NoPdfs? <==> pdfFiles == []
    ensures written == TextsWritten(Results(pdfFiles))
    ensures report.Processed? ==>
      var s, rs := report.stats, Results(pdfFiles);
      && s.totalFiles == |pdfFiles| == s.successful + s.failed
      && s.successful == CountSucceeded(rs)
      && s.failed == CountFailed(rs)
      && s.totalCharacters == SumCharacters(rs)
      && s.totalWords == SumWords(rs)
      && s.totalPages == SumPages(rs)
      && s.files == Table(rs)
  {
    if pdfFiles == [] {
      return NoPdfs, [];
    }
    ghost var rs := Results(pdfFiles);
    var successful, failed := 0, 0;
    var totalCharacters, totalWords, totalPages := 0, 0, 0;
    var files := FileTable([], map[]);
    written := [];
    for i := 0 to |pdfFiles|
      invariant successful == CountSucceeded(rs[..i])
      invariant failed == CountFailed(rs[..i])
      invariant successful + failed == i
      invariant totalCharacters == SumCharacters(rs[..i])
      invariant totalWords == SumWords(rs[..i])
      invariant totalPages == SumPages(rs[..i])
      invariant files == Table(rs[..i])
      invariant written == TextsWritten(rs[..i])
    {
      var pdfPath := pdfFiles[i];
      var rec := ProcessPdfWithTesseract(pdfPath.rendering);
      var name := BaseName(pdfPath.path);
      ghost var f := FileResult(name, Stem(name), rec, pdfPath.textLayerOk);
      assert rs[..i + 1] == rs[..i] + [f];
      if rec.text.None? {
        OcrFailureStep(rs[..i], f);
        failed := failed + 1;
        continue;
      }
      var baseName := Stem(name);
      var txtName := TextName(baseName);
      written := written + [TextFile(txtName, rec.text.value)];
      var outputPdf := LayerName(baseName);
      if pdfPath.textLayerOk {
        SuccessStep(rs[..i], f);
        successful := successful + 1;
        totalCharacters := totalCharacters + rec.characters;
        totalWords := totalWords + rec.words;
        totalPages := totalPages + rec.pages;
        files := Put(files, baseName, Success(name, rec.pages, rec.characters, rec.words, txtName, outputPdf));
      } else {
        TextLayerFailureStep(rs[..i], f);
        failed := failed + 1;
        files := Put(files, baseName, Failure(TextLayerFailed));
      }
    }
    assert rs[..|pdfFiles|] == rs;
    var stats := Statistics(|pdfFiles|, successful, failed, totalCharacters, totalWords, totalPages, files);
    report := Processed(stats);
  }

  /** Every PDF is counted once: as a success or as a failure. */
  lemma {:induction false} CountsConserved(rs: seq<FileResult>)
    ensures CountSucceeded(rs) + CountFailed(rs) == |rs|
  {
    if rs != [] {
      CountsConserved(rs[..|rs| - 1]);
    }
  }

  /** The `files` table keeps every stem once, in the order of first insertion. */
  lemma {:induction false} TableIsValid(rs: seq<FileResult>)
    ensures TableValid(Table(rs))
  {
    if rs != [] {
      TableIsValid(rs[..|rs| - 1]);
    }
  }

  /** The stems of the recognised PDFs. */
  function RecognisedStems(rs: seq<FileResult>): set<string> {
    set i | 0 <= i < |rs| && OcrSucceeded(rs[i]) :: rs[i].stem
  }

  /** The `files` table has an entry exactly for the stems of the recognised PDFs. */
  lemma {:induction false} TableKeys(rs: seq<FileResult>)
    ensures Table(rs).entries.Keys == RecognisedStems(rs)
  {
    if rs != [] {
      var init, f := rs[..|rs| - 1], rs[|rs| - 1];
      TableKeys(init);
      var before, now := RecognisedStems(init), RecognisedStems(rs);
      forall k | k in now ensures k in before || (OcrSucceeded(f) && k == f.stem) {
        var i :| 0 <= i < |rs| && OcrSucceeded(rs[i]) && rs[i].stem == k;
        if i < |init| {
          assert init[i] == rs[i];
        }
      }
      forall k | k in before ensures k in now {
        var i :| 0 <= i < |init| && OcrSucceeded(init[i]) && init[i].stem == k;
        assert rs[i] == init[i];
      }
      if OcrSucceeded(f) {
        assert rs[|rs| - 1].stem in now;
        assert now == before + {f.stem};
      } else {
        assert now == before;
      }
    }
  }

  /** The entry for a stem is the one of the last recognised PDF with that stem. */
  lemma {:induction false} TableEntryIsLastWriter(rs: seq<FileResult>, i: nat)
    requires i < |rs| && OcrSucceeded(rs[i])
    requires forall j :: i < j < |rs| && OcrSucceeded(rs[j]) ==> rs[j].stem != rs[i].stem
    ensures rs[i].stem in Table(rs).entries
    ensures Table(rs).entries[rs[i].stem] == EntryOf(rs[i])
  {
    var init := rs[..|rs| - 1];
    if i < |rs| - 1 {
      assert init[i] == rs[i];
      forall j | i < j < |init| && OcrSucceeded(init[j]) ensures init[j].stem != init[i].stem {
        assert init[j] == rs[j];
      }
      TableEntryIsLastWriter(init, i);
    }
  }

  /** A PDF that fails recognition adds a failure and changes neither the totals nor the table. */
  lemma OcrFailureStep(rs: seq<FileResult>, f: FileResult)
    requires !OcrSucceeded(f)
    ensures var after := rs + [f];
      && CountFailed(after) == CountFailed(rs) + 1 && CountSucceeded(after) == CountSucceeded(rs)
      && SumCharacters(after) == SumCharacters(rs) && SumWords(after) == SumWords(rs)
      && SumPages(after) == SumPages(rs) && Table(after) == Table(rs) && TextsWritten(after) == TextsWritten(rs)
  {
    assert (rs + [f])[..|rs|] == rs;
  }

  /** A PDF whose text layer fails adds a failure, writes its text, records the fixed error under its stem and changes no total. */
  lemma TextLayerFailureStep(rs: seq<FileResult>, f: FileResult)
    requires OcrSucceeded(f) && !f.textLayerOk
    ensures var after := rs + [f];
      && CountFailed(after) == CountFailed(rs) + 1 && CountSucceeded(after) == CountSucceeded(rs)
      && SumCharacters(after) == SumCharacters(rs) && SumWords(after) == SumWords(rs)
      && SumPages(after) == SumPages(rs)
      && Table(after) == Put(Table(rs), f.stem, Failure(TextLayerFailed))
      && TextsWritten(after) == TextsWritten(rs) + [TextFile(TextName(f.stem), f.recognition.text.value)]
  {
    assert (rs + [f])[..|rs|] == rs;
  }

  /** A successful PDF adds a success, its counts to the totals, its text file and its entry. */
  lemma SuccessStep(rs: seq<FileResult>, f: FileResult)
    requires Succeeded(f)
    ensures var after := rs + [f];
      var r := f.recognition;
      && CountFailed(after) == CountFailed(rs) && CountSucceeded(after) == CountSucceeded(rs) + 1
      && SumCharacters(after) == SumCharacters(rs) + r.characters
      && SumWords(after) == SumWords(rs) + r.words
      && SumPages(after) == SumPages(rs) + r.pages
      && Table(after) == Put(Table(rs), f.stem,
           Success(f.name, r.pages, r.characters, r.words, TextName(f.stem), LayerName(f.stem)))
      && TextsWritten(after) == TextsWritten(rs) + [TextFile(TextName(f.stem), r.text.value)]
  {
    assert (rs + [f])[..|rs|] == rs;
  }

  // ---------------------------------------------------------------------------
  // The summary of save_statistics

  /** A line of the detailed table: the stem, its pages, characters and words. */
  datatype Row = Row(name: string, pages: nat, characters: nat, words: nat)

  /** The lines for the successful entries, in the table's order. */
  function RowsOf(order: seq<string>, entries: map<string, FileEntry>): seq<Row> {
    if order == [] then []
    else
      var key := order[|order| - 1];
      RowsOf(order[..|order| - 1], entries)
        + (if key in entries && entries[key].Success? then
             var e := entries[key];
             [Row(key, e.pages, e.characters, e.words)]
           else [])
  }

  /** The figures `save_statistics` reports: the counters, the totals, and the successful entries. */
  datatype Summary = Summary(
    successful: nat, totalFiles: nat, failed: nat,
    totalPages: nat, totalCharacters: nat, totalWords: nat,
    rows: seq<Row>)

  /**
   * `save_statistics` as written: it reads `statistics['successful']` and
   * the other counters, so the `{}` for an empty input raises `KeyError`.
   */
  function SaveStatisticsAsWritten(report: Report): Result<Summary, string> {
    match report
    case NoPdfs => Err("KeyError: 'successful'")
    case Processed(s) =>
      Ok(Summary(s.successful, s.totalFiles, s.failed, s.totalPages, s.totalCharacters, s.totalWords,
                 RowsOf(s.files.order, s.files.entries)))
  }

  /** With no PDF, the report as written raises instead of reporting. */
  lemma NoPdfsRaisesKeyError()
    ensures SaveStatisticsAsWritten(NoPdfs).Err?
  {
  }

  /** The report with an empty input read as zero counts and no rows. */
  function SummaryOf(report: Report): (r: Summary)
    ensures report.NoPdfs? ==> r == Summary(0, 0, 0, 0, 0, 0, [])
    ensures report.Processed? ==> SaveStatisticsAsWritten(report) == Ok(r)
  {
    match report
    case NoPdfs => Summary(0, 0, 0, 0, 0, 0, [])
    case Processed(s) =>
      Summary(s.successful, s.totalFiles, s.failed, s.totalPages, s.totalCharacters, s.totalWords,
              RowsOf(s.files.order, s.files.entries))
  }

  /**
   * `main` after the installer: process the batch, then report on it.
   * `exitCode` is what `main` as written returns when every file operation
   * succeeds: 1 exactly for an empty batch, whose report raises `KeyError`,
   * and 0 otherwise. `written` is the text files the loop writes, in order. `summary` is the
   * corrected report, which reads an empty batch as zeros; on every other
   * batch it is the report as written, over the batch's statistics. Its counts cover every PDF, and
   * when no two PDFs share a stem the detailed table has one line per
   * successful PDF, its columns adding up to the totals.
   */
  method RunBatch(pdfFiles: seq<PdfRun>) returns (exitCode: int, summary: Summary, written: seq<TextFile>)
    ensures exitCode == (if pdfFiles == [] then 1 else 0)
    ensures written == TextsWritten(Results(pdfFiles))
    ensures pdfFiles != [] ==>
      var rs := Results(pdfFiles);
      && summary.successful == CountSucceeded(rs) && summary.failed == CountFailed(rs)
      && summary.totalPages == SumPages(rs) && summary.totalCharacters == SumCharacters(rs)
      && summary.totalWords == SumWords(rs) && summary.rows == RowsOf(Table(rs).order, Table(rs).entries)
    ensures summary.totalFiles == |pdfFiles| == summary.successful + summary.failed
    ensures pdfFiles == [] ==> summary == Summary(0, 0, 0, 0, 0, 0, []) && written == []
    ensures DistinctStems(Results(pdfFiles)) ==>
      && |summary.rows| == summary.successful
      && RowPages(summary.rows) == summary.totalPages
      && RowCharacters(summary.rows) == summary.totalCharacters
      && RowWords(summary.rows) == summary.totalWords
  {
    var report;
    report, written := ProcessAllPdfs(pdfFiles);
    exitCode := if SaveStatisticsAsWritten(report).Err? then 1 else 0;
    summary := SummaryOf(report);
    if pdfFiles != [] && DistinctStems(Results(pdfFiles)) {
      SummaryMatchesTotals(Results(pdfFiles));
    }
  }

  /** The keys of `order` whose entry is a success: those `save_statistics` lists. */
  function SuccessKeys(order: seq<string>, entries: map<string, FileEntry>): set<string> {
    set k | k in order && k in entries && entries[k].Success?
  }

  /** Every line of the detailed table shows a successful entry of the table, with that entry's figures. */
  lemma {:induction false} RowsAreSuccesses(order: seq<string>, entries: map<string, FileEntry>, row: Row)
    ensures row in RowsOf(order, entries) ==>
      && row.name in order && row.name in entries && entries[row.name].Success?
      && row == Row(row.name, entries[row.name].pages, entries[row.name].characters, entries[row.name].words)
  {
    if order != [] {
      var init := order[..|order| - 1];
      RowsAreSuccesses(init, entries, row);
      assert order == init + [order[|order| - 1]];
    }
  }

  /** With distinct keys the detailed table has exactly one line per successful entry. */
  lemma {:induction false} RowCountIsSuccesses(order: seq<string>, entries: map<string, FileEntry>)
    requires forall i, j :: 0 <= i < j < |order| ==> order[i] != order[j]
    ensures |RowsOf(order, entries)| == |SuccessKeys(order, entries)|
  {
    if order != [] {
      var init, key := order[..|order| - 1], order[|order| - 1];
      assert forall i, j :: 0 <= i < j < |init| ==> init[i] != init[j] by {
        forall i, j | 0 <= i < j < |init| ensures init[i] != init[j] {
          assert init[i] == order[i] && init[j] == order[j];
        }
      }
      RowCountIsSuccesses(init, entries);
      assert key !in init by {
        forall i | 0 <= i < |init| ensures init[i] != key {
          assert init[i] == order[i];
        }
      }
      assert order == init + [key];
      var before, all := SuccessKeys(init, entries), SuccessKeys(order, entries);
      if key in entries && entries[key].Success? {
        assert all == before + {key};
      } else {
        assert all == before;
      }
    }
  }

  /** The stems of the PDFs differ from each other. */
  predicate DistinctStems(rs: seq<FileResult>) {
    forall i, j :: 0 <= i < j < |rs| ==> rs[i].stem != rs[j].stem
  }

  /** The line of a successful PDF. */
  function RowOf(f: FileResult): Row {
    Row(f.stem, f.recognition.pages, f.recognition.characters, f.recognition.words)
  }

  /** The lines of the successful PDFs, in input order. */
  function SuccessRows(rs: seq<FileResult>): seq<Row> {
    if rs == [] then []
    else SuccessRows(rs[..|rs| - 1]) + (if Succeeded(rs[|rs| - 1]) then [RowOf(rs[|rs| - 1])] else [])
  }

  function RowPages(rows: seq<Row>): nat {
    if rows == [] then 0 else RowPages(rows[..|rows| - 1]) + rows[|rows| - 1].pages
  }

  function RowCharacters(rows: seq<Row>): nat {
    if rows == [] then 0 else RowCharacters(rows[..|rows| - 1]) + rows[|rows| - 1].characters
  }

  function RowWords(rows: seq<Row>): nat {
    if rows == [] then 0 else RowWords(rows[..|rows| - 1]) + rows[|rows| - 1].words
  }

  /** The sums over a concatenation are the sums of the parts. */
  lemma {:induction false} RowSumsAppend(rows: seq<Row>, more: seq<Row>)
    ensures RowPages(rows + more) == RowPages(rows) + RowPages(more)
    ensures RowCharacters(rows + more) == RowCharacters(rows) + RowCharacters(more)
    ensures RowWords(rows + more) == RowWords(rows) + RowWords(more)
    decreases |more|
  {
    if more != [] {
      var init := more[..|more| - 1];
      assert (rows + more)[..|rows + more| - 1] == rows + init;
      assert (rows + more)[|rows + more| - 1] == more[|more| - 1];
      RowSumsAppend(rows, init);
    } else {
      assert rows + more == rows;
    }
  }

  /** Lines are only read for the keys in the order, so other keys do not matter. */
  lemma {:induction false} RowsOfFrame(order: seq<string>, entries: map<string, FileEntry>, key: string, e: FileEntry)
    requires key !in order
    ensures RowsOf(order, entries[key := e]) == RowsOf(order, entries)
  {
    if order != [] {
      RowsOfFrame(order[..|order| - 1], entries, key, e);
    }
  }

  /** A key not yet in the table goes last, and adds a line exactly when its entry is a success. */
  lemma RowsOfPutNew(t: FileTable, key: string, e: FileEntry)
    requires key !in t.entries && key !in t.order
    ensures var u := Put(t, key, e);
      RowsOf(u.order, u.entries) ==
        RowsOf(t.order, t.entries) + (if e.Success? then [Row(key, e.pages, e.characters, e.words)] else [])
  {
    var order := t.order + [key];
    assert order[..|order| - 1] == t.order;
    RowsOfFrame(t.order, t.entries, key, e);
  }

  /** With distinct stems every recognised PDF adds a new key, so the table lists the successful PDFs in input order. */
  lemma {:induction false} RowsOfDistinctTable(rs: seq<FileResult>)
    requires DistinctStems(rs)
    ensures RowsOf(Table(rs).order, Table(rs).entries) == SuccessRows(rs)
  {
    if rs != [] {
      var init, f := rs[..|rs| - 1], rs[|rs| - 1];
      assert DistinctStems(init) by {
        forall i, j | 0 <= i < j < |init| ensures init[i].stem != init[j].stem {
          assert init[i] == rs[i] && init[j] == rs[j];
        }
      }
      RowsOfDistinctTable(init);
      if OcrSucceeded(f) {
        var t := Table(init);
        assert f.stem !in t.entries && f.stem !in t.order by {
          TableIsValid(init);
          TableKeys(init);
          forall i | 0 <= i < |init| ensures init[i].stem != f.stem {
            assert init[i] == rs[i];
          }
        }
        RowsOfPutNew(t, f.stem, EntryOf(f));
      }
    }
  }

  /** The summed lines of the successful PDFs are the totals of the successful PDFs. */
  lemma {:induction false} SuccessRowsSum(rs: seq<FileResult>)
    ensures |SuccessRows(rs)| == CountSucceeded(rs)
    ensures RowPages(SuccessRows(rs)) == SumPages(rs)
    ensures RowCharacters(SuccessRows(rs)) == SumCharacters(rs)
    ensures RowWords(SuccessRows(rs)) == SumWords(rs)
  {
    if rs != [] {
      var init, f := rs[..|rs| - 1], rs[|rs| - 1];
      SuccessRowsSum(init);
      var last := if Succeeded(f) then [RowOf(f)] else [];
      RowSumsAppend(SuccessRows(init), last);
      assert last == [] || last[..0] == [];
    }
  }

  /**
   * When no two PDFs share a stem, the detailed table of `save_statistics`
   * has one line per successful PDF, and its columns add up to the totals
   * `process_all_pdfs` reports.
   */
  lemma SummaryMatchesTotals(rs: seq<FileResult>)
    requires DistinctStems(rs)
    ensures var t := Table(rs);
      var rows := RowsOf(t.order, t.entries);
      && |rows| == CountSucceeded(rs)
      && RowPages(rows) == SumPages(rs) && RowCharacters(rows) == SumCharacters(rs) && RowWords(rows) == SumWords(rs)
  {
    RowsOfDistinctTable(rs);
    SuccessRowsSum(rs);
  }

  /** The names `.pdf` and `.pdf.pdf` both have the stem `.pdf`. */
  lemma DotPdfStemsCollide()
    ensures Stem(".pdf") == Stem(".pdf.pdf") == ".pdf"
  {
    var a, b := ".pdf", ".pdf.pdf";
    LastIndexOfIsLast(a, '.');
    LastIndexOfIsLast(b, '.');
    assert a[0] == '.' && a[1] != '.' && a[2] != '.' && a[3] != '.';
    assert b[4] == '.' && b[5] != '.' && b[6] != '.' && b[7] != '.';
    assert LastIndexOf(a, '.') == 0;
    assert LastIndexOf(b, '.') == 4;
    assert b[..4] == a;
  }

  /** Two successful PDFs with one stem count twice but leave a single line in the detailed table. */
  lemma SharedStemLosesRow(f1: FileResult, f2: FileResult)
    requires Succeeded(f1) && Succeeded(f2) && f1.stem == f2.stem
    ensures CountSucceeded([f1, f2]) == 2
    ensures var t := Table([f1, f2]); RowsOf(t.order, t.entries) == [RowOf(f2)]
  {
    assert [f1, f2][..1] == [f1];
    assert [f1][..0] == [];
    assert CountSucceeded([f1]) == 1;
    var t1 := Table([f1]);
    assert Table([f1][..0]) == FileTable([], map[]);
    assert t1 == Put(FileTable([], map[]), f1.stem, EntryOf(f1));
    assert [] + [f1.stem] == [f1.stem];
    assert t1 == FileTable([f1.stem], map[f1.stem := EntryOf(f1)]);
    var t := Table([f1, f2]);
    assert t == Put(t1, f2.stem, EntryOf(f2));
    assert t.order == [f1.stem];
    assert t.order[..0] == [];
  }
}
