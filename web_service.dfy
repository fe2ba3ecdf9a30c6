/**
 * The OCR web service: an in-memory job store, the upload checks, the
 * mapping from form options to the keyword arguments of the OCR library,
 * and the status and download lookups.
 *
 * The OCR library call is an outcome given to `RunOcr`; generated job ids are
 * parameters; the request body is described by its length only.
 */
module WebService {
  import opened Wrappers
  import opened PyStr
  import opened PyInt
  import opened PyPath

  /** The largest accepted upload, 200 MiB. */
  const MaxUploadBytes: nat := 200 * 1024 * 1024

  /** The longest stem kept in derived file names. */
  const SafeNameLength: nat := 60

  // ---------------------------------------------------------------------------
  // Jobs

  datatype Status = Queued | Processing | Done | Error

  /** The status as the service reports it. */
  function StatusText(s: Status): string {
    match s
    case Queued => "queued"
    case Processing => "processing"
    case Done => "done"
    case Error => "error"
  }

  /** A job record of the store. */
  datatype Job = Job(status: Status, filename: string, outputName: string, outputPath: string, error: Option<string>)

  /** One write of a job's status, in the order the service performs them. */
  datatype StatusEvent = StatusSet(jobId: string, status: Status)

  /** The status last written for `id`, if any. */
  function LastStatus(history: seq<StatusEvent>, id: string): Option<Status> {
    if history == [] then None
    else if history[|history| - 1].jobId == id then Some(history[|history| - 1].status)
    else LastStatus(history[..|history| - 1], id)
  }

  // ---------------------------------------------------------------------------
  // Upload form

  /**
   * The upload's form fields as the client sent them; `None` is a field the
   * client did not send.
   */
  datatype Form = Form(
    mode: Option<string>, pages: Option<string>, language: Option<string>, deskew: Option<string>,
    rotatePages: Option<string>, removeBackground: Option<string>, clean: Option<string>,
    optimize: Option<string>)

  /** A form with no field sent. */
  const EmptyForm := Form(None, None, None, None, None, None, None, None)

  /** The options the upload hands to the OCR run. */
  datatype Options = Options(
    mode: string, pages: string, language: string, deskew: bool,
    rotatePages: bool, removeBackground: bool, clean: bool, optimize: string)

  /**
   * The value a form parameter receives: the text sent, or its declared
   * default when the field was not sent or was sent empty, since the
   * framework's form binding reads an empty form value as a missing one.
   */
  function Field(f: Option<string>, default: string): string {
    match f
    case Some(v) => if v == "" then default else v
    case None => default
  }

  /** A boolean form field: true exactly when its lower-cased text is `"true"`. */
  predicate FormFlag(s: string) {
    Lower(s) == "true"
  }

  /** The options built from the form, with the form's defaults. */
  function FormOptions(f: Form): Options {
    Options(
      Field(f.mode, "normal"), Field(f.pages, ""), Field(f.language, "deu+eng"),
      FormFlag(Field(f.deskew, "true")), FormFlag(Field(f.rotatePages, "false")),
      FormFlag(Field(f.removeBackground, "false")), FormFlag(Field(f.clean, "false")),
      Field(f.optimize, "1"))
  }

  /** The four letters of "true", each in either case. */
  predicate IsTrueText(v: string) {
    |v| == 4 && (v[0] == 't' || v[0] == 'T') && (v[1] == 'r' || v[1] == 'R')
    && (v[2] == 'u' || v[2] == 'U') && (v[3] == 'e' || v[3] == 'E')
  }

  /**
   * Each boolean option is on exactly when its field's text is "true" in
   * some mix of cases; deskew is also on when its field is unsent or empty,
   * and the other three are off then.
   */
  lemma FormFlagsSent(f: Form)
    ensures var o := FormOptions(f);
      && (o.deskew <==> f.deskew.None? || f.deskew.value == "" || IsTrueText(f.deskew.value))
      && (o.rotatePages <==> f.rotatePages.Some? && IsTrueText(f.rotatePages.value))
      && (o.removeBackground <==> f.removeBackground.Some? && IsTrueText(f.removeBackground.value))
      && (o.clean <==> f.clean.Some? && IsTrueText(f.clean.value))
  {
    FormFlagCases(Field(f.deskew, "true"));
    FormFlagCases(Field(f.rotatePages, "false"));
    FormFlagCases(Field(f.removeBackground, "false"));
    FormFlagCases(Field(f.clean, "false"));
    FormFlagCases("true");
    FormFlagCases("false");
  }

  /** A field as the form binding sees it: one sent empty counts as not sent. */
  function Unsent(v: Option<string>): Option<string> {
    if v == Some("") then None else v
  }

  /**
   * Fields sent empty are read as fields not sent, in every form: deskew
   * stays on, and the language and optimize level take their defaults.
   */
  lemma EmptyFieldsAreDefaults(f: Form)
    ensures FormOptions(f) == FormOptions(Form(
      Unsent(f.mode), Unsent(f.pages), Unsent(f.language), Unsent(f.deskew),
      Unsent(f.rotatePages), Unsent(f.removeBackground), Unsent(f.clean), Unsent(f.optimize)))
  {
  }

  /** A boolean field is true for the four letters of "true" in any mix of cases, and for nothing else. */
  lemma FormFlagCases(s: string)
    ensures FormFlag(s) <==> IsTrueText(s)
  {
    if |s| == 4 {
      assert Lower(s) == [LowerChar(s[0]), LowerChar(s[1]), LowerChar(s[2]), LowerChar(s[3])];
    }
  }

  /** With no field sent, deskew is on, every other flag is off, and the texts take their defaults. */
  lemma EmptyFormOptions()
    ensures FormOptions(EmptyForm) == Options("normal", "", "deu+eng", true, false, false, false, "1")
  {
    FormFlagCases("true");
    FormFlagCases("false");
  }

  // ---------------------------------------------------------------------------
  // File names

  /** The upload's file name ends in `.pdf` in any letter case. */
  predicate IsPdfName(filename: string) {
    EndsWith(Lower(filename), ".pdf")
  }

  /** The stem of the uploaded name, cut to at most 60 characters. */
  function SafeName(filename: string): (r: string)
    ensures |r| <= SafeNameLength
  {
    var stem := Stem(BaseName(filename));
    if |stem| <= SafeNameLength then stem else stem[..SafeNameLength]
  }

  /** The name of the stored upload. */
  function InputName(jobId: string, safe: string): string {
    jobId + "_" + safe + ".pdf"
  }

  /** The name of the OCR result. */
  function OutputName(safe: string): string {
    safe + "_ocr.pdf"
  }

  /**
   * For an accepted upload, the safe name is the last path component without
   * its four-character `.pdf` suffix, cut to 60 characters; a bare `.pdf`
   * keeps the suffix, since `pathlib` sees no stem there.
   */
  lemma SafeNameOfPdf(filename: string)
    requires IsPdfName(filename)
    ensures var n := BaseName(filename);
      var stem := if |n| > 4 then n[..|n| - 4] else n;
      SafeName(filename) == if |stem| <= SafeNameLength then stem else stem[..SafeNameLength]
  {
    BaseNameOfPdfPath(filename);
    StemOfPdfName(BaseName(filename));
  }

  /** The output name gives back the safe name it was built from. */
  lemma OutputNameDecodes(safe: string)
    ensures var o := OutputName(safe);
      EndsWith(o, "_ocr.pdf") && o[..|o| - 8] == safe
  {
  }

  /** The output name is all Latin-1 exactly when its safe name is. */
  lemma OutputNameLatin1(safe: string)
    ensures IsLatin1(OutputName(safe)) <==> IsLatin1(safe)
  {
    var o := OutputName(safe);
    if IsLatin1(o) {
      forall i | 0 <= i < |safe| ensures safe[i] <= '\U{FF}' {
        assert safe[i] == o[i];
      }
    }
  }

  /** Two stored uploads with job ids of one length have the same name only for the same job id and safe name. */
  lemma InputNameInjective(id1: string, s1: string, id2: string, s2: string)
    requires |id1| == |id2|
    requires InputName(id1, s1) == InputName(id2, s2)
    ensures id1 == id2 && s1 == s2
  {
    var a, b := InputName(id1, s1), InputName(id2, s2);
    assert id1 == a[..|id1|] && id2 == b[..|id2|];
    assert s1 == a[|id1| + 1..|a| - 4] && s2 == b[|id2| + 1..|b| - 4];
  }

  // ---------------------------------------------------------------------------
  // Keyword arguments of the OCR library

  /**
   * The keyword arguments handed to the OCR library: `deskew`, `language`,
   * `optimize` and `jobs` always, and `force_ocr`, `skip_text`, `redo_ocr`,
   * `rotate_pages`, `remove_background`, `clean` and `pages` when the field
   * is not `None`.
   */
  datatype Kwargs = Kwargs(
    deskew: bool, language: string, optimize: int, jobs: int,
    forceOcr: Option<bool>, skipText: Option<bool>, redoOcr: Option<bool>,
    rotatePages: Option<bool>, removeBackground: Option<bool>, clean: Option<bool>,
    pages: Option<string>)

  /** The OCR mode chosen by the `mode` option; any text but the three names is the normal mode. */
  datatype Mode = Force | Skip | Redo | Normal

  function ModeOf(mode: string): Mode {
    if mode == "force" then Force
    else if mode == "skip" then Skip
    else if mode == "redo" then Redo
    else Normal
  }

  /** Each special mode is selected by exactly its own name. */
  lemma ModeOfNames(mode: string)
    ensures ModeOf(mode) == Force <==> mode == "force"
    ensures ModeOf(mode) == Skip <==> mode == "skip"
    ensures ModeOf(mode) == Redo <==> mode == "redo"
  {
    assert "skip"[0] != "redo"[0];
  }

  /** A keyword that is passed exactly when `present` holds, and then as `True`. */
  predicate FlagExactlyWhen(flag: Option<bool>, present: bool) {
    flag == if present then Some(true) else None
  }

  /**
   * The keyword arguments for `o`, with `optimize` its parsed value: deskew,
   * language, optimize and `jobs=1` always; force_ocr, skip_text or redo_ocr
   * for the modes "force", "skip" and "redo"; each cleanup flag when it is
   * set; and the page selection, stripped, when it is not blank.
   */
  predicate IsKwargsFor(o: Options, optimize: int, k: Kwargs) {
    && k.deskew == o.deskew && k.language == o.language && k.optimize == optimize && k.jobs == 1
    && FlagExactlyWhen(k.forceOcr, ModeOf(o.mode) == Force)
    && FlagExactlyWhen(k.skipText, ModeOf(o.mode) == Skip)
    && FlagExactlyWhen(k.redoOcr, ModeOf(o.mode) == Redo)
    && FlagExactlyWhen(k.rotatePages, o.rotatePages)
    && FlagExactlyWhen(k.removeBackground, o.removeBackground)
    && FlagExactlyWhen(k.clean, o.clean)
    && k.pages == if Strip(o.pages) != [] then Some(Strip(o.pages)) else None
  }

  /**
   * The keyword arguments `run_ocr` builds once `int()` has read the
   * optimize level; `RunOcr` calls `int()` first, since the exception it may
   * raise leaves nothing else to build.
   */
  method BuildKwargs(o: Options, optimize: int) returns (kwargs: Kwargs)
    ensures IsKwargsFor(o, optimize, kwargs)
  {
    var forceOcr, skipText, redoOcr: Option<bool> := None, None, None;
    match ModeOf(o.mode) {
      case Force => forceOcr := Some(true);
      case Skip => skipText := Some(true);
      case Redo => redoOcr := Some(true);
      case Normal =>
    }
    var rotatePages, removeBackground, clean: Option<bool> := None, None, None;
    if o.rotatePages {
      rotatePages := Some(true);
    }
    if o.removeBackground {
      removeBackground := Some(true);
    }
    if o.clean {
      clean := Some(true);
    }
    var pages: Option<string> := None;
    var selection := Strip(o.pages);
    if selection != [] {
      pages := Some(selection);
    }
    kwargs := Kwargs(o.deskew, o.language, optimize, 1, forceOcr, skipText, redoOcr, rotatePages, removeBackground, clean, pages);
  }

  /** The options and the optimize level determine the keyword arguments completely. */
  lemma KwargsDetermined(o: Options, optimize: int, k1: Kwargs, k2: Kwargs)
    requires IsKwargsFor(o, optimize, k1) && IsKwargsFor(o, optimize, k2)
    ensures k1 == k2
  {
  }

  /** At most one of force_ocr, skip_text and redo_ocr is ever passed, and exactly one unless the mode is normal. */
  lemma ModeFlagsExclusive(o: Options, optimize: int, k: Kwargs)
    requires IsKwargsFor(o, optimize, k)
    ensures (if k.forceOcr.Some? then 1 else 0) + (if k.skipText.Some? then 1 else 0) + (if k.redoOcr.Some? then 1 else 0)
      == if ModeOf(o.mode) == Normal then 0 else 1
  {
  }

  /** The page selection is passed exactly when it holds a character that is not whitespace. */
  lemma PagesPassedIffNotBlank(o: Options, optimize: int, k: Kwargs)
    requires IsKwargsFor(o, optimize, k)
    ensures k.pages.Some? <==> exists i :: 0 <= i < |o.pages| && !IsSpace(o.pages[i])
  {
    StripEmptyIffAllSpace(o.pages);
  }

  /** With no form field sent, the library gets deskew, the default languages, optimize level 1 and one job, and nothing else. */
  lemma EmptyFormKwargs(k: Kwargs)
    ensures IsKwargsFor(FormOptions(EmptyForm), 1, k) <==>
      k == Kwargs(true, "deu+eng", 1, 1, None, None, None, None, None, None, None)
  {
    EmptyFormOptions();
    assert Strip("") == [];
  }

  // ---------------------------------------------------------------------------
  // Requests and replies

  /** The reply to an upload: an HTTP error, or the new job. */
  datatype UploadReply = Rejected(code: nat, detail: string) | Accepted(jobId: string, filename: string)

  /** The OCR run an accepted upload hands to the background. */
  datatype OcrTask = OcrTask(inputPath: string, outputPath: string, options: Options)

  /** The call `run_ocr` makes to the OCR library. */
  datatype OcrCall = OcrCall(inputPath: string, outputPath: string, kwargs: Kwargs)

  /** What the OCR library did: return normally, or raise an exception with this text. */
  datatype LibraryOutcome = Returned | Raised(message: string)

  /** The reply to a status request. */
  datatype StatusReply = StatusError(code: nat, detail: string) | StatusBody(jobId: string, status: string, filename: string, error: Option<string>)

  /**
   * A header value the server can send: every character is in Latin-1,
   * the encoding the response headers are written in.
   */
  predicate IsLatin1(s: string) {
    forall i :: 0 <= i < |s| ==> s[i] <= '\U{FF}'
  }

  /** The reply to a download request. */
  datatype DownloadReply =
    | DownloadError(code: nat, detail: string)
    | FileReply(path: string, mediaType: string, filename: string, contentDisposition: string)

  /**
   * What keeps `run_ocr` from finishing: `int()` refusing the optimize level,
   * or the exception the library raised; `None` when the run completes.
   */
  function RunFailure(options: Options, library: LibraryOutcome): Option<string> {
    match IntFromString(options.optimize)
    case Err(e) => Some(Message(e))
    case Ok(_) => if library.Raised? then Some(library.message) else None
  }

  /** With no field sent, the default optimize level "1" parses, so a run whose library call returns ends without an error. */
  lemma EmptyFormRunCompletes()
    ensures RunFailure(FormOptions(EmptyForm), Returned) == None
  {
    EmptyFormOptions();
    IntFromStringOne();
  }

  /** The library call for `task`, with `optimize` its parsed optimize level. */
  predicate IsCallFor(task: OcrTask, optimize: int, call: OcrCall) {
    && call.inputPath == task.inputPath && call.outputPath == task.outputPath
    && IsKwargsFor(task.options, optimize, call.kwargs)
  }

  /**
   * The `try` block of `run_ocr`: parse the optimize level, build the
   * keyword arguments and call the library, whose outcome is `library`.
   * The call is made exactly when `int()` accepts the optimize level, and
   * the failure is the text of the exception that ended the block.
   */
  method TryOcr(task: OcrTask, library: LibraryOutcome) returns (call: Option<OcrCall>, failure: Option<string>)
    ensures call.Some? <==> IntFromString(task.options.optimize).Ok?
    ensures call.Some? ==> IsCallFor(task, IntFromString(task.options.optimize).value, call.value)
    ensures failure == RunFailure(task.options, library)
  {
    var optimize := IntFromString(task.options.optimize);
    if optimize.Err? {
      return None, Some(Message(optimize.error));
    }
    var kwargs := BuildKwargs(task.options, optimize.value);
    call := Some(OcrCall(task.inputPath, task.outputPath, kwargs));
    failure := if library.Raised? then Some(library.message) else None;
  }

  /** The status `run_ocr` leaves: "done" when nothing failed, "error" otherwise. */
  function StatusAfter(failure: Option<string>): Status {
    if failure.None? then Done else Error
  }

  /** The jobs after job `id` finished with `failure`: its status and error are set, nothing else changes. */
  function Finished(m: map<string, Job>, id: string, failure: Option<string>): map<string, Job>
    requires id in m
  {
    m[id := m[id].(status := StatusAfter(failure), error := failure)]
  }

  /** Two events appended one after the other. */
  lemma AppendTwo<T>(s: seq<T>, a: T, b: T)
    ensures s + [a] + [b] == s + [a, b]
  {
  }

  /** Marking a job as processing first leaves no trace once it has finished. */
  lemma FinishedAfterStart(m: map<string, Job>, id: string, failure: Option<string>)
    requires id in m
    ensures var started := m[id := m[id].(status := Processing, error := None)];
      started[id := started[id].(status := StatusAfter(failure), error := failure)] == Finished(m, id, failure)
  {
  }

  /** The in-memory job store of the service. */
  class JobStore {
    const uploadDir: string
    const outputDir: string
    var jobs: map<string, Job>
    /** Every status write, oldest first. */
    ghost var history: seq<StatusEvent>

    /** A job carries an error exactly when it failed, and its output lies in the output directory under an `_ocr.pdf` name. */
    predicate WellFormed(j: Job) {
      && (j.error.Some? <==> j.status == Error)
      && j.outputPath == outputDir + "/" + j.outputName
      && EndsWith(j.outputName, "_ocr.pdf")
    }

    /** Every job is well formed, and its status is the last one written for it. */
    ghost predicate Valid()
      reads this
    {
      forall id :: id in jobs ==> WellFormed(jobs[id]) && LastStatus(history, id) == Some(jobs[id].status)
    }

    constructor (uploadDir: string, outputDir: string)
      ensures this.uploadDir == uploadDir && this.outputDir == outputDir
      ensures jobs == map[] && history == []
      ensures Valid()
    {
      this.uploadDir := uploadDir;
      this.outputDir := outputDir;
      jobs := map[];
      history := [];
    }

    /**
     * `POST /api/upload`: a name not ending in `.pdf` is refused with 400,
     * then a body over 200 MiB with 413, in both cases with the store
     * unchanged; otherwise a queued job is added under the fresh `jobId`.
     */
    method Upload(jobId: string, filename: string, contentLength: nat, form: Form)
      returns (reply: UploadReply, task: Option<OcrTask>)
      requires Valid()
      requires jobId !in jobs
      modifies this
      ensures Valid()
      ensures !IsPdfName(filename) ==> reply == Rejected(400, "Only PDF files are accepted.")
      ensures IsPdfName(filename) && contentLength > MaxUploadBytes ==> reply == Rejected(413, "File exceeds 200 MB limit.")
      ensures reply.Accepted? <==> IsPdfName(filename) && contentLength <= MaxUploadBytes
      ensures reply.Rejected? ==> task == None && jobs == old(jobs) && history == old(history)
      ensures reply.Accepted? ==>
        var safe := SafeName(filename);
        var output := outputDir + "/" + OutputName(safe);
        && reply == Accepted(jobId, filename)
        && task == Some(OcrTask(uploadDir + "/" + InputName(jobId, safe), output, FormOptions(form)))
        && jobs == old(jobs)[jobId := Job(Queued, filename, OutputName(safe), output, None)]
        && history == old(history) + [StatusSet(jobId, Queued)]
    {
      if !IsPdfName(filename) {
        return Rejected(400, "Only PDF files are accepted."), None;
      }
      var safe := SafeName(filename);
      var inputPath := uploadDir + "/" + InputName(jobId, safe);
      var outputName := OutputName(safe);
      var outputPath := outputDir + "/" + outputName;
      if contentLength > MaxUploadBytes {
        return Rejected(413, "File exceeds 200 MB limit."), None;
      }
      var options := FormOptions(form);
      OutputNameDecodes(safe);
      jobs := jobs[jobId := Job(Queued, filename, outputName, outputPath, None)];
      history := history + [StatusSet(jobId, Queued)];
      reply := Accepted(jobId, filename);
      task := Some(OcrTask(inputPath, outputPath, options));
    }

    /**
     * Writes `jobs[job_id]["status"]`, and the error text with it: the one
     * job changes and the write is recorded.
     */
    method SetStatus(jobId: string, status: Status, error: Option<string>)
      requires Valid()
      requires jobId in jobs
      requires error.Some? <==> status == Error
      modifies this
      ensures Valid()
      ensures jobs == old(jobs)[jobId := old(jobs)[jobId].(status := status, error := error)]
      ensures history == old(history) + [StatusSet(jobId, status)]
    {
      jobs := jobs[jobId := jobs[jobId].(status := status, error := error)];
      history := history + [StatusSet(jobId, status)];
    }

    /**
     * `run_ocr`: the job goes to "processing", then to "done" when the
     * keyword arguments could be built and the library returned, and to
     * "error" with the exception's text otherwise. No other job changes.
     */
    method RunOcr(jobId: string, task: OcrTask, library: LibraryOutcome) returns (call: Option<OcrCall>)
      requires Valid()
      requires jobId in jobs && jobs[jobId].status == Queued
      modifies this
      ensures Valid()
      ensures jobs == Finished(old(jobs), jobId, RunFailure(task.options, library))
      ensures history == old(history) + [StatusSet(jobId, Processing), StatusSet(jobId, StatusAfter(RunFailure(task.options, library)))]
      ensures call.Some? <==> IntFromString(task.options.optimize).Ok?
      ensures call.Some? ==> IsCallFor(task, IntFromString(task.options.optimize).value, call.value)
    {
      ghost var before, events := jobs, history;
      SetStatus(jobId, Processing, None);
      var failure;
      call, failure := TryOcr(task, library);
      SetStatus(jobId, StatusAfter(failure), failure);
      FinishedAfterStart(before, jobId, failure);
      AppendTwo(events, StatusSet(jobId, Processing), StatusSet(jobId, StatusAfter(failure)));
    }

    /** `GET /api/status/{job_id}`: 404 for an unknown job, otherwise its status, file name and error. */
    function JobStatus(jobId: string): (r: StatusReply)
      reads this
      ensures r.StatusError? <==> jobId !in jobs
      ensures r.StatusError? ==> r == StatusError(404, "Job not found.")
      ensures r.StatusBody? ==>
        && r.jobId == jobId && r.status == StatusText(jobs[jobId].status)
        && r.filename == jobs[jobId].filename && r.error == jobs[jobId].error
    {
      if jobId !in jobs then StatusError(404, "Job not found.")
      else
        var job := jobs[jobId];
        StatusBody(jobId, StatusText(job.status), job.filename, job.error)
    }

    /**
     * `GET /api/download/{job_id}`: 404 for an unknown job, 400 for a job
     * that is not done, 404 when its output file is missing (`outputExists`
     * is the file system's answer), otherwise the PDF under its output name.
     * The name goes into the `Content-Disposition` header, whose encoding to
     * Latin-1 raises for any other character, and the server then answers 500.
     */
    function Download(jobId: string, outputExists: bool): (r: DownloadReply)
      reads this
      ensures jobId !in jobs ==> r == DownloadError(404, "Job not found.")
      ensures jobId in jobs && jobs[jobId].status != Done ==> r == DownloadError(400, "Job not completed yet.")
      ensures jobId in jobs && jobs[jobId].status == Done && !outputExists ==> r == DownloadError(404, "Output file not found.")
      ensures jobId in jobs && jobs[jobId].status == Done && outputExists && !IsLatin1(jobs[jobId].outputName) ==>
        r == DownloadError(500, "Internal Server Error")
      ensures r.FileReply? <==>
        jobId in jobs && jobs[jobId].status == Done && outputExists && IsLatin1(jobs[jobId].outputName)
      ensures r.FileReply? ==>
        && r.path == jobs[jobId].outputPath && r.mediaType == "application/pdf"
        && r.filename == jobs[jobId].outputName
        && r.contentDisposition == "attachment; filename=\"" + jobs[jobId].outputName + "\""
    {
      if jobId !in jobs then DownloadError(404, "Job not found.")
      else
        var job := jobs[jobId];
        if job.status != Done then DownloadError(400, "Job not completed yet.")
        else if !outputExists then DownloadError(404, "Output file not found.")
        else if !IsLatin1(job.outputName) then DownloadError(500, "Internal Server Error")
        else FileReply(job.outputPath, "application/pdf", job.outputName,
                       "attachment; filename=\"" + job.outputName + "\"")
    }
  }

  // ---------------------------------------------------------------------------
  // Whole requests against a fresh service

  /**
   * An accepted upload is reported as queued with no error and cannot be
   * downloaded yet; after its run the status is "done" or "error", and the
   * download succeeds exactly when the optimize level parsed, the library
   * returned, the output file exists and the safe name is all Latin-1.
   */
  method UploadAndRun(
    uploadDir: string, outputDir: string, jobId: string, filename: string, contentLength: nat,
    form: Form, library: LibraryOutcome, outputExists: bool)
    returns (queued: StatusReply, early: DownloadReply, finished: StatusReply, download: DownloadReply)
    requires IsPdfName(filename) && contentLength <= MaxUploadBytes
    ensures queued == StatusBody(jobId, "queued", filename, None)
    ensures early == DownloadError(400, "Job not completed yet.")
    ensures finished.StatusBody? && (finished.status == "done" || finished.status == "error")
    ensures finished.status == "error" <==> finished.error.Some?
    ensures download.FileReply? <==>
      IntFromString(FormOptions(form).optimize).Ok? && library.Returned? && outputExists
      && IsLatin1(SafeName(filename))
    ensures download.FileReply? ==>
      download.filename == OutputName(SafeName(filename))
      && download.path == outputDir + "/" + OutputName(SafeName(filename))
  {
    var store := new JobStore(uploadDir, outputDir);
    var reply, task := store.Upload(jobId, filename, contentLength, form);
    queued := store.JobStatus(jobId);
    early := store.Download(jobId, outputExists);
    var _ := store.RunOcr(jobId, task.value, library);
    finished := store.JobStatus(jobId);
    download := store.Download(jobId, outputExists);
    OutputNameLatin1(SafeName(filename));
  }

  /** A refused upload leaves no job behind: its id stays unknown to status and download. */
  method RejectedUpload(
    uploadDir: string, outputDir: string, jobId: string, filename: string, contentLength: nat, form: Form)
    returns (reply: UploadReply, status: StatusReply, download: DownloadReply)
    requires !IsPdfName(filename) || contentLength > MaxUploadBytes
    ensures reply.Rejected? && (reply.code == 400 || reply.code == 413)
    ensures status == StatusError(404, "Job not found.")
    ensures download == DownloadError(404, "Job not found.")
  {
    var store := new JobStore(uploadDir, outputDir);
    var task;
    reply, task := store.Upload(jobId, filename, contentLength, form);
    status := store.JobStatus(jobId);
    download := store.Download(jobId, true);
  }

  /** Two uploads whose names give the same safe name share one output path, so the later run overwrites the earlier result. */
  method SameSafeNameSharesOutput(
    uploadDir: string, outputDir: string, id1: string, name1: string, id2: string, name2: string, form: Form)
    returns (first: Job, second: Job)
    requires id1 != id2
    requires IsPdfName(name1) && IsPdfName(name2) && SafeName(name1) == SafeName(name2)
    ensures first.outputPath == second.outputPath && first.outputName == second.outputName
  {
    var store := new JobStore(uploadDir, outputDir);
    var r1, t1 := store.Upload(id1, name1, 0, form);
    var r2, t2 := store.Upload(id2, name2, 0, form);
    first, second := store.jobs[id1], store.jobs[id2];
  }
}
