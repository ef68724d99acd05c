/**
 * The job records of main.py: the upload filter, the record `handle_upload`
 * creates, the field-by-field updates of the `apply_edge_detection` worker,
 * and the answers of `get_job_status`, `download_result` and `list_jobs`.
 *
 * The `jobs` dictionary is a `JobStore` object. Keys of a job record that
 * the source adds later (`result_path`, `completed_at`, `error`) are
 * `Option`s, and a lookup of a key that is not there, which raises
 * `KeyError` and makes the web server answer 500, is an explicit
 * `InternalError` reply. The clock, the random job id, `secure_filename`,
 * the file system and the image library calls are parameters.
 */
module Jobs {
  import opened Results
  import opened PyText

  // ---------------------------------------------------------------------
  // The upload filter

  const AllowedExtensions: set<string> := {"png", "jpg", "jpeg", "gif", "bmp", "tiff"}

  /** `str.lower` on the characters that can matter here (see the README). */
  function LowerChar(c: char): char {
    if 'A' <= c <= 'Z' then (c as int + 32) as char else c
  }

  function Lower(s: string): (r: string)
    ensures |r| == |s| && forall i :: 0 <= i < |s| ==> r[i] == LowerChar(s[i])
  {
    if s == [] then [] else [LowerChar(s[0])] + Lower(s[1..])
  }

  /** `allowed_file`: a dot, and a known extension after the last dot in any letter case. */
  predicate AllowedFile(filename: string) {
    '.' in filename && Lower(LastPiece(filename)) in AllowedExtensions
  }

  /** `filename.rsplit('.', 1)[1]` for a name with a dot: the text after the last dot. */
  function LastPiece(filename: string): string {
    var parts := Split(filename, '.');
    parts[|parts| - 1]
  }

  /** A name is allowed exactly when the text after its last dot is a known extension. */
  lemma AllowedFileExtension(stem: string, ext: string)
    requires '.' !in ext
    ensures AllowedFile(stem + ['.'] + ext) <==> Lower(ext) in AllowedExtensions
  {
    var name := stem + ['.'] + ext;
    assert '.' in name by {
      assert name[|stem|] == '.';
    }
    assert LastPiece(name) == ext by {
      SplitLast(stem, '.', ext);
    }
  }

  /** Without a dot nothing is allowed, not even a bare extension such as `png`. */
  lemma AllowedFileNeedsDot(filename: string)
    requires '.' !in filename
    ensures !AllowedFile(filename)
  {
  }

  /** The letter case of the extension does not matter. */
  lemma AllowedFileIgnoresCase(stem: string, ext: string, ext': string)
    requires '.' !in ext && '.' !in ext' && Lower(ext) == Lower(ext')
    ensures AllowedFile(stem + ['.'] + ext) <==> AllowedFile(stem + ['.'] + ext')
  {
    AllowedFileExtension(stem, ext);
    AllowedFileExtension(stem, ext');
  }

  /** A name ending in a dot has an empty extension and is refused. */
  lemma AllowedFileTrailingDot(stem: string)
    ensures !AllowedFile(stem + ['.'])
  {
    AllowedFileExtension(stem, []);
    assert stem + ['.'] + [] == stem + ['.'];
  }

  // ---------------------------------------------------------------------
  // Job records

  datatype Status = Queued | Processing | Completed | Failed

  datatype Job = Job(
    id: string,
    status: Status,
    progress: nat,
    createdAt: string,
    originalFilename: string,
    inputPath: string,
    outputPath: string,
    resultPath: Option<string>,
    completedAt: Option<string>,
    error: Option<string>)

  /** The keys a finished record must hold for the read side to answer without a `KeyError`. */
  predicate WellFormed(job: Job) {
    && job.progress <= 100
    && (job.status == Completed ==> job.resultPath.Some? && job.completedAt.Some?)
    && (job.status == Failed ==> job.error.Some? && job.completedAt.Some?)
  }

  /** The record `handle_upload` creates (main.py:93-108). */
  function NewJob(jobId: string, filename: string, now: string): (job: Job)
    ensures job.id == jobId && job.status == Queued && job.progress == 0 && job.createdAt == now
    ensures job.originalFilename == filename
    ensures job.inputPath == "uploads/" + jobId + "_" + filename
    ensures job.outputPath == "processed/" + jobId + "_edges_" + filename
    ensures job.resultPath.None? && job.completedAt.None? && job.error.None?
    ensures WellFormed(job)
  {
    Job(jobId, Queued, 0, now, filename,
      "uploads/" + jobId + "_" + filename, "processed/" + jobId + "_edges_" + filename,
      None, None, None)
  }

  // ---------------------------------------------------------------------
  // The worker

  /** One assignment to one key of a job record. */
  datatype Write =
    | SetStatus(status: Status)
    | SetProgress(progress: nat)
    | SetResultPath(path: string)
    | SetCompletedAt(time: string)
    | SetError(message: string)

  function Apply(job: Job, w: Write): Job {
    match w
    case SetStatus(s) => job.(status := s)
    case SetProgress(p) => job.(progress := p)
    case SetResultPath(path) => job.(resultPath := Some(path))
    case SetCompletedAt(t) => job.(completedAt := Some(t))
    case SetError(m) => job.(error := Some(m))
  }

  /** The record after the writes `ws`, in order. */
  function ApplyAll(job: Job, ws: seq<Write>): Job {
    if ws == [] then job else Apply(ApplyAll(job, ws[..|ws| - 1]), ws[|ws| - 1])
  }

  /** The record as it stands after each of the writes: what a concurrent poll can observe. */
  function Snapshots(job: Job, ws: seq<Write>): (snaps: seq<Job>)
    ensures |snaps| == |ws|
  {
    if ws == [] then [] else Snapshots(job, ws[..|ws| - 1]) + [ApplyAll(job, ws)]
  }

  /** The library step that can raise inside the worker's `try`. */
  datatype Stage = LoadLibrary | ReadImage | DetectEdges | WriteImage

  /**
   * Where the worker fails: `imread` returning `None`, which the worker turns
   * into an exception of its own, or an exception raised by a library step.
   */
  datatype Fault = ImageUnreadable | Raised(stage: Stage, message: string)

  const UnreadableMessage := "Could not read the image file."

  function StageOf(f: Fault): Stage {
    match f
    case ImageUnreadable => ReadImage
    case Raised(stage, _) => stage
  }

  /** `str(e)` for the exception the worker catches. */
  function MessageOf(f: Fault): string {
    match f
    case ImageUnreadable => UnreadableMessage
    case Raised(_, message) => message
  }

  /** The message of the exception raised at `stage`, if the run fails there. */
  function RaisedAt(fault: Option<Fault>, stage: Stage): Option<string> {
    if fault.Some? && StageOf(fault.value) == stage then Some(MessageOf(fault.value)) else None
  }

  /** The progress values the worker writes before a failure at `stage`. */
  function CheckpointsBefore(stage: Stage): seq<nat> {
    match stage
    case LoadLibrary => [10]
    case ReadImage => [10]
    case DetectEdges => [10, 30]
    case WriteImage => [10, 30, 50]
  }

  const Checkpoints: seq<nat> := [10, 30, 50, 80, 100]

  function ProgressWrites(ps: seq<nat>): (ws: seq<Write>)
    ensures |ws| == |ps| && forall i :: 0 <= i < |ps| ==> ws[i] == SetProgress(ps[i])
  {
    if ps == [] then [] else [SetProgress(ps[0])] + ProgressWrites(ps[1..])
  }

  /** The writes `apply_edge_detection` makes (main.py:39-70), for a run that ends as `fault` says. */
  function WorkerWrites(fault: Option<Fault>, outputPath: string, now: string): seq<Write> {
    match fault
    case None =>
      [SetStatus(Processing)] + ProgressWrites(Checkpoints)
      + [SetStatus(Completed), SetResultPath(outputPath), SetCompletedAt(now)]
    case Some(f) =>
      [SetStatus(Processing)] + ProgressWrites(CheckpointsBefore(StageOf(f)))
      + [SetStatus(Failed), SetError(MessageOf(f)), SetCompletedAt(now)]
  }

  /** The progress values among some writes, in the order they are written. */
  function ProgressValues(ws: seq<Write>): seq<nat> {
    if ws == [] then []
    else (if ws[0].SetProgress? then [ws[0].progress] else []) + ProgressValues(ws[1..])
  }

  lemma {:induction false} ProgressValuesAppend(a: seq<Write>, b: seq<Write>)
    ensures ProgressValues(a + b) == ProgressValues(a) + ProgressValues(b)
  {
    if a != [] {
      assert (a + b)[1..] == a[1..] + b;
      ProgressValuesAppend(a[1..], b);
    } else {
      assert a + b == b;
    }
  }

  lemma {:induction false} NoProgressValues(ws: seq<Write>)
    requires forall i :: 0 <= i < |ws| ==> !ws[i].SetProgress?
    ensures ProgressValues(ws) == []
  {
    if ws != [] {
      NoProgressValues(ws[1..]);
    }
  }

  lemma {:induction false} ProgressValuesOfCheckpoints(ps: seq<nat>)
    ensures ProgressValues(ProgressWrites(ps)) == ps
  {
    if ps != [] {
      assert ProgressWrites(ps)[1..] == ProgressWrites(ps[1..]);
      ProgressValuesOfCheckpoints(ps[1..]);
    }
  }

  /** The progress values a run writes: all checkpoints on success, those before the failing step otherwise. */
  lemma WorkerProgressValues(fault: Option<Fault>, outputPath: string, now: string)
    ensures ProgressValues(WorkerWrites(fault, outputPath, now))
      == if fault.None? then Checkpoints else CheckpointsBefore(StageOf(fault.value))
  {
    var ps := if fault.None? then Checkpoints else CheckpointsBefore(StageOf(fault.value));
    var tail := if fault.None? then [SetStatus(Completed), SetResultPath(outputPath), SetCompletedAt(now)]
      else [SetStatus(Failed), SetError(MessageOf(fault.value)), SetCompletedAt(now)];
    assert WorkerWrites(fault, outputPath, now) == [SetStatus(Processing)] + ProgressWrites(ps) + tail;
    ProgressValuesAppend([SetStatus(Processing)] + ProgressWrites(ps), tail);
    ProgressValuesAppend([SetStatus(Processing)], ProgressWrites(ps));
    ProgressValuesOfCheckpoints(ps);
    NoProgressValues([SetStatus(Processing)]);
    NoProgressValues(tail);
  }

  /**
   * Progress only rises: the values a run writes are a prefix of
   * 10, 30, 50, 80, 100, each larger than the one before.
   */
  lemma WorkerProgressRises(fault: Option<Fault>, outputPath: string, now: string)
    ensures var pv := ProgressValues(WorkerWrites(fault, outputPath, now));
      && pv <= Checkpoints
      && forall i, j :: 0 <= i < j < |pv| ==> pv[i] < pv[j]
  {
    var pv := ProgressValues(WorkerWrites(fault, outputPath, now));
    WorkerProgressValues(fault, outputPath, now);
    assert pv <= Checkpoints by {
      if fault.Some? {
        match StageOf(fault.value)
        case LoadLibrary =>
        case ReadImage =>
        case DetectEdges =>
        case WriteImage =>
      }
    }
    forall i, j | 0 <= i < j < |pv|
      ensures pv[i] < pv[j]
    {
      assert pv[i] == Checkpoints[i] && pv[j] == Checkpoints[j];
    }
  }

  /** Every run starts by setting the status and the first checkpoint. */
  lemma WorkerWritesStart(fault: Option<Fault>, outputPath: string, now: string)
    ensures var ws := WorkerWrites(fault, outputPath, now);
      && |ws| >= 5 && ws[0] == SetStatus(Processing) && ws[1] == SetProgress(10)
      && (fault.None? || StageOf(fault.value) in {DetectEdges, WriteImage} ==> ws[2] == SetProgress(30))
      && (fault.None? || StageOf(fault.value) == WriteImage ==> ws[3] == SetProgress(50))
  {
  }

  /** A successful run: all checkpoints, then the status, the result path and the time. */
  lemma WorkerWritesSuccess(outputPath: string, now: string)
    ensures var ws := WorkerWrites(None, outputPath, now);
      && |ws| == 9
      && ws[2] == SetProgress(30) && ws[3] == SetProgress(50) && ws[4] == SetProgress(80) && ws[5] == SetProgress(100)
      && ws[6] == SetStatus(Completed) && ws[7] == SetResultPath(outputPath) && ws[8] == SetCompletedAt(now)
  {
  }

  /** A failed run: the checkpoints before the failing step, then the status, the message and the time. */
  lemma WorkerWritesFailure(f: Fault, outputPath: string, now: string)
    ensures var ws := WorkerWrites(Some(f), outputPath, now);
      var reached := CheckpointsBefore(StageOf(f));
      var n := |reached| + 1;
      && |ws| == n + 3
      && (forall i :: 1 <= i < n ==> ws[i] == SetProgress(reached[i - 1]))
      && ws[n] == SetStatus(Failed) && ws[n + 1] == SetError(MessageOf(f)) && ws[n + 2] == SetCompletedAt(now)
  {
  }

  lemma {:induction false} ApplyAllAppend(job: Job, a: seq<Write>, b: seq<Write>)
    ensures ApplyAll(job, a + b) == ApplyAll(ApplyAll(job, a), b)
    decreases |b|
  {
    if b == [] {
      assert a + b == a;
    } else {
      assert (a + b)[..|a + b| - 1] == a + b[..|b| - 1];
      ApplyAllAppend(job, a, b[..|b| - 1]);
    }
  }

  /** Progress writes move the record's progress and touch nothing else. */
  lemma {:induction false} ApplyProgressWrites(job: Job, ps: seq<nat>)
    requires ps != []
    ensures ApplyAll(job, ProgressWrites(ps)) == job.(progress := ps[|ps| - 1])
    decreases |ps|
  {
    var ws := ProgressWrites(ps);
    if |ps| > 1 {
      assert ws[..|ws| - 1] == ProgressWrites(ps[..|ps| - 1]);
      ApplyProgressWrites(job, ps[..|ps| - 1]);
    } else {
      assert ws[..0] == [];
    }
  }

  lemma ApplyAllSingle(job: Job, w: Write)
    ensures ApplyAll(job, [w]) == Apply(job, w)
  {
    assert [w][..0] == [];
  }

  lemma ApplyAllThree(job: Job, a: Write, b: Write, c: Write)
    ensures ApplyAll(job, [a, b, c]) == Apply(Apply(Apply(job, a), b), c)
  {
    assert [a, b, c][..2] == [a, b];
    assert [a, b][..1] == [a];
    ApplyAllSingle(job, a);
  }

  /** Setting the status, then the progress checkpoints, then three more keys. */
  lemma ApplyWorkerShape(job: Job, ps: seq<nat>, a: Write, b: Write, c: Write)
    requires ps != []
    ensures ApplyAll(job, [SetStatus(Processing)] + ProgressWrites(ps) + [a, b, c])
      == Apply(Apply(Apply(job.(status := Processing, progress := ps[|ps| - 1]), a), b), c)
  {
    ApplyAllAppend(job, [SetStatus(Processing)] + ProgressWrites(ps), [a, b, c]);
    ApplyAllAppend(job, [SetStatus(Processing)], ProgressWrites(ps));
    ApplyAllSingle(job, SetStatus(Processing));
    ApplyProgressWrites(job.(status := Processing), ps);
    ApplyAllThree(ApplyAll(job, [SetStatus(Processing)] + ProgressWrites(ps)), a, b, c);
  }

  /** A successful run ends `completed` at 100 with the result path and completion time set. */
  lemma WorkerSucceeds(job: Job, outputPath: string, now: string)
    ensures var done := ApplyAll(job, WorkerWrites(None, outputPath, now));
      && done == job.(status := Completed, progress := 100, resultPath := Some(outputPath), completedAt := Some(now))
      && WellFormed(done)
  {
    ApplyWorkerShape(job, Checkpoints, SetStatus(Completed), SetResultPath(outputPath), SetCompletedAt(now));
  }

  /** The last checkpoint a run reaches before failing at `stage`. */
  function ProgressAtFailure(stage: Stage): nat {
    var reached := CheckpointsBefore(stage);
    reached[|reached| - 1]
  }

  /**
   * A failed run ends `failed` with the exception's message and a completion
   * time; progress stays at the last checkpoint reached and no result path is set.
   */
  lemma WorkerFails(job: Job, f: Fault, outputPath: string, now: string)
    ensures var done := ApplyAll(job, WorkerWrites(Some(f), outputPath, now));
      && done == job.(status := Failed, progress := ProgressAtFailure(StageOf(f)), error := Some(MessageOf(f)), completedAt := Some(now))
      && WellFormed(done)
  {
    ApplyWorkerShape(job, CheckpointsBefore(StageOf(f)), SetStatus(Failed), SetError(MessageOf(f)), SetCompletedAt(now));
  }

  // ---------------------------------------------------------------------
  // The read side

  datatype StatusBody = StatusBody(
    jobId: string,
    status: Status,
    progress: nat,
    createdAt: string,
    downloadUrl: Option<string>,
    completedAt: Option<string>,
    error: Option<string>)

  datatype StatusReply =
    | StatusNotFound
    | StatusReport(body: StatusBody)
    | StatusInternalError
  {
    function Code(): int {
      match this
      case StatusNotFound => 404
      case StatusReport(_) => 200
      case StatusInternalError => 500
    }
  }

  function DownloadUrl(jobId: string): string {
    "/jobs/" + jobId + "/download"
  }

  /** `get_job_status` (main.py:122-142). */
  function GetJobStatus(jobs: map<string, Job>, jobId: string): (r: StatusReply)
    ensures r.StatusNotFound? <==> jobId !in jobs
    ensures r.StatusReport? ==>
      && jobId in jobs && r.body.jobId == jobId
      && r.body.status == jobs[jobId].status && r.body.progress == jobs[jobId].progress
      && (r.body.downloadUrl.Some? <==> r.body.status == Completed)
      && (r.body.error.Some? <==> r.body.status == Failed)
      && (r.body.completedAt.Some? <==> r.body.status in {Completed, Failed})
  {
    if jobId !in jobs then StatusNotFound
    else
      var job := jobs[jobId];
      var base := StatusBody(jobId, job.status, job.progress, job.createdAt, None, None, None);
      match job.status
      case Completed =>
        if job.completedAt.None? then StatusInternalError
        else StatusReport(base.(downloadUrl := Some(DownloadUrl(jobId)), completedAt := job.completedAt))
      case Failed =>
        if job.error.None? || job.completedAt.None? then StatusInternalError
        else StatusReport(base.(error := job.error, completedAt := job.completedAt))
      case _ => StatusReport(base)
  }

  /** A well-formed record is always reported, never answered with 500. */
  lemma StatusOfWellFormed(jobs: map<string, Job>, jobId: string)
    requires jobId in jobs && WellFormed(jobs[jobId])
    ensures GetJobStatus(jobs, jobId).StatusReport?
    ensures GetJobStatus(jobs, jobId).body.downloadUrl == if jobs[jobId].status == Completed then Some(DownloadUrl(jobId)) else None
    ensures GetJobStatus(jobs, jobId).body.error == if jobs[jobId].status == Failed then jobs[jobId].error else None
  {
  }

  /** The k-th snapshot is the record after the first k + 1 writes. */
  lemma {:induction false} SnapshotAt(job: Job, ws: seq<Write>, k: nat)
    requires k < |ws|
    ensures Snapshots(job, ws)[k] == ApplyAll(job, ws[..k + 1])
    decreases |ws|
  {
    if k < |ws| - 1 {
      SnapshotAt(job, ws[..|ws| - 1], k);
      assert ws[..|ws| - 1][..k + 1] == ws[..k + 1];
    } else {
      assert ws[..k + 1] == ws;
    }
  }

  /** The state after the seventh write of a successful run: completed, with no completion time yet. */
  lemma CompletedSnapshot(job: Job, outputPath: string, now: string)
    requires job.completedAt.None?
    ensures var snaps := Snapshots(job, WorkerWrites(None, outputPath, now));
      |snaps| == 9 && snaps[6].status == Completed && snaps[6].completedAt.None?
  {
    var ws := WorkerWrites(None, outputPath, now);
    SnapshotAt(job, ws, 6);
    var ps := ProgressWrites(Checkpoints);
    assert ws[..7] == [SetStatus(Processing)] + ps + [SetStatus(Completed)];
    ApplyAllAppend(job, [SetStatus(Processing)] + ps, [SetStatus(Completed)]);
    ApplyAllSingle(ApplyAll(job, [SetStatus(Processing)] + ps), SetStatus(Completed));
    ApplyAllAppend(job, [SetStatus(Processing)], ps);
    ApplyAllSingle(job, SetStatus(Processing));
    ApplyProgressWrites(job.(status := Processing), Checkpoints);
  }

  /**
   * The worker sets `status` before `completed_at`: a poll between those two
   * writes of a fresh job finds `completed` without `completed_at` and gets 500.
   */
  lemma CompletedBeforeTimestamp(job: Job, outputPath: string, now: string)
    requires job.completedAt.None?
    ensures var snaps := Snapshots(job, WorkerWrites(None, outputPath, now));
      && |snaps| == 9 && snaps[6].status == Completed && snaps[6].completedAt.None?
      && GetJobStatus(map[job.id := snaps[6]], job.id) == StatusInternalError
  {
    CompletedSnapshot(job, outputPath, now);
  }

  datatype DownloadReply =
    | DownloadNotFound(message: string)
    | NotCompleted
    | DownloadInternalError
    | SendFile(path: string, downloadName: string)
  {
    function Code(): int {
      match this
      case DownloadNotFound(_) => 404
      case NotCompleted => 400
      case DownloadInternalError => 500
      case SendFile(_, _) => 200
    }
  }

  /** `download_result` (main.py:145-161), given the set of files that exist. */
  function DownloadResult(jobs: map<string, Job>, jobId: string, files: set<string>): (r: DownloadReply)
    ensures jobId !in jobs ==> r == DownloadNotFound("Job not found")
    ensures jobId in jobs && jobs[jobId].status != Completed ==> r == NotCompleted
    ensures r.SendFile? ==>
      && jobId in jobs && jobs[jobId].status == Completed
      && jobs[jobId].resultPath == Some(r.path) && r.path in files
      && r.downloadName == "edges_" + jobs[jobId].originalFilename
  {
    if jobId !in jobs then DownloadNotFound("Job not found")
    else
      var job := jobs[jobId];
      if job.status != Completed then NotCompleted
      else if job.resultPath.None? then DownloadInternalError
      else if job.resultPath.value !in files then DownloadNotFound("Processed file not found")
      else SendFile(job.resultPath.value, "edges_" + job.originalFilename)
  }

  /** A completed, well-formed job is served exactly when its result file exists. */
  lemma DownloadOfCompleted(jobs: map<string, Job>, jobId: string, files: set<string>)
    requires jobId in jobs && jobs[jobId].status == Completed && WellFormed(jobs[jobId])
    ensures DownloadResult(jobs, jobId, files).SendFile? <==> jobs[jobId].resultPath.value in files
    ensures jobs[jobId].resultPath.value !in files ==>
      DownloadResult(jobs, jobId, files) == DownloadNotFound("Processed file not found")
  {
  }

  datatype Summary = Summary(jobId: string, status: Status, progress: nat, createdAt: string, originalFilename: string)

  function Summarize(jobId: string, job: Job): Summary {
    Summary(jobId, job.status, job.progress, job.createdAt, job.originalFilename)
  }

  // ---------------------------------------------------------------------
  // Uploads

  /** The part of the request `handle_upload` looks at: the name of the `file` field. */
  datatype Upload = Upload(filename: string)

  datatype UploadReply =
    | Rejected(message: string)
    | Accepted(jobId: string)
  {
    function Code(): int {
      match this
      case Rejected(_) => 400
      case Accepted(_) => 202
    }
  }

  /** The reason `handle_upload` refuses a request (main.py:80-88), if it does. */
  function UploadRefusal(upload: Option<Upload>): (r: Option<string>)
    ensures r.None? <==> upload.Some? && upload.value.filename != [] && AllowedFile(upload.value.filename)
  {
    if upload.None? then Some("No file provided")
    else if upload.value.filename == [] then Some("No file selected")
    else if !AllowedFile(upload.value.filename) then Some("File type not allowed")
    else None
  }

  /** The worker the upload starts: its input, the result path it is given, and its job. */
  datatype WorkerCall = WorkerCall(inputPath: string, outputPath: string, jobId: string)

  /** The result path `handle_upload` hands the worker in place of the job's `output_path` (main.py:111). */
  const PlaceholderOutput := "exampleout.jpg"

  // ---------------------------------------------------------------------
  // The job table

  class JobStore {
    /** The `jobs` dictionary. */
    var jobs: map<string, Job>
    /** The dictionary's insertion order, which `list_jobs` follows. */
    var order: seq<string>
    /** Every state of a record the worker has produced, in order. */
    ghost var observed: seq<Job>

    ghost predicate Valid()
      reads this
    {
      && (forall k :: k in order <==> k in jobs)
      && (forall i, j :: 0 <= i < j < |order| ==> order[i] != order[j])
    }

    constructor ()
      ensures jobs == map[] && order == [] && observed == [] && Valid()
    {
      jobs := map[];
      order := [];
      observed := [];
    }

    /**
     * `handle_upload` (main.py:78-119) with the job id, the clock and
     * `secure_filename` as parameters. A refused request changes nothing; an
     * accepted one stores a fresh record under the id (replacing one with the
     * same id, as a dictionary assignment does) and starts the worker on the
     * placeholder result path.
     */
    method HandleUpload(upload: Option<Upload>, jobId: string, now: string, secureFilename: string -> string)
      returns (reply: UploadReply, worker: Option<WorkerCall>)
      requires Valid()
      modifies this
      ensures Valid() && observed == old(observed)
      ensures UploadRefusal(upload).Some? ==>
        reply == Rejected(UploadRefusal(upload).value) && worker.None?
        && jobs == old(jobs) && order == old(order)
      ensures UploadRefusal(upload).None? ==>
        var job := NewJob(jobId, secureFilename(upload.value.filename), now);
        && reply == Accepted(jobId)
        && jobs == old(jobs)[jobId := job]
        && order == (if jobId in old(jobs) then old(order) else old(order) + [jobId])
        && worker == Some(WorkerCall(job.inputPath, PlaceholderOutput, jobId))
    {
      var refusal := UploadRefusal(upload);
      if refusal.Some? {
        return Rejected(refusal.value), None;
      }
      var job := NewJob(jobId, secureFilename(upload.value.filename), now);
      if jobId !in jobs {
        order := order + [jobId];
      }
      jobs := jobs[jobId := job];
      reply := Accepted(jobId);
      worker := Some(WorkerCall(job.inputPath, PlaceholderOutput, jobId));
    }

    /**
     * The k-th of the writes `ws` to the record of `jobId`; a concurrent poll
     * can observe the record after it.
     */
    method Record(jobId: string, w: Write, ghost table: map<string, Job>, ghost log: seq<Job>, ghost ws: seq<Write>, ghost k: nat)
      requires Valid() && k < |ws| && ws[k] == w && jobId in table
      requires jobs == table[jobId := ApplyAll(table[jobId], ws[..k])]
      requires observed == log + Snapshots(table[jobId], ws[..k])
      modifies this
      ensures Valid() && order == old(order)
      ensures jobs == table[jobId := ApplyAll(table[jobId], ws[..k + 1])]
      ensures observed == log + Snapshots(table[jobId], ws[..k + 1])
    {
      assert ws[..k + 1][..k] == ws[..k];
      jobs := jobs[jobId := Apply(jobs[jobId], w)];
      observed := observed + [jobs[jobId]];
    }

    /**
     * `apply_edge_detection` (main.py:35-70), run to the end without
     * interleaving. The image steps are opaque: `fault` says which of them
     * fails, if any. Without a record for the id the first write raises
     * `KeyError` out of the thread and nothing changes.
     */
    method ApplyEdgeDetection(inputPath: string, outputPath: string, jobId: string, fault: Option<Fault>, now: string)
      requires Valid()
      modifies this
      ensures Valid() && order == old(order)
      ensures jobId !in old(jobs) ==> jobs == old(jobs) && observed == old(observed)
      ensures jobId in old(jobs) ==>
        var ws := WorkerWrites(fault, outputPath, now);
        && jobs == old(jobs)[jobId := ApplyAll(old(jobs)[jobId], ws)]
        && observed == old(observed) + Snapshots(old(jobs)[jobId], ws)
    {
      if jobId !in jobs {
        return;
      }
      ghost var table := jobs;
      ghost var log := observed;
      ghost var ws := WorkerWrites(fault, outputPath, now);
      WorkerWritesStart(fault, outputPath, now);
      assert ws[..0] == [];
      assert jobs == table[jobId := ApplyAll(table[jobId], ws[..0])];
      Record(jobId, SetStatus(Processing), table, log, ws, 0);
      Record(jobId, SetProgress(10), table, log, ws, 1);
      var raised := RaisedAt(fault, LoadLibrary);
      if raised.None? {
        raised := RaisedAt(fault, ReadImage);
      }
      if raised.Some? {
        RecordFailure(jobId, raised.value, now, table, log, fault.value, outputPath, 2);
      } else {
        RecordDetection(jobId, outputPath, fault, now, table, log);
      }
    }

    /** The worker past reading the image (main.py:49-65): detection, writing, and the result. */
    method RecordDetection(jobId: string, outputPath: string, fault: Option<Fault>, now: string,
                           ghost table: map<string, Job>, ghost log: seq<Job>)
      requires fault.None? || StageOf(fault.value) in {DetectEdges, WriteImage}
      requires Valid() && jobId in table
      requires var ws := WorkerWrites(fault, outputPath, now);
        && jobs == table[jobId := ApplyAll(table[jobId], ws[..2])]
        && observed == log + Snapshots(table[jobId], ws[..2])
      modifies this
      ensures Valid() && order == old(order)
      ensures var ws := WorkerWrites(fault, outputPath, now);
        && jobs == table[jobId := ApplyAll(table[jobId], ws)]
        && observed == log + Snapshots(table[jobId], ws)
    {
      ghost var ws := WorkerWrites(fault, outputPath, now);
      WorkerWritesStart(fault, outputPath, now);
      Record(jobId, SetProgress(30), table, log, ws, 2);
      var raised := RaisedAt(fault, DetectEdges);
      if raised.Some? {
        RecordFailure(jobId, raised.value, now, table, log, fault.value, outputPath, 3);
        return;
      }
      Record(jobId, SetProgress(50), table, log, ws, 3);
      raised := RaisedAt(fault, WriteImage);
      if raised.Some? {
        RecordFailure(jobId, raised.value, now, table, log, fault.value, outputPath, 4);
        return;
      }
      RecordSuccess(jobId, outputPath, now, table, log);
    }

    /** The end of a run without a fault (main.py:59-65): the last checkpoints and the result. */
    method RecordSuccess(jobId: string, outputPath: string, now: string, ghost table: map<string, Job>, ghost log: seq<Job>)
      requires Valid() && jobId in table
      requires var ws := WorkerWrites(None, outputPath, now);
        && jobs == table[jobId := ApplyAll(table[jobId], ws[..4])]
        && observed == log + Snapshots(table[jobId], ws[..4])
      modifies this
      ensures Valid() && order == old(order)
      ensures var ws := WorkerWrites(None, outputPath, now);
        && jobs == table[jobId := ApplyAll(table[jobId], ws)]
        && observed == log + Snapshots(table[jobId], ws)
    {
      ghost var ws := WorkerWrites(None, outputPath, now);
      WorkerWritesSuccess(outputPath, now);
      Record(jobId, SetProgress(80), table, log, ws, 4);
      Record(jobId, SetProgress(100), table, log, ws, 5);
      Record(jobId, SetStatus(Completed), table, log, ws, 6);
      Record(jobId, SetResultPath(outputPath), table, log, ws, 7);
      Record(jobId, SetCompletedAt(now), table, log, ws, 8);
      assert ws[..9] == ws;
    }

    /** The `except` block of the worker (main.py:67-70): the last three writes of a run that fails with `f`. */
    method RecordFailure(jobId: string, message: string, now: string, ghost table: map<string, Job>, ghost log: seq<Job>,
                         ghost f: Fault, ghost outputPath: string, ghost k: nat)
      requires message == MessageOf(f) && k == |CheckpointsBefore(StageOf(f))| + 1
      requires Valid() && jobId in table
      requires var ws := WorkerWrites(Some(f), outputPath, now);
        && jobs == table[jobId := ApplyAll(table[jobId], ws[..k])]
        && observed == log + Snapshots(table[jobId], ws[..k])
      modifies this
      ensures Valid() && order == old(order)
      ensures var ws := WorkerWrites(Some(f), outputPath, now);
        && jobs == table[jobId := ApplyAll(table[jobId], ws)]
        && observed == log + Snapshots(table[jobId], ws)
    {
      ghost var ws := WorkerWrites(Some(f), outputPath, now);
      WorkerWritesFailure(f, outputPath, now);
      Record(jobId, SetStatus(Failed), table, log, ws, k);
      Record(jobId, SetError(message), table, log, ws, k + 1);
      Record(jobId, SetCompletedAt(now), table, log, ws, k + 2);
      assert ws[..k + 3] == ws;
    }

    /** `list_jobs` (main.py:164-172): one summary per job, in insertion order. */
    function ListJobs(): (r: seq<Summary>)
      requires Valid()
      reads this
      ensures |r| == |order|
      ensures forall i :: 0 <= i < |r| ==> order[i] in jobs && r[i] == Summarize(order[i], jobs[order[i]])
    {
      Summaries(order, jobs)
    }
  }

  function Summaries(ids: seq<string>, jobs: map<string, Job>): (r: seq<Summary>)
    requires forall k :: k in ids ==> k in jobs
    ensures |r| == |ids|
    ensures forall i :: 0 <= i < |r| ==> r[i] == Summarize(ids[i], jobs[ids[i]])
  {
    if ids == [] then [] else [Summarize(ids[0], jobs[ids[0]])] + Summaries(ids[1..], jobs)
  }

  /** Every stored job is listed exactly once. */
  lemma ListedOnce(order: seq<string>, jobs: map<string, Job>, jobId: string)
    requires forall k :: k in order <==> k in jobs
    requires forall i, j :: 0 <= i < j < |order| ==> order[i] != order[j]
    requires jobId in jobs
    ensures exists i :: 0 <= i < |order| && Summaries(order, jobs)[i] == Summarize(jobId, jobs[jobId])
    ensures forall i, j :: 0 <= i < j < |order| ==> Summaries(order, jobs)[i].jobId != Summaries(order, jobs)[j].jobId
  {
    var i :| 0 <= i < |order| && order[i] == jobId;
    assert Summaries(order, jobs)[i] == Summarize(jobId, jobs[jobId]);
  }

  // ---------------------------------------------------------------------
  // An accepted upload followed by its worker

  /**
   * An accepted upload whose worker runs without a fault ends `completed`,
   * and its download serves the placeholder file, named after the upload.
   */
  lemma UploadThenDownload(jobs: map<string, Job>, upload: Upload, jobId: string, created: string,
                           finished: string, secureFilename: string -> string, files: set<string>)
    requires UploadRefusal(Some(upload)).None?
    requires PlaceholderOutput in files
    ensures var job := NewJob(jobId, secureFilename(upload.filename), created);
      var done := ApplyAll(job, WorkerWrites(None, PlaceholderOutput, finished));
      var after := jobs[jobId := done];
      && GetJobStatus(after, jobId).StatusReport?
      && GetJobStatus(after, jobId).body.downloadUrl == Some(DownloadUrl(jobId))
      && DownloadResult(after, jobId, files) == SendFile(PlaceholderOutput, "edges_" + secureFilename(upload.filename))
  {
    var job := NewJob(jobId, secureFilename(upload.filename), created);
    WorkerSucceeds(job, PlaceholderOutput, finished);
  }
}
