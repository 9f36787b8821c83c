/**
 * POST /combine of app.py: validate the request, resolve the title, download
 * the chosen format to a temporary file while the progress hook feeds the
 * progress store, then either re-encode into the public file or move the
 * temporary file onto it.
 *
 * The resolver, the downloader, ffprobe and ffmpeg are parameters: the
 * model sees only what they answer.
 */
module Combine {
  import opened Wrappers
  import opened Sanitize
  import opened Formats
  import opened Progress
  import opened Folder

  /** The JSON body of the request; absent keys are None. */
  datatype Request = Request(
    url: Option<string>,
    formatId: Option<string>,
    kind: Option<string>,
    compressTo: Option<int>)

  /** What one run of the downloader did: its hook calls, then the file, or None if it raised. */
  datatype Acquisition = Acquisition(events: seq<HookEvent>, content: Option<Bytes>)

  /**
   * What invoking the encoder did: it could not be started (the call
   * raises), or it ran and wrote the public file or nothing.
   */
  datatype EncodeOutcome = NotStarted | Ran(output: Option<Bytes>)

  /** The success response: where to fetch the file, and the job id for /progress. */
  datatype Job = Job(downloadUrl: string, id: string)

  datatype CombineError =
    | MissingParameters
    | ResolveFailed
    | DownloadFailed
    | ProbeFailed
    | EncodeFailed
    | PublishFailed

  const DefaultCeiling: int := 1080
  const DefaultTitle: string := "video"
  const MiB: nat := 1024 * 1024
  /** 100 MB as get_file_size_in_mb counts them, in bytes. */
  const TranscodeMinBytes: nat := 100 * MiB

  /** The names and options of one job, fixed before anything is downloaded. */
  datatype JobPlan = JobPlan(
    isVideo: bool,
    ext: string,
    temp: string,
    final: string,
    selector: string,
    ceiling: int)

  /** Both url and format_id must be present and non-empty. */
  predicate Complete(req: Request) {
    Present(req.url) && Present(req.formatId)
  }

  /** type defaults to "video"; any other value is handled as audio. */
  predicate WantsVideo(req: Request) {
    req.kind.GetOr("video") == "video"
  }

  /** The resolver's title, or "video" when it is missing or empty. */
  function TitleOf(info: Info): (title: string)
    ensures title != ""
    ensures Present(info.title) ==> title == info.title.value
    ensures !Present(info.title) ==> title == DefaultTitle
  {
    if Present(info.title) then info.title.value else DefaultTitle
  }

  function Extension(isVideo: bool): string {
    if isVideo then "mp4" else "mp3"
  }

  function TempName(jobId: string, ext: string): string {
    jobId + "_original." + ext
  }

  function FinalName(stem: string, ext: string): string {
    stem + "." + ext
  }

  /**
   * The downloader's format selector: a video format merged with the best
   * audio stream, falling back to the best single file; an audio format id
   * as it is.
   */
  function FormatSelector(formatId: string, isVideo: bool): (selector: string)
    ensures !isVideo ==> selector == formatId
    ensures isVideo ==> |selector| > |formatId| && selector[..|formatId|] == formatId
                        && selector[|formatId|..] == "+bestaudio/best"
  {
    if isVideo then formatId + "+bestaudio/best" else formatId
  }

  /**
   * The plan of a complete request: the public name comes from the
   * sanitised title and the extension alone, never from the job id, and it
   * cannot name a file outside the download directory.
   */
  function PlanJob(req: Request, info: Info, jobId: string): (plan: JobPlan)
    requires Complete(req)
    ensures plan.isVideo == WantsVideo(req)
    ensures plan.ext == (if WantsVideo(req) then "mp4" else "mp3")
    ensures plan.temp == TempName(jobId, plan.ext)
    ensures plan.selector == FormatSelector(req.formatId.value, plan.isVideo)
    ensures plan.ceiling == req.compressTo.GetOr(1080)
    ensures plan.final == SanitizeFilename(TitleOf(info)) + "." + plan.ext
    ensures forall i :: 0 <= i < |plan.final| ==> plan.final[i] != '/'
    ensures plan.temp == plan.final <==> SanitizeFilename(TitleOf(info)) == jobId + "_original"
  {
    var isVideo := WantsVideo(req);
    var ext := Extension(isVideo);
    var stem := SanitizeFilename(TitleOf(info));
    NamesCollide(jobId, stem, ext);
    FinalNameStaysInFolder(stem, ext);
    JobPlan(isVideo, ext, TempName(jobId, ext), FinalName(stem, ext),
            FormatSelector(req.formatId.value, isVideo), req.compressTo.GetOr(DefaultCeiling))
  }

  /** A name built from an allowed stem and extension has no path separator. */
  lemma FinalNameStaysInFolder(stem: string, ext: string)
    requires forall i :: 0 <= i < |stem| ==> Allowed(stem[i])
    requires ext in {"mp4", "mp3"}
    ensures forall i :: 0 <= i < |FinalName(stem, ext)| ==> FinalName(stem, ext)[i] != '/'
  {
    var name := FinalName(stem, ext);
    forall i | 0 <= i < |name| ensures name[i] != '/' {
      if i < |stem| {
        assert name[i] == stem[i];
      } else {
        assert name[i] == ("." + ext)[i - |stem|];
      }
    }
  }

  /** A common suffix can be cancelled. */
  lemma CancelSuffix(a: string, b: string, t: string)
    requires a + t == b + t
    ensures a == b
  {
    assert |a| == |b|;
    assert forall i :: 0 <= i < |a| ==> a[i] == (a + t)[i] && b[i] == (b + t)[i];
  }

  /**
   * The temporary and the public name coincide only for a title that
   * sanitises to the job id followed by "_original".
   */
  lemma NamesCollide(jobId: string, stem: string, ext: string)
    ensures TempName(jobId, ext) == FinalName(stem, ext) <==> stem == jobId + "_original"
  {
    var tail := "." + ext;
    assert TempName(jobId, ext) == (jobId + "_original") + tail;
    assert FinalName(stem, ext) == stem + tail;
    if TempName(jobId, ext) == FinalName(stem, ext) {
      CancelSuffix(jobId + "_original", stem, tail);
    }
  }

  /**
   * Re-encode iff the probed height exceeds the ceiling and the file is at
   * least 100 MB (sizes counted in units of 1024 * 1024 bytes).
   */
  predicate ShouldTranscode(height: int, sizeBytes: nat, ceiling: int) {
    height > ceiling && sizeBytes >= TranscodeMinBytes
  }

  /** Comparing whole bytes with 100 MiB is the float comparison of get_file_size_in_mb, exactly. */
  lemma SizeTestExact(sizeBytes: nat)
    ensures (sizeBytes as real) / (MiB as real) >= 100.0 <==> sizeBytes >= TranscodeMinBytes
  {
  }

  /** The four cases of the decision, with the default ceiling. */
  lemma TranscodeQuadrants()
    ensures ShouldTranscode(1440, 150 * MiB, DefaultCeiling)
    ensures !ShouldTranscode(1440, 50 * MiB, DefaultCeiling)
    ensures !ShouldTranscode(720, 150 * MiB, DefaultCeiling)
    ensures !ShouldTranscode(1080, 150 * MiB, DefaultCeiling)
  {
  }

  /** The directory after a job's file was moved into place by rename. */
  function Published(files: map<string, Bytes>, temp: string, final: string, content: Bytes): map<string, Bytes> {
    (files[temp := content] - {temp})[final := content]
  }

  /**
   * Two jobs publishing under the same name leave one file there, holding
   * the second job's content, and neither temporary file.
   */
  lemma LastWriterWins(files: map<string, Bytes>, temp1: string, temp2: string, final: string,
                       content1: Bytes, content2: Bytes)
    requires temp1 != final && temp2 != final
    ensures var after := Published(Published(files, temp1, final, content1), temp2, final, content2);
      && after[final] == content2
      && after.Keys == files.Keys - {temp1, temp2} + {final}
  {
  }

  /**
   * When the encoder writes nothing, a file an earlier job left under the
   * same public name survives and is what the new job's link serves.
   */
  lemma StaleFileSurvivesFailedEncode(files: map<string, Bytes>, temp: string, final: string, content: Bytes)
    requires temp != final && final in files
    ensures var after := files[temp := content] - {temp};
      final in after && after[final] == files[final] && temp !in after
  {
  }

  /**
   * Every title with no character the sanitiser keeps publishes under the
   * same hidden name ".mp4" or ".mp3", so such jobs overwrite one another.
   */
  lemma UnnamedTitlesShareOneFile(req: Request, info1: Info, info2: Info, id1: string, id2: string)
    requires Complete(req)
    requires forall i :: 0 <= i < |TitleOf(info1)| ==> !Allowed(LowerChar(TitleOf(info1)[i]))
    requires forall i :: 0 <= i < |TitleOf(info2)| ==> !Allowed(LowerChar(TitleOf(info2)[i]))
    ensures PlanJob(req, info1, id1).final == PlanJob(req, info2, id2).final == "." + PlanJob(req, info1, id1).ext
  {
    NoAllowedCharacterGivesEmpty(TitleOf(info1));
    NoAllowedCharacterGivesEmpty(TitleOf(info2));
  }

  /**
   * combine: the whole job. Failures map to one error each; the progress
   * entry of the job follows the downloader's hook calls even when the
   * download fails; a failed probe, or an encoder that cannot be started,
   * leaves the temporary file.
   */
  method Combine(folder: DownloadFolder, store: ProgressStore, req: Request, jobId: string,
                 resolve: string -> Option<Info>,
                 acquire: (string, string, string) -> Acquisition,
                 probe: Bytes -> Option<int>,
                 encode: (Bytes, int) -> EncodeOutcome)
    returns (r: Result<Job, CombineError>)
    modifies folder, store
    ensures !Complete(req) ==>
      r == Failure(MissingParameters) && folder.files == old(folder.files) && store.progress == old(store.progress)
    ensures (Complete(req) && resolve(req.url.value).None?) ==>
      r == Failure(ResolveFailed) && folder.files == old(folder.files) && store.progress == old(store.progress)
    ensures (Complete(req) && resolve(req.url.value).Some?) ==>
      var plan := PlanJob(req, resolve(req.url.value).value, jobId);
      var got := acquire(req.url.value, plan.selector, plan.ext);
      && store.progress == AfterHooks(old(store.progress), jobId, got.events)
      && (r.Success? ==> r.value == Job("/file/" + plan.final, jobId))
      && (got.content.None? ==> r == Failure(DownloadFailed) && folder.files == old(folder.files))
    ensures (Complete(req) && resolve(req.url.value).Some?) ==>
      var plan := PlanJob(req, resolve(req.url.value).value, jobId);
      var got := acquire(req.url.value, plan.selector, plan.ext);
      got.content.Some? ==>
        var c := got.content.value;
        var downloaded := old(folder.files)[plan.temp := c];
        var passThrough := !plan.isVideo
          || (probe(c).Some? && !ShouldTranscode(probe(c).value, |c|, plan.ceiling));
        && (plan.isVideo && probe(c).None? ==> r == Failure(ProbeFailed) && folder.files == downloaded)
        && (passThrough && plan.temp != plan.final ==>
              r.Success? && folder.files == Published(old(folder.files), plan.temp, plan.final, c))
        && (passThrough && plan.temp == plan.final ==>
              r == Failure(PublishFailed) && folder.files == downloaded - {plan.final})
        && (plan.isVideo && probe(c).Some? && ShouldTranscode(probe(c).value, |c|, plan.ceiling) ==>
              var encoded := encode(c, plan.ceiling);
              && (encoded.NotStarted? ==> r == Failure(EncodeFailed) && folder.files == downloaded)
              && (encoded.Ran? ==>
                    var written := if encoded.output.Some? then downloaded[plan.final := encoded.output.value]
                                   else downloaded;
                    r.Success? && folder.files == written - {plan.temp}))
  {
    if !Complete(req) {
      return Failure(MissingParameters);
    }
    var url := req.url.value;
    var answer := resolve(url);
    if answer.None? {
      return Failure(ResolveFailed);
    }
    var plan := PlanJob(req, answer.value, jobId);

    var got := acquire(url, plan.selector, plan.ext);
    var events := got.events;
    for i := 0 to |events|
      invariant store.progress == AfterHooks(old(store.progress), jobId, events[..i])
      invariant folder.files == old(folder.files)
    {
      assert events[..i + 1][..i] == events[..i];
      store.Hook(jobId, events[i]);
    }
    assert events[..|events|] == events;
    if got.content.None? {
      return Failure(DownloadFailed);
    }
    var content := got.content.value;
    folder.Write(plan.temp, content);

    var ok: bool;
    if plan.isVideo {
      var height := probe(content);
      if height.None? {
        return Failure(ProbeFailed);
      }
      if ShouldTranscode(height.value, |content|, plan.ceiling) {
        var encoded := encode(content, plan.ceiling);
        if encoded.NotStarted? {
          return Failure(EncodeFailed);
        }
        ok := folder.EncodeInto(plan.temp, plan.final, encoded.output);
      } else {
        ok := folder.MoveIntoPlace(plan.temp, plan.final);
      }
    } else {
      ok := folder.MoveIntoPlace(plan.temp, plan.final);
    }
    if !ok {
      return Failure(PublishFailed);
    }
    r := Success(Job("/file/" + plan.final, jobId));
  }
}
