/**
 * The progress store of app.py: a process-wide map from job id to an
 * integer percentage, written by the downloader's progress hook and read by
 * GET /progress/<uid>. The lock around each access only serialises single
 * map operations, so the model is sequential.
 */
module Progress {
  import opened Wrappers

  /**
   * One call of the downloader's progress hook. A byte count the
   * downloader leaves out is None; downloaded_bytes defaults to 0.
   */
  datatype HookEvent = HookEvent(
    status: Option<string>,
    downloadedBytes: nat,
    totalBytes: Option<nat>,
    totalBytesEstimate: Option<nat>)

  /** total_bytes, else total_bytes_estimate, else 1 (0 counts as absent). */
  function TotalOf(ev: HookEvent): (t: nat)
    ensures t > 0
  {
    if ev.totalBytes.Some? && ev.totalBytes.value != 0 then ev.totalBytes.value
    else if ev.totalBytesEstimate.Some? && ev.totalBytesEstimate.value != 0 then ev.totalBytesEstimate.value
    else 1
  }

  /**
   * The percentage the hook records while downloading: the floor of
   * downloaded / total * 100. It is at most 100 exactly when downloaded
   * * 100 < 101 * total, so in particular when the downloader has not
   * reported more bytes than the total.
   */
  function Percent(ev: HookEvent): (p: nat)
    ensures p * TotalOf(ev) <= ev.downloadedBytes * 100 < (p + 1) * TotalOf(ev)
    ensures ev.downloadedBytes <= TotalOf(ev) ==> p <= 100
    ensures ev.downloadedBytes >= TotalOf(ev) ==> p >= 100
    ensures p <= 100 <==> ev.downloadedBytes * 100 < 101 * TotalOf(ev)
  {
    var t := TotalOf(ev);
    var d := ev.downloadedBytes;
    DivBounds(d * 100, t);
    PercentRange(d, t);
    PercentAtMostHundred(d * 100, t);
    (d * 100) / t
  }

  lemma DivBounds(n: nat, t: nat)
    requires t > 0
    ensures (n / t) * t <= n < (n / t + 1) * t
  {
    var q, m := n / t, n % t;
    assert n == q * t + m && 0 <= m < t;
    assert (q + 1) * t == q * t + t;
  }

  lemma MulLeft(a: int, b: int, t: nat)
    requires a <= b
    ensures a * t <= b * t
  {
    assert b * t - a * t == (b - a) * t;
  }

  lemma PercentAtMostHundred(n: nat, t: nat)
    requires t > 0
    ensures n / t <= 100 <==> n < 101 * t
  {
    var p := n / t;
    DivBounds(n, t);
    if p <= 100 {
      MulLeft(p + 1, 101, t);
    } else {
      MulLeft(101, p, t);
    }
  }

  lemma PercentRange(d: nat, t: nat)
    requires t > 0
    ensures d <= t ==> (d * 100) / t <= 100
    ensures d >= t ==> (d * 100) / t >= 100
  {
    var p := (d * 100) / t;
    DivBounds(d * 100, t);
    if d <= t && p > 100 {
      MulLeft(101, p, t);
      assert false;
    }
    if d >= t && p < 100 {
      MulLeft(p + 1, 100, t);
      assert false;
    }
  }

  /** The store after one hook call for job. */
  function AfterHook(store: map<string, int>, job: string, ev: HookEvent): map<string, int> {
    if ev.status == Some("downloading") then store[job := Percent(ev)]
    else if ev.status == Some("finished") then store[job := 100]
    else store
  }

  /** The store after the hook calls evs, in order, for job. */
  function AfterHooks(store: map<string, int>, job: string, evs: seq<HookEvent>): map<string, int>
    decreases |evs|
  {
    if evs == [] then store
    else AfterHook(AfterHooks(store, job, evs[..|evs| - 1]), job, evs[|evs| - 1])
  }

  /** A download reports consistent counters: never more bytes than the total. */
  predicate Consistent(ev: HookEvent) {
    ev.status == Some("downloading") ==> ev.downloadedBytes <= TotalOf(ev)
  }

  /** A job's hook calls change that job's entry and no other. */
  lemma {:induction false} HooksTouchOnlyJob(store: map<string, int>, job: string, evs: seq<HookEvent>, other: string)
    requires other != job
    ensures other in AfterHooks(store, job, evs) <==> other in store
    ensures other in store ==> AfterHooks(store, job, evs)[other] == store[other]
    decreases |evs|
  {
    if evs != [] {
      HooksTouchOnlyJob(store, job, evs[..|evs| - 1], other);
    }
  }

  /**
   * After a "finished" call the job reads 100; after a "downloading" call
   * it reads that call's percentage; any other status leaves the store as
   * the earlier calls left it.
   */
  lemma LastHookDecides(store: map<string, int>, job: string, evs: seq<HookEvent>)
    requires evs != []
    ensures var last := evs[|evs| - 1];
      && (last.status == Some("finished") ==> AfterHooks(store, job, evs)[job] == 100)
      && (last.status == Some("downloading") ==> AfterHooks(store, job, evs)[job] == Percent(last))
      && (last.status !in {Some("finished"), Some("downloading")} ==>
            AfterHooks(store, job, evs) == AfterHooks(store, job, evs[..|evs| - 1]))
  {
  }

  /**
   * The entry stays within 0..100 when every "downloading" call reports no
   * more bytes than its total, a condition the code does not check.
   */
  lemma {:induction false} HooksStayInRange(store: map<string, int>, job: string, evs: seq<HookEvent>)
    requires job in store ==> 0 <= store[job] <= 100
    requires forall k :: 0 <= k < |evs| ==> Consistent(evs[k])
    ensures job in AfterHooks(store, job, evs) ==> 0 <= AfterHooks(store, job, evs)[job] <= 100
    decreases |evs|
  {
    if evs != [] {
      HooksStayInRange(store, job, evs[..|evs| - 1]);
    }
  }

  /**
   * The entry can go down: a video job's download runs once for the video
   * stream and once for the audio stream, and the second pass starts again
   * from a low percentage after the first one reported "finished".
   */
  lemma ProgressCanDecrease()
    ensures var first := HookEvent(Some("finished"), 0, None, None);
      var second := HookEvent(Some("downloading"), 10, Some(100), None);
      && AfterHooks(map[], "job", [first])["job"] == 100
      && AfterHooks(map[], "job", [first, second])["job"] == 10
  {
    var first := HookEvent(Some("finished"), 0, None, None);
    var second := HookEvent(Some("downloading"), 10, Some(100), None);
    assert [first, second][..1] == [first];
    assert [first][..0] == [];
  }

  /** download_progress, the store shared by the hook and the progress route. */
  class ProgressStore {
    var progress: map<string, int>

    constructor ()
      ensures progress == map[]
    {
      progress := map[];
    }

    /** progress_hook: record the percentage of the job's download. */
    method Hook(job: string, ev: HookEvent)
      modifies this
      ensures progress == AfterHook(old(progress), job, ev)
      ensures ev.status == Some("finished") ==> progress == old(progress)[job := 100]
      ensures ev.status == Some("downloading") ==> progress == old(progress)[job := Percent(ev)]
      ensures ev.status !in {Some("downloading"), Some("finished")} ==> progress == old(progress)
    {
      if ev.status == Some("downloading") {
        var total := TotalOf(ev);
        var downloaded := ev.downloadedBytes;
        var percent := downloaded * 100 / total;
        progress := progress[job := percent];
      } else if ev.status == Some("finished") {
        progress := progress[job := 100];
      }
    }

    /** get_progress: the stored percentage, or 0 for an unknown id. */
    method Get(id: string) returns (percent: int)
      ensures id !in progress ==> percent == 0
      ensures id in progress ==> percent == progress[id]
    {
      if id in progress {
        percent := progress[id];
      } else {
        percent := 0;
      }
    }
  }
}
