/** app/crawler/hooks.py: the yt-dlp hooks as transitions on the tracker.
    The info hooks refuse a recorded video; the progress hook refuses a
    recorded video and records a finished one; so each id is recorded at
    most once. */
module CrawlerHooks {
  import opened Wrappers
  import opened TrackerStore
  import opened CrawlerConfig
  import opened CrawlerMetadata
  import opened CrawlerDb

  /** How a hook call ends: it returns, raises, or the process exits. */
  datatype HookOutcome = Returned | Raised(message: string) | Exited(code: int)

  /** The exception text of `progress_hook` for a recorded id. */
  function FoundInDb(videoId: string): string {
    "Found " + videoId + " in db"
  }

  /** The exception text of an info hook for a recorded id. */
  function EntryExists(hookName: string, videoId: string): string {
    "[" + hookName + "]: Entry exists for " + videoId
  }

  /** What an info hook does: raise exactly when the id (`""` when the
      key is missing) is recorded, with that hook's message. */
  function InfoHookStep(s: Store<CrawledRow>, d: HookEvent, hookName: string): (o: HookOutcome)
    ensures o == Returned || o.Raised?
    ensures o.Raised? <==> Contains(s, d.info.id.GetOr(""))
    ensures o.Raised? ==> o.message == EntryExists(hookName, d.info.id.GetOr(""))
  {
    var videoId := d.info.id.GetOr("");
    if Contains(s, videoId) then Raised(EntryExists(hookName, videoId)) else Returned
  }

  /** `info_progress_hook`; it only reads the tracker. */
  method InfoProgressHook(db: Table<CrawledRow>, d: HookEvent) returns (o: HookOutcome)
    ensures o == InfoHookStep(db.State(), d, "info_progress_hook")
  {
    var hasEntry := IsVideoDownloaded(db, d.info.id.GetOr(""));
    if hasEntry {
      return Raised(EntryExists("info_progress_hook", d.info.id.GetOr("")));
    }
    o := Returned;
  }

  /** `info_posprocessor_hook`; it only reads the tracker. */
  method InfoPostprocessorHook(db: Table<CrawledRow>, d: HookEvent) returns (o: HookOutcome)
    ensures o == InfoHookStep(db.State(), d, "info_postprocessor_hook")
  {
    var hasEntry := IsVideoDownloaded(db, d.info.id.GetOr(""));
    if hasEntry {
      return Raised(EntryExists("info_postprocessor_hook", d.info.id.GetOr("")));
    }
    o := Returned;
  }

  /** What `progress_hook` does: `KeyError` without an `id`; raise before
      any write when the id is recorded; record `create_video_info` of the
      info dict when the status is `"finished"` (exiting if that fails);
      otherwise nothing. */
  function ProgressStep(s: Store<CrawledRow>, d: HookEvent): (r: (Store<CrawledRow>, HookOutcome))
    ensures d.info.id.None? ==> r == (s, Raised("KeyError: 'id'"))
    ensures d.info.id.Some? && Contains(s, d.info.id.value) ==> r == (s, Raised(FoundInDb(d.info.id.value)))
    ensures d.status != "finished" ==> r.0 == s
    ensures r.0 != s ==> (&& d.status == "finished" && d.info.id.Some? && !Contains(s, d.info.id.value)
                          && r.0 == Record(s, CreateVideoInfo(d.info)).0)
    ensures r.1 == Returned && d.status == "finished" ==> Contains(r.0, d.info.id.value)
    ensures d.info.id.Some? && !Contains(s, d.info.id.value) && d.status == "finished" ==>
      r == (Record(s, CreateVideoInfo(d.info)).0,
            if Record(s, CreateVideoInfo(d.info)).1 == Done then Returned else Exited(1))
    ensures d.info.id.Some? && !Contains(s, d.info.id.value) && d.status != "finished" ==> r == (s, Returned)
  {
    match d.info.id
    case None => (s, Raised("KeyError: 'id'"))
    case Some(videoId) =>
      if Contains(s, videoId) then (s, Raised(FoundInDb(videoId)))
      else if d.status == "finished" then
        var (s', o) := Record(s, CreateVideoInfo(d.info));
        (s', if o == Done then Returned else Exited(o.code))
      else (s, Returned)
  }

  /** `progress_hook`. */
  method ProgressHook(db: Table<CrawledRow>, d: HookEvent) returns (o: HookOutcome)
    modifies db
    ensures db.State() == ProgressStep(old(db.State()), d).0 && o == ProgressStep(old(db.State()), d).1
  {
    if d.info.id.None? {
      return Raised("KeyError: 'id'");
    }
    var videoId := d.info.id.value;
    var hasVideo := IsVideoDownloaded(db, videoId);
    if hasVideo {
      return Raised(FoundInDb(videoId));
    }
    if d.status == "finished" {
      var done := RecordDownload(db, CreateVideoInfo(d.info));
      o := if done == Done then Returned else Exited(done.code);
      return;
    }
    o := Returned;
  }

  /** `postprocess_hook` (here and in app/crawl.py): it only logs, so it
      returns on every event and touches no tracker. */
  method PostprocessHook(d: HookEvent) returns (o: HookOutcome)
    ensures o == Returned
  {
    o := Returned;
  }

  /** At most once: after a call that recorded a finished download, every
      later `progress_hook` call for the same id raises and writes
      nothing. */
  lemma AtMostOnce(s: Store<CrawledRow>, d: HookEvent, d2: HookEvent)
    requires d.status == "finished" && ProgressStep(s, d).1 == Returned
    requires d2.info.id == d.info.id
    ensures ProgressStep(ProgressStep(s, d).0, d2) == (ProgressStep(s, d).0, Raised(FoundInDb(d.info.id.value)))
  {
  }
}
