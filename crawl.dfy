/** app/crawl.py: the older single-file crawler. Its tracker table holds
    `downloaded_videos` rows; a failure is only logged; its progress hook
    records a finished download once the audio file is on disk, without
    checking for an earlier record; and the search loop filters the
    entries already fetched. */
module Crawl {
  import opened Wrappers
  import opened TrackerStore
  import opened CrawlerConfig
  import opened CrawlerFileIo

  /** The columns of `downloaded_videos` besides `video_id`. */
  datatype DownloadRow = DownloadRow(title: string, downloadDate: string, duration: int, sourceQuery: string)

  /** The row `record_download` writes: `title` defaulting to `""`,
      `duration` to 0, and the time of the call (`now`). */
  function RowFor(info: InfoDict, now: string, sourceQuery: string): (row: DownloadRow)
    ensures row.title == info.title.GetOr("") && row.downloadDate == now && row.sourceQuery == sourceQuery
    ensures info.duration.None? ==> row.duration == 0
    ensures info.duration.Some? ==> row.duration == info.duration.value
  {
    DownloadRow(info.title.GetOr(""), now, info.duration.GetOr(0), sourceQuery)
  }

  /** `init_database`: creates `downloaded_videos` if it is missing; a
      failure is logged and the run goes on. */
  method InitDatabase(db: Table<DownloadRow>)
    modifies db
    ensures db.State() == CreateIfMissing(old(db.State()))
  {
    var _ := db.CreateTable();
  }

  /** `record_download`: upsert keyed by `id` (`""` when missing); a
      failure is logged and nothing is written. */
  method RecordDownload(db: Table<DownloadRow>, info: InfoDict, sourceQuery: string, now: string)
    modifies db
    ensures db.State() == Upserted(old(db.State()), info.id.GetOr(""), RowFor(info, now, sourceQuery)).0
  {
    var _ := db.Upsert(info.id.GetOr(""), RowFor(info, now, sourceQuery));
  }

  /** `is_video_downloaded`: true exactly for a recorded id; false on any
      error. */
  method IsVideoDownloaded(db: Table<DownloadRow>, videoId: string) returns (b: bool)
    ensures b <==> Contains(db.State(), videoId)
  {
    b := db.Has(videoId);
  }

  /** What `progress_hook` does to the tracker, given the listing of the
      audio directory: nothing unless the status is `"finished"` and an
      audio file for the id is found; then the info dict is recorded with
      `source_query ''`, replacing any earlier row for the id. */
  function ProgressStep(s: Store<DownloadRow>, d: HookEvent, audioDir: string, listing: seq<string>, now: string)
    : (r: Store<DownloadRow>)
    ensures d.status != "finished" ==> r == s
    ensures FindAudioFile(audioDir, listing, d.info.id.GetOr("")).None? ==> r == s
    ensures (d.status == "finished" && FindAudioFile(audioDir, listing, d.info.id.GetOr("")).Some?
             && s.accessible && s.tableExists)
            ==> Contains(r, d.info.id.GetOr("")) && r.rows[d.info.id.GetOr("")] == RowFor(d.info, now, "")
    ensures !(s.accessible && s.tableExists) ==> r == s
    ensures forall k :: k != d.info.id.GetOr("") ==> (k in r.rows <==> k in s.rows)
    ensures forall k :: k != d.info.id.GetOr("") && k in s.rows ==> r.rows[k] == s.rows[k]
    ensures r.accessible == s.accessible && r.tableExists == s.tableExists
  {
    if d.status != "finished" then s
    else
      var videoId := d.info.id.GetOr("");
      match FindAudioFile(audioDir, listing, videoId)
      case None => s
      case Some(_) => Upserted(s, videoId, RowFor(d.info, now, "")).0
  }

  /** `progress_hook`. */
  method ProgressHook(db: Table<DownloadRow>, d: HookEvent, audioDir: string, listing: seq<string>, now: string)
    modifies db
    ensures db.State() == ProgressStep(old(db.State()), d, audioDir, listing, now)
  {
    if d.status != "finished" {
      return;
    }
    var videoId := d.info.id.GetOr("");
    var audioPath := FindAudioFile(audioDir, listing, videoId);
    if audioPath.None? {
      return;
    }
    RecordDownload(db, d.info, "", now);
  }

  /** Unlike app/crawler/hooks.py there is no duplicate check: a second
      finished event for the same video replaces the row, so the tracker
      keeps the later download date. */
  lemma RecordedAgain(s: Store<DownloadRow>, d: HookEvent, audioDir: string, listing: seq<string>,
                      now1: string, now2: string)
    requires d.status == "finished" && FindAudioFile(audioDir, listing, d.info.id.GetOr("")).Some?
    requires s.accessible && s.tableExists
    ensures var s2 := ProgressStep(ProgressStep(s, d, audioDir, listing, now1), d, audioDir, listing, now2);
            Contains(s2, d.info.id.GetOr("")) && s2.rows[d.info.id.GetOr("")].downloadDate == now2
  {
  }

  /** One element of `info.get('entries', [])`: a falsy one (`None` or the
      empty dict `{}`), or a dict holding at least one key, of which the
      fields of `info` are those the loop reads. */
  datatype SearchEntry = Falsy | NonEmpty(info: InfoDict)

  /** An entry of the search result that reaches the end of the loop body
      in `download_commercials`: truthy, not recorded, and no longer than
      `maxDuration`, a missing duration counting as 0. */
  predicate Passes(s: Store<DownloadRow>, entry: SearchEntry, maxDuration: int) {
    entry.NonEmpty? && !Contains(s, entry.info.id.GetOr("")) && entry.info.duration.GetOr(0) <= maxDuration
  }

  /** The loop over `info.get('entries', [])`: the positions of the
      entries that pass every `continue`, in order. It only reads the
      tracker. */
  method FilterEntries(db: Table<DownloadRow>, entries: seq<SearchEntry>, maxDuration: int)
    returns (passed: seq<nat>)
    ensures forall k :: 0 <= k < |passed| ==> passed[k] < |entries| && Passes(db.State(), entries[passed[k]], maxDuration)
    ensures forall i :: 0 <= i < |entries| && Passes(db.State(), entries[i], maxDuration) ==> i in passed
    ensures forall k, l :: 0 <= k < l < |passed| ==> passed[k] < passed[l]
  {
    passed := [];
    var i := 0;
    while i < |entries|
      invariant 0 <= i <= |entries|
      invariant forall k :: 0 <= k < |passed| ==> passed[k] < i && Passes(db.State(), entries[passed[k]], maxDuration)
      invariant forall j :: 0 <= j < i && Passes(db.State(), entries[j], maxDuration) ==> j in passed
      invariant forall k, l :: 0 <= k < l < |passed| ==> passed[k] < passed[l]
    {
      var entry := entries[i];
      if entry.Falsy? {
        i := i + 1;
        continue;
      }
      var recorded := IsVideoDownloaded(db, entry.info.id.GetOr(""));
      if recorded {
        i := i + 1;
        continue;
      }
      var duration := entry.info.duration.GetOr(0);
      if duration > maxDuration {
        i := i + 1;
        continue;
      }
      passed := passed + [i];
      i := i + 1;
    }
  }
}
