/** app/crawler/db.py: the `crawled` table of `VideoInfo` rows. A failure to
    initialise or to record ends the process with `exit(1)`. */
module CrawlerDb {
  import opened TrackerStore
  import opened CrawlerConfig

  /** The columns of the `crawled` table besides `video_id`. */
  datatype CrawledRow = CrawledRow(url: string, title: string, text: string, captionUrl: string)

  /** How a call ends: normally, or by `exit(code)`. */
  datatype Outcome = Done | Exit(code: int)

  /** The row `record_download` writes for `v`. */
  function RowOf(v: VideoInfo): CrawledRow {
    CrawledRow(v.url, v.title, v.text, v.captionUrl)
  }

  /** `record_download` as a transition: the upsert keyed by
      `v.video_id`, or `exit(1)` with nothing written when it fails. */
  function Record(s: Store<CrawledRow>, v: VideoInfo): (r: (Store<CrawledRow>, Outcome))
    ensures r.1 == Done <==> s.accessible && s.tableExists
    ensures r.1 != Done ==> r.1 == Exit(1) && r.0 == s
    ensures r.1 == Done ==> Contains(r.0, v.videoId) && r.0.rows[v.videoId] == RowOf(v)
    ensures r.0.accessible == s.accessible && r.0.tableExists == s.tableExists
    ensures forall k :: k != v.videoId ==> (k in r.0.rows <==> k in s.rows)
    ensures forall k :: k != v.videoId && k in s.rows ==> r.0.rows[k] == s.rows[k]
  {
    var (s', ok) := Upserted(s, v.videoId, RowOf(v));
    (s', if ok then Done else Exit(1))
  }

  /** `init_database`: creates the table if it is missing, or `exit(1)`
      when the database does not open; a second call changes nothing. */
  method InitDatabase(db: Table<CrawledRow>) returns (o: Outcome)
    modifies db
    ensures db.State() == CreateIfMissing(old(db.State()))
    ensures o == if db.accessible then Done else Exit(1)
  {
    var ok := db.CreateTable();
    o := if ok then Done else Exit(1);
  }

  /** `record_download`. */
  method RecordDownload(db: Table<CrawledRow>, v: VideoInfo) returns (o: Outcome)
    modifies db
    ensures db.State() == Record(old(db.State()), v).0 && o == Record(old(db.State()), v).1
  {
    var ok := db.Upsert(v.videoId, RowOf(v));
    o := if ok then Done else Exit(1);
  }

  /** `is_video_downloaded`: true exactly for a recorded id; false when the
      database or the table is missing. */
  method IsVideoDownloaded(db: Table<CrawledRow>, videoId: string) returns (b: bool)
    ensures b <==> Contains(db.State(), videoId)
  {
    b := db.Has(videoId);
  }
}
