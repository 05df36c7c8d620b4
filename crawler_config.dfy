/** The records the crawler passes around (app/crawler/config.py), and the
    part of a yt-dlp info dict that the crawler reads. */
module CrawlerConfig {
  import opened Wrappers

  /** `VideoInfo`: one crawled video; `text` defaults to `""`, `duration`
      to -1 and `class_labels` to `[]`. */
  datatype VideoInfo = VideoInfo(
    videoId: string,
    url: string,
    title: string,
    text: string,
    captionUrl: string,
    duration: int,
    classLabels: seq<string>)

  /** The keys of a yt-dlp info dict the crawler reads; `None` is a missing
      key. `automaticCaptions` maps a language to its list of caption
      formats, each a dict such as `{"ext": "vtt", "url": ...}`. */
  datatype InfoDict = InfoDict(
    id: Option<string>,
    title: Option<string>,
    url: Option<string>,
    duration: Option<int>,
    automaticCaptions: Option<map<string, seq<map<string, string>>>>)

  /** A progress or postprocessor hook argument: `d["status"]` and
      `d["info_dict"]`. */
  datatype HookEvent = HookEvent(status: string, info: InfoDict)
}
