/** app/crawler/metadata.py: building a `VideoInfo` from a yt-dlp info dict. */
module CrawlerMetadata {
  import opened Wrappers
  import opened CrawlerConfig

  /** `d.get(key) == value`. */
  predicate HasValue(d: map<string, string>, key: string, value: string) {
    key in d && d[key] == value
  }

  /** `_find_dict_with_value`: the first dict whose `key` is `value`, or
      `None` when there is none. */
  function FindDictWithValue(dicts: seq<map<string, string>>, key: string, value: string): (r: Option<map<string, string>>)
    ensures r.None? <==> forall i :: 0 <= i < |dicts| ==> !HasValue(dicts[i], key, value)
    ensures r.Some? ==> exists i :: 0 <= i < |dicts| && dicts[i] == r.value && HasValue(dicts[i], key, value)
                                    && forall j :: 0 <= j < i ==> !HasValue(dicts[j], key, value)
  {
    if dicts == [] then None
    else if HasValue(dicts[0], key, value) then Some(dicts[0])
    else
      var r := FindDictWithValue(dicts[1..], key, value);
      assert forall i :: 1 <= i < |dicts| ==> dicts[i] == dicts[1..][i - 1];
      if r.Some? then
        var i :| 0 <= i < |dicts[1..]| && dicts[1..][i] == r.value && HasValue(dicts[1..][i], key, value)
                  && forall j :: 0 <= j < i ==> !HasValue(dicts[1..][j], key, value);
        assert dicts[i + 1] == r.value;
        r
      else r
  }

  /** The url of the first English `vtt` caption format, when there is one
      and its `"url"` is a non-empty string. */
  predicate HasCaptionUrl(captions: Option<map<string, seq<map<string, string>>>>) {
    && captions.Some? && "en" in captions.value
    && var elem := FindDictWithValue(captions.value["en"], "ext", "vtt");
       elem.Some? && "url" in elem.value && elem.value["url"] != ""
  }

  /** `_get_caption_url`: the url of the first English caption format whose
      `ext` is `"vtt"`; `""` (never `None`) when the captions, the English
      list, such a format or a non-empty url is missing. */
  function GetCaptionUrl(captions: Option<map<string, seq<map<string, string>>>>): (r: string)
    ensures r != "" <==> HasCaptionUrl(captions)
    ensures r != "" ==> exists i :: (0 <= i < |captions.value["en"]| && HasValue(captions.value["en"][i], "ext", "vtt")
                                     && HasValue(captions.value["en"][i], "url", r)
                                     && forall j :: 0 <= j < i ==> !HasValue(captions.value["en"][j], "ext", "vtt"))
  {
    var autoCaptions := if captions.Some? && captions.value != map[] then captions else None;
    var enList := if autoCaptions.Some? && "en" in autoCaptions.value then Some(autoCaptions.value["en"]) else None;
    var elem := if enList.Some? && enList.value != [] then FindDictWithValue(enList.value, "ext", "vtt") else None;
    var captionsUrl := if elem.Some? && elem.value != map[] then Some(if "url" in elem.value then elem.value["url"] else "") else None;
    if captionsUrl.Some? && captionsUrl.value != "" then captionsUrl.value else ""
  }

  /** `create_video_info`: `id`, `title` and `url` copied when present and
      `""` otherwise, the caption url, `duration` defaulting to -1, and the
      `VideoInfo` defaults `""` for `text` and `[]` for `class_labels`. */
  function CreateVideoInfo(info: InfoDict): (v: VideoInfo)
    ensures v.videoId == info.id.GetOr("") && v.title == info.title.GetOr("") && v.url == info.url.GetOr("")
    ensures info.duration.Some? ==> v.duration == info.duration.value
    ensures info.duration.None? ==> v.duration == -1
    ensures v.captionUrl == GetCaptionUrl(info.automaticCaptions)
    ensures v.text == "" && v.classLabels == []
  {
    VideoInfo(
      videoId := info.id.GetOr(""),
      url := info.url.GetOr(""),
      title := info.title.GetOr(""),
      text := "",
      captionUrl := GetCaptionUrl(info.automaticCaptions),
      duration := info.duration.GetOr(-1),
      classLabels := [])
  }
}
