/** app/crawler/file_io.py (and its copy in app/crawl.py): locating the
    audio file yt-dlp left for a video. The directory listing is a
    parameter, in the order `os.listdir` returns it. */
module CrawlerFileIo {
  import opened Wrappers
  import opened Text
  import opened Paths

  /** `video_id in f and f.endswith('.wav')`. */
  predicate IsAudioFileFor(f: string, videoId: string) {
    Contains(f, videoId) && EndsWith(f, ".wav")
  }

  /** The position of the first listed audio file for `videoId`, or
      `|listing|` when there is none. */
  function FirstAudioFile(listing: seq<string>, videoId: string): (k: nat)
    ensures k <= |listing|
    ensures k < |listing| ==> IsAudioFileFor(listing[k], videoId)
    ensures forall j :: 0 <= j < k ==> !IsAudioFileFor(listing[j], videoId)
  {
    if listing == [] || IsAudioFileFor(listing[0], videoId) then 0
    else 1 + FirstAudioFile(listing[1..], videoId)
  }

  /** `find_audio_file`: `directory` joined with the first listed name that
      contains `videoId` and ends with `.wav`; `None` when no name does. */
  function FindAudioFile(directory: string, listing: seq<string>, videoId: string): (r: Option<string>)
    ensures r.None? <==> forall i :: 0 <= i < |listing| ==> !IsAudioFileFor(listing[i], videoId)
    ensures r.Some? ==> exists i :: (0 <= i < |listing| && IsAudioFileFor(listing[i], videoId)
                                     && r.value == Join(directory, listing[i])
                                     && forall j :: 0 <= j < i ==> !IsAudioFileFor(listing[j], videoId))
  {
    var k := FirstAudioFile(listing, videoId);
    if k < |listing| then Some(Join(directory, listing[k])) else None
  }

  /** The path found ends with `.wav` (a non-empty name, so never falsy). */
  lemma FoundIsWav(directory: string, listing: seq<string>, videoId: string)
    requires FindAudioFile(directory, listing, videoId).Some?
    ensures EndsWith(FindAudioFile(directory, listing, videoId).value, ".wav")
    ensures FindAudioFile(directory, listing, videoId).value != ""
  {
    var r := FindAudioFile(directory, listing, videoId).value;
    var i :| 0 <= i < |listing| && IsAudioFileFor(listing[i], videoId) && r == Join(directory, listing[i]);
    assert EndsWith(r, listing[i]);
  }

  /** An empty id is contained in every name, so it matches the first
      listed `.wav` file. */
  lemma {:induction false} EmptyIdMatchesFirstWav(directory: string, listing: seq<string>)
    ensures FindAudioFile(directory, listing, "").None? <==> forall i :: 0 <= i < |listing| ==> !EndsWith(listing[i], ".wav")
  {
    forall i | 0 <= i < |listing| ensures IsAudioFileFor(listing[i], "") <==> EndsWith(listing[i], ".wav") {
      ContainsEmpty(listing[i]);
    }
  }
}
