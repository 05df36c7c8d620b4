/** The transcription worker the three transcription scripts share, and the
    positional merge of app/transcribe.py and app/validate.py: select the
    entries with no transcript, transcribe their files in order, and write
    each non-empty result back into the entry it came from. Whisper and the
    file system are an `Oracle`; the worker pool is an in-order map. */
module Transcriber {
  import opened Wrappers
  import opened Text
  import opened Paths
  import opened Ledger

  /** `os.path.exists(path)`, and the `'text'` of what the Whisper call
      returns for `path` (`None` when the call raises or has no `'text'`). */
  datatype Oracle = Oracle(fileExists: string -> bool, transcribe: string -> Option<string>)

  /** `transcribe_single_file` / `transcribe_audio`: `None` for a missing
      file or a raising call, otherwise the stripped text. */
  function TranscribeFile(o: Oracle, path: string): (r: Option<string>)
    ensures r.Some? <==> o.fileExists(path) && o.transcribe(path).Some?
    ensures r.Some? ==> r.value == Strip(o.transcribe(path).value)
    ensures r.Some? && r.value != [] ==> !IsSpace(r.value[0]) && !IsSpace(r.value[|r.value| - 1])
  {
    if !o.fileExists(path) then None
    else match o.transcribe(path)
      case None => None
      case Some(text) => Some(Strip(text))
  }

  /** `parallel_transcribe`: `pool.imap` keeps input order, so the result
      holds exactly one transcription per path, in path order. */
  function ParallelTranscribe(o: Oracle, paths: seq<string>): (r: seq<Option<string>>)
    ensures |r| == |paths|
    ensures forall i :: 0 <= i < |paths| ==> r[i] == TranscribeFile(o, paths[i])
  {
    if paths == [] then [] else [TranscribeFile(o, paths[0])] + ParallelTranscribe(o, paths[1..])
  }

  /** `if transcription:` — a result that is present and not empty. */
  predicate Landed(t: Option<string>) {
    t.Some? && t.value != ""
  }

  /** The `to_transcribe` comprehension, as the positions of the selected
      entries: exactly the untranscribed ones, in ledger order. */
  function WorkList(m: seq<Entry>, f: Field): (w: seq<nat>)
    ensures forall k :: 0 <= k < |w| ==> w[k] < |m| && Untranscribed(m[w[k]], f)
    ensures forall k, l :: 0 <= k < l < |w| ==> w[k] < w[l]
    ensures forall i :: 0 <= i < |m| && Untranscribed(m[i], f) ==> i in w
  {
    if m == [] then []
    else
      var w := WorkList(m[..|m| - 1], f);
      assert forall i :: 0 <= i < |m| - 1 ==> m[..|m| - 1][i] == m[i];
      if Untranscribed(m[|m| - 1], f) then w + [|m| - 1] else w
  }

  /** Some selected entry has no `file_name`, so building `full_paths`
      raises `KeyError`. */
  predicate MissingFileName(m: seq<Entry>, f: Field) {
    exists i :: 0 <= i < |m| && Untranscribed(m[i], f) && m[i].fileName.None?
  }

  /** What the positional merge makes of one entry: an untranscribed entry
      whose file transcribes to a non-empty text gets that text in field
      `f`; every other entry is left as it was. */
  function Merged(e: Entry, f: Field, dir: string, o: Oracle): (r: Entry)
    ensures r.fileName == e.fileName
    ensures !Untranscribed(e, f) ==> r == e
    ensures r != e ==> (e.fileName.Some?
                        && Landed(TranscribeFile(o, Join(dir, e.fileName.value)))
                        && r == Set(e, f, TranscribeFile(o, Join(dir, e.fileName.value)).value))
  {
    if Untranscribed(e, f) && e.fileName.Some? then
      var t := TranscribeFile(o, Join(dir, e.fileName.value));
      if Landed(t) then Set(e, f, t.value) else e
    else e
  }

  /** Merging is idempotent: a second run with the same oracle changes no
      entry the first one produced. */
  lemma MergedIdempotent(e: Entry, f: Field, dir: string, o: Oracle)
    ensures Merged(Merged(e, f, dir, o), f, dir, o) == Merged(e, f, dir, o)
  {
  }

  /** The `full_paths` comprehension over the selected positions:
      `os.path.join(dir, entry['file_name'])` for each, in order, or `None`
      when one of them has no `file_name` (the `KeyError`). */
  function FullPaths(m: seq<Entry>, work: seq<nat>, dir: string): (r: Option<seq<string>>)
    requires forall k :: 0 <= k < |work| ==> work[k] < |m|
    ensures r.None? <==> exists k :: 0 <= k < |work| && m[work[k]].fileName.None?
    ensures r.Some? ==> (|r.value| == |work|
                         && forall k :: 0 <= k < |work| ==> r.value[k] == Join(dir, m[work[k]].fileName.value))
  {
    if work == [] then Some([])
    else if m[work[0]].fileName.None? then None
    else
      match FullPaths(m, work[1..], dir)
      case None => None
      case Some(rest) => Some([Join(dir, m[work[0]].fileName.value)] + rest)
  }

  /** Building the paths of the work list raises exactly when some
      untranscribed entry has no `file_name`. */
  lemma FullPathsFail(m: seq<Entry>, f: Field, dir: string)
    ensures FullPaths(m, WorkList(m, f), dir).None? <==> MissingFileName(m, f)
  {
    var work := WorkList(m, f);
    if MissingFileName(m, f) {
      var i :| 0 <= i < |m| && Untranscribed(m[i], f) && m[i].fileName.None?;
      var k :| 0 <= k < |work| && work[k] == i;
    }
  }

  /** The `for entry, transcription in zip(to_transcribe, transcriptions)`
      loop: `to_transcribe[k]` is the ledger entry at position `work[k]`, so
      assigning to it assigns into the ledger; a result is written only when
      it is non-empty, and positions outside the work list are not touched. */
  method ZipAssign(metadata: seq<Entry>, work: seq<nat>, transcriptions: seq<Option<string>>, f: Field)
    returns (m: seq<Entry>)
    requires |transcriptions| == |work|
    requires forall k :: 0 <= k < |work| ==> work[k] < |metadata|
    requires forall k, l :: 0 <= k < l < |work| ==> work[k] < work[l]
    ensures |m| == |metadata|
    ensures forall k :: 0 <= k < |work| ==>
      m[work[k]] == if Landed(transcriptions[k]) then Set(metadata[work[k]], f, transcriptions[k].value)
                    else metadata[work[k]]
    ensures forall i :: 0 <= i < |m| && i !in work ==> m[i] == metadata[i]
  {
    m := metadata;
    var k := 0;
    while k < |work|
      invariant 0 <= k <= |work| && |m| == |metadata|
      invariant forall j :: 0 <= j < k ==>
        m[work[j]] == if Landed(transcriptions[j]) then Set(metadata[work[j]], f, transcriptions[j].value)
                      else metadata[work[j]]
      invariant forall j :: k <= j < |work| ==> m[work[j]] == metadata[work[j]]
      invariant forall i :: 0 <= i < |m| && i !in work ==> m[i] == metadata[i]
    {
      if Landed(transcriptions[k]) {
        m := m[work[k] := Set(m[work[k]], f, transcriptions[k].value)];
      }
      k := k + 1;
    }
  }

  /** At a selected position, what the zip loop wrote is what `Merged`
      describes. */
  lemma MergedAtSelected(e: Entry, f: Field, dir: string, o: Oracle, path: string,
                         t: Option<string>, written: Entry)
    requires Untranscribed(e, f) && e.fileName.Some? && path == Join(dir, e.fileName.value)
    requires t == TranscribeFile(o, path)
    requires written == if Landed(t) then Set(e, f, t.value) else e
    ensures written == Merged(e, f, dir, o)
  {
  }

  /** Select, transcribe in order and merge back by position: the body of
      `process_transcription` (app/transcribe.py) and steps 3 to 6 of
      `process_dataset` (app/validate.py). */
  method MergeByPosition(metadata: seq<Entry>, f: Field, dir: string, o: Oracle)
    returns (r: Result<seq<Entry>, Error>)
    ensures r.Err? <==> MissingFileName(metadata, f)
    ensures r.Err? ==> r.error == KeyError("file_name")
    ensures r.Ok? ==> |r.value| == |metadata|
    ensures r.Ok? ==> forall i :: 0 <= i < |metadata| ==> r.value[i] == Merged(metadata[i], f, dir, o)
  {
    var work := WorkList(metadata, f);
    FullPathsFail(metadata, f, dir);
    var fullPaths := FullPaths(metadata, work, dir);
    if fullPaths.None? {
      return Err(KeyError("file_name"));
    }
    var transcriptions := ParallelTranscribe(o, fullPaths.value);
    var m := ZipAssign(metadata, work, transcriptions, f);
    forall i | 0 <= i < |metadata| ensures m[i] == Merged(metadata[i], f, dir, o) {
      if i in work {
        var j :| 0 <= j < |work| && work[j] == i;
        MergedAtSelected(metadata[i], f, dir, o, fullPaths.value[j], transcriptions[j], m[i]);
      } else {
        assert !Untranscribed(metadata[i], f);
      }
    }
    r := Ok(m);
  }
}
