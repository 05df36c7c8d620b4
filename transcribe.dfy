/** app/transcribe.py: select the ledger entries whose `text` is missing or
    empty, transcribe their files in order, write non-empty results into
    `text`, and rewrite the whole ledger file. */
module Transcribe {
  import opened Wrappers
  import opened JsonLines
  import opened Ledger
  import opened Transcriber
  import Paths

  /** `num_workers or max(1, cpu_count - 2)`: any falsy request (`None`
      or 0) falls back to the default, the larger of 1 and `cpu_count - 2`. */
  function WorkerCount(numWorkers: Option<int>, cpuCount: int): (r: int)
    ensures numWorkers.None? || numWorkers.value == 0 ==>
      r >= 1 && r >= cpuCount - 2 && (r == 1 || r == cpuCount - 2)
    ensures numWorkers.Some? && numWorkers.value != 0 ==> r == numWorkers.value
  {
    if numWorkers.Some? && numWorkers.value != 0 then numWorkers.value
    else if cpuCount - 2 > 1 then cpuCount - 2 else 1
  }

  /** `process_transcription`: same length and order, same `file_name`s;
      an entry with no `text` gets its file's transcription exactly when
      that is non-empty; an entry that had text is never modified. */
  method ProcessTranscription(metadata: seq<Entry>, datasetDir: string, o: Oracle)
    returns (r: Result<seq<Entry>, Error>)
    ensures r.Err? <==> MissingFileName(metadata, Text)
    ensures r.Err? ==> r.error == KeyError("file_name")
    ensures r.Ok? ==> |r.value| == |metadata|
    ensures r.Ok? ==> forall i :: 0 <= i < |metadata| ==> r.value[i] == Merged(metadata[i], Text, datasetDir, o)
    ensures r.Ok? ==> forall i :: 0 <= i < |metadata| ==> r.value[i].fileName == metadata[i].fileName
    ensures r.Ok? ==> forall i :: 0 <= i < |metadata| && !Untranscribed(metadata[i], Text) ==> r.value[i] == metadata[i]
    ensures r.Ok? ==> forall i :: 0 <= i < |metadata| ==>
      (r.value[i].text != metadata[i].text <==>
         Untranscribed(metadata[i], Text) && metadata[i].fileName.Some?
         && Landed(TranscribeFile(o, Paths.Join(datasetDir, metadata[i].fileName.value))))
  {
    r := MergeByPosition(metadata, Text, datasetDir, o);
  }

  /** `load_metadata`: one decoded entry per line, in file order; a line
      that does not decode makes the load raise. */
  function LoadMetadata(text: string, c: Codec<Entry>): (r: Option<seq<Entry>>)
    ensures r.Some? ==> forall i :: 0 <= i < |Lines(text)| ==> c.decode(Lines(text)[i]).Some?
    ensures (forall i :: 0 <= i < |Lines(text)| ==> c.decode(Lines(text)[i]).Some?) ==> r.Some?
    ensures r.Some? ==> (|r.value| == |Lines(text)|
                         && forall i :: 0 <= i < |r.value| ==> c.decode(Lines(text)[i]) == Some(r.value[i]))
  {
    LoadStrict(text, c)
  }

  /** `save_metadata` followed by `load_metadata` gives back the same list. */
  lemma LoadSavedMetadata(metadata: seq<Entry>, c: Codec<Entry>)
    requires LineSafe(c)
    ensures LoadMetadata(Save(metadata, c), c) == Some(metadata)
  {
    LoadStrictOfSave(metadata, c);
  }

  /** `transcribe_dataset`: load, transcribe and merge, save. The text
      written back loads as the merged ledger, in the original order. */
  method TranscribeDataset(file: string, c: Codec<Entry>, datasetDir: string, o: Oracle)
    returns (r: Result<string, Error>, after: seq<Entry>)
    requires LineSafe(c)
    ensures LoadMetadata(file, c).None? ==> r == Err(DecodeError)
    ensures LoadMetadata(file, c).Some? ==>
      (r.Err? <==> MissingFileName(LoadMetadata(file, c).value, Text)) && (r.Err? ==> r.error == KeyError("file_name"))
    ensures r.Ok? ==> LoadMetadata(file, c).Some? && LoadMetadata(r.value, c) == Some(after)
    ensures r.Ok? ==> |after| == |LoadMetadata(file, c).value|
    ensures r.Ok? ==> forall i :: 0 <= i < |after| ==>
      after[i] == Merged(LoadMetadata(file, c).value[i], Text, datasetDir, o)
  {
    after := [];
    var loaded := LoadMetadata(file, c);
    if loaded.None? {
      return Err(DecodeError), after;
    }
    var updated := ProcessTranscription(loaded.value, datasetDir, o);
    if updated.Err? {
      return Err(updated.error), after;
    }
    after := updated.value;
    LoadSavedMetadata(after, c);
    r := Ok(Save(after, c));
  }
}
