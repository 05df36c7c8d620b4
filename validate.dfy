/** app/validate.py: the same select-transcribe-merge pass as
    app/transcribe.py, on the `transcription` field, followed by a rewrite of
    the whole ledger file. */
module Validate {
  import opened Wrappers
  import opened JsonLines
  import opened Ledger
  import opened Transcriber
  import Transcribe
  import Paths

  /** `if num_workers is None: num_workers = max(1, cpu_count - 2)`: only a
      missing request is defaulted, so an explicit 0 is kept. */
  function WorkerCount(numWorkers: Option<int>, cpuCount: int): (r: int)
    ensures numWorkers.None? ==> r >= 1 && r >= cpuCount - 2 && (r == 1 || r == cpuCount - 2)
    ensures numWorkers.Some? ==> r == numWorkers.value
  {
    match numWorkers
    case Some(n) => n
    case None => if cpuCount - 2 > 1 then cpuCount - 2 else 1
  }

  /** The two scripts pick the same pool size except for an explicit
      request of 0 workers, which only app/transcribe.py replaces. */
  lemma WorkerCountsDiffer(numWorkers: Option<int>, cpuCount: int)
    ensures WorkerCount(numWorkers, cpuCount) == Transcribe.WorkerCount(numWorkers, cpuCount)
            <==> numWorkers != Some(0)
  {
  }

  /** `process_dataset`: load every line (a bad line raises), select the
      entries whose `transcription` is missing or empty, transcribe them in
      order, set `transcription` where the result is non-empty, and write
      the FULL ledger back in its original order. */
  method ProcessDataset(file: string, c: Codec<Entry>, dataDir: string, o: Oracle)
    returns (r: Result<string, Error>, after: seq<Entry>)
    requires LineSafe(c)
    ensures LoadStrict(file, c).None? ==> r == Err(DecodeError)
    ensures LoadStrict(file, c).Some? ==> (r.Err? <==> MissingFileName(LoadStrict(file, c).value, Transcription))
    ensures r.Ok? ==> LoadStrict(file, c).Some? && LoadStrict(r.value, c) == Some(after)
    ensures r.Ok? ==> |after| == |LoadStrict(file, c).value|
    ensures r.Ok? ==> forall i :: 0 <= i < |after| ==>
      after[i] == Merged(LoadStrict(file, c).value[i], Transcription, dataDir, o)
  {
    after := [];
    var metadata := LoadStrict(file, c);
    if metadata.None? {
      return Err(DecodeError), after;
    }
    var updated := MergeByPosition(metadata.value, Transcription, dataDir, o);
    if updated.Err? {
      return Err(updated.error), after;
    }
    after := updated.value;
    LoadStrictOfSave(after, c);
    r := Ok(Save(after, c));
  }

  /** An entry the pass did not select keeps its `transcription`, and a
      selected one gets a non-empty transcription or stays as it was: after
      the pass, an entry is still untranscribed only if its file failed to
      give text. */
  lemma UntranscribedAfterPass(e: Entry, dataDir: string, o: Oracle)
    requires e.fileName.Some?
    ensures Untranscribed(Merged(e, Transcription, dataDir, o), Transcription)
            <==> Untranscribed(e, Transcription)
                 && !Landed(TranscribeFile(o, Paths.Join(dataDir, e.fileName.value)))
  {
  }
}
