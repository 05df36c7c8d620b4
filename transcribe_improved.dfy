/** app/transcribe_improved.py: the workers return whole result entries
    (`file_name`, stripped `text`, `class_labels: ["commercial"]`) and the
    merge goes through a `file_name -> entry` dict built from the ledger, so
    a result lands on the LAST ledger entry carrying its `file_name`, and a
    successful but empty transcription lands too. */
module TranscribeImproved {
  import opened Wrappers
  import opened Paths
  import opened Ledger
  import opened Transcriber
  import opened JsonLines

  /** The `metadata_entry` a successful worker builds. */
  function ResultEntry(fileName: string, text: string): Entry {
    Entry(Some(fileName), None, None, Some(text), None, Some(["commercial"]))
  }

  /** `transcribe_and_update_metadata`: succeeds exactly when the plain
      worker does, with the same stripped text, wrapped in a result entry. */
  function TranscribeAndUpdate(o: Oracle, filePath: string, fileName: string): (r: Option<Entry>)
    ensures r.Some? <==> TranscribeFile(o, filePath).Some?
    ensures r.Some? ==> r.value == ResultEntry(fileName, TranscribeFile(o, filePath).value)
  {
    match TranscribeFile(o, filePath)
    case None => None
    case Some(text) => Some(ResultEntry(fileName, text))
  }

  /** `parallel_transcribe_and_update`: `starmap` over `zip(file_paths,
      file_names)`, one result per pair, in order. */
  function ParallelTranscribeAndUpdate(o: Oracle, paths: seq<string>, names: seq<string>): (r: seq<Option<Entry>>)
    ensures |r| == if |paths| <= |names| then |paths| else |names|
    ensures forall k :: 0 <= k < |r| ==> r[k] == TranscribeAndUpdate(o, paths[k], names[k])
  {
    if paths == [] || names == [] then []
    else [TranscribeAndUpdate(o, paths[0], names[0])] + ParallelTranscribeAndUpdate(o, paths[1..], names[1..])
  }

  /** `file_names = [entry['file_name'] for entry in to_transcribe]`. */
  function FileNames(m: seq<Entry>, work: seq<nat>): (r: seq<string>)
    requires forall k :: 0 <= k < |work| ==> work[k] < |m| && m[work[k]].fileName.Some?
    ensures |r| == |work|
    ensures forall k :: 0 <= k < |work| ==> r[k] == m[work[k]].fileName.value
  {
    if work == [] then [] else [m[work[0]].fileName.value] + FileNames(m, work[1..])
  }

  /** `entry.update(result)`: each key the result holds overwrites the
      entry's, every other key of the entry is kept. */
  function Update(e: Entry, u: Entry): Entry {
    Entry(
      if u.fileName.Some? then u.fileName else e.fileName,
      if u.shasum.Some? then u.shasum else e.shasum,
      if u.originalFilename.Some? then u.originalFilename else e.originalFilename,
      if u.text.Some? then u.text else e.text,
      if u.transcription.Some? then u.transcription else e.transcription,
      if u.classLabels.Some? then u.classLabels else e.classLabels)
  }

  /** Every ledger entry has a `file_name` (otherwise building the dict raises). */
  predicate AllNamed(m: seq<Entry>) {
    forall i :: 0 <= i < |m| ==> m[i].fileName.Some?
  }

  /** No later entry shares the `file_name` of entry `i`. */
  predicate IsLastWithName(m: seq<Entry>, i: nat)
    requires i < |m|
  {
    forall j :: i < j < |m| ==> m[j].fileName != m[i].fileName
  }

  /** `{entry['file_name']: entry for entry in metadata}`, as positions: each
      `file_name` maps to the position of the LAST entry that carries it
      (`IndexByNameSpec`). */
  function IndexByName(m: seq<Entry>): map<string, nat>
    requires AllNamed(m)
  {
    if m == [] then map[]
    else
      assert AllNamed(m[..|m| - 1]) by {
        assert forall i :: 0 <= i < |m| - 1 ==> m[..|m| - 1][i] == m[i];
      }
      IndexByName(m[..|m| - 1])[m[|m| - 1].fileName.value := |m| - 1]
  }

  /** The dict holds exactly the `file_name`s of the ledger, and each maps
      to the last entry carrying it. */
  lemma {:induction false} IndexByNameSpec(m: seq<Entry>)
    requires AllNamed(m)
    ensures forall n :: n in IndexByName(m) <==> exists i :: 0 <= i < |m| && m[i].fileName == Some(n)
    ensures forall n :: n in IndexByName(m) ==>
      IndexByName(m)[n] < |m| && m[IndexByName(m)[n]].fileName == Some(n) && IsLastWithName(m, IndexByName(m)[n])
  {
    if m != [] {
      var p := m[..|m| - 1];
      assert forall i :: 0 <= i < |p| ==> p[i] == m[i];
      IndexByNameSpec(p);
      var prev := IndexByName(p);
      var n0 := m[|m| - 1].fileName.value;
      var idx := IndexByName(m);
      assert idx == prev[n0 := |m| - 1];
      forall n ensures n in idx <==> exists i :: 0 <= i < |m| && m[i].fileName == Some(n) {
        if n != n0 && exists i :: 0 <= i < |m| && m[i].fileName == Some(n) {
          var i :| 0 <= i < |m| && m[i].fileName == Some(n);
          assert i < |p| && p[i].fileName == Some(n);
        }
      }
      forall n | n in idx
        ensures idx[n] < |m| && m[idx[n]].fileName == Some(n) && IsLastWithName(m, idx[n])
      {
        if n != n0 {
          assert idx[n] == prev[n] && prev[n] < |p|;
          assert IsLastWithName(p, prev[n]);
        }
      }
    }
  }

  /** Every successful result names a key of the dict: the lookup of line 130
      cannot raise. */
  lemma ResultsAreKeyed(m: seq<Entry>, work: seq<nat>, o: Oracle, paths: seq<string>)
    requires AllNamed(m)
    requires forall k :: 0 <= k < |work| ==> work[k] < |m|
    ensures Keyed(ParallelTranscribeAndUpdate(o, paths, FileNames(m, work)), IndexByName(m), |m|)
  {
    var names := FileNames(m, work);
    var results := ParallelTranscribeAndUpdate(o, paths, names);
    var idx := IndexByName(m);
    IndexByNameSpec(m);
    forall k | 0 <= k < |results| && results[k].Some?
      ensures results[k].value.fileName == Some(names[k])
      ensures names[k] in idx && idx[names[k]] < |m|
    {
      assert results[k] == TranscribeAndUpdate(o, paths[k], names[k]);
      assert m[work[k]].fileName == Some(names[k]);
    }
    assert Named(results, idx);
  }

  /** Every successful result carries a `file_name` that is a key of `idx`. */
  predicate Named(results: seq<Option<Entry>>, idx: map<string, nat>) {
    forall k :: 0 <= k < |results| && results[k].Some? ==>
      results[k].value.fileName.Some? && results[k].value.fileName.value in idx
  }

  /** The position a successful result is merged into. */
  function Target(u: Entry, idx: map<string, nat>): nat
    requires u.fileName.Some? && u.fileName.value in idx
  {
    idx[u.fileName.value]
  }

  /** The results the merge loop can look up, inside a ledger of `size`. */
  predicate Keyed(results: seq<Option<Entry>>, idx: map<string, nat>, size: nat) {
    Named(results, idx)
    && forall k :: 0 <= k < |results| && results[k].Some? ==> Target(results[k].value, idx) < size
  }

  /** The merge loop over the results, in order: each successful result
      updates the entry its `file_name` maps to. */
  function ApplyResults(m: seq<Entry>, idx: map<string, nat>, results: seq<Option<Entry>>): (r: seq<Entry>)
    requires Keyed(results, idx, |m|)
    ensures |r| == |m|
  {
    if results == [] then m
    else
      var prefix := results[..|results| - 1];
      assert Keyed(prefix, idx, |m|) by {
        assert forall k :: 0 <= k < |prefix| ==> prefix[k] == results[k];
      }
      var prev := ApplyResults(m, idx, prefix);
      match results[|results| - 1]
      case None => prev
      case Some(u) => prev[Target(u, idx) := Update(prev[Target(u, idx)], u)]
  }

  /** The last successful result merged into position `i`, if any. */
  function LastHit(results: seq<Option<Entry>>, idx: map<string, nat>, i: nat): Option<Entry>
    requires Named(results, idx)
  {
    if results == [] then None
    else
      var prefix := results[..|results| - 1];
      assert Named(prefix, idx) by {
        assert forall k :: 0 <= k < |prefix| ==> prefix[k] == results[k];
      }
      var last := results[|results| - 1];
      if last.Some? && Target(last.value, idx) == i then last
      else LastHit(prefix, idx, i)
  }

  /** Some successful result is aimed at position `i`. */
  predicate Aimed(results: seq<Option<Entry>>, idx: map<string, nat>, i: nat, k: int)
    requires Named(results, idx)
  {
    0 <= k < |results| && results[k].Some? && Target(results[k].value, idx) == i
  }

  /** A hit is one of the results aimed at that position. */
  lemma {:induction false} LastHitSome(results: seq<Option<Entry>>, idx: map<string, nat>, i: nat)
    requires Named(results, idx)
    requires LastHit(results, idx, i).Some?
    ensures exists k :: Aimed(results, idx, i, k) && results[k] == LastHit(results, idx, i)
  {
    var prefix := results[..|results| - 1];
    var last := results[|results| - 1];
    if last.Some? && Target(last.value, idx) == i {
      assert Aimed(results, idx, i, |results| - 1);
    } else {
      assert forall k :: 0 <= k < |prefix| ==> prefix[k] == results[k];
      LastHitSome(prefix, idx, i);
      var k :| Aimed(prefix, idx, i, k) && prefix[k] == LastHit(prefix, idx, i);
      assert Aimed(results, idx, i, k);
    }
  }

  /** A result entry holds `file_name`, `text` and `class_labels` and no
      other key, so a later one overwrites all an earlier one wrote. */
  predicate ResultShaped(u: Entry) {
    u.fileName.Some? && u.text.Some? && u.classLabels.Some?
    && u.shasum.None? && u.originalFilename.None? && u.transcription.None?
  }

  /** Position `i` after the loop is its entry updated with the last result
      aimed at it, or unchanged when none was. */
  lemma {:induction false} ApplyResultsAt(m: seq<Entry>, idx: map<string, nat>, results: seq<Option<Entry>>, i: nat)
    requires Keyed(results, idx, |m|) && i < |m|
    requires forall k :: 0 <= k < |results| && results[k].Some? ==> ResultShaped(results[k].value)
    ensures ApplyResults(m, idx, results)[i] ==
      match LastHit(results, idx, i)
      case None => m[i]
      case Some(u) => Update(m[i], u)
  {
    if results != [] {
      var prefix := results[..|results| - 1];
      assert forall k :: 0 <= k < |prefix| ==> prefix[k] == results[k];
      ApplyResultsAt(m, idx, prefix, i);
      var last := results[|results| - 1];
      if last.Some? && Target(last.value, idx) == i && LastHit(prefix, idx, i).Some? {
        LastHitSome(prefix, idx, i);
      }
    }
  }

  /** When every result aimed at position `i` is the same `v`, the last
      one is `v`, and there is one exactly when some result aims at `i`. */
  lemma {:induction false} LastHitIs(results: seq<Option<Entry>>, idx: map<string, nat>, i: nat, v: Entry)
    requires Named(results, idx)
    requires forall k :: Aimed(results, idx, i, k) ==> results[k] == Some(v)
    ensures LastHit(results, idx, i) == if exists k :: Aimed(results, idx, i, k) then Some(v) else None
  {
    if results != [] {
      var prefix := results[..|results| - 1];
      assert forall k :: 0 <= k < |prefix| ==> prefix[k] == results[k];
      assert forall k :: Aimed(prefix, idx, i, k) <==> Aimed(results, idx, i, k) && k < |prefix|;
      LastHitIs(prefix, idx, i, v);
      if !Aimed(results, idx, i, |results| - 1) && exists k :: Aimed(results, idx, i, k) {
        var k :| Aimed(results, idx, i, k);
        assert Aimed(prefix, idx, i, k);
      }
    }
  }

  /** Some untranscribed entry carries `file_name` `n`. */
  predicate Selected(m: seq<Entry>, n: string) {
    exists j :: 0 <= j < |m| && Untranscribed(m[j], Text) && m[j].fileName == Some(n)
  }

  /** What `process_transcription` makes of entry `i`: if it is the last
      entry with its `file_name`, some untranscribed entry shares that name,
      and the file transcribes, it is updated with the result entry;
      otherwise it is unchanged. */
  function ImprovedMerged(m: seq<Entry>, dir: string, o: Oracle, i: nat): (r: Entry)
    requires AllNamed(m) && i < |m|
    ensures r.fileName == m[i].fileName
    ensures r != m[i] ==> Selected(m, m[i].fileName.value) && IsLastWithName(m, i)
  {
    var n := m[i].fileName.value;
    var res := TranscribeAndUpdate(o, Join(dir, n), n);
    if IsLastWithName(m, i) && Selected(m, n) && res.Some? then Update(m[i], res.value) else m[i]
  }

  /** Some result is aimed at position `i` exactly when `i` is the last
      entry with its name, that name was selected, and its file transcribes;
      every result aimed there is that file's result entry. */
  lemma AimedAt(m: seq<Entry>, dir: string, o: Oracle, work: seq<nat>, names: seq<string>,
                results: seq<Option<Entry>>, i: nat)
    requires AllNamed(m) && i < |m|
    requires work == WorkList(m, Text)
    requires |names| == |work| == |results|
    requires forall k :: 0 <= k < |work| ==> m[work[k]].fileName == Some(names[k])
    requires forall k :: 0 <= k < |work| ==> results[k] == TranscribeAndUpdate(o, Join(dir, names[k]), names[k])
    requires Named(results, IndexByName(m))
    ensures var n := m[i].fileName.value;
            var v := TranscribeAndUpdate(o, Join(dir, n), n);
            && (forall k :: Aimed(results, IndexByName(m), i, k) ==> results[k] == v)
            && ((exists k :: Aimed(results, IndexByName(m), i, k)) <==> IsLastWithName(m, i) && Selected(m, n) && v.Some?)
  {
    var idx := IndexByName(m);
    IndexByNameSpec(m);
    var n := m[i].fileName.value;
    var v := TranscribeAndUpdate(o, Join(dir, n), n);
    forall k | Aimed(results, idx, i, k) ensures results[k] == v && IsLastWithName(m, i) && Selected(m, n) {
      AimedHit(m, dir, o, work, names, results, i, k);
    }
    if IsLastWithName(m, i) && Selected(m, n) && v.Some? {
      var j :| 0 <= j < |m| && Untranscribed(m[j], Text) && m[j].fileName == Some(n);
      var k :| 0 <= k < |work| && work[k] == j;
      assert names[k] == n && results[k] == v;
      assert n in idx;
      assert idx[n] == i;
      assert Aimed(results, idx, i, k);
    }
  }

  /** A result aimed at position `i` is that entry's own transcription, and
      `i` is the last, selected entry with its name. */
  lemma AimedHit(m: seq<Entry>, dir: string, o: Oracle, work: seq<nat>, names: seq<string>,
                 results: seq<Option<Entry>>, i: nat, k: int)
    requires AllNamed(m) && i < |m|
    requires work == WorkList(m, Text)
    requires |names| == |work| == |results|
    requires forall k :: 0 <= k < |work| ==> m[work[k]].fileName == Some(names[k])
    requires forall k :: 0 <= k < |work| ==> results[k] == TranscribeAndUpdate(o, Join(dir, names[k]), names[k])
    requires Named(results, IndexByName(m))
    requires Aimed(results, IndexByName(m), i, k)
    ensures var n := m[i].fileName.value;
            && results[k] == TranscribeAndUpdate(o, Join(dir, n), n)
            && IsLastWithName(m, i) && Selected(m, n)
  {
    var idx := IndexByName(m);
    IndexByNameSpec(m);
    assert idx[names[k]] == i;
    assert Untranscribed(m[work[k]], Text);
  }

  /** The merge loop's outcome at one position is `ImprovedMerged`. */
  lemma MergeAt(m: seq<Entry>, dir: string, o: Oracle, work: seq<nat>, names: seq<string>,
                results: seq<Option<Entry>>, i: nat)
    requires AllNamed(m) && i < |m|
    requires work == WorkList(m, Text)
    requires |names| == |work| == |results|
    requires forall k :: 0 <= k < |work| ==> m[work[k]].fileName == Some(names[k])
    requires forall k :: 0 <= k < |work| ==> results[k] == TranscribeAndUpdate(o, Join(dir, names[k]), names[k])
    requires Keyed(results, IndexByName(m), |m|)
    ensures ApplyResults(m, IndexByName(m), results)[i] == ImprovedMerged(m, dir, o, i)
  {
    var idx := IndexByName(m);
    forall k | 0 <= k < |results| && results[k].Some? ensures ResultShaped(results[k].value) {
    }
    ApplyResultsAt(m, idx, results, i);
    AimedAt(m, dir, o, work, names, results, i);
    var n := m[i].fileName.value;
    var v := TranscribeAndUpdate(o, Join(dir, n), n);
    if v.Some? {
      LastHitIs(results, idx, i, v.value);
    } else if LastHit(results, idx, i).Some? {
      LastHitSome(results, idx, i);
    }
  }

  /** The `for entry in updated_entries` loop: each successful result
      updates, in order, the entry its `file_name` maps to in the dict. */
  method ApplyLoop(metadata: seq<Entry>, idx: map<string, nat>, results: seq<Option<Entry>>)
    returns (m: seq<Entry>)
    requires Keyed(results, idx, |metadata|)
    ensures m == ApplyResults(metadata, idx, results)
  {
    m := metadata;
    var k := 0;
    while k < |results|
      invariant 0 <= k <= |results|
      invariant Keyed(results[..k], idx, |metadata|)
      invariant m == ApplyResults(metadata, idx, results[..k])
    {
      assert results[..k + 1][..k] == results[..k];
      var entry := results[k];
      if entry.Some? {
        var target := idx[entry.value.fileName.value];
        m := m[target := Update(m[target], entry.value)];
      }
      k := k + 1;
    }
    assert results[..k] == results;
  }

  /** The entries the workers append to the truncated ledger file: the
      successful results, in work order. */
  function Successes(results: seq<Option<Entry>>): (r: seq<Entry>)
    ensures |r| <= |results|
    ensures forall e :: e in r <==> Some(e) in results
  {
    if results == [] then []
    else (if results[0].Some? then [results[0].value] else []) + Successes(results[1..])
  }

  /** What `parallel_transcribe_and_update` returns for a ledger whose
      selected entries all carry a `file_name`. */
  function ResultsFor(m: seq<Entry>, dir: string, o: Oracle): (r: seq<Option<Entry>>)
    requires !MissingFileName(m, Text)
  {
    var work := WorkList(m, Text);
    FullPathsFail(m, Text, dir);
    ParallelTranscribeAndUpdate(o, FullPaths(m, work, dir).value, FileNames(m, work))
  }

  /** Every entry appended to the ledger file is a bare result entry for a
      selected `file_name`: `file_name`, `text` and the `"commercial"` label,
      without `shasum` or `original_filename`; there is at most one per
      selected entry. */
  lemma AppendedAreResults(m: seq<Entry>, dir: string, o: Oracle)
    requires !MissingFileName(m, Text)
    ensures |Successes(ResultsFor(m, dir, o))| <= |WorkList(m, Text)|
    ensures forall e :: e in Successes(ResultsFor(m, dir, o)) ==>
      ResultShaped(e) && e.classLabels == Some(["commercial"]) && Selected(m, e.fileName.value)
  {
    var work := WorkList(m, Text);
    FullPathsFail(m, Text, dir);
    var names := FileNames(m, work);
    var paths := FullPaths(m, work, dir).value;
    var results := ParallelTranscribeAndUpdate(o, paths, names);
    assert results == ResultsFor(m, dir, o);
    assert |results| == |work|;
    forall e | e in Successes(results)
      ensures ResultShaped(e) && e.classLabels == Some(["commercial"]) && Selected(m, e.fileName.value)
    {
      assert Some(e) in results;
      var k :| 0 <= k < |results| && results[k] == Some(e);
      assert results[k] == TranscribeAndUpdate(o, paths[k], names[k]);
      var j := work[k];
      assert Untranscribed(m[j], Text) && m[j].fileName == Some(names[k]);
    }
  }

  /** `process_transcription`: `KeyError` when a selected entry lacks a
      `file_name` (before the file is touched) or any ledger entry does
      (after the workers ran); `appended` is what the truncated ledger file
      then holds; otherwise each entry becomes what `ImprovedMerged` says,
      with length and order kept. */
  method ProcessTranscription(metadata: seq<Entry>, datasetDir: string, o: Oracle)
    returns (r: Result<seq<Entry>, Error>, appended: Option<seq<Entry>>)
    ensures r.Err? <==> !AllNamed(metadata)
    ensures r.Err? ==> r.error == KeyError("file_name")
    ensures appended.None? <==> MissingFileName(metadata, Text)
    ensures appended.Some? ==> appended.value == Successes(ResultsFor(metadata, datasetDir, o))
    ensures r.Ok? ==> |r.value| == |metadata|
    ensures r.Ok? ==> forall i :: 0 <= i < |metadata| ==> r.value[i] == ImprovedMerged(metadata, datasetDir, o, i)
  {
    var work := WorkList(metadata, Text);
    FullPathsFail(metadata, Text, datasetDir);
    var fullPaths := FullPaths(metadata, work, datasetDir);
    if fullPaths.None? {
      return Err(KeyError("file_name")), None;
    }
    var fileNames := FileNames(metadata, work);
    var updatedEntries := ParallelTranscribeAndUpdate(o, fullPaths.value, fileNames);
    appended := Some(Successes(updatedEntries));
    if !AllNamed(metadata) {
      return Err(KeyError("file_name")), appended;
    }
    var idx := IndexByName(metadata);
    ResultsAreKeyed(metadata, work, o, fullPaths.value);
    var m := ApplyLoop(metadata, idx, updatedEntries);
    forall i | 0 <= i < |metadata| ensures m[i] == ImprovedMerged(metadata, datasetDir, o, i) {
      MergeAt(metadata, datasetDir, o, work, fileNames, updatedEntries, i);
    }
    r := Ok(m);
  }

  /** `transcribe_dataset` as written: load, then `process_transcription`,
      whose merged list is discarded; the ledger file ends up holding only
      the appended result entries. */
  method TranscribeDatasetAsWritten(file: string, c: Codec<Entry>, rootDir: string, o: Oracle)
    returns (r: Result<(), Error>, written: Option<string>)
    ensures LoadStrict(file, c).None? ==> r == Err(DecodeError) && written.None?
    ensures LoadStrict(file, c).Some? ==>
      var m := LoadStrict(file, c).value;
      && (r.Ok? <==> AllNamed(m))
      && (written.None? <==> MissingFileName(m, Text))
      && (written.Some? ==> written.value == Save(Successes(ResultsFor(m, rootDir, o)), c))
  {
    var loaded := LoadStrict(file, c);
    if loaded.None? {
      return Err(DecodeError), None;
    }
    var updated, appended := ProcessTranscription(loaded.value, rootDir, o);
    written := if appended.Some? then Some(Save(appended.value, c)) else None;
    r := if updated.Ok? then Ok(()) else Err(updated.error);
  }

  /** A ledger holding one transcribed entry loads as that entry, yet the
      file written back by the run as written is empty: the entry is lost. */
  lemma AsWrittenDropsTranscribedEntry(c: Codec<Entry>, dir: string, o: Oracle)
    requires LineSafe(c)
    ensures var e := Entry(Some("a.wav"), Some("h"), Some("a.mp3"), Some("hello"), Some(""), None);
            && LoadStrict(Save([e], c), c) == Some([e])
            && !MissingFileName([e], Text)
            && Save(Successes(ResultsFor([e], dir, o)), c) == ""
            && LoadStrict("", c) == Some([])
  {
    var e := Entry(Some("a.wav"), Some("h"), Some("a.mp3"), Some("hello"), Some(""), None);
    LoadStrictOfSave([e], c);
    LoadStrictOfSave([], c);
    assert WorkList([e], Text) == [];
  }

  /** `transcribe_dataset` with its `save_metadata(updated_metadata, ...)`
      call in place: on success the ledger file is rewritten with the merged
      list, which loads back whole, one entry per original entry. */
  method TranscribeDataset(file: string, c: Codec<Entry>, rootDir: string, o: Oracle)
    returns (r: Result<(), Error>, written: Option<string>, after: seq<Entry>)
    requires LineSafe(c)
    ensures LoadStrict(file, c).None? ==> r == Err(DecodeError) && written.None?
    ensures LoadStrict(file, c).Some? ==>
      var m := LoadStrict(file, c).value;
      && (r.Ok? <==> AllNamed(m))
      && (written.None? <==> MissingFileName(m, Text))
      && (r.Err? && written.Some? ==> written.value == Save(Successes(ResultsFor(m, rootDir, o)), c))
      && (r.Ok? ==> written == Some(Save(after, c)) && LoadStrict(written.value, c) == Some(after)
                    && |after| == |m|
                    && forall i :: 0 <= i < |m| ==> after[i] == ImprovedMerged(m, rootDir, o, i))
  {
    after := [];
    var loaded := LoadStrict(file, c);
    if loaded.None? {
      return Err(DecodeError), None, after;
    }
    var updated, appended := ProcessTranscription(loaded.value, rootDir, o);
    if updated.Err? {
      written := if appended.Some? then Some(Save(appended.value, c)) else None;
      return Err(updated.error), written, after;
    }
    after := updated.value;
    LoadStrictOfSave(after, c);
    r, written := Ok(()), Some(Save(after, c));
  }

  /** With unique `file_name`s each entry is the last with its name, and
      its name is selected exactly when the entry itself is untranscribed. */
  lemma UniqueSelection(m: seq<Entry>, i: nat)
    requires AllNamed(m) && UniqueFileNames(m) && i < |m|
    ensures IsLastWithName(m, i)
    ensures Selected(m, m[i].fileName.value) <==> Untranscribed(m[i], Text)
  {
    var n := m[i].fileName.value;
    if Selected(m, n) {
      var j :| 0 <= j < |m| && Untranscribed(m[j], Text) && m[j].fileName == Some(n);
      assert j == i;
    }
  }

  /** With unique `file_name`s the dict merge is a positional merge: an
      untranscribed entry whose file transcribes is updated with the result
      entry and every other entry is kept; its `text` then agrees with
      app/transcribe.py's merge, except that an empty transcription is
      written here and skipped there. */
  lemma ImprovedMatchesPositional(m: seq<Entry>, dir: string, o: Oracle, i: nat)
    requires AllNamed(m) && UniqueFileNames(m) && i < |m|
    ensures var n := m[i].fileName.value;
            var t := TranscribeFile(o, Join(dir, n));
            && ImprovedMerged(m, dir, o, i) ==
                 (if Untranscribed(m[i], Text) && t.Some? then Update(m[i], ResultEntry(n, t.value)) else m[i])
            && (t != Some("") ==> ImprovedMerged(m, dir, o, i).text == Merged(m[i], Text, dir, o).text)
  {
    UniqueSelection(m, i);
  }
}
