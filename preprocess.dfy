/** The ingest script (app/preprocess.py): it lists an input directory,
    derives a ledger key from each audio file's name, skips files whose hash
    is unknown or already recorded, converts the others with ffmpeg and
    upserts one ledger entry per converted file, rewriting the ledger file
    after each success. SHA-256 and ffmpeg are oracles: the per-file
    `IngestOutcome` says what they returned. */
module Preprocess {
  import opened Wrappers
  import opened Text
  import opened Paths
  import opened JsonLines
  import opened Ledger

  /** The default `supported_extensions`. */
  const SupportedExtensions: seq<string> := [".wav", ".mp3", ".flac", ".ogg", ".m4a"]

  /** What `sanitize_filename` returns for an empty name. */
  const UnnamedFile: string := "unnamed_file"

  /** `\w` (ASCII part): letters, digits and the underscore. */
  predicate IsWordChar(c: char) {
    'a' <= c <= 'z' || 'A' <= c <= 'Z' || '0' <= c <= '9' || c == '_'
  }

  /** The class `[\w\-_\.]`: characters `sanitize_filename` keeps. */
  predicate Allowed(c: char) {
    IsWordChar(c) || c == '-' || c == '.'
  }

  /** `re.sub(r'[^\w\-_\.]', '_', s)`: every character outside the class
      becomes one `_`, every other character stays where it is. */
  function ReplaceDisallowed(s: string): (r: string)
    ensures |r| == |s|
    ensures forall i :: 0 <= i < |s| ==> r[i] == if Allowed(s[i]) then s[i] else '_'
  {
    if s == [] then [] else [if Allowed(s[0]) then s[0] else '_'] + ReplaceDisallowed(s[1..])
  }

  /** `sanitize_filename`. */
  function SanitizeFilename(name: string): (r: string)
    ensures name == [] ==> r == UnnamedFile
    ensures name != [] ==> (|r| == |name|
                            && forall i :: 0 <= i < |name| ==> r[i] == if Allowed(name[i]) then name[i] else '_')
    ensures forall i :: 0 <= i < |r| ==> Allowed(r[i])
  {
    var sanitized := ReplaceDisallowed(name);
    if sanitized != [] then sanitized else UnnamedFile
  }

  /** Sanitizing a sanitized name changes nothing. */
  lemma SanitizeIdempotent(name: string)
    ensures SanitizeFilename(SanitizeFilename(name)) == SanitizeFilename(name)
  {
    var s := SanitizeFilename(name);
    assert SanitizeFilename(s) == s;
  }

  /** A name is its own sanitized form exactly when it is non-empty and
      made only of kept characters. */
  lemma SanitizeFixedPoints(name: string)
    ensures SanitizeFilename(name) == name <==> name != [] && forall i :: 0 <= i < |name| ==> Allowed(name[i])
  {
    if name != [] && SanitizeFilename(name) == name {
      assert forall i :: 0 <= i < |name| ==> Allowed(SanitizeFilename(name)[i]);
    }
  }

  /** `str.lower()` on one character (ASCII letters). */
  function LowerChar(c: char): char {
    if 'A' <= c <= 'Z' then (c as int + 32) as char else c
  }

  /** `str.lower()` (ASCII letters). */
  function Lower(s: string): (r: string)
    ensures |r| == |s|
    ensures forall i :: 0 <= i < |s| ==> r[i] == LowerChar(s[i])
  {
    if s == [] then [] else [LowerChar(s[0])] + Lower(s[1..])
  }

  /** `os.path.splitext(f)[1].lower() in supported_extensions`. */
  predicate IsSupported(name: string, supported: seq<string>) {
    Lower(SplitExt(name).1) in supported
  }

  /** One name of `os.listdir(input_dir)`, with the answer `os.path.isfile`
      gives for it. */
  datatype DirEntry = DirEntry(name: string, isFile: bool)

  /** The `audio_files` comprehension: the listed regular files with a
      supported extension, in listing order. */
  function AudioFiles(listing: seq<DirEntry>, supported: seq<string>): (r: seq<string>)
    ensures |r| <= |listing|
    ensures forall f :: f in r <==> exists k :: 0 <= k < |listing| && listing[k].name == f
                                          && listing[k].isFile && IsSupported(f, supported)
  {
    if listing == [] then []
    else
      var rest := AudioFiles(listing[1..], supported);
      assert forall k :: 1 <= k < |listing| ==> listing[k] == listing[1..][k - 1];
      if listing[0].isFile && IsSupported(listing[0].name, supported)
      then [listing[0].name] + rest
      else rest
  }

  /** The ledger key of an audio file: `f"data/{safe_id}.wav"`. */
  function LedgerKey(audioFile: string): string {
    "data/" + SanitizeFilename(SplitExt(audioFile).0) + ".wav"
  }

  /** What the oracles give for one audio file: `calculate_shasum(input_path)`,
      `convert_audio_to_wav(input_path, output_path)` and, after a
      conversion, `calculate_shasum(output_path)`. */
  datatype IngestOutcome = IngestOutcome(sourceHash: Option<string>, converted: bool, outputHash: Option<string>)

  /** Which way one iteration of the loop went. */
  datatype Step = NoHash | AlreadyProcessed | ConvertFailed | Converted

  /** `not current_hash` is false: a hash was computed and is not empty. */
  predicate HashUsable(h: Option<string>) {
    h.Some? && h.value != ""
  }

  /** `next((entry for entry in metadata if entry.get('file_name') == key), None)`. */
  function FindByName(m: seq<Entry>, key: string): (r: Option<Entry>)
    ensures r.None? <==> forall i :: 0 <= i < |m| ==> m[i].fileName != Some(key)
    ensures r.Some? ==> exists i :: 0 <= i < |m| && m[i] == r.value && m[i].fileName == Some(key)
                                  && forall j :: 0 <= j < i ==> m[j].fileName != Some(key)
  {
    if m == [] then None
    else if m[0].fileName == Some(key) then Some(m[0])
    else
      var r := FindByName(m[1..], key);
      assert forall i :: 1 <= i < |m| ==> m[i] == m[1..][i - 1];
      r
  }

  /** `[item for item in metadata if item.get('file_name') != key]`. */
  function RemoveName(m: seq<Entry>, key: string): (r: seq<Entry>)
    ensures |r| <= |m|
    ensures forall e :: e in r <==> e in m && e.fileName != Some(key)
  {
    if m == [] then []
    else if m[0].fileName == Some(key) then RemoveName(m[1..], key)
    else [m[0]] + RemoveName(m[1..], key)
  }

  /** The filter keeps relative order: it distributes over concatenation. */
  lemma {:induction false} RemoveNameConcat(a: seq<Entry>, b: seq<Entry>, key: string)
    ensures RemoveName(a + b, key) == RemoveName(a, key) + RemoveName(b, key)
  {
    if a == [] {
      assert a + b == b;
    } else {
      assert (a + b)[1..] == a[1..] + b;
      RemoveNameConcat(a[1..], b, key);
    }
  }

  /** Removing an absent key changes nothing. */
  lemma {:induction false} RemoveNameAbsent(m: seq<Entry>, key: string)
    requires forall i :: 0 <= i < |m| ==> m[i].fileName != Some(key)
    ensures RemoveName(m, key) == m
  {
    if m != [] {
      RemoveNameAbsent(m[1..], key);
    }
  }

  /** Removing entries cannot create a duplicate `file_name`. */
  lemma {:induction false} RemoveNameKeepsUnique(m: seq<Entry>, key: string)
    requires UniqueFileNames(m)
    ensures UniqueFileNames(RemoveName(m, key))
  {
    if m != [] {
      assert UniqueFileNames(m[1..]) by {
        forall i, j | 0 <= i < j < |m[1..]| && m[1..][i].fileName.Some?
          ensures m[1..][i].fileName != m[1..][j].fileName
        {
          assert m[1..][i] == m[i + 1] && m[1..][j] == m[j + 1];
        }
      }
      RemoveNameKeepsUnique(m[1..], key);
      var rest := RemoveName(m[1..], key);
      if m[0].fileName != Some(key) {
        var r := [m[0]] + rest;
        forall i, j | 0 <= i < j < |r| && r[i].fileName.Some?
          ensures r[i].fileName != r[j].fileName
        {
          if i == 0 {
            assert r[j] in rest;
            assert r[j] in m[1..];
            var k :| 0 <= k < |m[1..]| && m[1..][k] == r[j];
            assert m[k + 1] == r[j];
          } else {
            assert r[i] == rest[i - 1] && r[j] == rest[j - 1];
          }
        }
      }
    }
  }

  /** The entry a successful conversion records. */
  function NewEntry(key: string, audioFile: string, o: IngestOutcome): Entry {
    Entry(Some(key), o.outputHash, Some(audioFile), None, Some(""), None)
  }

  /** The first ledger entry with `file_name` `key` exists and has `shasum`
      `h`: the skip test of line 125. */
  predicate RecordedWithHash(m: seq<Entry>, key: string, h: Option<string>) {
    exists i :: (0 <= i < |m| && m[i].fileName == Some(key)
                 && (forall j :: 0 <= j < i ==> m[j].fileName != Some(key))
                 && m[i].shasum == h)
  }

  /** `existing_entry and existing_entry.get('shasum') == h` holds exactly
      when the first entry with the key carries hash `h`. */
  lemma FindByNameRecorded(m: seq<Entry>, key: string, h: Option<string>)
    ensures (FindByName(m, key).Some? && FindByName(m, key).value.shasum == h) <==> RecordedWithHash(m, key, h)
  {
    var r := FindByName(m, key);
    if RecordedWithHash(m, key, h) {
      var i :| 0 <= i < |m| && m[i].fileName == Some(key)
               && (forall j :: 0 <= j < i ==> m[j].fileName != Some(key)) && m[i].shasum == h;
      var i' :| 0 <= i' < |m| && m[i'] == r.value && m[i'].fileName == Some(key)
                && forall j :: 0 <= j < i' ==> m[j].fileName != Some(key);
      assert i == i';
    }
  }

  /** One iteration of the loop in `process_audio_files`: the way it went and
      the ledger after it. */
  function IngestOne(m: seq<Entry>, audioFile: string, o: IngestOutcome): (r: (Step, seq<Entry>))
    ensures r.0 == NoHash <==> !HashUsable(o.sourceHash)
    ensures r.0 == AlreadyProcessed <==> HashUsable(o.sourceHash) && RecordedWithHash(m, LedgerKey(audioFile), o.sourceHash)
    ensures r.0 == ConvertFailed ==> !o.converted
    ensures r.0 == Converted ==> o.converted
    ensures r.0 != Converted ==> r.1 == m
    ensures r.0 == Converted ==> (|r.1| >= 1
      && r.1[|r.1| - 1] == NewEntry(LedgerKey(audioFile), audioFile, o)
      && r.1[..|r.1| - 1] == RemoveName(m, LedgerKey(audioFile)))
  {
    var key := LedgerKey(audioFile);
    var existing := FindByName(m, key);
    FindByNameRecorded(m, key, o.sourceHash);
    if !HashUsable(o.sourceHash) then (NoHash, m)
    else if existing.Some? && existing.value.shasum == o.sourceHash then (AlreadyProcessed, m)
    else if !o.converted then (ConvertFailed, m)
    else
      var r := RemoveName(m, key) + [NewEntry(key, audioFile, o)];
      assert r[..|r| - 1] == RemoveName(m, key);
      (Converted, r)
  }

  /** After a conversion the key is held by exactly one entry, the last; and
      `file_name`s unique before an iteration are unique after it. */
  lemma IngestOneKeepsUnique(m: seq<Entry>, audioFile: string, o: IngestOutcome)
    ensures IngestOne(m, audioFile, o).0 == Converted ==>
      (forall i :: 0 <= i < |IngestOne(m, audioFile, o).1| - 1 ==>
         IngestOne(m, audioFile, o).1[i].fileName != Some(LedgerKey(audioFile)))
    ensures UniqueFileNames(m) ==> UniqueFileNames(IngestOne(m, audioFile, o).1)
  {
    var key := LedgerKey(audioFile);
    var r := IngestOne(m, audioFile, o);
    if r.0 == Converted {
      var rest := RemoveName(m, key);
      assert r.1 == rest + [NewEntry(key, audioFile, o)];
      forall i | 0 <= i < |r.1| - 1 ensures r.1[i].fileName != Some(key) {
        assert r.1[i] in rest;
      }
      if UniqueFileNames(m) {
        RemoveNameKeepsUnique(m, key);
        forall i, j | 0 <= i < j < |r.1| && r.1[i].fileName.Some?
          ensures r.1[i].fileName != r.1[j].fileName
        {
          if j < |r.1| - 1 {
            assert r.1[i] == rest[i] && r.1[j] == rest[j];
          }
        }
      }
    }
  }

  /** The whole loop of `process_audio_files` over the audio files, in order. */
  function IngestAll(m: seq<Entry>, files: seq<string>, outcome: string -> IngestOutcome): seq<Entry>
    decreases |files|
  {
    if files == [] then m else IngestAll(IngestOne(m, files[0], outcome(files[0])).1, files[1..], outcome)
  }

  /** Whether some iteration of the loop converted its file (and so rewrote
      the ledger file). */
  predicate AnyConverted(m: seq<Entry>, files: seq<string>, outcome: string -> IngestOutcome)
    decreases |files|
  {
    files != [] &&
    (IngestOne(m, files[0], outcome(files[0])).0 == Converted
     || AnyConverted(IngestOne(m, files[0], outcome(files[0])).1, files[1..], outcome))
  }

  /** `file_name`s unique before the loop are unique after it. */
  lemma {:induction false} IngestAllKeepsUnique(m: seq<Entry>, files: seq<string>, outcome: string -> IngestOutcome)
    requires UniqueFileNames(m)
    ensures UniqueFileNames(IngestAll(m, files, outcome))
    decreases |files|
  {
    if files != [] {
      IngestOneKeepsUnique(m, files[0], outcome(files[0]));
      IngestAllKeepsUnique(IngestOne(m, files[0], outcome(files[0])).1, files[1..], outcome);
    }
  }

  /** A loop in which no file converts leaves the ledger as it was. */
  lemma {:induction false} IngestAllWithoutConversion(m: seq<Entry>, files: seq<string>, outcome: string -> IngestOutcome)
    requires !AnyConverted(m, files, outcome)
    ensures IngestAll(m, files, outcome) == m
    decreases |files|
  {
    if files != [] {
      IngestAllWithoutConversion(m, files[1..], outcome);
    }
  }

  /** `process_audio_files` on an already loaded ledger: the final in-memory
      ledger, and the list last written to the ledger file (`None` when the
      file was never rewritten). `supported_extensions` has the same
      default as in the source. */
  method ProcessAudioFiles(metadata: seq<Entry>, listing: seq<DirEntry>, outcome: string -> IngestOutcome,
                           supported: seq<string> := SupportedExtensions)
    returns (ledger: seq<Entry>, saved: Option<seq<Entry>>)
    ensures ledger == IngestAll(metadata, AudioFiles(listing, supported), outcome)
    ensures saved.Some? <==> AnyConverted(metadata, AudioFiles(listing, supported), outcome)
    ensures saved.Some? ==> saved.value == ledger
    ensures saved.None? ==> ledger == metadata
    ensures UniqueFileNames(metadata) ==> UniqueFileNames(ledger)
  {
    var files := AudioFiles(listing, supported);
    ledger, saved := metadata, None;
    var i := 0;
    while i < |files|
      invariant 0 <= i <= |files|
      invariant IngestAll(ledger, files[i..], outcome) == IngestAll(metadata, files, outcome)
      invariant AnyConverted(metadata, files, outcome)
                <==> saved.Some? || AnyConverted(ledger, files[i..], outcome)
      invariant saved.Some? ==> saved.value == ledger
      invariant saved.None? ==> ledger == metadata
      invariant UniqueFileNames(metadata) ==> UniqueFileNames(ledger)
    {
      var audioFile := files[i];
      var o := outcome(audioFile);
      var key := LedgerKey(audioFile);
      var existing := FindByName(ledger, key);
      assert files[i..][1..] == files[i + 1..];
      IngestOneKeepsUnique(ledger, audioFile, o);
      if !HashUsable(o.sourceHash) {
        // skipped: could not calculate hash
      } else if existing.Some? && existing.value.shasum == o.sourceHash {
        // skipped: already processed
      } else if o.converted {
        ledger := RemoveName(ledger, key) + [NewEntry(key, audioFile, o)];
        saved := Some(ledger);
      } else {
        // conversion failed: nothing recorded
      }
      i := i + 1;
    }
  }

  /** The ledger a run starts from: `[]` when the file does not exist,
      otherwise the blank-skipping load. */
  function LoadLedger(file: Option<string>, c: Codec<Entry>): (r: seq<Entry>)
    ensures file.None? ==> r == []
  {
    match file
    case None => []
    case Some(text) => LoadSkippingBlank(text, c)
  }

  /** The next run starts from exactly the ledger this run last saved. */
  lemma ReloadSavedLedger(ledger: seq<Entry>, c: Codec<Entry>)
    requires LineSafe(c) && Compact(c)
    ensures LoadLedger(Some(Save(ledger, c)), c) == ledger
  {
    LoadSkippingBlankOfSave(ledger, c);
  }

  /** A rerun on an unchanged file whose converted bytes hash like its source
      bytes takes the skip branch and changes nothing. */
  lemma RerunSkipsWhenHashesAgree(m: seq<Entry>, audioFile: string, o: IngestOutcome)
    requires IngestOne(m, audioFile, o).0 == Converted
    requires o.outputHash == o.sourceHash
    ensures IngestOne(IngestOne(m, audioFile, o).1, audioFile, o)
            == (AlreadyProcessed, IngestOne(m, audioFile, o).1)
  {
    var key := LedgerKey(audioFile);
    var m1 := IngestOne(m, audioFile, o).1;
    IngestOneKeepsUnique(m, audioFile, o);
    assert FindByName(m1, key) == Some(NewEntry(key, audioFile, o));
  }

  /** The skip test compares the SOURCE hash with the stored hash of the
      CONVERTED file: when they differ, a rerun on the same unchanged file
      converts it again, and the fresh entry (empty `transcription`, no
      `text`) replaces the one recorded before, whatever transcript that
      one had gained in between. */
  lemma RerunReconvertsWhenHashesDiffer(m: seq<Entry>, audioFile: string, o: IngestOutcome, transcript: string)
    requires IngestOne(m, audioFile, o).0 == Converted
    requires o.outputHash != o.sourceHash
    ensures var m1 := IngestOne(m, audioFile, o).1;
            var m2 := m1[|m1| - 1 := m1[|m1| - 1].(text := Some(transcript))];
            IngestOne(m2, audioFile, o) == (Converted, m1)
  {
    var key := LedgerKey(audioFile);
    var m1 := IngestOne(m, audioFile, o).1;
    var m2 := m1[|m1| - 1 := m1[|m1| - 1].(text := Some(transcript))];
    IngestOneKeepsUnique(m, audioFile, o);
    var n := |m1| - 1;
    assert m2[..n] == m1[..n];
    assert FindByName(m2, key) == Some(m2[n]);
    assert m2 == m2[..n] + [m2[n]];
    RemoveNameConcat(m2[..n], [m2[n]], key);
    RemoveNameAbsent(m2[..n], key);
    assert RemoveName(m2, key) == m1[..n];
    assert m1 == m1[..n] + [NewEntry(key, audioFile, o)];
  }

  /** The ingest step as evidently intended: the new entry records the hash
      of the SOURCE file, the value the skip test compares against. */
  function IngestOneIntended(m: seq<Entry>, audioFile: string, o: IngestOutcome): (r: (Step, seq<Entry>))
    ensures r.0 == AlreadyProcessed <==> HashUsable(o.sourceHash) && RecordedWithHash(m, LedgerKey(audioFile), o.sourceHash)
    ensures r.0 == Converted ==> (o.converted && |r.1| >= 1
      && r.1[|r.1| - 1].fileName == Some(LedgerKey(audioFile))
      && r.1[|r.1| - 1].shasum == o.sourceHash
      && r.1[..|r.1| - 1] == RemoveName(m, LedgerKey(audioFile)))
    ensures r.0 != Converted ==> r.1 == m
  {
    IngestOne(m, audioFile, o.(outputHash := o.sourceHash))
  }

  /** With the intended step, a rerun on the same unchanged file skips it
      whatever its converted bytes hash to, and the transcript written in
      between survives. */
  lemma IntendedRerunKeepsTranscript(m: seq<Entry>, audioFile: string, o: IngestOutcome, transcript: string)
    requires IngestOneIntended(m, audioFile, o).0 == Converted
    ensures var m1 := IngestOneIntended(m, audioFile, o).1;
            var m2 := m1[|m1| - 1 := m1[|m1| - 1].(text := Some(transcript))];
            IngestOneIntended(m2, audioFile, o) == (AlreadyProcessed, m2)
  {
    var key := LedgerKey(audioFile);
    var o' := o.(outputHash := o.sourceHash);
    var m1 := IngestOne(m, audioFile, o').1;
    var n := |m1| - 1;
    var m2 := m1[n := m1[n].(text := Some(transcript))];
    IngestOneKeepsUnique(m, audioFile, o');
    assert forall i :: 0 <= i < n ==> m2[i] == m1[i];
    assert FindByName(m2, key) == Some(m2[n]);
    assert m2[n].shasum == o.sourceHash;
  }
}
