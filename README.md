# crawl-py bookkeeping, in Dafny

crawl-py collects short audio clips from video search results and turns
them into a transcribed dataset. This project models its bookkeeping: the
state it keeps and the rules it uses to update that state.

- **The dataset ledger** is `metadata.jsonl`, one JSON object per line.
  - The ingest script (`app/preprocess.py`) adds entries to it. It converts each
    supported audio file, keys it by `data/<sanitized name>.wav`, and skips a
    file whose hash matches the one already recorded.
  - The three transcription scripts (`app/transcribe.py`, `app/validate.py`,
    `app/transcribe_improved.py`) select the entries that have no transcript,
    transcribe their files, and merge the results back. The first two merge
    by position. The third merges through a `file_name` dictionary.
  - `app/metadata.py` is a key-value view of a JSON Lines file.
- **The download tracker** is an SQLite table keyed by video id. There are two
  copies:
  - `app/crawler/db.py`, driven by the yt-dlp hooks of `app/crawler/hooks.py`;
  - the older `app/crawl.py`, with its own hooks and search-result filter.
  - `app/crawler/metadata.py` and `app/crawler/file_io.py` build the records
    and find the downloaded audio.

External tools are parameters:

- ffmpeg and SHA-256 become one `IngestOutcome` per file: the source hash,
  whether conversion succeeded, and the output hash.
- Whisper and `os.path.exists` become a transcription `Oracle`.
- `json.dumps`/`json.loads` become a `Codec`. The round-trip lemmas assume
  two things about it. It reads back what it writes, with no raw newline in
  the output (`LineSafe`). The blank-skipping loader's round trips
  (`JsonLines.NonBlankOfEncoded`, `JsonLines.LoadSkippingBlankOfSave`,
  `Preprocess.ReloadSavedLedger`) also assume that its output is never empty
  and neither starts nor ends with whitespace (`Compact`).
- Directory listings, the clock and the SQLite file's availability are inputs.

Modules:

- `Wrappers`, `Text`, `Paths`, `JsonLines`: Python string, path and JSON
  Lines semantics.
- `Ledger`: the ledger entry.
- `Preprocess`: ingest.
- `Transcriber`: the shared worker and positional merge.
- `Transcribe`, `Validate`, `TranscribeImproved`: the three transcription
  scripts.
- `JsonlDatabase`: `app/metadata.py`.
- `TrackerStore`: the SQLite tracker table, as a class.
- `CrawlerConfig`, `CrawlerMetadata`, `CrawlerFileIo`, `CrawlerDb`,
  `CrawlerHooks`: `app/crawler/`.
- `Crawl`: `app/crawl.py`.

Behaviours of the code worth noting:

- The ingest listing is not sorted. Files are handled in `os.listdir` order.
- The source file is not removed after conversion.
- Ledger saves rewrite the file in place. They are not atomic.
- In `app/transcribe_improved.py` the workers append to the ledger file
  themselves.

## Model

| member | source | states |
|---|---|---|
| Text.TrimStart | app/transcribe.py:33 | `lstrip`: the result is the longest suffix with no leading whitespace, and everything dropped is whitespace |
| Text.TrimEnd | app/transcribe.py:33 | `rstrip`: the result is the longest prefix with no trailing whitespace, and everything dropped is whitespace |
| Text.Strip | app/transcribe.py:33 | `strip`: the result is a contiguous slice of the input, with only whitespace outside it and no whitespace at either end |
| Text.StripOfStripped | app/preprocess.py:89 | a string whose ends are not whitespace is its own strip |
| Text.ContainsAt | app/crawler/file_io.py:14 | `sub in s` holds exactly when `sub` occurs at some position of `s` |
| Text.ContainsEmpty | app/crawler/file_io.py:14 | the empty string is in every string |
| Paths.Join | app/transcribe.py:91 | `os.path.join`: the result ends with the second part; an absolute second part replaces the first; otherwise the parts are joined with exactly one '/' between them (none added when the first part is empty or already ends in '/') |
| Paths.RFind | app/preprocess.py:107 | `rfind`: the last position of the character, or -1 |
| Paths.SplitExt | app/preprocess.py:107 | `os.path.splitext`: root and extension concatenate to the path; the extension is non-empty exactly when the final component holds a dot preceded, within that component, by a character other than a dot; a non-empty extension is one leading dot with no further dot or slash, so it starts at the last dot |
| JsonLines.Encoded | app/transcribe.py:72-73 | one encoded line per record, in order |
| JsonLines.IndexOf | app/transcribe.py:61 | the first position of the character, or the length |
| JsonLines.Lines | app/transcribe.py:61 | iterating a file's text, taken after Python's universal-newline translation, gives lines without newline characters; terminating each line with a newline rebuilds the text, plus one newline when the text did not end with one |
| JsonLines.DecodeAll | app/transcribe.py:61 | decoding succeeds iff every line decodes; the result has one record per line, each that line's decoding |
| JsonLines.NonBlank | app/preprocess.py:89 | the lines kept are non-empty strips of input lines, and every line whose strip is non-empty is kept, stripped |
| JsonLines.NonBlankConcat | app/preprocess.py:89 | blank skipping distributes over concatenation, so kept lines stay in file order |
| JsonLines.LoadSkippingBlank | app/preprocess.py:86-91 | the tolerant load: when every non-blank line decodes, one record per non-blank line, each its decoding, in order; when one fails to decode, `[]` |
| JsonLines.LinesOfSave | app/transcribe.py:71-73 | reading back a saved file gives exactly the encoded lines |
| JsonLines.LoadStrictOfSave | app/transcribe.py:56-77 | the strict load of a saved list is that list |
| JsonLines.NonBlankOfEncoded | app/preprocess.py:89 | compact encodings survive the `strip`/blank filter unchanged |
| JsonLines.LoadSkippingBlankOfSave | app/preprocess.py:89 | the tolerant load of a saved list is that list |
| Ledger.Set | app/transcribe.py:99 | assigning `text` or `transcription` sets that key and leaves every other key as it was |
| Preprocess.ReplaceDisallowed | app/preprocess.py:66 | `re.sub`: same length; each character is kept when it is in `[\w\-_.]` and becomes `_` otherwise |
| Preprocess.SanitizeFilename | app/preprocess.py:61-69 | `"unnamed_file"` exactly for the empty name; otherwise same length, pointwise replacement; every output character is allowed |
| Preprocess.SanitizeIdempotent | app/preprocess.py:66-69 | sanitizing twice is sanitizing once |
| Preprocess.SanitizeFixedPoints | app/preprocess.py:66-69 | a name is unchanged by sanitizing iff it is non-empty and made only of allowed characters |
| Preprocess.Lower | app/preprocess.py:97 | `lower()` maps each character, keeping length |
| Preprocess.AudioFiles | app/preprocess.py:94-98 | a name is an audio file iff it is a listed regular file whose lower-cased extension is supported |
| Preprocess.FindByName | app/preprocess.py:112-116 | `next(...)`: `None` iff no entry has the key; otherwise an entry with that key |
| Preprocess.FindByNameRecorded | app/preprocess.py:112-125 | the `next(...)` lookup returns an entry whose `shasum` equals a given hash exactly when the first entry with that `file_name` carries that hash |
| Preprocess.RemoveName | app/preprocess.py:143-146 | keeps exactly the entries whose `file_name` differs from the key |
| Preprocess.RemoveNameConcat | app/preprocess.py:143-146 | the filter keeps order: it distributes over concatenation |
| Preprocess.RemoveNameAbsent | app/preprocess.py:143-146 | removing an absent key changes nothing |
| Preprocess.RemoveNameKeepsUnique | app/preprocess.py:143-146 | removing entries keeps `file_name`s unique |
| Preprocess.IngestOne | app/preprocess.py:101-158 | one iteration: it reports the file as already processed exactly when its hash is usable and the first stored entry with the key has that hash; no usable hash, or a stored entry with an equal hash, skips with the ledger unchanged; a failed conversion leaves it unchanged; a conversion removes the key and appends the new entry with the output hash, the original name and an empty transcription |
| Preprocess.IngestOneKeepsUnique | app/preprocess.py:142-149 | after a conversion exactly one entry, the last, has the key; unique `file_name`s stay unique |
| Preprocess.IngestAllKeepsUnique | app/preprocess.py:101-158 | the whole loop keeps `file_name`s unique |
| Preprocess.IngestAllWithoutConversion | app/preprocess.py:101-158 | a run that converts nothing leaves the ledger as it was |
| Preprocess.ProcessAudioFiles | app/preprocess.py:71-163 | the loop computes the fold `IngestAll` over the supported files (by default the five extensions of line 71); the file is rewritten iff some file converted, with the final ledger; uniqueness is preserved |
| Preprocess.LoadLedger | app/preprocess.py:84-91 | a missing ledger file loads as `[]` |
| Preprocess.ReloadSavedLedger | app/preprocess.py:86-91 | the next run starts from exactly the ledger this run saved |
| Preprocess.RerunSkipsWhenHashesAgree | app/preprocess.py:119-127 | when source and output hashes agree, re-ingesting a converted file is skipped and changes nothing |
| Preprocess.RerunReconvertsWhenHashesDiffer | app/preprocess.py:119-149 | when they differ, the file is converted again and a transcript written in between is dropped |
| Preprocess.IngestOneIntended | app/preprocess.py:119-149 | the step with the source hash recorded: it skips iff the first entry with the key holds the current source hash; a conversion appends an entry carrying that hash |
| Preprocess.IntendedRerunKeepsTranscript | app/preprocess.py:119-149 | with the source hash recorded, a rerun on an unchanged file skips it whatever the converted bytes hash to, and the transcript written in between is kept |
| Transcriber.TranscribeFile | app/transcribe.py:20-37 | `None` iff the file is missing or the call raises; otherwise the stripped text, never starting or ending with whitespace |
| Transcriber.ParallelTranscribe | app/transcribe.py:39-54 | `imap` keeps order: one result per path, each that path's transcription |
| Transcriber.WorkList | app/transcribe.py:84-87 | the selected positions are exactly the entries without text, in increasing order |
| Transcriber.Merged | app/transcribe.py:97-99 | the `file_name` is kept; an entry that had text is untouched; a changed entry got its file's non-empty transcription |
| Transcriber.MergedIdempotent | app/transcribe.py:84-99 | a second pass with the same transcriptions changes nothing |
| Transcriber.FullPaths | app/transcribe.py:90-93 | `KeyError` iff a selected entry has no `file_name`; otherwise one joined path per selected entry |
| Transcriber.FullPathsFail | app/transcribe.py:84-93 | building the paths raises exactly when some untranscribed entry has no `file_name` |
| Transcriber.ZipAssign | app/transcribe.py:97-99 | the zip loop writes each non-empty result into the selected entry it belongs to, and no other entry changes |
| Transcriber.MergedAtSelected | app/transcribe.py:97-99 | what the loop writes at a selected position is `Merged` |
| Transcriber.MergeByPosition | app/transcribe.py:79-101 | `KeyError("file_name")` iff a selected entry lacks one; otherwise the same length, with every entry `Merged` |
| Transcribe.WorkerCount | app/transcribe.py:44 | `num_workers or max(1, cpu_count - 2)`: a non-zero request is used as given; `None` and 0 give the larger of 1 and `cpu_count - 2` |
| Transcribe.ProcessTranscription | app/transcribe.py:79-101 | error iff a selected entry has no `file_name`; otherwise order and names kept; transcribed entries untouched; `text` changes iff the entry was untranscribed and its file gives non-empty text |
| Transcribe.LoadMetadata | app/transcribe.py:56-64 | the load succeeds exactly when every line decodes, and then gives one entry per line, each that line's decoding, in file order |
| Transcribe.LoadSavedMetadata | app/transcribe.py:56-77 | save then load gives the same ledger |
| Transcribe.TranscribeDataset | app/transcribe.py:103-123 | a bad line raises; a missing `file_name` raises `KeyError`; otherwise the rewritten file loads as the merged ledger |
| Validate.WorkerCount | app/validate.py:49-50 | a request, 0 included, is used as given; only `None` gives the larger of 1 and `cpu_count - 2` |
| Validate.WorkerCountsDiffer | app/validate.py:49-50 | the two scripts choose the same pool size iff the request is not an explicit 0 |
| Validate.ProcessDataset | app/validate.py:64-115 | a bad line raises; a missing `file_name` among the selected raises; otherwise the rewritten file loads as the ledger with `transcription` merged by position |
| Validate.UntranscribedAfterPass | app/validate.py:86-104 | an entry is untranscribed after the pass iff it was untranscribed before and its file gave no non-empty transcription |
| TranscribeImproved.TranscribeAndUpdate | app/transcribe_improved.py:20-52 | succeeds iff the plain worker does; the result entry is `{file_name, text: stripped text, class_labels: ["commercial"]}` |
| TranscribeImproved.ParallelTranscribeAndUpdate | app/transcribe_improved.py:54-76 | `starmap` over `zip`: one result per pair, as long as the shorter list |
| TranscribeImproved.FileNames | app/transcribe_improved.py:113 | the `file_name` of each selected entry, in order |
| TranscribeImproved.IndexByNameSpec | app/transcribe_improved.py:127 | the dict holds exactly the ledger's `file_name`s, each mapped to the last entry with that name |
| TranscribeImproved.ResultsAreKeyed | app/transcribe_improved.py:127-130 | every successful result names a key of the dict, so the lookup cannot raise |
| TranscribeImproved.ApplyResultsAt | app/transcribe_improved.py:128-130 | after the loop, an entry is updated by the last result aimed at it, or unchanged |
| TranscribeImproved.LastHitSome | app/transcribe_improved.py:128-130 | the last hit is one of the results aimed at that entry |
| TranscribeImproved.LastHitIs | app/transcribe_improved.py:128-130 | when all results aimed at an entry agree, the last hit is that result iff there is one |
| TranscribeImproved.ImprovedMerged | app/transcribe_improved.py:102-132 | the `file_name` is kept; only the last entry with a selected name can change |
| TranscribeImproved.AimedAt | app/transcribe_improved.py:102-130 | a result is aimed at an entry iff the entry is the last with its name, the name was selected and the file transcribes; every such result is that file's result entry |
| TranscribeImproved.AimedHit | app/transcribe_improved.py:102-130 | a result aimed at an entry's position is that entry's own transcription, and the entry is the last with its name and was selected |
| TranscribeImproved.MergeAt | app/transcribe_improved.py:127-130 | the loop's outcome at each position is `ImprovedMerged` |
| TranscribeImproved.ApplyLoop | app/transcribe_improved.py:128-130 | the `for entry in updated_entries` loop computes `ApplyResults` |
| TranscribeImproved.Successes | app/transcribe_improved.py:45-46 | the appended entries are exactly the successful results |
| TranscribeImproved.AppendedAreResults | app/transcribe_improved.py:38-46 | every appended entry is a bare result entry for a selected name; there are at most as many as selected entries |
| TranscribeImproved.ProcessTranscription | app/transcribe_improved.py:96-132 | `KeyError` iff some entry lacks `file_name`; the truncated file holds the successes unless a selected entry lacks one; otherwise every entry is `ImprovedMerged` |
| TranscribeImproved.TranscribeDatasetAsWritten | app/transcribe_improved.py:134-156 | the ledger file ends up holding only the appended result entries |
| TranscribeImproved.AsWrittenDropsTranscribedEntry | app/transcribe_improved.py:116-150 | a ledger with one transcribed entry is left empty |
| TranscribeImproved.TranscribeDataset | app/transcribe_improved.py:134-156 | with the save in place the file reloads as the merged ledger, one entry per original entry |
| TranscribeImproved.UniqueSelection | app/transcribe_improved.py:127 | with unique names every entry is the last with its name, and its name is selected iff it is untranscribed |
| TranscribeImproved.ImprovedMatchesPositional | app/transcribe_improved.py:127-130 | with unique names the dict merge updates exactly the untranscribed entries whose file transcribes; their `text` agrees with app/transcribe.py's except for an empty transcription |
| JsonlDatabase.LoadedLastWins | app/metadata.py:17-25 | after loading, a key is present iff some line has that `id`, and it holds the last such line |
| JsonlDatabase.Updated | app/metadata.py:33-38 | update replaces a present key's document; an absent key is not inserted; other keys unchanged |
| JsonlDatabase.Database.constructor | app/metadata.py:6-26 | the table holds the documents of `Loaded`, each stored as its encoding |
| JsonlDatabase.Database.Get | app/metadata.py:28-31 | returns the stored document decoded back unchanged; `None` for a key never stored |
| JsonlDatabase.Database.Update | app/metadata.py:33-38 | the documents become `Updated` and the table stays consistent |
| TrackerStore.CreateIfMissing | app/crawler/db.py:14-22 | `CREATE TABLE IF NOT EXISTS`: the table exists afterwards iff it existed or the database opened; an existing table keeps every row, a new one is empty, and a database that does not open is unchanged |
| TrackerStore.CreateIdempotent | app/crawler/db.py:14-22 | initialising twice is initialising once |
| TrackerStore.Upserted | app/crawler/db.py:39-49 | `INSERT OR REPLACE` succeeds iff the database and table are there; then the id holds the new row and no other id changes; a failure changes nothing |
| TrackerStore.UpsertLastWins | app/crawler/db.py:40 | two upserts for one id leave only the later row |
| TrackerStore.Table.constructor | app/crawler/db.py:11 | the tracker starts in the given state |
| TrackerStore.Table.CreateTable | app/crawler/db.py:11-24 | the state becomes `CreateIfMissing`; it reports failure iff the database does not open |
| TrackerStore.Table.Upsert | app/crawler/db.py:37-51 | the state becomes `Upserted` |
| TrackerStore.Table.Has | app/crawler/db.py:56-66 | true iff the table is readable and holds the id |
| CrawlerMetadata.FindDictWithValue | app/crawler/metadata.py:5-6 | `None` iff no dict has `key == value`; otherwise the first that does |
| CrawlerMetadata.GetCaptionUrl | app/crawler/metadata.py:9-14 | non-empty iff an English `vtt` format with a non-empty url exists; then it is the url of the first such format; never `None` |
| CrawlerMetadata.CreateVideoInfo | app/crawler/metadata.py:17-29 | `id`, `title` and `url` are copied or default to `""`; `duration` defaults to -1; `text` is `""` and `class_labels` is `[]` (app/crawler/config.py defaults) |
| CrawlerFileIo.FirstAudioFile | app/crawler/file_io.py:11-16 | the first listed position holding an audio file for the id |
| CrawlerFileIo.FindAudioFile | app/crawler/file_io.py:9-16 | `None` iff no listed name contains the id and ends with `.wav`; otherwise the directory joined with the first such name |
| CrawlerFileIo.FoundIsWav | app/crawler/file_io.py:14-16 | a found path ends with `.wav` and is never empty |
| CrawlerFileIo.EmptyIdMatchesFirstWav | app/crawler/file_io.py:14 | with an empty id, nothing is found iff no listed name ends with `.wav` |
| CrawlerDb.Record | app/crawler/db.py:30-54 | recording succeeds iff the table is usable, and then the id is downloaded with the new row; otherwise `exit(1)` with nothing written; every other id keeps its presence and its row |
| CrawlerDb.InitDatabase | app/crawler/db.py:8-28 | creates the table if missing, or `exit(1)` when the database does not open |
| CrawlerDb.RecordDownload | app/crawler/db.py:30-54 | the state and outcome are those of `Record` |
| CrawlerDb.IsVideoDownloaded | app/crawler/db.py:56-66 | true exactly for a recorded id; false on any error |
| CrawlerHooks.InfoHookStep | app/crawler/hooks.py:14-30 | an info hook raises iff the id (`""` when missing) is recorded, and never writes |
| CrawlerHooks.InfoProgressHook | app/crawler/hooks.py:14-21 | behaves as `InfoHookStep` and only reads the tracker |
| CrawlerHooks.InfoPostprocessorHook | app/crawler/hooks.py:23-30 | behaves as `InfoHookStep` and only reads the tracker |
| CrawlerHooks.ProgressStep | app/crawler/hooks.py:38-49 | `KeyError` without an id; raises before any write when the id is recorded; for an absent id, a finished status records `create_video_info` of the info dict through `Record` and returns, or exits with code 1 when that insert fails, and any other status returns with nothing written |
| CrawlerHooks.ProgressHook | app/crawler/hooks.py:38-49 | the tracker and outcome are those of `ProgressStep` |
| CrawlerHooks.PostprocessHook | app/crawler/hooks.py:52-54 | returns on every event and touches no tracker |
| CrawlerHooks.AtMostOnce | app/crawler/hooks.py:40-47 | after a recording call, a later call for the same id raises and writes nothing |
| Crawl.RowFor | app/crawl.py:55-65 | the row: `title` or `""`, the call time, `duration` or 0, and the source query |
| Crawl.InitDatabase | app/crawl.py:24-43 | creates the table if missing; a failure is only logged |
| Crawl.RecordDownload | app/crawl.py:45-69 | upsert keyed by `id` or `""`; a failure is only logged and writes nothing |
| Crawl.IsVideoDownloaded | app/crawl.py:71-80 | true exactly for a recorded id; false on any error |
| Crawl.ProgressStep | app/crawl.py:125-141 | nothing changes unless the status is `"finished"`, an audio file for the id is found and the upsert succeeds; then the row is recorded with an empty source query, and every other id keeps its presence and its row |
| Crawl.ProgressHook | app/crawl.py:125-141 | the tracker becomes `ProgressStep` |
| Crawl.RecordedAgain | app/crawl.py:125-141 | with no duplicate check, a second finished event replaces the row, keeping the later date |
| Crawl.FilterEntries | app/crawl.py:174-187 | exactly the entries that are truthy (neither `None` nor `{}`), not recorded and no longer than the maximum (missing duration counts as 0) reach the end of the loop, in order |

## Findings

| source | as written | input that shows it | evidently intended | confidence | as-written member | corrected member |
|---|---|---|---|---|---|---|
| app/preprocess.py:119-132 | the skip test compares the hash of the source file with the stored `shasum`, which is the hash of the converted file | any file whose converted bytes hash differently from its source bytes, the usual case since conversion rewrites them: each run converts it again and replaces its entry, wiping the transcript written in between | record the source hash, or compare the stored hash with a source hash, so an unchanged file is skipped | medium, not executed | Preprocess.RerunReconvertsWhenHashesDiffer | Preprocess.IntendedRerunKeepsTranscript |
| app/transcribe_improved.py:116-150 | the ledger file is truncated and only successful result entries are appended; the merged ledger is never saved, because the `save_metadata` call is commented out | a ledger whose only entry already has `text`: nothing is selected, so the file is left empty | save the merged ledger, as app/transcribe.py does | medium, not executed | TranscribeImproved.AsWrittenDropsTranscribedEntry | TranscribeImproved.TranscribeDataset |

`TranscribeImproved.TranscribeDatasetAsWritten` states the as-written
file contents for every input. `Preprocess.ProcessAudioFiles` keeps the
ingest step as written, since it models the script; the corrected step is
`Preprocess.IngestOneIntended`.

## Left out

- ffmpeg conversion, SHA-256 hashing and chunked reads: external tools. Each file's outcome is a parameter.
- Whisper, torch and model loading: a foreign ML library. Transcription is an oracle.
- `multiprocessing.Pool`: treated as an in-order map. The nondeterministic order of the concurrent appends in `app/transcribe_improved.py` is not modelled; the appended entries are taken in work order. That `app/validate.py` hands the pool an unpicklable lambda is not modelled.
- Crawl.FilterEntries: an entry whose `duration` is JSON `null` makes the comparison at app/crawl.py:185 raise `TypeError`, which the handler at app/crawl.py:189 catches, abandoning the remaining entries of that query; the model reads a null duration as a missing one (0) and keeps filtering.
- JsonLines.Lines: takes the text after Python's universal-newline translation, so '\r' and '\r\n' in the file are already '\n'; the translation itself is not modelled.
- JSON text (RFC 8259) and SQLite internals: JSON is an opaque codec, and the tracker is a map with an "opens" flag and a "table exists" flag. JSON `null` and a missing key are not distinguished, and non-string ids and float durations are not modelled.
- Lines of `app/metadata.py` without an `id` are stored under an SQLite NULL key that no lookup matches. They are left out of the table rather than kept as unreachable rows.
- Malformed lines in `app/metadata.py`: `JsonlDatabase.Database.constructor` takes the decoded lines, because a decode error raises before the object exists.
- File-system effects: directory creation, the converted file, and the ordering of writes against an exception. `app/transcribe_improved.py` truncates the ledger before the `KeyError` of line 127 can be raised; the model reports the file contents at that point.
- Preprocess.IsWordChar and Preprocess.LowerChar: `\w` and `str.lower()` are modelled for ASCII only.
- yt-dlp plumbing: `create_download_options`, `extract_info`, app/crawler/crawl.py, app/crawler/ytdlp_config.py and the per-query loop and its exception handler in `download_commercials`. Only the filter over one query's entries is modelled.
- Constants, logging, tqdm and entry points: app/crawler/postprocess.py, `CrawlConfig`, app/main.py, `setup_logging`, `ensure_directory`.
- `datetime.now()`: the download date is a parameter.
- Crawl.InitDatabase, Crawl.RecordDownload, Crawl.ProgressHook: errors are only logged. The model returns no outcome for them.
