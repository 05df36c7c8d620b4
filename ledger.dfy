/** One line of the metadata ledger (`metadata.jsonl`), as the pipeline's
    scripts read and write it. Each field is a JSON key that may be absent
    (`None`); the ingest script writes `shasum`, `original_filename` and
    `transcription`, the transcription scripts read and write `text`,
    `transcription` and `class_labels`. */
module Ledger {
  import opened Wrappers

  datatype Entry = Entry(
    fileName: Option<string>,
    shasum: Option<string>,
    originalFilename: Option<string>,
    text: Option<string>,
    transcription: Option<string>,
    classLabels: Option<seq<string>>)

  /** Why a script's run raised: a required key was missing from an entry,
      or a ledger line did not decode. */
  datatype Error = KeyError(key: string) | DecodeError

  /** The transcript field a script works on: `text` (app/transcribe.py,
      app/transcribe_improved.py) or `transcription` (app/validate.py). */
  datatype Field = Text | Transcription

  /** `entry.get(field)`. */
  function Get(e: Entry, f: Field): Option<string> {
    match f
    case Text => e.text
    case Transcription => e.transcription
  }

  /** `entry[field] = v`: that key now holds `v`, every other key is kept. */
  function Set(e: Entry, f: Field, v: string): (r: Entry)
    ensures Get(r, f) == Some(v)
    ensures r.fileName == e.fileName && r.shasum == e.shasum
    ensures r.originalFilename == e.originalFilename && r.classLabels == e.classLabels
    ensures f == Text ==> r.transcription == e.transcription
    ensures f == Transcription ==> r.text == e.text
  {
    match f
    case Text => e.(text := Some(v))
    case Transcription => e.(transcription := Some(v))
  }

  /** `not entry.get(field)`: the key is absent or holds the empty string. */
  predicate Untranscribed(e: Entry, f: Field) {
    Get(e, f).None? || Get(e, f).value == ""
  }

  /** No two entries carry the same `file_name` (entries without one are not
      constrained). */
  predicate UniqueFileNames(m: seq<Entry>) {
    forall i, j :: 0 <= i < j < |m| && m[i].fileName.Some? ==> m[i].fileName != m[j].fileName
  }
}
