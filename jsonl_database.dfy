/** app/metadata.py: `JSONLDatabase`, an in-memory table that keeps each
    JSON line under its `id`, as `json.dumps` text, and hands it back
    decoded. */
module JsonlDatabase {
  import opened Wrappers
  import opened JsonLines

  /** One decoded JSON line: its `id` (`None` when the key is missing) and
      its other keys. */
  datatype Doc = Doc(id: Option<string>, rest: map<string, string>)

  /** The documents reachable by key after `INSERT OR REPLACE` of each
      line in order: a later line with the same `id` replaces an earlier
      one. A line without `id` is stored under a NULL key, which
      `WHERE key = ?` never matches, so it is not reachable. */
  function Loaded(entries: seq<Doc>): map<string, Doc> {
    if entries == [] then map[]
    else
      var prev := Loaded(entries[..|entries| - 1]);
      var last := entries[|entries| - 1];
      if last.id.Some? then prev[last.id.value := last] else prev
  }

  /** After loading, key `k` is present exactly when some line has `id`
      `k`, and it holds the last such line. */
  lemma {:induction false} LoadedLastWins(entries: seq<Doc>, k: string)
    ensures k in Loaded(entries) <==> exists i :: 0 <= i < |entries| && entries[i].id == Some(k)
    ensures k in Loaded(entries) ==>
      exists i :: (0 <= i < |entries| && entries[i].id == Some(k) && Loaded(entries)[k] == entries[i]
                   && forall j :: i < j < |entries| ==> entries[j].id != Some(k))
  {
    if entries != [] {
      var p := entries[..|entries| - 1];
      assert forall i :: 0 <= i < |p| ==> p[i] == entries[i];
      LoadedLastWins(p, k);
      var last := entries[|entries| - 1];
      if last.id == Some(k) {
        assert entries[|entries| - 1].id == Some(k);
      } else if k in Loaded(p) {
        var i :| 0 <= i < |p| && p[i].id == Some(k) && Loaded(p)[k] == p[i]
                 && forall j :: i < j < |p| ==> p[j].id != Some(k);
        assert entries[i].id == Some(k);
      }
    }
  }

  /** `UPDATE ... WHERE key = ?`: replaces the document of a present key;
      an absent key matches no row, so nothing is inserted. */
  function Updated(docs: map<string, Doc>, key: string, d: Doc): (r: map<string, Doc>)
    ensures r.Keys == docs.Keys
    ensures key in docs ==> r[key] == d
    ensures key !in docs ==> r == docs
    ensures forall k :: k in docs && k != key ==> r[k] == docs[k]
  {
    if key in docs then docs[key := d] else docs
  }

  /** The database object: `table` is the `entries` table (key to
      `json.dumps` text); `docs` is what that text decodes to. */
  class Database {
    const codec: Codec<Doc>
    var table: map<string, string>
    ghost var docs: map<string, Doc>

    /** Every stored text is the encoding of its document, and the codec
        reads back what it writes. */
    ghost predicate Valid()
      reads this
    {
      && LineSafe(codec)
      && table.Keys == docs.Keys
      && forall k :: k in table ==> table[k] == codec.encode(docs[k])
    }

    /** `__init__` and `_load_jsonl`, over the decoded lines of the file:
        each line is stored under its `id`, the last one winning. */
    constructor (entries: seq<Doc>, c: Codec<Doc>)
      requires LineSafe(c)
      ensures Valid() && codec == c
      ensures docs == Loaded(entries)
    {
      codec := c;
      table := map[];
      docs := map[];
      new;
      var i := 0;
      while i < |entries|
        invariant 0 <= i <= |entries|
        invariant Valid() && codec == c
        invariant docs == Loaded(entries[..i])
      {
        assert entries[..i + 1][..i] == entries[..i];
        var entry := entries[i];
        if entry.id.Some? {
          table := table[entry.id.value := codec.encode(entry)];
          docs := docs[entry.id.value := entry];
        }
        i := i + 1;
      }
      assert entries[..i] == entries;
    }

    /** `get`: the document stored under `key`, decoded back as it was
        stored; `None` for a key never stored. */
    method Get(key: string) returns (r: Option<Doc>)
      requires Valid()
      ensures key in docs ==> r == Some(docs[key])
      ensures key !in docs ==> r.None?
    {
      if key in table {
        r := codec.decode(table[key]);
      } else {
        r := None;
      }
    }

    /** `update`: the document under a present key becomes `d`; an absent
        key is not inserted; no other key changes. */
    method Update(key: string, d: Doc)
      requires Valid()
      modifies this
      ensures Valid()
      ensures docs == Updated(old(docs), key, d)
    {
      if key in table {
        table := table[key := codec.encode(d)];
        docs := docs[key := d];
      }
    }
  }
}
