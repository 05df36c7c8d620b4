/** The SQLite download tracker both crawlers keep (app/crawler/db.py and
    app/crawl.py): one table keyed by `video_id`, written with
    `INSERT OR REPLACE` and probed with `SELECT 1 ... WHERE video_id = ?`.
    Whether the database file can be opened is a field of the state. */
module TrackerStore {

  /** The database as the crawler sees it: whether it can be opened,
      whether the tracker table exists, and its rows by `video_id`. */
  datatype Store<Row> = Store(accessible: bool, tableExists: bool, rows: map<string, Row>)

  /** `CREATE TABLE IF NOT EXISTS`: creates the table, empty, when the
      database opens and the table is missing; an existing table keeps
      every row, and a database that does not open is left as it was. */
  function CreateIfMissing<Row>(s: Store<Row>): (r: Store<Row>)
    ensures r.accessible == s.accessible
    ensures r.tableExists <==> s.tableExists || s.accessible
    ensures !s.accessible ==> r == s
    ensures s.tableExists ==> r.rows == s.rows
    ensures s.accessible && !s.tableExists ==> r.rows == map[]
  {
    if !s.accessible then s
    else if s.tableExists then s
    else Store(true, true, map[])
  }

  /** Initialising twice is initialising once. */
  lemma CreateIdempotent<Row>(s: Store<Row>)
    ensures CreateIfMissing(CreateIfMissing(s)) == CreateIfMissing(s)
  {
  }

  /** `SELECT 1 FROM ... WHERE video_id = ?` finds a row; an error (no
      database, no table) reads as "not downloaded". */
  predicate Contains<Row>(s: Store<Row>, id: string) {
    s.accessible && s.tableExists && id in s.rows
  }

  /** `INSERT OR REPLACE`: on an open database with the table, the row for
      `id` becomes `row` (replacing any earlier one, so there is never a
      duplicate) and no other id's row changes; otherwise the statement
      fails and nothing changes. The flag says whether it succeeded. */
  function Upserted<Row>(s: Store<Row>, id: string, row: Row): (r: (Store<Row>, bool))
    ensures r.1 <==> s.accessible && s.tableExists
    ensures r.0.accessible == s.accessible && r.0.tableExists == s.tableExists
    ensures r.1 ==> Contains(r.0, id) && r.0.rows[id] == row
    ensures r.0.rows.Keys == if r.1 then s.rows.Keys + {id} else s.rows.Keys
    ensures forall k :: k != id ==> (Contains(r.0, k) <==> Contains(s, k))
    ensures forall k :: k != id && k in s.rows ==> r.0.rows[k] == s.rows[k]
    ensures !r.1 ==> r.0 == s
  {
    if s.accessible && s.tableExists then (s.(rows := s.rows[id := row]), true) else (s, false)
  }

  /** Two upserts for the same id leave only the later row. */
  lemma UpsertLastWins<Row>(s: Store<Row>, id: string, a: Row, b: Row)
    ensures Upserted(Upserted(s, id, a).0, id, b).0 == Upserted(s, id, b).0
  {
  }

  /** The tracker database, updated in place. */
  class Table<Row> {
    var accessible: bool
    var tableExists: bool
    var rows: map<string, Row>

    /** The state as a value. */
    function State(): Store<Row>
      reads this
    {
      Store(accessible, tableExists, rows)
    }

    /** Opens a database in the given state. */
    constructor (s: Store<Row>)
      ensures State() == s
    {
      accessible, tableExists, rows := s.accessible, s.tableExists, s.rows;
    }

    /** Runs `CREATE TABLE IF NOT EXISTS`; false when the database does
        not open. */
    method CreateTable() returns (ok: bool)
      modifies this
      ensures State() == CreateIfMissing(old(State()))
      ensures ok <==> accessible
    {
      ok := accessible;
      if accessible && !tableExists {
        tableExists, rows := true, map[];
      }
    }

    /** Runs `INSERT OR REPLACE` for `id`; false when it fails. */
    method Upsert(id: string, row: Row) returns (ok: bool)
      modifies this
      ensures State() == Upserted(old(State()), id, row).0
      ensures ok == Upserted(old(State()), id, row).1
    {
      ok := accessible && tableExists;
      if ok {
        rows := rows[id := row];
      }
    }

    /** Runs the `SELECT 1` probe; false on any error. */
    method Has(id: string) returns (b: bool)
      ensures b <==> Contains(State(), id)
    {
      b := accessible && tableExists && id in rows;
    }
  }
}
