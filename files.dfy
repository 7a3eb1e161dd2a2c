/** The `files` table of the metadata database: its rows, its AUTOINCREMENT counter and
    the one statement that changes it, the INSERT run by the upload route. */
module Files {
  import opened Wrappers

  /** The largest rowid SQLite can hand out (2^63 - 1). */
  const MaxRowId: nat := 0x7FFF_FFFF_FFFF_FFFF

  /** One row of `files`. `title` and `filename` are NOT NULL; `description`, `tags`
      and `fileType` (the `type` column) may be NULL. `uploadedAt` is the
      CURRENT_TIMESTAMP default, here in whole seconds. */
  datatype Row = Row(
    id: nat,
    title: string,
    description: Option<string>,
    filename: string,
    tags: Option<string>,
    fileType: Option<string>,
    uploadedAt: nat)

  /** What SQLite reports when the INSERT fails; the statement is then rolled back. */
  datatype SqlError =
    | NotNull(column: string)  // NOT NULL constraint failed: <column>
    | CheckFailed              // CHECK constraint failed on `type`
    | Full                     // no rowid left for AUTOINCREMENT

  /** `CHECK(type IN ('public', 'private'))`: a NULL type makes the check NULL,
      and only a false check rejects the row. */
  predicate TypeAllowed(fileType: Option<string>) {
    fileType.None? || fileType.value == "public" || fileType.value == "private"
  }

  /** What every state of the table satisfies: rows are kept in rowid order, every
      id is positive and at most the AUTOINCREMENT counter, and every type passed
      the CHECK constraint. */
  ghost predicate WellFormed(rows: seq<Row>, sequence: nat) {
    sequence <= MaxRowId &&
    (forall i :: 0 <= i < |rows| ==> 1 <= rows[i].id <= sequence && TypeAllowed(rows[i].fileType)) &&
    (forall i, j :: 0 <= i < j < |rows| ==> rows[i].id < rows[j].id)
  }

  class FilesTable {
    /** The rows, in rowid order. */
    var rows: seq<Row>
    /** The `sqlite_sequence` entry for `files`: the largest id ever handed out. */
    var sequence: nat

    ghost predicate Valid()
      reads this
    {
      WellFormed(rows, sequence)
    }

    /** `CREATE TABLE IF NOT EXISTS files (...)`: keeps whatever the database file
        already holds. */
    constructor Open(existing: seq<Row>, counter: nat)
      requires WellFormed(existing, counter)
      ensures Valid() && rows == existing && sequence == counter
    {
      rows := existing;
      sequence := counter;
    }

    /** `INSERT INTO files (title, description, filename, tags, type) VALUES (?, ?, ?, ?, ?)`
        with `uploaded_at` left to its default `now`. A missing value is bound as NULL.
        On success the new row's id (`this.lastID`) is returned. */
    method Insert(title: Option<string>, description: Option<string>, filename: Option<string>,
                  tags: Option<string>, fileType: Option<string>, now: nat)
      returns (r: Result<nat, SqlError>)
      requires Valid()
      modifies this
      ensures Valid()
      ensures r.Ok? <==> old(sequence) < MaxRowId && title.Some? && filename.Some? && TypeAllowed(fileType)
      ensures old(sequence) == MaxRowId ==> r == Err(Full)
      ensures old(sequence) < MaxRowId && title.None? ==> r == Err(NotNull("files.title"))
      ensures old(sequence) < MaxRowId && title.Some? && filename.None? ==> r == Err(NotNull("files.filename"))
      ensures old(sequence) < MaxRowId && title.Some? && filename.Some? && !TypeAllowed(fileType) ==> r == Err(CheckFailed)
      ensures r.Err? ==> rows == old(rows) && sequence == old(sequence)
      ensures r.Ok? ==>
        && r.value == old(sequence) + 1 == sequence
        && (forall row :: row in old(rows) ==> row.id < r.value)
        && rows == old(rows) + [Row(r.value, title.value, description, filename.value, tags, fileType, now)]
    {
      if sequence == MaxRowId {
        return Err(Full);
      }
      if title.None? {
        return Err(NotNull("files.title"));
      }
      if filename.None? {
        return Err(NotNull("files.filename"));
      }
      if !TypeAllowed(fileType) {
        return Err(CheckFailed);
      }
      var id := sequence + 1;
      rows := rows + [Row(id, title.value, description, filename.value, tags, fileType, now)];
      sequence := id;
      r := Ok(id);
    }
  }

  /** Ids of the rows of a well-formed table are unique, so at most one row answers
      `WHERE id = ?`. */
  lemma IdsUnique(rows: seq<Row>, sequence: nat, a: Row, b: Row)
    requires WellFormed(rows, sequence)
    requires a in rows && b in rows && a.id == b.id
    ensures a == b
  {
  }
}
