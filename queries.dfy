/** The read-only routes over the `files` table: the public listing, the search and the
    download lookup. None of them changes the table. */
module Queries {
  import opened Wrappers
  import opened Files
  import Like
  import Decimal
  import Storage

  // ---------------------------------------------------------------------------
  // GET /api/files/public: SELECT * FROM files WHERE type='public' ORDER BY uploaded_at DESC

  /** `WHERE type='public'`, in table order. A NULL type is not public. */
  function PublicRows(rows: seq<Row>): (r: seq<Row>)
    ensures forall x :: x in r <==> x in rows && x.fileType == Some("public")
    ensures multiset(r) <= multiset(rows)
  {
    if rows == [] then []
    else
      assert rows == [rows[0]] + rows[1..];
      if rows[0].fileType == Some("public") then [rows[0]] + PublicRows(rows[1..])
      else PublicRows(rows[1..])
  }

  /** `ORDER BY uploaded_at DESC`: no row is older than a row after it. Rows with the
      same timestamp may come in any order. */
  ghost predicate NewestFirst(s: seq<Row>) {
    forall i, j :: 0 <= i < j < |s| ==> s[i].uploadedAt >= s[j].uploadedAt
  }

  /** Places `x` into a newest-first sequence. */
  function InsertByTime(x: Row, s: seq<Row>): (r: seq<Row>)
    requires NewestFirst(s)
    ensures NewestFirst(r)
    ensures multiset(r) == multiset(s) + multiset{x}
    ensures r[0] == x || (s != [] && r[0] == s[0])
  {
    if s == [] || x.uploadedAt >= s[0].uploadedAt then
      [x] + s
    else
      var rest := InsertByTime(x, s[1..]);
      var r := [s[0]] + rest;
      assert NewestFirst(r) by {
        assert s[0].uploadedAt >= rest[0].uploadedAt;
        forall i, j | 0 <= i < j < |r| ensures r[i].uploadedAt >= r[j].uploadedAt {
          assert r[j] == rest[j - 1];
          if i > 0 {
            assert r[i] == rest[i - 1];
          } else if j > 1 {
            assert rest[0].uploadedAt >= rest[j - 1].uploadedAt;
          }
        }
      }
      assert multiset(r) == multiset(s) + multiset{x} by {
        assert s == [s[0]] + s[1..];
      }
      r
  }

  /** Orders rows newest first. */
  function SortByTime(s: seq<Row>): (r: seq<Row>)
    ensures NewestFirst(r)
    ensures multiset(r) == multiset(s)
  {
    if s == [] then []
    else
      assert s == [s[0]] + s[1..];
      InsertByTime(s[0], SortByTime(s[1..]))
  }

  /** The public listing: exactly the public rows, each once, newest first. */
  function ListPublic(rows: seq<Row>): (r: seq<Row>)
    ensures NewestFirst(r)
    ensures multiset(r) == multiset(PublicRows(rows))
    ensures forall x :: x in r <==> x in rows && x.fileType == Some("public")
  {
    var r := SortByTime(PublicRows(rows));
    assert forall x :: x in r <==> x in PublicRows(rows) by {
      forall x ensures x in r <==> x in PublicRows(rows) {
        assert x in r <==> x in multiset(r);
        assert x in PublicRows(rows) <==> x in multiset(PublicRows(rows));
      }
    }
    r
  }

  // ---------------------------------------------------------------------------
  // GET /api/files/search?q=...: SELECT * FROM files WHERE title LIKE ? OR tags LIKE ?

  /** The bound pattern `%${req.query.q || ''}%`: a present query wrapped in `%`, and
      `%%` when the query is missing or empty. Wildcards inside the query keep
      their LIKE meaning. */
  function SearchPattern(q: Option<string>): (p: string)
    ensures q.Some? ==> p == "%" + q.value + "%"
    ensures q == None || q == Some("") ==> p == "%%"
  {
    "%" + (if q.Some? then q.value else "") + "%"
  }

  /** `title LIKE p OR tags LIKE p`: a matching title or matching non-NULL tags select
      the row, and nothing else does; a NULL `tags` never does. */
  predicate RowMatches(row: Row, p: string): (b: bool)
    ensures Like.Matches(p, row.title) ==> b
    ensures row.tags.Some? && Like.Matches(p, row.tags.value) ==> b
    ensures b && !Like.Matches(p, row.title) ==> row.tags.Some? && Like.Matches(p, row.tags.value)
  {
    Like.Matches(p, row.title) || (row.tags.Some? && Like.Matches(p, row.tags.value))
  }

  /** The search result: every row that matches, private ones included, each with all
      its columns. SQL fixes no order; this model keeps table order. */
  function Search(rows: seq<Row>, q: Option<string>): (r: seq<Row>)
    ensures forall x :: x in r <==> x in rows && RowMatches(x, SearchPattern(q))
    ensures multiset(r) <= multiset(rows)
  {
    if rows == [] then []
    else
      assert rows == [rows[0]] + rows[1..];
      if RowMatches(rows[0], SearchPattern(q)) then [rows[0]] + Search(rows[1..], q)
      else Search(rows[1..], q)
  }

  /** For a search text without wildcards, a row is found exactly when its title or
      its tags contain the text, ignoring ASCII case. */
  lemma SearchFinds(rows: seq<Row>, q: string)
    requires Like.Plain(q)
    ensures forall x :: x in Search(rows, Some(q)) <==>
      x in rows && (Like.ContainsFolded(x.title, q) || (x.tags.Some? && Like.ContainsFolded(x.tags.value, q)))
  {
    forall x | x in rows
      ensures RowMatches(x, SearchPattern(Some(q))) <==>
        Like.ContainsFolded(x.title, q) || (x.tags.Some? && Like.ContainsFolded(x.tags.value, q))
    {
      Like.ContainsPattern(q, x.title);
      if x.tags.Some? {
        Like.ContainsPattern(q, x.tags.value);
      }
    }
  }

  /** A missing or empty query returns the whole table, in table order. */
  lemma {:induction false} SearchWithoutQuery(rows: seq<Row>, q: Option<string>)
    requires q == None || q == Some("")
    ensures Search(rows, q) == rows
  {
    if rows != [] {
      Like.EmptyPatternMatchesAll(rows[0].title);
      SearchWithoutQuery(rows[1..], q);
    }
  }

  /** Search does not hide private rows: a private row whose title contains the text is
      returned, and with it the stored filename. */
  lemma SearchShowsPrivate(rows: seq<Row>, q: string, row: Row)
    requires Like.Plain(q)
    requires row in rows && row.fileType == Some("private") && Like.ContainsFolded(row.title, q)
    ensures exists x :: x in Search(rows, Some(q)) && x.fileType == Some("private") && x.filename == row.filename
  {
    Like.ContainsPattern(q, row.title);
    assert row in Search(rows, Some(q));
  }

  // ---------------------------------------------------------------------------
  // GET /api/files/download/:id: SELECT * FROM files WHERE id = ?

  /** What the download route does: 404 "File not found", or send the file at
      `path`. For a row whose type is NULL, `path.join` throws a TypeError inside the
      database callback, where Express does not catch it: the exception is uncaught,
      the Node process exits and no reply is sent (`Crashed`). */
  datatype DownloadReply = NotFound | Serve(path: string) | Crashed

  /** `WHERE id = ?` for an id that is a number. */
  function FindRow(rows: seq<Row>, id: nat): (r: Option<Row>)
    ensures r.Some? ==> r.value in rows && r.value.id == id
    ensures r.None? ==> forall x :: x in rows ==> x.id != id
  {
    if rows == [] then None
    else if rows[0].id == id then Some(rows[0])
    else FindRow(rows[1..], id)
  }

  /** The download route for the text `idParam` taken from the URL, with the server
      script's directory `serverDir`. A text that does not spell a number equals no
      INTEGER id. "File not found" exactly when no row has the id; otherwise a row
      with that id decides the reply. Its type is not checked for visibility:
      private rows are served like public ones. */
  function Download(rows: seq<Row>, serverDir: string, idParam: string): (r: DownloadReply)
    ensures r == NotFound <==>
      Decimal.Parse(idParam).None? || forall x :: x in rows ==> x.id != Decimal.Parse(idParam).value
    ensures r.Serve? ==>
      exists x :: (x in rows && x.id == Decimal.Parse(idParam).value && x.fileType.Some? &&
                   r.path == Storage.DownloadPath(serverDir, x.fileType.value, x.filename))
    ensures r == Crashed ==> exists x :: x in rows && x.id == Decimal.Parse(idParam).value && x.fileType.None?
  {
    match Decimal.Parse(idParam)
    case None => NotFound
    case Some(id) =>
      match FindRow(rows, id)
      case None => NotFound
      case Some(row) =>
        if row.fileType.None? then Crashed
        else Serve(Storage.DownloadPath(serverDir, row.fileType.value, row.filename))
  }

  /** Asking for a row by its id (as the upload route reported it) finds that row and
      serves `<serverDir>/uploads/<type>/<filename>`, whether the row is public or
      private; asking for a row with a NULL type stops the server. */
  lemma DownloadById(rows: seq<Row>, sequence: nat, serverDir: string, row: Row)
    requires WellFormed(rows, sequence) && row in rows
    ensures row.fileType.Some? ==>
      Download(rows, serverDir, Decimal.Show(row.id)) == Serve(Storage.DownloadPath(serverDir, row.fileType.value, row.filename))
    ensures row.fileType.None? ==> Download(rows, serverDir, Decimal.Show(row.id)) == Crashed
  {
    Decimal.ParseShow(row.id);
    var found := FindRow(rows, row.id);
    IdsUnique(rows, sequence, found.value, row);
  }

  /** In a well-formed table every path the download route serves lies in one of the
      two upload folders. */
  lemma DownloadStaysInFolders(rows: seq<Row>, sequence: nat, serverDir: string, idParam: string)
    requires WellFormed(rows, sequence)
    ensures Download(rows, serverDir, idParam).Serve? ==>
      exists t, name :: (t == "public" || t == "private") &&
        Download(rows, serverDir, idParam).path == Storage.DownloadPath(serverDir, t, name)
  {
  }
}
