# TREDT file manager backend: the `files` table and its routes

This project models the backend of the TREDT Union file manager (`server.js`) in Dafny.
The backend keeps one SQLite table, `files`, with one metadata row per uploaded document.
It has six route handlers:

- upload: multer writes the file to disk, then a row is inserted;
- public listing;
- search;
- access request: a mail to the administrator;
- download by id;
- a greeting at `/` (plain HTTP, not modelled).

The model keeps the table as a class with a sequence of rows and the AUTOINCREMENT counter.
The upload route is a method over that class. The read-only routes, the multer storage
rules and the request mail are functions. Lemmas connect them.

Modules, one file each:

- `Wrappers`: `Option` (a missing field, a SQL NULL) and `Result`.
- `Decimal`: decimal text of naturals. It covers the millisecond clock in stored names and
  the id text in the download URL.
- `Like`: SQLite's built-in `LIKE` (`%`, `_`, ASCII-only case folding, no ESCAPE). It is
  proved to mean "contains, ignoring ASCII case" for `%q%` with a wildcard-free `q`.
- `Files`: the `files` schema, the table class `FilesTable` and its `Insert`.
- `Storage`: multer's `destination` and `filename` rules and the download path.
- `Queries`: public listing, search and the download lookup.
- `Requests`: the access-request mail.
- `Uploads`: the upload route.

Clocks are parameters. `Date.now()` is `clockMs`, a natural number of milliseconds.
`CURRENT_TIMESTAMP` is `now`, a natural number of seconds. The stored `YYYY-MM-DD HH:MM:SS`
text sorts in the same order as those seconds. SQL errors are the `SqlError` datatype. The
mail transport's outcome is a parameter of the request route.

Behaviour of the code worth noting, modelled as it is:

- A title only has to be present. An empty title is accepted, because `NOT NULL` is the
  only constraint on it.
- A missing `type` is accepted. A NULL makes the `CHECK` constraint NULL, and only a false
  check rejects a row. Such a row is stored in the public folder. Downloading it makes
  `path.join` throw a TypeError inside the database callback, which Express does not
  catch: the exception is uncaught and the Node process exits (`Queries.Crashed`). So any
  client can stop the server by uploading without a `type` and then downloading the
  returned id (`Uploads.Upload`, `Queries.DownloadById`).
- multer resolves its relative folder against the process's working directory, while the
  download route builds its path from the script's own directory. An upload is found by
  download exactly when the two are the same (`Storage.StoreThenLocate`).
- Download serves private rows. Search returns private rows with their filenames. The
  request route checks nothing and stores nothing. There is no credential check and no
  delete route. The model shows these gaps as they are.

## Model

| member | source | states |
|---|---|---|
| `Files.FilesTable.Open` | server.js:30-38 | Opening keeps the existing rows and counter (`CREATE TABLE IF NOT EXISTS`); the table invariant holds: ids positive, at most the counter, strictly increasing, every type NULL/`public`/`private` |
| `Files.FilesTable.Insert` | server.js:67-71 | Succeeds iff the counter is below 2^63-1, title and filename are present and the type passes the CHECK. Errors: SQLITE_FULL, NOT NULL on title, then on filename, then CHECK; on any error rows and counter are unchanged. On success exactly one row is appended with the given values and time, its id is counter+1, larger than every existing id, and it is returned |
| `Files.IdsUnique` | server.js:31 | In a well-formed table two rows with the same id are the same row |
| `Uploads.Upload` | server.js:63-73 | No file part iff the reply is the handler's failure: nothing stored, table unchanged. Otherwise the file is stored at `<cwd>/<Destination(type)>/<ms>_<originalname>` even if the insert fails. Success iff ids are left, title present and type allowed; SQLITE_FULL, missing title and bad type give their errors with the table unchanged. On success one row holds the submitted fields and the stored name, its id is the old counter plus one, so it exceeds every id ever handed out, including those of rows deleted outside the app, and is returned; download by that id serves `<serverDir>/uploads/<type>/<stored name>`, which is the stored file iff `cwd == serverDir`, and a NULL type stops the server |
| `Storage.Destination` | server.js:44 | The folder is `uploads/private` iff the type is exactly `private`, otherwise `uploads/public` |
| `Storage.FirstUnderscore` | server.js:48 | The position of the first `_`: no `_` before it, a `_` at it unless it is the end |
| `Storage.DigitsEndAtUnderscore` | server.js:48 | In `<digits>_<name>` the first `_` comes right after the digits |
| `Storage.StoredName` | server.js:48 | The stored name reads back: up to its first `_` it spells the clock reading, after it comes the client's name unchanged |
| `Storage.StoredNameInjective` | server.js:48 | `<ms>_<originalname>` names are equal only for the same millisecond and the same original name |
| `Storage.DownloadPath` | server.js:115 | The served path lies under `<serverDir>/uploads/`, continues with the type and ends with `/<filename>` |
| `Storage.StoreThenLocate` | server.js:44-48 | For type `public` or `private`, the path download builds (from the script's directory) equals the path multer wrote (from the working directory) iff the two directories are the same |
| `Storage.FoldersDisjoint` | server.js:44 | Within one server directory, a path in the public folder never equals a path in the private folder |
| `Queries.PublicRows` | server.js:77 | Exactly the rows whose type is `public`, none more often than in the table |
| `Queries.InsertByTime` | server.js:77 | Inserting a row into a newest-first sequence keeps it newest-first and adds exactly that row |
| `Queries.SortByTime` | server.js:77 | The result is newest-first and a permutation of the input |
| `Queries.ListPublic` | server.js:76-80 | Newest first by `uploaded_at`, a permutation of the public rows, and contains a row iff it is in the table and public |
| `Queries.SearchPattern` | server.js:85 | A present query is wrapped in `%`; a missing or an empty query both give `%%` |
| `Queries.RowMatches` | server.js:86 | A title matching the pattern selects the row, and so do non-NULL tags matching it; a row selected without a title match has non-NULL tags that match |
| `Queries.Search` | server.js:84-89 | Contains a row iff it is in the table and its title, or its non-NULL tags, is LIKE `%q%`; no row more often than in the table |
| `Queries.SearchFinds` | server.js:85-86 | For a wildcard-free `q`: a row is returned iff its title or tags contain `q` ignoring ASCII case |
| `Queries.SearchWithoutQuery` | server.js:85 | A missing or empty `q` returns every row of the table |
| `Queries.SearchShowsPrivate` | server.js:86-88 | A private row whose title contains `q` is returned, with its stored filename |
| `Queries.FindRow` | server.js:112 | Returns a row of the table with that id, or none iff no row has that id |
| `Queries.Download` | server.js:110-117 | "File not found" iff the id text is not a number or no row has that id; a served path is `<serverDir>/uploads/<type>/<filename>` of a row with that id, with no visibility check; a crash only for a row with that id and a NULL type |
| `Queries.DownloadById` | server.js:112-116 | Download by a row's printed id serves `<serverDir>/uploads/<type>/<filename>` for public and private rows alike; for a NULL type the process exits |
| `Queries.DownloadStaysInFolders` | server.js:115 | In a well-formed table every served path lies in `<serverDir>/uploads/public` or `<serverDir>/uploads/private` |
| `Like.Matches` | server.js:86 | SQLite's LIKE; a pattern without wildcards matches exactly the texts equal to it ignoring ASCII case |
| `Like.PercentMatchesAll` | server.js:85 | The pattern `%` matches every text |
| `Like.PrefixMatch` | server.js:86 | For a wildcard-free `q`: `s LIKE q%` iff `s` starts with `q` ignoring ASCII case |
| `Like.LeadingPercent` | server.js:86 | `s LIKE %r` iff `r` matches some suffix of `s` |
| `Like.ContainsPattern` | server.js:85-86 | For a wildcard-free `q`: `s LIKE %q%` iff `s` contains `q` ignoring ASCII case |
| `Like.EmptyPatternMatchesAll` | server.js:85 | `%%`, the pattern for an empty query, matches every text |
| `Decimal.Show` | server.js:48 | The decimal text of a number is non-empty, all digits, and starts with `0` only for zero |
| `Decimal.Parse` | server.js:112 | A text reads as a number iff it is a non-empty run of digits |
| `Decimal.ValueOfShow` | server.js:48 | Reading the digits of a printed number gives the number back |
| `Decimal.ParseShow` | server.js:111-112 | A printed id reads back as the same id, so an id from the upload reply put in the download URL finds its row (below 2^53, see Left out) |
| `Decimal.ShowInjective` | server.js:48 | Different clock readings print differently |
| `Requests.RequestMail` | server.js:96-101 | Sender and recipient are the administrator address, the subject is `TREDT Private File Request` |
| `Requests.RequestAccess` | server.js:93-106 | Sends that mail; replies "sent" iff the transport reports no error, otherwise 500 with the transport's message; takes no table, so it cannot read or change it |
| `Requests.BreakLine` | server.js:100 | Splits a text at its first line break; the first part holds no line break and the parts rebuild the text |
| `Requests.BreakAfter` | server.js:100 | A text built as `<line>\n<rest>`, with no break in `<line>`, splits into exactly `<line>` and `<rest>` |
| `Requests.MailReadsBack` | server.js:100 | If requester and filename hold no line break, the mail text splits into `User <requester> requested access to private file: <filename>` and `Reason: <reason>`; missing fields print as `undefined` |

## Left out

- HTTP transport: Express set-up, CORS, JSON parsing, the static `/uploads` route, `app.listen`, the root greeting.
- Opening the SQLite database and its logging: I/O. The table is modelled as in-memory state.
- Database errors on the read queries (a locked or corrupt database file): I/O. The three queries always succeed in the model.
- Multer's multipart parsing and disk writes. Only the folder and filename rules are modelled. A file left on disk after a failed insert appears only as the returned `stored` path.
- Storage.Destination: multer sees `type` only if that field comes before the file part in the multipart body. The model assumes it does.
- Storage.Join: `path.join` normalisation of `..` and extra `/` inside a client's file name is not modelled. Both the upload and the download side use the same join.
- Nodemailer's transport and delivery: a network client. The delivery outcome is the `sendError` parameter.
- `res.download` streaming and a file missing from disk: the model stops at the path it serves.
- Queries.Download: the id text is read as a number only when it is plain digits. Other numeric spellings SQLite's type affinity would also convert (`+7`, ` 7`, `7.0`) are treated as not found.
- Queries.Search: SQLite's limit on LIKE pattern length (a query over 50000 bytes fails with a 500) is not modelled. A `q` given more than once (an array in Express) is not modelled.
- Queries.Search: SQL gives the search result no order. The model returns rows in table order; its contract speaks only of membership and multiplicity.
- Queries.ListPublic: the order among rows with equal `uploaded_at` is not specified, because the query gives none.
- Request and upload body fields that are not strings (JSON numbers, `null`, objects) are not modelled. Fields are present strings or missing.
- When the AUTOINCREMENT counter is at its limit, the model reports SQLITE_FULL before any constraint error. This follows SQLite's insert order, where the rowid is computed before constraints are checked.
- Uploads.Upload: `fileId` is `this.lastID`, a JavaScript number. Ids above 2^53 would be rounded in the reply and so in the download URL; the model returns the exact id up to 2^63-1.
- Decimal.ParseShow: the round trip from the upload reply to the download URL holds for the exact id; a rounded id above 2^53 is not modelled.
- Storage.StoreThenLocate: paths are compared as texts built from absolute, normalised directories. Symbolic links, and two spellings of one directory, are not modelled.
- Real clocks: `Date.now()` and `CURRENT_TIMESTAMP` are parameters.
