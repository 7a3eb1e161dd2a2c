/** Where an uploaded file lands on disk (the disk-storage rules given to multer) and
    where the download route looks for it. multer is handed a relative folder, which
    the file system resolves against the process's working directory `cwd`; the
    download route builds its path from the server script's own directory
    `serverDir` (`__dirname`). Both are absolute, normalised directory paths. */
module Storage {
  import opened Wrappers
  import Decimal

  /** `path.join(dir, name)` for a directory and a name that need no normalising. */
  function Join(dir: string, name: string): string {
    dir + "/" + name
  }

  /** The storage folder handed to multer: private only when the form's `type` is
      exactly `private`; anything else, a missing type included, goes to the public
      folder. */
  function Destination(fileType: Option<string>): (dir: string)
    ensures dir == "uploads/private" <==> fileType == Some("private")
    ensures dir == "uploads/public" <==> fileType != Some("private")
  {
    if fileType == Some("private") then "uploads/private" else "uploads/public"
  }

  /** The position of the first `_` in `s` (its length when there is none). */
  function FirstUnderscore(s: string): (k: nat)
    ensures k <= |s|
    ensures forall i :: 0 <= i < k ==> s[i] != '_'
    ensures k < |s| ==> s[k] == '_'
  {
    if s == [] || s[0] == '_' then 0 else 1 + FirstUnderscore(s[1..])
  }

  /** In a stored name the clock digits end exactly at the first `_`. */
  lemma {:induction false} DigitsEndAtUnderscore(digits: string, name: string)
    requires Decimal.AllDigits(digits)
    ensures FirstUnderscore(digits + "_" + name) == |digits|
  {
    if digits != [] {
      assert (digits + "_" + name)[1..] == digits[1..] + "_" + name;
      DigitsEndAtUnderscore(digits[1..], name);
    }
  }

  /** The stored filename: the clock reading in milliseconds, `_`, the client's name.
      The name reads back: up to the first `_` it spells the clock reading, and after
      that `_` comes the client's name unchanged. */
  function StoredName(clockMs: nat, originalname: string): (name: string)
    ensures FirstUnderscore(name) < |name|
    ensures Decimal.Parse(name[..FirstUnderscore(name)]) == Some(clockMs)
    ensures name[FirstUnderscore(name) + 1..] == originalname
  {
    var digits := Decimal.Show(clockMs);
    DigitsEndAtUnderscore(digits, originalname);
    Decimal.ParseShow(clockMs);
    assert (digits + "_" + originalname)[..|digits|] == digits;
    assert (digits + "_" + originalname)[|digits| + 1..] == originalname;
    digits + "_" + originalname
  }

  /** Two uploads get the same stored name only when they were stored in the same
      millisecond under the same client name. */
  lemma StoredNameInjective(ms1: nat, name1: string, ms2: nat, name2: string)
    ensures StoredName(ms1, name1) == StoredName(ms2, name2) ==> ms1 == ms2 && name1 == name2
  {
  }

  /** Where multer writes the file: `<cwd>/<destination>/<stored name>`. */
  function StoredPath(cwd: string, fileType: Option<string>, clockMs: nat, originalname: string): string {
    Join(cwd, Join(Destination(fileType), StoredName(clockMs, originalname)))
  }

  /** The file the download route serves for a row,
      `path.join(__dirname, 'uploads', type, filename)`: it lies under
      `<serverDir>/uploads/` and ends with the row's filename. */
  function DownloadPath(serverDir: string, fileType: string, filename: string): (p: string)
    ensures |p| == |serverDir| + 10 + |fileType| + |filename|
    ensures p[..|serverDir| + 9] == serverDir + "/uploads/"
    ensures p[|serverDir| + 9..|serverDir| + 9 + |fileType|] == fileType
    ensures p[|p| - |filename| - 1..] == "/" + filename
  {
    Join(Join(Join(serverDir, "uploads"), fileType), filename)
  }

  /** For a row whose type is `public` or `private`, the download route looks for
      the file exactly where multer wrote it if, and only if, the server was started
      from its own directory. */
  lemma StoreThenLocate(cwd: string, serverDir: string, fileType: string, clockMs: nat, originalname: string)
    requires fileType == "public" || fileType == "private"
    ensures StoredPath(cwd, Some(fileType), clockMs, originalname)
         == DownloadPath(serverDir, fileType, StoredName(clockMs, originalname))
        <==> cwd == serverDir
  {
    JoinedTail(cwd, serverDir, fileType, StoredName(clockMs, originalname));
  }

  /** Both paths are their base directory followed by `/uploads/<type>/<name>`. */
  lemma JoinedTail(cwd: string, serverDir: string, fileType: string, name: string)
    requires fileType == "public" || fileType == "private"
    ensures Join(cwd, Join(Destination(Some(fileType)), name))
         == Join(Join(Join(serverDir, "uploads"), fileType), name)
        <==> cwd == serverDir
  {
    var tail := "/uploads/" + fileType + "/" + name;
    assert Destination(Some(fileType)) == "uploads/" + fileType;
    assert Join(cwd, Join(Destination(Some(fileType)), name)) == cwd + tail;
    assert Join(Join(Join(serverDir, "uploads"), fileType), name) == serverDir + tail;
    CancelSuffix(cwd, serverDir, tail);
  }

  lemma CancelSuffix(a: string, b: string, tail: string)
    ensures a + tail == b + tail <==> a == b
  {
    if a + tail == b + tail {
      assert |a| == |b|;
      assert a == (a + tail)[..|a|];
    }
  }

  /** The public and the private folder never hand out the same path. */
  lemma FoldersDisjoint(serverDir: string, name1: string, name2: string)
    ensures DownloadPath(serverDir, "public", name1) != DownloadPath(serverDir, "private", name2)
  {
    assert DownloadPath(serverDir, "public", name1)[|serverDir| + 10] == 'u';
    assert DownloadPath(serverDir, "private", name2)[|serverDir| + 10] == 'r';
  }
}
