/** The file-custody workflow: upload, listing, deletion and code-checked
    retrieval, sequencing calls to the users table, the files table and the S3
    bucket. Every backend call takes a `Fault` saying whether it fails. */
module FilesController {
  import opened Outcomes
  import opened JsRuntime
  import opened Interfaces
  import opened Tables
  import opened RandomNumber
  import opened AwsS3
  import opened FilesRepository
  import opened UsersRepository

  const UserMissing: string := "User does not exist"
  const S3UploadFailed: string := "Error uploading file to S3, please try again later"
  const InvalidCode: string := "Invalid unique code. Please enter a valid unique code to download the file"

  /** The error of the S3 client when the key to delete is `undefined`. */
  const UndefinedKey: Failure := Raw("No value provided for input HTTP label: Key.")

  function NotFound(fileId: int, userId: int): string {
    "File with fileId " + IntToString(fileId) + " and userId " + IntToString(userId) + " does not exist"
  }

  // ---------------------------------------------------------------------------
  // Object keys

  /** The object key of an upload: the owner's id, a slash, the file's name. */
  function StorageKey(userId: int, fileName: string): string {
    IntToString(userId) + "/" + fileName
  }

  /** Two uploads share an object key exactly when they come from the same user
      with the same file name: a re-upload replaces the earlier object, and no
      upload can replace another user's object. */
  lemma StorageKeyInjective(u1: int, n1: string, u2: int, n2: string)
    ensures StorageKey(u1, n1) == StorageKey(u2, n2) <==> u1 == u2 && n1 == n2
  {
    if StorageKey(u1, n1) == StorageKey(u2, n2) {
      var a, b := IntToString(u1), IntToString(u2);
      var s := StorageKey(u1, n1);
      assert s[|a|] == '/' && StorageKey(u2, n2)[|b|] == '/';
      if |a| < |b| {
        assert s[|a|] == b[|a|];
        IntToStringChars(u2, |a|);
        assert false;
      }
      if |b| < |a| {
        assert s[|b|] == a[|b|];
        IntToStringChars(u1, |b|);
        assert false;
      }
      assert a == s[..|a|] == b;
      IntToStringInjective(u1, u2);
      assert n1 == s[|a| + 1..] == n2;
    }
  }

  // ---------------------------------------------------------------------------
  // Recovering the key from the stored URL

  /** The text the delete operation splits the stored URL on. */
  const Marker: string := "amazonaws.com/"

  /** `url.split("amazonaws.com/")[1]`: the second piece, or `undefined` (here
      `None`) when the marker does not occur. */
  function KeyFromUrl(url: string): Option<string> {
    var parts := Split(url, Marker);
    if |parts| >= 2 then Some(parts[1]) else None
  }

  /** A character that differs from the separator's excludes a match. */
  lemma NoMatchAtChar(s: string, sep: string, j: int, k: int)
    requires 0 <= j <= k < j + |sep| && k < |s|
    requires s[k] != sep[k - j]
    ensures !MatchAt(s, sep, j)
  {
    if j + |sep| <= |s| {
      assert s[j..j + |sep|][k - j] == s[k];
    }
  }

  /** A match lying inside a part of `s` is a match in that part. */
  lemma NoMatchInPart(s: string, sep: string, j: int, lo: int, hi: int)
    requires 0 <= lo <= j && j + |sep| <= hi <= |s|
    requires !Contains(s[lo..hi], sep)
    ensures !MatchAt(s, sep, j)
  {
    var t := s[lo..hi];
    var u, v := t[j - lo..j - lo + |sep|], s[j..j + |sep|];
    forall i | 0 <= i < |sep| ensures u[i] == v[i] {
      assert u[i] == t[j - lo + i] == s[j + i];
    }
    assert u == v;
    assert 0 <= j - lo <= |t|;
    assert !MatchAt(s[lo..hi], sep, j - lo);
  }

  const Scheme: string := "https://"
  const Middle: string := ".s3.ap-south-1."

  lemma S3UrlShape(bucket: string, key: string)
    ensures S3Url(bucket, key) == (Scheme + bucket + Middle) + Marker + key
  {
    assert ".s3." + REGION + ".amazonaws.com/" == Middle + Marker;
  }

  /** In an S3 URL whose bucket name does not contain the marker, the first
      occurrence of the marker is the one the URL was built with. */
  lemma FirstMarkerInUrl(bucket: string, key: string)
    requires !Contains(bucket, Marker)
    ensures forall j :: 0 <= j < |Scheme + bucket + Middle| ==> !MatchAt(S3Url(bucket, key), Marker, j)
  {
    S3UrlShape(bucket, key);
    var s := S3Url(bucket, key);
    var q := |Scheme| + |bucket|;
    assert s[q..q + 15] == Middle;
    assert s[q + 15..q + 29] == Marker;
    forall j | 0 <= j < q + 15 ensures !MatchAt(s, Marker, j) {
      if j < |Scheme| {
        assert s[j] == Scheme[j];
        NoMatchAtChar(s, Marker, j, j);
      } else if j + |Marker| <= q {
        assert s[|Scheme|..q] == bucket;
        NoMatchInPart(s, Marker, j, |Scheme|, q);
      } else if j < q {
        var t := q - j;
        assert 1 <= t <= 13;
        assert s[q] == '.' && s[q + 1] == 's';
        if t == 9 {
          NoMatchAtChar(s, Marker, j, q + 1);
        } else {
          NoMatchAtChar(s, Marker, j, q);
        }
      } else if j - q == 4 {
        assert s[j + 1] == 'p';
        NoMatchAtChar(s, Marker, j, j + 1);
      } else {
        assert s[j] == Middle[j - q];
        NoMatchAtChar(s, Marker, j, j);
      }
    }
  }

  /** The key the delete operation recovers from a stored URL is the key the
      upload put the object under, provided neither the bucket name nor the key
      contains the marker. */
  lemma KeyFromUrlRoundTrip(bucket: string, key: string)
    requires !Contains(bucket, Marker) && !Contains(key, Marker)
    ensures KeyFromUrl(S3Url(bucket, key)) == Some(key)
  {
    S3UrlShape(bucket, key);
    FirstMarkerInUrl(bucket, key);
    SplitAfter(Scheme + bucket + Middle, Marker, key);
    SplitNone(key, Marker);
  }

  /** The marker can only occur in a storage key inside the file name. */
  lemma StorageKeyAvoidsMarker(userId: int, fileName: string)
    requires !Contains(fileName, Marker)
    ensures !Contains(StorageKey(userId, fileName), Marker)
  {
    var s := StorageKey(userId, fileName);
    var n := |IntToString(userId)| + 1;
    assert s[n..] == fileName;
    forall j | MatchAt(s, Marker, j) && 0 <= j <= |s| ensures false {
      if j < n {
        if j < n - 1 {
          IntToStringChars(userId, j);
        }
        assert s[j] != 'a';
        NoMatchAtChar(s, Marker, j, j);
      } else {
        assert s[n..|s|] == fileName;
        NoMatchInPart(s, Marker, j, n, |s|);
      }
    }
  }

  /** Without the side condition the round trip fails: a file named
      "amazonaws.com/x" uploaded by user 5 is stored under "5/amazonaws.com/x",
      but the delete operation recovers the key "5/". */
  lemma KeyFromUrlMarkerInName(bucket: string)
    requires !Contains(bucket, Marker)
    ensures StorageKey(5, Marker + "x") == "5/" + Marker + "x"
    ensures KeyFromUrl(S3Url(bucket, StorageKey(5, Marker + "x"))) == Some("5/")
  {
    var key := "5/" + Marker + "x";
    assert IntToString(5) == "5";
    assert StorageKey(5, Marker + "x") == key;
    S3UrlShape(bucket, key);
    FirstMarkerInUrl(bucket, key);
    SplitAfter(Scheme + bucket + Middle, Marker, key);
    forall j | 0 <= j < 2 ensures !MatchAt(key, Marker, j) {
      NoMatchAtChar(key, Marker, j, j);
    }
    SplitAfter("5/", Marker, "x");
    assert !MatchAt("x", Marker, 0);
    assert !Contains("x", Marker);
    SplitNone("x", Marker);
  }

  // ---------------------------------------------------------------------------
  // The workflow

  /** Every row's URL leads, through the key the delete operation recovers from
      it, to an object in the bucket. */
  ghost predicate Custody(rows: seq<FileRow>, objects: map<string, Bytes>) {
    forall row :: row in rows ==> KeyFromUrl(row.fileUrl).Some? && KeyFromUrl(row.fileUrl).value in objects
  }

  /** The user lookup succeeded and found a row with id `userId`. */
  ghost predicate UserFound(users: UsersTable, userId: int, fault: Fault)
    reads users
  {
    fault.None? && exists u :: u in users.rows && u.id == userId
  }

  /** `uploadFile({file, userId})`. Checks that the user exists, puts the file
      under `StorageKey(userId, name)`, draws a six-digit code, and stores a row
      holding the object's URL and `digest`, the value bcrypt's `hashString`
      returned for the code's decimal text. A failed insert leaves the object in
      the bucket: nothing deletes it. */
  method UploadFile(users: UsersTable, files: FilesTable, bucket: Bucket, userId: int, file: UploadedFile,
                    lookupFault: Fault, putFault: Fault, draw: int, digest: string, now: int, insertFault: Fault)
    returns (r: Result<UploadResult>)
    requires files.Valid()
    requires 0 <= draw < 900000
    modifies files, bucket
    ensures files.Valid()
    // the user lookup
    ensures lookupFault.Some? ==> r == Err(Text("Error fetching user => " + lookupFault.value)) && unchanged(files, bucket)
    ensures lookupFault.None? && !UserFound(users, userId, lookupFault) ==> r == Err(Text(UserMissing)) && unchanged(files, bucket)
    // the S3 put
    ensures UserFound(users, userId, lookupFault) && putFault.Some? ==>
      r == Err(Custom(None, S3UploadFailed)) && unchanged(files, bucket)
    ensures UserFound(users, userId, lookupFault) && putFault.None? ==>
      bucket.objects == old(bucket.objects)[StorageKey(userId, file.originalName) := file.content]
    // the insert
    ensures UserFound(users, userId, lookupFault) && putFault.None? && insertFault.Some? ==>
      r == Err(Text("Error storing user file into database => " + insertFault.value)) && unchanged(files)
    ensures UserFound(users, userId, lookupFault) && putFault.None? && insertFault.None? ==>
      && r == Ok(UploadResult(GeneralRandomNumber(CodeDigits, draw)))
      && files.nextId == old(files.nextId) + 1
      && files.rows == old(files.rows) + [FileRow(old(files.nextId), S3Url(bucket.name, StorageKey(userId, file.originalName)),
                                                  userId, file.originalName, digest, now)]
    // what the caller sees
    ensures r.Ok? ==> 100000 <= r.value.uniqueHexCode <= 999999 && |NatToString(r.value.uniqueHexCode)| == 6
    ensures r.Err? ==> files.rows == old(files.rows)
    ensures Custody(old(files.rows), old(bucket.objects)) && !Contains(bucket.name, Marker) && !Contains(file.originalName, Marker) ==>
      Custody(files.rows, bucket.objects)
  {
    var found := users.FetchUserById(userId, lookupFault);
    if found.Err? {
      r := Err(found.error);
      return;
    }
    if |found.value| == 0 {
      assert !UserFound(users, userId, lookupFault) by {
        forall u | u in users.rows && u.id == userId ensures u in found.value { }
      }
      r := Err(Text(UserMissing));
      return;
    }
    assert found.value[0] in found.value;
    assert UserFound(users, userId, lookupFault);
    var key := StorageKey(userId, file.originalName);
    var put := bucket.UploadToS3(key, file.content, putFault);
    if put.Err? {
      r := Err(Custom(None, S3UploadFailed));
      return;
    }
    var code := GeneralRandomNumber(CodeDigits, draw);
    SixDigitCode(draw);
    var details := StoreUserFile(put.value.s3Url, userId, file.originalName, digest);
    var stored := files.CreateUserFile(details, now, insertFault);
    if stored.Err? {
      r := Err(stored.error);
      return;
    }
    if !Contains(bucket.name, Marker) && !Contains(file.originalName, Marker) {
      StorageKeyAvoidsMarker(userId, file.originalName);
      KeyFromUrlRoundTrip(bucket.name, key);
    }
    r := Ok(UploadResult(code));
  }

  /** `findFilesByUserId(userId)`: when the user exists, the listing of the
      user's files; it never shows a file's URL or code digest. */
  method FindFilesByUserId(users: UsersTable, files: FilesTable, userId: int, lookupFault: Fault, listFault: Fault)
    returns (r: Result<seq<ListedFile>>)
    ensures lookupFault.Some? ==> r == Err(Text("Error fetching user => " + lookupFault.value))
    ensures lookupFault.None? && !UserFound(users, userId, lookupFault) ==> r == Err(Text(UserMissing))
    ensures UserFound(users, userId, lookupFault) && listFault.Some? ==> r == Err(Raw(listFault.value))
    ensures UserFound(users, userId, lookupFault) && listFault.None? ==>
      && r == Ok(ListingOf(files.rows, userId))
      && forall x :: x in r.value <==> exists row :: row in files.rows && row.userId == userId && Listed(row) == x
  {
    var found := users.FetchUserById(userId, lookupFault);
    if found.Err? {
      r := Err(found.error);
      return;
    }
    if |found.value| == 0 {
      assert !UserFound(users, userId, lookupFault) by {
        forall u | u in users.rows && u.id == userId ensures u in found.value { }
      }
      r := Err(Text(UserMissing));
      return;
    }
    assert found.value[0] in found.value;
    var listing := files.RetrieveFilesByUserId(userId, listFault);
    if listing.Err? {
      r := Err(listing.error);
      return;
    }
    r := Ok(listing.value);
  }

  /** `deleteUserFile({fileId, userId})`. Finds the row by id AND owner, deletes
      the object under the key recovered from its URL, and only then deletes the
      row. A failed S3 delete keeps the row; a failed row delete after a
      successful S3 delete keeps the row whose object is gone. */
  method DeleteUserFile(files: FilesTable, bucket: Bucket, fileId: int, userId: int,
                        lookupFault: Fault, s3Fault: Fault, deleteFault: Fault)
    returns (r: Result<()>)
    requires files.Valid()
    modifies files, bucket
    ensures files.Valid() && files.nextId == old(files.nextId)
    ensures lookupFault.Some? ==> r == Err(Raw(lookupFault.value)) && unchanged(files, bucket)
    ensures lookupFault.None? && (forall row :: row in old(files.rows) ==> !(row.id == fileId && row.userId == userId)) ==>
      r == Err(Custom(None, NotFound(fileId, userId))) && unchanged(files, bucket)
    ensures forall row :: row in old(files.rows) && row.id == fileId && row.userId == userId && lookupFault.None? ==>
      && (KeyFromUrl(row.fileUrl).None? ==> r == Err(UndefinedKey) && unchanged(files, bucket))
      && (KeyFromUrl(row.fileUrl).Some? && s3Fault.Some? ==> r == Err(Raw(s3Fault.value)) && unchanged(files, bucket))
      && (KeyFromUrl(row.fileUrl).Some? && s3Fault.None? ==> bucket.objects == old(bucket.objects) - {KeyFromUrl(row.fileUrl).value})
      && (KeyFromUrl(row.fileUrl).Some? && s3Fault.None? && deleteFault.Some? ==>
            r == Err(Custom(Some(BadRequest), "Unable to delete file with id " + IntToString(fileId))) && files.rows == old(files.rows))
      && (KeyFromUrl(row.fileUrl).Some? && s3Fault.None? && deleteFault.None? ==>
            r == Ok(()) && files.rows == Without(old(files.rows), fileId))
    ensures r.Ok? && Custody(old(files.rows), old(bucket.objects)) && KeysUnshared(old(files.rows)) ==>
      Custody(files.rows, bucket.objects)
  {
    ghost var rows0, objects0 := files.rows, bucket.objects;
    files.FindFileByIdOnValid(fileId, userId);
    var found := files.FindFileById(fileId, userId, lookupFault);
    if found.Err? {
      r := Err(found.error);
      return;
    }
    if found.value.None? {
      r := Err(Custom(None, NotFound(fileId, userId)));
      return;
    }
    var row := found.value.value;
    assert forall other :: other in files.rows && other.id == fileId ==> other == row by {
      forall other | other in files.rows && other.id == fileId ensures other == row {
        var i :| 0 <= i < |files.rows| && files.rows[i] == other;
        var j :| 0 <= j < |files.rows| && files.rows[j] == row;
        assert RowId(files.rows[i]) == RowId(files.rows[j]);
      }
    }
    var key := KeyFromUrl(row.fileUrl);
    if key.None? {
      r := Err(UndefinedKey);
      return;
    }
    var removed := bucket.DeleteFromS3(key.value, s3Fault);
    if removed.Err? {
      r := Err(removed.error);
      return;
    }
    var deleted := files.DeleteFile(fileId, deleteFault);
    if deleted.Err? {
      r := Err(deleted.error);
      return;
    }
    if Custody(rows0, objects0) && KeysUnshared(rows0) {
      DeletePreservesCustody(rows0, objects0, row);
    }
    r := Ok(());
  }

  /** `verifyUniqueCode({fileId, userId, uniqueCode})`: the full row when the
      row with that id and owner exists and bcrypt's `validateHashedString`,
      here `validate`, accepts the supplied code against the stored digest.
      Nothing changes. */
  method VerifyUniqueCode(files: FilesTable, fileId: int, userId: int, uniqueCode: string,
                          lookupFault: Fault, validate: (string, string) -> bool)
    returns (r: Result<FileRow>)
    requires files.Valid()
    ensures lookupFault.Some? ==> r == Err(Raw(lookupFault.value))
    ensures lookupFault.None? && (forall row :: row in files.rows ==> !(row.id == fileId && row.userId == userId)) ==>
      r == Err(Custom(None, NotFound(fileId, userId)))
    ensures forall row :: row in files.rows && row.id == fileId && row.userId == userId && lookupFault.None? ==>
      r == if validate(uniqueCode, row.uniqueCode) then Ok(row) else Err(Custom(None, InvalidCode))
  {
    files.FindFileByIdOnValid(fileId, userId);
    var found := files.FindFileById(fileId, userId, lookupFault);
    if found.Err? {
      r := Err(found.error);
      return;
    }
    if found.value.None? {
      r := Err(Custom(None, NotFound(fileId, userId)));
      return;
    }
    var row := found.value.value;
    assert forall other :: other in files.rows && other.id == fileId ==> other == row by {
      forall other | other in files.rows && other.id == fileId ensures other == row {
        var i :| 0 <= i < |files.rows| && files.rows[i] == other;
        var j :| 0 <= j < |files.rows| && files.rows[j] == row;
        assert RowId(files.rows[i]) == RowId(files.rows[j]);
      }
    }
    if !validate(uniqueCode, row.uniqueCode) {
      r := Err(Custom(None, InvalidCode));
      return;
    }
    r := Ok(row);
  }

  // ---------------------------------------------------------------------------
  // Custody across a delete

  /** No two rows recover the same storage key from their URLs. */
  ghost predicate KeysUnshared(rows: seq<FileRow>) {
    forall a, b :: a in rows && b in rows && a.id != b.id ==> KeyFromUrl(a.fileUrl) != KeyFromUrl(b.fileUrl)
  }

  /** Deleting a row together with the object under its key keeps every other
      row's object, provided no other row recovers the same key. */
  lemma DeletePreservesCustody(rows: seq<FileRow>, objects: map<string, Bytes>, row: FileRow)
    requires Custody(rows, objects) && row in rows
    requires forall other :: other in rows && other.id != row.id ==> KeyFromUrl(other.fileUrl) != KeyFromUrl(row.fileUrl)
    ensures Custody(Without(rows, row.id), objects - {KeyFromUrl(row.fileUrl).value})
  {
    var key := KeyFromUrl(row.fileUrl).value;
    forall other | other in Without(rows, row.id)
      ensures KeyFromUrl(other.fileUrl).Some? && KeyFromUrl(other.fileUrl).value in objects - {key}
    {
      assert other in rows && other.id != row.id;
      assert KeyFromUrl(other.fileUrl) != KeyFromUrl(row.fileUrl);
    }
  }

  /** The converse: when another row recovers the same key, which is what a
      second upload of the same name by the same user produces, the delete
      leaves that row pointing at an object that is gone. */
  lemma SharedKeyDangles(rows: seq<FileRow>, objects: map<string, Bytes>, row: FileRow, other: FileRow)
    requires row in rows && other in rows && other.id != row.id
    requires KeyFromUrl(row.fileUrl).Some? && KeyFromUrl(other.fileUrl) == KeyFromUrl(row.fileUrl)
    ensures other in Without(rows, row.id)
    ensures KeyFromUrl(other.fileUrl).value !in objects - {KeyFromUrl(row.fileUrl).value}
    ensures !Custody(Without(rows, row.id), objects - {KeyFromUrl(row.fileUrl).value})
  {
    assert other in Without(rows, row.id);
  }
}
