/** Walk-throughs of the file workflow over fresh stores, every backend call
    succeeding. Each names the outcome the server gives at every step. */
module CustodyScenarios {
  import opened Outcomes
  import opened JsRuntime
  import opened Interfaces
  import opened RandomNumber
  import opened AwsS3
  import opened FilesRepository
  import opened UsersRepository
  import opened FilesController

  /** The row an upload of "a.txt" by user 1 stores. */
  function RowA(bucketName: string, id: int, digest: string): FileRow {
    FileRow(id, S3Url(bucketName, StorageKey(1, "a.txt")), 1, "a.txt", digest, 0)
  }

  /** Fresh stores in which user 1 exists and has uploaded "a.txt" with the
      draw 0. */
  method UploadA(bucketName: string, content: Bytes, digest: string)
    returns (users: UsersTable, files: FilesTable, bucket: Bucket, upload: Result<UploadResult>)
    ensures fresh(users) && fresh(files) && fresh(bucket)
    ensures files.Valid() && bucket.name == bucketName
    ensures exists u :: u in users.rows && u.id == 1
    ensures upload == Ok(UploadResult(100000))
    ensures files.rows == [RowA(bucketName, 1, digest)] && files.nextId == 2
    ensures bucket.objects == map[StorageKey(1, "a.txt") := content]
  {
    users := new UsersTable();
    var added := users.AddUser(CreateUser("alice", "password digest"), 0, None);
    assert users.rows[0] in users.rows;
    files := new FilesTable();
    bucket := new Bucket(bucketName);
    upload := UploadFile(users, files, bucket, 1, UploadedFile("a.txt", "uploads/a.txt", content),
                         None, None, 0, digest, 0, None);
    SixDigitCode(0);
  }

  /** A table of one row lists exactly that row to its owner. */
  lemma ListingOfOne(row: FileRow)
    ensures ListingOf([row], row.userId) == [Listed(row)]
  {
    assert [row][1..] == [];
    assert OwnedBy([row], row.userId) == [row];
  }

  /** With only row 1 in the table: the right code reveals it, another code is
      refused, and user 2 does not find it. */
  method CodesOnA(files: FilesTable, bucketName: string, digest: string,
                  validate: (string, string) -> bool, wrong: string)
    returns (revealed: Result<FileRow>, refused: Result<FileRow>, foreign: Result<FileRow>)
    requires files.Valid() && files.rows == [RowA(bucketName, 1, digest)]
    requires validate("100000", digest) && !validate(wrong, digest)
    ensures revealed == Ok(RowA(bucketName, 1, digest))
    ensures refused == Err(Custom(None, InvalidCode))
    ensures foreign == Err(Custom(None, NotFound(1, 2)))
  {
    assert files.rows[0] in files.rows;
    revealed := VerifyUniqueCode(files, 1, 1, "100000", None, validate);
    refused := VerifyUniqueCode(files, 1, 1, wrong, None, validate);
    foreign := VerifyUniqueCode(files, 1, 2, "100000", None, validate);
  }

  /** With only row 1 in the table and its object in the bucket: user 2's delete
      is refused and changes nothing, user 1's empties both stores. */
  method DeletesOnA(files: FilesTable, bucket: Bucket, digest: string, content: Bytes)
    returns (crossDelete: Result<()>, deleted: Result<()>)
    requires files.Valid() && files.rows == [RowA(bucket.name, 1, digest)]
    requires bucket.objects == map[StorageKey(1, "a.txt") := content]
    requires !Contains(bucket.name, Marker)
    modifies files, bucket
    ensures crossDelete == Err(Custom(None, NotFound(1, 2)))
    ensures deleted == Ok(())
    ensures files.Valid() && files.rows == [] && bucket.objects == map[]
  {
    var row := RowA(bucket.name, 1, digest);
    assert files.rows[0] == row && row in files.rows;
    crossDelete := DeleteUserFile(files, bucket, 1, 2, None, None, None);
    assert !Contains("a.txt", Marker);
    StorageKeyAvoidsMarker(1, "a.txt");
    KeyFromUrlRoundTrip(bucket.name, StorageKey(1, "a.txt"));
    assert row in files.rows;
    deleted := DeleteUserFile(files, bucket, 1, 1, None, None, None);
    assert Without([row], 1) == [];
  }

  /** For any user, file and draw: the code an upload hands out reveals the
      row it stored, with that user and that file name. `validate` accepting
      the code's decimal text against `digest` is bcrypt's promise about the
      digest it made of that text. */
  method UploadThenVerify(users: UsersTable, files: FilesTable, bucket: Bucket, userId: int, file: UploadedFile,
                          draw: int, digest: string, now: int, validate: (string, string) -> bool)
    returns (upload: Result<UploadResult>, revealed: Result<FileRow>)
    requires files.Valid()
    requires exists u :: u in users.rows && u.id == userId
    requires 0 <= draw < 900000
    requires validate(IntToString(GeneralRandomNumber(CodeDigits, draw)), digest)
    modifies files, bucket
    ensures upload == Ok(UploadResult(GeneralRandomNumber(CodeDigits, draw)))
    ensures revealed.Ok? && revealed.value.fileName == file.originalName && revealed.value.userId == userId
    ensures revealed.value.uniqueCode == digest && revealed.value.fileUrl == S3Url(bucket.name, StorageKey(userId, file.originalName))
  {
    var fileId := files.nextId;
    upload := UploadFile(users, files, bucket, userId, file, None, None, draw, digest, now, None);
    assert files.rows[|files.rows| - 1] in files.rows;
    revealed := VerifyUniqueCode(files, fileId, userId, IntToString(upload.value.uniqueHexCode), None, validate);
  }

  /** User 1 uploads "a.txt" and, with the draw 0, is handed the code 100000;
      the listing shows that one file; the code reveals the row and another code
      is refused; user 2 cannot delete the file and user 1 can; the code then
      finds nothing, and the bucket holds no object. `digest` stands for what
      bcrypt made of "100000", and `validate` for its comparison. */
  method OwnerWalkThrough(bucketName: string, content: Bytes, digest: string,
                          validate: (string, string) -> bool, wrong: string)
    returns (upload: Result<UploadResult>, listing: Result<seq<ListedFile>>,
             revealed: Result<FileRow>, refused: Result<FileRow>,
             crossDelete: Result<()>, deleted: Result<()>, after: Result<FileRow>,
             objectsLeft: map<string, Bytes>)
    requires !Contains(bucketName, Marker)
    requires validate("100000", digest) && !validate(wrong, digest)
    ensures upload == Ok(UploadResult(100000))
    ensures listing == Ok([ListedFile(1, "a.txt", 0)])
    ensures revealed == Ok(RowA(bucketName, 1, digest))
    ensures refused == Err(Custom(None, InvalidCode))
    ensures crossDelete == Err(Custom(None, NotFound(1, 2)))
    ensures deleted == Ok(())
    ensures after == Err(Custom(None, NotFound(1, 1)))
    ensures objectsLeft == map[]
  {
    var users, files, bucket;
    users, files, bucket, upload := UploadA(bucketName, content, digest);
    ListingOfOne(RowA(bucketName, 1, digest));
    listing := FindFilesByUserId(users, files, 1, None, None);
    var foreign;
    revealed, refused, foreign := CodesOnA(files, bucketName, digest, validate, wrong);
    crossDelete, deleted := DeletesOnA(files, bucket, digest, content);
    after := VerifyUniqueCode(files, 1, 1, "100000", None, validate);
    objectsLeft := bucket.objects;
  }

  /** User 1 uploads "a.txt" twice. Both rows point at the one object under
      "1/a.txt", the second upload having overwritten the first's bytes.
      Deleting the first row removes that object, so the second row, still
      listed, points at nothing. */
  method ReuploadThenDelete(bucketName: string, first: Bytes, second: Bytes, digest1: string, digest2: string)
    returns (deleted: Result<()>, rowsLeft: seq<FileRow>, objectsLeft: map<string, Bytes>)
    requires !Contains(bucketName, Marker)
    ensures deleted == Ok(())
    ensures rowsLeft == [RowA(bucketName, 2, digest2)]
    ensures objectsLeft == map[]
    ensures !Custody(rowsLeft, objectsLeft)
  {
    var users, files, bucket, upload1;
    users, files, bucket, upload1 := UploadA(bucketName, first, digest1);
    var upload2 := UploadFile(users, files, bucket, 1, UploadedFile("a.txt", "uploads/a.txt", second),
                              None, None, 0, digest2, 0, None);
    var row1, row2 := RowA(bucketName, 1, digest1), RowA(bucketName, 2, digest2);
    assert files.rows == [row1, row2];
    assert bucket.objects == map[StorageKey(1, "a.txt") := second];
    assert !Contains("a.txt", Marker);
    StorageKeyAvoidsMarker(1, "a.txt");
    KeyFromUrlRoundTrip(bucketName, StorageKey(1, "a.txt"));
    assert row1 in files.rows;
    deleted := DeleteUserFile(files, bucket, 1, 1, None, None, None);
    assert files.rows == Without([row1, row2], 1);
    assert row2 in files.rows;
    assert forall row :: row in files.rows ==> row == row2;
    assert |files.rows| == 1 by {
      assert [row1, row2][1..] == [row2];
    }
    rowsLeft, objectsLeft := files.rows, bucket.objects;
    assert rowsLeft == [row2];
  }
}
