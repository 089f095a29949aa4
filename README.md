# mobigic-server file custody, modelled in Dafny

mobigic-server is an Express service. A signed-in user uploads a file to an S3
bucket and receives a six-digit code. The server stores only a bcrypt digest of
that code, next to the file's URL, in a `files` table. The user can:

- list their files;
- reveal a file's record (and its URL) by presenting the code;
- delete a file. The S3 object goes first, then the row.

This project models that workflow over three stores:

- the `users` table (`UsersRepository.UsersTable`);
- the `files` table (`FilesRepository.FilesTable`);
- the bucket (`AwsS3.Bucket`, a map from key to bytes).

It also models the pieces around the workflow:

- the code generator;
- sign-up and the sign-in lookup;
- the bearer-token middleware;
- the error middleware;
- the date-stamped temporary file name;
- the parameter checks each file route makes before calling the controller.

Modules, one per source file:

| module | source file |
|---|---|
| `Outcomes` | `Result.ok` / `Result.error` and the error values the server passes around |
| `JsRuntime` | the JavaScript behaviour the code relies on: truthiness, `split`, `${n}`, `padStart` |
| `Interfaces` | `src/interfaces/file.ts`, `src/interfaces/user.ts` |
| `Tables` | a `SELECT ... WHERE` over a table held in insertion order |
| `RandomNumber` | `src/helpers/number.ts` |
| `AwsS3` | `src/helpers/aws-s3.ts` |
| `FilesRepository` | `src/repositories/files.ts` |
| `UsersRepository` | `src/repositories/users.ts` |
| `FilesController` | `src/controllers/files.ts` |
| `UsersController` | `src/controllers/users.ts` |
| `ErrorMiddleware` | `src/middlewares/error.ts` |
| `AuthMiddleware` | `src/middlewares/auth.ts` |
| `FilesRoutes` | the pure helpers and the parameter checks of `src/routes/files.ts` |
| `CustodyScenarios` | end-to-end runs of the controller over fresh stores |

How the model is shaped:

- **Stores are classes.** Their methods carry `modifies` and state the whole new state.
- **Read-only queries are functions** that read the store.
- **Backend failures are parameters.** Each database, S3 or lookup call takes a `Fault`. `None` means the call succeeds. `Some(d)` means it throws an error that renders as `d`.
- **Errors are values** of type `Failure`:
  - `Text(s)` is a plain string;
  - `Custom(statusCode, customMessage)` is the object the server builds;
  - `Raw(d)` is a library exception.
- **Foreign code is passed in:**
  - the random draw is the integer `draw`;
  - bcrypt's `hashString` is the `digest` it returned;
  - `validateHashedString` is a function parameter `validate`;
  - `jwt.verify` is a function parameter `verify`.

`FilesController.Custody` states the invariant that ties the stores together:
every row's URL, read back the way the delete code reads it, names an object in
the bucket.

- Uploads keep it, unless the bucket or file name contains `"amazonaws.com/"`.
- Deletes keep it as long as no two rows share a key.
- A second upload of the same name by the same user makes two rows share a key, and `CustodyScenarios.ReuploadThenDelete` shows the row left pointing at nothing.

What the code does when a step fails part-way, as the model states it:

- **Failed insert after a put.** `uploadFile` has no compensating delete, so the object stays in the bucket while no row points at it (`FilesController.UploadFile`).
- **Failed row delete after the S3 delete.** `deleteUserFile` returns `deleteFile`'s error, status 400 with "Unable to delete file with id …", and the row stays although its object is gone (`FilesController.DeleteUserFile`).
- **Backend errors.** They mostly pass through unchanged. The S3 delete error and the files table's query errors reach the caller as thrown. A failed S3 put is replaced by "Error uploading file to S3, please try again later". The repositories' insert, user-lookup and row-delete failures carry their own messages, and `fetchUserDetails` turns any lookup failure into "Error fetching user details".

## Model

| member | source | states |
|---|---|---|
| JsRuntime.IndexOf | src/controllers/files.ts:146 | `indexOf`: the first position where the separator occurs, or -1 exactly when it occurs nowhere |
| JsRuntime.JoinSplit | src/controllers/files.ts:146 | `split` loses nothing: joining the pieces with the separator gives back the string |
| JsRuntime.SplitJoin | src/middlewares/auth.ts:10 | splitting on a one-character separator that no piece contains gives back exactly the pieces |
| JsRuntime.ParseIntToString | src/controllers/files.ts:38 | the decimal rendering `${n}` of any integer reads back as that integer |
| JsRuntime.PadTwoDigits | src/routes/files.ts:25-26 | `padStart(2, "0")` keeps a number's value and gives two digits below 100 |
| Tables.FilterFirst | src/controllers/users.ts:46 | the first row a query returns is the first row of the table that matches |
| RandomNumber.GeneralRandomNumber | src/helpers/number.ts:1-5 | the result lies between 10^(digit-1) and 10^digit - 1, and its decimal rendering has exactly `digit` characters |
| RandomNumber.EveryValueHasOneDraw | src/helpers/number.ts:4 | every value in the range comes from exactly one draw |
| RandomNumber.SixDigitCode | src/controllers/files.ts:54 | with six digits, the range is 100000..999999 and the code has six digits |
| AwsS3.BucketPathSplits | src/helpers/aws-s3.ts:47 | `bucketPath` is the bucket, "/", then the key; the first "/" sits right after the bucket name |
| AwsS3.Bucket.UploadToS3 | src/helpers/aws-s3.ts:29-53 | on success, the key maps to the content, no other key changes, and the result is the URL and the bucket path; on failure, the exception comes back as an error and the bucket is unchanged |
| AwsS3.Bucket.DeleteFromS3 | src/helpers/aws-s3.ts:55-72 | on success, the key is gone and no other key changes; on failure, the error comes back and the bucket is unchanged |
| FilesRepository.Without | src/repositories/files.ts:83 | `DELETE ... where id = $1` keeps exactly the rows with another id, whoever owns them |
| FilesRepository.ListingOf | src/repositories/files.ts:41-46 | the listing holds exactly the user's rows, each reduced to id, file name and upload time, one entry per row |
| FilesRepository.FilesTable.CreateUserFile | src/repositories/files.ts:11-35 | on success, one row is appended under a fresh id and the id is returned; on failure, the error is "Error storing user file into database => …" and the table is unchanged |
| FilesRepository.FilesTable.RetrieveFilesByUserId | src/repositories/files.ts:37-57 | on success, exactly the projected rows of that user; on failure, the driver's error unchanged |
| FilesRepository.FilesTable.FindFileById | src/repositories/files.ts:59-79 | a row comes back only if both id and owner match; `null` (`Ok(None)`) exactly when no row matches both, which is not an error |
| FilesRepository.FilesTable.FindFileByIdOnValid | src/repositories/files.ts:64-67 | with ids unique, `oneOrNone` never sees two rows, so a lookup that does not fail succeeds |
| FilesRepository.FilesTable.DeleteFile | src/repositories/files.ts:81-97 | on success, the rows become `Without(rows, fileId)`; on failure, the error is status 400 with "Unable to delete file with id …" and the table is unchanged |
| UsersRepository.UsersTable.FetchUserByUserName | src/repositories/users.ts:6-24 | exactly the rows with that user name; a failure reads "Error fetching user => …" |
| UsersRepository.UsersTable.FetchUserById | src/repositories/users.ts:26-38 | exactly the rows with that id; a failure reads "Error fetching user => …" |
| UsersRepository.UsersTable.AddUser | src/repositories/users.ts:40-55 | on success, one row (name, password) is appended under a fresh id and the id is returned; on failure, "Error adding user => …" and the table is unchanged |
| FilesController.StorageKeyInjective | src/controllers/files.ts:38 | two uploads share a storage key exactly when they have the same user id and the same file name |
| FilesController.FirstMarkerInUrl | src/helpers/aws-s3.ts:46 | in the URL, the first "amazonaws.com/" is the one that ends the host, provided the bucket name does not contain it |
| FilesController.KeyFromUrlRoundTrip | src/controllers/files.ts:146 | splitting the upload URL on "amazonaws.com/" and taking piece 1 gives back the key, provided neither bucket nor key contains that text |
| FilesController.StorageKeyAvoidsMarker | src/controllers/files.ts:38 | a storage key contains "amazonaws.com/" only if the file name does |
| FilesController.KeyFromUrlMarkerInName | src/controllers/files.ts:146 | a file named "amazonaws.com/x" uploaded by user 5 is deleted under the key "5/", not under the key it was put under |
| FilesController.UploadFile | src/controllers/files.ts:22-86 | lookup error, unknown user or failed put: an error and both stores unchanged. After a put: the bucket maps `userId/name` to the content. Then a failed insert returns the repository's error and keeps the object. A successful insert appends one row (URL, caller, name, digest) and returns the six-digit code. Custody is kept. |
| FilesController.FindFilesByUserId | src/controllers/files.ts:89-126 | lookup errors pass through; an unknown user gives "User does not exist"; otherwise the listing of exactly the user's files, without URL or digest |
| FilesController.DeleteUserFile | src/controllers/files.ts:128-173 | a row of another owner, or no row, gives "File with fileId … and userId … does not exist" and nothing changes. A failed S3 delete keeps the row and the object. After the S3 delete, a failed row delete keeps the row whose object is gone; success removes that row. Custody is kept when keys are unshared. |
| FilesController.VerifyUniqueCode | src/controllers/files.ts:175-214 | the full row exactly when the owner-scoped row exists and `validate` accepts the code against its digest; otherwise "does not exist" or "Invalid unique code…"; nothing changes |
| FilesController.DeletePreservesCustody | src/controllers/files.ts:146-161 | deleting a row and the object under its key keeps every other row's object, when no other row has the same key |
| FilesController.SharedKeyDangles | src/controllers/files.ts:146-156 | when another row has the same key, that row survives the delete and points at an object that is gone |
| CustodyScenarios.UploadThenVerify | src/controllers/files.ts:54-77 | for any existing user, file and draw, and a `validate` that accepts the code's text against its digest: the upload returns the six-digit code, and verifying that code for the new file id returns the row with that user, that file name, the digest and the object's URL |
| CustodyScenarios.UploadA | src/controllers/files.ts:22-77 | on fresh stores with user 1, uploading "a.txt" with draw 0 returns code 100000, stores one row and one object |
| CustodyScenarios.ListingOfOne | src/repositories/files.ts:41-46 | a table of one row lists exactly that row to its owner |
| CustodyScenarios.CodesOnA | src/controllers/files.ts:175-204 | the right code reveals the row, a code `validate` rejects gives "Invalid unique code…", and user 2 gets "does not exist" |
| CustodyScenarios.DeletesOnA | src/controllers/files.ts:128-163 | user 2's delete gives "does not exist" and changes nothing; user 1's delete empties the table and the bucket |
| CustodyScenarios.OwnerWalkThrough | src/controllers/files.ts:22-214 | upload, list (one entry), verify right code (the row) and wrong code (refused), cross-owner delete (not found), delete (ok), verify again (not found), bucket empty |
| CustodyScenarios.ReuploadThenDelete | src/controllers/files.ts:38-44 | two uploads of the same name share the object; deleting the first leaves the second row listed and its object gone |
| UsersController.AddUser | src/controllers/users.ts:6-28 | a name the lookup finds is refused with "User already exists with this userName" and nothing changes. Otherwise the row is inserted and its id returned; a failed lookup does not stop the insert. A working lookup keeps user names unique. |
| UsersController.FetchUserDetails | src/controllers/users.ts:30-58 | the first row with that name; "User Name doesn't exist!" when none; any lookup failure becomes "Error fetching user details" |
| UsersController.SecondSignUp | src/controllers/users.ts:13 | a second sign-up of "alice" is refused while the lookup works and accepted when it fails, leaving two rows with that name |
| ErrorMiddleware.HandleError | src/middlewares/error.ts:15-29 | the HTTP status equals the body's status; the status is the error's truthy `statusCode`, else 500; the message is its non-empty `customMessage`, else "Please contact the ADMIN"; `err_stack` is the error itself |
| ErrorMiddleware.ReplyTracesError | src/middlewares/error.ts:22-23 | a status other than 500, or a message other than the fixed one, comes from the error's own fields |
| ErrorMiddleware.PlainTextIsInternal | src/middlewares/error.ts:22-23 | a plain-string error such as "User does not exist" becomes 500 with "Please contact the ADMIN" |
| ErrorMiddleware.ZeroStatusIsInternal | src/middlewares/error.ts:22 | a status code of 0 becomes 500 |
| AuthMiddleware.Authenticate | src/middlewares/auth.ts:6-26 | 401 "Access Denied. No token provided." exactly when the header is absent or field 1 of its split on " " is missing or empty; otherwise the request proceeds with the decoded payload, or is handed on as 403 "Invalid token" when verification fails |
| AuthMiddleware.SchemeUnchecked | src/middlewares/auth.ts:10-11 | any first word is accepted and the token is the second word |
| AuthMiddleware.OneWordRejected | src/middlewares/auth.ts:12 | a header of one word, such as "Bearer", gets 401 |
| AuthMiddleware.DoubleSpaceRejected | src/middlewares/auth.ts:10-12 | "Bearer  x", with two spaces, gets 401 although a token follows |
| AuthMiddleware.InvalidTokenIs403 | src/middlewares/auth.ts:20-25 | a token that fails verification ends as a 403 reply saying "Invalid token" |
| FilesRoutes.DateStringFields | src/routes/files.ts:22-32 | the date string is "DD-MM-YYYY_H-M-S-ms": split on "-", it gives back two-digit day and 1-based month, then year_hour, minutes, seconds and milliseconds |
| FilesRoutes.DateStringInjective | src/routes/files.ts:22-32 | two different moments never give the same date string |
| FilesRoutes.TempFileNameOneDot | src/routes/files.ts:39-50 | "name.ext" is stored as "name_<date>.ext" |
| FilesRoutes.TempFileNameNoDot | src/routes/files.ts:39-50 | a name without "." gets the extension "undefined" |
| FilesRoutes.TempFileNameDropsTail | src/routes/files.ts:39-50 | "a.tar.gz" is stored as "a_<date>.tar": segments after the second "." are dropped |
| FilesRoutes.UploadCheck | src/routes/files.ts:61-95 | a missing file is refused (400 "File not found") before the token's id is looked at (400 "UserId not provided"); otherwise the controller is called with both |
| FilesRoutes.ListCheck | src/routes/files.ts:121-137 | an empty, "undefined" or "null" userId is refused with 400 "userId is required"; otherwise the path's userId, not the token's id, is passed on |
| FilesRoutes.ListIgnoresToken | src/routes/files.ts:137 | whose token it is does not change what the list route does |
| FilesRoutes.DeleteCheck | src/routes/files.ts:161-191 | a missing fileId is refused (400 "FileId is required") before the token's id is checked; otherwise both are passed on |
| FilesRoutes.VerifyCheck | src/routes/files.ts:214-248 | a falsy fileId or uniqueCode is refused (400 "fileId and uniqueCode are required") before the token's id is checked; otherwise all three are passed on |
| FilesRoutes.RefusalsAre400 | src/routes/files.ts:68-71 | every route refusal reaches the client as 400 with its own message |

## Left out

- Express wiring, multer's multipart parsing and 50 MB limit, and the JSON success replies: framework plumbing. The routes' `try`/`catch` that hands errors to `next` is reflected only by `FilesRoutes.RefusalsAre400` and `AuthMiddleware.InvalidTokenIs403`.
- `src/routes/users.ts`, `src/index.ts` and `src/db_init/dbConn.ts` are not part of this model.
- `parseInt` on route parameters: the route checks pass the parameter text on unchanged.
- The temporary-file cleanup (`deleteFiles` and `fs.unlinkSync`) and reading the upload from disk with `fs.createReadStream`: file I/O. An upload's content is a parameter.
- `Math.random` and `Math.pow`: floating point. The draw is an integer index in `[0, max - min]`.
- bcrypt and `jwt.verify`: foreign libraries. `digest` and `validate` stand for bcrypt, `verify` for the JWT check. That `validate` accepts the code a digest was made from is an explicit assumption wherever it is used (`CustodyScenarios.OwnerWalkThrough`).
- Logging, and concurrent requests racing on the same storage key: the model is sequential.
- `uploaded_at` and `created_at` are the `now` parameter rather than the database clock.
- `FilesController.DeleteUserFile`: when the URL has no `"amazonaws.com/"`, the source passes `undefined` as the S3 key. The model assumes the S3 client rejects this without deleting anything, and returns `FilesController.UndefinedKey`.
- `AwsS3.Bucket.UploadToS3`, `AwsS3.Bucket.DeleteFromS3`: a library exception is `Raw(d)`, assumed to carry neither `statusCode` nor `customMessage`. So the error middleware answers it with 500.
- `Outcomes.BadRequest`: `src/constants/statusCode` is not part of this model, and `STATUS.BAD_REQUEST` is taken to be 400.
- `FilesController.DeleteUserFile`, `FilesController.VerifyUniqueCode`: they require the files table's invariant (unique ids, from the primary key). Without it, `oneOrNone` would reject a query that matched two rows.
- `FilesRepository.FilesTable.CreateUserFile`, `UsersRepository.UsersTable.AddUser`: the source returns the row `{id}`; the model returns the id.
- `JsRuntime.JsValue`: numbers are integers only. `NaN` and fractional values are not modelled.
