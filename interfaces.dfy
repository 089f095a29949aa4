/** The records the server stores and returns (the TypeScript interfaces of
    the file and user modules), with the database columns in camel case. */
module Interfaces {

  newtype byte = x: int | 0 <= x < 256

  type Bytes = seq<byte>

  /** A file received by the upload route: its client-side name, the path of the
      temporary copy, and that copy's content. */
  datatype UploadedFile = UploadedFile(originalName: string, path: string, content: Bytes)

  /** The four columns the upload writes (`IStoreUserFile`). */
  datatype StoreUserFile = StoreUserFile(fileUrl: string, userId: int, fileName: string, uniqueCode: string)

  /** A row of the `files` table (`IUserFileDetails`); `uploadedAt` is set by the
      database when the row is inserted. */
  datatype FileRow = FileRow(id: int, fileUrl: string, userId: int, fileName: string, uniqueCode: string, uploadedAt: int)

  /** A row of a listing: the columns `id, file_name, uploaded_at` that the
      listing query selects. There is no place for the object's URL or for the
      digest of its code. */
  datatype ListedFile = ListedFile(id: int, fileName: string, uploadedAt: int)

  function Listed(row: FileRow): ListedFile {
    ListedFile(row.id, row.fileName, row.uploadedAt)
  }

  /** What a successful upload returns to the caller: the plaintext code. */
  datatype UploadResult = UploadResult(uniqueHexCode: int)

  /** The sign-up data (`ICreateUser`). */
  datatype CreateUser = CreateUser(userName: string, password: string)

  /** A row of the `users` table (`IStoredUser`). */
  datatype UserRow = UserRow(id: int, userName: string, password: string, createdAt: int)
}
