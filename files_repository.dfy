/** The `files` table and the four queries the server runs against it. The
    table holds its rows in insertion order; `nextId` is the serial counter that
    numbers new rows. */
module FilesRepository {
  import opened Outcomes
  import opened JsRuntime
  import opened Interfaces
  import opened Tables

  /** What the database driver throws when a query that expects at most one row
      gets more. */
  const MultipleRows: string := "Multiple rows were not expected."

  function RowId(row: FileRow): int { row.id }

  /** The rows owned by `userId`. */
  function OwnedBy(rows: seq<FileRow>, userId: int): seq<FileRow> {
    Filter(rows, (row: FileRow) => row.userId == userId)
  }

  /** The rows with id `fileId` and owner `userId`. */
  function Matching(rows: seq<FileRow>, fileId: int, userId: int): seq<FileRow> {
    Filter(rows, (row: FileRow) => row.id == fileId && row.userId == userId)
  }

  /** The rows other than the one with id `fileId`. */
  function Without(rows: seq<FileRow>, fileId: int): (r: seq<FileRow>)
    ensures forall row :: row in r <==> row in rows && row.id != fileId
  {
    Filter(rows, (row: FileRow) => row.id != fileId)
  }

  /** The listing of `userId`'s files: one entry per row the user owns, in table
      order, each reduced to id, name and upload time. */
  function ListingOf(rows: seq<FileRow>, userId: int): (r: seq<ListedFile>)
    ensures |r| == |OwnedBy(rows, userId)|
    ensures forall x :: x in r <==> exists row :: row in rows && row.userId == userId && Listed(row) == x
  {
    var owned := OwnedBy(rows, userId);
    var listing := seq(|owned|, k requires 0 <= k < |owned| => Listed(owned[k]));
    assert forall x :: x in listing ==> exists row :: row in owned && Listed(row) == x;
    assert forall row :: row in rows && row.userId == userId ==> Listed(row) in listing by {
      forall row | row in rows && row.userId == userId ensures Listed(row) in listing {
        assert row in owned;
        var k :| 0 <= k < |owned| && owned[k] == row;
        assert listing[k] == Listed(row);
      }
    }
    listing
  }

  class FilesTable {
    var rows: seq<FileRow>
    var nextId: int

    /** Row ids are distinct (the primary key) and below the serial counter. */
    ghost predicate Valid()
      reads this
    {
      && nextId >= 1
      && DistinctBy(rows, RowId)
      && forall k :: 0 <= k < |rows| ==> 1 <= rows[k].id < nextId
    }

    constructor ()
      ensures Valid() && rows == [] && nextId == 1
    {
      rows := [];
      nextId := 1;
    }

    /** `createUserFile(details)`: insert one row under a fresh id, stamped
        with the time of the insert, and return the id. */
    method CreateUserFile(details: StoreUserFile, now: int, fault: Fault) returns (r: Result<int>)
      requires Valid()
      modifies this
      ensures Valid()
      ensures fault.None? ==> r == Ok(old(nextId)) && nextId == old(nextId) + 1
      ensures fault.None? ==> rows == old(rows) + [FileRow(old(nextId), details.fileUrl, details.userId, details.fileName, details.uniqueCode, now)]
      ensures fault.Some? ==> r == Err(Text("Error storing user file into database => " + fault.value))
      ensures fault.Some? ==> unchanged(this)
    {
      if fault.Some? {
        r := Err(Text("Error storing user file into database => " + fault.value));
        return;
      }
      var row := FileRow(nextId, details.fileUrl, details.userId, details.fileName, details.uniqueCode, now);
      rows := rows + [row];
      r := Ok(nextId);
      nextId := nextId + 1;
    }

    /** `retrieveFilesByUserId(userId)`: the listing of that user's rows. */
    function RetrieveFilesByUserId(userId: int, fault: Fault): (r: Result<seq<ListedFile>>)
      reads this
      ensures fault.Some? ==> r == Err(Raw(fault.value))
      ensures fault.None? ==> r.Ok?
      ensures r.Ok? ==> forall x :: x in r.value <==> exists row :: row in rows && row.userId == userId && Listed(row) == x
    {
      if fault.Some? then Err(Raw(fault.value)) else Ok(ListingOf(rows, userId))
    }

    /** `findFileById(fileId, userId)`: the row with that id AND that owner, or
        `null` (here `None`) when there is none; a row with that id but another
        owner is not found. More than one matching row is an error. */
    function FindFileById(fileId: int, userId: int, fault: Fault): (r: Result<Option<FileRow>>)
      reads this
      ensures fault.Some? ==> r == Err(Raw(fault.value))
      ensures r.Ok? && r.value.Some? ==> r.value.value in rows && r.value.value.id == fileId && r.value.value.userId == userId
      ensures r == Ok(None) <==> fault.None? && forall row :: row in rows ==> !(row.id == fileId && row.userId == userId)
    {
      if fault.Some? then Err(Raw(fault.value))
      else
        var m := Matching(rows, fileId, userId);
        if |m| == 0 then Ok(None)
        else if |m| == 1 then Ok(Some(m[0]))
        else Err(Raw(MultipleRows))
    }

    /** On a valid table the lookup never meets the multiple-rows error. */
    lemma FindFileByIdOnValid(fileId: int, userId: int)
      requires Valid()
      ensures FindFileById(fileId, userId, None).Ok?
    {
      var keep := (row: FileRow) => row.id == fileId && row.userId == userId;
      forall i, j | 0 <= i < j < |rows| ensures !(keep(rows[i]) && keep(rows[j])) {
        assert RowId(rows[i]) != RowId(rows[j]);
      }
      FilterAtMostOne(rows, keep);
    }

    /** `deleteFile(fileId)`: remove the row with that id, whoever owns it. */
    method DeleteFile(fileId: int, fault: Fault) returns (r: Result<()>)
      requires Valid()
      modifies this
      ensures Valid() && nextId == old(nextId)
      ensures fault.None? ==> r == Ok(()) && rows == Without(old(rows), fileId)
      ensures fault.Some? ==> r == Err(Custom(Some(BadRequest), "Unable to delete file with id " + IntToString(fileId)))
      ensures fault.Some? ==> unchanged(this)
    {
      if fault.Some? {
        r := Err(Custom(Some(BadRequest), "Unable to delete file with id " + IntToString(fileId)));
        return;
      }
      FilterKeepsDistinct(rows, (row: FileRow) => row.id != fileId, RowId);
      rows := Without(rows, fileId);
      r := Ok(());
    }
  }
}
