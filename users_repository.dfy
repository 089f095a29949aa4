/** The `users` table: two lookups and the sign-up insert. Rows are kept in
    insertion order; `nextId` is the serial counter that numbers new rows. */
module UsersRepository {
  import opened Outcomes
  import opened Interfaces
  import opened Tables

  function UserId(row: UserRow): int { row.id }

  /** The rows whose user name is `userName`. */
  function Named(rows: seq<UserRow>, userName: string): seq<UserRow> {
    Filter(rows, (row: UserRow) => row.userName == userName)
  }

  /** The rows whose id is `userId`. */
  function WithId(rows: seq<UserRow>, userId: int): seq<UserRow> {
    Filter(rows, (row: UserRow) => row.id == userId)
  }

  /** No two rows carry the same user name. */
  ghost predicate UniqueNames(rows: seq<UserRow>) {
    forall i, j :: 0 <= i < j < |rows| ==> rows[i].userName != rows[j].userName
  }

  class UsersTable {
    var rows: seq<UserRow>
    var nextId: int

    ghost predicate Valid()
      reads this
    {
      && nextId >= 1
      && DistinctBy(rows, UserId)
      && forall k :: 0 <= k < |rows| ==> 1 <= rows[k].id < nextId
    }

    constructor ()
      ensures Valid() && rows == [] && nextId == 1
    {
      rows := [];
      nextId := 1;
    }

    /** `fetchUserByUserName(userName)`: exactly the rows with that name. */
    function FetchUserByUserName(userName: string, fault: Fault): (r: Result<seq<UserRow>>)
      reads this
      ensures fault.Some? ==> r == Err(Text("Error fetching user => " + fault.value))
      ensures fault.None? ==> r.Ok?
      ensures r.Ok? ==> forall row :: row in r.value <==> row in rows && row.userName == userName
    {
      if fault.Some? then Err(Text("Error fetching user => " + fault.value))
      else Ok(Named(rows, userName))
    }

    /** `fetchUserById(userId)`: exactly the rows with that id. */
    function FetchUserById(userId: int, fault: Fault): (r: Result<seq<UserRow>>)
      reads this
      ensures fault.Some? ==> r == Err(Text("Error fetching user => " + fault.value))
      ensures fault.None? ==> r.Ok?
      ensures r.Ok? ==> forall row :: row in r.value <==> row in rows && row.id == userId
    {
      if fault.Some? then Err(Text("Error fetching user => " + fault.value))
      else Ok(WithId(rows, userId))
    }

    /** `addUser(data)`: insert one row under a fresh id and return the id. */
    method AddUser(data: CreateUser, now: int, fault: Fault) returns (r: Result<int>)
      requires Valid()
      modifies this
      ensures Valid()
      ensures fault.None? ==> r == Ok(old(nextId)) && nextId == old(nextId) + 1
      ensures fault.None? ==> rows == old(rows) + [UserRow(old(nextId), data.userName, data.password, now)]
      ensures fault.Some? ==> r == Err(Text("Error adding user => " + fault.value))
      ensures fault.Some? ==> unchanged(this)
    {
      if fault.Some? {
        r := Err(Text("Error adding user => " + fault.value));
        return;
      }
      rows := rows + [UserRow(nextId, data.userName, data.password, now)];
      r := Ok(nextId);
      nextId := nextId + 1;
    }
  }
}
