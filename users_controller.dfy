/** Sign-up and the sign-in lookup over the users table. */
module UsersController {
  import opened Outcomes
  import opened Interfaces
  import opened Tables
  import opened UsersRepository

  const UserExists: string := "User already exists with this userName"
  const UserNameMissing: string := "User Name doesn't exist!"
  const FetchDetailsFailed: string := "Error fetching user details"

  /** `addUser(data)`: refuse a name the lookup finds, otherwise insert. Only the
      lookup's `data` is inspected, so a lookup that fails does not stop the
      insert. The result is the new row's id. */
  method AddUser(users: UsersTable, data: CreateUser, lookupFault: Fault, now: int, insertFault: Fault)
    returns (r: Result<int>)
    requires users.Valid()
    modifies users
    ensures users.Valid()
    ensures lookupFault.None? && (exists u :: u in old(users.rows) && u.userName == data.userName) ==>
      r == Err(Text(UserExists)) && unchanged(users)
    ensures (lookupFault.Some? || forall u :: u in old(users.rows) ==> u.userName != data.userName) ==>
      && (insertFault.None? ==>
            && r == Ok(old(users.nextId)) && users.nextId == old(users.nextId) + 1
            && users.rows == old(users.rows) + [UserRow(old(users.nextId), data.userName, data.password, now)])
      && (insertFault.Some? ==> r == Err(Text("Error adding user => " + insertFault.value)) && unchanged(users))
    ensures lookupFault.None? && UniqueNames(old(users.rows)) ==> UniqueNames(users.rows)
  {
    var existing := users.FetchUserByUserName(data.userName, lookupFault);
    if existing.Ok? && |existing.value| > 0 {
      assert existing.value[0] in existing.value;
      r := Err(Text(UserExists));
      return;
    }
    assert existing.Ok? ==> forall u :: u in users.rows ==> u.userName != data.userName by {
      if existing.Ok? {
        forall u | u in users.rows ensures u.userName != data.userName {
          assert u !in existing.value;
        }
      }
    }
    r := users.AddUser(data, now, insertFault);
  }

  /** `fetchUserDetails(userName)`: the first row with that name. A failed
      lookup is reported as one fixed message, whatever the database said. */
  function FetchUserDetails(users: UsersTable, userName: string, fault: Fault): (r: Result<UserRow>)
    reads users
    ensures fault.Some? ==> r == Err(Text(FetchDetailsFailed))
    ensures fault.None? && (forall u :: u in users.rows ==> u.userName != userName) ==> r == Err(Text(UserNameMissing))
    ensures fault.None? && (exists u :: u in users.rows && u.userName == userName) ==> r.Ok?
    ensures r.Ok? ==> exists k :: 0 <= k < |users.rows| && users.rows[k] == r.value && r.value.userName == userName
                        && forall j :: 0 <= j < k ==> users.rows[j].userName != userName
  {
    var found := users.FetchUserByUserName(userName, fault);
    if found.Err? then Err(Text(FetchDetailsFailed))
    else if |found.value| == 0 then
      assert forall u :: u in users.rows ==> u.userName != userName by {
        forall u | u in users.rows ensures u.userName != userName {
          assert u !in found.value;
        }
      }
      Err(Text(UserNameMissing))
    else
      assert found.value == Named(users.rows, userName);
      assert found.value[0] in found.value;
      FilterFirst(users.rows, (row: UserRow) => row.userName == userName);
      Ok(found.value[0])
  }

  /** Signing "alice" up twice: refused while the lookup works, accepted when
      the lookup fails, which leaves two rows with the same name. */
  method SecondSignUp(password: string, fault: string)
    returns (refused: Result<int>, accepted: Result<int>, rowsLeft: seq<UserRow>)
    ensures refused == Err(Text(UserExists))
    ensures accepted == Ok(2)
    ensures |rowsLeft| == 2 && rowsLeft[0].userName == rowsLeft[1].userName == "alice"
    ensures !UniqueNames(rowsLeft)
  {
    var users := new UsersTable();
    assert forall u :: u in users.rows ==> u.userName != "alice";
    var first := AddUser(users, CreateUser("alice", password), None, 0, None);
    assert users.rows[0] in users.rows;
    refused := AddUser(users, CreateUser("alice", password), None, 0, None);
    accepted := AddUser(users, CreateUser("alice", password), Some(fault), 0, None);
    rowsLeft := users.rows;
  }
}
