/**
 * The user table behind `usersRepository`: an in-memory store of rows, kept in insertion order
 * (an order of the model's choosing; the table itself promises none).
 * Email and document are unique keys, as is the identifier the store assigns.
 */
module Repositories {

  import opened Wrappers
  import opened Models

  /** The two unique columns a row can be looked up by. */
  datatype Key = ByEmail | ByDocument

  function KeyOf(row: UserModel, key: Key): (value: string)
  {
    match key
    case ByEmail => row.email
    case ByDocument => row.document
  }

  /** The table's uniqueness constraints: no two rows share an id, an email or a document. */
  ghost predicate UniqueKeys(rows: seq<UserModel>)
  {
    forall i, j :: 0 <= i < |rows| && 0 <= j < |rows| && i != j ==>
      rows[i].id != rows[j].id && rows[i].email != rows[j].email && rows[i].document != rows[j].document
  }

  /** `findUnique` on one key column: the matching row, or `None` when no row matches. */
  function Lookup(rows: seq<UserModel>, key: Key, value: string): (found: Option<UserModel>)
    ensures found.Some? ==> found.value in rows && KeyOf(found.value, key) == value
    ensures found.None? <==> forall row :: row in rows ==> KeyOf(row, key) != value
    decreases |rows|
  {
    if |rows| == 0 then None
    else if KeyOf(rows[0], key) == value then Some(rows[0])
    else
      var found := Lookup(rows[1..], key, value);
      assert forall row :: row in rows ==> row == rows[0] || row in rows[1..];
      found
  }

  /** Under the uniqueness constraints a lookup by a row's own key finds exactly that row. */
  lemma LookupFindsTheRow(rows: seq<UserModel>, key: Key, row: UserModel)
    requires UniqueKeys(rows)
    requires row in rows
    ensures Lookup(rows, key, KeyOf(row, key)) == Some(row)
  {
    var found := Lookup(rows, key, KeyOf(row, key));
    var i :| 0 <= i < |rows| && rows[i] == found.value;
    var j :| 0 <= j < |rows| && rows[j] == row;
    assert i == j;
  }

  class UsersRepository {

    /** The rows of the table; the model keeps them oldest first. */
    var users: seq<UserModel>
    /** The identifier the next inserted row receives. */
    var nextId: UserId

    ghost predicate Valid()
      reads this
    {
      UniqueKeys(users) && forall row :: row in users ==> row.id < nextId
    }

    constructor ()
      ensures Valid() && users == [] && nextId == 0
    {
      users := [];
      nextId := 0;
    }

    /** `getAll`: every row, unfiltered, with its password and its unmasked document. */
    function GetAll(): (rows: seq<UserModel>)
      reads this
      ensures |rows| == |users| && forall i :: 0 <= i < |rows| ==> rows[i] == users[i]
    {
      users
    }

    /** `findByEmail`: the row with this email, or `None` (null) when there is none. */
    function FindByEmail(email: string): (found: Option<UserModel>)
      reads this
      ensures found.Some? ==> found.value in users && found.value.email == email
      ensures found.None? <==> forall row :: row in users ==> row.email != email
    {
      Lookup(users, ByEmail, email)
    }

    /** `findByDocument`: the row with this document, or `None` (null) when there is none. */
    function FindByDocument(document: string): (found: Option<UserModel>)
      reads this
      ensures found.Some? ==> found.value in users && found.value.document == document
      ensures found.None? <==> forall row :: row in users ==> row.document != document
    {
      Lookup(users, ByDocument, document)
    }

    /**
     * `create`: inserts the row with a fresh identifier and the current instant and returns
     * it without the password. A row whose email or document is already stored violates a
     * uniqueness constraint: the insert fails (`None`) and the table is unchanged.
     */
    method Create(user: NewUser, now: Timestamp) returns (created: Option<PublicUser>)
      requires Valid()
      modifies this
      ensures Valid()
      ensures created.None? <==>
        exists row :: row in old(users) && (row.email == user.email || row.document == user.document)
      ensures created.None? ==> users == old(users) && nextId == old(nextId)
      ensures created.Some? ==>
        users == old(users) + [Stored(user, old(nextId), now)] &&
        nextId == old(nextId) + 1 &&
        created.value == WithoutPassword(Stored(user, old(nextId), now))
    {
      if FindByEmail(user.email).Some? || FindByDocument(user.document).Some? {
        created := None;
      } else {
        var row := Stored(user, nextId, now);
        users := users + [row];
        nextId := nextId + 1;
        created := Some(WithoutPassword(row));
      }
    }
  }
}
