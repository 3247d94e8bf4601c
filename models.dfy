/** The rows of the user table and the two shapes derived from them. */
module Models {

  /** Identifiers are assigned by the store; the model draws them from a counter. */
  type UserId = nat

  /** Creation instants, assigned by the store's clock. */
  type Timestamp = int

  /** A stored user row: password as handed to the store, document unmasked. */
  datatype UserModel = UserModel(
    id: UserId,
    name: string,
    email: string,
    document: string,
    password: string,
    createdAt: Timestamp)

  /** A row before the store assigns `id` and `createdAt` (the type `create` accepts). */
  datatype NewUser = NewUser(name: string, email: string, document: string, password: string)

  /** The columns `create` selects: every column but the password. */
  datatype PublicUser = PublicUser(
    id: UserId,
    name: string,
    email: string,
    document: string,
    createdAt: Timestamp)

  /** The row the store writes for `user` with the identifier and instant it assigns. */
  function Stored(user: NewUser, id: UserId, now: Timestamp): (row: UserModel)
    ensures row.id == id && row.createdAt == now
    ensures NewUser(row.name, row.email, row.document, row.password) == user
  {
    UserModel(id, user.name, user.email, user.document, user.password, now)
  }

  /** The row as `create` returns it, without its password. */
  function WithoutPassword(row: UserModel): (view: PublicUser)
    ensures view.id == row.id && view.name == row.name && view.email == row.email
    ensures view.document == row.document && view.createdAt == row.createdAt
  {
    PublicUser(row.id, row.name, row.email, row.document, row.createdAt)
  }
}
