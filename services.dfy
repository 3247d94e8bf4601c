/**
 * `usersService`: registration, listing and login over the user store. Password checking
 * (`compareSync` of bcryptjs) and token signing (`sign` of jsonwebtoken) are functions the
 * service is given; the model knows nothing about them beyond what each lemma assumes.
 */
module Services {

  import opened ApiResponse
  import opened Models
  import opened Dtos
  import opened Repositories

  const EMAIL_IN_USE := "Email já está sendo utilizado"
  const DOCUMENT_IN_USE := "CPF já está sendo utilizado"
  const BAD_CREDENTIALS := "Email e/ou senha incorreto(s)"

  /** The claims a login token carries. */
  datatype Claims = Claims(id: UserId, email: string)

  /** The options handed to the signer: the configured lifetime. */
  datatype SignOptions = SignOptions(expiresIn: int)

  /** bcrypt hashes are 60 characters long. */
  const BCRYPT_HASH_LENGTH := 60

  /** bcryptjs's `compareSync` answers false at once when the stored value is not hash-sized. */
  ghost predicate RejectsNonHashes(compare: (string, string) -> bool)
  {
    forall plain, stored :: |stored| != BCRYPT_HASH_LENGTH ==> !compare(plain, stored)
  }

  class UsersService {

    const repository: UsersRepository
    /** `JWT_SECRET` and `JWT_EXPIRES_IN` of the environment. */
    const jwtSecret: string
    const jwtExpiresIn: int
    /** `compareSync(plain, stored)` */
    const compare: (string, string) -> bool
    /** `sign(claims, secret, options)` */
    const sign: (Claims, string, SignOptions) -> string

    constructor (repository: UsersRepository, jwtSecret: string, jwtExpiresIn: int,
                 compare: (string, string) -> bool, sign: (Claims, string, SignOptions) -> string)
      ensures this.repository == repository
      ensures this.jwtSecret == jwtSecret && this.jwtExpiresIn == jwtExpiresIn
      ensures this.compare == compare && this.sign == sign
    {
      this.repository := repository;
      this.jwtSecret := jwtSecret;
      this.jwtExpiresIn := jwtExpiresIn;
      this.compare := compare;
      this.sign := sign;
    }

    /** The token a login by `row` receives. */
    function TokenFor(row: UserModel): (token: string)
    {
      sign(Claims(row.id, row.email), jwtSecret, SignOptions(jwtExpiresIn))
    }

    /**
     * `createUser`: an email already stored wins over a document already stored; only when
     * both are free is the request handed to the store, unchanged (the password as given).
     */
    method CreateUser(user: CreateUserRequest, now: Timestamp) returns (r: Result<PublicUser>)
      requires repository.Valid()
      modifies repository
      ensures repository.Valid()
      ensures old(repository.FindByEmail(user.email)).Some? ==>
        r == Error(EMAIL_IN_USE, 409) && unchanged(repository)
      ensures old(repository.FindByEmail(user.email)).None? && old(repository.FindByDocument(user.document)).Some? ==>
        r == Error(DOCUMENT_IN_USE, 409) && unchanged(repository)
      ensures old(repository.FindByEmail(user.email)).None? && old(repository.FindByDocument(user.document)).None? ==>
        repository.users == old(repository.users) + [Stored(user, old(repository.nextId), now)] &&
        repository.nextId == old(repository.nextId) + 1 &&
        r == Success(WithoutPassword(Stored(user, old(repository.nextId), now)), 201)
    {
      var emailIsBeingUsed := repository.FindByEmail(user.email);
      var documentIsBeingUsed := repository.FindByDocument(user.document);
      if emailIsBeingUsed.Some? {
        return Error(EMAIL_IN_USE, 409);
      }
      if documentIsBeingUsed.Some? {
        return Error(DOCUMENT_IN_USE, 409);
      }
      var created := repository.Create(user, now);
      assert created.Some?;
      return Success(created.value, 201);
    }

    /**
     * The registration the evident intent asks for: the password is hashed before the
     * request reaches `createUser`, so the store holds `hash(password)`.
     */
    method CreateUserHashed(user: CreateUserRequest, now: Timestamp, hash: string -> string)
      returns (r: Result<PublicUser>)
      requires repository.Valid()
      modifies repository
      ensures repository.Valid()
      ensures old(repository.FindByEmail(user.email)).None? && old(repository.FindByDocument(user.document)).None? ==>
        var row := Stored(NewUser(user.name, user.email, user.document, hash(user.password)), old(repository.nextId), now);
        repository.users == old(repository.users) + [row] &&
        repository.nextId == old(repository.nextId) + 1 &&
        r == Success(WithoutPassword(row), 201)
      ensures old(repository.FindByEmail(user.email)).Some? || old(repository.FindByDocument(user.document)).Some? ==>
        r == Error(if old(repository.FindByEmail(user.email)).Some? then EMAIL_IN_USE else DOCUMENT_IN_USE, 409) &&
        unchanged(repository)
    {
      r := CreateUser(NewUser(user.name, user.email, user.document, hash(user.password)), now);
    }

    /** `getUsers`: the rows exactly as the store lists them, passwords and raw documents included. */
    function GetUsers(): (r: Result<seq<UserModel>>)
      reads repository
      ensures r.Success? && r.code == DEFAULT_SUCCESS_CODE
      ensures forall row :: row in r.data <==> row in repository.users
      ensures r.data == repository.GetAll()
    {
      Success(repository.GetAll(), DEFAULT_SUCCESS_CODE)
    }

    /**
     * `authenticate`: looks the email up, checks the password against the stored one, and
     * signs `{id, email}` of the row found. Both failures give the same answer, so a caller
     * cannot tell an unknown email from a wrong password.
     */
    function Authenticate(login: LoginRequest): (r: Result<string>)
      reads repository
      requires repository.Valid()
      ensures r.Error? ==> r == Error(BAD_CREDENTIALS, 401)
      ensures r.Success? <==>
        exists row :: row in repository.users && row.email == login.email && compare(login.password, row.password)
      ensures r.Success? ==>
        r.code == 200 &&
        exists row :: row in repository.users && row.email == login.email && r.data == TokenFor(row)
    {
      var userFound := repository.FindByEmail(login.email);
      if userFound.None? then
        Error(BAD_CREDENTIALS, 401)
      else if !compare(login.password, userFound.value.password) then
        assert forall row :: row in repository.users && row.email == login.email ==> row == userFound.value by {
          forall row | row in repository.users && row.email == login.email
            ensures row == userFound.value
          {
            LookupFindsTheRow(repository.users, ByEmail, row);
          }
        }
        Error(BAD_CREDENTIALS, 401)
      else
        Success(TokenFor(userFound.value), 200)
    }
  }

  /** With no row for the email, neither the password check nor the signer is consulted. */
  lemma UnknownEmailConsultsNoOracle(s1: UsersService, s2: UsersService, login: LoginRequest)
    requires s1.repository == s2.repository && s1.repository.Valid()
    requires s1.jwtSecret == s2.jwtSecret && s1.jwtExpiresIn == s2.jwtExpiresIn
    requires s1.repository.FindByEmail(login.email).None?
    ensures s1.Authenticate(login) == s2.Authenticate(login) == Error(BAD_CREDENTIALS, 401)
  {
  }

  /** Correct credentials of a stored row yield the token signed over that row's id and email. */
  lemma {:induction false} LoginSignsTheRow(s: UsersService, row: UserModel, password: string)
    requires s.repository.Valid()
    requires row in s.repository.users && s.compare(password, row.password)
    ensures s.Authenticate(LoginRequest(row.email, password)) ==
      Success(s.sign(Claims(row.id, row.email), s.jwtSecret, SignOptions(s.jwtExpiresIn)), 200)
  {
    LookupFindsTheRow(s.repository.users, ByEmail, row);
  }

  /**
   * As written, `createUser` stores the password as given, and bcrypt's check refuses any
   * stored value that is not hash-sized: such a row can never log in, whatever is typed.
   */
  lemma {:induction false} PlaintextRowIsLockedOut(s: UsersService, row: UserModel, password: string)
    requires s.repository.Valid() && RejectsNonHashes(s.compare)
    requires row in s.repository.users && |row.password| != BCRYPT_HASH_LENGTH
    ensures s.Authenticate(LoginRequest(row.email, password)) == Error(BAD_CREDENTIALS, 401)
  {
    LookupFindsTheRow(s.repository.users, ByEmail, row);
  }

  /** With the password hashed on registration, the original password logs in. */
  lemma {:induction false} HashedRowCanLogIn(s: UsersService, row: UserModel, password: string, hash: string -> string)
    requires s.repository.Valid()
    requires forall p :: s.compare(p, hash(p))
    requires row in s.repository.users && row.password == hash(password)
    ensures s.Authenticate(LoginRequest(row.email, password)) == Success(s.TokenFor(row), 200)
  {
    LoginSignsTheRow(s, row, password);
  }
}
