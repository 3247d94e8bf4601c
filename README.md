# users-management: a Dafny model of the user API's decision logic

The repository is a small Express/Prisma REST API for users: registration (`POST /users`),
a token-protected listing (`GET /users`) and login (`POST /users/login`). This project models
the parts of it that decide something:

- `cpfMask`, the masking of a CPF document (module `Helpers`);
- the request schemas for registration and login (module `Dtos`);
- the user table behind `usersRepository`, as a class over a sequence of rows whose email,
  document and id are unique keys (module `Repositories`);
- `usersService`: `createUser`, `getUsers` and `authenticate` over that table, returning the
  tagged `Result` (`Success(data, code)` or `Error(message, code)`, module `ApiResponse`)
  (module `Services`);
- the `verifyToken` bearer-token gate and the `handleError` error classifier (module `Middlewares`).

The JavaScript string built-ins they rely on (`slice`, `startsWith`, `includes`, `split`) are
written out in module `JsString`, with `join` as the inverse of `split`. The crypto library
calls are values the model is given: `compareSync` and `sign` are function-typed fields of
the service, `hashSync` is a parameter of the corrected registration, and `verify` is a
parameter of the token gate. The email-format check of the schema is a parameter too.

Where the repository's tests or API documentation disagree with the code, the model follows
the code:

- `createUser` does not hash the password: the store receives the request unchanged
  (src/services/users.ts:29), while src/services/users.test.ts:124-128 expects a hashed value.
- The conflict messages are "Email já está sendo utilizado" and "CPF já está sendo utilizado"
  (src/services/users.ts:22,26); the tests and the API documentation say "O email já…" and
  "O CPF já…".
- `authenticate` succeeds with the bare token string (src/services/users.ts:64), not `{ token }`.
- Nothing masks documents or drops passwords on listing: `getAll` returns the raw rows
  (src/repositories/users.ts:7-11), so `getUsers` hands out every password and unmasked
  document. `create` alone leaves the password out, and it too returns the unmasked document.

## Model

| member | source | states |
|---|---|---|
| `Helpers.CpfMask` | src/helpers/cpf-mask.ts:1-5 | the output is the first min(3, length) characters, then ".***.***-", then the characters from index 9 on (none when the input has at most 9); for an 11-character input the output has length 14, starts with the input's first 3 characters, has ".***.***-" at positions 3 to 11 and ends with the input's last 2 |
| `Helpers.MiddleIsHidden` | src/helpers/cpf-mask.ts:2 | two inputs of equal length that agree outside positions 3 to 8 mask to the same text |
| `Helpers.MaskExamples` | src/helpers/cpf-mask.ts:2 | "12345678901" masks to "123.***.***-01" and "12345678909" to "123.***.***-09" |
| `JsString.Includes` | src/middlewares/handle-error.ts:13 | `includes` is true exactly when the text occurs at some index of the string |
| `JsString.Split` | src/middlewares/verify-token.ts:25 | `split` yields at least one field, no field contains the separator, and joining the fields with the separator gives the string back |
| `JsString.SplitJoin` | src/middlewares/verify-token.ts:25 | splitting the join of separator-free fields gives those fields back (split and join are inverse) |
| `JsString.SplitAfterWord` | src/middlewares/verify-token.ts:25 | splitting word + separator + rest gives the word followed by the fields of rest |
| `JsString.FirstFieldIsTakeUntil` | src/middlewares/verify-token.ts:25 | the first field of a split is the text up to the first separator, or the whole text |
| `JsString.Slice` | src/helpers/cpf-mask.ts:2 | `slice(start, end)` with non-negative bounds: both bounds are clamped to the length, the result is empty when the clamped end is not past the start, and otherwise holds the characters from the start up to the clamped end |
| `JsString.SliceFrom` | src/helpers/cpf-mask.ts:2 | `slice(start)`: the characters from the start to the end, empty when the start is at or past the end |
| `JsString.StartsWith` | src/middlewares/verify-token.ts:17 | `startsWith` holds exactly when the prefix is no longer than the string and agrees with it character by character (case-sensitive) |
| `Dtos.Issue.ExplicitMessage` | src/dtos/users.ts:9-20 | each password rule reports its own text from the schema, in the schema's order of rules |
| `Dtos.MessagesDiffer` | src/dtos/users.ts:9-20 | the four password texts are pairwise different, so a text names its rule |
| `Dtos.PasswordMessages` | src/dtos/validate-schema.ts:29 | the texts a rejected password is reported with are those of its complaints, one each, in the same order (the schema's order of rules) |
| `Dtos.PasswordMessageReported` | src/dtos/users.ts:9-20 | a rule's text is among the reported texts exactly when the password breaks that rule |
| `Dtos.PasswordMessagesStateTheRules` | src/dtos/users.ts:7-20 | "no mínimo 8 caracteres" is reported iff the password is shorter than 8, "uma letra maiúscula" iff it has no A-Z, "uma letra minúscula" iff no a-z, "um número" iff no 0-9; no text at all iff the password is strong |
| `Services.UsersService.constructor` | src/services/users.ts:12-13 | the service holds the given store, secret, token lifetime, password check and signer |
| `JsString.TakeUntilWord` | src/middlewares/verify-token.ts:25 | a separator-free word followed by nothing or by the separator is the text up to the first separator |
| `Dtos.Matches` | src/dtos/users.ts:12-20 | the unanchored lookahead patterns `(?=.*?[A-Z])`, `(?=.*?[a-z])`, `(?=.*?\d)` match exactly when some character of the string is in the class |
| `Dtos.PasswordIssues` | src/dtos/users.ts:7-20 | a password is accepted iff it has at least 8 characters and an A-Z, an a-z and a 0-9 character; each rule that fails is reported, and only those, in the schema's order of rules |
| `Dtos.ValidateCreateUser` | src/dtos/users.ts:3-21 | a registration body parses iff every member is a string, the email passes the format check, the document has exactly 11 characters (any characters) and the password is strong; the parsed request carries the members unchanged; a rejection lists at least one complaint, a length complaint exactly when the document string has the wrong length, a format complaint exactly when the email string fails, a type complaint for a member exactly when it is not a string, and, for a string password, exactly the password complaints `PasswordIssues` gives (all four rules, each reported iff broken) |
| `Dtos.RegistrationIssues` | src/dtos/users.ts:3-21 | the complaints about a registration body are exactly: a type complaint for each non-string member, a format complaint when the email string fails, a length complaint when the document string does not have 11 characters, and the password complaints of a string password; there are none exactly when the body is valid |
| `Dtos.RegistrationComplaints` | src/dtos/users.ts:3-21 | from that list each complaint kind can be read off: each type complaint iff its member is not a string, the format and length complaints iff their checks fail, and for a string password exactly its own password complaints |
| `Dtos.ValidateLogin` | src/dtos/users.ts:24-27 | a login body parses iff both members are strings, whatever they hold; otherwise it lists a type complaint for each non-string member |
| `Dtos.ExamplePasswordIsStrong` | src/dtos/users.ts:7-20 | "Password@123" breaks none of the password rules |
| `Models.WithoutPassword` | src/repositories/users.ts:14-24 | the row `create` returns keeps id, name, email, document and createdAt of the stored row and has no password |
| `Repositories.Lookup` | src/repositories/users.ts:29-47 | a lookup on a unique column returns a row holding the value, or nothing exactly when no row holds it |
| `Repositories.LookupFindsTheRow` | src/repositories/users.ts:30-34 | under the uniqueness constraints, looking up a stored row's email or document returns that very row |
| `Repositories.UsersRepository.constructor` | src/repositories/users.ts:4-5 | a new store is empty and satisfies the uniqueness invariant |
| `Repositories.UsersRepository.GetAll` | src/repositories/users.ts:7-11 | every stored row, unfiltered: password included and document unmasked (listed in the model's insertion order) |
| `Repositories.UsersRepository.FindByEmail` | src/repositories/users.ts:29-37 | the row whose email equals the argument, or None (null) exactly when no row has it; the store is not changed |
| `Repositories.UsersRepository.FindByDocument` | src/repositories/users.ts:39-47 | the row whose document equals the argument, or None (null) exactly when no row has it; the store is not changed |
| `Repositories.UsersRepository.Create` | src/repositories/users.ts:13-27 | appends exactly one row carrying the input, a fresh id and the current instant, and returns it without the password; fails, leaving the store unchanged, exactly when the email or the document is already stored; the uniqueness invariant is kept |
| `Services.UsersService.CreateUser` | src/services/users.ts:15-32 | a stored email gives Error("Email já está sendo utilizado", 409) whatever the document, and the store is unchanged; a free email with a stored document gives Error("CPF já está sendo utilizado", 409), store unchanged; otherwise the request is stored once, password as given, and the result is Success(created row without password, 201) |
| `Services.UsersService.GetUsers` | src/services/users.ts:34-38 | Success with code 200 carrying exactly the rows of the store; a function, so the store is unchanged |
| `Services.UsersService.Authenticate` | src/services/users.ts:40-65 | every failure is Error("Email e/ou senha incorreto(s)", 401), the same for unknown email and wrong password; success happens exactly when a stored row has the email and the password check accepts the password against that row's stored password, and then the result is Success(token, 200) with the token signed over that row's id and email with the configured secret and lifetime |
| `Services.UnknownEmailConsultsNoOracle` | src/services/users.ts:41-45 | with no row for the email, the answer is Error("Email e/ou senha incorreto(s)", 401) whatever the password check and the signer are, so neither is consulted |
| `Services.LoginSignsTheRow` | src/services/users.ts:47-64 | correct credentials of a stored row give Success(sign({id, email} of that row, secret, {expiresIn}), 200) |
| `Services.PlaintextRowIsLockedOut` | src/services/users.ts:29-51 | when the password check refuses stored values that are not 60 characters long (as bcrypt's does), a row whose stored password has another length can never log in |
| `Services.UsersService.CreateUserHashed` | src/services/users.ts:15-32 | registration with the password hashed first: the same conflict answers, and on success the store holds hash(password) |
| `Services.HashedRowCanLogIn` | src/services/users.ts:40-65 | when the check accepts every password against its own hash, a row stored with hash(password) logs in with that password and receives its token |
| `Middlewares.HeaderToken` | src/middlewares/verify-token.ts:25 | the second field of "Bearer …" split on spaces is the text after "Bearer " up to the next space, or to the end |
| `Middlewares.VerifyToken` | src/middlewares/verify-token.ts:7-36 | 401 "Token não encontrado" exactly when the header is missing, not a string, or does not start with "Bearer " (case-sensitive, with the space); otherwise 403 "Token inválido" exactly when the verifier refuses the header token under the secret, and a pass to `next` exactly when it accepts it |
| `Middlewares.NoVerificationWithoutBearer` | src/middlewares/verify-token.ts:16-23 | without the bearer prefix the answer does not depend on the verifier, so no verification is attempted |
| `Middlewares.HeaderTokenOfWord` | src/middlewares/verify-token.ts:25 | for "Bearer " followed by a space-free word and then nothing or a space, the token is that word |
| `Middlewares.HeaderTokenExamples` | src/middlewares/verify-token.ts:25 | "Bearer abc" and "Bearer abc def" yield the token "abc"; "Bearer " yields the empty token |
| `Middlewares.HandleError` | src/middlewares/handle-error.ts:5-24 | 400 with status "error" and "Formato JSON inválido", never a stack, exactly when the error is named "SyntaxError" and its message contains "JSON"; every other error gives 500 "Internal server error" with no status member, carrying the error's stack exactly when NODE_ENV is "debug" |
| `Middlewares.OtherSyntaxErrorIsInternal` | src/middlewares/handle-error.ts:13-23 | a SyntaxError whose message does not include "JSON" is answered with 500, no status member, "Internal server error", and the stack only when NODE_ENV is "debug" |
| `Middlewares.NonJsonSyntaxMessageIsInternal` | src/middlewares/handle-error.ts:13-23 | the SyntaxError message "Unexpected end of input" does not include "JSON", so it is answered with 500 |
| `Middlewares.TruncatedJsonBodyIsBadRequest` | src/middlewares/handle-error.ts:13-18 | a body cut short, which fails to parse with "Unexpected end of JSON input", is answered with 400, status "error", "Formato JSON inválido" and no stack |

## Findings

| source | as written | input that shows it | evidently intended | confidence | as-written member | corrected member |
|---|---|---|---|---|---|---|
| src/services/users.ts:29,47 | `createUser` hands the request to the store with the password as typed; `authenticate` checks passwords with bcryptjs's `compareSync`, which refuses any stored value that is not a 60-character bcrypt hash | register with password "Password@123", then log in with the same email and "Password@123": the answer is 401 "Email e/ou senha incorreto(s)" | hash the password before storing it, as src/services/users.test.ts:124-128 expects, so that the registered password logs in | high; rests on bcryptjs's length check; not executed | `Services.UsersService.CreateUser` with `Services.PlaintextRowIsLockedOut` | `Services.UsersService.CreateUserHashed` with `Services.HashedRowCanLogIn` |

## Left out

- The `Promise.all` in `createUser`: both lookups read the same state; races between concurrent registrations are not modelled.
- Prisma and the database: replaced by the in-memory class; the unique constraints on email and document are its invariant `Valid`. Database failures other than a uniqueness violation are not modelled.
- Repositories.UsersRepository.Create: the database's uuid identifiers are drawn from a counter, and the creation instant is a parameter; both only need to be fresh and supplied by the store.
- Services.UsersService.Authenticate: `compareSync` and `sign` are uninterpreted; bcrypt itself, token signatures and token expiry are not modelled, and the result states its iff under the table's uniqueness invariant.
- Middlewares.VerifyToken: `verify` of jsonwebtoken is a yes/no oracle over token and secret; its callback and the reasons a token is refused (bad signature, expired, malformed) are not distinguished. A missing header and a non-string header are both `None`.
- Dtos.ValidateCreateUser: the email regex of the schema library is the parameter `isEmail`; the texts of complaints that come from the custom error map (src/config/zod-error-map is not part of this model) are left as complaint kinds, and only the password complaints carry their own text; a member of any non-string type is one `NotString` case.
- src/dtos/validate-schema.ts: the `safeParse` call and the custom error map it passes are left out (the schema's checks are modelled in `Dtos`, and the `map` of complaints to texts at line 29 is `Dtos.PasswordMessages` for the password texts).
- src/controllers/users.ts, src/routes/users.ts, src/app.ts: HTTP wiring that only passes values between the modelled parts.
- src/config/envs.ts: the environment values (`NODE_ENV`, `JWT_SECRET`, `JWT_EXPIRES_IN`) are given to the model as values; their parsing and coercion are not modelled.
- src/helpers/api-response is not part of this model: the default code of `success(data)` is taken to be 200, as the repository's test mock uses.
- Strings are sequences of `char`, one per Unicode scalar value. JavaScript counts UTF-16 code units, so a character outside the Basic Multilingual Plane counts twice there and once here: strings holding such characters are not modelled, and lengths (the password minimum, the 11-character document) and `slice` positions agree with JavaScript only on text inside that plane. A `slice` that cuts a surrogate pair cannot be expressed.
- Repositories.UsersRepository.GetAll: `findMany()` is called without an ordering, so the program promises only which rows are listed, not their order; the insertion order of the model is its own choice. `Services.UsersService.GetUsers` states the promised part as membership in both directions.
