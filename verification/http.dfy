/**
 What a route handler receives and answers: the body fields, the per-request
 environment, the response with its status, and the trace of calls the
 handler made into the hasher and the database.
 */
module Http {
  import opened AccountStore
  import opened Jwt
  import opened Credentials

  /** A JSON body field: absent (or null), or a string. */
  datatype Field = Missing | Given(text: string)

  /** Whether the database answers queries, or rejects them with an error
      other than a uniqueness violation. */
  datatype Backend = Available | Failing

  /** Everything a request depends on besides its body and the table: the
      database's health, the salt bcrypt draws, and the clock. */
  datatype Context = Context(backend: Backend, salt: Salt, nowMillis: int)

  const InvalidInputMessage: string := "Username dan password (min 6 char) harus diisi"
  const DuplicateMessage: string := "Username sudah digunakan"
  const InvalidCredentialsMessage: string := "Kredensial tidak valid"
  const LoginOkMessage: string := "Login berhasil"
  const ServerErrorMessage: string := "Terjadi kesalahan pada server"

  datatype Response =
    | Created(id: nat, username: string)
    | LoggedIn(message: string, token: Token)
    | BadRequest(error: string)
    | Unauthorized(error: string)
    | Conflict(error: string)
    | ServerError(error: string)
  {
    function Status(): int {
      match this
      case Created(_, _) => 201
      case LoggedIn(_, _) => 200
      case BadRequest(_) => 400
      case Unauthorized(_) => 401
      case Conflict(_) => 409
      case ServerError(_) => 500
    }
  }

  /** The generic answer of the error-handling middleware to anything thrown
      or rejected inside a handler. */
  const InternalError: Response := ServerError(ServerErrorMessage)

  /** A call a handler makes into a collaborator. */
  datatype Effect =
    | HashPassword(password: string)
    | InsertRow(username: string)
    | SelectRow(username: string)
    | ComparePassword

  /** The table after the request, the response, and the calls made. */
  datatype Outcome = Outcome(store: Store, response: Response, effects: seq<Effect>)
}
