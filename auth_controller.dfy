/** controllers/authController.js: register and login, over the user service, which each
    handler is given as the call it makes. */
module AuthController {
  import opened Wrappers
  import opened Js
  import opened Tables
  import opened Credentials
  import opened Http

  const REGISTER_FIELDS_REQUIRED: string := "Username, email, and password are required"
  const REGISTER_DUPLICATE: string := "Email or name already exists"
  const LOGIN_FIELDS_REQUIRED: string := "Email and password are required"
  const INVALID_CREDENTIALS: string := "Invalid credentials"

  /** register's catch: the unique violation is a 400, any other error a 500 with its message. */
  function RegisterFailure(e: DbError): (resp: Response)
    ensures resp.status == BAD_REQUEST <==> e.code == UNIQUE_VIOLATION
    ensures resp.status == BAD_REQUEST ==> resp == Error(BAD_REQUEST, REGISTER_DUPLICATE)
    ensures resp.status != BAD_REQUEST ==> resp == ServerError(e)
  {
    if e.code == UNIQUE_VIOLATION then Error(BAD_REQUEST, REGISTER_DUPLICATE) else ServerError(e)
  }

  /** register: all three fields required; on success, 201 with the created user and a token for it. */
  function Register(name: Field, email: Field, password: Field,
                    createUser: (string, string, string) -> Result<UserSummary, DbError>, now: int)
      : (resp: Response)
    ensures !Truthy(name) || !Truthy(email) || !Truthy(password) ==> resp == Error(BAD_REQUEST, REGISTER_FIELDS_REQUIRED)
    ensures Truthy(name) && Truthy(email) && Truthy(password) ==>
      match createUser(name.s, email.s, password.s)
      case Err(e) => resp == RegisterFailure(e)
      case Ok(u) => resp == Response(CREATED, AuthBody(Account(u.id, u.name, u.email, None), GenerateToken(u.id, u.email, now)))
    ensures resp.status == CREATED ==>
      resp.body.AuthBody? && resp.body.token.claims == Claims(resp.body.account.id, resp.body.account.email, None)
  {
    if !Truthy(name) || !Truthy(email) || !Truthy(password) then Error(BAD_REQUEST, REGISTER_FIELDS_REQUIRED)
    else match createUser(name.s, email.s, password.s)
      case Err(e) => RegisterFailure(e)
      case Ok(u) => Response(CREATED, AuthBody(Account(u.id, u.name, u.email, None), GenerateToken(u.id, u.email, now)))
  }

  /** The password test login performs on the row the service found: the row has a password hash and it
      accepts the password. */
  predicate PasswordAccepted(u: UserRow, password: string)
  {
    u.password.Some? && ComparePassword(password, u.password.value)
  }

  /** login: an unknown email and a wrong password get the same 401; a row with no password hash
      makes bcrypt throw; the response's user carries id, name, email and created_at, not the hash. */
  function Login(email: Field, password: Field, findUserByEmail: string -> Result<Option<UserRow>, DbError>, now: int)
      : (resp: Response)
    ensures !Truthy(email) || !Truthy(password) ==> resp == Error(BAD_REQUEST, LOGIN_FIELDS_REQUIRED)
    ensures Truthy(email) && Truthy(password) ==>
      match findUserByEmail(email.s)
      case Err(e) => resp == ServerError(e)
      case Ok(None) => resp == Error(UNAUTHORIZED, INVALID_CREDENTIALS)
      case Ok(Some(u)) =>
        if u.password.None? then resp == Error(SERVER_ERROR, COMPARE_NULL_HASH_ERROR)
        else if !PasswordAccepted(u, password.s) then resp == Error(UNAUTHORIZED, INVALID_CREDENTIALS)
        else resp == Response(OK, AuthBody(Account(u.id, u.name, u.email, Some(u.createdAt)), GenerateToken(u.id, u.email, now)))
    ensures resp.status == OK <==>
      Truthy(email) && Truthy(password) && findUserByEmail(email.s).Ok? && findUserByEmail(email.s).value.Some?
      && PasswordAccepted(findUserByEmail(email.s).value.value, password.s)
  {
    if !Truthy(email) || !Truthy(password) then Error(BAD_REQUEST, LOGIN_FIELDS_REQUIRED)
    else match findUserByEmail(email.s)
      case Err(e) => ServerError(e)
      case Ok(None) => Error(UNAUTHORIZED, INVALID_CREDENTIALS)
      case Ok(Some(u)) =>
        match u.password
        case None => Error(SERVER_ERROR, COMPARE_NULL_HASH_ERROR)
        case Some(h) =>
          if !ComparePassword(password.s, h) then Error(UNAUTHORIZED, INVALID_CREDENTIALS)
          else Response(OK, AuthBody(Account(u.id, u.name, u.email, Some(u.createdAt)), GenerateToken(u.id, u.email, now)))
  }
}
