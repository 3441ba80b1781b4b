/** HTTP responses as the handlers send them: a status code and a JSON body. */
module Http {
  import opened Wrappers
  import opened Tables
  import opened Credentials

  const OK: int := 200
  const CREATED: int := 201
  const BAD_REQUEST: int := 400
  const UNAUTHORIZED: int := 401
  const FORBIDDEN: int := 403
  const NOT_FOUND: int := 404
  const SERVER_ERROR: int := 500

  /** The user object of the register and login responses; `createdAt` is present only where the handler copies it. */
  datatype Account = Account(id: int, name: string, email: string, createdAt: Option<int>)

  datatype Body =
    | ErrorBody(error: string)                       // { error }
    | ErrorDetailsBody(error: string, details: string) // { error, details }
    | MessageBody(message: string)                   // { message }
    | TextBody(text: string)                         // a plain-text body, as passport sends on 401
    | PostBody(post: PostRow)                        // a posts row, RETURNING *
    | PostViewBody(view: PostView)
    | PostListBody(views: seq<PostView>)
    | UserBody(user: UserSummary)
    | UserListBody(users: seq<UserSummary>)
    | AuthBody(account: Account, token: Token)       // { user, token }

  datatype Response = Response(status: int, body: Body)

  function Error(status: int, message: string): Response
  {
    Response(status, ErrorBody(message))
  }

  /** The catch blocks: an exception becomes 500 with its message. */
  function ServerError(e: DbError): Response
  {
    Error(SERVER_ERROR, e.message)
  }
}
