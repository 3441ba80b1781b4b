/** controllers/userController.js: validation and the mapping of the user service's outcome
    (a row, no row, or an exception) to a response.  The service is a parameter: each handler
    is given the service call it makes, and the outcome of that call decides the response. */
module UserController {
  import opened Wrappers
  import opened Js
  import opened Tables
  import opened Http

  const USER_FIELDS_REQUIRED: string := "Name and email are required"
  const USER_NOT_FOUND: string := "User not found"

  /** getUsers: the service's list, or 500 with the error's message. */
  function GetUsers(getAllUsers: Result<seq<UserSummary>, DbError>): (resp: Response)
    ensures resp.status == OK <==> getAllUsers.Ok?
    ensures getAllUsers.Ok? ==> resp.body == UserListBody(getAllUsers.value)
    ensures getAllUsers.Err? ==> resp == ServerError(getAllUsers.error)
  {
    match getAllUsers
    case Err(e) => ServerError(e)
    case Ok(users) => Response(OK, UserListBody(users))
  }

  /** getUserById: 404 when the service finds no user; the id is parsed as parseInt does. */
  function GetUserById(idParam: string, findUserById: Option<int> -> Result<Option<UserSummary>, DbError>)
      : (resp: Response)
    ensures findUserById(ParseInt(idParam)).Err? ==> resp == ServerError(findUserById(ParseInt(idParam)).error)
    ensures resp == Error(NOT_FOUND, USER_NOT_FOUND) <==> findUserById(ParseInt(idParam)) == Ok(None)
    ensures resp.status == OK <==> findUserById(ParseInt(idParam)).Ok? && findUserById(ParseInt(idParam)).value.Some?
    ensures resp.status == OK ==> resp.body == UserBody(findUserById(ParseInt(idParam)).value.value)
  {
    match findUserById(ParseInt(idParam))
    case Err(e) => ServerError(e)
    case Ok(None) => Error(NOT_FOUND, USER_NOT_FOUND)
    case Ok(Some(u)) => Response(OK, UserBody(u))
  }

  /** createUser: 400 unless name and email are non-empty strings, and then the service is not
      consulted: the response does not depend on it. */
  function CreateUser(name: Field, email: Field, createUser: (string, string) -> Result<UserSummary, DbError>)
      : (resp: Response)
    ensures !Truthy(name) || !Truthy(email) ==> resp == Error(BAD_REQUEST, USER_FIELDS_REQUIRED)
    ensures Truthy(name) && Truthy(email) ==>
      match createUser(name.s, email.s)
      case Err(e) => resp == ServerError(e)
      case Ok(u) => resp == Response(CREATED, UserBody(u))
  {
    if !Truthy(name) || !Truthy(email) then Error(BAD_REQUEST, USER_FIELDS_REQUIRED)
    else match createUser(name.s, email.s)
      case Err(e) => ServerError(e)
      case Ok(u) => Response(CREATED, UserBody(u))
  }

  /** updateUser: validation before the service call, then 404 when the service updated no row. */
  function UpdateUser(idParam: string, name: Field, email: Field,
                      updateUser: (Option<int>, string, string) -> Result<Option<UserSummary>, DbError>)
      : (resp: Response)
    ensures !Truthy(name) || !Truthy(email) ==> resp == Error(BAD_REQUEST, USER_FIELDS_REQUIRED)
    ensures Truthy(name) && Truthy(email) ==>
      match updateUser(ParseInt(idParam), name.s, email.s)
      case Err(e) => resp == ServerError(e)
      case Ok(None) => resp == Error(NOT_FOUND, USER_NOT_FOUND)
      case Ok(Some(u)) => resp == Response(OK, UserBody(u))
  {
    if !Truthy(name) || !Truthy(email) then Error(BAD_REQUEST, USER_FIELDS_REQUIRED)
    else match updateUser(ParseInt(idParam), name.s, email.s)
      case Err(e) => ServerError(e)
      case Ok(None) => Error(NOT_FOUND, USER_NOT_FOUND)
      case Ok(Some(u)) => Response(OK, UserBody(u))
  }

  /** deleteUser: 404 when nothing was deleted, else 200 with a message naming the requested id. */
  function DeleteUser(idParam: string, deleteUser: Option<int> -> Result<Option<int>, DbError>): (resp: Response)
    ensures deleteUser(ParseInt(idParam)).Err? ==> resp == ServerError(deleteUser(ParseInt(idParam)).error)
    ensures resp == Error(NOT_FOUND, USER_NOT_FOUND) <==> deleteUser(ParseInt(idParam)) == Ok(None)
    ensures resp.status == OK <==> deleteUser(ParseInt(idParam)).Ok? && deleteUser(ParseInt(idParam)).value.Some?
    ensures resp.status == OK ==> resp.body == MessageBody("User deleted with ID: " + IdText(ParseInt(idParam)))
  {
    match deleteUser(ParseInt(idParam))
    case Err(e) => ServerError(e)
    case Ok(None) => Error(NOT_FOUND, USER_NOT_FOUND)
    case Ok(Some(_)) => Response(OK, MessageBody("User deleted with ID: " + IdText(ParseInt(idParam))))
  }

  /** Validation failures answer alike whatever the service would have done, so it is never needed. */
  lemma ValidationPrecedesService(idParam: string, name: Field, email: Field,
                                  create1: (string, string) -> Result<UserSummary, DbError>,
                                  create2: (string, string) -> Result<UserSummary, DbError>,
                                  update1: (Option<int>, string, string) -> Result<Option<UserSummary>, DbError>,
                                  update2: (Option<int>, string, string) -> Result<Option<UserSummary>, DbError>)
    requires !Truthy(name) || !Truthy(email)
    ensures CreateUser(name, email, create1) == CreateUser(name, email, create2)
    ensures UpdateUser(idParam, name, email, update1) == UpdateUser(idParam, name, email, update2)
  {
  }
}
