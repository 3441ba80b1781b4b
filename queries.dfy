/** queries.js: the handlers index.js actually mounts.  They issue their SQL directly; the
    post handlers repeat those of the post controller with a different ownership test. */
module Queries {
  import opened Wrappers
  import opened Seqs
  import opened Js
  import opened Tables
  import opened Credentials
  import opened Http
  import opened PostService
  import opened PostController
  import AuthController

  const REGISTER_FIELDS_REQUIRED: string := "Username, email, and password are required"
  const REGISTER_DUPLICATE: string := "Email or username already exists"
  const LOGIN_FIELDS_REQUIRED: string := "Email and password are required"
  const INVALID_CREDENTIALS: string := "Invalid credentials"
  const USER_FIELDS_REQUIRED: string := "Name and email are required"
  const USER_NOT_FOUND: string := "User not found"

  // ---- authentication ----

  /** registerUser's catch: the unique violation is a 400, any other error a 500 with its message. */
  function RegisterFailure(e: DbError): (resp: Response)
    ensures resp.status == BAD_REQUEST <==> e.code == UNIQUE_VIOLATION
    ensures resp.status == BAD_REQUEST ==> resp == Error(BAD_REQUEST, REGISTER_DUPLICATE)
    ensures resp.status != BAD_REQUEST ==> resp == ServerError(e)
  {
    if e.code == UNIQUE_VIOLATION then Error(BAD_REQUEST, REGISTER_DUPLICATE) else ServerError(e)
  }

  /** registerUser: all three fields required; the new account goes in with its password hashed,
      and the response carries it with a token for it.  The `username` field fills the name column. */
  method RegisterUser(db: Database, username: Field, email: Field, password: Field, now: int, fault: Option<DbError>)
      returns (resp: Response)
    requires db.Valid()
    modifies db
    ensures db.Valid()
    ensures !Truthy(username) || !Truthy(email) || !Truthy(password) ==>
      resp == Error(BAD_REQUEST, REGISTER_FIELDS_REQUIRED) && unchanged(db)
    ensures Truthy(username) && Truthy(email) && Truthy(password) ==>
      match InsertUserError(old(db.users), email.s, fault)
      case Some(e) =>
        && resp == RegisterFailure(e)
        && db.users == old(db.users) && db.posts == old(db.posts) && db.likes == old(db.likes)
        && db.nextPostId == old(db.nextPostId)
        && db.nextUserId == if fault.None? then old(db.nextUserId) + 1 else old(db.nextUserId)
      case None =>
        var u := UserRow(old(db.nextUserId), username.s, email.s, Some(HashPassword(password.s)), now);
        resp == Response(CREATED, AuthBody(Account(u.id, u.name, u.email, None), GenerateToken(u.id, u.email, now)))
        && db.users == old(db.users) + [u] && db.nextUserId == old(db.nextUserId) + 1
        && db.posts == old(db.posts) && db.likes == old(db.likes) && db.nextPostId == old(db.nextPostId)
  {
    if !Truthy(username) || !Truthy(email) || !Truthy(password) {
      return Error(BAD_REQUEST, REGISTER_FIELDS_REQUIRED);
    }
    var r := InsertUser(db, username.s, email.s, Some(HashPassword(password.s)), now, fault);
    if r.Err? {
      return RegisterFailure(r.error);
    }
    var u := r.value;
    resp := Response(CREATED, AuthBody(Account(u.id, u.name, u.email, None), GenerateToken(u.id, u.email, now)));
  }

  /** The password check loginUser performs: the first user row with the email exists, has a
      password hash, and the hash accepts the password. */
  predicate CredentialsAccepted(users: seq<UserRow>, email: string, password: string)
  {
    var u := SelectUserByEmail(users, email);
    u.Some? && u.value.password.Some? && ComparePassword(password, u.value.password.value)
  }

  /** loginUser: an unknown email and a wrong password give the same 401; a row without a password
      hash makes bcrypt throw; a token is issued only once the password check has passed. */
  function LoginUser(users: seq<UserRow>, email: Field, password: Field, now: int, fault: Option<DbError>)
      : (resp: Response)
    ensures !Truthy(email) || !Truthy(password) ==> resp == Error(BAD_REQUEST, LOGIN_FIELDS_REQUIRED)
    ensures Truthy(email) && Truthy(password) && fault.Some? ==> resp == ServerError(fault.value)
    ensures Truthy(email) && Truthy(password) && fault.None? && !EmailTaken(users, email.s) ==>
      resp == Error(UNAUTHORIZED, INVALID_CREDENTIALS)
    ensures Truthy(email) && Truthy(password) && fault.None? && EmailTaken(users, email.s) ==>
      var u := SelectUserByEmail(users, email.s).value;
      if u.password.None? then resp == Error(SERVER_ERROR, COMPARE_NULL_HASH_ERROR)
      else if !ComparePassword(password.s, u.password.value) then resp == Error(UNAUTHORIZED, INVALID_CREDENTIALS)
      else resp == Response(OK, AuthBody(Account(u.id, u.name, u.email, None), GenerateToken(u.id, u.email, now)))
    ensures resp.status == OK <==> Truthy(email) && Truthy(password) && fault.None? && CredentialsAccepted(users, email.s, password.s)
  {
    if !Truthy(email) || !Truthy(password) then Error(BAD_REQUEST, LOGIN_FIELDS_REQUIRED)
    else if fault.Some? then ServerError(fault.value)
    else match SelectUserByEmail(users, email.s)
      case None => Error(UNAUTHORIZED, INVALID_CREDENTIALS)
      case Some(u) =>
        match u.password
        case None => Error(SERVER_ERROR, COMPARE_NULL_HASH_ERROR)
        case Some(h) =>
          if !ComparePassword(password.s, h) then Error(UNAUTHORIZED, INVALID_CREDENTIALS)
          else Response(OK, AuthBody(Account(u.id, u.name, u.email, None), GenerateToken(u.id, u.email, now)))
  }

  /** A login does not reveal whether the email is registered: an unknown email and a known one with
      the wrong password get the very same response. */
  lemma LoginHidesUnknownEmail(users: seq<UserRow>, others: seq<UserRow>, email: Field, password: Field, now: int)
    requires Truthy(email) && Truthy(password)
    requires !EmailTaken(others, email.s) && EmailTaken(users, email.s)
    requires SelectUserByEmail(users, email.s).value.password.Some?
    requires !ComparePassword(password.s, SelectUserByEmail(users, email.s).value.password.value)
    ensures LoginUser(users, email, password, now, None) == LoginUser(others, email, password, now, None)
    ensures LoginUser(users, email, password, now, None) == Error(UNAUTHORIZED, INVALID_CREDENTIALS)
  {
  }

  /** Registering an unused email and then logging in with the same password finds the new row
      and issues a token for it. */
  lemma {:induction false} LoginAfterRegister(users: seq<UserRow>, u: UserRow, password: string, now: int)
    requires !EmailTaken(users, u.email) && u.password == Some(HashPassword(password))
    requires u.email != "" && password != ""
    ensures LoginUser(users + [u], Text(u.email), Text(password), now, None)
         == Response(OK, AuthBody(Account(u.id, u.name, u.email, None), GenerateToken(u.id, u.email, now)))
  {
  }

  /** userService.findUserByEmail over the users table: SELECT * FROM users WHERE email = $1, first
      row, or the database's failure (`fault`) as the rejected promise. */
  function FindUserByEmail(users: seq<UserRow>, fault: Option<DbError>): string -> Result<Option<UserRow>, DbError>
  {
    email => if fault.Some? then Err(fault.value) else Ok(SelectUserByEmail(users, email))
  }

  /** The two login copies decide alike: the same response on every failure, and on success the same
      token and user, except that the controller's copy also carries the user's created_at. */
  lemma LoginCopiesAgree(users: seq<UserRow>, email: Field, password: Field, now: int, fault: Option<DbError>)
    ensures var q := LoginUser(users, email, password, now, fault);
            var c := AuthController.Login(email, password, FindUserByEmail(users, fault), now);
            && q.status == c.status
            && (q.status != OK ==> q == c)
            && (q.status == OK ==> q.body.AuthBody? && c.body.AuthBody? && q.body.token == c.body.token
                                   && q.body.account == c.body.account.(createdAt := None))
  {
  }

  // ---- users ----

  function Summaries(users: seq<UserRow>): (r: seq<UserSummary>)
    ensures |r| == |users|
    ensures forall i :: 0 <= i < |users| ==> r[i] == Summary(users[i])
  {
    if |users| == 0 then [] else [Summary(users[0])] + Summaries(users[1..])
  }

  function SummaryId(s: UserSummary): int
  {
    s.id
  }

  /** getUsers: SELECT id, name, email FROM users ORDER BY id ASC. */
  function GetUsers(users: seq<UserRow>, fault: Option<DbError>): (resp: Response)
    ensures fault.Some? ==> resp == ServerError(fault.value)
    ensures fault.None? ==>
      (resp.status == OK && resp.body.UserListBody?
       && SortedBy(resp.body.users, SummaryId)
       && multiset(resp.body.users) == multiset(Summaries(users)))
  {
    if fault.Some? then ServerError(fault.value)
    else Response(OK, UserListBody(SortBy(Summaries(users), SummaryId)))
  }

  /** getUserById: 404 'User not found' when no row has the id. */
  function GetUserById(users: seq<UserRow>, idParam: string, fault: Option<DbError>): (resp: Response)
    ensures FirstStatementError(fault, ParseInt(idParam)).Some? ==>
      resp == ServerError(FirstStatementError(fault, ParseInt(idParam)).value)
    ensures FirstStatementError(fault, ParseInt(idParam)).None? ==>
      (resp == Error(NOT_FOUND, USER_NOT_FOUND) <==> forall u :: u in users ==> u.id != ParseInt(idParam).value)
    ensures resp.status == OK <==>
      FirstStatementError(fault, ParseInt(idParam)).None? && exists u :: u in users && u.id == ParseInt(idParam).value
    ensures resp.status == OK ==>
      (resp.body.UserBody? && ParseInt(idParam) == Some(resp.body.user.id)
       && exists u :: u in users && Summary(u) == resp.body.user)
  {
    match FirstStatementError(fault, ParseInt(idParam))
    case Some(e) => ServerError(e)
    case None =>
      match SelectUserById(users, ParseInt(idParam).value)
      case None => Error(NOT_FOUND, USER_NOT_FOUND)
      case Some(u) => Response(OK, UserBody(Summary(u)))
  }

  /** createUser: name and email required; the row goes in without a password, and a duplicate
      email is a 500 like any other error. */
  method CreateUser(db: Database, name: Field, email: Field, now: int, fault: Option<DbError>) returns (resp: Response)
    requires db.Valid()
    modifies db
    ensures db.Valid()
    ensures !Truthy(name) || !Truthy(email) ==> resp == Error(BAD_REQUEST, USER_FIELDS_REQUIRED) && unchanged(db)
    ensures Truthy(name) && Truthy(email) ==>
      match InsertUserError(old(db.users), email.s, fault)
      case Some(e) =>
        && resp == ServerError(e)
        && db.users == old(db.users) && db.posts == old(db.posts) && db.likes == old(db.likes)
        && db.nextPostId == old(db.nextPostId)
        && db.nextUserId == if fault.None? then old(db.nextUserId) + 1 else old(db.nextUserId)
      case None =>
        var u := UserRow(old(db.nextUserId), name.s, email.s, None, now);
        resp == Response(CREATED, UserBody(Summary(u)))
        && db.users == old(db.users) + [u] && db.nextUserId == old(db.nextUserId) + 1
        && db.posts == old(db.posts) && db.likes == old(db.likes) && db.nextPostId == old(db.nextPostId)
  {
    if !Truthy(name) || !Truthy(email) {
      return Error(BAD_REQUEST, USER_FIELDS_REQUIRED);
    }
    var r := InsertUser(db, name.s, email.s, None, now, fault);
    if r.Err? {
      return ServerError(r.error);
    }
    var u := r.value;
    resp := Response(CREATED, UserBody(Summary(u)));
  }

  /** updateUser: name and email required; 404 when no row has the id, else the rows with that id
      take the new name and email. */
  method UpdateUser(db: Database, idParam: string, name: Field, email: Field, fault: Option<DbError>)
      returns (resp: Response)
    requires db.Valid()
    modifies db
    ensures db.Valid()
    ensures !Truthy(name) || !Truthy(email) ==> resp == Error(BAD_REQUEST, USER_FIELDS_REQUIRED)
    ensures Truthy(name) && Truthy(email) ==>
      match UpdateUserError(old(db.users), ParseInt(idParam), email.s, fault)
      case Some(e) => resp == ServerError(e)
      case None =>
        var id := ParseInt(idParam).value;
        if SelectUserById(old(db.users), id).None? then resp == Error(NOT_FOUND, USER_NOT_FOUND)
        else resp == Response(OK, UserBody(UserSummary(id, name.s, email.s)))
             && db.users == UpdateUserRows(old(db.users), id, name.s, email.s)
             && db.posts == old(db.posts) && db.likes == old(db.likes)
             && db.nextUserId == old(db.nextUserId) && db.nextPostId == old(db.nextPostId)
    ensures resp.status != OK ==> unchanged(db)
  {
    if !Truthy(name) || !Truthy(email) {
      return Error(BAD_REQUEST, USER_FIELDS_REQUIRED);
    }
    var r := Tables.UpdateUser(db, ParseInt(idParam), name.s, email.s, fault);
    if r.Err? {
      return ServerError(r.error);
    }
    if |r.value| == 0 {
      return Error(NOT_FOUND, USER_NOT_FOUND);
    }
    resp := Response(OK, UserBody(r.value[0]));
  }

  /** deleteUser: 404 when no row has the id, else those rows are gone and the message names the id. */
  method DeleteUser(db: Database, idParam: string, fault: Option<DbError>) returns (resp: Response)
    requires db.Valid()
    modifies db
    ensures db.Valid()
    ensures FirstStatementError(fault, ParseInt(idParam)).Some? ==>
      resp == ServerError(FirstStatementError(fault, ParseInt(idParam)).value)
    ensures FirstStatementError(fault, ParseInt(idParam)).None? ==>
      var id := ParseInt(idParam).value;
      if SelectUserById(old(db.users), id).None? then resp == Error(NOT_FOUND, USER_NOT_FOUND)
      else resp == Response(OK, MessageBody("User deleted with ID: " + DecimalString(id)))
           && db.users == DeleteUserRows(old(db.users), id)
           && db.posts == old(db.posts) && db.likes == old(db.likes)
           && db.nextUserId == old(db.nextUserId) && db.nextPostId == old(db.nextPostId)
    ensures resp.status != OK ==> unchanged(db)
  {
    var e := FirstStatementError(fault, ParseInt(idParam));
    if e.Some? {
      return ServerError(e.value);
    }
    var id := ParseInt(idParam).value;
    if SelectUserById(db.users, id).None? {
      return Error(NOT_FOUND, USER_NOT_FOUND);
    }
    DeleteUserRowsKeepsKeys(db.users, db.posts, db.nextUserId, db.nextPostId, id);
    db.users := DeleteUserRows(db.users, id);
    resp := Response(OK, MessageBody("User deleted with ID: " + DecimalString(id)));
  }

  // ---- posts ----

  /** getPosts: the same listing query as the post service; a failure is a plain 500 with the message. */
  function GetPosts(users: seq<UserRow>, posts: seq<PostRow>, likes: seq<LikeRow>, query: Field, userId: int,
                    fault: Option<DbError>): (resp: Response)
    ensures fault.Some? ==> resp == ServerError(fault.value)
    ensures fault.None? ==> resp.status == OK && resp.body.PostListBody? && NewestFirst(resp.body.views)
    ensures fault.None? ==> forall v :: v in resp.body.views <==>
              exists p :: p in posts && Listed(users, p, query) && v == ViewOf(users, likes, p, OrNull(userId))
    ensures fault.None? ==> |resp.body.views| == |ListedRows(users, posts, query)|
    ensures fault.None? ==> resp == Response(OK, PostListBody(PostService.GetAllPosts(users, posts, likes, OrNull(userId), query)))
  {
    if fault.Some? then ServerError(fault.value)
    else Response(OK, PostListBody(GetAllPosts(users, posts, likes, OrNull(userId), query)))
  }

  /** `if (rows.length === 0) 404; if (rows[0].user_id !== userId) 403`: only a missing row is 'not found'. */
  function RowOwnershipCheck(owner: Option<int>, userId: int, verb: Verb): (c: Check)
    ensures owner.None? ==> c == Refuse(Error(NOT_FOUND, POST_NOT_FOUND))
    ensures owner.Some? && owner.value != userId ==> c == Refuse(Error(FORBIDDEN, RefusalMessage(verb)))
    ensures c.Proceed? <==> owner == Some(userId)
  {
    if owner.None? then Refuse(Error(NOT_FOUND, POST_NOT_FOUND))
    else if owner.value != userId then Refuse(Error(FORBIDDEN, RefusalMessage(verb)))
    else Proceed
  }

  /** The two copies of the ownership chain decide alike except for a post whose user_id is 0, which
      the controller reports as missing and this file as someone else's (or the requester's, for id 0). */
  lemma OwnershipChecksAgree(owner: Option<int>, userId: int, verb: Verb)
    ensures OwnershipCheck(owner, userId, verb) == RowOwnershipCheck(owner, userId, verb) <==> owner != Some(0)
  {
  }

  /** updatePost: validation, then the owner lookup, then the update, which runs only for the owner. */
  method UpdatePost(db: Database, idParam: string, title: Field, content: Field, userId: int, fault: Option<DbError>)
      returns (resp: Response)
    requires db.Valid()
    modifies db
    ensures db.Valid()
    ensures !Truthy(title) || !Truthy(content) ==> resp == Error(BAD_REQUEST, MISSING_POST_FIELDS)
    ensures Truthy(title) && Truthy(content) && FirstStatementError(fault, ParseInt(idParam)).Some? ==>
      resp == ServerError(FirstStatementError(fault, ParseInt(idParam)).value)
    ensures Truthy(title) && Truthy(content) && FirstStatementError(fault, ParseInt(idParam)).None? ==>
      var id := ParseInt(idParam).value;
      match RowOwnershipCheck(GetPostOwner(old(db.posts), id), userId, Edit)
      case Refuse(r) => resp == r
      case Proceed =>
        SelectPost(old(db.posts), id).Some?
        && resp == Response(OK, PostBody(Retitled(SelectPost(old(db.posts), id).value, title.s, content.s)))
        && db.posts == UpdatePostRows(old(db.posts), id, title.s, content.s)
        && db.users == old(db.users) && db.likes == old(db.likes)
        && db.nextUserId == old(db.nextUserId) && db.nextPostId == old(db.nextPostId)
    ensures resp.status != OK ==> unchanged(db)
    ensures resp.status == OK ==> ParseInt(idParam).Some? && GetPostOwner(old(db.posts), ParseInt(idParam).value) == Some(userId)
  {
    if !Truthy(title) || !Truthy(content) {
      return Error(BAD_REQUEST, MISSING_POST_FIELDS);
    }
    var e := FirstStatementError(fault, ParseInt(idParam));
    if e.Some? {
      return ServerError(e.value);
    }
    var id := ParseInt(idParam).value;
    var check := RowOwnershipCheck(GetPostOwner(db.posts, id), userId, Edit);
    if check.Refuse? {
      return check.response;
    }
    assert SelectPost(db.posts, id).Some?;
    var row := PostService.UpdatePost(db, id, title.s, content.s);
    resp := Response(OK, PostBody(row.value));
  }

  /** deletePost: the owner lookup, then the delete, which runs only for the owner. */
  method DeletePost(db: Database, idParam: string, userId: int, fault: Option<DbError>) returns (resp: Response)
    requires db.Valid()
    modifies db
    ensures db.Valid()
    ensures FirstStatementError(fault, ParseInt(idParam)).Some? ==>
      resp == ServerError(FirstStatementError(fault, ParseInt(idParam)).value)
    ensures FirstStatementError(fault, ParseInt(idParam)).None? ==>
      var id := ParseInt(idParam).value;
      match RowOwnershipCheck(GetPostOwner(old(db.posts), id), userId, Delete)
      case Refuse(r) => resp == r
      case Proceed =>
        resp == Response(OK, MessageBody("Post deleted with ID: " + DecimalString(id)))
        && db.posts == DeletePostRows(old(db.posts), id)
        && db.users == old(db.users) && db.likes == old(db.likes)
        && db.nextUserId == old(db.nextUserId) && db.nextPostId == old(db.nextPostId)
    ensures resp.status != OK ==> unchanged(db)
    ensures resp.status == OK ==> ParseInt(idParam).Some? && GetPostOwner(old(db.posts), ParseInt(idParam).value) == Some(userId)
  {
    var e := FirstStatementError(fault, ParseInt(idParam));
    if e.Some? {
      return ServerError(e.value);
    }
    var id := ParseInt(idParam).value;
    var check := RowOwnershipCheck(GetPostOwner(db.posts, id), userId, Delete);
    if check.Refuse? {
      return check.response;
    }
    PostService.DeletePost(db, id);
    resp := Response(OK, MessageBody("Post deleted with ID: " + DecimalString(id)));
  }

  /** toggleLike: delete the pair's likes when there are any ('Post unliked'), else insert one ('Post liked'). */
  method ToggleLike(db: Database, idParam: string, userId: int, fault: Option<DbError>) returns (resp: Response)
    requires db.Valid()
    modifies db
    ensures db.Valid()
    ensures FirstStatementError(fault, ParseInt(idParam)).Some? ==>
      resp == ServerError(FirstStatementError(fault, ParseInt(idParam)).value) && unchanged(db)
    ensures FirstStatementError(fault, ParseInt(idParam)).None? ==>
      var postId := ParseInt(idParam).value;
      resp == Response(OK, MessageBody(if LikeRow(postId, userId) in old(db.likes) then "Post unliked" else "Post liked"))
      && db.likes == Toggled(old(db.likes), postId, userId)
      && db.users == old(db.users) && db.posts == old(db.posts)
      && db.nextUserId == old(db.nextUserId) && db.nextPostId == old(db.nextPostId)
  {
    var e := FirstStatementError(fault, ParseInt(idParam));
    if e.Some? {
      return ServerError(e.value);
    }
    var postId := ParseInt(idParam).value;
    if |SelectLikes(db.likes, postId, userId)| > 0 {
      db.likes := DeleteLikes(db.likes, postId, userId);
      resp := Response(OK, MessageBody("Post unliked"));
    } else {
      db.likes := InsertLike(db.likes, postId, userId);
      resp := Response(OK, MessageBody("Post liked"));
    }
  }
}
