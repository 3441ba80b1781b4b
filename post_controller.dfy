/** controllers/postController.js: request validation, the 404/403 ownership chain and the
    response each post handler sends, over the post service.  Every post route sits behind
    authentication, so the requester's id is always present. */
module PostController {
  import opened Wrappers
  import opened Js
  import opened Tables
  import opened Http
  import opened PostService

  const MISSING_POST_FIELDS: string := "Title and content are required"
  const POST_NOT_FOUND: string := "Post not found"

  datatype Verb = Edit | Delete

  function RefusalMessage(verb: Verb): string
  {
    match verb
    case Edit => "Not authorized to edit this post"
    case Delete => "Not authorized to delete this post"
  }

  /** `req.user?.id || null`: a falsy id is sent to the query as NULL. */
  function OrNull(id: int): (r: Option<int>)
    ensures r.None? <==> id == 0
    ensures r.Some? ==> r.value == id
  {
    if id == 0 then None else Some(id)
  }

  datatype Check = Proceed | Refuse(response: Response)

  /** `if (!ownerId) 404; if (ownerId !== userId) 403`: a missing owner and an owner id of 0 are both 'not found'. */
  function OwnershipCheck(owner: Option<int>, userId: int, verb: Verb): (c: Check)
    ensures owner.None? || owner == Some(0) ==> c == Refuse(Error(NOT_FOUND, POST_NOT_FOUND))
    ensures owner.Some? && owner.value != 0 && owner.value != userId ==> c == Refuse(Error(FORBIDDEN, RefusalMessage(verb)))
    ensures c.Proceed? <==> owner == Some(userId) && userId != 0
  {
    if owner.None? || owner.value == 0 then Refuse(Error(NOT_FOUND, POST_NOT_FOUND))
    else if owner.value != userId then Refuse(Error(FORBIDDEN, RefusalMessage(verb)))
    else Proceed
  }

  /** getPosts: the listing, or 500 with 'Failed to fetch posts' and the error's message as details. */
  function GetPosts(users: seq<UserRow>, posts: seq<PostRow>, likes: seq<LikeRow>, query: Field, userId: int,
                    fault: Option<DbError>): (resp: Response)
    ensures fault.Some? ==> resp == Response(SERVER_ERROR, ErrorDetailsBody("Failed to fetch posts", fault.value.message))
    ensures fault.None? ==> resp.status == OK && resp.body.PostListBody? && NewestFirst(resp.body.views)
    ensures fault.None? ==> forall v :: v in resp.body.views <==>
              exists p :: p in posts && Listed(users, p, query) && v == ViewOf(users, likes, p, OrNull(userId))
    ensures fault.None? ==> |resp.body.views| == |ListedRows(users, posts, query)|
    ensures fault.None? ==> resp == Response(OK, PostListBody(PostService.GetAllPosts(users, posts, likes, OrNull(userId), query)))
  {
    if fault.Some? then Response(SERVER_ERROR, ErrorDetailsBody("Failed to fetch posts", fault.value.message))
    else Response(OK, PostListBody(GetAllPosts(users, posts, likes, OrNull(userId), query)))
  }

  /** getPostById: 404 when the query finds no post (none with that id, or its author row is gone). */
  function GetPostById(users: seq<UserRow>, posts: seq<PostRow>, likes: seq<LikeRow>, idParam: string, userId: int,
                       fault: Option<DbError>): (resp: Response)
    ensures FirstStatementError(fault, ParseInt(idParam)).Some? ==> resp == ServerError(FirstStatementError(fault, ParseInt(idParam)).value)
    ensures FirstStatementError(fault, ParseInt(idParam)).None? ==>
      var id := ParseInt(idParam).value;
      (resp == Error(NOT_FOUND, POST_NOT_FOUND) <==> forall p :: p in posts && p.id == id ==> !HasAuthor(users, p))
    ensures resp.status == OK <==>
      FirstStatementError(fault, ParseInt(idParam)).None?
      && exists p :: p in posts && p.id == ParseInt(idParam).value && HasAuthor(users, p)
    ensures resp.status == OK ==>
      (resp.body.PostViewBody? && resp.body.view.post in posts
       && ParseInt(idParam) == Some(resp.body.view.post.id)
       && resp.body.view == ViewOf(users, likes, resp.body.view.post, OrNull(userId)))
  {
    match FirstStatementError(fault, ParseInt(idParam))
    case Some(e) => ServerError(e)
    case None =>
      match PostService.GetPostById(users, posts, likes, ParseInt(idParam).value, OrNull(userId))
      case None => Error(NOT_FOUND, POST_NOT_FOUND)
      case Some(v) => Response(OK, PostViewBody(v))
  }

  /** createPost: 400 unless title and content are both non-empty strings, else the inserted row with 201. */
  method CreatePost(db: Database, title: Field, content: Field, userId: int, now: int, fault: Option<DbError>)
      returns (resp: Response)
    requires db.Valid()
    modifies db
    ensures db.Valid()
    ensures !Truthy(title) || !Truthy(content) ==> resp == Error(BAD_REQUEST, MISSING_POST_FIELDS) && unchanged(db)
    ensures Truthy(title) && Truthy(content) && fault.Some? ==> resp == ServerError(fault.value) && unchanged(db)
    ensures Truthy(title) && Truthy(content) && fault.None? ==>
      var post := PostRow(old(db.nextPostId), title.s, content.s, userId, now);
      resp == Response(CREATED, PostBody(post))
      && db.posts == old(db.posts) + [post] && db.nextPostId == old(db.nextPostId) + 1
      && db.users == old(db.users) && db.likes == old(db.likes) && db.nextUserId == old(db.nextUserId)
  {
    if !Truthy(title) || !Truthy(content) {
      return Error(BAD_REQUEST, MISSING_POST_FIELDS);
    }
    if fault.Some? {
      return ServerError(fault.value);
    }
    var post := PostService.CreatePost(db, title.s, content.s, userId, now);
    resp := Response(CREATED, PostBody(post));
  }

  /** updatePost: validation, then the owner lookup, then the update, which runs only for the owner. */
  method UpdatePost(db: Database, idParam: string, title: Field, content: Field, userId: int, fault: Option<DbError>)
      returns (resp: Response)
    requires db.Valid()
    modifies db
    ensures db.Valid()
    ensures !Truthy(title) || !Truthy(content) ==> resp == Error(BAD_REQUEST, MISSING_POST_FIELDS)
    ensures Truthy(title) && Truthy(content) && FirstStatementError(fault, ParseInt(idParam)).Some? ==>
      resp == ServerError(FirstStatementError(fault, ParseInt(idParam)).value)
    ensures Truthy(title) && Truthy(content) && FirstStatementError(fault, ParseInt(idParam)).None? ==>
      var id := ParseInt(idParam).value;
      match OwnershipCheck(GetPostOwner(old(db.posts), id), userId, Edit)
      case Refuse(r) => resp == r
      case Proceed =>
        SelectPost(old(db.posts), id).Some?
        && resp == Response(OK, PostBody(Retitled(SelectPost(old(db.posts), id).value, title.s, content.s)))
        && db.posts == UpdatePostRows(old(db.posts), id, title.s, content.s)
        && db.users == old(db.users) && db.likes == old(db.likes)
        && db.nextUserId == old(db.nextUserId) && db.nextPostId == old(db.nextPostId)
    ensures resp.status != OK ==> unchanged(db)
    ensures resp.status == OK ==> ParseInt(idParam).Some? && GetPostOwner(old(db.posts), ParseInt(idParam).value) == Some(userId)
  {
    if !Truthy(title) || !Truthy(content) {
      return Error(BAD_REQUEST, MISSING_POST_FIELDS);
    }
    var e := FirstStatementError(fault, ParseInt(idParam));
    if e.Some? {
      return ServerError(e.value);
    }
    var id := ParseInt(idParam).value;
    var check := OwnershipCheck(GetPostOwner(db.posts, id), userId, Edit);
    if check.Refuse? {
      return check.response;
    }
    var row := PostService.UpdatePost(db, id, title.s, content.s);
    resp := Response(OK, PostBody(row.value));
  }

  /** deletePost: the owner lookup, then the delete, which runs only for the owner. */
  method DeletePost(db: Database, idParam: string, userId: int, fault: Option<DbError>) returns (resp: Response)
    requires db.Valid()
    modifies db
    ensures db.Valid()
    ensures FirstStatementError(fault, ParseInt(idParam)).Some? ==>
      resp == ServerError(FirstStatementError(fault, ParseInt(idParam)).value)
    ensures FirstStatementError(fault, ParseInt(idParam)).None? ==>
      var id := ParseInt(idParam).value;
      match OwnershipCheck(GetPostOwner(old(db.posts), id), userId, Delete)
      case Refuse(r) => resp == r
      case Proceed =>
        resp == Response(OK, MessageBody("Post deleted with ID: " + DecimalString(id)))
        && db.posts == DeletePostRows(old(db.posts), id)
        && db.users == old(db.users) && db.likes == old(db.likes)
        && db.nextUserId == old(db.nextUserId) && db.nextPostId == old(db.nextPostId)
    ensures resp.status != OK ==> unchanged(db)
    ensures resp.status == OK ==> ParseInt(idParam).Some? && GetPostOwner(old(db.posts), ParseInt(idParam).value) == Some(userId)
  {
    var e := FirstStatementError(fault, ParseInt(idParam));
    if e.Some? {
      return ServerError(e.value);
    }
    var id := ParseInt(idParam).value;
    var check := OwnershipCheck(GetPostOwner(db.posts, id), userId, Delete);
    if check.Refuse? {
      return check.response;
    }
    PostService.DeletePost(db, id);
    resp := Response(OK, MessageBody("Post deleted with ID: " + DecimalString(id)));
  }

  function LikeMessage(action: LikeAction): (m: string)
    ensures m == "Post liked" <==> action == Liked
    ensures m == "Post unliked" <==> action == Unliked
  {
    match action
    case Liked => assert |"Post liked"| != |"Post unliked"|; "Post liked"
    case Unliked => assert |"Post liked"| != |"Post unliked"|; "Post unliked"
  }

  /** toggleLike: the service's toggle, answered 'Post liked' or 'Post unliked'. */
  method ToggleLike(db: Database, idParam: string, userId: int, fault: Option<DbError>) returns (resp: Response)
    requires db.Valid()
    modifies db
    ensures db.Valid()
    ensures FirstStatementError(fault, ParseInt(idParam)).Some? ==>
      resp == ServerError(FirstStatementError(fault, ParseInt(idParam)).value) && unchanged(db)
    ensures FirstStatementError(fault, ParseInt(idParam)).None? ==>
      var postId := ParseInt(idParam).value;
      resp == Response(OK, MessageBody(if LikeRow(postId, userId) in old(db.likes) then "Post unliked" else "Post liked"))
      && db.likes == Toggled(old(db.likes), postId, userId)
      && db.users == old(db.users) && db.posts == old(db.posts)
      && db.nextUserId == old(db.nextUserId) && db.nextPostId == old(db.nextPostId)
  {
    var e := FirstStatementError(fault, ParseInt(idParam));
    if e.Some? {
      return ServerError(e.value);
    }
    var action := PostService.ToggleLike(db, ParseInt(idParam).value, userId);
    resp := Response(OK, MessageBody(LikeMessage(action)));
  }
}
