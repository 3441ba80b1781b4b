/** The three Postgres tables the handlers read and write, as sequences of rows in
    table order, the SQL statements the handlers issue against them, and the
    database object whose fields those statements replace. */
module Tables {
  import opened Wrappers
  import opened Seqs
  import opened Credentials

  /** users(id, name, email unique, password, created_at); `password` is NULL for accounts an admin created. */
  datatype UserRow = UserRow(id: int, name: string, email: string, password: Option<PasswordHash>, createdAt: int)

  /** posts(id, title, content, user_id, created_at). */
  datatype PostRow = PostRow(id: int, title: string, content: string, userId: int, createdAt: int)

  /** likes(post_id, user_id); the row's own serial id is never read by the handlers. */
  datatype LikeRow = LikeRow(postId: int, userId: int)

  /** An error raised by a query: Postgres's SQLSTATE code and message. */
  datatype DbError = DbError(code: string, message: string)

  /** A row of the posts listing query: p.*, the author's name, the like count and whether the requester likes it. */
  datatype PostView = PostView(post: PostRow, authorName: string, likesCount: nat, isLiked: bool)

  /** The columns id, name, email that the users queries select or return. */
  datatype UserSummary = UserSummary(id: int, name: string, email: string)

  function Summary(u: UserRow): UserSummary
  {
    UserSummary(u.id, u.name, u.email)
  }

  /** The keys the tables keep unique: posts.id, users.id (both SERIAL primary keys) and users.email. */
  function IdOfPost(p: PostRow): int { p.id }
  function IdOfUser(u: UserRow): int { u.id }
  function EmailOfUser(u: UserRow): string { u.email }

  const UNIQUE_VIOLATION: string := "23505"

  /** What Postgres raises when an INSERT or UPDATE would give two users the same email. */
  const DuplicateEmail := DbError(UNIQUE_VIOLATION, "duplicate key value violates unique constraint \"users_email_key\"")

  /** What Postgres raises when node-postgres sends the number NaN for an integer parameter. */
  const NaNParameter := DbError("22P02", "invalid input syntax for type integer: \"NaN\"")

  /** The error, if any, that a handler's first statement raises: the database's own failure
      (`fault`, such as a lost connection), or else Postgres rejecting an id `parseInt` left as NaN. */
  function FirstStatementError(fault: Option<DbError>, id: Option<int>): (e: Option<DbError>)
    ensures e.None? <==> fault.None? && id.Some?
    ensures fault.Some? ==> e == fault
    ensures fault.None? && id.None? ==> e == Some(NaNParameter)
  {
    if fault.Some? then fault else if id.None? then Some(NaNParameter) else None
  }

  // ---- posts ----

  /** SELECT ... FROM posts WHERE id = $1, first row. */
  function SelectPost(posts: seq<PostRow>, id: int): (r: Option<PostRow>)
    ensures r.None? <==> forall p :: p in posts ==> p.id != id
    ensures r.Some? ==> r.value in posts && r.value.id == id
    ensures r.Some? ==> exists i :: 0 <= i < |posts| && posts[i] == r.value && forall j :: 0 <= j < i ==> posts[j].id != id
  {
    First(posts, (p: PostRow) => p.id == id)
  }

  /** The row UPDATE posts SET title = $1, content = $2 makes of a matching row. */
  function Retitled(p: PostRow, title: string, content: string): PostRow
  {
    p.(title := title, content := content)
  }

  /** UPDATE posts SET title = $1, content = $2 WHERE id = $3. */
  function UpdatePostRows(posts: seq<PostRow>, id: int, title: string, content: string): (r: seq<PostRow>)
    ensures |r| == |posts|
    ensures forall i :: 0 <= i < |posts| ==>
      r[i].id == posts[i].id && r[i].userId == posts[i].userId && r[i].createdAt == posts[i].createdAt
    ensures forall i :: 0 <= i < |posts| && posts[i].id == id ==> r[i].title == title && r[i].content == content
    ensures forall i :: 0 <= i < |posts| && posts[i].id != id ==> r[i] == posts[i]
  {
    if |posts| == 0 then []
    else
      [if posts[0].id == id then Retitled(posts[0], title, content) else posts[0]]
      + UpdatePostRows(posts[1..], id, title, content)
  }

  /** The UPDATE keeps every row's id, so ids stay below the sequence's next value and stay distinct. */
  lemma UpdatePostRowsKeepsKeys(users: seq<UserRow>, posts: seq<PostRow>, nextUserId: int, nextPostId: int,
                                id: int, title: string, content: string)
    requires Consistent(users, posts, nextUserId, nextPostId)
    ensures Consistent(users, UpdatePostRows(posts, id, title, content), nextUserId, nextPostId)
  {
    var r := UpdatePostRows(posts, id, title, content);
    forall i, j | 0 <= i < j < |r| ensures IdOfPost(r[i]) != IdOfPost(r[j]) {
      assert IdOfPost(posts[i]) != IdOfPost(posts[j]);
    }
  }

  /** What UPDATE ... RETURNING * hands back first is what a SELECT of the same id then returns:
      the first matching row, with the new title and content. */
  lemma {:induction false} SelectAfterUpdate(posts: seq<PostRow>, id: int, title: string, content: string)
    ensures SelectPost(UpdatePostRows(posts, id, title, content), id)
         == match SelectPost(posts, id)
            case None => None
            case Some(p) => Some(Retitled(p, title, content))
  {
    if |posts| > 0 {
      SelectAfterUpdate(posts[1..], id, title, content);
      var r := UpdatePostRows(posts, id, title, content);
      assert r[1..] == UpdatePostRows(posts[1..], id, title, content);
      if posts[0].id != id {
        assert SelectPost(r, id) == SelectPost(r[1..], id);
        assert SelectPost(posts, id) == SelectPost(posts[1..], id);
      }
    }
  }

  /** DELETE FROM posts WHERE id = $1: exactly the rows with that id go, and the rest keep their order. */
  function DeletePostRows(posts: seq<PostRow>, id: int): (r: seq<PostRow>)
    ensures forall p :: p in r <==> p in posts && p.id != id
    ensures forall p :: multiset(r)[p] == if p.id != id then multiset(posts)[p] else 0
    ensures IsSubseq(r, posts)
    ensures DistinctBy(posts, IdOfPost) ==> DistinctBy(r, IdOfPost)
  {
    WhereIsSubseq(posts, (p: PostRow) => p.id != id);
    WhereKeepsDistinct(posts, (p: PostRow) => p.id != id, IdOfPost);
    Where(posts, (p: PostRow) => p.id != id)
  }

  // ---- likes ----

  /** SELECT id FROM likes WHERE post_id = $1 AND user_id = $2. */
  function SelectLikes(likes: seq<LikeRow>, postId: int, userId: int): (r: seq<LikeRow>)
    ensures forall l :: l in r ==> l == LikeRow(postId, userId)
    ensures |r| > 0 <==> LikeRow(postId, userId) in likes
  {
    var r := Where(likes, (l: LikeRow) => l == LikeRow(postId, userId));
    assert |r| > 0 ==> r[0] in r;
    r
  }

  /** DELETE FROM likes WHERE post_id = $1 AND user_id = $2: every row of the pair goes, nothing else does. */
  function DeleteLikes(likes: seq<LikeRow>, postId: int, userId: int): (r: seq<LikeRow>)
    ensures multiset(r) == multiset(likes)[LikeRow(postId, userId) := 0]
  {
    var r := Where(likes, (l: LikeRow) => l != LikeRow(postId, userId));
    assert multiset(r) == multiset(likes)[LikeRow(postId, userId) := 0] by {
      forall x ensures multiset(r)[x] == multiset(likes)[LikeRow(postId, userId) := 0][x] { }
    }
    r
  }

  /** INSERT INTO likes (post_id, user_id) VALUES ($1, $2). */
  function InsertLike(likes: seq<LikeRow>, postId: int, userId: int): (r: seq<LikeRow>)
    ensures multiset(r) == multiset(likes)[LikeRow(postId, userId) := multiset(likes)[LikeRow(postId, userId)] + 1]
  {
    likes + [LikeRow(postId, userId)]
  }

  /** (SELECT COUNT(*) FROM likes WHERE post_id = p.id). */
  function LikesCount(likes: seq<LikeRow>, postId: int): nat
    decreases |likes|
  {
    if |likes| == 0 then 0
    else LikesCount(likes[..|likes| - 1], postId) + (if likes[|likes| - 1].postId == postId then 1 else 0)
  }

  /** EXISTS(SELECT 1 FROM likes WHERE post_id = p.id AND user_id = $1); a NULL user matches no row. */
  predicate IsLiked(likes: seq<LikeRow>, postId: int, userId: Option<int>)
  {
    userId.Some? && LikeRow(postId, userId.value) in likes
  }

  lemma LikesCountAppend(likes: seq<LikeRow>, l: LikeRow, postId: int)
    ensures LikesCount(likes + [l], postId) == LikesCount(likes, postId) + (if l.postId == postId then 1 else 0)
  {
  }

  /** Deleting a pair's rows lowers the like count of that post by the number of rows deleted
      and leaves every other post's count alone. */
  lemma {:induction false} LikesCountAfterDelete(likes: seq<LikeRow>, postId: int, userId: int, q: int)
    ensures LikesCount(DeleteLikes(likes, postId, userId), q)
         == LikesCount(likes, q) - (if q == postId then multiset(likes)[LikeRow(postId, userId)] else 0)
    decreases |likes|
  {
    if |likes| > 0 {
      var init := likes[..|likes| - 1];
      var last := likes[|likes| - 1];
      assert likes == init + [last];
      LikesCountAfterDelete(init, postId, userId, q);
      var keep := (l: LikeRow) => l != LikeRow(postId, userId);
      assert DeleteLikes(likes, postId, userId) == Where(likes, keep);
      assert DeleteLikes(init, postId, userId) == Where(init, keep);
      if keep(last) {
        assert Where(likes, keep) == Where(init, keep) + [last];
        LikesCountAppend(Where(init, keep), last, q);
      } else {
        assert Where(likes, keep) == Where(init, keep);
      }
    }
  }

  // ---- users ----

  /** SELECT ... FROM users WHERE id = $1, first row. */
  function SelectUserById(users: seq<UserRow>, id: int): (r: Option<UserRow>)
    ensures r.None? <==> forall u :: u in users ==> u.id != id
    ensures r.Some? ==> r.value in users && r.value.id == id
    ensures r.Some? ==> exists i :: 0 <= i < |users| && users[i] == r.value && forall j :: 0 <= j < i ==> users[j].id != id
  {
    First(users, (u: UserRow) => u.id == id)
  }

  /** SELECT * FROM users WHERE email = $1, first row. */
  function SelectUserByEmail(users: seq<UserRow>, email: string): (r: Option<UserRow>)
    ensures r.None? <==> forall u :: u in users ==> u.email != email
    ensures r.Some? ==> r.value in users && r.value.email == email
    ensures r.Some? ==> exists i :: 0 <= i < |users| && users[i] == r.value && forall j :: 0 <= j < i ==> users[j].email != email
  {
    First(users, (u: UserRow) => u.email == email)
  }

  /** An INSERT of this email would violate the unique constraint on users.email. */
  predicate EmailTaken(users: seq<UserRow>, email: string)
  {
    exists u :: u in users && u.email == email
  }

  /** An UPDATE of user `id` to this email would violate the unique constraint: another row has it. */
  predicate EmailTakenByOther(users: seq<UserRow>, id: int, email: string)
  {
    exists u :: u in users && u.email == email && u.id != id
  }

  /** UPDATE users SET name = $1, email = $2 WHERE id = $3. */
  function UpdateUserRows(users: seq<UserRow>, id: int, name: string, email: string): (r: seq<UserRow>)
    ensures |r| == |users|
    ensures forall i :: 0 <= i < |users| ==>
      r[i].id == users[i].id && r[i].password == users[i].password && r[i].createdAt == users[i].createdAt
    ensures forall i :: 0 <= i < |users| && users[i].id == id ==> r[i].name == name && r[i].email == email
    ensures forall i :: 0 <= i < |users| && users[i].id != id ==> r[i] == users[i]
  {
    if |users| == 0 then []
    else
      [if users[0].id == id then users[0].(name := name, email := email) else users[0]]
      + UpdateUserRows(users[1..], id, name, email)
  }

  /** The UPDATE keeps every row's id, so ids stay below the sequence's next value and stay
      distinct; emails stay unique as long as no other row already has the new one. */
  lemma UpdateUserRowsKeepsKeys(users: seq<UserRow>, posts: seq<PostRow>, nextUserId: int, nextPostId: int,
                                id: int, name: string, email: string)
    requires Consistent(users, posts, nextUserId, nextPostId)
    requires !EmailTakenByOther(users, id, email)
    ensures Consistent(UpdateUserRows(users, id, name, email), posts, nextUserId, nextPostId)
  {
    var r := UpdateUserRows(users, id, name, email);
    assert DistinctBy(r, IdOfUser) by {
      forall i, j | 0 <= i < j < |r| ensures IdOfUser(r[i]) != IdOfUser(r[j]) {
        assert IdOfUser(users[i]) != IdOfUser(users[j]);
      }
    }
    assert DistinctBy(r, EmailOfUser) by {
      forall i, j | 0 <= i < j < |r| ensures EmailOfUser(r[i]) != EmailOfUser(r[j]) {
        assert IdOfUser(users[i]) != IdOfUser(users[j]);
        assert EmailOfUser(users[i]) != EmailOfUser(users[j]);
        if users[i].id == id {
          assert users[j] in users;
        } else if users[j].id == id {
          assert users[i] in users;
        }
      }
    }
    assert forall u :: u in r ==> 1 <= u.id < nextUserId by {
      forall u | u in r ensures 1 <= u.id < nextUserId {
        var i :| 0 <= i < |r| && r[i] == u;
        assert users[i] in users;
      }
    }
  }

  /** An UPDATE whose id no row has changes nothing. */
  lemma UpdateUserRowsOfMissing(users: seq<UserRow>, id: int, name: string, email: string)
    requires SelectUserById(users, id).None?
    ensures UpdateUserRows(users, id, name, email) == users
  {
    var r := UpdateUserRows(users, id, name, email);
    assert forall i :: 0 <= i < |users| ==> r[i] == users[i] by {
      forall i | 0 <= i < |users| ensures r[i] == users[i] {
        assert users[i] in users;
      }
    }
  }

  /** DELETE FROM users WHERE id = $1: exactly the rows with that id go, and the rest keep their order. */
  function DeleteUserRows(users: seq<UserRow>, id: int): (r: seq<UserRow>)
    ensures forall u :: u in r <==> u in users && u.id != id
    ensures forall u :: multiset(r)[u] == if u.id != id then multiset(users)[u] else 0
    ensures IsSubseq(r, users)
    ensures DistinctBy(users, IdOfUser) ==> DistinctBy(r, IdOfUser)
    ensures DistinctBy(users, EmailOfUser) ==> DistinctBy(r, EmailOfUser)
  {
    WhereIsSubseq(users, (u: UserRow) => u.id != id);
    WhereKeepsDistinct(users, (u: UserRow) => u.id != id, IdOfUser);
    WhereKeepsDistinct(users, (u: UserRow) => u.id != id, EmailOfUser);
    Where(users, (u: UserRow) => u.id != id)
  }

  /** A new post row whose id is the sequence's next value keeps the tables consistent. */
  lemma InsertPostKeepsKeys(users: seq<UserRow>, posts: seq<PostRow>, nextUserId: int, nextPostId: int, p: PostRow)
    requires Consistent(users, posts, nextUserId, nextPostId) && p.id == nextPostId
    ensures Consistent(users, posts + [p], nextUserId, nextPostId + 1)
  {
    AppendKeepsDistinct(posts, p, IdOfPost);
  }

  /** A new user row whose id is the sequence's next value and whose email is free keeps the tables consistent. */
  lemma InsertUserKeepsKeys(users: seq<UserRow>, posts: seq<PostRow>, nextUserId: int, nextPostId: int, u: UserRow)
    requires Consistent(users, posts, nextUserId, nextPostId) && u.id == nextUserId
    requires !EmailTaken(users, u.email)
    ensures Consistent(users + [u], posts, nextUserId + 1, nextPostId)
  {
    AppendKeepsDistinct(users, u, IdOfUser);
    AppendKeepsDistinct(users, u, EmailOfUser);
  }

  lemma DeletePostRowsKeepsKeys(users: seq<UserRow>, posts: seq<PostRow>, nextUserId: int, nextPostId: int, id: int)
    requires Consistent(users, posts, nextUserId, nextPostId)
    ensures Consistent(users, DeletePostRows(posts, id), nextUserId, nextPostId)
  {
  }

  lemma DeleteUserRowsKeepsKeys(users: seq<UserRow>, posts: seq<PostRow>, nextUserId: int, nextPostId: int, id: int)
    requires Consistent(users, posts, nextUserId, nextPostId)
    ensures Consistent(DeleteUserRows(users, id), posts, nextUserId, nextPostId)
  {
  }

  /** With distinct post ids, the select finds the one row that has its id. */
  lemma SelectPostUnique(posts: seq<PostRow>, p: PostRow)
    requires DistinctBy(posts, IdOfPost) && p in posts
    ensures SelectPost(posts, p.id) == Some(p)
  {
    assert SelectPost(posts, p.id).Some?;
    var q := SelectPost(posts, p.id).value;
    var i :| 0 <= i < |posts| && posts[i] == p;
    var j :| 0 <= j < |posts| && posts[j] == q;
    assert IdOfPost(posts[i]) == IdOfPost(posts[j]);
  }

  /** With distinct user ids, the select by id finds the one row that has it. */
  lemma SelectUserByIdUnique(users: seq<UserRow>, u: UserRow)
    requires DistinctBy(users, IdOfUser) && u in users
    ensures SelectUserById(users, u.id) == Some(u)
  {
    assert SelectUserById(users, u.id).Some?;
    var v := SelectUserById(users, u.id).value;
    var i :| 0 <= i < |users| && users[i] == u;
    var j :| 0 <= j < |users| && users[j] == v;
    assert IdOfUser(users[i]) == IdOfUser(users[j]);
  }

  /** With unique emails, the select by email finds the one row that has it. */
  lemma SelectUserByEmailUnique(users: seq<UserRow>, u: UserRow)
    requires DistinctBy(users, EmailOfUser) && u in users
    ensures SelectUserByEmail(users, u.email) == Some(u)
  {
    assert SelectUserByEmail(users, u.email).Some?;
    var v := SelectUserByEmail(users, u.email).value;
    var i :| 0 <= i < |users| && users[i] == u;
    var j :| 0 <= j < |users| && users[j] == v;
    assert EmailOfUser(users[i]) == EmailOfUser(users[j]);
  }

  /** The error INSERT INTO users raises: the database's own failure, else the unique violation on email. */
  function InsertUserError(users: seq<UserRow>, email: string, fault: Option<DbError>): (e: Option<DbError>)
    ensures e.None? <==> fault.None? && !EmailTaken(users, email)
    ensures fault.None? && EmailTaken(users, email) ==> e == Some(DuplicateEmail)
  {
    if fault.Some? then fault else if EmailTaken(users, email) then Some(DuplicateEmail) else None
  }

  /** The error UPDATE users ... WHERE id = $3 raises: the first statement's error, else the unique
      violation when an existing row would take another row's email. */
  function UpdateUserError(users: seq<UserRow>, id: Option<int>, email: string, fault: Option<DbError>): (e: Option<DbError>)
    ensures e.None? <==> fault.None? && id.Some? && !(SelectUserById(users, id.value).Some? && EmailTakenByOther(users, id.value, email))
    ensures fault.None? && id.Some? && SelectUserById(users, id.value).Some? && EmailTakenByOther(users, id.value, email)
            ==> e == Some(DuplicateEmail)
  {
    match FirstStatementError(fault, id)
    case Some(e) => Some(e)
    case None =>
      if SelectUserById(users, id.value).Some? && EmailTakenByOther(users, id.value, email) then Some(DuplicateEmail)
      else None
  }

  /** INSERT INTO users ... RETURNING: the statement fails as InsertUserError says and leaves the
      tables as they were then; otherwise the new row gets the next serial id and the current time.
      Once the statement runs, `nextval` has drawn an id before the unique index is checked, so a
      duplicate email uses up that id too; a fault before the statement draws none. */
  method InsertUser(db: Database, name: string, email: string, password: Option<PasswordHash>, now: int,
                    fault: Option<DbError>)
      returns (r: Result<UserRow, DbError>)
    requires db.Valid()
    modifies db
    ensures db.Valid()
    ensures match InsertUserError(old(db.users), email, fault)
      case Some(e) =>
        && r == Err(e)
        && db.users == old(db.users) && db.posts == old(db.posts) && db.likes == old(db.likes)
        && db.nextPostId == old(db.nextPostId)
        && db.nextUserId == if fault.None? then old(db.nextUserId) + 1 else old(db.nextUserId)
      case None =>
        && r == Ok(UserRow(old(db.nextUserId), name, email, password, now))
        && db.users == old(db.users) + [r.value] && db.nextUserId == old(db.nextUserId) + 1
        && db.posts == old(db.posts) && db.likes == old(db.likes) && db.nextPostId == old(db.nextPostId)
        && SelectUserById(db.users, r.value.id) == Some(r.value)
  {
    var e := InsertUserError(db.users, email, fault);
    if e.Some? {
      if fault.None? {
        db.nextUserId := db.nextUserId + 1;
      }
      return Err(e.value);
    }
    var u := UserRow(db.nextUserId, name, email, password, now);
    InsertUserKeepsKeys(db.users, db.posts, db.nextUserId, db.nextPostId, u);
    db.users := db.users + [u];
    db.nextUserId := db.nextUserId + 1;
    SelectUserByIdUnique(db.users, u);
    r := Ok(u);
  }

  /** UPDATE users SET name = $1, email = $2 WHERE id = $3 RETURNING id, name, email: the statement
      fails as UpdateUserError says and changes nothing then; otherwise the row with the id takes
      the new name and email and comes back, and no row comes back when no row has the id. */
  method UpdateUser(db: Database, id: Option<int>, name: string, email: string, fault: Option<DbError>)
      returns (r: Result<seq<UserSummary>, DbError>)
    requires db.Valid()
    modifies db
    ensures db.Valid()
    ensures match UpdateUserError(old(db.users), id, email, fault)
      case Some(e) => r == Err(e) && unchanged(db)
      case None =>
        && r == Ok(if SelectUserById(old(db.users), id.value).Some? then [UserSummary(id.value, name, email)] else [])
        && db.users == UpdateUserRows(old(db.users), id.value, name, email)
        && db.posts == old(db.posts) && db.likes == old(db.likes)
        && db.nextUserId == old(db.nextUserId) && db.nextPostId == old(db.nextPostId)
    ensures r == Ok([]) ==> unchanged(db)
  {
    var e := UpdateUserError(db.users, id, email, fault);
    if e.Some? {
      return Err(e.value);
    }
    if SelectUserById(db.users, id.value).None? {
      UpdateUserRowsOfMissing(db.users, id.value, name, email);
      return Ok([]);
    }
    UpdateUserRowsKeepsKeys(db.users, db.posts, db.nextUserId, db.nextPostId, id.value, name, email);
    db.users := UpdateUserRows(db.users, id.value, name, email);
    r := Ok([UserSummary(id.value, name, email)]);
  }

  /** Every id handed out so far is positive and below the next value of its sequence, the
      primary keys are distinct, and no two users share an email. */
  ghost predicate Consistent(users: seq<UserRow>, posts: seq<PostRow>, nextUserId: int, nextPostId: int)
  {
    && nextUserId >= 1 && nextPostId >= 1
    && (forall u :: u in users ==> 1 <= u.id < nextUserId)
    && (forall p :: p in posts ==> 1 <= p.id < nextPostId)
    && DistinctBy(users, IdOfUser) && DistinctBy(users, EmailOfUser)
    && DistinctBy(posts, IdOfPost)
  }

  /** The database: the three tables and the next values of the two SERIAL id sequences. */
  class Database {
    var users: seq<UserRow>
    var posts: seq<PostRow>
    var likes: seq<LikeRow>
    var nextUserId: int
    var nextPostId: int

    ghost predicate Valid()
      reads this
    {
      Consistent(users, posts, nextUserId, nextPostId)
    }

    constructor ()
      ensures Valid()
      ensures users == [] && posts == [] && likes == []
      ensures nextUserId == 1 && nextPostId == 1
    {
      users, posts, likes := [], [], [];
      nextUserId, nextPostId := 1, 1;
    }
  }
}
