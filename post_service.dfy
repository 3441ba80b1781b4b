/** services/postService.js: the read queries over posts as functions of the tables,
    and the statements that change them as methods on the database. */
module PostService {
  import opened Wrappers
  import opened Seqs
  import opened Js
  import opened Tables

  datatype LikeAction = Liked | Unliked

  // ---- read queries ----

  /** getPostOwner(id): the user_id of the post with that id, or undefined when there is none. */
  function GetPostOwner(posts: seq<PostRow>, id: int): (owner: Option<int>)
    ensures owner.None? <==> forall p :: p in posts ==> p.id != id
    ensures owner.Some? ==> exists p :: p in posts && p.id == id && p.userId == owner.value
  {
    match SelectPost(posts, id)
    case None => None
    case Some(p) => Some(p.userId)
  }

  /** The inner JOIN users u ON p.user_id = u.id keeps a post only when its author's row exists. */
  predicate HasAuthor(users: seq<UserRow>, p: PostRow)
  {
    SelectUserById(users, p.userId).Some?
  }

  /** WHERE p.title ILIKE '%q%' OR p.content ILIKE '%q%', applied only when the query is truthy. */
  predicate MatchesQuery(p: PostRow, query: Field)
  {
    !Truthy(query) || ILikeContains(p.title, query.s) || ILikeContains(p.content, query.s)
  }

  predicate Listed(users: seq<UserRow>, p: PostRow, query: Field)
  {
    HasAuthor(users, p) && MatchesQuery(p, query)
  }

  function AuthorName(users: seq<UserRow>, p: PostRow): string
  {
    match SelectUserById(users, p.userId)
    case Some(u) => u.name
    case None => ""
  }

  /** The selected columns for one post: p.*, author_name, likes_count and is_liked for the requester. */
  function ViewOf(users: seq<UserRow>, likes: seq<LikeRow>, p: PostRow, userId: Option<int>): PostView
  {
    PostView(p, AuthorName(users, p), LikesCount(likes, p.id), IsLiked(likes, p.id, userId))
  }

  function Views(users: seq<UserRow>, likes: seq<LikeRow>, rows: seq<PostRow>, userId: Option<int>): (r: seq<PostView>)
    ensures |r| == |rows|
    ensures forall i :: 0 <= i < |rows| ==> r[i] == ViewOf(users, likes, rows[i], userId)
  {
    if |rows| == 0 then [] else [ViewOf(users, likes, rows[0], userId)] + Views(users, likes, rows[1..], userId)
  }

  /** The posts rows the listing query returns, in table order. */
  function ListedRows(users: seq<UserRow>, posts: seq<PostRow>, query: Field): (r: seq<PostRow>)
    ensures forall p :: p in r <==> p in posts && Listed(users, p, query)
  {
    Where(posts, (p: PostRow) => Listed(users, p, query))
  }

  /** ORDER BY p.created_at DESC. */
  function NewestFirstKey(v: PostView): int
  {
    -v.post.createdAt
  }

  predicate NewestFirst(vs: seq<PostView>)
  {
    forall i, j :: 0 <= i < j < |vs| ==> vs[i].post.createdAt >= vs[j].post.createdAt
  }

  /** getAllPosts(userId, query): each post that has an author and matches the query, exactly once,
      with its like count and liked flag, newest first. */
  function GetAllPosts(users: seq<UserRow>, posts: seq<PostRow>, likes: seq<LikeRow>, userId: Option<int>, query: Field)
    : (r: seq<PostView>)
    ensures NewestFirst(r)
    ensures forall v :: v in r <==> exists p :: p in posts && Listed(users, p, query) && v == ViewOf(users, likes, p, userId)
    ensures |r| == |ListedRows(users, posts, query)|
  {
    var rows := ListedRows(users, posts, query);
    var views := Views(users, likes, rows, userId);
    var r := SortBy(views, NewestFirstKey);
    assert forall v :: v in r <==> v in views by {
      forall v ensures v in r <==> v in views {
        assert v in r <==> v in multiset(r);
        assert v in views <==> v in multiset(views);
      }
    }
    assert forall v :: v in views <==> exists p :: p in rows && v == ViewOf(users, likes, p, userId) by {
      forall v | v in views ensures exists p :: p in rows && v == ViewOf(users, likes, p, userId) {
        var i :| 0 <= i < |views| && views[i] == v;
        assert rows[i] in rows;
      }
      forall p | p in rows ensures ViewOf(users, likes, p, userId) in views {
        var i :| 0 <= i < |rows| && rows[i] == p;
        assert views[i] == ViewOf(users, likes, p, userId);
      }
    }
    assert NewestFirst(r) by {
      forall i, j | 0 <= i < j < |r| ensures r[i].post.createdAt >= r[j].post.createdAt {
        assert NewestFirstKey(r[i]) <= NewestFirstKey(r[j]);
      }
    }
    r
  }

  /** getPostById(id, userId): the post with that id if it has an author, with its like count and liked flag. */
  function GetPostById(users: seq<UserRow>, posts: seq<PostRow>, likes: seq<LikeRow>, id: int, userId: Option<int>)
    : (r: Option<PostView>)
    ensures r.None? <==> forall p :: p in posts && p.id == id ==> !HasAuthor(users, p)
    ensures r.Some? ==> r.value.post in posts && r.value.post.id == id && HasAuthor(users, r.value.post)
    ensures r.Some? ==> r.value == ViewOf(users, likes, r.value.post, userId)
  {
    match First(posts, (p: PostRow) => p.id == id && HasAuthor(users, p))
    case None => None
    case Some(p) => Some(ViewOf(users, likes, p, userId))
  }

  // ---- likes ----

  /** The likes table after toggleLike's read-then-act sequence: delete the pair's rows if any, else insert one. */
  function Toggled(likes: seq<LikeRow>, postId: int, userId: int): (r: seq<LikeRow>)
    ensures LikeRow(postId, userId) in likes ==> multiset(r) == multiset(likes)[LikeRow(postId, userId) := 0]
    ensures LikeRow(postId, userId) !in likes ==> multiset(r) == multiset(likes)[LikeRow(postId, userId) := 1]
  {
    if |SelectLikes(likes, postId, userId)| > 0 then DeleteLikes(likes, postId, userId)
    else InsertLike(likes, postId, userId)
  }

  /** The uniqueness the likes table is meant to have: at most one row per (post, user) pair. */
  ghost predicate AtMostOneRowPerPair(likes: seq<LikeRow>)
  {
    forall l :: multiset(likes)[l] <= 1
  }

  /** Toggling keeps the pairs unique. */
  lemma ToggleKeepsPairsUnique(likes: seq<LikeRow>, postId: int, userId: int)
    requires AtMostOneRowPerPair(likes)
    ensures AtMostOneRowPerPair(Toggled(likes, postId, userId))
  {
  }

  /** Toggling twice, from at most one row for the pair, gives back the same rows. */
  lemma ToggleTwice(likes: seq<LikeRow>, postId: int, userId: int)
    requires multiset(likes)[LikeRow(postId, userId)] <= 1
    ensures multiset(Toggled(Toggled(likes, postId, userId), postId, userId)) == multiset(likes)
  {
  }

  /** Liking and then unliking puts back exactly the table that was there, row order included. */
  lemma {:induction false} LikeThenUnlike(likes: seq<LikeRow>, postId: int, userId: int)
    requires LikeRow(postId, userId) !in likes
    ensures Toggled(likes, postId, userId) == likes + [LikeRow(postId, userId)]
    ensures Toggled(Toggled(likes, postId, userId), postId, userId) == likes
  {
    var x := LikeRow(postId, userId);
    var keep := (l: LikeRow) => l != x;
    assert Toggled(likes, postId, userId) == likes + [x];
    assert x in likes + [x];
    assert Toggled(likes + [x], postId, userId) == Where(likes + [x], keep);
    WhereAppend(likes, x, keep);
    WhereKeepsAll(likes, keep);
  }

  /** The like count a listing shows moves by one for the toggled post and stays put for every other. */
  lemma ToggleLikesCount(likes: seq<LikeRow>, postId: int, userId: int, q: int)
    requires multiset(likes)[LikeRow(postId, userId)] <= 1
    ensures LikesCount(Toggled(likes, postId, userId), q)
         == if q != postId then LikesCount(likes, q)
            else if LikeRow(postId, userId) in likes then LikesCount(likes, q) - 1
            else LikesCount(likes, q) + 1
  {
    if LikeRow(postId, userId) in likes {
      LikesCountAfterDelete(likes, postId, userId, q);
    } else {
      LikesCountAppend(likes, LikeRow(postId, userId), q);
    }
  }

  // ---- statements ----

  /** createPost: INSERT INTO posts ... RETURNING *; the new row gets the next serial id and the current time. */
  method CreatePost(db: Database, title: string, content: string, userId: int, now: int) returns (post: PostRow)
    requires db.Valid()
    modifies db
    ensures db.Valid()
    ensures post == PostRow(old(db.nextPostId), title, content, userId, now)
    ensures db.posts == old(db.posts) + [post] && db.nextPostId == old(db.nextPostId) + 1
    ensures db.users == old(db.users) && db.likes == old(db.likes) && db.nextUserId == old(db.nextUserId)
    ensures SelectPost(db.posts, post.id) == Some(post)
  {
    post := PostRow(db.nextPostId, title, content, userId, now);
    InsertPostKeepsKeys(db.users, db.posts, db.nextUserId, db.nextPostId, post);
    db.posts := db.posts + [post];
    db.nextPostId := db.nextPostId + 1;
    SelectPostUnique(db.posts, post);
  }

  /** updatePost: UPDATE posts SET title, content WHERE id RETURNING *, first row. */
  method UpdatePost(db: Database, id: int, title: string, content: string) returns (row: Option<PostRow>)
    requires db.Valid()
    modifies db
    ensures db.Valid()
    ensures db.posts == UpdatePostRows(old(db.posts), id, title, content)
    ensures row == match SelectPost(old(db.posts), id)
                   case None => None
                   case Some(p) => Some(Retitled(p, title, content))
    ensures row == SelectPost(db.posts, id)
    ensures db.users == old(db.users) && db.likes == old(db.likes)
    ensures db.nextUserId == old(db.nextUserId) && db.nextPostId == old(db.nextPostId)
  {
    UpdatePostRowsKeepsKeys(db.users, db.posts, db.nextUserId, db.nextPostId, id, title, content);
    SelectAfterUpdate(db.posts, id, title, content);
    db.posts := UpdatePostRows(db.posts, id, title, content);
    row := SelectPost(db.posts, id);
  }

  /** deletePost: DELETE FROM posts WHERE id = $1. */
  method DeletePost(db: Database, id: int)
    requires db.Valid()
    modifies db
    ensures db.Valid()
    ensures db.posts == DeletePostRows(old(db.posts), id)
    ensures db.users == old(db.users) && db.likes == old(db.likes)
    ensures db.nextUserId == old(db.nextUserId) && db.nextPostId == old(db.nextPostId)
  {
    DeletePostRowsKeepsKeys(db.users, db.posts, db.nextUserId, db.nextPostId, id);
    db.posts := DeletePostRows(db.posts, id);
  }

  /** toggleLike: look for the pair's like rows, then delete them ('unliked') or insert one ('liked'). */
  method ToggleLike(db: Database, postId: int, userId: int) returns (action: LikeAction)
    requires db.Valid()
    modifies db
    ensures db.Valid()
    ensures action == if LikeRow(postId, userId) in old(db.likes) then Unliked else Liked
    ensures db.likes == Toggled(old(db.likes), postId, userId)
    ensures db.users == old(db.users) && db.posts == old(db.posts)
    ensures db.nextUserId == old(db.nextUserId) && db.nextPostId == old(db.nextPostId)
  {
    var existing := SelectLikes(db.likes, postId, userId);
    if |existing| > 0 {
      db.likes := DeleteLikes(db.likes, postId, userId);
      action := Unliked;
    } else {
      db.likes := InsertLike(db.likes, postId, userId);
      action := Liked;
    }
  }
}
