# Blog API decision rules in Dafny

This project models the decision logic of a small Express/Postgres blogging API: users register
and log in, then create, edit, delete and like posts. An admin role is meant to manage user
accounts, and a metrics service counts recent requests. The model covers:

- the role gate `authorize(roles)`;
- the route table that puts authentication and the role gate in front of each handler;
- the post controller and post service, which run validation, then the 404, then the 403
  ownership check, then the mutation;
- the handler copies in `queries.js` that the server actually mounts;
- the register and login handlers and the user-admin handlers;
- the rolling window of request timestamps behind the metrics counts.

The database is modelled in memory (`Tables`). Each of the tables `users`, `posts` and `likes` is a
sequence of rows in table order, so "the first row" of a query result is well defined. Each SQL
statement a handler issues is a function on those sequences. `Tables.Database` holds the three
tables and the next values of the two `SERIAL` id sequences. Its invariant (`Tables.Consistent`)
is what the primary keys and the unique email column guarantee: every id is below its sequence's
next value, no two posts or users share an id, and no two users share an email. Every handler
that writes keeps it.

Handlers that write to the database are methods on a `Database`, and their postconditions state
the whole new state. Read-only handlers, and the controllers that only map a service outcome to
a response, are functions. Outside influences are parameters:

- the clock: `now`, as `created_at`, JWT `iat` and `Date.now()`;
- a failure of the database itself: `fault`, which the handler's first statement raises;
- the user service the user and auth controllers call: a function-valued parameter.

A route id that `parseInt` turns into `NaN` is sent to Postgres, which rejects it with
`22P02`. The model does the same through `Tables.FirstStatementError`.

JavaScript semantics are written out where the code relies on them:

- body fields are `Missing` or text, and `!field` is `Js.Truthy`;
- `parseInt` follows the language's rules: leading white space, a sign, a `0x` prefix, and the
  longest run of digits;
- `${id}` is `Js.DecimalString`, or `NaN` when there is no number;
- ILIKE `'%q%'` is substring search after ASCII lower-casing.

Three behaviours of the code shape the model:

- Tokens carry no role claim, only `{id, email}` (config/auth.js:26-29). No role reaches
  `req.user`, so every admin-only route refuses every token this code issues
  (`Routes.AdminRoutesRefuseIssuedTokens`).
- Server errors return the error's own message (`error.message`), not a fixed text.
- `createUser` on a duplicate email returns 500 with the database's message; only the register
  handlers turn 23505 into a 400.

## Model

| member | source | states |
|---|---|---|
| Middleware.Authorize | middleware/auth.js:11-23 | no user gives 401 'Unauthorized' whatever the roles; an empty role list passes every user; a user whose role is listed passes; otherwise 403 'Forbidden'; `next` exactly when a user is present and the list is empty or holds the role |
| Credentials.Authenticate | config/auth.js:13-21 | a token authenticates exactly while it is unexpired, and its payload becomes `req.user` unchanged |
| Credentials.IssuedTokenLifetime | config/auth.js:24-33 | a token generateToken issues authenticates for exactly 24 hours, as `{id, email}` with no role |
| Routes.Admit | index.js:28-44 | public routes always reach the handler; an unauthenticated request on any other route gets passport's 401; the handler is reached exactly when the route's policy is met |
| Routes.AdminRoutesRefuseIssuedTokens | routes/users.js:7-13 | every admin-only route answers any issued token with 403 while the token is valid and with 401 after it expires |
| Routes.OtherRoutesAdmitIssuedTokens | index.js:32-41 | every authenticated-only route lets an issued token through for its 24 hours |
| Js.ParseInt | controllers/postController.js:19 | parseInt yields a number exactly when leading digits follow the optional white space, sign and hex prefix |
| Js.ParseIntOfNumeral | controllers/postController.js:19 | any string made of white space, an optional sign, an optional 0x/0X prefix, a non-empty run of digits of that radix and a rest that does not go on with such a digit parses to the signed value of those digits |
| Js.NumeralOfParseInt | controllers/postController.js:19 | every string parseInt reads as a number splits into such white space, sign, prefix, digits and rest |
| Js.ParseIntSome | controllers/postController.js:19 | parseInt gives n exactly when the string is a numeral of that shape denoting n |
| Js.ParseIntNaN | controllers/postController.js:19 | parseInt gives NaN exactly when no way of splitting the string makes such a numeral |
| Js.ParseIntOfBarePrefix | queries.js:82 | "0x" with no hexadecimal digit after it is NaN |
| Js.ParseIntOfSignedHex | queries.js:82 | " -0x1F" reads as -31: white space skipped, sign applied, radix 16 after the prefix |
| Js.ParseIntOfTrailingText | queries.js:82 | "12abc" reads as 12: reading stops at the first non-digit |
| Js.ParseIntOfText | queries.js:82 | "abc" is NaN |
| Js.ParseIntOfDecimalString | controllers/postController.js:90 | the decimal text `${id}` of any integer parses back to the same integer, so a message names the id that was acted on |
| Js.ContainsAt | services/postService.js:13-16 | the substring test behind ILIKE '%q%' holds exactly when the pattern occurs at some position |
| Tables.FirstStatementError | queries.js:82-87 | the first statement fails exactly when the database fails or the parsed id is NaN; the error is the database's own failure if there is one, and otherwise Postgres's 22P02 for the NaN id |
| Tables.SelectPost | services/postService.js:57-58 | a posts row with the id that no earlier row shares, or none exactly when no row has it |
| Tables.SelectPostUnique | services/postService.js:57-58 | with distinct post ids, the row found for a post's id is that post |
| Tables.UpdatePostRows | services/postService.js:45-51 | same rows in the same order; matching rows get the new title and content; id, user_id and created_at are kept; other rows are unchanged |
| Tables.SelectAfterUpdate | services/postService.js:45-51 | the first row UPDATE ... RETURNING gives back is the first matching row with the new title and content |
| Tables.DeletePostRows | services/postService.js:53-55 | exactly the rows with other ids remain, each as often as before, in their order; distinct ids stay distinct |
| Tables.UpdatePostRowsKeepsKeys | services/postService.js:45-51 | the UPDATE keeps the tables consistent: ids stay below the sequence and distinct |
| Tables.InsertPostKeepsKeys | services/postService.js:37-43 | a row with the sequence's next id keeps the tables consistent once the sequence advances |
| Tables.DeletePostRowsKeepsKeys | services/postService.js:53-55 | the DELETE keeps the tables consistent |
| Tables.SelectLikes | services/postService.js:64-67 | every row found is the (post, user) pair, and some row is found exactly when the pair is liked |
| Tables.DeleteLikes | services/postService.js:71-74 | every row of the pair is removed and every other row's count is kept |
| Tables.InsertLike | services/postService.js:78-81 | exactly one row of the pair is added |
| Tables.LikesCountAppend | services/postService.js:6 | inserting a like raises likes_count for its post by one and for no other post |
| Tables.LikesCountAfterDelete | services/postService.js:6 | deleting a pair's likes lowers its post's likes_count by the number of the pair's rows and leaves other posts' counts alone |
| Tables.SelectUserById | queries.js:84 | a users row with the id that no earlier row shares, or none exactly when no row has it |
| Tables.SelectUserByIdUnique | queries.js:84 | with distinct user ids, the row found for a user's id is that user |
| Tables.SelectUserByEmail | queries.js:45 | a users row with the email that no earlier row shares, or none exactly when no row has it |
| Tables.SelectUserByEmailUnique | queries.js:45 | with unique emails, the row found for a user's email is that user |
| Tables.UpdateUserRows | queries.js:118-120 | matching rows take the new name and email; id, password and created_at are kept; other rows are unchanged |
| Tables.UpdateUserRowsKeepsKeys | queries.js:118-120 | the UPDATE keeps ids distinct and below the sequence, and keeps emails unique when no other row has the new email |
| Tables.UpdateUserRowsOfMissing | queries.js:118-125 | an UPDATE whose id no row has leaves the users table as it was |
| Tables.DeleteUserRows | queries.js:136 | exactly the rows with other ids remain, each as often as before, in their order; distinct ids and unique emails stay so |
| Tables.InsertUserKeepsKeys | queries.js:22-26 | a row with the sequence's next id and a free email keeps the tables consistent once the sequence advances |
| Tables.DeleteUserRowsKeepsKeys | queries.js:136 | the DELETE keeps the tables consistent |
| Tables.InsertUserError | queries.js:22-25 | the INSERT fails exactly when the database fails or the email is already taken, and the latter raises the unique violation 23505 |
| Tables.UpdateUserError | queries.js:118-124 | the UPDATE fails exactly when the first statement fails or an existing row would take another row's email, the latter with 23505 |
| Tables.InsertUser | queries.js:22-26 | fails as InsertUserError says and leaves the tables as they were then, though a duplicate email still uses up the next id; otherwise the new row has the next serial id and the current time, is appended, the same id now selects it, and the tables stay consistent |
| Tables.UpdateUser | queries.js:118-130 | fails as UpdateUserError says and changes nothing then; otherwise the row with the id takes the new name and email and is returned as id, name, email; no row is returned, and nothing changes, when no row has the id |
| PostService.GetPostOwner | services/postService.js:57-60 | the user_id of a post with the id, or undefined exactly when no post has the id |
| PostService.GetAllPosts | services/postService.js:3-22 | newest first; holds exactly the posts that have an author row and, for a truthy query, contain it case-insensitively in title or content; each once, with its like count and the requester's liked flag |
| PostService.GetPostById | services/postService.js:24-35 | none exactly when no post with the id has an author row; otherwise that post with its like count and liked flag |
| PostService.Toggled | services/postService.js:62-84 | if the pair is liked, all its rows go; otherwise exactly one is added; every other pair's rows are kept |
| PostService.ToggleKeepsPairsUnique | services/postService.js:62-84 | from at most one row per pair, toggling keeps at most one row per pair |
| PostService.ToggleTwice | services/postService.js:62-84 | from at most one row for the pair, toggling twice restores the likes |
| PostService.LikeThenUnlike | services/postService.js:62-84 | liking an unliked post appends one row, and unliking it then restores the table exactly, row order included |
| PostService.ToggleLikesCount | services/postService.js:62-84 | from at most one row for the pair, a toggle moves the toggled post's likes_count by one (down if it was liked, up otherwise) and no other post's |
| PostService.CreatePost | services/postService.js:37-43 | the new post has the next id, the requester and the current time, is appended and returned; nothing else changes |
| PostService.UpdatePost | services/postService.js:45-51 | the posts table becomes the updated one, the returned row is the first matching row retitled, and the other tables are unchanged |
| PostService.DeletePost | services/postService.js:53-55 | only posts with that id are removed; the other tables are unchanged |
| PostService.ToggleLike | services/postService.js:62-84 | the action is 'unliked' exactly when the pair was liked; likes become the toggled table; users and posts are unchanged |
| PostController.OrNull | controllers/postController.js:5 | a falsy requester id is sent as NULL, any other as itself |
| PostController.OwnershipCheck | controllers/postController.js:59-66 | a missing owner or an owner id of 0 gives 404; another owner gives 403 with the verb's message; proceeds exactly when the owner is the (non-zero) requester |
| PostController.GetPosts | controllers/postController.js:3-16 | a failure gives 500 'Failed to fetch posts' with the message as details; otherwise 200 with the post service's listing: newest first, exactly the listed posts, one view per listed row |
| PostController.GetPostById | controllers/postController.js:18-31 | 404 'Post not found' exactly when the service yields no post; 200 exactly when the id parses, no fault occurs and a post with that id has an author row; the 200 body is the post with the parsed id |
| PostController.CreatePost | controllers/postController.js:33-47 | missing title or content gives 400 and changes nothing; otherwise 201 with the inserted row |
| PostController.UpdatePost | controllers/postController.js:49-73 | validation comes before the owner lookup, then 404 or 403; any answer but 200 leaves the database unchanged; a 200 means the requester owns the post, which gets the new title and content |
| PostController.DeletePost | controllers/postController.js:75-94 | 404 or 403 without change; a 200 means the requester owned the post, which is deleted, and the message names the id |
| PostController.LikeMessage | controllers/postController.js:102 | 'Post liked' exactly for the liked action, 'Post unliked' exactly for the unliked one |
| PostController.ToggleLike | controllers/postController.js:96-107 | the likes become the toggled table and the message says which way it went |
| Queries.RegisterFailure | queries.js:29-34 | 400 'Email or username already exists' exactly for code 23505, else 500 with the message |
| Queries.RegisterUser | queries.js:13-35 | a missing field gives 400 and inserts nothing; a failed insert stores nothing, and a duplicate email uses up the next id; otherwise the user is stored with the hashed password and 201 returns it with a token for its id and email |
| Queries.LoginUser | queries.js:37-69 | unknown email and wrong password give the same 401 'Invalid credentials'; a NULL password hash makes bcrypt throw (500); 200 with a token exactly when the password check passes |
| Queries.LoginHidesUnknownEmail | queries.js:48-55 | a wrong password on a known email gets the very response an unknown email gets |
| Queries.LoginAfterRegister | queries.js:13-69 | after registering an unused email, logging in with the same password finds the new row and issues its token |
| Queries.LoginCopiesAgree | controllers/authController.js:23-55 | whether or not the database lookup fails, the two login handlers give the same response on every failure and the same token and user on success, apart from created_at |
| Queries.GetUsers | queries.js:72-79 | 200 with the id, name and email of every user, ordered by id ascending, or 500 with the message |
| Queries.GetUserById | queries.js:81-93 | 404 'User not found' exactly when no row has the id; 200 exactly when the id parses, no fault occurs and a row has that id; a 200 carries a row with the parsed id |
| Queries.CreateUser | queries.js:95-108 | missing name or email gives 400; a duplicate email is a 500, stores nothing and uses up the next id; otherwise a user without a password is stored and returned with 201 |
| Queries.UpdateUser | queries.js:110-131 | 400 before anything else; 404 when no row has the id; otherwise those rows take the new name and email; any answer but 200 changes nothing |
| Queries.DeleteUser | queries.js:133-145 | 404 when no row has the id; otherwise those rows are removed and the message names the id; any answer but 200 changes nothing |
| Queries.GetPosts | queries.js:148-174 | a failure gives 500 with the message; otherwise 200 with the post service's listing: newest first, exactly the listed posts, one view per listed row |
| Queries.RowOwnershipCheck | queries.js:232-238 | no row gives 404; another owner gives 403; proceeds exactly when the row's user_id is the requester |
| Queries.OwnershipChecksAgree | controllers/postController.js:60 | the controller's `!ownerId` chain and queries.js's row-count chain decide alike exactly when the owner id is not 0 |
| Queries.UpdatePost | queries.js:216-248 | as the controller's, with the row-count test: a 200 means the requester owns the post, and any other answer changes nothing |
| Queries.DeletePost | queries.js:250-274 | deletes only an existing post owned by the requester; 404 or 403 change nothing |
| Queries.ToggleLike | queries.js:276-305 | deletes the pair's likes if any, else inserts one; the message matches the action |
| UserController.GetUsers | controllers/userController.js:3-10 | 200 with the service's list exactly when it succeeds, else 500 with the message |
| UserController.GetUserById | controllers/userController.js:12-24 | 404 'User not found' exactly when the service finds no user; 200 with the user exactly when it finds one |
| UserController.CreateUser | controllers/userController.js:26-39 | missing name or email gives 400 whatever the service would do; otherwise 201 with the created user or 500 with the message |
| UserController.UpdateUser | controllers/userController.js:41-58 | validation precedes the service; 404 when the service updated no row |
| UserController.DeleteUser | controllers/userController.js:60-72 | 404 exactly when nothing was deleted; 200 with a message naming the id exactly when something was |
| UserController.ValidationPrecedesService | controllers/userController.js:29-31 | on a validation failure the response is the same whatever the service would have answered |
| AuthController.RegisterFailure | controllers/authController.js:15-20 | 400 'Email or name already exists' exactly for code 23505, else 500 with the message |
| AuthController.Register | controllers/authController.js:4-21 | a missing field gives 400; on success, 201 with the created user and a token whose claims are that user's id and email |
| AuthController.Login | controllers/authController.js:23-55 | unknown email and wrong password give the same 401; 200 exactly when the password check passes, with id, name, email and created_at but no hash |
| Metrics.Recent | services/metricsService.js:12-14 | keeps exactly the timestamps within 1000 ms of now, each as many times as it was stored, in their order |
| Metrics.Capped | services/metricsService.js:17-19 | the newest min(length, 1000) entries, as a suffix |
| Metrics.Window | services/metricsService.js:7-20 | after a request every stored timestamp is within 1000 ms of now; at most 1000 are stored; the last is now; the order is kept; without overflow it is exactly the recent ones, and with overflow exactly the last 1000 of them |
| Metrics.CountsRightAfterTrack | services/metricsService.js:29-31 | right after tracking a request, every stored timestamp counts toward requestsPerSecond |
| Metrics.MetricsService.constructor | services/metricsService.js:4-5 | the window starts empty |
| Metrics.MetricsService.TrackRequest | services/metricsService.js:7-20 | the stored array becomes the window of the old array with now recorded |
| Metrics.MetricsService.GetCounts | services/metricsService.js:28-39 | requestsPerSecond counts stored timestamps within 1000 ms of now, and activeConnections counts all of them, so the first never exceeds the second, and neither exceeds 1000 while the array is within its cap |

## Left out

- bcrypt: a hash is modelled by the password it was made from. The random salt, the 72-byte
  input limit and the cost of hashing are not modelled.
- JWT signing and verification, and passport: a `Token` value stands for a correctly signed one.
  A forged or malformed header counts as absent.
- The connection pool and SQL execution: every statement is a function on the in-memory tables.
  Only the first statement of a handler can fail, through `fault`. A failure of a later statement
  (the INSERT after a SELECT, say) is not modelled.
- The table schema: it is not part of the repository, so no foreign keys or cascades are modelled.
  Liking a missing post inserts a like, and deleting a user leaves their posts.
- Schema column names: the two INSERTs into users name the column differently. `registerUser`
  inserts and returns `username` (queries.js:23); `createUser` uses `name` (queries.js:102). The
  schema that would say which one exists is not part of the repository, so the model stores both
  as the user's name and returns it in the `name` field of the user object.
- Tables.InsertUserError: only the unique constraint on email is modelled, not one on name. The
  schema is not part of the repository. The handlers look users up by email (login), which needs
  email to be unique, and nothing looks a user up by name. The 400 messages "Email or username
  already exists" and "Email or name already exists" hint at a name constraint as well.
- Tables.UpdateUserError: likewise, only a clash with another row's email raises 23505.
- SERIAL sequences: a users INSERT that fails on the unique email uses up the id `nextval` drew,
  as in Postgres. A database fault, though, is taken to arise before the statement runs, so it
  draws no id. A fault raised inside an INSERT after `nextval` (a lost connection, say) would use
  up an id in Postgres, and every id issued after it would then be one higher than in the model.
- ILIKE: the search term's own `%` and `_` wildcards, the backslash (LIKE's default escape
  character, so `\` makes the next pattern character literal and a trailing `\` turns the
  closing `%` into a literal), and case folding beyond ASCII are not modelled; the match is plain
  substring search after ASCII lower-casing.
- Ties in `ORDER BY p.created_at DESC`: Postgres leaves the order of equal times unspecified, so the
  model fixes one.
- Integer widths: ids are unbounded integers. The int4 range of the columns and the 2^53
  precision of JavaScript numbers are not modelled.
- Request bodies that are not strings (numbers, objects, arrays) are not modelled. Only missing
  fields and strings are.
- Concurrency: check-then-act races in toggleLike and in owner-check-then-update, and
  interleaved requests, are not modelled.
- getMetrics' memory figures, its random response time and its `toFixed` formatting: these come
  from operating-system calls, randomness and floating point.
- Express wiring, CORS, body parsing, logging, the metrics routes and middleware, and the fallback
  error and 404 handlers. The route policy is kept as the table in `Routes`.
- services/userService.js is not part of this model. It consists of one-statement SQL wrappers,
  which the user and auth controllers receive as parameters.
- queries.js `getPostById` and `createPost` behave exactly like the post controller's
  handlers over the same queries. They are modelled by `PostController.GetPostById` and
  `PostController.CreatePost`.
