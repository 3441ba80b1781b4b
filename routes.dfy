/** The route table of index.js (routes/users.js and routes/posts.js declare the same
    policy for the controller copies): which routes authenticate and which also
    pass the role gate, and what that means for the tokens this code issues. */
module Routes {
  import opened Wrappers
  import opened Credentials
  import opened Http
  import opened Middleware

  datatype Route =
    | Register | Login
    | ListPosts | ShowPost | CreatePost | EditPost | RemovePost | LikePost
    | ListUsers | ShowUser | CreateUser | EditUser | RemoveUser

  /** Public: no middleware. Authenticated: `authenticate` only. RoleGated: `authenticate`, then `authorize(roles)`. */
  datatype Policy = Public | Authenticated | RoleGated(roles: seq<string>)

  const ADMIN: string := "admin"

  function PolicyOf(route: Route): Policy
  {
    match route
    case Register | Login => Public
    case ListPosts | ShowPost | CreatePost | EditPost | RemovePost | LikePost => Authenticated
    case ListUsers | ShowUser => Authenticated
    case CreateUser | EditUser | RemoveUser => RoleGated([ADMIN])
  }

  /** passport's answer to a request it cannot authenticate: 401 with the plain text 'Unauthorized'. */
  const NotAuthenticated := Response(UNAUTHORIZED, TextBody("Unauthorized"))

  /** The middleware chain in front of a route's handler, given the bearer token (if any) at time `now`. */
  function Admit(route: Route, header: Option<Token>, now: int): (g: Gate)
    ensures PolicyOf(route).Public? ==> g == Next
    ensures !PolicyOf(route).Public? && Authenticate(header, now).None? ==> g == Halt(NotAuthenticated)
    ensures g.Next? <==>
      || PolicyOf(route).Public?
      || (PolicyOf(route).Authenticated? && Authenticate(header, now).Some?)
      || (PolicyOf(route).RoleGated? && Authenticate(header, now).Some?
          && HasRole(Authenticate(header, now).value, PolicyOf(route).roles))
  {
    match PolicyOf(route)
    case Public => Next
    case Authenticated =>
      if Authenticate(header, now).None? then Halt(NotAuthenticated) else Next
    case RoleGated(roles) =>
      var user := Authenticate(header, now);
      if user.None? then Halt(NotAuthenticated) else Authorize(roles, user)
  }

  /** No token generateToken issues carries a role, so every admin-only route refuses every
      such token: with 403 while it is valid, with 401 once it has expired. */
  lemma AdminRoutesRefuseIssuedTokens(route: Route, id: int, email: string, issued: int, now: int)
    requires PolicyOf(route).RoleGated?
    ensures Admit(route, Some(GenerateToken(id, email, issued)), now)
         == if now < issued + TOKEN_LIFETIME then Halt(Error(FORBIDDEN, "Forbidden")) else Halt(NotAuthenticated)
  {
  }

  /** Every other protected route lets an issued token through for its 24 hours. */
  lemma OtherRoutesAdmitIssuedTokens(route: Route, id: int, email: string, issued: int, now: int)
    requires PolicyOf(route).Authenticated?
    requires now < issued + TOKEN_LIFETIME
    ensures Admit(route, Some(GenerateToken(id, email, issued)), now) == Next
  {
  }
}
