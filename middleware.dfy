/** middleware/auth.js: the role gate `authorize(roles)`. */
module Middleware {
  import opened Wrappers
  import opened Credentials
  import opened Http

  /** What a middleware does with a request: pass it on (`next()`) or answer it. Being one
      value, it is always exactly one of the two. */
  datatype Gate = Next | Halt(response: Response)

  /** `roles.includes(req.user.role)`; a token without a role claim matches no role. */
  predicate HasRole(user: Claims, roles: seq<string>)
  {
    user.role.Some? && user.role.value in roles
  }

  /** authorize(roles): 401 without a user, 403 when a non-empty role list lacks the user's role, next otherwise. */
  function Authorize(roles: seq<string>, user: Option<Claims>): (g: Gate)
    ensures user.None? ==> g == Halt(Error(UNAUTHORIZED, "Unauthorized"))
    ensures user.Some? && |roles| == 0 ==> g == Next
    ensures user.Some? && HasRole(user.value, roles) ==> g == Next
    ensures user.Some? && |roles| > 0 && !HasRole(user.value, roles) ==> g == Halt(Error(FORBIDDEN, "Forbidden"))
    ensures g.Next? <==> user.Some? && (|roles| == 0 || HasRole(user.value, roles))
  {
    if user.None? then Halt(Error(UNAUTHORIZED, "Unauthorized"))
    else if |roles| > 0 && !HasRole(user.value, roles) then Halt(Error(FORBIDDEN, "Forbidden"))
    else Next
  }
}
