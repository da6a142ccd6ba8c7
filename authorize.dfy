/**
 * The role-based authorisation middleware `authorize(...allowedRoles)`.
 *
 * It runs after the authentication middleware, which attaches the token's
 * claims to the request as `req.user`. With no user attached, or a user whose
 * role is not among the allowed roles, it answers 403 and the pipeline stops;
 * otherwise it calls `next()` and leaves the request as it was.
 */
module Authorize {
  import opened Js
  import opened Http

  /** The claims `authenticate` attaches as `req.user`. */
  datatype Identity = Identity(id: int, username: string, role: string)

  /** The parts of a request the route pipeline sees; only `user` matters here. */
  datatype Request = Request(user: Option<Identity>, url: string)

  /** A middleware's answer: respond now, or hand the request to the next handler. */
  datatype Outcome = Halt(res: Response) | Next(req: Request)

  const InsufficientPermissions := Response(403, Error("Insufficient permissions"))

  predicate Allows(allowedRoles: seq<string>, req: Request) {
    req.user.Some? && req.user.value.role in allowedRoles
  }

  /** The middleware `authorize(...allowedRoles)` applied to `req`. */
  function Authorize(allowedRoles: seq<string>, req: Request): (o: Outcome) {
    if !Allows(allowedRoles, req) then Halt(InsufficientPermissions) else Next(req)
  }

  /** A user whose role is listed is let through, with the request untouched. */
  lemma ListedRolePasses(allowedRoles: seq<string>, req: Request)
    requires req.user.Some? && req.user.value.role in allowedRoles
    ensures Authorize(allowedRoles, req) == Next(req)
  {
  }

  /** A user whose role is not listed is refused with the 403. */
  lemma UnlistedRoleForbidden(allowedRoles: seq<string>, req: Request)
    requires req.user.Some? && req.user.value.role !in allowedRoles
    ensures Authorize(allowedRoles, req) == Halt(InsufficientPermissions)
  {
  }

  /** Without an attached user every request is refused, whatever the allow-list. */
  lemma NoUserForbidden(allowedRoles: seq<string>, req: Request)
    requires req.user.None?
    ensures Authorize(allowedRoles, req) == Halt(InsufficientPermissions)
  {
  }

  /** The empty allow-list refuses everyone. */
  lemma EmptyListForbidsAll(req: Request)
    ensures Authorize([], req) == Halt(InsufficientPermissions)
  {
  }

  /** Allowing more roles never turns a pass into a refusal. */
  lemma MoreRolesNeverForbidMore(fewer: seq<string>, more: seq<string>, req: Request)
    requires forall r :: r in fewer ==> r in more
    ensures Authorize(fewer, req).Next? ==> Authorize(more, req) == Next(req)
  {
  }

  /** Only the set of allowed roles matters: neither order nor repetition does. */
  lemma OnlyTheRoleSetMatters(a: seq<string>, b: seq<string>, req: Request)
    requires forall r :: r in a <==> r in b
    ensures Authorize(a, req) == Authorize(b, req)
  {
  }

  /** `authorize('admin')` refuses a `user`; `authorize('user', 'admin')` admits both roles. */
  lemma AdminAndDashboardRoutes(url: string)
    ensures Authorize(["admin"], Request(Some(Identity(2, "user", "user")), url)).Halt?
    ensures Authorize(["admin"], Request(Some(Identity(1, "admin", "admin")), url)).Next?
    ensures Authorize(["user", "admin"], Request(Some(Identity(2, "user", "user")), url)).Next?
    ensures Authorize(["user", "admin"], Request(Some(Identity(1, "admin", "admin")), url)).Next?
  {
    assert "user" != "admin";
  }
}
