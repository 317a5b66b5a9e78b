/**
 * The REST routes for registrations: each binds one controller operation to
 * the chain authenticateToken, then authorizeRoles(role), then the handler.
 */
module RegistrationRoutes {
  import opened Wrappers
  import opened AuthMiddleware

  datatype Operation =
    | RegisterEvent          // POST   /
    | CancelRegistration     // DELETE /:id
    | MyRegistrations        // GET    /my-registrations
    | ListRegistrations      // GET    /listRegistrations
    | RegistrationsByDate    // GET    /getRegistrationsByDate

  /** The roles passed to authorizeRoles on each route. */
  function RequiredRoles(op: Operation): (roles: seq<string>)
    ensures |roles| == 1
    ensures roles[0] == "admin" <==> op == ListRegistrations || op == RegistrationsByDate
    ensures roles[0] == "student" <==> op != ListRegistrations && op != RegistrationsByDate
  {
    match op
    case RegisterEvent => ["student"]
    case CancelRegistration => ["student"]
    case MyRegistrations => ["student"]
    case ListRegistrations => ["admin"]
    case RegistrationsByDate => ["admin"]
  }

  /** Which middleware stopped a request. */
  datatype Stage = Authentication | Authorization

  /** How the chain ends: the handler runs for the caller, or a middleware answers. */
  datatype Admission = Admitted(user: Claims) | Rejected(status: nat, stage: Stage)

  /** The middleware chain of one route, run in its declared order. */
  function Admit(op: Operation, authorization: Option<string>, cookies: Option<map<string, string>>,
                 verify: Verifier): (a: Admission)
    ensures a.Rejected? ==> a.status == 403
    ensures a.Rejected? && a.stage == Authentication <==> Authenticate(authorization, cookies, verify).None?
    ensures a.Admitted? ==> Some(a.user) == Authenticate(authorization, cookies, verify)
  {
    match Authenticate(authorization, cookies, verify)
    case None => Rejected(403, Authentication)
    case Some(user) =>
      match AuthorizeRoles(RequiredRoles(op), user)
      case Next => Admitted(user)
      case Respond(status) => Rejected(status, Authorization)
  }

  /** The handler runs exactly for an authenticated caller whose role the route lists. */
  lemma AdmittedExactly(op: Operation, authorization: Option<string>,
                        cookies: Option<map<string, string>>, verify: Verifier)
    ensures var a := Admit(op, authorization, cookies, verify);
            var u := Authenticate(authorization, cookies, verify);
            (a.Admitted? <==> u.Some? && u.value.role in RequiredRoles(op))
            && (a.Admitted? ==> a.user == u.value)
            && (a.Rejected? ==> a.status == 403)
  {
  }

  /** Register, cancel and my-registrations admit the role "student" and no other. */
  lemma StudentOnly(op: Operation, authorization: Option<string>,
                    cookies: Option<map<string, string>>, verify: Verifier)
    requires op == RegisterEvent || op == CancelRegistration || op == MyRegistrations
    ensures var u := Authenticate(authorization, cookies, verify);
            Admit(op, authorization, cookies, verify).Admitted? <==> u.Some? && u.value.role == "student"
  {
  }

  /** Listing all registrations and the date search admit the role "admin" and no other. */
  lemma AdminOnly(op: Operation, authorization: Option<string>,
                  cookies: Option<map<string, string>>, verify: Verifier)
    requires op == ListRegistrations || op == RegistrationsByDate
    ensures var u := Authenticate(authorization, cookies, verify);
            Admit(op, authorization, cookies, verify).Admitted? <==> u.Some? && u.value.role == "admin"
  {
  }

  /** Authentication runs first: without a valid token every route answers 403 before any role check. */
  lemma AuthenticationFirst(op: Operation, authorization: Option<string>,
                            cookies: Option<map<string, string>>, verify: Verifier)
    requires Authenticate(authorization, cookies, verify).None?
    ensures Admit(op, authorization, cookies, verify) == Rejected(403, Authentication)
  {
  }

  /** There is no administrative cancel: an admin reaching the cancel route is refused by the role check. */
  lemma AdminCannotCancel(authorization: Option<string>, cookies: Option<map<string, string>>,
                          verify: Verifier)
    requires Authenticate(authorization, cookies, verify).Some?
    requires Authenticate(authorization, cookies, verify).value.role == "admin"
    ensures Admit(CancelRegistration, authorization, cookies, verify) == Rejected(403, Authorization)
  {
  }
}
