/**
 * The server-rendered web pages. The form handlers repeat the REST guards and
 * answer with a redirect carrying a message; the list pages render the same
 * queries as the REST handlers; the login form redirects by role.
 */
module ViewRoutes {
  import opened Wrappers
  import opened RegistrationModel
  import opened Ledger
  import opened AuthMiddleware
  import opened RegistrationController
  import AuthController

  /** res.redirect(path + '?message=' + message). */
  datatype Redirect = Redirect(path: string, message: string)

  /** POST /register-event: the register guards, in the same order, then one insert. */
  method PostRegisterEvent(ledger: RegistrationLedger, catalog: Catalog, user: Claims, eventId: Id, now: Timestamp)
    returns (redirect: Redirect)
    requires ledger.Valid()
    modifies ledger
    ensures ledger.Valid()
    ensures redirect.path == "/register-event"
    ensures var v := RegisterVerdictOf(old(ledger.records), catalog, user.id, eventId);
            && (v == EventNotFound ==> redirect.message == "Event not found")
            && (v == AlreadyRegistered ==> redirect.message == "You have already registered for this event")
            && (v == EventFull ==> redirect.message == "Event full")
            && (v != Accepted ==> ledger.records == old(ledger.records))
            && (v == Accepted ==>
                  && redirect.message == "Registered successfully"
                  && |ledger.records| == |old(ledger.records)| + 1
                  && ledger.records[..|old(ledger.records)|] == old(ledger.records)
                  && ledger.records[|old(ledger.records)|].studentId == user.id
                  && ledger.records[|old(ledger.records)|].eventId == eventId
                  && ledger.records[|old(ledger.records)|].registrationDate == now
                  && (forall x :: x in old(ledger.records) ==> x.id != ledger.records[|old(ledger.records)|].id)
                  && ledger.records == AfterRegister(old(ledger.records), catalog, user.id, eventId,
                                                     ledger.records[|old(ledger.records)|].id, now))
    ensures old(UniquePairs(ledger.records)) ==> UniquePairs(ledger.records)
    ensures old(WithinCapacity(ledger.records, catalog)) ==> WithinCapacity(ledger.records, catalog)
  {
    if eventId !in catalog {
      return Redirect("/register-event", "Event not found");
    }
    var existing := FindOne(ledger.records, PairIs(user.id, eventId));
    if existing.Some? {
      return Redirect("/register-event", "You have already registered for this event");
    }
    var count := CountDocuments(ledger.records, EventIs(eventId));
    if count >= catalog[eventId] {
      return Redirect("/register-event", "Event full");
    }
    ghost var before := ledger.records;
    var registration := ledger.Save(user.id, eventId, now);
    AcceptedKeepsInvariants(before, catalog, registration);
    assert ledger.records[..|before|] == before;
    redirect := Redirect("/register-event", "Registered successfully");
  }

  /** POST /cancel-registration/:id: the cancel guards, then one delete. */
  method PostCancelRegistration(ledger: RegistrationLedger, catalog: Catalog, user: Claims, id: Id)
    returns (redirect: Redirect)
    requires ledger.Valid()
    modifies ledger
    ensures ledger.Valid()
    ensures redirect.path == "/my-registrations"
    ensures var v := CancelVerdictOf(old(ledger.records), user.id, id);
            && (v == RegistrationNotFound ==> redirect.message == "Registration not found")
            && (v == NotOwner ==> redirect.message == "Not authorized to cancel this registration")
            && (v != Owner ==> ledger.records == old(ledger.records))
            && (v == Owner ==>
                  && redirect.message == "Unregistered successfully"
                  && ledger.records == Select(old(ledger.records), IdIsNot(id)))
    ensures old(UniquePairs(ledger.records)) ==> UniquePairs(ledger.records)
    ensures old(WithinCapacity(ledger.records, catalog)) ==> WithinCapacity(ledger.records, catalog)
  {
    var registration := FindOne(ledger.records, IdIs(id));
    if registration.None? {
      return Redirect("/my-registrations", "Registration not found");
    }
    if registration.value.studentId != user.id {
      return Redirect("/my-registrations", "Not authorized to cancel this registration");
    }
    ghost var before := ledger.records;
    ghost var k :| 0 <= k < |before| && before[k] == registration.value;
    RemoveKeepsInvariants(before, catalog, k);
    ledger.DeleteOne(id);
    redirect := Redirect("/my-registrations", "Unregistered successfully");
  }

  /**
   * GET /cancel-registration/:id: the confirmation page, 404 for an unknown id.
   * It looks the registration up without comparing its owner to the caller.
   */
  function CancelConfirmation(rs: seq<Registration>, id: Id): (r: Option<Registration>)
    ensures r.None? <==> forall x :: x in rs ==> x.id != id
    ensures r.Some? ==> r.value in rs && r.value.id == id
  {
    FindOne(rs, IdIs(id))
  }

  /** GET /my-registrations: the caller's registrations, newest first; an empty list is rendered. */
  function MyRegistrationsPage(rs: seq<Registration>, user: Claims): (r: seq<Registration>)
    ensures NewestFirstOrder(r)
    ensures forall x :: x in r <==> x in rs && x.studentId == user.id
    ensures GetMyRegistrations(rs, user).body
         == if r == [] then Message("You haven't registered for any events yet") else Documents(r)
  {
    FindNewestFirst(rs, StudentIs(user.id))
  }

  /** GET /admin/list-registrations: every registration, newest first. */
  function ListRegistrationsPage(rs: seq<Registration>): (r: seq<Registration>)
    ensures NewestFirstOrder(r)
    ensures multiset(r) == multiset(rs)
    ensures rs != [] ==> GetAllRegistrations(rs).body == Documents(r)
  {
    SelectAll(rs, Everything);
    FindNewestFirst(rs, Everything)
  }

  /**
   * GET /admin/search-registrations: no query unless both bounds are given;
   * then the inclusive range, newest first. Unlike the REST handler there is
   * no start <= end check: an inverted range renders an empty list.
   */
  function SearchRegistrationsPage(rs: seq<Registration>, start: Option<Timestamp>, end: Option<Timestamp>)
    : (r: Option<seq<Registration>>)
    ensures r.None? <==> start.None? || end.None?
    ensures r.Some? ==>
              && NewestFirstOrder(r.value)
              && forall x :: x in r.value <==> x in rs && start.value <= x.registrationDate <= end.value
    ensures r.Some? && start.value > end.value ==> r.value == []
    ensures r.Some? && start.value <= end.value ==> GetRegistrationsByDate(rs, start, end).body == Documents(r.value)
  {
    if start.None? || end.None? then None
    else
      var found := FindNewestFirst(rs, DateBetween(start.value, end.value));
      assert start.value > end.value ==> found == [] by {
        if found != [] { assert found[0] in found; }
      }
      Some(found)
  }

  /** One entry of the register-event page: an event with its number of registrations. */
  datatype EventCount = EventCount(eventId: Id, maxCapacity: nat, registered: nat)

  /** Each event of the list with its `registered` figure, in list order. */
  function EventCounts(events: seq<Id>, catalog: Catalog, rs: seq<Registration>): (r: seq<EventCount>)
    requires forall i :: 0 <= i < |events| ==> events[i] in catalog
    ensures |r| == |events|
    ensures forall i :: 0 <= i < |r| ==>
              && r[i].eventId == events[i]
              && r[i].maxCapacity == catalog[events[i]]
              && r[i].registered == |MatchingPositions(rs, EventIs(events[i]))|
  {
    if events == [] then []
    else
      CountIsMatchingPositions(rs, EventIs(events[0]));
      [EventCount(events[0], catalog[events[0]], CountDocuments(rs, EventIs(events[0])))]
        + EventCounts(events[1..], catalog, rs)
  }

  /**
   * GET /register-event: `events` is Event.find(), which lists every event of
   * the catalog once, in the database's order; the page shows each with its
   * `registered` figure.
   */
  function RegisterEventPage(events: seq<Id>, catalog: Catalog, rs: seq<Registration>): (r: seq<EventCount>)
    requires forall i :: 0 <= i < |events| ==> events[i] in catalog
    requires forall e :: e in catalog ==> e in events
    requires forall i, j :: 0 <= i < j < |events| ==> events[i] != events[j]
    ensures forall e :: e in catalog ==> exists i :: 0 <= i < |r| && r[i].eventId == e
    ensures forall i, j :: 0 <= i < j < |r| ==> r[i].eventId != r[j].eventId
    ensures forall i :: 0 <= i < |r| ==>
              && r[i].eventId in catalog
              && r[i].maxCapacity == catalog[r[i].eventId]
              && r[i].registered == |MatchingPositions(rs, EventIs(r[i].eventId))|
  {
    var r := EventCounts(events, catalog, rs);
    assert forall e :: e in catalog ==> exists i :: 0 <= i < |r| && r[i].eventId == e by {
      forall e | e in catalog ensures exists i :: 0 <= i < |r| && r[i].eventId == e {
        var i :| 0 <= i < |events| && events[i] == e;
        assert r[i].eventId == e;
      }
    }
    r
  }

  /** GET /event/:id: the event with its `registered` figure, or no event and 0. */
  function EventDetail(catalog: Catalog, rs: seq<Registration>, eventId: Id): (r: Option<EventCount>)
    ensures r.None? <==> eventId !in catalog
    ensures r.Some? ==>
              && r.value.eventId == eventId && r.value.maxCapacity == catalog[eventId]
              && r.value.registered == |MatchingPositions(rs, EventIs(eventId))|
  {
    if eventId !in catalog then None
    else
      CountIsMatchingPositions(rs, EventIs(eventId));
      Some(EventCount(eventId, catalog[eventId], CountDocuments(rs, EventIs(eventId))))
  }

  /** Where a successful form login sends the caller. */
  function LoginRedirect(role: string): (path: string)
    ensures path == "/admin/list-registrations" <==> role == "admin"
    ensures path == "/register-event" <==> role != "admin"
  {
    if role == "admin" then "/admin/list-registrations" else "/register-event"
  }

  /** The outcome of the login form: the page again with an error, or a token cookie and a redirect. */
  datatype LoginPage = LoginError(error: string) | LoggedIn(cookieToken: string, location: string)

  /** POST /login: the same lookup and comparison as the REST login, then a role-based redirect. */
  function PostLogin(users: seq<AuthController.User>, username: string, password: string,
                     compare: AuthController.Comparer, sign: AuthController.Signer): (page: LoginPage)
    ensures var api := AuthController.Login(users, username, password, compare, sign);
            && (page.LoggedIn? <==> api.Token?)
            && (page.LoggedIn? ==> page.cookieToken == api.token && page.location == LoginRedirect(api.role))
            && (page.LoginError? ==> page.error == api.message)
  {
    match AuthController.FindUser(users, username)
    case None => LoginError("Username does not exist")
    case Some(user) =>
      if !compare(password, user.password) then LoginError("Wrong password")
      else LoggedIn(sign(Claims(user.id, user.role)), LoginRedirect(user.role))
  }

  /** Protected pages: the role each requires after authentication. */
  datatype Page =
    | RegisterEventForm          // GET and POST /register-event
    | CancelRegistrationForm     // GET and POST /cancel-registration/:id
    | MyRegistrationsList        // GET /my-registrations
    | EventDetailPage            // GET /event/:id
    | AdminListRegistrations     // GET /admin/list-registrations
    | AdminSearchRegistrations   // GET /admin/search-registrations

  function PageRoles(page: Page): (roles: seq<string>)
    ensures |roles| == 1
    ensures roles[0] == "admin" <==> page == AdminListRegistrations || page == AdminSearchRegistrations
    ensures roles[0] == "student" <==> page != AdminListRegistrations && page != AdminSearchRegistrations
  {
    match page
    case RegisterEventForm => ["student"]
    case CancelRegistrationForm => ["student"]
    case MyRegistrationsList => ["student"]
    case EventDetailPage => ["student"]
    case AdminListRegistrations => ["admin"]
    case AdminSearchRegistrations => ["admin"]
  }

  /** A page admits an authenticated caller exactly when its one role is the caller's. */
  lemma PageAdmits(page: Page, user: Claims)
    ensures AuthorizeRoles(PageRoles(page), user) == Next <==>
              user.role == (if page == AdminListRegistrations || page == AdminSearchRegistrations
                            then "admin" else "student")
  {
  }
}
