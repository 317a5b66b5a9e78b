# Event registration ledger

A Dafny model of the registration core of an event-registration web service
(Node.js, Express, Mongoose). Students register for events of limited
capacity and cancel their own registrations. Administrators list all
registrations and search them by date. Every request to a registration route
or a protected page is first authenticated from a bearer token (Authorization
header, else a `token` cookie) and then checked against the role its route
requires. The login and logout routes run neither `authenticateToken` nor
`authorizeRoles` (routes/viewRoutes.js:15, 95, 173).

The model has one module per core source file, plus `Ledger` for the
Registration collection and `Wrappers` for `Option`:

- `RegistrationModel` (`registration_model.dfy`): the Registration document
  `{id, studentId, eventId, registrationDate}` and the schema's validation.
  `studentId` and `eventId` are required, and a missing date defaults to the
  creation time.
- `Ledger` (`ledger.dfy`): the Registration collection as a sequence of
  documents in insertion order. It has the queries the handlers use: `find`
  with a filter (`Select` over a `Criterion`), `findOne`/`findById`,
  `countDocuments` and `sort({registrationDate: -1})` (`NewestFirst`). It has
  two invariants: pair uniqueness (one registration per student/event pair,
  `UniquePairs`) and capacity (no event above its `maxCapacity`,
  `WithinCapacity`). The class
  `RegistrationLedger` holds the documents and an id generator, with the two
  writes `Save` and `DeleteOne`.
- `RegistrationController` (`registration_controller.dfy`): the REST
  handlers. `RegisterEvent` and `CancelRegistration` are methods that mutate
  the ledger after their guards. The three listing handlers are functions.
  Both mutating handlers are proved against the pure guard outcomes
  `RegisterVerdictOf` and `CancelVerdictOf`. The lemmas beside them relate
  several calls: a second register conflicts; sequential registers by new
  students fill an event exactly to capacity; a cancel frees exactly one seat.
- `ViewRoutes` (`view_routes.dfy`): the web pages. The form handlers
  `PostRegisterEvent` and `PostCancelRegistration` repeat the REST guards in
  the same order and answer with redirects. The list pages, the per-event
  `registered` figures and the role-based login redirect are also here.
- `AuthMiddleware` (`auth_middleware.dfy`): `authenticateToken` (a method on
  `Request` that writes `req.user`) and `authorizeRoles`. JavaScript's
  `split(' ')` is modelled exactly, with a round trip in both directions.
- `RegistrationRoutes` (`registration_routes.dfy`): the table of required
  roles per REST operation, and the authenticate-then-authorize chain.
- `AuthController` (`auth_controller.dfy`): the user registry with unique
  usernames and a default role, and the login decision.

Conventions. Ids are `nat`, timestamps are `int` milliseconds and roles are
strings. The event catalog is a map `eventId -> maxCapacity` passed to each
handler. The clock (`now`), `jwt.verify`, `jwt.sign`, `bcrypt.hash` and
`bcrypt.compare` are parameters: function values, not their cryptography. An
absent or empty query value, header or role is `None` or `""`, matching
JavaScript truthiness in the source's conditions (`!start`, `role || 'student'`).

Pair uniqueness and capacity are stated for sequential execution. Every mutating handler keeps
them (`old(I) ==> I` in its `ensures`), and every failure path leaves the
ledger unchanged. The collection itself enforces neither invariant.
`Save` appends unconditionally (`records == old(records) + [r]`). For every
ledger, `SavePresentPairBreaksUniquePairs` shows that saving a document whose
pair is already present breaks pair uniqueness. Likewise `SaveToFullEventBreaksCapacity`
shows that saving to an event at its `maxCapacity` breaks capacity. Both
invariants therefore rest on the handlers' guards.

Facts about the source that the model follows:

- Both register refusals (already registered, event full) answer 400.
- A missing or unverifiable token answers 403.
- Listing all registrations and searching by date are separate admin routes.
- Only the REST date search rejects `start > end`. The web search page renders
  an empty list for an inverted range.
- The check-then-insert sequence is not atomic (see Left out).

## Model

| member | source | states |
|---|---|---|
| RegistrationModel.NewRegistration | models/registrationModel.js:4-8 | a document is invalid exactly when studentId or eventId is missing, each missing field is reported, and a valid one carries the given fields with the date defaulting to the creation time |
| Ledger.Select | controllers/registrationController.js:46 | find(filter) returns exactly the ledger's documents that match the filter, never more than the ledger holds |
| Ledger.SelectMultiset | controllers/registrationController.js:82-84 | find keeps each matching document exactly as often as the ledger holds it and drops every other |
| Ledger.FindOne | controllers/registrationController.js:11 | findOne/findById yields nothing iff no document matches, else a matching document of the ledger |
| Ledger.CountDocuments | controllers/registrationController.js:15 | countDocuments(filter) is at most the ledger size, and is 0 exactly when no document matches |
| Ledger.InsertByDate | controllers/registrationController.js:48 | inserting into a newest-first list keeps it newest first and adds exactly that one document |
| Ledger.NewestFirst | controllers/registrationController.js:63 | sort by registrationDate descending gives a newest-first permutation of its input |
| Ledger.FindNewestFirst | routes/viewRoutes.js:123-125 | find(filter).sort(date desc) is newest first and holds exactly the matching documents with their multiplicities |
| Ledger.SelectAppend | controllers/registrationController.js:15 | countDocuments/find over a ledger split in two is the concatenation of the two parts' results |
| Ledger.RemoveAt | controllers/registrationController.js:37 | with unique ids, deleting by the id at position k cuts out exactly position k |
| Ledger.CountAfterAppend | controllers/registrationController.js:15-20 | saving one document raises its event's count by one and leaves every other event's count unchanged |
| Ledger.CountAfterRemove | controllers/registrationController.js:37 | deleting one document lowers its event's count by one and leaves every other event's count unchanged |
| Ledger.RemoveKeepsOthers | controllers/registrationController.js:37 | deleting one document keeps every other document, as often as before |
| Ledger.AppendKeepsUniquePairs | controllers/registrationController.js:11-20 | saving a document whose pair findOne did not find keeps pair uniqueness |
| Ledger.AppendKeepsCapacity | controllers/registrationController.js:15-20 | saving a document to an event whose count is below maxCapacity keeps capacity |
| Ledger.RemoveKeepsInvariants | controllers/registrationController.js:30-37 | deleting an existing document keeps pair uniqueness and capacity |
| Ledger.RemoveUndoesAppend | controllers/registrationController.js:37 | deleting the document just saved restores the ledger |
| Ledger.SavePresentPairBreaksUniquePairs | controllers/registrationController.js:11-20 | on every ledger, saving a document whose pair findOne finds breaks pair uniqueness: without the duplicate guard the save would violate it |
| Ledger.SaveToFullEventBreaksCapacity | controllers/registrationController.js:15-20 | on every ledger, saving to an event whose count has reached maxCapacity breaks capacity: without the capacity guard the save would violate it |
| Ledger.CountIsMatchingPositions | routes/viewRoutes.js:25 | countDocuments equals the number of ledger positions holding a matching document |
| Ledger.RegistrationLedger.Save | controllers/registrationController.js:19-20 | save appends one document with the given student, event and creation time and a fresh id, keeping ids unique |
| Ledger.RegistrationLedger.DeleteOne | controllers/registrationController.js:37 | deleteOne leaves exactly the documents with another id, keeping ids unique |
| AuthMiddleware.Split | middlewares/authMiddlewares.js:6 | split(' ') yields at least one field, no field contains a space, and there are two or more fields exactly when the string contains a space |
| AuthMiddleware.JoinSplit | middlewares/authMiddlewares.js:6 | joining the fields of split(' ') with single spaces gives the header back |
| AuthMiddleware.SplitJoin | middlewares/authMiddlewares.js:6 | split(' ') of space-free fields joined by spaces gives the fields back |
| AuthMiddleware.BearerToken | middlewares/authMiddlewares.js:5-6 | the header token is the second space-separated word: "scheme token" yields token |
| AuthMiddleware.NoSpaceNoToken | middlewares/authMiddlewares.js:6 | a header with no space yields no token |
| AuthMiddleware.HeaderToken | middlewares/authMiddlewares.js:5-6 | the second space-separated word of the Authorization header is present exactly when the header is present and contains a space, and it has no space |
| AuthMiddleware.CookieToken | middlewares/authMiddlewares.js:8 | the cookie token is present exactly when the cookies hold a `token` entry, and is that entry's value |
| AuthMiddleware.SelectToken | middlewares/authMiddlewares.js:5-9 | a usable header token is always taken; when the header yields none, the `token` cookie is taken if cookies are present, and otherwise the header's (unusable) value stays |
| AuthMiddleware.Authenticate | middlewares/authMiddlewares.js:7-15 | a caller is authenticated iff the selected token is usable and verifies, and then as exactly the payload verification decodes from it |
| AuthMiddleware.AuthorizeRoles | middlewares/authMiddlewares.js:19-23 | next is called iff the caller's role is among the listed roles, otherwise the answer is 403 |
| AuthMiddleware.Request.AuthenticateToken | middlewares/authMiddlewares.js:3-17 | next runs iff a token is found and verifies, and then req.user is the decoded payload; otherwise 403 and req.user is untouched |
| RegistrationRoutes.RequiredRoles | routes/registrationRoutes.js:11-23 | every route lists one role: admin for listRegistrations and getRegistrationsByDate, student for the other three |
| RegistrationRoutes.Admit | routes/registrationRoutes.js:11-23 | the chain refuses only with 403, refuses at authentication exactly when authenticateToken fails, and admits as the authenticated caller; AdmittedExactly and StudentOnly/AdminOnly state the rest |
| RegistrationRoutes.AdmittedExactly | routes/registrationRoutes.js:11-23 | a handler runs exactly for an authenticated caller whose role its route lists, for that caller; every refusal is 403 |
| RegistrationRoutes.StudentOnly | routes/registrationRoutes.js:11-17 | register, cancel and my-registrations admit the role student and no other |
| RegistrationRoutes.AdminOnly | routes/registrationRoutes.js:20-23 | listRegistrations and getRegistrationsByDate admit the role admin and no other |
| RegistrationRoutes.AuthenticationFirst | routes/registrationRoutes.js:11-23 | an unauthenticated request is refused at authentication on every route, before any role check |
| RegistrationRoutes.AdminCannotCancel | routes/registrationRoutes.js:14 | an authenticated admin calling cancel is refused by the role check |
| AuthController.DefaultRole | controllers/authController.js:16 | the stored role is the supplied one, or student when it is absent or empty; it is never empty |
| AuthController.FindUser | controllers/authController.js:8 | the lookup finds nothing iff no user has the name, else a user of the registry with that name |
| AuthController.FindUniqueUser | controllers/authController.js:28 | with unique usernames the lookup returns the one user holding the name |
| AuthController.UserRegistry.Register | controllers/authController.js:7-19 | a taken username gives 400 and adds no user; otherwise 201 and exactly one user is added with the hashed password and the default role; usernames stay unique |
| AuthController.Login | controllers/authController.js:27-37 | an unknown name gives 401, a rejected password gives 401, and the user findOne matched gets a token whenever the password matches, signing exactly that user's id and role and returning the role |
| AuthController.LoginAfterRegister | controllers/authController.js:12-37 | after registering a new name, logging in with the same password yields a token for the new user's id and role |
| AuthController.WrongPasswordNoToken | controllers/authController.js:30-31 | a registered user's login with a rejected password gives 401 and no token |
| RegistrationController.RegisterVerdictOf | controllers/registrationController.js:9-18 | unknown event iff not catalogued; already registered iff catalogued and some document has the pair; full iff no such document and the event's record count reaches maxCapacity; accepted iff no such document and the count is below it |
| RegistrationController.CancelVerdictOf | controllers/registrationController.js:30-36 | not found iff no document has the id; not owner only when a document with the id belongs to someone else; owner only when one belongs to the caller |
| RegistrationController.DuplicateReportedBeforeFull | controllers/registrationController.js:11-18 | a duplicate registration on a full event is reported as already registered, not as full |
| RegistrationController.AcceptedKeepsInvariants | controllers/registrationController.js:11-20 | a registration the guards accept keeps pair uniqueness and capacity |
| RegistrationController.SecondRegisterConflicts | controllers/registrationController.js:11-14 | registering the same pair again after a success is refused as already registered |
| RegistrationController.SequentialCapacity | controllers/registrationController.js:15-20 | sequential registers by distinct new students, each call with its own id and time, bring the event's count to min(count + calls, maxCapacity): exactly the free seats succeed |
| RegistrationController.FindByUniqueId | controllers/registrationController.js:30 | with unique ids, findById returns the one document with that id |
| RegistrationController.CancelVerdictAt | controllers/registrationController.js:30-36 | cancelling an existing registration is allowed to its owner and refused to anyone else |
| RegistrationController.CancelRemovesOnlyOwn | controllers/registrationController.js:34-37 | an allowed cancel removes exactly one document, and that document has the id and belongs to the caller |
| RegistrationController.CancelFreesOneSeat | controllers/registrationController.js:15-37 | after one registration on a full event is cancelled, one new student's register is accepted and the next new student's is refused as full |
| RegistrationController.FreedSeatAccepts | controllers/registrationController.js:11-18 | after a full event loses one registration its count is one below maxCapacity and a student not yet registered passes every guard |
| RegistrationController.LastSeatTaken | controllers/registrationController.js:15-18 | once the last free seat is taken, the next new student's register is refused as full |
| RegistrationController.RegisterEvent | controllers/registrationController.js:7-22 | 404 for an unknown event, 400 for a duplicate, 400 for a full event, each leaving the ledger unchanged; otherwise 201 with exactly one new document for the caller and the event, the new ledger being AfterRegister of the old one (the state the multi-call lemmas reason about), keeping pair uniqueness and capacity |
| RegistrationController.CancelRegistration | controllers/registrationController.js:30-38 | 404 for an unknown id, 403 for another student's registration, each leaving the ledger unchanged; otherwise exactly that document is deleted, keeping pair uniqueness and capacity |
| RegistrationController.GetMyRegistrations | controllers/registrationController.js:46-52 | status 200; a message iff the caller has no registration; otherwise exactly the caller's registrations, newest first |
| RegistrationController.GetAllRegistrations | controllers/registrationController.js:60-67 | status 200; a message iff the ledger is empty; otherwise a newest-first permutation of the whole ledger |
| RegistrationController.GetRegistrationsByDate | controllers/registrationController.js:75-88 | 400 iff a bound is missing or start > end, with the matching message; otherwise 200 with exactly the registrations dated within [start, end], newest first |
| ViewRoutes.PostRegisterEvent | routes/viewRoutes.js:152-166 | the same three guards in the same order, each failure redirecting with its message and inserting nothing; otherwise exactly one record for the caller and the event is appended, the new ledger being AfterRegister of the old one, keeping pair uniqueness and capacity |
| ViewRoutes.PostCancelRegistration | routes/viewRoutes.js:135-143 | not found and not owner redirect without deleting; for the owner exactly that record is deleted, keeping pair uniqueness and capacity |
| ViewRoutes.CancelConfirmation | routes/viewRoutes.js:37-39 | the confirmation page is 404 iff no registration has the id, else shows a registration with that id |
| ViewRoutes.MyRegistrationsPage | routes/viewRoutes.js:123-126 | renders exactly the caller's registrations, newest first, the same list the REST handler returns (an empty list is rendered) |
| ViewRoutes.ListRegistrationsPage | routes/viewRoutes.js:48-52 | renders a newest-first permutation of the whole ledger, the same list the REST handler returns |
| ViewRoutes.SearchRegistrationsPage | routes/viewRoutes.js:61-72 | no query iff a bound is missing; otherwise exactly the registrations within [start, end], newest first; an inverted range gives an empty list; a proper range gives the REST handler's list |
| ViewRoutes.RegisterEventPage | routes/viewRoutes.js:22-28 | for the event list Event.find() returns (every catalogued event once), every catalogued event has exactly one entry, whose registered figure is the number of ledger records for that event |
| ViewRoutes.EventCounts | routes/viewRoutes.js:24-27 | each listed event, in list order, is paired with its maxCapacity and the number of ledger records for it |
| ViewRoutes.EventDetail | routes/viewRoutes.js:181-184 | no event iff the id is not in the catalog, else the event with the number of ledger records for it |
| ViewRoutes.LoginRedirect | routes/viewRoutes.js:110-114 | admins go to /admin/list-registrations, every other role to /register-event |
| ViewRoutes.PostLogin | routes/viewRoutes.js:96-114 | the form login succeeds iff the REST login does, with the same token as cookie, redirecting by role; a failure shows the REST login's message |
| ViewRoutes.PageRoles | routes/viewRoutes.js:20-179 | every protected page lists one role: admin for the two admin pages, student for every other |
| ViewRoutes.PageAdmits | routes/viewRoutes.js:20-179 | the admin pages admit only admins and every other protected page only students |

## Left out

- Concurrency: the count check and the save are separate awaits, so two
  concurrent registers can both pass the capacity check. The model is
  sequential: pair uniqueness and capacity are proved for one handler call at a time. Per-event
  atomicity and linearizability are not modelled.
- Mongoose mechanics: ObjectId generation is a counter (`nextId`).
  `populate('eventId')` and `populate('studentId', 'username')` are not
  modelled, so a reply holds the unpopulated document. The 500 replies of the
  `catch` blocks (storage failure, malformed ids) are not modelled.
- The order of registrations with equal dates: the database leaves it open.
  `NewestFirst` keeps ledger order.
- bcrypt and jwt: hashing, comparison, signing and verification (secret,
  24-hour expiry) are function parameters. A salted hash differing per call
  is not modelled.
- AuthController.UserRegistry.Register: states that the stored password is
  `hash(password)`. It does not show that this differs from the plaintext,
  because the hash is uninterpreted.
- Date parsing: `new Date(start)` and invalid dates are not modelled.
  Timestamps are integers.
- HTTP and rendering: EJS views, query-string messages beyond their text,
  cookie options and `res.clearCookie` are not modelled. Replies are kept as
  status and body values.
- Missing request-body fields (an undefined `username` or `eventId` passed to
  `findOne`) are not modelled: the inputs are always present values.
- The event model is not part of this model. Every catalogued event has a
  `maxCapacity` that is a natural number, and the catalog does not change
  during a call.
- `authorizeRoles` on a request without `req.user` is not modelled: every
  route runs `authenticateToken` first.
- `server.js` (app setup, database connection) and `routes/eventRoutes.js`
  (event CRUD, whose controller is not part of this model) are not modelled.
  Also left out: the create-event pages (routes/viewRoutes.js:79-92), the
  login and logout pages (routes/viewRoutes.js:15-17, 173-176) and the
  cookie-parser setup.
