/**
 * The REST handlers for registrations. registerEvent and cancelRegistration
 * run a sequence of guards against the ledger and then insert or delete one
 * document; the three listing handlers are queries. The caller is req.user,
 * as set by authenticateToken; the event catalog and the clock are parameters.
 */
module RegistrationController {
  import opened Wrappers
  import opened RegistrationModel
  import opened Ledger
  import opened AuthMiddleware

  /** A JSON body: { message }, one document, or an array of documents. */
  datatype Body =
    | Message(text: string)
    | Document(registration: Registration)
    | Documents(list: seq<Registration>)

  datatype Reply = Reply(status: nat, body: Body)

  /** The outcome of the register guards, in the order the handlers test them. */
  datatype RegisterVerdict = EventNotFound | AlreadyRegistered | EventFull | Accepted

  /** Event must exist; no registration for the pair yet; the event's count below maxCapacity. */
  function RegisterVerdictOf(rs: seq<Registration>, catalog: Catalog, studentId: Id, eventId: Id): (v: RegisterVerdict)
    ensures v == EventNotFound <==> eventId !in catalog
    ensures v == AlreadyRegistered <==>
              eventId in catalog && exists x :: x in rs && x.studentId == studentId && x.eventId == eventId
    ensures v == EventFull <==>
              && eventId in catalog
              && (forall x :: x in rs ==> !(x.studentId == studentId && x.eventId == eventId))
              && |MatchingPositions(rs, EventIs(eventId))| >= catalog[eventId]
    ensures v == Accepted <==>
              && eventId in catalog
              && (forall x :: x in rs ==> !(x.studentId == studentId && x.eventId == eventId))
              && |MatchingPositions(rs, EventIs(eventId))| < catalog[eventId]
  {
    CountIsMatchingPositions(rs, EventIs(eventId));
    if eventId !in catalog then EventNotFound
    else if FindOne(rs, PairIs(studentId, eventId)).Some? then AlreadyRegistered
    else if CountDocuments(rs, EventIs(eventId)) >= catalog[eventId] then EventFull
    else Accepted
  }

  /** The outcome of the cancel guards. */
  datatype CancelVerdict = RegistrationNotFound | NotOwner | Owner

  /** The registration must exist and belong to the caller. */
  function CancelVerdictOf(rs: seq<Registration>, callerId: Id, id: Id): (v: CancelVerdict)
    ensures v == RegistrationNotFound <==> forall x :: x in rs ==> x.id != id
    ensures v == NotOwner ==> exists x :: x in rs && x.id == id && x.studentId != callerId
    ensures v == Owner ==> exists x :: x in rs && x.id == id && x.studentId == callerId
  {
    match FindOne(rs, IdIs(id))
    case None => RegistrationNotFound
    case Some(r) => if r.studentId != callerId then NotOwner else Owner
  }

  /** The duplicate check runs before the capacity check: a duplicate on a full event is "already registered". */
  lemma DuplicateReportedBeforeFull(rs: seq<Registration>, catalog: Catalog, k: nat)
    requires k < |rs| && rs[k].eventId in catalog
    requires CountDocuments(rs, EventIs(rs[k].eventId)) >= catalog[rs[k].eventId]
    ensures RegisterVerdictOf(rs, catalog, rs[k].studentId, rs[k].eventId) == AlreadyRegistered
  {
    assert rs[k] in rs;
  }

  /** An accepted registration keeps pair uniqueness and capacity. */
  lemma AcceptedKeepsInvariants(rs: seq<Registration>, catalog: Catalog, r: Registration)
    requires RegisterVerdictOf(rs, catalog, r.studentId, r.eventId) == Accepted
    ensures UniquePairs(rs) ==> UniquePairs(rs + [r])
    ensures WithinCapacity(rs, catalog) ==> WithinCapacity(rs + [r], catalog)
  {
    if UniquePairs(rs) {
      AppendKeepsUniquePairs(rs, r);
    }
    if WithinCapacity(rs, catalog) {
      AppendKeepsCapacity(rs, catalog, r);
    }
  }

  /** The ledger after one register call, the new document getting `id`. */
  function AfterRegister(rs: seq<Registration>, catalog: Catalog, studentId: Id, eventId: Id,
                         id: Id, now: Timestamp): seq<Registration>
  {
    if RegisterVerdictOf(rs, catalog, studentId, eventId) == Accepted
    then rs + [Registration(id, studentId, eventId, now)]
    else rs
  }

  /** Registering the same pair a second time is refused as "already registered". */
  lemma SecondRegisterConflicts(rs: seq<Registration>, catalog: Catalog, studentId: Id, eventId: Id,
                                id: Id, now: Timestamp)
    requires RegisterVerdictOf(rs, catalog, studentId, eventId) == Accepted
    ensures RegisterVerdictOf(AfterRegister(rs, catalog, studentId, eventId, id, now), catalog, studentId, eventId)
         == AlreadyRegistered
  {
    var r := Registration(id, studentId, eventId, now);
    assert r in rs + [r];
  }

  /**
   * The ledger after each student in turn calls register for one event; call i
   * runs at time `times[i]` and, if accepted, its document gets id `ids[i]`.
   */
  function AfterRegisterEach(rs: seq<Registration>, catalog: Catalog, students: seq<Id>, eventId: Id,
                             ids: seq<Id>, times: seq<Timestamp>): seq<Registration>
    requires |ids| == |students| && |times| == |students|
    decreases |students|
  {
    if students == [] then rs
    else AfterRegisterEach(AfterRegister(rs, catalog, students[0], eventId, ids[0], times[0]),
                           catalog, students[1..], eventId, ids[1..], times[1..])
  }

  function Min(a: nat, b: nat): nat { if a <= b then a else b }

  /**
   * Run one after another, register calls from distinct students new to an
   * event fill it exactly up to its capacity, whatever ids and times the calls
   * get: when more students call than there are free seats, exactly the free
   * seats are taken.
   */
  lemma {:induction false} SequentialCapacity(rs: seq<Registration>, catalog: Catalog, students: seq<Id>,
                                              eventId: Id, ids: seq<Id>, times: seq<Timestamp>)
    requires |ids| == |students| && |times| == |students|
    requires eventId in catalog && CountDocuments(rs, EventIs(eventId)) <= catalog[eventId]
    requires forall i, j :: 0 <= i < j < |students| ==> students[i] != students[j]
    requires forall i :: 0 <= i < |students| ==> FindOne(rs, PairIs(students[i], eventId)).None?
    ensures CountDocuments(AfterRegisterEach(rs, catalog, students, eventId, ids, times), EventIs(eventId))
         == Min(CountDocuments(rs, EventIs(eventId)) + |students|, catalog[eventId])
    decreases |students|
  {
    if students != [] {
      var s := students[0];
      var next := AfterRegister(rs, catalog, s, eventId, ids[0], times[0]);
      var r := Registration(ids[0], s, eventId, times[0]);
      CountAfterAppend(rs, r, eventId);
      forall i | 0 <= i < |students[1..]| ensures FindOne(next, PairIs(students[1..][i], eventId)).None? {
        assert students[1..][i] == students[i + 1];
        assert FindOne(rs, PairIs(students[i + 1], eventId)).None?;
      }
      forall i, j | 0 <= i < j < |students[1..]| ensures students[1..][i] != students[1..][j] {
        assert students[1..][i] == students[i + 1] && students[1..][j] == students[j + 1];
      }
      SequentialCapacity(next, catalog, students[1..], eventId, ids[1..], times[1..]);
    }
  }

  /** With unique ids, the lookup by id finds the one document holding it. */
  lemma FindByUniqueId(rs: seq<Registration>, k: nat)
    requires UniqueIds(rs) && k < |rs|
    ensures FindOne(rs, IdIs(rs[k].id)) == Some(rs[k])
  {
    var found := FindOne(rs, IdIs(rs[k].id));
    assert rs[k] in rs;
    var j :| 0 <= j < |rs| && rs[j] == found.value;
    assert IdOf(rs[j]) == IdOf(rs[k]);
  }

  /** Cancelling an existing registration is allowed to its owner and refused to everyone else. */
  lemma CancelVerdictAt(rs: seq<Registration>, k: nat, callerId: Id)
    requires UniqueIds(rs) && k < |rs|
    ensures CancelVerdictOf(rs, callerId, rs[k].id) == if rs[k].studentId == callerId then Owner else NotOwner
  {
    FindByUniqueId(rs, k);
  }

  /** A cancel the guards allow removes exactly one document, and it is the caller's. */
  lemma CancelRemovesOnlyOwn(rs: seq<Registration>, callerId: Id, id: Id)
    requires UniqueIds(rs)
    requires CancelVerdictOf(rs, callerId, id) == Owner
    ensures |Select(rs, IdIsNot(id))| == |rs| - 1
    ensures forall x :: x in rs && x !in Select(rs, IdIsNot(id)) ==> x.id == id && x.studentId == callerId
  {
    var r := FindOne(rs, IdIs(id)).value;
    var k :| 0 <= k < |rs| && rs[k] == r;
    RemoveAt(rs, k);
    assert |rs[..k] + rs[k + 1..]| == |rs| - 1;
    forall x | x in rs && x !in Select(rs, IdIsNot(id)) ensures x.id == id && x.studentId == callerId {
      var j :| 0 <= j < |rs| && rs[j] == x;
      FindByUniqueId(rs, j);
    }
  }

  /**
   * Cancelling frees one seat: once a full event loses one registration, one
   * new student's register is accepted, and the next new student's is refused
   * as full again.
   */
  lemma CancelFreesOneSeat(rs: seq<Registration>, catalog: Catalog, k: nat, s: Id, s': Id, id: Id, now: Timestamp)
    requires UniqueIds(rs) && k < |rs|
    requires rs[k].eventId in catalog && CountDocuments(rs, EventIs(rs[k].eventId)) == catalog[rs[k].eventId]
    requires s != s'
    requires FindOne(rs, PairIs(s, rs[k].eventId)).None? && FindOne(rs, PairIs(s', rs[k].eventId)).None?
    ensures var e := rs[k].eventId;
            var freed := Select(rs, IdIsNot(rs[k].id));
            && RegisterVerdictOf(freed, catalog, s, e) == Accepted
            && RegisterVerdictOf(AfterRegister(freed, catalog, s, e, id, now), catalog, s', e) == EventFull
  {
    var e := rs[k].eventId;
    var freed := Select(rs, IdIsNot(rs[k].id));
    FreedSeatAccepts(rs, catalog, k, s);
    assert FindOne(freed, PairIs(s', e)).None?;
    LastSeatTaken(freed, catalog, e, s, s', id, now);
  }

  /** Taking the last free seat makes the next new student's register "Event full". */
  lemma LastSeatTaken(rs: seq<Registration>, catalog: Catalog, e: Id, s: Id, s': Id, id: Id, now: Timestamp)
    requires e in catalog && CountDocuments(rs, EventIs(e)) + 1 == catalog[e]
    requires RegisterVerdictOf(rs, catalog, s, e) == Accepted
    requires s != s' && FindOne(rs, PairIs(s', e)).None?
    ensures RegisterVerdictOf(AfterRegister(rs, catalog, s, e, id, now), catalog, s', e) == EventFull
  {
    var r := Registration(id, s, e, now);
    var after := rs + [r];
    assert AfterRegister(rs, catalog, s, e, id, now) == after;
    CountAfterAppend(rs, r, e);
    assert FindOne(after, PairIs(s', e)).None? by {
      forall x | x in after ensures !Matches(PairIs(s', e), x) {
        assert x in rs || x == r;
      }
    }
  }

  /** After a cancel on a full event, a student not yet registered for it is accepted. */
  lemma FreedSeatAccepts(rs: seq<Registration>, catalog: Catalog, k: nat, s: Id)
    requires UniqueIds(rs) && k < |rs|
    requires rs[k].eventId in catalog && CountDocuments(rs, EventIs(rs[k].eventId)) == catalog[rs[k].eventId]
    requires FindOne(rs, PairIs(s, rs[k].eventId)).None?
    ensures CountDocuments(Select(rs, IdIsNot(rs[k].id)), EventIs(rs[k].eventId)) + 1 == catalog[rs[k].eventId]
    ensures RegisterVerdictOf(Select(rs, IdIsNot(rs[k].id)), catalog, s, rs[k].eventId) == Accepted
  {
    var e := rs[k].eventId;
    var freed := Select(rs, IdIsNot(rs[k].id));
    CountAfterRemove(rs, k, e);
    assert FindOne(freed, PairIs(s, e)).None?;
  }

  /** exports.registerEvent. */
  method RegisterEvent(ledger: RegistrationLedger, catalog: Catalog, user: Claims, eventId: Id, now: Timestamp)
    returns (reply: Reply)
    requires ledger.Valid()
    modifies ledger
    ensures ledger.Valid()
    ensures var v := RegisterVerdictOf(old(ledger.records), catalog, user.id, eventId);
            && (v == EventNotFound ==> reply == Reply(404, Message("Event not found")))
            && (v == AlreadyRegistered ==> reply == Reply(400, Message("You have already registered for this event")))
            && (v == EventFull ==> reply == Reply(400, Message("Event full")))
            && (v != Accepted ==> ledger.records == old(ledger.records))
            && (v == Accepted ==>
                  && reply.status == 201 && reply.body.Document?
                  && ledger.records == old(ledger.records) + [reply.body.registration]
                  && reply.body.registration.studentId == user.id
                  && reply.body.registration.eventId == eventId
                  && reply.body.registration.registrationDate == now
                  && forall x :: x in old(ledger.records) ==> x.id != reply.body.registration.id)
    ensures RegisterVerdictOf(old(ledger.records), catalog, user.id, eventId) == Accepted ==>
              ledger.records == AfterRegister(old(ledger.records), catalog, user.id, eventId,
                                              reply.body.registration.id, now)
    ensures old(UniquePairs(ledger.records)) ==> UniquePairs(ledger.records)
    ensures old(WithinCapacity(ledger.records, catalog)) ==> WithinCapacity(ledger.records, catalog)
  {
    if eventId !in catalog {
      return Reply(404, Message("Event not found"));
    }
    var existing := FindOne(ledger.records, PairIs(user.id, eventId));
    if existing.Some? {
      return Reply(400, Message("You have already registered for this event"));
    }
    var count := CountDocuments(ledger.records, EventIs(eventId));
    if count >= catalog[eventId] {
      return Reply(400, Message("Event full"));
    }
    ghost var before := ledger.records;
    var registration := ledger.Save(user.id, eventId, now);
    AcceptedKeepsInvariants(before, catalog, registration);
    reply := Reply(201, Document(registration));
  }

  /** exports.cancelRegistration. */
  method CancelRegistration(ledger: RegistrationLedger, catalog: Catalog, user: Claims, id: Id)
    returns (reply: Reply)
    requires ledger.Valid()
    modifies ledger
    ensures ledger.Valid()
    ensures var v := CancelVerdictOf(old(ledger.records), user.id, id);
            && (v == RegistrationNotFound ==> reply == Reply(404, Message("Registration not found")))
            && (v == NotOwner ==> reply == Reply(403, Message("Not authorized to cancel this registration")))
            && (v != Owner ==> ledger.records == old(ledger.records))
            && (v == Owner ==>
                  && reply == Reply(200, Message("Unregistered successfully"))
                  && ledger.records == Select(old(ledger.records), IdIsNot(id)))
    ensures old(UniquePairs(ledger.records)) ==> UniquePairs(ledger.records)
    ensures old(WithinCapacity(ledger.records, catalog)) ==> WithinCapacity(ledger.records, catalog)
  {
    var registration := FindOne(ledger.records, IdIs(id));
    if registration.None? {
      return Reply(404, Message("Registration not found"));
    }
    if registration.value.studentId != user.id {
      return Reply(403, Message("Not authorized to cancel this registration"));
    }
    ghost var before := ledger.records;
    ghost var k :| 0 <= k < |before| && before[k] == registration.value;
    RemoveKeepsInvariants(before, catalog, k);
    ledger.DeleteOne(id);
    reply := Reply(200, Message("Unregistered successfully"));
  }

  /** exports.getMyRegistrations: the caller's registrations newest first, or a message when there are none. */
  function GetMyRegistrations(rs: seq<Registration>, user: Claims): (reply: Reply)
    ensures reply.status == 200
    ensures reply.body.Message? <==> forall x :: x in rs ==> x.studentId != user.id
    ensures reply.body.Message? ==> reply.body.text == "You haven't registered for any events yet"
    ensures reply.body.Documents? ==>
              && NewestFirstOrder(reply.body.list)
              && multiset(reply.body.list) == multiset(Select(rs, StudentIs(user.id)))
              && forall x :: x in reply.body.list <==> x in rs && x.studentId == user.id
    ensures !reply.body.Document?
  {
    var registrations := FindNewestFirst(rs, StudentIs(user.id));
    if |registrations| == 0 then
      assert forall x :: x in rs ==> x.studentId != user.id by {
        forall x | x in rs ensures x.studentId != user.id {
          assert x !in registrations;
        }
      }
      Reply(200, Message("You haven't registered for any events yet"))
    else
      assert registrations[0] in registrations;
      Reply(200, Documents(registrations))
  }

  /** exports.getAllRegistrations: every registration newest first, or a message when there are none. */
  function GetAllRegistrations(rs: seq<Registration>): (reply: Reply)
    ensures reply.status == 200
    ensures reply.body.Message? <==> rs == []
    ensures reply.body.Message? ==> reply.body.text == "No registrations yet"
    ensures reply.body.Documents? ==>
              NewestFirstOrder(reply.body.list) && multiset(reply.body.list) == multiset(rs)
    ensures !reply.body.Document?
  {
    var registrations := FindNewestFirst(rs, Everything);
    SelectAll(rs, Everything);
    if |registrations| == 0 then Reply(200, Message("No registrations yet"))
    else Reply(200, Documents(registrations))
  }

  /**
   * exports.getRegistrationsByDate: 400 unless both bounds are given and
   * start <= end; otherwise the registrations dated within [start, end],
   * newest first (an empty array is not an error).
   */
  function GetRegistrationsByDate(rs: seq<Registration>, start: Option<Timestamp>, end: Option<Timestamp>): (reply: Reply)
    ensures reply.status == 400 <==> start.None? || end.None? || start.value > end.value
    ensures start.None? || end.None? ==> reply == Reply(400, Message("Start and end dates are required"))
    ensures start.Some? && end.Some? && start.value > end.value ==> reply == Reply(400, Message("Invalid date range"))
    ensures reply.status != 400 ==>
              && reply.status == 200 && reply.body.Documents?
              && NewestFirstOrder(reply.body.list)
              && multiset(reply.body.list) == multiset(Select(rs, DateBetween(start.value, end.value)))
              && forall x :: x in reply.body.list <==>
                               x in rs && start.value <= x.registrationDate <= end.value
  {
    if start.None? || end.None? then Reply(400, Message("Start and end dates are required"))
    else if start.value > end.value then Reply(400, Message("Invalid date range"))
    else Reply(200, Documents(FindNewestFirst(rs, DateBetween(start.value, end.value))))
  }
}
