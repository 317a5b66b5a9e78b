/**
 * The Registration collection, abstracted to a sequence of documents in
 * insertion order, with the queries the handlers run against it (find with a
 * filter, findOne, findById, countDocuments, sort by date descending) and the
 * two writes (save, deleteOne).
 */
module Ledger {
  import opened Wrappers
  import opened RegistrationModel

  /** The event catalog as the handlers see it: eventId -> maxCapacity. */
  type Catalog = map<Id, nat>

  /** A query filter, as passed to find, findOne and countDocuments. */
  datatype Criterion =
    | Everything
    | IdIs(id: Id)
    | IdIsNot(id: Id)
    | StudentIs(studentId: Id)
    | EventIs(eventId: Id)
    | PairIs(studentId: Id, eventId: Id)
    | DateBetween(lo: Timestamp, hi: Timestamp)

  predicate Matches(c: Criterion, r: Registration) {
    match c
    case Everything => true
    case IdIs(id) => r.id == id
    case IdIsNot(id) => r.id != id
    case StudentIs(s) => r.studentId == s
    case EventIs(e) => r.eventId == e
    case PairIs(s, e) => r.studentId == s && r.eventId == e
    case DateBetween(lo, hi) => lo <= r.registrationDate <= hi
  }

  /** find(filter): the matching documents, in ledger order. */
  function Select(rs: seq<Registration>, c: Criterion): (r: seq<Registration>)
    ensures forall x {:trigger x in r} :: x in r <==> x in rs && Matches(c, x)
    ensures |r| <= |rs|
  {
    if rs == [] then []
    else if Matches(c, rs[0]) then [rs[0]] + Select(rs[1..], c)
    else Select(rs[1..], c)
  }

  /** find keeps each matching document exactly as often as the ledger holds it. */
  lemma {:induction false} SelectMultiset(rs: seq<Registration>, c: Criterion, x: Registration)
    ensures multiset(Select(rs, c))[x] == if Matches(c, x) then multiset(rs)[x] else 0
  {
    if rs != [] {
      assert rs == [rs[0]] + rs[1..];
      SelectMultiset(rs[1..], c, x);
    }
  }

  /** countDocuments(filter). */
  function CountDocuments(rs: seq<Registration>, c: Criterion): (n: nat)
    ensures n <= |rs|
    ensures n == 0 <==> forall x :: x in rs ==> !Matches(c, x)
  {
    var found := Select(rs, c);
    assert found != [] ==> found[0] in found;
    assert found == [] ==> forall x :: x in rs ==> !Matches(c, x) by {
      if found == [] {
        forall x | x in rs ensures !Matches(c, x) {
          assert x !in found;
        }
      }
    }
    |found|
  }

  /** findOne(filter) and findById(id): the first matching document, if any. */
  function FindOne(rs: seq<Registration>, c: Criterion): (r: Option<Registration>)
    ensures r.None? <==> forall x :: x in rs ==> !Matches(c, x)
    ensures r.Some? ==> r.value in rs && Matches(c, r.value)
  {
    if rs == [] then None
    else if Matches(c, rs[0]) then Some(rs[0])
    else FindOne(rs[1..], c)
  }

  function IdOf(r: Registration): Id { r.id }

  function PairOf(r: Registration): (Id, Id) { (r.studentId, r.eventId) }

  /** No two documents of `rs` share a key. */
  ghost predicate Injective<K>(rs: seq<Registration>, key: Registration -> K) {
    forall i, j :: 0 <= i < j < |rs| ==> key(rs[i]) != key(rs[j])
  }

  /** Document ids are unique (the collection's _id index). */
  ghost predicate UniqueIds(rs: seq<Registration>) {
    Injective(rs, IdOf)
  }

  /** Pair uniqueness: at most one registration per (studentId, eventId) pair. */
  ghost predicate UniquePairs(rs: seq<Registration>) {
    Injective(rs, PairOf)
  }

  /** Capacity: no catalogued event holds more registrations than its maxCapacity. */
  ghost predicate WithinCapacity(rs: seq<Registration>, catalog: Catalog) {
    forall e :: e in catalog ==> CountDocuments(rs, EventIs(e)) <= catalog[e]
  }

  /** The order of sort({ registrationDate: -1 }). */
  ghost predicate NewestFirstOrder(rs: seq<Registration>) {
    forall i, j :: 0 <= i < j < |rs| ==> rs[i].registrationDate >= rs[j].registrationDate
  }

  lemma PrependKeepsOrder(y: Registration, s: seq<Registration>)
    requires NewestFirstOrder(s)
    requires s != [] ==> y.registrationDate >= s[0].registrationDate
    ensures NewestFirstOrder([y] + s)
  {
    var t := [y] + s;
    forall i, j | 0 <= i < j < |t| ensures t[i].registrationDate >= t[j].registrationDate {
      if i == 0 {
        assert t[j] == s[j - 1];
        assert s[0].registrationDate >= s[j - 1].registrationDate;
      } else {
        assert t[i] == s[i - 1] && t[j] == s[j - 1];
      }
    }
  }

  function InsertByDate(x: Registration, s: seq<Registration>): (r: seq<Registration>)
    requires NewestFirstOrder(s)
    ensures NewestFirstOrder(r)
    ensures multiset(r) == multiset(s) + multiset{x}
    ensures r[0] == x || (s != [] && r[0] == s[0])
  {
    if s == [] || x.registrationDate >= s[0].registrationDate then
      PrependKeepsOrder(x, s);
      [x] + s
    else
      assert s == [s[0]] + s[1..];
      var rest := InsertByDate(x, s[1..]);
      assert |s| > 1 ==> s[0].registrationDate >= s[1].registrationDate;
      PrependKeepsOrder(s[0], rest);
      [s[0]] + rest
  }

  /** sort({ registrationDate: -1 }): newest first, ties in ledger order. */
  function NewestFirst(rs: seq<Registration>): (r: seq<Registration>)
    ensures NewestFirstOrder(r)
    ensures multiset(r) == multiset(rs)
  {
    if rs == [] then []
    else
      assert rs == [rs[0]] + rs[1..];
      InsertByDate(rs[0], NewestFirst(rs[1..]))
  }

  /** find(filter).sort({ registrationDate: -1 }): exactly the matching documents, newest first. */
  function FindNewestFirst(rs: seq<Registration>, c: Criterion): (r: seq<Registration>)
    ensures NewestFirstOrder(r)
    ensures multiset(r) == multiset(Select(rs, c))
    ensures forall x {:trigger x in r} :: x in r <==> x in rs && Matches(c, x)
  {
    var found := Select(rs, c);
    var sorted := NewestFirst(found);
    assert forall x :: x in sorted <==> x in found by {
      forall x ensures x in sorted <==> x in found {
        assert x in sorted <==> x in multiset(sorted);
        assert x in found <==> x in multiset(found);
      }
    }
    sorted
  }

  lemma {:induction false} SelectAppend(a: seq<Registration>, b: seq<Registration>, c: Criterion)
    ensures Select(a + b, c) == Select(a, c) + Select(b, c)
  {
    if a != [] {
      var ab := a + b;
      assert ab[0] == a[0] && ab[1..] == a[1..] + b;
      SelectAppend(a[1..], b, c);
      if Matches(c, a[0]) {
        calc {
          Select(ab, c);
          [a[0]] + Select(a[1..] + b, c);
          [a[0]] + (Select(a[1..], c) + Select(b, c));
          ([a[0]] + Select(a[1..], c)) + Select(b, c);
        }
      }
    } else {
      assert a + b == b;
    }
  }

  lemma {:induction false} SelectAll(rs: seq<Registration>, c: Criterion)
    requires forall i :: 0 <= i < |rs| ==> Matches(c, rs[i])
    ensures Select(rs, c) == rs
  {
    if rs != [] {
      SelectAll(rs[1..], c);
    }
  }

  lemma {:induction false} SelectPreservesInjective<K>(rs: seq<Registration>, c: Criterion,
                                                         key: Registration -> K)
    requires Injective(rs, key)
    ensures Injective(Select(rs, c), key)
  {
    if rs != [] {
      SelectPreservesInjective(rs[1..], c, key);
      var tail := Select(rs[1..], c);
      if Matches(c, rs[0]) {
        forall j | 0 <= j < |tail| ensures key(rs[0]) != key(tail[j]) {
          assert tail[j] in tail;
          var k :| 0 <= k < |rs[1..]| && rs[1..][k] == tail[j];
          assert rs[k + 1] == tail[j];
        }
      }
    }
  }

  /** With unique ids, no other position holds the id of position k. */
  lemma OthersHaveOtherIds(rs: seq<Registration>, k: nat)
    requires UniqueIds(rs) && k < |rs|
    ensures forall i :: 0 <= i < |rs| && i != k ==> rs[i].id != rs[k].id
  {
    forall i | 0 <= i < |rs| && i != k ensures rs[i].id != rs[k].id {
      if i < k { assert IdOf(rs[i]) != IdOf(rs[k]); } else { assert IdOf(rs[k]) != IdOf(rs[i]); }
    }
  }

  /** Removing a document by its (unique) id cuts out exactly that position. */
  lemma RemoveAt(rs: seq<Registration>, k: nat)
    requires UniqueIds(rs) && k < |rs|
    ensures Select(rs, IdIsNot(rs[k].id)) == rs[..k] + rs[k + 1..]
  {
    OthersHaveOtherIds(rs, k);
    RemoveLoneId(rs, k);
  }

  lemma RemoveLoneId(rs: seq<Registration>, k: nat)
    requires k < |rs|
    requires forall i :: 0 <= i < |rs| && i != k ==> rs[i].id != rs[k].id
    ensures Select(rs, IdIsNot(rs[k].id)) == rs[..k] + rs[k + 1..]
  {
    var c := IdIsNot(rs[k].id);
    var pre, post := rs[..k], rs[k + 1..];
    assert forall i :: 0 <= i < |pre| ==> Matches(c, pre[i]);
    assert forall i :: 0 <= i < |post| ==> post[i] == rs[k + 1 + i];
    CutAt(rs, k);
    SelectCutsOut(pre, rs[k], post, c);
  }

  /** A filter that every document but one matches removes exactly that one. */
  lemma {:induction false} SelectCutsOut(pre: seq<Registration>, x: Registration, post: seq<Registration>,
                                         c: Criterion)
    requires forall i :: 0 <= i < |pre| ==> Matches(c, pre[i])
    requires forall i :: 0 <= i < |post| ==> Matches(c, post[i])
    requires !Matches(c, x)
    ensures Select(pre + [x] + post, c) == pre + post
  {
    var s := pre + [x] + post;
    if pre == [] {
      assert s[0] == x && s[1..] == post;
      SelectAll(post, c);
    } else {
      assert s[0] == pre[0] && s[1..] == pre[1..] + [x] + post;
      SelectCutsOut(pre[1..], x, post, c);
      assert pre + post == [pre[0]] + (pre[1..] + post);
    }
  }

  lemma CountAfterAppend(rs: seq<Registration>, r: Registration, e: Id)
    ensures CountDocuments(rs + [r], EventIs(e))
         == CountDocuments(rs, EventIs(e)) + (if r.eventId == e then 1 else 0)
  {
    SelectAppend(rs, [r], EventIs(e));
  }

  /** Removing the document at position k lowers its event's count by one and no other. */
  lemma CountAfterRemove(rs: seq<Registration>, k: nat, e: Id)
    requires UniqueIds(rs) && k < |rs|
    ensures CountDocuments(Select(rs, IdIsNot(rs[k].id)), EventIs(e))
         == CountDocuments(rs, EventIs(e)) - (if rs[k].eventId == e then 1 else 0)
  {
    var pre, post := rs[..k], rs[k + 1..];
    var d := if rs[k].eventId == e then 1 else 0;
    RemoveAt(rs, k);
    CutAt(rs, k);
    SplitCount(pre, rs[k], post, e);
    calc {
      CountDocuments(Select(rs, IdIsNot(rs[k].id)), EventIs(e));
      CountDocuments(pre + post, EventIs(e));
      CountDocuments(pre + [rs[k]] + post, EventIs(e)) - d;
      CountDocuments(rs, EventIs(e)) - d;
    }
  }

  lemma SplitCount(pre: seq<Registration>, x: Registration, post: seq<Registration>, e: Id)
    ensures CountDocuments(pre + [x] + post, EventIs(e))
         == CountDocuments(pre + post, EventIs(e)) + (if x.eventId == e then 1 else 0)
  {
    var c := EventIs(e);
    assert [x][1..] == [];
    SelectAppend(pre + [x], post, c);
    SelectAppend(pre, [x], c);
    SelectAppend(pre, post, c);
  }

  /** The positions of the ledger whose document matches the filter. */
  ghost function MatchingPositions(rs: seq<Registration>, c: Criterion): set<nat> {
    set i: nat | i < |rs| && Matches(c, rs[i])
  }

  lemma PositionsAppend(init: seq<Registration>, last: Registration, c: Criterion)
    ensures MatchingPositions(init + [last], c)
         == MatchingPositions(init, c) + (if Matches(c, last) then {|init|} else {})
  {
    var rs := init + [last];
    forall i: nat | i < |init| ensures rs[i] == init[i] { }
  }

  /** countDocuments(filter) is the number of ledger positions holding a matching document. */
  lemma {:induction false} CountIsMatchingPositions(rs: seq<Registration>, c: Criterion)
    ensures CountDocuments(rs, c) == |MatchingPositions(rs, c)|
  {
    if rs == [] {
      assert MatchingPositions(rs, c) == {};
    } else {
      var init, last := rs[..|rs| - 1], rs[|rs| - 1];
      assert rs == init + [last];
      CountIsMatchingPositions(init, c);
      SelectAppend(init, [last], c);
      assert [last][1..] == [];
      PositionsAppend(init, last, c);
      assert |init| !in MatchingPositions(init, c);
    }
  }

  /** Deleting by id then leaves every other document, each as often as before. */
  lemma RemoveKeepsOthers(rs: seq<Registration>, k: nat)
    requires UniqueIds(rs) && k < |rs|
    ensures multiset(Select(rs, IdIsNot(rs[k].id))) == multiset(rs) - multiset{rs[k]}
  {
    RemoveAt(rs, k);
    CutAt(rs, k);
    var pre, post := rs[..k], rs[k + 1..];
    assert multiset(pre + [rs[k]] + post) == multiset(pre + post) + multiset{rs[k]};
  }

  /** A sequence is its prefix, its k-th element and its suffix. */
  lemma CutAt(rs: seq<Registration>, k: nat)
    requires k < |rs|
    ensures rs == rs[..k] + [rs[k]] + rs[k + 1..]
  {
  }

  /** Appending a record whose pair is absent keeps pair uniqueness. */
  lemma AppendKeepsUniquePairs(rs: seq<Registration>, r: Registration)
    requires UniquePairs(rs)
    requires FindOne(rs, PairIs(r.studentId, r.eventId)).None?
    ensures UniquePairs(rs + [r])
  {
    forall i | 0 <= i < |rs| ensures PairOf(rs[i]) != PairOf(r) {
      assert rs[i] in rs;
    }
  }

  /** Appending a record to an event below capacity keeps capacity. */
  lemma AppendKeepsCapacity(rs: seq<Registration>, catalog: Catalog, r: Registration)
    requires WithinCapacity(rs, catalog)
    requires r.eventId in catalog && CountDocuments(rs, EventIs(r.eventId)) < catalog[r.eventId]
    ensures WithinCapacity(rs + [r], catalog)
  {
    forall e | e in catalog ensures CountDocuments(rs + [r], EventIs(e)) <= catalog[e] {
      CountAfterAppend(rs, r, e);
    }
  }

  /** Deleting an existing document keeps pair uniqueness and capacity. */
  lemma RemoveKeepsInvariants(rs: seq<Registration>, catalog: Catalog, k: nat)
    requires UniqueIds(rs) && k < |rs|
    ensures UniquePairs(rs) ==> UniquePairs(Select(rs, IdIsNot(rs[k].id)))
    ensures WithinCapacity(rs, catalog) ==> WithinCapacity(Select(rs, IdIsNot(rs[k].id)), catalog)
  {
    if UniquePairs(rs) {
      SelectPreservesInjective(rs, IdIsNot(rs[k].id), PairOf);
    }
    forall e | e in catalog
      ensures CountDocuments(Select(rs, IdIsNot(rs[k].id)), EventIs(e)) <= CountDocuments(rs, EventIs(e))
    {
      CountAfterRemove(rs, k, e);
    }
  }

  /** Deleting the record just appended restores the ledger. */
  lemma RemoveUndoesAppend(rs: seq<Registration>, r: Registration)
    requires forall x :: x in rs ==> x.id != r.id
    ensures Select(rs + [r], IdIsNot(r.id)) == rs
  {
    SelectAppend(rs, [r], IdIsNot(r.id));
    SelectAll(rs, IdIsNot(r.id));
  }

  /**
   * The collection enforces no uniqueness of pairs: saving a document whose
   * pair is already present breaks pair uniqueness; it rests on the findOne guard.
   */
  lemma SavePresentPairBreaksUniquePairs(rs: seq<Registration>, r: Registration)
    requires FindOne(rs, PairIs(r.studentId, r.eventId)).Some?
    ensures !UniquePairs(rs + [r])
  {
    var found := FindOne(rs, PairIs(r.studentId, r.eventId)).value;
    var i :| 0 <= i < |rs| && rs[i] == found;
    var s := rs + [r];
    assert s[i] == found && s[|rs|] == r;
    assert PairOf(s[i]) == PairOf(s[|rs|]);
  }

  /**
   * The collection enforces no capacity: saving a document to an event already
   * at its maxCapacity breaks capacity; it rests on the countDocuments guard.
   */
  lemma SaveToFullEventBreaksCapacity(rs: seq<Registration>, catalog: Catalog, r: Registration)
    requires r.eventId in catalog && CountDocuments(rs, EventIs(r.eventId)) >= catalog[r.eventId]
    ensures !WithinCapacity(rs + [r], catalog)
  {
    CountAfterAppend(rs, r, r.eventId);
  }

  /** The Registration collection: documents in insertion order and the id generator. */
  class RegistrationLedger {
    var records: seq<Registration>
    var nextId: Id

    ghost predicate Valid()
      reads this
    {
      && UniqueIds(records)
      && forall x :: x in records ==> x.id < nextId
    }

    constructor ()
      ensures Valid() && records == []
    {
      records := [];
      nextId := 0;
    }

    /** new Registration({ studentId, eventId }).save() at time `now`. */
    method Save(studentId: Id, eventId: Id, now: Timestamp) returns (r: Registration)
      requires Valid()
      modifies this
      ensures Valid()
      ensures r.studentId == studentId && r.eventId == eventId && r.registrationDate == now
      ensures forall x :: x in old(records) ==> x.id != r.id
      ensures records == old(records) + [r]
    {
      var v := NewRegistration(nextId, Some(studentId), Some(eventId), None, now);
      r := v.registration;
      assert r.id == nextId;
      assert forall x :: x in records ==> x.id < nextId;
      records := records + [r];
      nextId := nextId + 1;
    }

    /** registration.deleteOne(): drops the document with that id. */
    method DeleteOne(id: Id)
      requires Valid()
      modifies this
      ensures Valid()
      ensures nextId == old(nextId)
      ensures records == Select(old(records), IdIsNot(id))
    {
      SelectPreservesInjective(records, IdIsNot(id), IdOf);
      records := Select(records, IdIsNot(id));
    }
  }
}
