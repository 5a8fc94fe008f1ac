/**
 * The event controller: `checkOverlap` and the admission protocol of
 * `createEvent`, `updateEvent`, `deleteEvent`, `getEvents` and `getEvent`,
 * over a sequence-backed event store. Requests run one at a time.
 *
 * Each operation is specified by a step function on a `Store` value; the
 * `EventStore` class performs the same steps in place and its methods are
 * proved equal to them. The store invariant (every stored event passed
 * admission, ids are unique, and no two events of one day overlap when their
 * times are compared as strings) is proved for each step and for any sequence
 * of steps.
 */
module EventController {
  import opened Wrappers
  import opened Times
  import opened Dates
  import opened Validators
  import opened EventModel
  import opened Text

  // ---------------------------------------------------------------------------
  // The overlap predicate

  /**
   * `checkOverlap`: the half-open ranges [newStart, newEnd) and
   * [existingStart, existingEnd) share a point, comparing times as strings.
   */
  predicate Overlap(newStart: string, newEnd: string, existingStart: string, existingEnd: string)
  {
    Less(newStart, existingEnd) && Less(existingStart, newEnd)
  }

  lemma OverlapSymmetric(a: string, b: string, c: string, d: string)
    ensures Overlap(a, b, c, d) == Overlap(c, d, a, b)
  {
  }

  /** Ranges that only touch, one ending where the other starts, do not overlap. */
  lemma TouchingRangesDoNotOverlap(newStart: string, newEnd: string, existingStart: string, existingEnd: string)
    requires newStart == existingEnd || newEnd == existingStart
    ensures !Overlap(newStart, newEnd, existingStart, existingEnd)
  {
    LessIrreflexive(newStart);
    LessIrreflexive(newEnd);
  }

  /** For zero-padded times the string test is the usual test on minutes of the day. */
  lemma PaddedOverlapIsClockOverlap(a: string, b: string, c: string, d: string)
    requires IsTime(a) && IsTime(b) && IsTime(c) && IsTime(d)
    requires |a| == 5 && |b| == 5 && |c| == 5 && |d| == 5
    ensures Overlap(a, b, c, d) <==>
              ClockMinutes(a) < ClockMinutes(d) && ClockMinutes(c) < ClockMinutes(b)
  {
    PaddedOrderIsClockOrder(a, d);
    PaddedOrderIsClockOrder(c, b);
  }

  lemma BoundaryExamples()
    ensures !Overlap("10:00", "11:00", "09:00", "10:00")
    ensures Overlap("10:00", "11:00", "09:00", "10:01")
  {
    assert Less("10:00", "10:01") by {
      LessStep("10:00", "10:01");
      assert "10:00"[1..] == "0:00" && "10:01"[1..] == "0:01";
      LessStep("0:00", "0:01");
      assert "0:00"[1..] == ":00" && "0:01"[1..] == ":01";
      LessStep(":00", ":01");
      assert ":00"[1..] == "00" && ":01"[1..] == "01";
      LessStep("00", "01");
    }
    TouchingRangesDoNotOverlap("10:00", "11:00", "09:00", "10:00");
  }

  // ---------------------------------------------------------------------------
  // Outcomes and the store value

  const RangeMessage := "End time must be after start time"
  const ConflictMessage := "Time slot already booked"
  const NotFoundMessage := "Event not found"

  /** What a controller answers, without the HTTP and JSON wrapping. */
  datatype Outcome =
    | Created(event: Event)
    | Updated(event: Event)
    | Deleted
    | ValidationFailed(message: string)
    | InvalidRange
    | Conflict
    | NotFound
    | SchemaRejected

  /** The HTTP status each outcome is sent with. */
  function Status(o: Outcome): int
  {
    match o
    case Created(_) => 201
    case Updated(_) => 200
    case Deleted => 200
    case ValidationFailed(_) => 400
    case InvalidRange => 400
    case Conflict => 400
    case NotFound => 404
    case SchemaRejected => 500
  }

  /** The events collection; `nextId` is the id the store hands out next. */
  datatype Store = Store(events: seq<Event>, nextId: EventId)

  datatype Reply = Reply(outcome: Outcome, store: Store)

  /**
   * `Event.find({ date: day })`, and with `exclude` the update's
   * `_id: { $ne: id }` as well; store order is kept.
   */
  function SameDay(events: seq<Event>, day: int, exclude: Option<EventId>): (r: seq<Event>)
    ensures |r| <= |events|
    ensures forall e :: e in r <==> e in events && e.date == day && exclude != Some(e.id)
  {
    if events == [] then []
    else
      var rest := SameDay(events[1..], day, exclude);
      assert forall e :: e in events <==> e == events[0] || e in events[1..];
      if events[0].date == day && exclude != Some(events[0].id) then [events[0]] + rest else rest
  }

  /** Leaving out an id that no event carries selects the same events. */
  lemma {:induction false} SameDayExcludingAbsentId(events: seq<Event>, day: int, id: EventId)
    requires forall e :: e in events ==> e.id != id
    ensures SameDay(events, day, Some(id)) == SameDay(events, day, None)
  {
    if events != [] {
      assert forall e :: e in events[1..] ==> e in events;
      SameDayExcludingAbsentId(events[1..], day, id);
    }
  }

  /** No stored event of that day overlaps the candidate range. */
  predicate ClearOfDay(events: seq<Event>, day: int, start: string, end: string)
  {
    forall e :: e in events && e.date == day ==> !Overlap(start, end, e.startTime, e.endTime)
  }

  /** The lookup misses exactly when no event carries the id. */
  lemma AbsentIdNotFound(events: seq<Event>, id: EventId)
    requires forall e :: e in events ==> e.id != id
    ensures IndexOfId(events, id) == None
  {
  }

  /** Some event of `existing` overlaps the candidate range. */
  predicate ConflictsWith(existing: seq<Event>, start: string, end: string)
  {
    exists e :: e in existing && Overlap(start, end, e.startTime, e.endTime)
  }

  /** `findById`: the position of the first event with that id, if any. */
  function IndexOfId(events: seq<Event>, id: EventId): (r: Option<nat>)
    ensures r.Some? ==> r.value < |events| && events[r.value].id == id
    ensures r.Some? ==> forall k :: 0 <= k < r.value ==> events[k].id != id
    ensures r.None? ==> forall k :: 0 <= k < |events| ==> events[k].id != id
  {
    if events == [] then None
    else if events[0].id == id then Some(0)
    else match IndexOfId(events[1..], id)
      case None => None
      case Some(k) => Some(k + 1)
  }

  /** The event `createEvent` persists: trimmed title, normalised date, the caller as author. */
  function NewEvent(id: EventId, req: EventRequest, day: int, author: UserId): Event
  {
    Event(id, Trim(req.title), req.description, day, req.startTime, req.endTime, author)
  }

  /**
   * The fields `updateEvent` writes. A description the request leaves out is
   * not part of the update, so the stored one stays; id and author never change.
   */
  function Revise(e: Event, req: EventRequest, day: int): (r: Event)
    ensures r.id == e.id && r.createdBy == e.createdBy
    ensures req.description.None? ==> r.description == e.description
  {
    e.(title := Trim(req.title),
       description := if req.description.Some? then req.description else e.description,
       date := day, startTime := req.startTime, endTime := req.endTime)
  }

  /**
   * The request's fields pass the update validators: the title as trimmed by
   * the sanitizer, the description if the request has one, and the times.
   */
  predicate FitsSchema(req: EventRequest)
  {
    UpdateValid(Trim(req.title), req.description, req.startTime, req.endTime)
  }

  // ---------------------------------------------------------------------------
  // The admission protocol as step functions

  /**
   * `createEvent`: the first validation error; else a range whose end is not
   * after its start; else a conflict with an event of the same day; else the
   * schema validates the new document (a failure is answered 500); else the
   * new event is appended under a fresh id.
   */
  function CreateStep(s: Store, req: EventRequest, now: int, author: UserId): (r: Reply)
    ensures r.outcome.Created? ==> r.store == Store(s.events + [r.outcome.event], s.nextId + 1)
    ensures r.outcome.Created? ==> r.outcome.event.id == s.nextId
    ensures !r.outcome.Created? ==> r.store == s
  {
    var err := EventValidation(req, now);
    if err.Some? then Reply(ValidationFailed(err.value), s)
    else if !Less(req.startTime, req.endTime) then Reply(InvalidRange, s)
    else
      var day := Midnight(req.date.instant);
      if ConflictsWith(SameDay(s.events, day, None), req.startTime, req.endTime) then Reply(Conflict, s)
      else
        var e := NewEvent(s.nextId, req, day, author);
        if !WellFormed(e) then Reply(SchemaRejected, s)
        else Reply(Created(e), Store(s.events + [e], s.nextId + 1))
  }

  /**
   * `updateEvent`: as create, but the scan leaves out the event being updated.
   * The update validators run before the database looks the id up, so only a
   * request that passes the scan and the validators can get 404.
   */
  function UpdateStep(s: Store, id: EventId, req: EventRequest, now: int): (r: Reply)
    ensures r.outcome.Updated? ==> r.outcome.event.id == id && r.outcome.event in r.store.events
    ensures r.outcome.Updated? ==> |r.store.events| == |s.events| && r.store.nextId == s.nextId
    ensures !r.outcome.Updated? ==> r.store == s
  {
    var err := EventValidation(req, now);
    if err.Some? then Reply(ValidationFailed(err.value), s)
    else if !Less(req.startTime, req.endTime) then Reply(InvalidRange, s)
    else
      var day := Midnight(req.date.instant);
      if ConflictsWith(SameDay(s.events, day, Some(id)), req.startTime, req.endTime) then Reply(Conflict, s)
      else if !FitsSchema(req) then Reply(SchemaRejected, s)
      else match IndexOfId(s.events, id)
        case None => Reply(NotFound, s)
        case Some(k) =>
          var e := Revise(s.events[k], req, day);
          assert s.events[k := e][k] == e;
          Reply(Updated(e), Store(s.events[k := e], s.nextId))
  }

  /** `deleteEvent`: remove the event with that id, with no other check; 404 when absent. */
  function DeleteStep(s: Store, id: EventId): (r: Reply)
    ensures r.outcome == Deleted || r == Reply(NotFound, s)
    ensures r.outcome == Deleted ==> |r.store.events| == |s.events| - 1 && r.store.nextId == s.nextId
  {
    match IndexOfId(s.events, id)
    case None => Reply(NotFound, s)
    case Some(k) => Reply(Deleted, Store(s.events[..k] + s.events[k + 1..], s.nextId))
  }

  /** A state-changing request, with the clock reading the validator uses. */
  datatype Request =
    | CreateRequest(body: EventRequest, now: int, author: UserId)
    | UpdateRequest(id: EventId, body: EventRequest, now: int)
    | DeleteRequest(id: EventId)

  function Step(s: Store, r: Request): Reply
  {
    match r
    case CreateRequest(body, now, author) => CreateStep(s, body, now, author)
    case UpdateRequest(id, body, now) => UpdateStep(s, id, body, now)
    case DeleteRequest(id) => DeleteStep(s, id)
  }

  /** The store after serving the requests one after another. */
  function Run(s: Store, rs: seq<Request>): Store
    decreases |rs|
  {
    if rs == [] then s else Run(Step(s, rs[0]).store, rs[1..])
  }

  // ---------------------------------------------------------------------------
  // The store invariant

  /** What admission guarantees of each stored event. */
  predicate Admitted(e: Event)
  {
    WellFormed(e) && Less(e.startTime, e.endTime) && Midnight(e.date) == e.date
  }

  predicate UniqueIds(events: seq<Event>)
  {
    forall i, j :: 0 <= i < |events| && 0 <= j < |events| && i != j ==> events[i].id != events[j].id
  }

  /** No two stored events of the same day have overlapping times, comparing times as strings. */
  predicate NoSameDayOverlap(events: seq<Event>)
  {
    forall i, j :: 0 <= i < |events| && 0 <= j < |events| && i != j && events[i].date == events[j].date ==>
      !Overlap(events[i].startTime, events[i].endTime, events[j].startTime, events[j].endTime)
  }

  predicate StoreInvariant(s: Store)
  {
    && (forall k :: 0 <= k < |s.events| ==> Admitted(s.events[k]) && s.events[k].id < s.nextId)
    && UniqueIds(s.events)
    && NoSameDayOverlap(s.events)
  }

  /**
   * Create's schema check on the whole document and update's check on the
   * paths it sets accept the same requests.
   */
  lemma CreateAndUpdateCheckSameFields(id: EventId, req: EventRequest, day: int, author: UserId)
    ensures WellFormed(NewEvent(id, req, day, author)) <==> FitsSchema(req)
  {
  }

  /**
   * What passes the range check and the schema is admissible: create's new
   * event, and update's revision of an admitted event.
   */
  lemma WrittenEventAdmitted(req: EventRequest, day: int, id: EventId, author: UserId, e: Event)
    requires Less(req.startTime, req.endTime) && FitsSchema(req)
    requires day == Midnight(req.date.instant)
    ensures Admitted(NewEvent(id, req, day, author))
    ensures Admitted(e) ==> Admitted(Revise(e, req, day))
  {
    MidnightIdempotent(req.date.instant);
  }

  /** A valid request whose title and description are plain text passes the schema too. */
  lemma PlainRequestFitsSchema(req: EventRequest, now: int)
    requires EventRequestValid(req, now)
    requires PlainText(Trim(req.title))
    requires req.description.Some? ==> PlainText(req.description.value)
    ensures FitsSchema(req)
  {
    PlainTextLengthsAgree(Trim(req.title));
    if req.description.Some? {
      PlainTextLengthsAgree(req.description.value);
    }
  }

  /**
   * The validator and the schema count differently: a description of 251 to
   * 500 characters above U+FFFF, emoji say, passes `isLength({ max: 500 })`
   * but is longer than 500 UTF-16 code units, so the schema refuses it.
   */
  lemma WideDescriptionPassesValidatorOnly(req: EventRequest, now: int)
    requires req.date.iso8601 && !IsPast(req.date.instant, now)
    requires TitleValid(req.title) && IsTime(req.startTime) && IsTime(req.endTime)
    requires req.description.Some? && 250 < |req.description.value| <= 500
    requires forall k :: 0 <= k < |req.description.value| ==> IsAstral(req.description.value[k])
    ensures EventValidation(req, now) == None
    ensures !FitsSchema(req)
  {
    AstralTextLengths(req.description.value);
  }

  /** A scan that finds no conflict means every event the query selects is clear of the candidate. */
  lemma NoConflictMeansClear(events: seq<Event>, day: int, exclude: Option<EventId>, start: string, end: string)
    requires !ConflictsWith(SameDay(events, day, exclude), start, end)
    ensures forall x :: x in events && x.date == day && exclude != Some(x.id) ==>
              !Overlap(start, end, x.startTime, x.endTime)
  {
    forall x | x in events && x.date == day && exclude != Some(x.id)
      ensures !Overlap(start, end, x.startTime, x.endTime)
    {
      assert x in SameDay(events, day, exclude);
    }
  }

  /** Appending an admitted event with the next id that overlaps no event of its day keeps the invariant. */
  lemma AppendKeepsInvariant(s: Store, e: Event)
    requires StoreInvariant(s) && Admitted(e) && e.id == s.nextId
    requires forall x :: x in s.events && x.date == e.date ==> !Overlap(e.startTime, e.endTime, x.startTime, x.endTime)
    ensures StoreInvariant(Store(s.events + [e], s.nextId + 1))
  {
    var all := s.events + [e];
    assert forall i :: 0 <= i < |s.events| ==> all[i] == s.events[i];
    forall i, j | 0 <= i < |all| && 0 <= j < |all| && i != j && all[i].date == all[j].date
      ensures !Overlap(all[i].startTime, all[i].endTime, all[j].startTime, all[j].endTime)
    {
      if i == |s.events| {
        assert all[j] in s.events;
      } else if j == |s.events| {
        assert all[i] in s.events;
      }
    }
  }

  /** Replacing an event by an admitted one with the same id that overlaps no other event of its day keeps the invariant. */
  lemma ReplaceKeepsInvariant(s: Store, k: nat, e: Event)
    requires StoreInvariant(s) && k < |s.events| && Admitted(e) && e.id == s.events[k].id
    requires forall j :: 0 <= j < |s.events| && j != k && s.events[j].date == e.date ==>
               !Overlap(e.startTime, e.endTime, s.events[j].startTime, s.events[j].endTime)
    ensures StoreInvariant(Store(s.events[k := e], s.nextId))
  {
    var all := s.events[k := e];
    forall i, j | 0 <= i < |all| && 0 <= j < |all| && i != j && all[i].date == all[j].date
      ensures !Overlap(all[i].startTime, all[i].endTime, all[j].startTime, all[j].endTime)
    {
      if i != k && j != k {
        assert all[i] == s.events[i] && all[j] == s.events[j];
      }
    }
  }

  /** The position in the old sequence of position `i` once position `k` is removed. */
  function Skip(i: nat, k: nat): nat
  {
    if i < k then i else i + 1
  }

  /** Removing any event keeps the invariant: every remaining pair was a pair before. */
  lemma RemoveKeepsInvariant(s: Store, k: nat)
    requires StoreInvariant(s) && k < |s.events|
    ensures StoreInvariant(Store(s.events[..k] + s.events[k + 1..], s.nextId))
  {
    var rest := s.events[..k] + s.events[k + 1..];
    assert forall i :: 0 <= i < |rest| ==> rest[i] == s.events[Skip(i, k)];
    forall i, j | 0 <= i < |rest| && 0 <= j < |rest| && i != j
      ensures rest[i].id != rest[j].id
      ensures rest[i].date == rest[j].date ==>
                !Overlap(rest[i].startTime, rest[i].endTime, rest[j].startTime, rest[j].endTime)
    {
      assert rest[i] == s.events[Skip(i, k)] && rest[j] == s.events[Skip(j, k)];
    }
  }

  lemma {:induction false} CreatePreservesInvariant(s: Store, req: EventRequest, now: int, author: UserId)
    requires StoreInvariant(s)
    ensures StoreInvariant(CreateStep(s, req, now, author).store)
  {
    var day := Midnight(req.date.instant);
    var e := NewEvent(s.nextId, req, day, author);
    if && EventRequestValid(req, now) && Less(req.startTime, req.endTime)
       && !ConflictsWith(SameDay(s.events, day, None), req.startTime, req.endTime)
       && WellFormed(e)
    {
      CreateAndUpdateCheckSameFields(s.nextId, req, day, author);
      WrittenEventAdmitted(req, day, s.nextId, author, e);
      NoConflictMeansClear(s.events, day, None, req.startTime, req.endTime);
      AppendKeepsInvariant(s, e);
      assert CreateStep(s, req, now, author).store == Store(s.events + [e], s.nextId + 1);
    }
  }

  lemma {:induction false} UpdatePreservesInvariant(s: Store, id: EventId, req: EventRequest, now: int)
    requires StoreInvariant(s)
    ensures StoreInvariant(UpdateStep(s, id, req, now).store)
  {
    var day := Midnight(req.date.instant);
    var found := IndexOfId(s.events, id);
    if && EventRequestValid(req, now) && Less(req.startTime, req.endTime)
       && !ConflictsWith(SameDay(s.events, day, Some(id)), req.startTime, req.endTime)
       && FitsSchema(req) && found.Some?
    {
      var k := found.value;
      var e := Revise(s.events[k], req, day);
      WrittenEventAdmitted(req, day, id, 0, s.events[k]);
      NoConflictMeansClear(s.events, day, Some(id), req.startTime, req.endTime);
      ReplaceKeepsInvariant(s, k, e);
      assert UpdateStep(s, id, req, now).store == Store(s.events[k := e], s.nextId);
    }
  }

  lemma {:induction false} DeletePreservesInvariant(s: Store, id: EventId)
    requires StoreInvariant(s)
    ensures StoreInvariant(DeleteStep(s, id).store)
  {
    match IndexOfId(s.events, id)
    case None =>
    case Some(k) =>
      RemoveKeepsInvariant(s, k);
      assert DeleteStep(s, id).store == Store(s.events[..k] + s.events[k + 1..], s.nextId);
  }

  lemma StepPreservesInvariant(s: Store, r: Request)
    requires StoreInvariant(s)
    ensures StoreInvariant(Step(s, r).store)
  {
    match r
    case CreateRequest(body, now, author) => CreatePreservesInvariant(s, body, now, author);
    case UpdateRequest(id, body, now) => UpdatePreservesInvariant(s, id, body, now);
    case DeleteRequest(id) => DeletePreservesInvariant(s, id);
  }

  /** Creates, updates and deletes served one after another keep the invariant. */
  lemma {:induction false} RunPreservesInvariant(s: Store, rs: seq<Request>)
    requires StoreInvariant(s)
    ensures StoreInvariant(Run(s, rs))
    decreases |rs|
  {
    if rs != [] {
      StepPreservesInvariant(s, rs[0]);
      RunPreservesInvariant(Step(s, rs[0]).store, rs[1..]);
    }
  }

  // ---------------------------------------------------------------------------
  // Properties of the protocol

  /**
   * A valid request whose end is not after its start is refused with the range
   * message by create and update alike, whatever the store holds, and nothing changes.
   */
  lemma RangeCheckedBeforeStore(s: Store, id: EventId, req: EventRequest, now: int, author: UserId)
    requires EventRequestValid(req, now) && !Less(req.startTime, req.endTime)
    ensures CreateStep(s, req, now, author) == Reply(InvalidRange, s)
    ensures UpdateStep(s, id, req, now) == Reply(InvalidRange, s)
  {
  }

  /**
   * Create persists a valid, well-ordered request exactly when no stored event
   * of the same day overlaps it and the schema accepts it. An overlap is
   * answered Conflict, a schema failure after a clear scan 500; either way the
   * store is unchanged.
   */
  lemma CreateAdmitsIffNoSameDayOverlap(s: Store, req: EventRequest, now: int, author: UserId)
    requires EventRequestValid(req, now) && Less(req.startTime, req.endTime)
    ensures var r := CreateStep(s, req, now, author);
            var clear := ClearOfDay(s.events, Midnight(req.date.instant), req.startTime, req.endTime);
            && (r.outcome.Created? <==> clear && FitsSchema(req))
            && (!clear ==> r == Reply(Conflict, s))
            && (clear && !FitsSchema(req) ==> r == Reply(SchemaRejected, s))
            && (r.outcome.Created? ==> r.outcome == Created(NewEvent(s.nextId, req, Midnight(req.date.instant), author)))
            && (r.outcome.Created? ==> r.store.events == s.events + [r.outcome.event])
  {
    var day := Midnight(req.date.instant);
    var existing := SameDay(s.events, day, None);
    CreateAndUpdateCheckSameFields(s.nextId, req, day, author);
    if ConflictsWith(existing, req.startTime, req.endTime) {
      var e :| e in existing && Overlap(req.startTime, req.endTime, e.startTime, e.endTime);
      assert e in s.events && e.date == day;
    } else {
      NoConflictMeansClear(s.events, day, None, req.startTime, req.endTime);
    }
  }

  /** Events of other days never stand in the way: on a day with no events only the schema can refuse a valid request. */
  lemma OtherDaysNeverConflict(s: Store, req: EventRequest, now: int, author: UserId)
    requires EventRequestValid(req, now) && Less(req.startTime, req.endTime)
    requires forall e :: e in s.events ==> e.date != Midnight(req.date.instant)
    ensures CreateStep(s, req, now, author).outcome ==
              if FitsSchema(req) then Created(NewEvent(s.nextId, req, Midnight(req.date.instant), author))
              else SchemaRejected
  {
    CreateAdmitsIffNoSameDayOverlap(s, req, now, author);
  }

  /**
   * Update of a stored event checks only the OTHER events of the new day: a
   * valid, well-ordered request is written iff none of them overlaps it and
   * the update validators pass, and then only that event changes. Otherwise
   * the answer is Conflict or 500 and the store is unchanged.
   */
  lemma UpdateAdmitsIffNoOtherSameDayOverlap(s: Store, k: nat, req: EventRequest, now: int)
    requires k < |s.events| && UniqueIds(s.events)
    requires EventRequestValid(req, now) && Less(req.startTime, req.endTime)
    ensures var day := Midnight(req.date.instant);
            var r := UpdateStep(s, s.events[k].id, req, now);
            var clear := forall j :: 0 <= j < |s.events| && j != k && s.events[j].date == day ==>
                           !Overlap(req.startTime, req.endTime, s.events[j].startTime, s.events[j].endTime);
            && (r.outcome.Updated? <==> clear && FitsSchema(req))
            && (!clear ==> r == Reply(Conflict, s))
            && (clear && !FitsSchema(req) ==> r == Reply(SchemaRejected, s))
            && (r.outcome.Updated? ==>
                  r == Reply(Updated(Revise(s.events[k], req, day)), Store(s.events[k := Revise(s.events[k], req, day)], s.nextId)))
  {
    var id := s.events[k].id;
    var day := Midnight(req.date.instant);
    var found := IndexOfId(s.events, id);
    assert found == Some(k);
    var existing := SameDay(s.events, day, Some(id));
    if ConflictsWith(existing, req.startTime, req.endTime) {
      var e :| e in existing && Overlap(req.startTime, req.endTime, e.startTime, e.endTime);
      var j :| 0 <= j < |s.events| && s.events[j] == e;
      assert j != k && s.events[j].date == day;
    } else {
      forall j | 0 <= j < |s.events| && j != k && s.events[j].date == day
        ensures !Overlap(req.startTime, req.endTime, s.events[j].startTime, s.events[j].endTime)
      {
        assert s.events[j] in existing;
      }
    }
  }

  /**
   * Updating a stored event to its own day and times passes the scan: it
   * leaves the event itself out, and the invariant keeps the others clear of
   * it. Only the update validators can still refuse it.
   */
  lemma UpdateToOwnSlotAdmitted(s: Store, k: nat, req: EventRequest, now: int)
    requires StoreInvariant(s) && k < |s.events|
    requires EventRequestValid(req, now)
    requires Midnight(req.date.instant) == s.events[k].date
    requires req.startTime == s.events[k].startTime && req.endTime == s.events[k].endTime
    ensures UpdateStep(s, s.events[k].id, req, now).outcome ==
              if FitsSchema(req) then Updated(Revise(s.events[k], req, s.events[k].date)) else SchemaRejected
  {
    UpdateAdmitsIffNoOtherSameDayOverlap(s, k, req, now);
  }

  /**
   * Update on an id the store does not hold still runs the scan and the
   * update validators first: a conflict is answered 400, a schema failure 500,
   * and only a request that passes both gets 404.
   */
  lemma UpdateMissingIdScansFirst(s: Store, id: EventId, req: EventRequest, now: int)
    requires forall e :: e in s.events ==> e.id != id
    requires EventRequestValid(req, now) && Less(req.startTime, req.endTime)
    ensures var r := UpdateStep(s, id, req, now);
            && r.store == s
            && var clash := ConflictsWith(SameDay(s.events, Midnight(req.date.instant), None), req.startTime, req.endTime);
            && (clash ==> r.outcome == Conflict && Status(r.outcome) == 400)
            && (!clash && !FitsSchema(req) ==> r.outcome == SchemaRejected && Status(r.outcome) == 500)
            && (!clash && FitsSchema(req) ==> r.outcome == NotFound && Status(r.outcome) == 404)
  {
    var day := Midnight(req.date.instant);
    SameDayExcludingAbsentId(s.events, day, id);
    assert EventValidation(req, now) == None;
    AbsentIdNotFound(s.events, id);
    var clash := ConflictsWith(SameDay(s.events, day, None), req.startTime, req.endTime);
    assert UpdateStep(s, id, req, now) ==
             if clash then Reply(Conflict, s) else if !FitsSchema(req) then Reply(SchemaRejected, s) else Reply(NotFound, s);
  }

  /**
   * Delete removes exactly the event with that id and keeps the others in
   * order; an unknown id is 404 and changes nothing.
   */
  lemma DeleteRemovesOnlyThatEvent(s: Store, id: EventId)
    requires UniqueIds(s.events)
    ensures var r := DeleteStep(s, id);
            && ((exists e :: e in s.events && e.id == id) <==> r.outcome == Deleted)
            && (r.outcome != Deleted ==> r.outcome == NotFound && r.store == s)
            && (r.outcome == Deleted ==>
                  exists k :: 0 <= k < |s.events| && s.events[k].id == id &&
                    r.store.events == s.events[..k] + s.events[k + 1..])
            && |r.store.events| == |s.events| - (if r.outcome == Deleted then 1 else 0)
            && (forall e :: e in r.store.events <==> e in s.events && e.id != id)
  {
    var r := DeleteStep(s, id);
    match IndexOfId(s.events, id)
    case None =>
    case Some(k) =>
      var evs := s.events[..k] + s.events[k + 1..];
      assert forall i :: 0 <= i < |evs| ==> evs[i] == s.events[if i < k then i else i + 1];
      forall e | e in s.events && e.id != id ensures e in evs {
        var j :| 0 <= j < |s.events| && s.events[j] == e;
        assert j != k;
        if j < k { assert evs[j] == e; } else { assert evs[j - 1] == e; }
      }
  }

  // ---------------------------------------------------------------------------
  // String order against clock order in the store

  /**
   * When every stored time is zero-padded, the invariant is the clock-time
   * promise: each event ends after it starts, and two events of one day
   * occupy disjoint half-open minute ranges.
   */
  lemma PaddedStoreIsClockDisjoint(s: Store, i: nat, j: nat)
    requires StoreInvariant(s)
    requires forall k :: 0 <= k < |s.events| ==> |s.events[k].startTime| == 5 && |s.events[k].endTime| == 5
    requires i < |s.events| && j < |s.events| && i != j && s.events[i].date == s.events[j].date
    ensures var a, b := s.events[i], s.events[j];
            && ClockMinutes(a.startTime) < ClockMinutes(a.endTime)
            && (ClockMinutes(a.endTime) <= ClockMinutes(b.startTime) || ClockMinutes(b.endTime) <= ClockMinutes(a.startTime))
  {
    var a, b := s.events[i], s.events[j];
    PaddedOrderIsClockOrder(a.startTime, a.endTime);
    PaddedOverlapIsClockOverlap(a.startTime, a.endTime, b.startTime, b.endTime);
  }

  /** A store holding one event, `9:00`-`9:30` with a one-digit hour, on `day`. */
  function ShortHourStore(day: int, author: UserId): Store
  {
    Store([Event(1, "Standup", None, day, "9:00", "9:30", author)], 2)
  }

  /** The string facts about the two slots: each is well ordered, and as strings they do not overlap. */
  lemma MixedPaddingSlots()
    ensures IsTime("9:00") && IsTime("9:30") && Less("9:00", "9:30")
    ensures IsTime("09:00") && IsTime("09:30") && Less("09:00", "09:30")
    ensures ClockMinutes("9:00") == ClockMinutes("09:00") && ClockMinutes("9:30") == ClockMinutes("09:30")
    ensures !Overlap("09:00", "09:30", "9:00", "9:30")
  {
    LessStep("9:00", "9:30");
    assert "9:00"[1..] == ":00" && "9:30"[1..] == ":30";
    LessStep(":00", ":30");
    LessStep("09:00", "09:30");
    assert "09:00"[1..] == "9:00" && "09:30"[1..] == "9:30";
    LessStep("9:00", "09:30");
  }

  lemma StandupTitleFits()
    ensures Utf16Length("Standup") == 7
  {
    assert PlainText("Standup");
    PlainTextLengthsAgree("Standup");
  }

  /** The one-digit-hour store is one the protocol can reach: it keeps the invariant. */
  lemma ShortHourStoreAdmitted(day: int, author: UserId)
    requires Midnight(day) == day
    ensures StoreInvariant(ShortHourStore(day, author))
  {
    MixedPaddingSlots();
    StandupTitleFits();
    var e := ShortHourStore(day, author).events[0];
    assert WellFormed(e) && Less(e.startTime, e.endTime);
  }

  /**
   * Mixed padding lets one clock slot be booked twice: beside a stored
   * `9:00`-`9:30`, a create for `09:00`-`09:30` on that day covers the same
   * minutes, yet `"09:30" > "9:00"` is false as strings, so the scan finds no
   * overlap and the event is created.
   */
  lemma MixedPaddingDoubleBooks(req: EventRequest, now: int, author: UserId)
    requires EventRequestValid(req, now) && FitsSchema(req)
    requires req.startTime == "09:00" && req.endTime == "09:30"
    ensures var s := ShortHourStore(Midnight(req.date.instant), author);
            && StoreInvariant(s)
            && s.events[0].date == Midnight(req.date.instant)
            && ClockMinutes(s.events[0].startTime) == ClockMinutes(req.startTime)
            && ClockMinutes(s.events[0].endTime) == ClockMinutes(req.endTime)
            && CreateStep(s, req, now, author).outcome.Created?
  {
    var day := Midnight(req.date.instant);
    var s := ShortHourStore(day, author);
    MidnightIdempotent(req.date.instant);
    ShortHourStoreAdmitted(day, author);
    MixedPaddingSlots();
    assert ClearOfDay(s.events, day, req.startTime, req.endTime);
    CreateAdmitsIffNoSameDayOverlap(s, req, now, author);
  }

  // ---------------------------------------------------------------------------
  // The worked scenario

  /** The one event of the worked scenario: 09:00-10:00 on `day`, id 1. */
  function ScenarioStore(day: int, author: UserId): Store
  {
    Store([Event(1, "Standup", None, day, "09:00", "10:00", author)], 2)
  }

  /** Against 09:00-10:00, a request for 09:30-10:30 on the same day is refused as booked. */
  lemma ScenarioOverlapRefused(req: EventRequest, now: int, author: UserId)
    requires EventRequestValid(req, now)
    requires req.startTime == "09:30" && req.endTime == "10:30"
    ensures CreateStep(ScenarioStore(Midnight(req.date.instant), author), req, now, author).outcome == Conflict
  {
    var day := Midnight(req.date.instant);
    var s := ScenarioStore(day, author);
    LessStep("09:30", "10:30");
    LessStep("09:30", "10:00");
    LessStep("09:00", "10:30");
    assert Overlap(req.startTime, req.endTime, s.events[0].startTime, s.events[0].endTime);
    assert s.events[0] in SameDay(s.events, day, None);
  }

  /** Against 09:00-10:00, the back-to-back request 10:00-11:00 passes the scan. */
  lemma ScenarioBackToBackAdmitted(req: EventRequest, now: int, author: UserId)
    requires EventRequestValid(req, now)
    requires req.startTime == "10:00" && req.endTime == "11:00"
    ensures var day := Midnight(req.date.instant);
            CreateStep(ScenarioStore(day, author), req, now, author).outcome ==
              if FitsSchema(req) then Created(NewEvent(2, req, day, author)) else SchemaRejected
  {
    var day := Midnight(req.date.instant);
    var s := ScenarioStore(day, author);
    assert Less("10:00", "11:00") by {
      LessStep("10:00", "11:00");
      assert "10:00"[1..] == "0:00" && "11:00"[1..] == "1:00";
      LessStep("0:00", "1:00");
    }
    TouchingRangesDoNotOverlap("10:00", "11:00", "09:00", "10:00");
    assert SameDay(s.events, day, None) == s.events;
    assert !ConflictsWith(s.events, req.startTime, req.endTime);
    CreateAndUpdateCheckSameFields(2, req, day, author);
  }

  /** A request on the next day passes the scan whatever its times. */
  lemma ScenarioNextDayAdmitted(req: EventRequest, now: int, author: UserId, day: int)
    requires EventRequestValid(req, now) && Less(req.startTime, req.endTime)
    requires Midnight(req.date.instant) == day + MsPerDay
    ensures CreateStep(ScenarioStore(day, author), req, now, author).outcome ==
              if FitsSchema(req) then Created(NewEvent(2, req, day + MsPerDay, author)) else SchemaRejected
  {
    OtherDaysNeverConflict(ScenarioStore(day, author), req, now, author);
  }

  /** Moving event 1 itself to 08:00-09:30 on its day passes the scan: it is not checked against itself. */
  lemma ScenarioMoveSelfAdmitted(req: EventRequest, now: int, author: UserId)
    requires EventRequestValid(req, now)
    requires req.startTime == "08:00" && req.endTime == "09:30"
    ensures var day := Midnight(req.date.instant);
            var s := ScenarioStore(day, author);
            UpdateStep(s, 1, req, now).outcome ==
              if FitsSchema(req) then Updated(Revise(s.events[0], req, day)) else SchemaRejected
  {
    var s := ScenarioStore(Midnight(req.date.instant), author);
    assert Less("08:00", "09:30") by {
      LessStep("08:00", "09:30");
      assert "08:00"[1..] == "8:00" && "09:30"[1..] == "9:30";
      LessStep("8:00", "9:30");
    }
    assert SameDay(s.events, Midnight(req.date.instant), Some(1)) == [];
    assert IndexOfId(s.events, 1) == Some(0);
  }

  // ---------------------------------------------------------------------------
  // Listing

  /** The order of `getEvents`: by date, then by start time as a string. */
  predicate Precedes(a: Event, b: Event)
  {
    a.date < b.date || (a.date == b.date && !Less(b.startTime, a.startTime))
  }

  lemma PrecedesTotal(a: Event, b: Event)
    ensures Precedes(a, b) || Precedes(b, a)
  {
    if a.date == b.date && Less(b.startTime, a.startTime) {
      LessAsymmetric(b.startTime, a.startTime);
    }
  }

  lemma PrecedesTransitive(a: Event, b: Event, c: Event)
    requires Precedes(a, b) && Precedes(b, c)
    ensures Precedes(a, c)
  {
    if a.date == c.date && Less(c.startTime, a.startTime) {
      if a.startTime == b.startTime {
      } else {
        LessTotal(a.startTime, b.startTime);
        LessTransitive(c.startTime, a.startTime, b.startTime);
      }
    }
  }

  predicate SortedByDateTime(s: seq<Event>)
  {
    forall i, j :: 0 <= i < j < |s| ==> Precedes(s[i], s[j])
  }

  /** An event that precedes the head of a sorted listing may be put in front of it. */
  lemma PrependKeepsSorted(e: Event, s: seq<Event>)
    requires SortedByDateTime(s) && s != [] && Precedes(e, s[0])
    ensures SortedByDateTime([e] + s)
  {
    forall j | 0 < j < |s| ensures Precedes(e, s[j]) {
      PrecedesTransitive(e, s[0], s[j]);
    }
    var r := [e] + s;
    assert forall j :: 0 < j < |r| ==> r[j] == s[j - 1];
  }

  /** The head of a sorted listing stays in front of the rest with a later event inserted. */
  lemma HeadStaysFirst(e: Event, s: seq<Event>, rest: seq<Event>)
    requires SortedByDateTime(s) && s != [] && !Precedes(e, s[0])
    requires SortedByDateTime(rest) && multiset(rest) == multiset(s[1..]) + multiset{e}
    ensures SortedByDateTime([s[0]] + rest)
  {
    PrecedesTotal(e, s[0]);
    forall j | 0 <= j < |rest| ensures Precedes(s[0], rest[j]) {
      var x := rest[j];
      assert x in multiset(rest);
      if x != e {
        assert x in multiset(s[1..]);
        var i :| 0 <= i < |s[1..]| && s[1..][i] == x;
        assert s[i + 1] == x;
      }
    }
    var r := [s[0]] + rest;
    assert forall j :: 0 < j < |r| ==> r[j] == rest[j - 1];
  }

  function Insert(e: Event, s: seq<Event>): (r: seq<Event>)
    requires SortedByDateTime(s)
    ensures multiset(r) == multiset(s) + multiset{e}
    ensures SortedByDateTime(r)
  {
    if s == [] then [e]
    else if Precedes(e, s[0]) then
      PrependKeepsSorted(e, s);
      [e] + s
    else
      var rest := Insert(e, s[1..]);
      HeadStaysFirst(e, s, rest);
      assert s == [s[0]] + s[1..];
      [s[0]] + rest
  }

  /** The `.sort({ date: 1, startTime: 1 })` of the query result: a permutation in that order. */
  function SortByDateTime(s: seq<Event>): (r: seq<Event>)
    ensures multiset(r) == multiset(s)
    ensures SortedByDateTime(r)
  {
    if s == [] then []
    else
      assert s == [s[0]] + s[1..];
      Insert(s[0], SortByDateTime(s[1..]))
  }

  // ---------------------------------------------------------------------------
  // The store as an object updated in place

  /** Serves the controller's requests against an events collection held in memory. */
  class EventStore {
    var events: seq<Event>
    var nextId: EventId

    function Snapshot(): Store
      reads this
    {
      Store(events, nextId)
    }

    ghost predicate Valid()
      reads this
    {
      StoreInvariant(Snapshot())
    }

    constructor ()
      ensures Valid() && Snapshot() == Store([], 0)
    {
      events := [];
      nextId := 0;
    }

    /** The loop of `createEvent` and `updateEvent`: stop at the first event that overlaps. */
    static method ScanForConflict(existing: seq<Event>, start: string, end: string) returns (conflict: bool)
      ensures conflict <==> ConflictsWith(existing, start, end)
    {
      for i := 0 to |existing|
        invariant forall k :: 0 <= k < i ==> !Overlap(start, end, existing[k].startTime, existing[k].endTime)
      {
        if Overlap(start, end, existing[i].startTime, existing[i].endTime) {
          return true;
        }
      }
      return false;
    }

    method Create(req: EventRequest, now: int, author: UserId) returns (o: Outcome)
      requires Valid()
      modifies this
      ensures Valid()
      ensures Reply(o, Snapshot()) == CreateStep(old(Snapshot()), req, now, author)
    {
      ghost var s0 := Snapshot();
      CreatePreservesInvariant(s0, req, now, author);
      var err := EventValidation(req, now);
      if err.Some? {
        return ValidationFailed(err.value);
      }
      if !Less(req.startTime, req.endTime) {
        return InvalidRange;
      }
      var day := Midnight(req.date.instant);
      var existing := SameDay(events, day, None);
      var clash := ScanForConflict(existing, req.startTime, req.endTime);
      if clash {
        return Conflict;
      }
      var e := NewEvent(nextId, req, day, author);
      if !WellFormed(e) {
        return SchemaRejected;
      }
      events := events + [e];
      nextId := nextId + 1;
      o := Created(e);
    }

    method Update(id: EventId, req: EventRequest, now: int) returns (o: Outcome)
      requires Valid()
      modifies this
      ensures Valid()
      ensures Reply(o, Snapshot()) == UpdateStep(old(Snapshot()), id, req, now)
    {
      ghost var s0 := Snapshot();
      UpdatePreservesInvariant(s0, id, req, now);
      var err := EventValidation(req, now);
      if err.Some? {
        assert UpdateStep(s0, id, req, now) == Reply(ValidationFailed(err.value), s0);
        return ValidationFailed(err.value);
      }
      if !Less(req.startTime, req.endTime) {
        assert UpdateStep(s0, id, req, now) == Reply(InvalidRange, s0);
        return InvalidRange;
      }
      var day := Midnight(req.date.instant);
      var existing := SameDay(events, day, Some(id));
      var clash := ScanForConflict(existing, req.startTime, req.endTime);
      if clash {
        assert UpdateStep(s0, id, req, now) == Reply(Conflict, s0);
        return Conflict;
      }
      if !FitsSchema(req) {
        assert UpdateStep(s0, id, req, now) == Reply(SchemaRejected, s0);
        return SchemaRejected;
      }
      var found := IndexOfId(events, id);
      if found.None? {
        assert UpdateStep(s0, id, req, now) == Reply(NotFound, s0);
        return NotFound;
      }
      var e := Revise(events[found.value], req, day);
      assert UpdateStep(s0, id, req, now) == Reply(Updated(e), Store(events[found.value := e], nextId));
      events := events[found.value := e];
      o := Updated(e);
    }

    method Delete(id: EventId) returns (o: Outcome)
      requires Valid()
      modifies this
      ensures Valid()
      ensures Reply(o, Snapshot()) == DeleteStep(old(Snapshot()), id)
    {
      ghost var s0 := Snapshot();
      DeletePreservesInvariant(s0, id);
      var found := IndexOfId(events, id);
      if found.None? {
        return NotFound;
      }
      var k := found.value;
      events := events[..k] + events[k + 1..];
      o := Deleted;
    }

    /**
     * `getEvents`: with a date, exactly the events of that day; without, all
     * events; in either case ordered by date and then start time.
     */
    method GetEvents(date: Option<int>) returns (r: seq<Event>)
      ensures SortedByDateTime(r)
      ensures date.None? ==> multiset(r) == multiset(events)
      ensures date.Some? ==> forall e :: e in r <==> e in events && e.date == Midnight(date.value)
      ensures date.Some? ==> multiset(r) == multiset(SameDay(events, Midnight(date.value), None))
    {
      var selected := if date.Some? then SameDay(events, Midnight(date.value), None) else events;
      r := SortByDateTime(selected);
      assert forall e :: e in r <==> e in multiset(r);
      assert forall e :: e in selected <==> e in multiset(selected);
    }

    /** `getEvent`: the event with that id, or None for a 404. */
    method GetEvent(id: EventId) returns (r: Option<Event>)
      ensures r.Some? ==> r.value in events && r.value.id == id
      ensures r.None? <==> forall e :: e in events ==> e.id != id
    {
      var found := IndexOfId(events, id);
      r := if found.Some? then Some(events[found.value]) else None;
    }
  }
}
