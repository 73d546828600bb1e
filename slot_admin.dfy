/**
 * The administrator's side of the slot handlers: the availability listing, creating slots one
 * at a time or in bulk, deleting them one at a time or in bulk, and cancelling a booking.
 */
module SlotAdmin {
  import opened Wrappers
  import opened JsText
  import opened Ordering
  import opened Tables
  import opened Availability
  import SlotBooking
  import Database

  /** The name of the student a slot is booked by, when that student exists (the LEFT JOIN on Students). */
  function BookerName(db: Db, s: Slot): Option<string> {
    if s.bookedBy.Some? && s.bookedBy.value in db.students then Some(db.students[s.bookedBy.value].name) else None
  }

  /** No two slots start at the same time. */
  predicate SlotTimesUnique(db: Db) {
    forall a, b :: a in db.slots && b in db.slots && db.slots[a].time == db.slots[b].time ==> a == b
  }

  // ---------------------------------------------------------------- listing

  /** The availability listing: the listed slots, ordered by start time. */
  function AvailableListing(db: Db, now: Time): (r: seq<int>)
    ensures forall id :: id in r <==> id in db.slots && Listed(db.slots[id], now)
    ensures Distinct(r) && SortedBy(r, SlotTime(db))
  {
    SortBy((set id | id in db.slots && Listed(db.slots[id], now)), SlotTime(db))
  }

  /** Every slot a student could book right now is in the listing, and only free slots are. */
  lemma ListingCoversBookable(db: Db, now: Time, sid: int)
    ensures sid in db.slots && Bookable(db.slots[sid], now) ==> sid in AvailableListing(db, now)
    ensures sid in AvailableListing(db, now) ==> !db.slots[sid].isBooked
  {
    if sid in db.slots && Bookable(db.slots[sid], now) {
      BookableIsListed(db.slots[sid], now);
    }
  }

  // ---------------------------------------------------------------- createSlot

  datatype CreateOutcome = FieldsRequired | DuplicateSlot | CreateFailed | Created(slotId: int)

  function CreateStatus(o: CreateOutcome): int {
    match o
    case FieldsRequired => 400
    case DuplicateSlot => 400
    case CreateFailed => 500
    case Created(_) => 201
  }

  /**
   * Creating one slot. `when` is the time `new Date(slotDateTime)` denotes, `None` for an invalid
   * date, which the driver then refuses. The interviewer is stored as given and a falsy meeting
   * link as NULL. Nothing compares the time with the clock.
   */
  function CreateSlotEffect(db: Db, slotDateTime: JsValue, when: Option<Time>, interviewer: JsValue, meetingLink: JsValue)
    : Effect<CreateOutcome>
  {
    if !Truthy(slotDateTime) || !Truthy(interviewer) then Effect(FieldsRequired, db)
    else if when.None? then Effect(CreateFailed, db)
    else if SlotsAt(db, when.value) != {} then Effect(DuplicateSlot, db)
    else
      var link := if Truthy(meetingLink) then Some(TextOf(meetingLink)) else None;
      var r := InsertSlot(db, when.value, Some(TextOf(interviewer)), link);
      Effect(Created(r.id), r.db)
  }

  method CreateSlot(store: Database.Store, slotDateTime: JsValue, when: Option<Time>, interviewer: JsValue, meetingLink: JsValue)
    returns (o: CreateOutcome)
    modifies store
    ensures Effect(o, store.State()) == CreateSlotEffect(old(store.State()), slotDateTime, when, interviewer, meetingLink)
  {
    if !Truthy(slotDateTime) || !Truthy(interviewer) {
      return FieldsRequired;
    }
    if when.None? {
      return CreateFailed;
    }
    if SlotsAt(store.State(), when.value) != {} {
      return DuplicateSlot;
    }
    var link := if Truthy(meetingLink) then Some(TextOf(meetingLink)) else None;
    var id := store.InsertSlot(when.value, Some(TextOf(interviewer)), link);
    o := Created(id);
  }

  /**
   * A created slot is new, free, at the requested time, and no other slot changes; a refused
   * request changes nothing.
   */
  lemma CreateSlotWrites(db: Db, slotDateTime: JsValue, when: Option<Time>, interviewer: JsValue, meetingLink: JsValue)
    requires IdsInRange(db)
    ensures var e := CreateSlotEffect(db, slotDateTime, when, interviewer, meetingLink);
            (!e.result.Created? ==> e.db == db) &&
            (e.result.Created? ==>
               var id := e.result.slotId;
               id !in db.slots && e.db.slots.Keys == db.slots.Keys + {id} &&
               e.db.slots[id].time == when.value && !e.db.slots[id].isBooked && e.db.slots[id].bookedBy.None? &&
               (forall s :: s in db.slots ==> e.db.slots[s] == db.slots[s]) &&
               e.db.students == db.students && e.db.interviews == db.interviews && IdsInRange(e.db))
  {
  }

  /** Creating a slot never puts two slots at one time. */
  lemma CreateSlotKeepsTimesUnique(db: Db, slotDateTime: JsValue, when: Option<Time>, interviewer: JsValue, meetingLink: JsValue)
    requires IdsInRange(db) && SlotTimesUnique(db)
    ensures SlotTimesUnique(CreateSlotEffect(db, slotDateTime, when, interviewer, meetingLink).db)
  {
    CreateSlotWrites(db, slotDateTime, when, interviewer, meetingLink);
  }

  /** A slot at a time already taken is refused with 400 and changes nothing. */
  lemma CreateSlotDuplicateRefused(db: Db, slotDateTime: JsValue, t: Time, interviewer: JsValue, meetingLink: JsValue, sid: int)
    requires Truthy(slotDateTime) && Truthy(interviewer)
    requires sid in db.slots && db.slots[sid].time == t
    ensures CreateSlotEffect(db, slotDateTime, Some(t), interviewer, meetingLink) == Effect(DuplicateSlot, db)
  {
    assert sid in SlotsAt(db, t);
  }

  /** Creating a slot keeps the database consistent. */
  lemma CreateSlotKeepsConsistent(db: Db, slotDateTime: JsValue, when: Option<Time>, interviewer: JsValue, meetingLink: JsValue)
    requires Consistent(db)
    ensures Consistent(CreateSlotEffect(db, slotDateTime, when, interviewer, meetingLink).db)
  {
    CreateSlotWrites(db, slotDateTime, when, interviewer, meetingLink);
  }

  // ---------------------------------------------------------------- createBulkSlots

  /** One element of `slots`: its fields, and the time `new Date(slotDateTime)` denotes when valid. */
  datatype SlotRequest = SlotRequest(slotDateTime: JsValue, when: Option<Time>, interviewer: JsValue, meetingLink: JsValue)

  /** Why one element was not created. */
  datatype ItemFailure = DateRequired | InterviewerRequired | InvalidDate | NotInFuture | AlreadyExists | NotText

  /** An entry of `errors`: the element's position counted from 1, and why. */
  datatype ItemError = ItemError(index: nat, failure: ItemFailure)

  datatype CreateTally = CreateTally(successful: nat, failed: nat, duplicates: nat, errors: seq<ItemError>)

  const NoneCreated: CreateTally := CreateTally(0, 0, 0, [])

  /** What one element does: a new slot, a duplicate, or a failure. */
  datatype ItemOutcome = Added(db: Db) | Duplicate | Failed(failure: ItemFailure)

  /** A meeting link as `meetingLink?.trim() || null` computes it, `None` also for no link. */
  function TrimmedLink(v: JsValue): Option<string>
    requires !v.Num?
  {
    if v.Str? && Trim(v.s) != "" then Some(Trim(v.s)) else None
  }

  /**
   * One element, checked in the handler's order. Calling `trim` on an interviewer or a meeting
   * link that is a number throws, which counts as a failure.
   */
  function CreateItem(db: Db, r: SlotRequest, now: Time): ItemOutcome {
    if !Truthy(r.slotDateTime) then Failed(DateRequired)
    else if !Truthy(r.interviewer) then Failed(InterviewerRequired)
    else if r.when.None? then Failed(InvalidDate)
    else if r.when.value <= now then Failed(NotInFuture)
    else if SlotsAt(db, r.when.value) != {} then Duplicate
    else if !r.interviewer.Str? || r.meetingLink.Num? then Failed(NotText)
    else Added(InsertSlot(db, r.when.value, Some(Trim(r.interviewer.s)), TrimmedLink(r.meetingLink)).db)
  }

  /** The tally after one element at position `index` (counted from 1). */
  function Count(t: CreateTally, o: ItemOutcome, index: nat): CreateTally {
    match o
    case Added(_) => t.(successful := t.successful + 1)
    case Duplicate => t.(duplicates := t.duplicates + 1, errors := t.errors + [ItemError(index, AlreadyExists)])
    case Failed(f) => t.(failed := t.failed + 1, errors := t.errors + [ItemError(index, f)])
  }

  /**
   * Where the loop over `slots` ends: the database and the tally, or `aborted` when a null
   * element was met, whose field access throws again inside the error handler.
   */
  datatype CreateRun = CreateRun(db: Db, tally: CreateTally, aborted: bool)

  /** The loop from position `i` on, starting from `db` and `t`. */
  function CreateFrom(db: Db, items: seq<Option<SlotRequest>>, i: nat, t: CreateTally, now: Time): CreateRun
    requires i <= |items|
    decreases |items| - i
  {
    if i == |items| then CreateRun(db, t, false)
    else match items[i]
      case None => CreateRun(db, t, true)
      case Some(r) =>
        var o := CreateItem(db, r, now);
        CreateFrom(if o.Added? then o.db else db, items, i + 1, Count(t, o, i + 1), now)
  }

  datatype BulkCreateOutcome = SlotsRequired | SlotsNotArray | SlotsEmpty | TooManySlots | BulkFailed | BulkCreated(summary: CreateTally)

  const MaxBulkSlots: nat := 500

  /** The response status: 400 when nothing was created, 207 when some element was not, else 200. */
  function BulkCreateStatus(o: BulkCreateOutcome): int {
    match o
    case BulkCreated(t) => if t.successful == 0 then 400 else if t.failed > 0 || t.duplicates > 0 then 207 else 200
    case BulkFailed => 500
    case _ => 400
  }

  function CreateBulkSlotsEffect(db: Db, slots: JsArray<Option<SlotRequest>>, now: Time): Effect<BulkCreateOutcome> {
    match slots
    case Falsy => Effect(SlotsRequired, db)
    case NonArray => Effect(SlotsNotArray, db)
    case Items(items) =>
      if |items| == 0 then Effect(SlotsEmpty, db)
      else if |items| > MaxBulkSlots then Effect(TooManySlots, db)
      else
        var run := CreateFrom(db, items, 0, NoneCreated, now);
        Effect(if run.aborted then BulkFailed else BulkCreated(run.tally), run.db)
  }

  method CreateBulkSlots(store: Database.Store, slots: JsArray<Option<SlotRequest>>, now: Time) returns (o: BulkCreateOutcome)
    modifies store
    ensures Effect(o, store.State()) == CreateBulkSlotsEffect(old(store.State()), slots, now)
  {
    if slots.Falsy? {
      return SlotsRequired;
    }
    if slots.NonArray? {
      return SlotsNotArray;
    }
    var items := slots.items;
    if |items| == 0 {
      return SlotsEmpty;
    }
    if |items| > MaxBulkSlots {
      return TooManySlots;
    }
    var tally := NoneCreated;
    var i := 0;
    while i < |items|
      invariant 0 <= i <= |items|
      invariant CreateFrom(store.State(), items, i, tally, now) == CreateFrom(old(store.State()), items, 0, NoneCreated, now)
    {
      if items[i].None? {
        return BulkFailed;
      }
      var r := items[i].value;
      if !Truthy(r.slotDateTime) {
        tally := Count(tally, Failed(DateRequired), i + 1);
      } else if !Truthy(r.interviewer) {
        tally := Count(tally, Failed(InterviewerRequired), i + 1);
      } else if r.when.None? {
        tally := Count(tally, Failed(InvalidDate), i + 1);
      } else if r.when.value <= now {
        tally := Count(tally, Failed(NotInFuture), i + 1);
      } else if SlotsAt(store.State(), r.when.value) != {} {
        tally := Count(tally, Duplicate, i + 1);
      } else if !r.interviewer.Str? || r.meetingLink.Num? {
        tally := Count(tally, Failed(NotText), i + 1);
      } else {
        ghost var before := store.State();
        var id := store.InsertSlot(r.when.value, Some(Trim(r.interviewer.s)), TrimmedLink(r.meetingLink));
        tally := Count(tally, Added(store.State()), i + 1);
        assert CreateItem(before, r, now) == Added(store.State());
      }
      i := i + 1;
    }
    o := BulkCreated(tally);
  }

  /** Every element is counted once: as created, failed or duplicate; each uncreated one leaves an error. */
  lemma {:induction false} CreateFromCounts(db: Db, items: seq<Option<SlotRequest>>, i: nat, t: CreateTally, now: Time)
    requires i <= |items|
    requires |t.errors| == t.failed + t.duplicates
    ensures var run := CreateFrom(db, items, i, t, now);
            |run.tally.errors| == run.tally.failed + run.tally.duplicates &&
            (!run.aborted ==> run.tally.successful + run.tally.failed + run.tally.duplicates ==
                              t.successful + t.failed + t.duplicates + (|items| - i))
    decreases |items| - i
  {
    if i < |items| && items[i].Some? {
      var o := CreateItem(db, items[i].value, now);
      CreateFromCounts(if o.Added? then o.db else db, items, i + 1, Count(t, o, i + 1), now);
    }
  }

  /** One element adds at most a free slot in the future at a time no slot has, and changes nothing else. */
  lemma CreateItemWrites(db: Db, r: SlotRequest, now: Time)
    requires IdsInRange(db) && SlotTimesUnique(db)
    ensures var o := CreateItem(db, r, now);
            o.Added? ==>
              IdsInRange(o.db) && SlotTimesUnique(o.db) &&
              o.db.students == db.students && o.db.interviews == db.interviews &&
              db.nextSlotId !in db.slots && o.db.slots == db.slots[db.nextSlotId := o.db.slots[db.nextSlotId]] &&
              o.db.slots[db.nextSlotId].time > now && !o.db.slots[db.nextSlotId].isBooked &&
              o.db.slots[db.nextSlotId].bookedBy.None?
  {
    var o := CreateItem(db, r, now);
    if o.Added? {
      forall a | a in db.slots ensures db.slots[a].time != r.when.value {
        assert a !in SlotsAt(db, r.when.value);
      }
    }
  }

  /** The loop keeps slot times distinct, adds only free slots in the future, and changes no existing slot. */
  lemma {:induction false} CreateFromWrites(db: Db, items: seq<Option<SlotRequest>>, i: nat, t: CreateTally, now: Time)
    requires i <= |items|
    requires IdsInRange(db) && SlotTimesUnique(db)
    ensures var run := CreateFrom(db, items, i, t, now);
            IdsInRange(run.db) && SlotTimesUnique(run.db) &&
            run.db.students == db.students && run.db.interviews == db.interviews &&
            db.slots.Keys <= run.db.slots.Keys &&
            (forall s :: s in db.slots ==> run.db.slots[s] == db.slots[s]) &&
            (forall s :: s in run.db.slots && s !in db.slots ==>
               run.db.slots[s].time > now && !run.db.slots[s].isBooked && run.db.slots[s].bookedBy.None?)
    decreases |items| - i
  {
    if i < |items| && items[i].Some? {
      var o := CreateItem(db, items[i].value, now);
      var next := if o.Added? then o.db else db;
      CreateItemWrites(db, items[i].value, now);
      CreateFromWrites(next, items, i + 1, Count(t, o, i + 1), now);
    }
  }

  /**
   * A completed bulk request accounts for every element, answers 200 exactly when all were
   * created and 400 exactly when none was, and adds only free future slots at distinct times.
   */
  lemma BulkCreateSummary(db: Db, slots: JsArray<Option<SlotRequest>>, now: Time)
    requires IdsInRange(db) && SlotTimesUnique(db)
    ensures var e := CreateBulkSlotsEffect(db, slots, now);
            SlotTimesUnique(e.db) &&
            (forall s :: s in db.slots ==> s in e.db.slots && e.db.slots[s] == db.slots[s]) &&
            (forall s :: s in e.db.slots && s !in db.slots ==> e.db.slots[s].time > now && !e.db.slots[s].isBooked) &&
            (e.result.BulkCreated? ==>
               var tl := e.result.summary;
               tl.successful + tl.failed + tl.duplicates == |slots.items| &&
               |tl.errors| == tl.failed + tl.duplicates &&
               (BulkCreateStatus(e.result) == 200 <==> tl.successful == |slots.items|) &&
               (BulkCreateStatus(e.result) == 400 <==> tl.successful == 0))
  {
    if slots.Items? && 0 < |slots.items| <= MaxBulkSlots {
      CreateFromCounts(db, slots.items, 0, NoneCreated, now);
      CreateFromWrites(db, slots.items, 0, NoneCreated, now);
    }
  }

  /** A missing, non-array, empty or over-long `slots` is refused with 400 and changes nothing. */
  lemma BulkCreateRejectsShape(db: Db, slots: JsArray<Option<SlotRequest>>, now: Time)
    requires !slots.Items? || |slots.items| == 0 || |slots.items| > MaxBulkSlots
    ensures var e := CreateBulkSlotsEffect(db, slots, now);
            e.db == db && BulkCreateStatus(e.result) == 400
  {
  }

  // ---------------------------------------------------------------- deleteSlot

  datatype DeleteOutcome =
    | InvalidSlotId
    | DeleteFailed
    | SlotNotFound
    | InUse(markedBooked: bool, studentName: Option<string>, interviewStatus: Option<Status>)
    | NotDeleted
    | Deleted(slotId: int, time: Time, interviewer: Option<string>)

  function DeleteStatus(o: DeleteOutcome): int {
    match o
    case InvalidSlotId => 400
    case DeleteFailed => 500
    case SlotNotFound => 404
    case InUse(_, _, _) => 400
    case NotDeleted => 400
    case Deleted(_, _, _) => 200
  }

  /**
   * Deleting one slot named by a route parameter. The slot's first row joined with the
   * interviews that hold it decides whether an interview refers to it.
   */
  function DeleteSlotEffect(db: Db, idText: string): Effect<DeleteOutcome> {
    match ParseInt(idText)
    case None => Effect(InvalidSlotId, db)
    case Some(sid) =>
      if sid <= 0 then Effect(InvalidSlotId, db)
      else if !IsInt32(sid) then Effect(DeleteFailed, db)
      else if sid !in db.slots then Effect(SlotNotFound, db)
      else
        var slot := db.slots[sid];
        var holder := First(InterviewsAtSlot(db, sid));
        if slot.isBooked || IdPresent(slot.bookedBy) || IdPresent(holder) then
          var status := if holder.Some? then Some(db.interviews[holder.value].status) else None;
          Effect(InUse(slot.isBooked, BookerName(db, slot), status), db)
        else
          var w := DeleteSlotIfFree(db, sid);
          if !w.affected then Effect(NotDeleted, db)
          else Effect(Deleted(sid, slot.time, slot.interviewer), w.db)
  }

  method DeleteSlot(store: Database.Store, idText: string) returns (o: DeleteOutcome)
    modifies store
    ensures Effect(o, store.State()) == DeleteSlotEffect(old(store.State()), idText)
  {
    var parsed := ParseInt(idText);
    if parsed.None? || parsed.value <= 0 {
      return InvalidSlotId;
    }
    var sid := parsed.value;
    if !IsInt32(sid) {
      return DeleteFailed;
    }
    var db := store.State();
    if sid !in db.slots {
      return SlotNotFound;
    }
    var slot := db.slots[sid];
    var holder := First(InterviewsAtSlot(db, sid));
    if slot.isBooked || IdPresent(slot.bookedBy) || IdPresent(holder) {
      var status := if holder.Some? then Some(db.interviews[holder.value].status) else None;
      return InUse(slot.isBooked, BookerName(db, slot), status);
    }
    var affected := store.DeleteSlotIfFree(sid);
    if !affected {
      return NotDeleted;
    }
    o := Deleted(sid, slot.time, slot.interviewer);
  }

  /**
   * A slot is deleted exactly when its id is a positive 32-bit integer, it exists, it is neither
   * marked booked nor booked by anyone, and no interview refers to it; the delete removes that
   * slot and nothing else, and every refusal changes nothing.
   */
  lemma DeleteSlotIff(db: Db, idText: string, sid: int)
    requires IdsInRange(db)
    requires ParseInt(idText) == Some(sid)
    ensures var e := DeleteSlotEffect(db, idText);
            (e.result.Deleted? <==>
               0 < sid && IsInt32(sid) && sid in db.slots && !db.slots[sid].isBooked &&
               !IdPresent(db.slots[sid].bookedBy) && InterviewsAtSlot(db, sid) == {}) &&
            (e.result.Deleted? ==> e.db == db.(slots := db.slots - {sid})) &&
            (!e.result.Deleted? ==> e.db == db)
  {
  }

  /** An id that is not a number or not positive is refused with 400. */
  lemma DeleteSlotRejectsBadId(db: Db, idText: string)
    requires ParseInt(idText).None? || ParseInt(idText).value <= 0
    ensures DeleteSlotEffect(db, idText) == Effect(InvalidSlotId, db) && DeleteStatus(InvalidSlotId) == 400
  {
  }

  /** Removing a free slot keeps the database consistent: no interview can hold a free slot. */
  lemma DeleteFreeSlotKeepsConsistent(db: Db, sid: int)
    requires Consistent(db)
    ensures Consistent(DeleteSlotIfFree(db, sid).db)
  {
    var w := DeleteSlotIfFree(db, sid);
    if w.affected {
      forall i | i in db.interviews && db.interviews[i].slotId.Some?
        ensures db.interviews[i].slotId.value != sid
      {
        assert db.slots[db.interviews[i].slotId.value].isBooked;
      }
    }
  }

  lemma DeleteSlotKeepsConsistent(db: Db, idText: string)
    requires Consistent(db)
    ensures Consistent(DeleteSlotEffect(db, idText).db)
  {
    if ParseInt(idText).Some? {
      DeleteFreeSlotKeepsConsistent(db, ParseInt(idText).value);
    }
  }

  // ---------------------------------------------------------------- deleteBulkSlots

  datatype DeleteFailure = BadSlotId | OutOfRange | NoSuchSlot | SlotBooked

  /** An entry of `errors`: the id as given (as parsed, for a booked slot) and why. */
  datatype DeleteError = DeleteError(slotId: JsValue, failure: DeleteFailure)

  datatype DeleteTally = DeleteTally(successful: nat, failed: nat, booked: nat, errors: seq<DeleteError>)

  const NoneDeleted: DeleteTally := DeleteTally(0, 0, 0, [])

  /** The tally with one more failure, this one leaving no error entry. */
  function OneMoreFailed(t: DeleteTally): DeleteTally {
    t.(failed := t.failed + 1)
  }

  /** What one id does to the database and to the tally. */
  function DeleteItem(db: Db, id: JsValue, t: DeleteTally): (Db, DeleteTally) {
    match ParseIntValue(id)
    case None => (db, t.(failed := t.failed + 1, errors := t.errors + [DeleteError(id, BadSlotId)]))
    case Some(sid) =>
      if !IsInt32(sid) then (db, t.(failed := t.failed + 1, errors := t.errors + [DeleteError(id, OutOfRange)]))
      else if sid !in db.slots then (db, t.(failed := t.failed + 1, errors := t.errors + [DeleteError(id, NoSuchSlot)]))
      else if db.slots[sid].isBooked then (db, t.(booked := t.booked + 1, errors := t.errors + [DeleteError(Num(sid), SlotBooked)]))
      else
        var w := DeleteSlotIfFree(db, sid);
        (w.db, if w.affected then t.(successful := t.successful + 1) else OneMoreFailed(t))
  }

  /** The loop over the ids from position `i` on. */
  function DeleteFrom(db: Db, ids: seq<JsValue>, i: nat, t: DeleteTally): (Db, DeleteTally)
    requires i <= |ids|
    decreases |ids| - i
  {
    if i == |ids| then (db, t)
    else
      var next := DeleteItem(db, ids[i], t);
      DeleteFrom(next.0, ids, i + 1, next.1)
  }

  datatype BulkDeleteOutcome = IdsRequired | BulkDeleted(summary: DeleteTally)

  function BulkDeleteStatus(o: BulkDeleteOutcome): int {
    if o.IdsRequired? then 400 else 200
  }

  function DeleteBulkSlotsEffect(db: Db, slotIds: JsArray<JsValue>): Effect<BulkDeleteOutcome> {
    if !slotIds.Items? || |slotIds.items| == 0 then Effect(IdsRequired, db)
    else
      var r := DeleteFrom(db, slotIds.items, 0, NoneDeleted);
      Effect(BulkDeleted(r.1), r.0)
  }

  method DeleteBulkSlots(store: Database.Store, slotIds: JsArray<JsValue>) returns (o: BulkDeleteOutcome)
    modifies store
    ensures Effect(o, store.State()) == DeleteBulkSlotsEffect(old(store.State()), slotIds)
  {
    if !slotIds.Items? || |slotIds.items| == 0 {
      return IdsRequired;
    }
    var ids := slotIds.items;
    var tally := NoneDeleted;
    var i := 0;
    while i < |ids|
      invariant 0 <= i <= |ids|
      invariant DeleteFrom(store.State(), ids, i, tally) == DeleteFrom(old(store.State()), ids, 0, NoneDeleted)
    {
      ghost var before, counted := store.State(), tally;
      var id := ids[i];
      var parsed := ParseIntValue(id);
      if parsed.None? {
        tally := tally.(failed := tally.failed + 1, errors := tally.errors + [DeleteError(id, BadSlotId)]);
      } else if !IsInt32(parsed.value) {
        tally := tally.(failed := tally.failed + 1, errors := tally.errors + [DeleteError(id, OutOfRange)]);
      } else {
        var sid := parsed.value;
        var db := store.State();
        if sid !in db.slots {
          tally := tally.(failed := tally.failed + 1, errors := tally.errors + [DeleteError(id, NoSuchSlot)]);
        } else if db.slots[sid].isBooked {
          tally := tally.(booked := tally.booked + 1, errors := tally.errors + [DeleteError(Num(sid), SlotBooked)]);
        } else {
          var affected := store.DeleteSlotIfFree(sid);
          if affected {
            tally := tally.(successful := tally.successful + 1);
          } else {
            tally := OneMoreFailed(tally);
          }
        }
      }
      assert (store.State(), tally) == DeleteItem(before, id, counted);
      i := i + 1;
    }
    o := BulkDeleted(tally);
  }

  /**
   * The bulk delete counts every id once, leaves an error for each id not deleted, removes only
   * free slots, keeps every booked slot as it was, and touches no other table.
   */
  lemma {:induction false} DeleteFromWrites(db: Db, ids: seq<JsValue>, i: nat, t: DeleteTally)
    requires i <= |ids|
    requires |t.errors| == t.failed + t.booked
    ensures var r := DeleteFrom(db, ids, i, t);
            r.1.successful + r.1.failed + r.1.booked == t.successful + t.failed + t.booked + (|ids| - i) &&
            |r.1.errors| == r.1.failed + r.1.booked &&
            r.0.students == db.students && r.0.interviews == db.interviews &&
            r.0.slots.Keys <= db.slots.Keys &&
            (forall s :: s in r.0.slots ==> r.0.slots[s] == db.slots[s]) &&
            (forall s :: s in db.slots && db.slots[s].isBooked ==> s in r.0.slots)
    decreases |ids| - i
  {
    if i < |ids| {
      var next := DeleteItem(db, ids[i], t);
      DeleteItemTally(db, ids[i], t);
      DeleteItemTables(db, ids[i], t);
      DeleteFromWrites(next.0, ids, i + 1, next.1);
    }
  }

  /** One id of the bulk delete counts once and leaves an error unless it deletes a slot. */
  lemma DeleteItemTally(db: Db, id: JsValue, t: DeleteTally)
    requires |t.errors| == t.failed + t.booked
    ensures var r := DeleteItem(db, id, t).1;
            r.successful + r.failed + r.booked == t.successful + t.failed + t.booked + 1 &&
            |r.errors| == r.failed + r.booked
  {
    var p := ParseIntValue(id);
    if p.Some? && IsInt32(p.value) && p.value in db.slots && !db.slots[p.value].isBooked {
      assert DeleteItem(db, id, t).1 == t.(successful := t.successful + 1);
    }
  }

  /** One id of the bulk delete removes at most one free slot and touches no other table. */
  lemma DeleteItemTables(db: Db, id: JsValue, t: DeleteTally)
    ensures var r := DeleteItem(db, id, t).0;
            r.students == db.students && r.interviews == db.interviews &&
            r.slots.Keys <= db.slots.Keys &&
            (forall s :: s in r.slots ==> r.slots[s] == db.slots[s]) &&
            (forall s :: s in db.slots && db.slots[s].isBooked ==> s in r.slots)
  {
    var p := ParseIntValue(id);
    if p.Some? && IsInt32(p.value) && p.value in db.slots && !db.slots[p.value].isBooked {
      assert DeleteItem(db, id, t).0 == db.(slots := db.slots - {p.value});
    } else {
      assert DeleteItem(db, id, t).0 == db;
    }
  }

  lemma {:induction false} DeleteFromKeepsConsistent(db: Db, ids: seq<JsValue>, i: nat, t: DeleteTally)
    requires i <= |ids|
    requires Consistent(db)
    ensures Consistent(DeleteFrom(db, ids, i, t).0)
    decreases |ids| - i
  {
    if i < |ids| {
      var next := DeleteItem(db, ids[i], t);
      var p := ParseIntValue(ids[i]);
      if p.Some? {
        DeleteFreeSlotKeepsConsistent(db, p.value);
      }
      DeleteFromKeepsConsistent(next.0, ids, i + 1, next.1);
    }
  }

  /** A completed bulk delete accounts for every id and keeps the database consistent. */
  lemma BulkDeleteSummary(db: Db, slotIds: JsArray<JsValue>)
    requires Consistent(db)
    ensures var e := DeleteBulkSlotsEffect(db, slotIds);
            Consistent(e.db) &&
            (forall s :: s in db.slots && db.slots[s].isBooked ==> s in e.db.slots && e.db.slots[s] == db.slots[s]) &&
            (e.result.BulkDeleted? ==>
               e.result.summary.successful + e.result.summary.failed + e.result.summary.booked == |slotIds.items| &&
               |e.result.summary.errors| == e.result.summary.failed + e.result.summary.booked)
  {
    if slotIds.Items? && |slotIds.items| > 0 {
      DeleteFromWrites(db, slotIds.items, 0, NoneDeleted);
      DeleteFromKeepsConsistent(db, slotIds.items, 0, NoneDeleted);
    }
  }

  // ---------------------------------------------------------------- cancelBooking

  datatype CancelOutcome = SlotIdRequired | NoBookedSlot | CancelFailed | Cancelled(slotId: int, studentName: Option<string>, reason: string)

  function CancelStatus(o: CancelOutcome): int {
    match o
    case SlotIdRequired => 400
    case NoBookedSlot => 404
    case CancelFailed => 500
    case Cancelled(_, _, _) => 200
  }

  const DefaultCancelReason: string := "Booking cancelled by admin"

  /** The notes a cancellation records: the reason given, else the default. */
  function CancelReason(reason: JsValue): string {
    if Truthy(reason) then TextOf(reason) else DefaultCancelReason
  }

  /**
   * Cancelling the booking of a slot named by a route parameter, in one transaction: the slot
   * is freed, and the first interview holding it, if any, is cancelled with the reason recorded.
   * A parameter that does not parse, or parses outside 32 bits, is refused by the driver.
   */
  function CancelBookingEffect(db: Db, slotId: string, reason: JsValue, now: Time): Effect<CancelOutcome> {
    if slotId == "" then Effect(SlotIdRequired, db)
    else
      match ParseInt(slotId)
      case None => Effect(CancelFailed, db)
      case Some(sid) =>
        if !IsInt32(sid) then Effect(CancelFailed, db)
        else if !(sid in db.slots && db.slots[sid].isBooked) then Effect(NoBookedSlot, db)
        else
          var text := CancelReason(reason);
          Effect(CancelOutcome.Cancelled(sid, BookerName(db, db.slots[sid]), text), FreeAndCancel(db, sid, text, now))
  }

  /** The transaction's two writes: the slot is freed, then the first interview holding it is cancelled. */
  function FreeAndCancel(db: Db, sid: int, text: string, now: Time): Db {
    var holder := First(InterviewsAtSlot(db, sid));
    var freed := FreeSlot(db, sid).db;
    if IdPresent(holder) then CancelInterview(freed, holder.value, text, now).db else freed
  }

  /**
   * On a consistent database, freeing a booked slot cancels exactly the interview that holds it,
   * if any, and touches nothing else.
   */
  lemma FreeAndCancelWrites(db: Db, sid: int, text: string, now: Time)
    requires Consistent(db) && sid in db.slots
    ensures var after := FreeAndCancel(db, sid, text, now);
            after.students == db.students &&
            after.slots == db.slots[sid := db.slots[sid].(isBooked := false, bookedBy := None)] &&
            after.interviews.Keys == db.interviews.Keys &&
            forall j :: j in db.interviews ==>
              after.interviews[j] ==
                if db.interviews[j].slotId == Some(sid)
                then db.interviews[j].(status := Status.Cancelled, slotId := None, notes := Some(text), updatedAt := Some(now))
                else db.interviews[j]
  {
    var holder := First(InterviewsAtSlot(db, sid));
    forall j | j in db.interviews && db.interviews[j].slotId == Some(sid)
      ensures holder == Some(j)
    {
      assert j in InterviewsAtSlot(db, sid);
    }
  }

  method CancelBooking(store: Database.Store, slotId: string, reason: JsValue, now: Time) returns (o: CancelOutcome)
    modifies store
    ensures Effect(o, store.State()) == CancelBookingEffect(old(store.State()), slotId, reason, now)
  {
    if slotId == "" {
      return SlotIdRequired;
    }
    var parsed := ParseInt(slotId);
    if parsed.None? || !IsInt32(parsed.value) {
      return CancelFailed;
    }
    var sid := parsed.value;
    var db := store.State();
    if !(sid in db.slots && db.slots[sid].isBooked) {
      return NoBookedSlot;
    }
    var holder := First(InterviewsAtSlot(db, sid));
    var name := BookerName(db, db.slots[sid]);
    var freed := store.FreeSlot(sid);
    var text := CancelReason(reason);
    if IdPresent(holder) {
      var cancelled := store.CancelInterview(holder.value, text, now);
    }
    o := CancelOutcome.Cancelled(sid, name, text);
  }

  /**
   * Only a booked slot can be cancelled (404 otherwise, nothing written). Cancelling frees the
   * slot and turns the interview holding it into a cancelled one without a slot, noting the
   * reason; its token and token expiry stay as they were, and nothing else changes.
   */
  lemma CancelWrites(db: Db, slotId: string, sid: int, reason: JsValue, now: Time)
    requires Consistent(db)
    requires ParseInt(slotId) == Some(sid) && IsInt32(sid)
    ensures var e := CancelBookingEffect(db, slotId, reason, now);
            (e.result == NoBookedSlot <==> !(sid in db.slots && db.slots[sid].isBooked)) &&
            (!e.result.Cancelled? ==> e.db == db) &&
            (e.result.Cancelled? ==>
               e.result.reason == CancelReason(reason) &&
               e.db.students == db.students &&
               e.db.slots == db.slots[sid := db.slots[sid].(isBooked := false, bookedBy := None)] &&
               e.db.interviews.Keys == db.interviews.Keys &&
               forall j :: j in db.interviews ==>
                 e.db.interviews[j] ==
                   if db.interviews[j].slotId == Some(sid)
                   then db.interviews[j].(status := Status.Cancelled, slotId := None, notes := Some(CancelReason(reason)),
                                          updatedAt := Some(now))
                   else db.interviews[j])
  {
    assert slotId != "" by { assert ParseInt(slotId).Some?; }
    if sid in db.slots && db.slots[sid].isBooked {
      FreeAndCancelWrites(db, sid, CancelReason(reason), now);
    }
  }

  /** A cancellation keeps the database consistent. */
  lemma CancelKeepsConsistent(db: Db, slotId: string, reason: JsValue, now: Time)
    requires Consistent(db)
    ensures Consistent(CancelBookingEffect(db, slotId, reason, now).db)
  {
    var e := CancelBookingEffect(db, slotId, reason, now);
    if e.result.Cancelled? {
      FreeAndCancelKeepsConsistent(db, ParseInt(slotId).value, CancelReason(reason), now);
    }
  }

  lemma FreeAndCancelKeepsConsistent(db: Db, sid: int, text: string, now: Time)
    requires Consistent(db) && sid in db.slots
    ensures Consistent(FreeAndCancel(db, sid, text, now))
  {
    var after := FreeAndCancel(db, sid, text, now);
    FreeAndCancelWrites(db, sid, text, now);
    assert HeldSlotsBooked(after) by {
      forall j | j in after.interviews && after.interviews[j].slotId.Some?
        ensures after.interviews[j].slotId.value != sid
      {
      }
    }
    assert OnePerSlot(after) by {
      forall i, j | i in after.interviews && j in after.interviews && after.interviews[i].slotId.Some? &&
                    after.interviews[i].slotId == after.interviews[j].slotId
        ensures i == j
      {
        assert db.interviews[i].slotId == db.interviews[j].slotId;
      }
    }
    assert TokensUnique(after) by {
      forall i, j | i in after.interviews && j in after.interviews && after.interviews[i].token.Some? &&
                    after.interviews[i].token == after.interviews[j].token
        ensures i == j
      {
        assert after.interviews[i].token == db.interviews[i].token;
        assert after.interviews[j].token == db.interviews[j].token;
      }
    }
  }

  /** A cancellation leaves every interview's token and token expiry, and which student it belongs to, as they were. */
  lemma CancelKeepsTokens(db: Db, slotId: string, reason: JsValue, now: Time, t: string)
    requires Consistent(db)
    ensures var e := CancelBookingEffect(db, slotId, reason, now);
            TokenRows(e.db, t) == TokenRows(db, t) &&
            forall j :: j in TokenRows(db, t) ==> e.db.interviews[j].tokenExpiredAt == db.interviews[j].tokenExpiredAt
  {
    var e := CancelBookingEffect(db, slotId, reason, now);
    if e.result.Cancelled? {
      var sid := ParseInt(slotId).value;
      FreeAndCancelWrites(db, sid, CancelReason(reason), now);
      assert e.db == FreeAndCancel(db, sid, CancelReason(reason), now);
      forall j ensures j in TokenRows(e.db, t) <==> j in TokenRows(db, t) {
        if j in db.interviews {
          assert e.db.interviews[j].token == db.interviews[j].token;
          assert e.db.interviews[j].studentId == db.interviews[j].studentId;
        }
      }
    }
  }

  /**
   * Cancelling a booking does not give the token back: after a booking and the cancellation of
   * its slot, the same token is refused with 410.
   */
  lemma CancelledTokenStaysSpent(db: Db, slotId: JsValue, t: string, now: Time, env: SlotBooking.Env,
                                 cancelId: string, reason: JsValue, now2: Time,
                                 slotId3: JsValue, now3: Time, env3: SlotBooking.Env)
    requires Consistent(db)
    requires SlotBooking.BookSlotEffect(db, slotId, Str(t), now, env).result.Booked?
    requires Truthy(slotId3)
    ensures var e1 := SlotBooking.BookSlotEffect(db, slotId, Str(t), now, env);
            var e2 := CancelBookingEffect(e1.db, cancelId, reason, now2);
            SlotBooking.BookSlotEffect(e2.db, slotId3, Str(t), now3, env3) == Effect(SlotBooking.TokenSpent, e2.db)
  {
    var e1 := SlotBooking.BookSlotEffect(db, slotId, Str(t), now, env);
    SlotBooking.BookingSpendsToken(db, slotId, t, now, env);
    SlotBooking.BookingKeepsConsistent(db, slotId, Str(t), now, env);
    var e2 := CancelBookingEffect(e1.db, cancelId, reason, now2);
    CancelKeepsTokens(e1.db, cancelId, reason, now2, t);
    assert t != "" by { assert Truthy(Str(t)); }
    SlotBooking.SpentTokenRefused(e2.db, slotId3, t, now3, env3);
  }
}
