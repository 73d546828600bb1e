/**
 * The slot model's queries and its unguarded booking write. Its availability rule is the
 * strict one: free and starting after the database's clock, with no grace for a slot today.
 */
module InterviewSlots {
  import opened Wrappers
  import opened Tables
  import opened Ordering
  import opened Availability
  import SlotAdmin
  import Database

  /** `getAll`: every slot, by ascending start time. */
  function AllSlots(db: Db): (r: seq<int>)
    ensures forall id :: id in r <==> id in db.slots
    ensures |r| == |db.slots| && Distinct(r) && SortedBy(r, SlotTime(db))
  {
    SortBy(db.slots.Keys, SlotTime(db))
  }

  /** `getAvailableSlots`: the slots with `IsBooked = 0` and `SlotDateTime > GETDATE()`, by ascending start time. */
  function AvailableSlots(db: Db, now: Time): (r: seq<int>)
    ensures forall id :: id in r <==> id in db.slots && !db.slots[id].isBooked && db.slots[id].time > now
    ensures Distinct(r) && SortedBy(r, SlotTime(db))
  {
    SortBy((set id | id in db.slots && Upcoming(db.slots[id], now)), SlotTime(db))
  }

  /**
   * Every slot the model offers is also in the controller's listing, but a free slot that
   * started a minute ago is in the listing and not offered here.
   */
  lemma AvailableWithinListing(db: Db, now: Time, sid: int)
    ensures sid in AvailableSlots(db, now) ==> sid in SlotAdmin.AvailableListing(db, now)
    ensures sid in db.slots && !db.slots[sid].isBooked && db.slots[sid].time == now - 1 && Day(now - 1) == Day(now) ==>
              sid in SlotAdmin.AvailableListing(db, now) && sid !in AvailableSlots(db, now)
  {
    if sid in AvailableSlots(db, now) {
      UpcomingIsBookable(db.slots[sid], now);
    }
  }

  /** The available slots, in order, are those of `getAll` that are free and in the future. */
  lemma AvailableIsFilterOfAll(db: Db, now: Time)
    ensures var all := AllSlots(db);
            var free := AvailableSlots(db, now);
            (forall id :: id in free <==> id in all && Upcoming(db.slots[id], now)) &&
            forall i, j :: 0 <= i < j < |free| ==> db.slots[free[i]].time <= db.slots[free[j]].time
  {
    var free := AvailableSlots(db, now);
    forall i, j | 0 <= i < j < |free| ensures db.slots[free[i]].time <= db.slots[free[j]].time {
      assert Before(SlotTime(db), free[i], free[j]);
    }
  }

  /**
   * `markBooked`: sets `IsBooked = 1` and the booking student on the slot with that id,
   * whatever the slot's state, and reports success even when no slot has that id.
   */
  method MarkBooked(store: Database.Store, slotId: int, studentId: int) returns (ok: bool)
    modifies store
    ensures store.State() == Tables.MarkBooked(old(store.State()), slotId, studentId).db
    ensures ok
  {
    var _ := store.MarkBooked(slotId, studentId);
    ok := true;
  }

  /**
   * After `markBooked` the slot, if it exists, is booked by the given student whoever held it
   * before; its time, interviewer and link stay, every other row is untouched, and an unknown
   * id changes nothing.
   */
  lemma MarkBookedOverwrites(db: Db, slotId: int, studentId: int)
    ensures var db' := Tables.MarkBooked(db, slotId, studentId).db;
            db'.students == db.students && db'.interviews == db.interviews &&
            db'.slots.Keys == db.slots.Keys &&
            (forall j :: j in db.slots && j != slotId ==> db'.slots[j] == db.slots[j]) &&
            (slotId in db.slots ==>
               db'.slots[slotId].isBooked && db'.slots[slotId].bookedBy == Some(studentId) &&
               db'.slots[slotId].time == db.slots[slotId].time &&
               db'.slots[slotId].interviewer == db.slots[slotId].interviewer &&
               db'.slots[slotId].meetingLink == db.slots[slotId].meetingLink) &&
            (slotId !in db.slots ==> db' == db)
  {
  }

  /**
   * With no guard, `markBooked` can take a slot another student holds, and the database is no
   * longer consistent: the interview holding the slot points at a slot booked by someone else.
   */
  lemma MarkBookedCanStealSlot()
    ensures var db := Db(map[1 := Student("Ann", "ann@example.com", "5550100", None, None, 0),
                             2 := Student("Bob", "bob@example.com", "5550101", None, None, 0)],
                         map[1 := Slot(100, None, None, true, Some(1))],
                         map[1 := Interview(1, Some(1), None, Some(0), Scheduled, None, None, None, 0, None)],
                         3, 2, 2);
            Consistent(db) && !Consistent(Tables.MarkBooked(db, 1, 2).db)
  {
    var db := Db(map[1 := Student("Ann", "ann@example.com", "5550100", None, None, 0),
                     2 := Student("Bob", "bob@example.com", "5550101", None, None, 0)],
                 map[1 := Slot(100, None, None, true, Some(1))],
                 map[1 := Interview(1, Some(1), None, Some(0), Scheduled, None, None, None, 0, None)],
                 3, 2, 2);
    var db' := Tables.MarkBooked(db, 1, 2).db;
    assert db'.slots[1].bookedBy == Some(2);
    assert db'.interviews[1].slotId == Some(1) && db'.interviews[1].studentId == 1;
    assert !HeldSlotsBooked(db');
  }
}
