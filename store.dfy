/**
 * The database the controllers share, as an object whose three tables and identity counters
 * change in place. Each method is one SQL statement, applied atomically: its new state is the
 * matching statement of `Tables` applied to the state before it.
 */
module Database {
  import opened Wrappers
  import opened Tables

  class Store {
    var students: map<int, Student>
    var slots: map<int, Slot>
    var interviews: map<int, Interview>
    var nextStudentId: int
    var nextSlotId: int
    var nextInterviewId: int

    /** The tables as a value. */
    function State(): Db
      reads this
    {
      Db(students, slots, interviews, nextStudentId, nextSlotId, nextInterviewId)
    }

    constructor ()
      ensures State() == Empty
    {
      students, slots, interviews := map[], map[], map[];
      nextStudentId, nextSlotId, nextInterviewId := 1, 1, 1;
    }

    /** Makes `db` the stored state: the commit of one statement. */
    method Put(db: Db)
      modifies this
      ensures State() == db
    {
      students, slots, interviews := db.students, db.slots, db.interviews;
      nextStudentId, nextSlotId, nextInterviewId := db.nextStudentId, db.nextSlotId, db.nextInterviewId;
    }

    method InsertStudent(name: string, email: string, phone: string, now: Time) returns (id: int)
      modifies this
      ensures Inserted(State(), id) == Tables.InsertStudent(old(State()), name, email, phone, now)
    {
      var r := Tables.InsertStudent(State(), name, email, phone, now);
      Put(r.db);
      id := r.id;
    }

    method SetResumeByToken(token: string, link: string, fileName: string) returns (affected: bool)
      modifies this
      ensures Write(State(), affected) == Tables.SetResumeByToken(old(State()), token, link, fileName)
    {
      var w := Tables.SetResumeByToken(State(), token, link, fileName);
      Put(w.db);
      affected := w.affected;
    }

    method DeleteStudent(id: int) returns (affected: bool)
      modifies this
      ensures Write(State(), affected) == Tables.DeleteStudent(old(State()), id)
    {
      var w := Tables.DeleteStudent(State(), id);
      Put(w.db);
      affected := w.affected;
    }

    method DeleteStudentsBetween(start: Time, end: Time) returns (count: nat)
      modifies this
      ensures (State(), count) == Tables.DeleteStudentsBetween(old(State()), start, end)
    {
      var r := Tables.DeleteStudentsBetween(State(), start, end);
      Put(r.0);
      count := r.1;
    }

    method InsertSlot(t: Time, interviewer: Option<string>, link: Option<string>) returns (id: int)
      modifies this
      ensures Inserted(State(), id) == Tables.InsertSlot(old(State()), t, interviewer, link)
    {
      var r := Tables.InsertSlot(State(), t, interviewer, link);
      Put(r.db);
      id := r.id;
    }

    method ClaimSlot(sid: int, studentId: int) returns (affected: bool)
      modifies this
      ensures Write(State(), affected) == Tables.ClaimSlot(old(State()), sid, studentId)
    {
      var w := Tables.ClaimSlot(State(), sid, studentId);
      Put(w.db);
      affected := w.affected;
    }

    method MarkBooked(sid: int, studentId: int) returns (affected: bool)
      modifies this
      ensures Write(State(), affected) == Tables.MarkBooked(old(State()), sid, studentId)
    {
      var w := Tables.MarkBooked(State(), sid, studentId);
      Put(w.db);
      affected := w.affected;
    }

    method FreeSlot(sid: int) returns (affected: bool)
      modifies this
      ensures Write(State(), affected) == Tables.FreeSlot(old(State()), sid)
    {
      var w := Tables.FreeSlot(State(), sid);
      Put(w.db);
      affected := w.affected;
    }

    method DeleteSlotIfFree(sid: int) returns (affected: bool)
      modifies this
      ensures Write(State(), affected) == Tables.DeleteSlotIfFree(old(State()), sid)
    {
      var w := Tables.DeleteSlotIfFree(State(), sid);
      Put(w.db);
      affected := w.affected;
    }

    method InsertInterview(studentId: int, token: string, now: Time) returns (id: int)
      modifies this
      ensures Inserted(State(), id) == Tables.InsertInterview(old(State()), studentId, token, now)
    {
      var r := Tables.InsertInterview(State(), studentId, token, now);
      Put(r.db);
      id := r.id;
    }

    method ScheduleByToken(token: string, sid: int, interviewer: string, link: string, now: Time)
      returns (affected: bool)
      modifies this
      ensures Write(State(), affected) == Tables.ScheduleByToken(old(State()), token, sid, interviewer, link, now)
    {
      var w := Tables.ScheduleByToken(State(), token, sid, interviewer, link, now);
      Put(w.db);
      affected := w.affected;
    }

    method CancelInterview(iid: int, reason: string, now: Time) returns (affected: bool)
      modifies this
      ensures Write(State(), affected) == Tables.CancelInterview(old(State()), iid, reason, now)
    {
      var w := Tables.CancelInterview(State(), iid, reason, now);
      Put(w.db);
      affected := w.affected;
    }

    method SetStatus(iid: int, status: Status) returns (affected: bool)
      modifies this
      ensures Write(State(), affected) == Tables.SetStatus(old(State()), iid, status)
    {
      var w := Tables.SetStatus(State(), iid, status);
      Put(w.db);
      affected := w.affected;
    }

    method DeleteInterview(iid: int) returns (affected: bool)
      modifies this
      ensures Write(State(), affected) == Tables.DeleteInterview(old(State()), iid)
    {
      var w := Tables.DeleteInterview(State(), iid);
      Put(w.db);
      affected := w.affected;
    }

    method ClearToken(token: string) returns (affected: bool)
      modifies this
      ensures Write(State(), affected) == Tables.ClearToken(old(State()), token)
    {
      var w := Tables.ClearToken(State(), token);
      Put(w.db);
      affected := w.affected;
    }
  }
}
