/**
 * The application object that owns the registry and the activity log and
 * replaces both on every handler call.  Each method is one atomic step whose
 * new state is the corresponding `Ledger` transition of the old one; the
 * object invariant is the ledger's `WellFormed`.
 */
module Roster {
  import opened Types
  import Ledger

  class App {
    var students: seq<Student>
    var logs: seq<AttendanceLog>

    ghost function Snapshot(): Ledger.State
      reads this
    {
      Ledger.State(students, logs)
    }

    ghost predicate Valid()
      reads this
    {
      Ledger.WellFormed(Snapshot())
    }

    /** Both collections start empty. */
    constructor ()
      ensures students == [] && logs == [] && Valid()
    {
      students := [];
      logs := [];
      Ledger.EmptyIsWellFormed();
    }

    method AddStudent(sid: string, logId: string, name: string, pkg: PackageSize, now: int)
      requires Valid()
      requires !Ledger.Registered(students, sid) && !Ledger.LogIdUsed(logs, logId)
      modifies this
      ensures Valid()
      ensures Snapshot() == Ledger.AddStudent(old(Snapshot()), sid, logId, name, pkg, now)
    {
      Ledger.AddStudentPreserves(Snapshot(), sid, logId, name, pkg, now);
      var r := Ledger.AddStudent(Ledger.State(students, logs), sid, logId, name, pkg, now);
      students, logs := r.students, r.logs;
    }

    method UpdateStudent(sid: string, name: string, pkg: PackageSize)
      requires Valid()
      modifies this
      ensures Valid()
      ensures Snapshot() == Ledger.UpdateStudent(old(Snapshot()), sid, name, pkg)
    {
      Ledger.UpdateStudentPreserves(Snapshot(), sid, name, pkg);
      var r := Ledger.UpdateStudent(Ledger.State(students, logs), sid, name, pkg);
      students, logs := r.students, r.logs;
    }

    /** The confirmed action of a student delete request. */
    method DeleteStudent(sid: string)
      requires Valid()
      modifies this
      ensures Valid()
      ensures Snapshot() == Ledger.DeleteStudent(old(Snapshot()), sid)
    {
      Ledger.DeleteStudentPreserves(Snapshot(), sid);
      var r := Ledger.DeleteStudent(Ledger.State(students, logs), sid);
      students, logs := r.students, r.logs;
    }

    method HandleCheckIn(sid: string, logId: string, now: int)
      requires Valid()
      requires !Ledger.LogIdUsed(logs, logId)
      modifies this
      ensures Valid()
      ensures Snapshot() == Ledger.HandleCheckIn(old(Snapshot()), sid, logId, now)
    {
      Ledger.HandleCheckInPreserves(Snapshot(), sid, logId, now);
      var r := Ledger.HandleCheckIn(Ledger.State(students, logs), sid, logId, now);
      students, logs := r.students, r.logs;
    }

    method HandleDeposit(sid: string, amount: int, logId: string, now: int)
      requires Valid()
      requires !Ledger.LogIdUsed(logs, logId)
      modifies this
      ensures Valid()
      ensures Snapshot() == Ledger.HandleDeposit(old(Snapshot()), sid, amount, logId, now)
    {
      Ledger.HandleDepositPreserves(Snapshot(), sid, amount, logId, now);
      var r := Ledger.HandleDeposit(Ledger.State(students, logs), sid, amount, logId, now);
      students, logs := r.students, r.logs;
    }

    /** The confirmed action of a log reversal request. */
    method DeleteLog(logId: string)
      requires Valid()
      modifies this
      ensures Valid()
      ensures Snapshot() == Ledger.DeleteLog(old(Snapshot()), logId)
    {
      Ledger.DeleteLogPreserves(Snapshot(), logId);
      var r := Ledger.DeleteLog(Ledger.State(students, logs), logId);
      students, logs := r.students, r.logs;
    }
  }
}
