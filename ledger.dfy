/**
 * The lesson-balance ledger: the student registry and the newest-first
 * activity log, and the six handlers that transform the pair.  Each handler
 * is one atomic transition on a `State`; `WellFormed` is the ledger's
 * invariant and every handler preserves it.
 */
module Ledger {
  import opened Types
  import opened Seqs

  /** Length of a payment cycle, in days. */
  const CYCLE_DAYS: int := 20

  /** The two collections the application owns. */
  datatype State = State(students: seq<Student>, logs: seq<AttendanceLog>)

  // ---------------------------------------------------------------------------
  // Lookups

  /** Position of the first student with id `sid` (the registry's `find`). */
  function FindStudent(ss: seq<Student>, sid: string): (r: Option<nat>)
    ensures r.Some? ==> r.value < |ss| && ss[r.value].id == sid && forall j :: 0 <= j < r.value ==> ss[j].id != sid
    ensures r.None? ==> forall j :: 0 <= j < |ss| ==> ss[j].id != sid
  {
    FindIndex(ss, (s: Student) => s.id == sid)
  }

  /** Position of the first log entry with id `logId` (the log's `find`). */
  function FindEntry(logs: seq<AttendanceLog>, logId: string): (r: Option<nat>)
    ensures r.Some? ==> r.value < |logs| && logs[r.value].id == logId && forall j :: 0 <= j < r.value ==> logs[j].id != logId
    ensures r.None? ==> forall j :: 0 <= j < |logs| ==> logs[j].id != logId
  {
    FindIndex(logs, (l: AttendanceLog) => l.id == logId)
  }

  predicate Registered(ss: seq<Student>, sid: string)
  {
    FindStudent(ss, sid).Some?
  }

  predicate LogIdUsed(logs: seq<AttendanceLog>, logId: string)
  {
    FindEntry(logs, logId).Some?
  }

  /** Sum of `adjustment` over the entries whose `studentId` is `sid`. */
  function Balance(logs: seq<AttendanceLog>, sid: string): int
  {
    if logs == [] then 0
    else (if logs[0].studentId == sid then logs[0].adjustment else 0) + Balance(logs[1..], sid)
  }

  // ---------------------------------------------------------------------------
  // The invariant

  function StudentKey(s: Student): string { s.id }

  function EntryKey(l: AttendanceLog): string { l.id }

  predicate UniqueStudentIds(ss: seq<Student>)
  {
    Distinct(ss, StudentKey)
  }

  predicate UniqueLogIds(logs: seq<AttendanceLog>)
  {
    Distinct(logs, EntryKey)
  }

  /** The ledger law: each balance is the sum of its student's adjustments. */
  predicate Consistent(st: State)
  {
    forall i :: 0 <= i < |st.students| ==> Balance(st.logs, st.students[i].id) == st.students[i].lessonBalance
  }

  /** Every log entry refers to a registered student. */
  predicate NoOrphans(st: State)
  {
    forall j :: 0 <= j < |st.logs| ==> Registered(st.students, st.logs[j].studentId)
  }

  /** The cycle always ends exactly CYCLE_DAYS after the last payment. */
  predicate CyclesPaired(ss: seq<Student>)
  {
    forall i :: 0 <= i < |ss| ==> ss[i].cycleExpiration == ss[i].lastPaymentDate + CYCLE_DAYS
  }

  predicate WellFormed(st: State)
  {
    && UniqueStudentIds(st.students)
    && UniqueLogIds(st.logs)
    && Consistent(st)
    && NoOrphans(st)
    && CyclesPaired(st.students)
  }

  // ---------------------------------------------------------------------------
  // Per-element steps of the handlers' `map` and `filter` calls

  function AdjustBalance(sid: string, delta: int): Student -> Student
  {
    (s: Student) => if s.id == sid then s.(lessonBalance := s.lessonBalance + delta) else s
  }

  function Renew(sid: string, amount: int, now: int): Student -> Student
  {
    (s: Student) => if s.id == sid
                    then s.(lessonBalance := s.lessonBalance + amount, lastPaymentDate := now, cycleExpiration := now + CYCLE_DAYS)
                    else s
  }

  function EditProfile(sid: string, name: string, pkg: PackageSize): Student -> Student
  {
    (s: Student) => if s.id == sid then s.(name := name, contractedPackage := pkg) else s
  }

  function Relabel(sid: string, name: string): AttendanceLog -> AttendanceLog
  {
    (l: AttendanceLog) => if l.studentId == sid then l.(studentName := name) else l
  }

  function OtherStudent(sid: string): Student -> bool
  {
    (s: Student) => s.id != sid
  }

  function OtherStudentsEntry(sid: string): AttendanceLog -> bool
  {
    (l: AttendanceLog) => l.studentId != sid
  }

  function OtherEntry(logId: string): AttendanceLog -> bool
  {
    (l: AttendanceLog) => l.id != logId
  }

  // ---------------------------------------------------------------------------
  // The handlers

  /** Register: a new student with a full package and its opening deposit. */
  function AddStudent(st: State, sid: string, logId: string, name: string, pkg: PackageSize, now: int): (r: State)
    ensures |r.students| == |st.students| + 1 && r.students[..|st.students|] == st.students
    ensures var s := r.students[|st.students|];
      && s.id == sid && s.name == name && s.contractedPackage == pkg
      && s.lessonBalance == pkg
      && s.lastPaymentDate == now && s.cycleExpiration == now + CYCLE_DAYS
    ensures |r.logs| == |st.logs| + 1 && r.logs[1..] == st.logs
    ensures r.logs[0] == AttendanceLog(logId, now, sid, name, Deposit, pkg)
  {
    var student := Student(sid, name, pkg, pkg, now, now + CYCLE_DAYS);
    State(st.students + [student], [AttendanceLog(logId, now, sid, name, Deposit, pkg)] + st.logs)
  }

  /** Edit profile: new name and package; the name is copied into the log. */
  function UpdateStudent(st: State, sid: string, name: string, pkg: PackageSize): (r: State)
    ensures |r.students| == |st.students| && |r.logs| == |st.logs|
  {
    State(Map(st.students, EditProfile(sid, name, pkg)), Map(st.logs, Relabel(sid, name)))
  }

  /**
   * An edit changes only name and package of the matching student (balance
   * and dates stay) and rewrites `studentName` on exactly that student's
   * entries.
   */
  lemma UpdateStudentSpec(st: State, sid: string, name: string, pkg: PackageSize)
    ensures var r := UpdateStudent(st, sid, name, pkg);
      && (forall i :: 0 <= i < |st.students| ==>
            var s := st.students[i];
            r.students[i] == if s.id == sid then s.(name := name, contractedPackage := pkg) else s)
      && (forall j :: 0 <= j < |st.logs| ==>
            var l := st.logs[j];
            r.logs[j] == if l.studentId == sid then l.(studentName := name) else l)
  {
    var r := UpdateStudent(st, sid, name, pkg);
    assert r.students == Map(st.students, EditProfile(sid, name, pkg));
    assert r.logs == Map(st.logs, Relabel(sid, name));
  }

  /** Delete: drop the student and, in cascade, every entry that refers to it. */
  function DeleteStudent(st: State, sid: string): (r: State)
    ensures !Registered(r.students, sid)
    ensures forall j :: 0 <= j < |r.logs| ==> r.logs[j].studentId != sid
  {
    State(Filter(st.students, OtherStudent(sid)), Filter(st.logs, OtherStudentsEntry(sid)))
  }

  /**
   * The registry and the log after a delete are order-preserving
   * subsequences that lose exactly the student and exactly its entries.
   */
  lemma DeleteStudentSpec(st: State, sid: string)
    ensures var r := DeleteStudent(st, sid);
      && IsSubsequence(r.students, st.students)
      && (forall s :: multiset(r.students)[s] == if s.id == sid then 0 else multiset(st.students)[s])
      && IsSubsequence(r.logs, st.logs)
      && (forall l :: multiset(r.logs)[l] == if l.studentId == sid then 0 else multiset(st.logs)[l])
  {
    FilterSpec(st.students, OtherStudent(sid));
    FilterSpec(st.logs, OtherStudentsEntry(sid));
  }

  /**
   * Check-in: one lesson off the student's balance, with no floor, and one
   * CHECK_IN entry of -1.  An unknown id changes nothing.
   */
  function HandleCheckIn(st: State, sid: string, logId: string, now: int): (r: State)
    ensures |r.students| == |st.students|
    ensures !Registered(st.students, sid) ==> r == st
    ensures Registered(st.students, sid) ==>
      && |r.logs| == |st.logs| + 1 && r.logs[1..] == st.logs
      && r.logs[0] == AttendanceLog(logId, now, sid, st.students[FindStudent(st.students, sid).value].name, CheckIn, -1)
  {
    var students := Map(st.students, AdjustBalance(sid, -1));
    match FindStudent(st.students, sid)
    case None =>
      assert students == st.students;
      State(students, st.logs)
    case Some(k) =>
      State(students, [AttendanceLog(logId, now, sid, st.students[k].name, CheckIn, -1)] + st.logs)
  }

  /**
   * Deposit: `amount` lessons added, the cycle restarted from `now`, and one
   * DEPOSIT entry of `amount`.  An unknown id changes nothing.
   */
  function HandleDeposit(st: State, sid: string, amount: int, logId: string, now: int): (r: State)
    ensures |r.students| == |st.students|
    ensures !Registered(st.students, sid) ==> r == st
    ensures Registered(st.students, sid) ==>
      && |r.logs| == |st.logs| + 1 && r.logs[1..] == st.logs
      && r.logs[0] == AttendanceLog(logId, now, sid, st.students[FindStudent(st.students, sid).value].name, Deposit, amount)
  {
    var students := Map(st.students, Renew(sid, amount, now));
    match FindStudent(st.students, sid)
    case None =>
      assert students == st.students;
      State(students, st.logs)
    case Some(k) =>
      State(students, [AttendanceLog(logId, now, sid, st.students[k].name, Deposit, amount)] + st.logs)
  }

  /** A check-in takes exactly one lesson off the matching student and no other. */
  lemma HandleCheckInSpec(st: State, sid: string, logId: string, now: int)
    ensures var r := HandleCheckIn(st, sid, logId, now);
      forall i :: 0 <= i < |st.students| ==>
        var s := st.students[i];
        r.students[i] == if s.id == sid then s.(lessonBalance := s.lessonBalance - 1) else s
  {
    var r := HandleCheckIn(st, sid, logId, now);
    assert r.students == Map(st.students, AdjustBalance(sid, -1));
  }

  /**
   * A deposit adds `amount` to the matching student's balance and restarts
   * its cycle from `now`; no other student changes.
   */
  lemma HandleDepositSpec(st: State, sid: string, amount: int, logId: string, now: int)
    ensures var r := HandleDeposit(st, sid, amount, logId, now);
      forall i :: 0 <= i < |st.students| ==>
        var s := st.students[i];
        r.students[i] == if s.id == sid
                         then s.(lessonBalance := s.lessonBalance + amount, lastPaymentDate := now, cycleExpiration := now + CYCLE_DAYS)
                         else s
  {
    var r := HandleDeposit(st, sid, amount, logId, now);
    assert r.students == Map(st.students, Renew(sid, amount, now));
  }

  /** The effect of reversing entry `e`: its adjustment undone, its id dropped. */
  function Reversal(st: State, e: AttendanceLog): (r: State)
    ensures |r.students| == |st.students| && |r.logs| <= |st.logs|
  {
    State(Map(st.students, AdjustBalance(e.studentId, -e.adjustment)), Filter(st.logs, OtherEntry(e.id)))
  }

  /**
   * Reversal: undo the first entry with id `logId` on its student (if that
   * student is still registered) and drop every entry with that id.  The
   * cycle dates are left as they are.  An unknown id changes nothing.
   */
  function DeleteLog(st: State, logId: string): (r: State)
    ensures !LogIdUsed(st.logs, logId) ==> r == st
    ensures |r.students| == |st.students|
  {
    match FindEntry(st.logs, logId)
    case None => st
    case Some(k) => Reversal(st, st.logs[k])
  }

  /**
   * What a reversal of an existing entry does: the referenced student's
   * balance moves by minus the entry's adjustment (no student changes if
   * none has that id), and the log loses exactly the entries with that id,
   * in order -- one entry when log ids are unique.
   */
  lemma DeleteLogSpec(st: State, logId: string)
    requires LogIdUsed(st.logs, logId)
    ensures var r := DeleteLog(st, logId);
      var e := st.logs[FindEntry(st.logs, logId).value];
      && (forall i :: 0 <= i < |st.students| ==>
            var s := st.students[i];
            r.students[i] == if s.id == e.studentId then s.(lessonBalance := s.lessonBalance - e.adjustment) else s)
      && (!Registered(st.students, e.studentId) ==> r.students == st.students)
      && IsSubsequence(r.logs, st.logs)
      && (forall l :: multiset(r.logs)[l] == if l.id == logId then 0 else multiset(st.logs)[l])
      && (UniqueLogIds(st.logs) ==> |r.logs| == |st.logs| - 1)
  {
    var k := FindEntry(st.logs, logId).value;
    var e := st.logs[k];
    assert DeleteLog(st, logId) == Reversal(st, e);
    ReversalStudents(st, e);
    ReversalEntries(st, e);
    if UniqueLogIds(st.logs) {
      ReversalShrinks(st, k);
    }
  }

  /** Reversing `e` moves only `e`'s student, by minus `e`'s adjustment. */
  lemma ReversalStudents(st: State, e: AttendanceLog)
    ensures var r := Reversal(st, e);
      && |r.students| == |st.students|
      && (forall i :: 0 <= i < |st.students| ==>
            var s := st.students[i];
            r.students[i] == if s.id == e.studentId then s.(lessonBalance := s.lessonBalance - e.adjustment) else s)
      && (!Registered(st.students, e.studentId) ==> r.students == st.students)
  {
    var r := Reversal(st, e);
    assert r.students == Map(st.students, AdjustBalance(e.studentId, -e.adjustment));
  }

  /** Reversing `e` drops exactly the entries with `e`'s id, keeping the order. */
  lemma ReversalEntries(st: State, e: AttendanceLog)
    ensures var r := Reversal(st, e);
      && IsSubsequence(r.logs, st.logs)
      && (forall l :: multiset(r.logs)[l] == if l.id == e.id then 0 else multiset(st.logs)[l])
  {
    FilterSpec(st.logs, OtherEntry(e.id));
  }

  /** With unique log ids, reversing an entry shortens the log by one. */
  lemma ReversalShrinks(st: State, k: nat)
    requires k < |st.logs| && UniqueLogIds(st.logs)
    ensures |Reversal(st, st.logs[k]).logs| == |st.logs| - 1
  {
    FilterDropsOne(st.logs, OtherEntry(st.logs[k].id), k);
  }

  // ---------------------------------------------------------------------------
  // Facts about balances and registration

  lemma BalanceCons(e: AttendanceLog, logs: seq<AttendanceLog>, x: string)
    ensures Balance([e] + logs, x) == (if e.studentId == x then e.adjustment else 0) + Balance(logs, x)
  {
    assert ([e] + logs)[1..] == logs;
  }

  /** A student no entry refers to has an empty ledger. */
  lemma {:induction false} BalanceAbsent(logs: seq<AttendanceLog>, x: string)
    requires forall j :: 0 <= j < |logs| ==> logs[j].studentId != x
    ensures Balance(logs, x) == 0
  {
    if logs != [] {
      BalanceAbsent(logs[1..], x);
    }
  }

  /** Rewriting the copied names leaves every balance as it was. */
  lemma {:induction false} BalanceRelabel(logs: seq<AttendanceLog>, sid: string, name: string, x: string)
    ensures Balance(Map(logs, Relabel(sid, name)), x) == Balance(logs, x)
  {
    if logs != [] {
      BalanceRelabel(logs[1..], sid, name, x);
      BalanceCons(Relabel(sid, name)(logs[0]), Map(logs[1..], Relabel(sid, name)), x);
    }
  }

  /** The cascade removes one student's entries and no other student's. */
  lemma {:induction false} BalanceWithoutStudent(logs: seq<AttendanceLog>, sid: string, x: string)
    requires x != sid
    ensures Balance(Filter(logs, OtherStudentsEntry(sid)), x) == Balance(logs, x)
  {
    if logs != [] {
      BalanceWithoutStudent(logs[1..], sid, x);
      var rest := Filter(logs[1..], OtherStudentsEntry(sid));
      if logs[0].studentId != sid {
        BalanceCons(logs[0], rest, x);
      }
    }
  }

  /** Dropping a uniquely identified entry takes exactly its adjustment away. */
  lemma {:induction false} BalanceWithoutEntry(logs: seq<AttendanceLog>, k: nat, x: string)
    requires k < |logs| && UniqueLogIds(logs)
    ensures Balance(Filter(logs, OtherEntry(logs[k].id)), x)
         == Balance(logs, x) - (if logs[k].studentId == x then logs[k].adjustment else 0)
  {
    var logId := logs[k].id;
    var rest := Filter(logs[1..], OtherEntry(logId));
    if k == 0 {
      assert forall i :: 0 <= i < |logs[1..]| ==> OtherEntry(logId)(logs[1..][i]) by {
        forall i | 0 <= i < |logs[1..]| ensures logs[1..][i].id != logId {
          assert EntryKey(logs[0]) != EntryKey(logs[i + 1]);
        }
      }
      FilterKeepsAll(logs[1..], OtherEntry(logId));
    } else {
      assert logs[k] == logs[1..][k - 1];
      assert logs[0].id != logId by {
        assert EntryKey(logs[0]) != EntryKey(logs[k]);
      }
      assert UniqueLogIds(logs[1..]) by {
        forall i, j | 0 <= i < j < |logs[1..]| ensures EntryKey(logs[1..][i]) != EntryKey(logs[1..][j]) {
          assert EntryKey(logs[i + 1]) != EntryKey(logs[j + 1]);
        }
      }
      BalanceWithoutEntry(logs[1..], k - 1, x);
      BalanceCons(logs[0], rest, x);
    }
  }

  /** A student at any position is registered. */
  lemma RegisteredAt(ss: seq<Student>, i: nat)
    requires i < |ss|
    ensures Registered(ss, ss[i].id)
  {
    var _ := FindStudent(ss, ss[i].id);
  }

  /** Registration depends on the ids alone. */
  lemma RegisteredSameIds(ss: seq<Student>, ss': seq<Student>, x: string)
    requires |ss'| == |ss|
    requires forall i :: 0 <= i < |ss| ==> ss'[i].id == ss[i].id
    ensures Registered(ss', x) == Registered(ss, x)
  {
    match FindStudent(ss, x)
    case Some(k) => RegisteredAt(ss', k);
    case None =>
      match FindStudent(ss', x)
      case Some(k) => RegisteredAt(ss, k);
      case None =>
  }

  // ---------------------------------------------------------------------------
  // Every handler preserves the invariant

  /** The empty application state, as first loaded, is well formed. */
  lemma EmptyIsWellFormed()
    ensures WellFormed(State([], []))
  {
  }

  lemma AddStudentPreserves(st: State, sid: string, logId: string, name: string, pkg: PackageSize, now: int)
    requires WellFormed(st)
    requires !Registered(st.students, sid) && !LogIdUsed(st.logs, logId)
    ensures WellFormed(AddStudent(st, sid, logId, name, pkg, now))
  {
    AddStudentIds(st, sid, logId, name, pkg, now);
    AddStudentConsistent(st, sid, logId, name, pkg, now);
    AddStudentNoOrphans(st, sid, logId, name, pkg, now);
    var r := AddStudent(st, sid, logId, name, pkg, now);
    forall i | 0 <= i < |r.students|
      ensures r.students[i].cycleExpiration == r.students[i].lastPaymentDate + CYCLE_DAYS
    {
      if i < |st.students| {
        assert r.students[i] == st.students[i];
      }
    }
  }

  /** Registration with a fresh student id and a fresh log id keeps ids unique. */
  lemma AddStudentIds(st: State, sid: string, logId: string, name: string, pkg: PackageSize, now: int)
    requires UniqueStudentIds(st.students) && UniqueLogIds(st.logs)
    requires !Registered(st.students, sid) && !LogIdUsed(st.logs, logId)
    ensures var r := AddStudent(st, sid, logId, name, pkg, now);
      UniqueStudentIds(r.students) && UniqueLogIds(r.logs)
  {
  }

  /** The opening deposit is the new student's whole ledger. */
  lemma AddStudentConsistent(st: State, sid: string, logId: string, name: string, pkg: PackageSize, now: int)
    requires Consistent(st) && NoOrphans(st)
    requires !Registered(st.students, sid)
    ensures Consistent(AddStudent(st, sid, logId, name, pkg, now))
  {
    var r := AddStudent(st, sid, logId, name, pkg, now);
    var n := |st.students|;
    forall i | 0 <= i < |r.students|
      ensures Balance(r.logs, r.students[i].id) == r.students[i].lessonBalance
    {
      BalanceCons(r.logs[0], st.logs, r.students[i].id);
      if i == n {
        forall j | 0 <= j < |st.logs| ensures st.logs[j].studentId != sid {
          assert Registered(st.students, st.logs[j].studentId);
        }
        BalanceAbsent(st.logs, sid);
      } else {
        assert r.students[i] == st.students[i];
      }
    }
  }

  /** The opening deposit refers to the new student; older entries to older students. */
  lemma AddStudentNoOrphans(st: State, sid: string, logId: string, name: string, pkg: PackageSize, now: int)
    requires NoOrphans(st)
    ensures NoOrphans(AddStudent(st, sid, logId, name, pkg, now))
  {
  }

  lemma UpdateStudentPreserves(st: State, sid: string, name: string, pkg: PackageSize)
    requires WellFormed(st)
    ensures WellFormed(UpdateStudent(st, sid, name, pkg))
  {
    UpdateStudentIds(st, sid, name, pkg);
    UpdateStudentLedger(st, sid, name, pkg);
  }

  /** An edit touches neither student ids nor log ids. */
  lemma UpdateStudentIds(st: State, sid: string, name: string, pkg: PackageSize)
    requires UniqueStudentIds(st.students) && UniqueLogIds(st.logs)
    ensures var r := UpdateStudent(st, sid, name, pkg);
      UniqueStudentIds(r.students) && UniqueLogIds(r.logs)
  {
  }

  /** An edit keeps balances, cycles and the link from every entry to its student. */
  lemma UpdateStudentLedger(st: State, sid: string, name: string, pkg: PackageSize)
    requires Consistent(st) && NoOrphans(st) && CyclesPaired(st.students)
    ensures var r := UpdateStudent(st, sid, name, pkg);
      Consistent(r) && NoOrphans(r) && CyclesPaired(r.students)
  {
    var r := UpdateStudent(st, sid, name, pkg);
    UpdateStudentSpec(st, sid, name, pkg);
    forall i | 0 <= i < |r.students|
      ensures Balance(r.logs, r.students[i].id) == r.students[i].lessonBalance
    {
      BalanceRelabel(st.logs, sid, name, st.students[i].id);
    }
    forall j | 0 <= j < |r.logs| ensures Registered(r.students, r.logs[j].studentId) {
      RegisteredSameIds(st.students, r.students, st.logs[j].studentId);
    }
  }

  lemma DeleteStudentPreserves(st: State, sid: string)
    requires WellFormed(st)
    ensures WellFormed(DeleteStudent(st, sid))
  {
    var r := DeleteStudent(st, sid);
    FilterDistinct(st.students, OtherStudent(sid), StudentKey);
    FilterDistinct(st.logs, OtherStudentsEntry(sid), EntryKey);
    DeleteStudentSurvivors(st, sid);
    DeleteStudentNoOrphans(st, sid);
  }

  /** Survivors of a delete keep their balances and those balances' entries. */
  lemma DeleteStudentSurvivors(st: State, sid: string)
    requires Consistent(st) && CyclesPaired(st.students)
    ensures Consistent(DeleteStudent(st, sid)) && CyclesPaired(DeleteStudent(st, sid).students)
  {
    var r := DeleteStudent(st, sid);
    forall i | 0 <= i < |r.students|
      ensures Balance(r.logs, r.students[i].id) == r.students[i].lessonBalance
      ensures r.students[i].cycleExpiration == r.students[i].lastPaymentDate + CYCLE_DAYS
    {
      var s := r.students[i];
      FilterMember(st.students, OtherStudent(sid), s);
      var m :| 0 <= m < |st.students| && st.students[m] == s;
      BalanceWithoutStudent(st.logs, sid, s.id);
    }
  }

  /** Every entry that survives a delete still refers to a survivor. */
  lemma DeleteStudentNoOrphans(st: State, sid: string)
    requires NoOrphans(st)
    ensures NoOrphans(DeleteStudent(st, sid))
  {
    var r := DeleteStudent(st, sid);
    forall j | 0 <= j < |r.logs| ensures Registered(r.students, r.logs[j].studentId) {
      var l := r.logs[j];
      FilterMember(st.logs, OtherStudentsEntry(sid), l);
      var m :| 0 <= m < |st.logs| && st.logs[m] == l;
      assert Registered(st.students, l.studentId);
      var k := FindStudent(st.students, l.studentId).value;
      FilterKeeps(st.students, OtherStudent(sid), st.students[k]);
      var p :| 0 <= p < |r.students| && r.students[p] == st.students[k];
      RegisteredAt(r.students, p);
    }
  }

  lemma HandleCheckInPreserves(st: State, sid: string, logId: string, now: int)
    requires WellFormed(st)
    requires !LogIdUsed(st.logs, logId)
    ensures WellFormed(HandleCheckIn(st, sid, logId, now))
  {
    var r := HandleCheckIn(st, sid, logId, now);
    if Registered(st.students, sid) {
      HandleCheckInSpec(st, sid, logId, now);
      PrependPreserves(st, r, logId);
    }
  }

  lemma HandleDepositPreserves(st: State, sid: string, amount: int, logId: string, now: int)
    requires WellFormed(st)
    requires !LogIdUsed(st.logs, logId)
    ensures WellFormed(HandleDeposit(st, sid, amount, logId, now))
  {
    var r := HandleDeposit(st, sid, amount, logId, now);
    if Registered(st.students, sid) {
      HandleDepositSpec(st, sid, amount, logId, now);
      PrependPreserves(st, r, logId);
    }
  }

  /**
   * The common step of check-in and deposit: the registered student `r.logs[0]`
   * names has its balance moved by the new entry's adjustment, everyone else
   * is untouched, and the new entry has a fresh id.
   */
  lemma PrependPreserves(st: State, r: State, logId: string)
    requires WellFormed(st)
    requires !LogIdUsed(st.logs, logId)
    requires |r.logs| == |st.logs| + 1 && r.logs[1..] == st.logs && r.logs[0].id == logId
    requires Registered(st.students, r.logs[0].studentId)
    requires |r.students| == |st.students|
    requires forall i :: 0 <= i < |st.students| ==>
      && r.students[i].id == st.students[i].id
      && r.students[i].lessonBalance
         == st.students[i].lessonBalance + (if st.students[i].id == r.logs[0].studentId then r.logs[0].adjustment else 0)
      && r.students[i].cycleExpiration == r.students[i].lastPaymentDate + CYCLE_DAYS
    ensures WellFormed(r)
  {
  }

  lemma DeleteLogPreserves(st: State, logId: string)
    requires WellFormed(st)
    ensures WellFormed(DeleteLog(st, logId))
  {
    if LogIdUsed(st.logs, logId) {
      FilterDistinct(st.logs, OtherEntry(logId), EntryKey);
      DeleteLogIds(st, logId);
      DeleteLogConsistent(st, logId);
      DeleteLogNoOrphans(st, logId);
    }
  }

  lemma DeleteLogIds(st: State, logId: string)
    requires UniqueStudentIds(st.students)
    ensures UniqueStudentIds(DeleteLog(st, logId).students)
  {
    var r := DeleteLog(st, logId);
    forall i, j | 0 <= i < j < |r.students| ensures StudentKey(r.students[i]) != StudentKey(r.students[j]) {
      assert StudentKey(st.students[i]) != StudentKey(st.students[j]);
    }
  }

  /** A reversal moves its student's balance and its student's ledger alike. */
  lemma DeleteLogConsistent(st: State, logId: string)
    requires Consistent(st) && UniqueLogIds(st.logs)
    ensures Consistent(DeleteLog(st, logId))
  {
    if LogIdUsed(st.logs, logId) {
      var k := FindEntry(st.logs, logId).value;
      ReversalConsistent(st, k);
    }
  }

  lemma ReversalConsistent(st: State, k: nat)
    requires Consistent(st) && UniqueLogIds(st.logs) && k < |st.logs|
    ensures Consistent(Reversal(st, st.logs[k]))
  {
    var e := st.logs[k];
    var students := Map(st.students, AdjustBalance(e.studentId, -e.adjustment));
    var logs := Filter(st.logs, OtherEntry(e.id));
    assert Reversal(st, e) == State(students, logs);
    forall i | 0 <= i < |students|
      ensures Balance(logs, students[i].id) == students[i].lessonBalance
    {
      BalanceWithoutEntry(st.logs, k, st.students[i].id);
    }
  }

  lemma DeleteLogNoOrphans(st: State, logId: string)
    requires NoOrphans(st)
    ensures NoOrphans(DeleteLog(st, logId))
  {
    if LogIdUsed(st.logs, logId) {
      var k := FindEntry(st.logs, logId).value;
      ReversalNoOrphans(st, k);
    }
  }

  lemma ReversalNoOrphans(st: State, k: nat)
    requires NoOrphans(st) && k < |st.logs|
    ensures NoOrphans(Reversal(st, st.logs[k]))
  {
    var e := st.logs[k];
    var r := Reversal(st, e);
    assert r.logs == Filter(st.logs, OtherEntry(e.id));
    forall j | 0 <= j < |r.logs| ensures Registered(st.students, r.logs[j].studentId) {
      FilterMember(st.logs, OtherEntry(e.id), r.logs[j]);
    }
    AdjustKeepsRegistered(st.students, e.studentId, -e.adjustment);
  }

  /** A balance change keeps every student id registered or unregistered as it was. */
  lemma AdjustKeepsRegistered(ss: seq<Student>, sid: string, delta: int)
    ensures forall x :: Registered(Map(ss, AdjustBalance(sid, delta)), x) == Registered(ss, x)
  {
    forall x ensures Registered(Map(ss, AdjustBalance(sid, delta)), x) == Registered(ss, x) {
      RegisteredSameIds(ss, Map(ss, AdjustBalance(sid, delta)), x);
    }
  }

  // ---------------------------------------------------------------------------
  // Reversal as the inverse of the balance-changing handlers

  /** Filtering out an id that was just prepended gives back the old log. */
  lemma DropPrepended(e: AttendanceLog, logs: seq<AttendanceLog>)
    requires !LogIdUsed(logs, e.id)
    ensures Filter([e] + logs, OtherEntry(e.id)) == logs
  {
    assert ([e] + logs)[1..] == logs;
    FilterKeepsAll(logs, OtherEntry(e.id));
  }

  /**
   * Reversing the newest entry moves its student by minus its adjustment
   * (`delta`) and drops just that entry.
   */
  lemma ReverseNewest(students: seq<Student>, e: AttendanceLog, logs: seq<AttendanceLog>, sid: string, delta: int)
    requires !LogIdUsed(logs, e.id) && e.studentId == sid && e.adjustment == -delta
    ensures DeleteLog(State(students, [e] + logs), e.id) == State(Map(students, AdjustBalance(sid, delta)), logs)
  {
    assert FindEntry([e] + logs, e.id) == Some(0);
    DropPrepended(e, logs);
  }

  /** Moving a balance by -1 and then by +1 gives back every student. */
  lemma AdjustBack(ss: seq<Student>, sid: string)
    ensures Map(Map(ss, AdjustBalance(sid, -1)), AdjustBalance(sid, 1)) == ss
  {
    var r := Map(Map(ss, AdjustBalance(sid, -1)), AdjustBalance(sid, 1));
    forall i | 0 <= i < |ss| ensures r[i] == ss[i] {
    }
  }

  /** Renewing and then taking the same amount off leaves only the new dates. */
  lemma RenewBack(ss: seq<Student>, sid: string, amount: int, now: int)
    ensures var r := Map(Map(ss, Renew(sid, amount, now)), AdjustBalance(sid, -amount));
      && |r| == |ss|
      && forall i :: 0 <= i < |ss| ==>
           r[i] == if ss[i].id == sid then ss[i].(lastPaymentDate := now, cycleExpiration := now + CYCLE_DAYS) else ss[i]
  {
  }

  /** Reversing a check-in just made restores the state before it exactly. */
  lemma CheckInThenReverse(st: State, sid: string, logId: string, now: int)
    requires !LogIdUsed(st.logs, logId)
    ensures DeleteLog(HandleCheckIn(st, sid, logId, now), logId) == st
  {
    if Registered(st.students, sid) {
      var e := AttendanceLog(logId, now, sid, st.students[FindStudent(st.students, sid).value].name, CheckIn, -1);
      assert HandleCheckIn(st, sid, logId, now) == State(Map(st.students, AdjustBalance(sid, -1)), [e] + st.logs);
      ReverseNewest(Map(st.students, AdjustBalance(sid, -1)), e, st.logs, sid, 1);
      AdjustBack(st.students, sid);
    }
  }

  /** A deposit for a registered student, written out. */
  lemma DepositUnfold(st: State, sid: string, amount: int, logId: string, now: int) returns (e: AttendanceLog)
    requires Registered(st.students, sid)
    ensures e.id == logId && e.studentId == sid && e.adjustment == amount
    ensures HandleDeposit(st, sid, amount, logId, now) == State(Map(st.students, Renew(sid, amount, now)), [e] + st.logs)
  {
    e := AttendanceLog(logId, now, sid, st.students[FindStudent(st.students, sid).value].name, Deposit, amount);
  }

  /**
   * Reversing a deposit just made restores every balance and the log, but
   * the renewed student keeps the new payment date and cycle end.
   */
  lemma DepositThenReverse(st: State, sid: string, amount: int, logId: string, now: int)
    requires !LogIdUsed(st.logs, logId)
    ensures var r := DeleteLog(HandleDeposit(st, sid, amount, logId, now), logId);
      && r.logs == st.logs
      && |r.students| == |st.students|
      && forall i :: 0 <= i < |st.students| ==>
           var s := st.students[i];
           r.students[i] == if s.id == sid then s.(lastPaymentDate := now, cycleExpiration := now + CYCLE_DAYS) else s
  {
    if Registered(st.students, sid) {
      var e := DepositUnfold(st, sid, amount, logId, now);
      ReverseNewest(Map(st.students, Renew(sid, amount, now)), e, st.logs, sid, -amount);
      RenewBack(st.students, sid, amount, now);
    }
  }
}
