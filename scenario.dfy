/**
 * The worked example of the ledger: one student registered, checked in
 * three times, a check-in reversed, a renewal; then a rename and a delete
 * on a registry that holds that one student.
 */
module Scenario {
  import opened Types
  import opened Seqs
  import opened Ledger

  lemma AnaSilvaScenario()
    ensures
      var s1 := AddStudent(State([], []), "ana", "d1", "Ana Silva", 8, 0);
      var s2 := HandleCheckIn(s1, "ana", "c1", 1);
      var s3 := HandleCheckIn(s2, "ana", "c2", 2);
      var s4 := HandleCheckIn(s3, "ana", "c3", 3);
      var s5 := DeleteLog(s4, "c2");
      var s6 := HandleDeposit(s5, "ana", 12, "d2", 4);
      && s1.students[0].lessonBalance == 8 && s1.students[0].cycleExpiration == 20
      && s4.students[0].lessonBalance == 5 && |s4.logs| == 4
      && [s4.logs[0].id, s4.logs[1].id, s4.logs[2].id, s4.logs[3].id] == ["c3", "c2", "c1", "d1"]
      && (forall j :: 0 <= j < 3 ==> s4.logs[j].action == CheckIn && s4.logs[j].adjustment == -1)
      && s4.logs[3].action == Deposit && s4.logs[3].adjustment == 8
      && s5.students[0].lessonBalance == 6 && |s5.logs| == 3
      && [s5.logs[0].id, s5.logs[1].id, s5.logs[2].id] == ["c3", "c1", "d1"]
      && (forall j :: 0 <= j < 2 ==> s5.logs[j].action == CheckIn && s5.logs[j].adjustment == -1)
      && s5.logs[2].action == Deposit && s5.logs[2].adjustment == 8
      && s6.students[0].lessonBalance == 18 && s6.students[0].lastPaymentDate == 4
      && s6.students[0].cycleExpiration == 24 && |s6.logs| == 4
      && s6.logs[0].id == "d2" && s6.logs[0].action == Deposit && s6.logs[0].adjustment == 12
  {
    var s1 := AddStudent(State([], []), "ana", "d1", "Ana Silva", 8, 0);
    RegisteredAt(s1.students, 0);
    var s2 := HandleCheckIn(s1, "ana", "c1", 1);
    RegisteredAt(s2.students, 0);
    var s3 := HandleCheckIn(s2, "ana", "c2", 2);
    RegisteredAt(s3.students, 0);
    var s4 := HandleCheckIn(s3, "ana", "c3", 3);
    assert s4.students[0].lessonBalance == 5;
    assert [s4.logs[0].id, s4.logs[1].id, s4.logs[2].id, s4.logs[3].id] == ["c3", "c2", "c1", "d1"];
    assert FindEntry(s4.logs, "c2") == Some(1);
    var l := s4.logs;
    DropSecondOfFour(l);
    var s5 := DeleteLog(s4, "c2");
    assert s5.logs == [l[0], l[2], l[3]];
    assert s5.students[0].lessonBalance == 6;
    RegisteredAt(s5.students, 0);
  }

  /** Dropping the id of the second of four entries, when only it carries that id. */
  lemma DropSecondOfFour(l: seq<AttendanceLog>)
    requires |l| == 4 && l[0].id != l[1].id && l[2].id != l[1].id && l[3].id != l[1].id
    ensures Filter(l, OtherEntry(l[1].id)) == [l[0], l[2], l[3]]
  {
    var keep := OtherEntry(l[1].id);
    assert l == [l[0]] + ([l[1]] + ([l[2]] + ([l[3]] + [])));
    FilterCons(l[0], [l[1]] + ([l[2]] + ([l[3]] + [])), keep);
    FilterCons(l[1], [l[2]] + ([l[3]] + []), keep);
    FilterCons(l[2], [l[3]] + [], keep);
    FilterCons(l[3], [], keep);
  }

  /**
   * With a single registered student, a rename reaches every entry of the
   * log, and deleting that student empties both collections.
   */
  lemma SoleStudentRenameAndDelete(st: State, name: string, pkg: PackageSize)
    requires WellFormed(st) && |st.students| == 1
    ensures var sid := st.students[0].id;
      var r := UpdateStudent(st, sid, name, pkg);
      && r.students[0].lessonBalance == st.students[0].lessonBalance
      && r.students[0].lastPaymentDate == st.students[0].lastPaymentDate
      && r.students[0].cycleExpiration == st.students[0].cycleExpiration
      && (forall j :: 0 <= j < |r.logs| ==> r.logs[j].studentName == name)
      && DeleteStudent(r, sid) == State([], [])
  {
    var sid := st.students[0].id;
    var r := UpdateStudent(st, sid, name, pkg);
    UpdateStudentSpec(st, sid, name, pkg);
    forall j | 0 <= j < |st.logs| ensures st.logs[j].studentId == sid {
      var k := FindStudent(st.students, st.logs[j].studentId).value;
    }
    var d := DeleteStudent(r, sid);
    if d.logs != [] {
      FilterMember(r.logs, OtherStudentsEntry(sid), d.logs[0]);
    }
  }
}
