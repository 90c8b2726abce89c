/** Properties that span both controllers: what a directory edit does to
    later reviews and reports, and the submit-review-report walk-through. */
module Workflow {
  import opened Common
  import opened Users
  import opened Activities
  import opened Records
  import opened ActivityController
  import opened UserController

  /** Deleting a student does not cascade: their activities stay stored, and
      a later review of one fails on the missing owner without changing it. */
  lemma DeletedOwnerBlocksReview(users: seq<User>, activities: seq<Activity>, reviewer: User, status: string,
                                 i: nat, j: nat)
    requires DistinctKeys(users, UserKey) && DistinctKeys(activities, ActivityKey)
    requires i < |activities| && j < |users| && users[j].id == activities[i].student
    ensures CheckReview(Without(users, j), activities, reviewer, activities[i].id, status) == Refuse(ServerError)
  {
    FindUnique(activities, ActivityKey, i);
    var rest := Without(users, j);
    assert forall u :: u in rest ==> u.id != users[j].id;
  }

  /** A deleted student has no row in any later report, although their
      activities are still stored. */
  lemma DeletedStudentLeavesReport(users: seq<User>, activities: seq<Activity>, requester: User, j: nat,
                                   department: Option<string>, semester: Option<int>, status: Option<string>)
    requires requester.role == Teacher || requester.role == Superadmin
    requires DistinctKeys(users, UserKey) && j < |users|
    ensures forall row :: row in Report(Without(users, j), activities, requester, department, semester, status)
                      ==> row.student.id != users[j].id
  {
    var r := Report(Without(users, j), activities, requester, department, semester, status);
    forall row | row in r ensures row.student.id != users[j].id {
      var k :| 0 <= k < |r| && r[k] == row;
      assert row.student in Without(users, j);
    }
  }

  /** Review authority follows the owner's live department: after a
      department transfer the reviews are forbidden exactly to the teachers
      outside the new department, whatever the activity's snapshot says. */
  lemma TransferMovesReviewAuthority(users: seq<User>, activities: seq<Activity>, reviewer: User, status: string,
                                     i: nat, j: nat, edit: UserEdit)
    requires DistinctKeys(users, UserKey) && DistinctKeys(activities, ActivityKey)
    requires i < |activities| && j < |users| && users[j].id == activities[i].student
    ensures var moved := users[j := Edited(users[j], edit)];
      (CheckReview(moved, activities, reviewer, activities[i].id, status) == Refuse(Forbidden))
      <==> (edit.department != reviewer.department)
  {
    var moved := users[j := Edited(users[j], edit)];
    assert DistinctKeys(moved, UserKey);
    ReviewForbiddenExactly(moved, activities, reviewer, status, i, j);
  }

  /** The report over a store holding one approved activity worth 15 points. */
  lemma ScenarioReport(users: seq<User>, activities: seq<Activity>)
    requires |users| == 3 && users[0].role == Student && users[0].department == Some("CS")
    requires users[1].role == Teacher && users[2].role == Teacher
    requires |activities| == 1 && activities[0].student == users[0].id
    requires activities[0].status == Approved && activities[0].pointsAwarded == Some(15)
    ensures Report(users, activities, users[1], Some("CS"), None, None) == [ReportRow(users[0], 1, 1, 0, 0, 15)]
  {
    var s1 := users[0];
    var b := activities[0];
    assert activities == [b];
    assert users == [s1] + [users[1]] + [users[2]];
    assert Population(users, users[1], Some("CS"), None) == [s1];
    var mine := Filter([b], RowActivities(s1.id, None));
    assert mine == [b];
    assert Filter(mine, HasStatus(Approved)) == [b];
    assert Filter(mine, HasStatus(Pending)) == [];
    assert Filter(mine, HasStatus(Rejected)) == [];
    assert Points(mine) == 15;
    assert Row(s1, [b], None) == ReportRow(s1, 1, 1, 0, 0, 15);
    assert Rows([s1], [b], None) == [Row(s1, [b], None)];
  }

  /** The guards over a store holding one activity of a CS student: an EE
      teacher is refused, a CS teacher may approve. */
  lemma ScenarioGuards(users: seq<User>, a: Activity)
    requires |users| == 3 && users[0].id == a.student && users[0].department == Some("CS")
    requires users[1].department == Some("CS") && users[2].department == Some("EE")
    ensures CheckReview(users, [a], users[2], a.id, "approved") == Refuse(Forbidden)
    ensures CheckReview(users, [a], users[1], a.id, "approved") == Proceed(0, Approved)
  {
    assert Find([a], ActivityKey, a.id) == Some(0);
    assert LookupUser(users, a.student) == Some(users[0]);
    StatusNameRoundTrip(Approved);
  }

  /** A student submits, a teacher of another department is refused, a
      teacher of the student's department approves with 15 points, and the
      department report shows one approved activity worth 15 points. */
  method ReviewScenario()
  {
    var s1 := User(1, "S1", "s1@college.edu", "hash", Student, Some("CS"), Some(5), Some("A"), Some("CS01"), 0);
    var t1 := User(2, "T1", "t1@college.edu", "hash", Teacher, Some("CS"), None, Some("A"), None, 0);
    var t2 := User(3, "T2", "t2@college.edu", "hash", Teacher, Some("EE"), None, None, None, 0);
    var db := new Store([s1, t1, t2], {"uploads/cert.pdf"});

    var body := SubmitBody(Some("Technical"), Some("Hackathon"), Some("24-hour hackathon"), Some(20231015), None, None);
    assert "Technical" in TypeNames;
    assert LookupUser(db.users, 1) == Some(s1);
    var draft := SubmitDraft(1, s1, body, "uploads/cert.pdf");
    assert Create(0, draft, 100).Some?;
    var submitted := SubmitActivity(db, s1, Some("uploads/cert.pdf"), body, 100);
    assert submitted.Ok?;
    var a := submitted.value.activity;
    assert a.status == Pending && a.pointsAwarded == Some(0) && a.studentDepartment == Some("CS");
    assert db.activities == [a] && a.id == 0;

    ScenarioGuards(db.users, a);
    var refused := ReviewActivity(db, t2, 0, "approved", Some(15), None, 200);
    assert refused == Forbidden && db.activities == [a];

    var approved := ReviewActivity(db, t1, 0, "approved", Some(15), None, 300);
    assert approved.Ok? && approved.value.status == Approved && approved.value.pointsAwarded == Some(15);
    assert approved.value.reviewedBy == Some(2);
    ScenarioReport(db.users, db.activities);
    var report := Report(db.users, db.activities, t1, Some("CS"), None, None);
    assert report == [ReportRow(s1, 1, 1, 0, 0, 15)];
  }
}
