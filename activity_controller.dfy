/** The activity controller (backend/controllers/activityController.js):
    submission and review change the store in place; the lists and the
    report are filters, sorts and sums over it. The route layer lets only
    students submit and list their own activities, only teachers list pending
    work and review, teachers and superadmins report, and superadmins list
    everything; each operation here requires that role of its requester. */
module ActivityController {
  import opened Common
  import opened Users
  import opened Activities
  import opened Records

  // ---------------------------------------------------------------------------
  // Predicates the queries are built from

  function OwnedBy(id: Id): Activity -> bool {
    (a: Activity) => a.student == id
  }

  function HasStatus(st: Status): Activity -> bool {
    (a: Activity) => a.status == st
  }

  /** The teacher scope: students of the teacher's department, and of the
      teacher's class when the teacher has a (non-empty) class. */
  predicate InTeacherScope(teacher: User, u: User) {
    && u.role == Student
    && u.department == teacher.department
    && (Truthy(teacher.className) ==> u.className == teacher.className)
  }

  function TeacherScope(teacher: User): User -> bool {
    (u: User) => InTeacherScope(teacher, u)
  }

  /** The identifiers of the students a teacher oversees (`studentIds`). */
  function ScopeIds(users: seq<User>, teacher: User): (ids: set<Id>)
    ensures forall id :: id in ids <==> exists u :: u in users && u.id == id && InTeacherScope(teacher, u)
  {
    var students := Filter(users, TeacherScope(teacher));
    FilterMembers(users, TeacherScope(teacher));
    set u | u in students :: u.id
  }

  function ScopedWithStatus(ids: set<Id>, st: Status): Activity -> bool {
    (a: Activity) => a.student in ids && a.status == st
  }

  function Scoped(ids: set<Id>): Activity -> bool {
    (a: Activity) => a.student in ids
  }

  // ---------------------------------------------------------------------------
  // submitActivity

  /** The form fields of a submission; a field left out or sent empty is None
      for `date` and `level`, and None or "" for the strings. */
  datatype SubmitBody = SubmitBody(
    activityType: Option<string>,
    title: Option<string>,
    description: Option<string>,
    date: Option<int>,
    eventOrganizer: Option<string>,
    level: Option<int>)

  datatype Submitted = Submitted(activity: Activity, teacherCount: nat)

  /** The document the controller hands to `Activity.create`: the requester as
      owner, the owner's live class and department as snapshot, the organizer
      defaulted when falsy and the level defaulted when absent. */
  function SubmitDraft(requester: Id, owner: User, body: SubmitBody, certificate: string): (d: Draft)
    ensures d.student == Some(requester) && d.certificateFile == Some(certificate)
    ensures d.studentClass == owner.className && d.studentDepartment == owner.department
    ensures Truthy(d.eventOrganizer)
    ensures Truthy(body.eventOrganizer) ==> d.eventOrganizer == body.eventOrganizer
    ensures !Truthy(body.eventOrganizer) ==> d.eventOrganizer == Some("Not specified")
    ensures d.level.Some? && (body.level.Some? ==> d.level == body.level)
    ensures body.level.None? ==> d.level == Some(1)
    ensures d.activityType == body.activityType && d.title == body.title
    ensures d.description == body.description && d.date == body.date
  {
    Draft(
      student := Some(requester),
      activityType := body.activityType,
      title := body.title,
      description := body.description,
      eventOrganizer := if Truthy(body.eventOrganizer) then body.eventOrganizer else Some("Not specified"),
      level := Some(body.level.GetOr(1)),
      date := body.date,
      certificateFile := Some(certificate),
      studentClass := owner.className,
      studentDepartment := owner.department)
  }

  function ClassTeacher(student: User): User -> bool {
    (u: User) => u.role == Teacher && u.department == student.department && u.className == student.className
  }

  /** How many teachers share the student's department and class. */
  function TeacherCount(users: seq<User>, student: User): (n: nat)
    ensures n <= |users|
    ensures n == 0 <==> forall u :: u in users ==>
      !(u.role == Teacher && u.department == student.department && u.className == student.className)
  {
    var teachers := Filter(users, ClassTeacher(student));
    assert forall u :: u in users && ClassTeacher(student)(u) ==> u in multiset(teachers);
    |teachers|
  }

  /** Submit a certificate: refuse when no file came with the request, answer
      not-found when the requester's record is gone (leaving the uploaded file
      behind), remove the file when the record fails validation, and otherwise
      append one pending Activity. */
  method SubmitActivity(db: Store, requester: User, certificate: Option<string>, body: SubmitBody, now: int)
    returns (res: Response<Submitted>)
    requires db.Valid() && requester.role == Student
    modifies db
    ensures db.Valid()
    ensures db.users == old(db.users)
    ensures certificate.None? ==> res == BadRequest && unchanged(db)
    ensures certificate.Some? && LookupUser(old(db.users), requester.id).None? ==>
      res == NotFound && unchanged(db)
    ensures certificate.Some? && LookupUser(old(db.users), requester.id).Some? ==>
      var owner := LookupUser(old(db.users), requester.id).value;
      var created := Create(old(db.nextId), SubmitDraft(requester.id, owner, body, certificate.value), now);
      if created.None? then
        && res == ServerError
        && db.activities == old(db.activities) && db.nextId == old(db.nextId)
        && db.files == old(db.files) - {certificate.value}
      else
        && res == Ok(Submitted(created.value, TeacherCount(old(db.users), owner)))
        && db.activities == old(db.activities) + [created.value]
        && db.nextId == old(db.nextId) + 1 && db.files == old(db.files)
  {
    if certificate.None? {
      return BadRequest;
    }
    var path := certificate.value;
    var found := LookupUser(db.users, requester.id);
    if found.None? {
      return NotFound;
    }
    var owner := found.value;
    var created := Create(db.nextId, SubmitDraft(requester.id, owner, body, path), now);
    if created.None? {
      db.files := db.files - {path};
      return ServerError;
    }
    var activity := created.value;
    db.activities := db.activities + [activity];
    db.nextId := db.nextId + 1;
    res := Ok(Submitted(activity, TeacherCount(db.users, owner)));
  }

  // ---------------------------------------------------------------------------
  // getMyActivities

  /** Exactly the requester's own activities, newest first. */
  function MyActivities(activities: seq<Activity>, requester: User): (r: seq<Activity>)
    requires requester.role == Student
    ensures forall a :: multiset(r)[a] == if a.student == requester.id then multiset(activities)[a] else 0
    ensures SortedBy(r, NewerActivity)
  {
    SortBy(Filter(activities, OwnedBy(requester.id)), NewerActivity)
  }

  // ---------------------------------------------------------------------------
  // getPendingActivities

  /** How often `a` is stored, if it is an activity of the given students with
      the given status; 0 otherwise. */
  function ScopedCount(activities: seq<Activity>, ids: set<Id>, st: Status, a: Activity): nat {
    if a.status == st && a.student in ids then multiset(activities)[a] else 0
  }

  datatype PendingList = PendingList(items: seq<Activity>, pending: nat, approved: nat, rejected: nat)

  /** The pending activities of the teacher's students, newest first, with
      the number of pending, approved and rejected activities of the same
      students. */
  function PendingActivities(users: seq<User>, activities: seq<Activity>, teacher: User): (r: PendingList)
    requires teacher.role == Teacher
    ensures forall a :: multiset(r.items)[a] == ScopedCount(activities, ScopeIds(users, teacher), Pending, a)
    ensures SortedBy(r.items, NewerActivity)
    ensures r.pending == |r.items|
    ensures r.approved == |Filter(activities, ScopedWithStatus(ScopeIds(users, teacher), Approved))|
    ensures r.rejected == |Filter(activities, ScopedWithStatus(ScopeIds(users, teacher), Rejected))|
  {
    var ids := ScopeIds(users, teacher);
    var items := SortBy(Filter(activities, ScopedWithStatus(ids, Pending)), NewerActivity);
    assert |items| == |multiset(items)|;
    PendingList(
      items,
      |items|,
      |Filter(activities, ScopedWithStatus(ids, Approved))|,
      |Filter(activities, ScopedWithStatus(ids, Rejected))|)
  }

  /** Every activity of an in-scope student is counted exactly once across
      the pending list and the two statistics. */
  lemma PendingStatsPartition(users: seq<User>, activities: seq<Activity>, teacher: User)
    requires teacher.role == Teacher
    ensures var r := PendingActivities(users, activities, teacher);
      r.pending + r.approved + r.rejected == |Filter(activities, Scoped(ScopeIds(users, teacher)))|
  {
    var ids := ScopeIds(users, teacher);
    var r := PendingActivities(users, activities, teacher);
    assert |r.items| == |multiset(r.items)| == |multiset(Filter(activities, ScopedWithStatus(ids, Pending)))|;
    ScopedPartition(activities, ids);
  }

  lemma {:induction false} ScopedPartition(xs: seq<Activity>, ids: set<Id>)
    ensures |Filter(xs, Scoped(ids))| ==
      |Filter(xs, ScopedWithStatus(ids, Pending))| + |Filter(xs, ScopedWithStatus(ids, Approved))|
      + |Filter(xs, ScopedWithStatus(ids, Rejected))|
  {
    if xs != [] {
      ScopedPartition(xs[1..], ids);
    }
  }

  // ---------------------------------------------------------------------------
  // reviewActivity

  /** The outcome of the guards in front of a review: an answer that leaves the
      store alone, or the position of the activity and the status to apply. */
  datatype ReviewGate = Refuse(response: Response<Activity>) | Proceed(index: nat, status: Status)

  /** The guards of a review, in order: the activity must exist; its owner's
      live record is read (a deleted owner makes the department read fail);
      the owner's live department must be the reviewer's; the status must be
      one of the schema's names. Neither the snapshot fields, the class nor the
      current status are consulted. */
  function CheckReview(users: seq<User>, activities: seq<Activity>, reviewer: User, id: Id, status: string)
    : (g: ReviewGate)
    ensures g == Refuse(NotFound) <==> forall a :: a in activities ==> a.id != id
    ensures g.Proceed? ==>
      && g.index < |activities| && activities[g.index].id == id
      && StatusName(g.status) == status
      && exists u :: u in users && u.id == activities[g.index].student && u.department == reviewer.department
    ensures g == Refuse(Forbidden) ==>
      exists a, u :: a in activities && a.id == id && u in users && u.id == a.student
        && u.department != reviewer.department
  {
    match Find(activities, ActivityKey, id)
    case None => Refuse(NotFound)
    case Some(i) =>
      assert activities[i] in activities;
      match LookupUser(users, activities[i].student)
      case None => Refuse(ServerError)
      case Some(owner) =>
        if owner.department != reviewer.department then Refuse(Forbidden)
        else
          match ParseStatus(status)
          case None => Refuse(ServerError)
          case Some(st) => Proceed(i, st)
  }

  /** The single update a review applies. */
  function Reviewed(a: Activity, st: Status, points: Option<int>, feedback: Option<string>, reviewer: Id, now: int)
    : (r: Activity)
    ensures r.status == st && r.feedback == feedback
    ensures r.pointsAwarded == if st == Approved then points else Some(0)
    ensures r.reviewedBy == Some(reviewer) && r.reviewedAt == Some(now)
    ensures NoPointsUnlessApproved(r) && ReviewRecorded(r)
    ensures Activities.Valid(a) ==> Activities.Valid(r)
    ensures && r.id == a.id && r.student == a.student && r.activityType == a.activityType
            && r.title == a.title && r.description == a.description && r.eventOrganizer == a.eventOrganizer
            && r.level == a.level && r.date == a.date && r.certificateFile == a.certificateFile
            && r.studentClass == a.studentClass && r.studentDepartment == a.studentDepartment
            && r.createdAt == a.createdAt
  {
    a.(status := st,
       pointsAwarded := if st == Approved then points else Some(0),
       feedback := feedback,
       reviewedBy := Some(reviewer),
       reviewedAt := Some(now))
  }

  /** Review an activity: when a guard refuses, answer it and change nothing;
      otherwise replace the activity by its reviewed form in one step. */
  method ReviewActivity(db: Store, reviewer: User, id: Id, status: string, points: Option<int>,
                        feedback: Option<string>, now: int)
    returns (res: Response<Activity>)
    requires db.Valid() && reviewer.role == Teacher
    modifies db
    ensures db.Valid()
    ensures db.users == old(db.users) && db.files == old(db.files) && db.nextId == old(db.nextId)
    ensures match CheckReview(old(db.users), old(db.activities), reviewer, id, status)
      case Refuse(e) => res == e && db.activities == old(db.activities)
      case Proceed(i, st) =>
        var a := Reviewed(old(db.activities)[i], st, points, feedback, reviewer.id, now);
        res == Ok(a) && db.activities == old(db.activities)[i := a]
  {
    var gate := CheckReview(db.users, db.activities, reviewer, id, status);
    match gate
    case Refuse(e) =>
      res := e;
    case Proceed(i, st) =>
      var a := Reviewed(db.activities[i], st, points, feedback, reviewer.id, now);
      db.activities := db.activities[i := a];
      res := Ok(a);
  }

  /** For a stored activity whose owner is on record in the reviewer's
      department, the review goes ahead exactly when the status is a schema
      name; any other name fails the update's validation with a server error. */
  lemma ReviewProceedsExactly(users: seq<User>, activities: seq<Activity>, reviewer: User, status: string,
                              i: nat, j: nat)
    requires DistinctKeys(users, UserKey) && DistinctKeys(activities, ActivityKey)
    requires i < |activities| && j < |users| && users[j].id == activities[i].student
    requires users[j].department == reviewer.department
    ensures CheckReview(users, activities, reviewer, activities[i].id, status).Proceed?
        <==> status in {"pending", "approved", "rejected"}
    ensures status !in {"pending", "approved", "rejected"}
        ==> CheckReview(users, activities, reviewer, activities[i].id, status) == Refuse(ServerError)
    ensures CheckReview(users, activities, reviewer, activities[i].id, status).Proceed?
        ==> CheckReview(users, activities, reviewer, activities[i].id, status).index == i
  {
    FindUnique(activities, ActivityKey, i);
    FindUnique(users, UserKey, j);
  }

  /** Rewriting an activity's snapshot, class or status leaves the guards'
      verdict unchanged: authority comes from the owner's live record only,
      so a reviewed activity can be reviewed again. */
  lemma ReviewIgnoresSnapshot(users: seq<User>, activities: seq<Activity>, reviewer: User, status: string,
                              i: nat, b: Activity)
    requires i < |activities| && DistinctKeys(activities, ActivityKey)
    requires b.id == activities[i].id && b.student == activities[i].student
    ensures CheckReview(users, activities[i := b], reviewer, b.id, status)
         == CheckReview(users, activities, reviewer, b.id, status)
  {
    var updated := activities[i := b];
    assert DistinctKeys(updated, ActivityKey);
    FindUnique(activities, ActivityKey, i);
    FindUnique(updated, ActivityKey, i);
  }

  /** For a stored activity whose owner is on record, a review is forbidden
      exactly when the owner's current department differs from the reviewer's. */
  lemma ReviewForbiddenExactly(users: seq<User>, activities: seq<Activity>, reviewer: User, status: string,
                               i: nat, j: nat)
    requires DistinctKeys(users, UserKey) && DistinctKeys(activities, ActivityKey)
    requires i < |activities| && j < |users| && users[j].id == activities[i].student
    ensures CheckReview(users, activities, reviewer, activities[i].id, status) == Refuse(Forbidden)
        <==> users[j].department != reviewer.department
  {
    FindUnique(activities, ActivityKey, i);
    FindUnique(users, UserKey, j);
  }

  /** Nothing stops a second review: once a review went through, the same
      reviewer may review the same activity again with any schema status. */
  lemma ReviewRepeatable(users: seq<User>, activities: seq<Activity>, reviewer: User, id: Id, status: string,
                         points: Option<int>, feedback: Option<string>, now: int, again: Status)
    requires DistinctKeys(activities, ActivityKey)
    requires CheckReview(users, activities, reviewer, id, status).Proceed?
    ensures var g := CheckReview(users, activities, reviewer, id, status);
      var after := activities[g.index := Reviewed(activities[g.index], g.status, points, feedback, reviewer.id, now)];
      CheckReview(users, after, reviewer, id, StatusName(again)) == Proceed(g.index, again)
  {
    var g := CheckReview(users, activities, reviewer, id, status);
    var b := Reviewed(activities[g.index], g.status, points, feedback, reviewer.id, now);
    ReviewIgnoresSnapshot(users, activities, reviewer, StatusName(again), g.index, b);
    FindUnique(activities, ActivityKey, g.index);
    StatusNameRoundTrip(again);
  }

  // ---------------------------------------------------------------------------
  // getAllActivities

  /** Every stored activity, newest first. */
  function AllActivities(activities: seq<Activity>, requester: User): (r: seq<Activity>)
    requires requester.role == Superadmin
    ensures multiset(r) == multiset(activities)
    ensures SortedBy(r, NewerActivity)
  {
    SortBy(activities, NewerActivity)
  }

  // ---------------------------------------------------------------------------
  // generateReport

  /** The students a report covers: an explicit department wins; otherwise a
      teacher is held to their own department and a superadmin is not held;
      a semester, when given, must match too. */
  predicate InPopulation(requester: User, department: Option<string>, semester: Option<int>, u: User) {
    && u.role == Student
    && (if Truthy(department) then u.department == department
        else requester.role == Teacher ==> u.department == requester.department)
    && (semester.Some? ==> u.semester == semester)
  }

  function Population(users: seq<User>, requester: User, department: Option<string>, semester: Option<int>)
    : seq<User>
  {
    Filter(users, (u: User) => InPopulation(requester, department, semester, u))
  }

  /** Whether an activity passes the report's status query (none when falsy). */
  predicate StatusQueryMatch(status: Option<string>, a: Activity) {
    !Truthy(status) || StatusName(a.status) == status.value
  }

  function RowActivities(id: Id, status: Option<string>): Activity -> bool {
    (a: Activity) => a.student == id && StatusQueryMatch(status, a)
  }

  function RowStatusActivities(id: Id, status: Option<string>, st: Status): Activity -> bool {
    (a: Activity) => a.student == id && StatusQueryMatch(status, a) && a.status == st
  }

  /** The activities of one status among a student's query-passing activities
      are that student's query-passing activities of that status. */
  lemma {:induction false} StatusOfRowActivities(xs: seq<Activity>, id: Id, status: Option<string>, st: Status)
    ensures Filter(Filter(xs, RowActivities(id, status)), HasStatus(st)) == Filter(xs, RowStatusActivities(id, status, st))
  {
    if xs != [] {
      StatusOfRowActivities(xs[1..], id, status, st);
    }
  }

  /** The sum of `pointsAwarded`, a missing value counting as 0. */
  function Points(xs: seq<Activity>): int {
    if xs == [] then 0 else xs[0].pointsAwarded.GetOr(0) + Points(xs[1..])
  }

  datatype ReportRow = ReportRow(
    student: User,
    totalActivities: nat,
    approvedActivities: nat,
    pendingActivities: nat,
    rejectedActivities: nat,
    totalPoints: int)

  /** One student's line of the report: the student's activities passing the
      status query, counted in total and per status, and their points summed. */
  function Row(student: User, activities: seq<Activity>, status: Option<string>): (r: ReportRow)
    ensures r.student == student
    ensures r.totalActivities == |Filter(activities, RowActivities(student.id, status))|
    ensures r.approvedActivities == |Filter(activities, RowStatusActivities(student.id, status, Approved))|
    ensures r.pendingActivities == |Filter(activities, RowStatusActivities(student.id, status, Pending))|
    ensures r.rejectedActivities == |Filter(activities, RowStatusActivities(student.id, status, Rejected))|
    ensures r.totalPoints == Points(Filter(activities, RowActivities(student.id, status)))
    ensures r.totalActivities == r.approvedActivities + r.pendingActivities + r.rejectedActivities
    ensures r.totalActivities == 0 <==> forall a :: a in activities ==> !RowActivities(student.id, status)(a)
  {
    var mine := Filter(activities, RowActivities(student.id, status));
    StatusPartition(mine);
    StatusOfRowActivities(activities, student.id, status, Approved);
    StatusOfRowActivities(activities, student.id, status, Pending);
    StatusOfRowActivities(activities, student.id, status, Rejected);
    assert forall a :: a in activities && RowActivities(student.id, status)(a) ==> a in multiset(mine);
    ReportRow(
      student,
      |mine|,
      |Filter(mine, HasStatus(Approved))|,
      |Filter(mine, HasStatus(Pending))|,
      |Filter(mine, HasStatus(Rejected))|,
      Points(mine))
  }

  lemma {:induction false} StatusPartition(xs: seq<Activity>)
    ensures |xs| == |Filter(xs, HasStatus(Approved))| + |Filter(xs, HasStatus(Pending))|
                    + |Filter(xs, HasStatus(Rejected))|
  {
    if xs != [] {
      StatusPartition(xs[1..]);
    }
  }

  /** The report: one row per student of the population, in the population's
      order, students without activities included. */
  function Report(users: seq<User>, activities: seq<Activity>, requester: User,
                  department: Option<string>, semester: Option<int>, status: Option<string>)
    : (r: seq<ReportRow>)
    requires requester.role == Teacher || requester.role == Superadmin
    ensures |r| == |Population(users, requester, department, semester)|
    ensures forall i :: 0 <= i < |r| ==> r[i] == Row(Population(users, requester, department, semester)[i], activities, status)
    ensures forall u :: (exists i :: 0 <= i < |r| && r[i].student == u)
                    <==> u in users && InPopulation(requester, department, semester, u)
  {
    var students := Population(users, requester, department, semester);
    PopulationMembers(users, requester, department, semester);
    Rows(students, activities, status)
  }

  lemma PopulationMembers(users: seq<User>, requester: User, department: Option<string>, semester: Option<int>)
    ensures forall u :: u in Population(users, requester, department, semester)
                    <==> u in users && InPopulation(requester, department, semester, u)
  {
    FilterMembers(users, (u: User) => InPopulation(requester, department, semester, u));
  }

  /** One row per student, in the students' order. */
  function Rows(students: seq<User>, activities: seq<Activity>, status: Option<string>): (r: seq<ReportRow>)
    ensures |r| == |students|
    ensures forall i :: 0 <= i < |r| ==> r[i] == Row(students[i], activities, status)
    ensures forall u :: (exists i :: 0 <= i < |r| && r[i].student == u) <==> u in students
  {
    if students == [] then []
    else [Row(students[0], activities, status)] + Rows(students[1..], activities, status)
  }

  /** With a status query naming a schema status, a row counts only that
      status; with a query naming no status, the row is all zeros. */
  lemma RowStatusQuery(student: User, activities: seq<Activity>, status: Option<string>)
    requires Truthy(status)
    ensures var r := Row(student, activities, status);
      match ParseStatus(status.value)
      case None => r.totalActivities == 0 && r.totalPoints == 0
      case Some(st) =>
        && (st != Approved ==> r.approvedActivities == 0)
        && (st != Pending ==> r.pendingActivities == 0)
        && (st != Rejected ==> r.rejectedActivities == 0)
  {
    var mine := Filter(activities, RowActivities(student.id, status));
    forall st: Status | StatusName(st) != status.value
      ensures Filter(mine, HasStatus(st)) == []
    {
      FilterNone(mine, HasStatus(st));
    }
    if ParseStatus(status.value).None? {
      forall st: Status ensures StatusName(st) != status.value {
        StatusNameRoundTrip(st);
      }
      StatusPartition(mine);
    }
  }

  /** When every activity holds points only if approved, a row's points are
      exactly the points of the student's approved activities. */
  lemma {:induction false} PointsOnlyFromApproved(xs: seq<Activity>)
    requires forall i :: 0 <= i < |xs| ==> NoPointsUnlessApproved(xs[i])
    ensures Points(xs) == Points(Filter(xs, HasStatus(Approved)))
  {
    if xs != [] {
      PointsOnlyFromApproved(xs[1..]);
    }
  }

  lemma RowPointsFromApproved(db: Store, student: User, status: Option<string>)
    requires db.Valid()
    ensures var mine := Filter(db.activities, RowActivities(student.id, status));
      Row(student, db.activities, status).totalPoints == Points(Filter(mine, HasStatus(Approved)))
  {
    var mine := Filter(db.activities, RowActivities(student.id, status));
    forall i | 0 <= i < |mine| ensures NoPointsUnlessApproved(mine[i]) {
      assert mine[i] in multiset(db.activities);
    }
    PointsOnlyFromApproved(mine);
  }
}
