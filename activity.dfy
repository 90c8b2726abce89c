/** The Activity record and its schema (backend/models/Activity.js): the
    closed enums, the required fields, the `level` bounds and the defaults
    that `Activity.create` fills in before it validates. */
module Activities {
  import opened Common

  datatype ActivityType = Sports | Cultural | Technical | ProfessionalDevelopment | CommunityService | Other

  function TypeName(t: ActivityType): string {
    match t
    case Sports => "Sports"
    case Cultural => "Cultural"
    case Technical => "Technical"
    case ProfessionalDevelopment => "Professional Development"
    case CommunityService => "Community Service"
    case Other => "Other"
  }

  /** The enum of the `activityType` path, as written in the schema. */
  const TypeNames: set<string> :=
    {"Sports", "Cultural", "Technical", "Professional Development", "Community Service", "Other"}

  /** The category a name denotes; only the six schema names denote one. */
  function ParseActivityType(s: string): (r: Option<ActivityType>)
    ensures r.Some? <==> s in TypeNames
    ensures r.Some? ==> TypeName(r.value) == s
  {
    if s == "Sports" then Some(Sports)
    else if s == "Cultural" then Some(Cultural)
    else if s == "Technical" then Some(Technical)
    else if s == "Professional Development" then Some(ProfessionalDevelopment)
    else if s == "Community Service" then Some(CommunityService)
    else if s == "Other" then Some(Other)
    else None
  }

  datatype Status = Pending | Approved | Rejected

  function StatusName(s: Status): string {
    match s
    case Pending => "pending"
    case Approved => "approved"
    case Rejected => "rejected"
  }

  /** The status a name denotes; only the three schema names denote one. */
  function ParseStatus(s: string): (r: Option<Status>)
    ensures r.Some? <==> s in {"pending", "approved", "rejected"}
    ensures r.Some? ==> StatusName(r.value) == s
  {
    if s == "pending" then Some(Pending)
    else if s == "approved" then Some(Approved)
    else if s == "rejected" then Some(Rejected)
    else None
  }

  lemma StatusNameRoundTrip(s: Status)
    ensures ParseStatus(StatusName(s)) == Some(s)
  {
  }

  /** A stored Activity. `date`, `reviewedAt` and `createdAt` are instants;
      `studentClass` and `studentDepartment` are the owner's attributes as
      they were at submission and are never re-synchronised. */
  datatype Activity = Activity(
    id: Id,
    student: Id,
    activityType: ActivityType,
    title: string,
    description: string,
    eventOrganizer: string,
    level: int,
    date: int,
    certificateFile: string,
    studentClass: Option<string>,
    studentDepartment: Option<string>,
    pointsAwarded: Option<int>,
    status: Status,
    feedback: Option<string>,
    reviewedBy: Option<Id>,
    reviewedAt: Option<int>,
    createdAt: int)

  function ActivityKey(a: Activity): Id { a.id }

  /** The schema constraints a stored Activity meets beyond its types:
      the required strings are non-empty and `level` lies in 1..5.
      `pointsAwarded` has no bounds. */
  predicate Valid(a: Activity) {
    a.title != "" && a.description != "" && a.certificateFile != "" && 1 <= a.level <= 5
  }

  /** The document handed to `Activity.create`: each path may be missing. */
  datatype Draft = Draft(
    student: Option<Id>,
    activityType: Option<string>,
    title: Option<string>,
    description: Option<string>,
    eventOrganizer: Option<string>,
    level: Option<int>,
    date: Option<int>,
    certificateFile: Option<string>,
    studentClass: Option<string>,
    studentDepartment: Option<string>)

  /** `Activity.create`: fill in the schema defaults, then validate. A required
      string path fails on a missing or empty value; the result is None exactly
      when a validator fails. */
  function Create(id: Id, d: Draft, now: int): (r: Option<Activity>)
    ensures r.None? <==>
      || d.student.None? || d.date.None?
      || !Truthy(d.title) || !Truthy(d.description) || !Truthy(d.certificateFile)
      || d.activityType.None? || d.activityType.value !in TypeNames
      || !(1 <= d.level.GetOr(1) <= 5)
    ensures r.Some? ==> Valid(r.value)
    ensures r.Some? ==> var a := r.value;
      && a.id == id && a.createdAt == now
      && Some(a.student) == d.student && Some(TypeName(a.activityType)) == d.activityType
      && Some(a.title) == d.title && Some(a.description) == d.description
      && Some(a.date) == d.date && Some(a.certificateFile) == d.certificateFile
      && a.studentClass == d.studentClass && a.studentDepartment == d.studentDepartment
      && a.eventOrganizer == d.eventOrganizer.GetOr("Not specified")
      && a.level == d.level.GetOr(1)
      && a.status == Pending && a.pointsAwarded == Some(0)
      && a.feedback.None? && a.reviewedBy.None? && a.reviewedAt.None?
  {
    if d.student.None? || d.date.None? || d.activityType.None? then None
    else if !Truthy(d.title) || !Truthy(d.description) || !Truthy(d.certificateFile) then None
    else
      match ParseActivityType(d.activityType.value)
      case None => None
      case Some(kind) =>
        var level := d.level.GetOr(1);
        if level < 1 || level > 5 then None
        else Some(Activity(
          id := id,
          student := d.student.value,
          activityType := kind,
          title := d.title.value,
          description := d.description.value,
          eventOrganizer := d.eventOrganizer.GetOr("Not specified"),
          level := level,
          date := d.date.value,
          certificateFile := d.certificateFile.value,
          studentClass := d.studentClass,
          studentDepartment := d.studentDepartment,
          pointsAwarded := Some(0),
          status := Pending,
          feedback := None,
          reviewedBy := None,
          reviewedAt := None,
          createdAt := now))
  }

  /** Points are carried only by approved activities: anything else holds 0. */
  predicate NoPointsUnlessApproved(a: Activity) {
    a.status != Approved ==> a.pointsAwarded == Some(0)
  }

  /** A decided activity records who reviewed it and when. (A review back to
      pending records them too, so the converse does not hold.) */
  predicate ReviewRecorded(a: Activity) {
    a.status != Pending ==> a.reviewedBy.Some? && a.reviewedAt.Some?
  }

  /** Newest record first: the order of `.sort({ createdAt: -1 })`. */
  predicate NewerActivity(a: Activity, b: Activity) {
    a.createdAt >= b.createdAt
  }
}
