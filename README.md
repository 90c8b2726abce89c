# Activity review workflow and access scoping

A Dafny model of the core of an activity-points tracker for an academic
institution. Students submit extracurricular-activity certificates. Teachers
review them and award points. Teachers and superadmins report per student.
Superadmins edit the user directory.

The model covers three source files:

- `backend/models/Activity.js`: the Activity schema. It has two closed enums
  (activity type, status), required paths, `level` bounds of 1..5 and
  defaults. The model has a validity predicate (`Activities.Valid`) and a
  defaulting, validating constructor (`Activities.Create`).
- `backend/controllers/activityController.js`: submission and review change
  the store in place. They are methods on a `Records.Store` object. Listing
  one's own activities, the teacher's pending list, the full listing and the
  report are functions over the stored sequences.
- `backend/controllers/userController.js`: the full listing, the role listing
  and the lookup by id are functions. Update and delete are methods on the store.

The store (`Records.Store`) holds the User and Activity collections in their
natural order. It also holds the certificate files present on disk and the
next Activity identifier. Its invariant says that identifiers are unique and
that every stored Activity meets its schema. It also says that an Activity
carries points only when approved, and that an approved or rejected Activity
names its reviewer and review time. The invariant does NOT say that an
Activity's owner exists, because deleting a user does not cascade.

Responses become `Common.Response`: `Ok`, `BadRequest`, `NotFound`,
`Forbidden` or `ServerError`. The role checks of the route layer become
`requires` clauses on the requester's role. The clock is a `now` parameter.
`Workflow` holds properties that span both controllers. It also holds a
verified walk-through: a submit, a refused review, an approving review and
the department report.

Behaviour of the code that a reader might not expect:

- A review has no terminal-state guard. An approved or rejected activity can
  be reviewed again (`ActivityController.ReviewRepeatable`).
- A review may set the status back to `pending`. It still records the
  reviewer and the time, so "reviewer set iff not pending" does not hold.
- A submission whose requester record is gone answers not-found and leaves
  the uploaded file on disk. Only the failure path after validation removes it.
- An out-of-department review or lookup answers 403. It is not disguised as
  not-found.
- The report lists students in the directory's natural order, not by an
  explicit sort key.

## Model

| member | source | states |
|---|---|---|
| `Activities.ParseActivityType` | backend/models/Activity.js:9-20 | a name denotes an activity type exactly when it is one of the six enum names, and it denotes the type with that name |
| `Activities.ParseStatus` | backend/models/Activity.js:58-62 | a name denotes a status exactly when it is pending, approved or rejected |
| `Activities.Valid` | backend/models/Activity.js:21-46 | a stored activity has a non-empty title, description and certificate path, and a level in 1..5 |
| `Activities.NoPointsUnlessApproved` | backend/controllers/activityController.js:189 | an activity that is not approved carries 0 points, since creation stores 0 and every review stores 0 unless it approves |
| `Activities.ReviewRecorded` | backend/controllers/activityController.js:185-193 | an approved or rejected activity names its reviewer and review time |
| `Activities.Create` | backend/models/Activity.js:3-77 | creation fails exactly when `student` or `date` is missing, a required string is missing or empty, the type is outside the enum, or the level (default 1) is outside 1..5; a created record meets the schema, copies the given paths, defaults the organizer to 'Not specified', is pending with 0 points, has no feedback or reviewer, and is stamped `now` |
| `Records.Store.Valid` | backend/models/Activity.js:3-77 | the store invariant: unique user and activity ids, ids below the next id, every activity meets the schema, carries points only when approved, and names its reviewer and time once approved or rejected |
| `Records.Store.constructor` | backend/models/Activity.js:3-77 | the source has no counterpart: this sets up an initial store for the model, with the given users, no activities and the given files, and it meets the invariant over the schema |
| `ActivityController.SubmitDraft` | backend/controllers/activityController.js:31-43 | the record names the requester as owner and snapshots the owner's live class and department; a falsy organizer becomes 'Not specified' and an absent level becomes 1 |
| `ActivityController.TeacherCount` | backend/controllers/activityController.js:46-52 | the count is 0 exactly when no teacher shares the student's department and class |
| `ActivityController.SubmitActivity` | backend/controllers/activityController.js:9-74 | no file gives bad-request and no change; an unknown requester gives not-found and no change, with the file left on disk; a failed validation gives a server error, no new record and the file removed; otherwise exactly one pending record is appended and the teacher count is returned |
| `ActivityController.MyActivities` | backend/controllers/activityController.js:81-82 | the result holds exactly the requester's activities, with their multiplicities, newest first |
| `ActivityController.InTeacherScope` | backend/controllers/activityController.js:104-112 | a teacher oversees the students of their department, and of their class when they have one |
| `ActivityController.ScopeIds` | backend/controllers/activityController.js:104-117 | an id is in the teacher's scope exactly when it belongs to a student of the teacher's department and, if the teacher has a class, of that class |
| `ActivityController.PendingActivities` | backend/controllers/activityController.js:104-146 | the list holds exactly the pending activities of in-scope students, newest first; `pending` is its length; approved and rejected are counted over the same students |
| `ActivityController.PendingStatsPartition` | backend/controllers/activityController.js:119-144 | pending + approved + rejected equals the number of activities of in-scope students |
| `ActivityController.CheckReview` | backend/controllers/activityController.js:164-194 | not-found exactly when no activity has the id; going ahead implies that the owner exists in the reviewer's department and that the status is a schema name; forbidden implies that the owner's live department differs |
| `ActivityController.ReviewProceedsExactly` | backend/controllers/activityController.js:164-206 | for a stored activity whose owner is in the reviewer's department, the review goes ahead at that activity exactly when the status is pending, approved or rejected, and any other status gives a server error |
| `ActivityController.Reviewed` | backend/controllers/activityController.js:185-195 | sets status, feedback, reviewer and time; points are the supplied value when approved and 0 otherwise; schema validity, "points only when approved" and "decided implies reviewer recorded" are kept; owner, content, certificate and snapshot are unchanged |
| `ActivityController.ReviewActivity` | backend/controllers/activityController.js:159-208 | a refused review answers the refusal and changes nothing; otherwise only that activity is replaced by its reviewed form; the store invariant is kept |
| `ActivityController.ReviewIgnoresSnapshot` | backend/controllers/activityController.js:173-182 | rewriting an activity's snapshot, class or status does not change the guards' verdict |
| `ActivityController.ReviewForbiddenExactly` | backend/controllers/activityController.js:173-182 | for a stored activity with a stored owner, review is forbidden exactly when the owner's live department differs from the reviewer's |
| `ActivityController.ReviewRepeatable` | backend/controllers/activityController.js:164-195 | after a review went through, the same reviewer can review the activity again with any status |
| `ActivityController.AllActivities` | backend/controllers/activityController.js:215-218 | every stored activity, with its multiplicity, newest first |
| `ActivityController.StatusQueryMatch` | backend/controllers/activityController.js:244-246 | an activity passes the report's status query when the query is absent or empty, or names the activity's status |
| `ActivityController.Population` | backend/controllers/activityController.js:249-263 | the report's students: the stored users passing the population filter, in the directory's order |
| `ActivityController.InPopulation` | backend/controllers/activityController.js:249-260 | the report covers students only: of the requested department when one is given, else of a teacher's own department, and of the requested semester when one is given |
| `ActivityController.Points` | backend/controllers/activityController.js:279-282 | the sum of the activities' points, a missing value counting as 0 |
| `ActivityController.StatusOfRowActivities` | backend/controllers/activityController.js:293-295 | the activities of one status among a student's query-passing activities are that student's query-passing activities of that status |
| `ActivityController.Row` | backend/controllers/activityController.js:274-298 | the total counts the student's activities passing the status query; each status count counts those of that status; the points are the sum over them; the total is the sum of the three status counts, and it is 0 exactly when the student has no activity passing the query |
| `ActivityController.StatusPartition` | backend/controllers/activityController.js:293-296 | the three status counts of a list add up to its length |
| `ActivityController.Rows` | backend/controllers/activityController.js:274-299 | one row per student, in the students' order, each row being that student's `Row` |
| `ActivityController.Report` | backend/controllers/activityController.js:248-299 | one row per student in the population, in directory order, each row being that student's `Row` over the stored activities, students without activities included; a user has a row exactly when they are a student in the population (explicit department, else the teacher's own, plus semester) |
| `ActivityController.PopulationMembers` | backend/controllers/activityController.js:249-262 | a user is in the population exactly when they are a student passing the department and semester filters |
| `ActivityController.RowStatusQuery` | backend/controllers/activityController.js:244-296 | with a status query naming a status, the other two counts are 0; with a query naming no status, the row is all zeros |
| `ActivityController.PointsOnlyFromApproved` | backend/controllers/activityController.js:279-282 | when only approved activities carry points, the sum over a list equals the sum over its approved activities |
| `ActivityController.RowPointsFromApproved` | backend/controllers/activityController.js:279-282 | in a valid store, a row's points are the points of the student's approved activities |
| `Users.LookupUser` | backend/controllers/activityController.js:22-28 | the user found has the requested id and is stored; nothing is found exactly when no stored user has that id |
| `Users.NameOrderTotal` | backend/controllers/userController.js:47 | the name order used by the role listing relates every pair of users and is transitive, so the listing can be sorted by it |
| `UserController.AllUsers` | backend/controllers/userController.js:8 | every user, with its multiplicity, newest first |
| `UserController.Listed` | backend/controllers/userController.js:39-44 | a role listing shows the users of that role, and only those of the teacher's department when a teacher lists students |
| `UserController.UsersByRole` | backend/controllers/userController.js:29-47 | bad-request exactly when the role is neither 'student' nor 'teacher'; otherwise exactly the users of that role, narrowed to the teacher's department only when a teacher lists students, with every earlier name ordered before every later one |
| `UserController.UserById` | backend/controllers/userController.js:68-85 | not-found exactly when no user has the id; otherwise the user, or forbidden, and forbidden only for a teacher |
| `UserController.UserByIdForbiddenExactly` | backend/controllers/userController.js:77-85 | for a stored user, the lookup is forbidden exactly when a teacher asks for a student of another department, and yields the user otherwise |
| `UserController.Edited` | backend/controllers/userController.js:117-130 | the seven edited attributes take the supplied values; id, password and creation time are kept |
| `UserController.UpdateUser` | backend/controllers/userController.js:103-135 | an unknown id gives not-found and no change; otherwise only that user is rewritten; activities are untouched |
| `UserController.Without` | backend/controllers/userController.js:159 | with unique ids, the remaining users are exactly those with another id |
| `UserController.DeleteUser` | backend/controllers/userController.js:148-164 | an unknown id gives not-found and no change; otherwise only that user is removed; no activity is removed or altered |
| `Workflow.DeletedOwnerBlocksReview` | backend/controllers/activityController.js:173-182 | after the owner is deleted, reviewing their activity fails with a server error |
| `Workflow.DeletedStudentLeavesReport` | backend/controllers/activityController.js:248-263 | a deleted student has no row in any later report |
| `Workflow.TransferMovesReviewAuthority` | backend/controllers/activityController.js:173-182 | after the owner's department is edited, review is forbidden exactly to teachers outside the new department, whatever the snapshot says |
| `Workflow.ScenarioGuards` | backend/controllers/activityController.js:164-194 | in the walk-through, the other department's teacher is forbidden and the student's teacher may approve |
| `Workflow.ScenarioReport` | backend/controllers/activityController.js:274-299 | in the walk-through, the department report has one row: 1 activity, 1 approved, 15 points |

## Left out

- HTTP and Express plumbing: requests, responses, messages and status codes become parameters and `Response` values. The route files are represented only by the role `requires` on each operation.
- Authentication, tokens and password hashing: the requester is a `User` value that the auth layer has already verified.
- The User schema (`backend/models/User.js` is not part of this model). Its validators, which `updateUser` runs, are not modelled. An update whose values it would reject (a duplicate email, say) is not distinguished from a successful one.
- `populate`, `select` and the password projection: these are display-only. The report's `.sort({'student.name': 1})` has no effect on the row order, so it is omitted.
- Store failures other than schema validation (connection errors and the like) are not modelled. This includes a failure of the teacher query after the activity is already stored; the source would then remove the file of a stored activity.
- The file removal is modelled as dropping the path from `Store.files`. The asynchronous `fs.unlink` callback and its failure are not modelled.
- Mongoose's treatment of `undefined` filter values, which can drop a condition, is not modelled. An absent attribute is compared as a value, the way `!==` compares it.
- Malformed identifiers: a path id that is not an ObjectId makes `findById` throw, and reviewActivity, getUserById, updateUser and deleteUser then answer 500. The model's `Id` is always well-formed, so its "not-found exactly when no record has the id" holds only for well-formed ids.
- Type casting of request fields: `date`, `level` and the semester query arrive as integers. An absent or empty field is `None`. A supplied `level` is kept even when it is 0, as a non-empty form string is truthy. Non-integer numbers and NaN are not modelled.
- Update requests that omit fields, and reviews that omit the status, are not modelled. Every listed key is written, and `None` stores an absent value.
- `ActivityController.TeacherCount`: states when the count is zero and its bound, not the exact count of matching teachers.
- Ties in the sorts: the model promises a sorted permutation. It does not promise the store's order among records with equal keys.
- ObjectId generation becomes the store's `nextId` counter. `Date.now()` becomes the `now` parameter.
- Concurrency: requests are taken one at a time, and each update is atomic.
- `backend/scripts/seed-data.js` and `backend/scripts/check-database.js`: these are database and console scripts.
