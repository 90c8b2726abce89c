/** The user controller (backend/controllers/userController.js): guarded
    lookups and filtered, sorted listings of the directory, and the two edits
    a superadmin makes to it. The route layer admits superadmins to every
    operation and teachers to the role listing and the lookup by id; each
    operation here requires that role of its requester. */
module UserController {
  import opened Common
  import opened Users
  import opened Records

  /** Every user, newest first. */
  function AllUsers(users: seq<User>, requester: User): (r: seq<User>)
    requires requester.role == Superadmin
    ensures multiset(r) == multiset(users)
    ensures SortedBy(r, NewerUser)
  {
    SortBy(users, NewerUser)
  }

  /** Who a role listing shows: users of that role, and only those of the
      requester's department when a teacher lists students. */
  predicate Listed(requester: User, role: Role, u: User) {
    && u.role == role
    && (requester.role == Teacher && role == Student ==> u.department == requester.department)
  }

  function ListedBy(requester: User, role: Role): User -> bool {
    (u: User) => Listed(requester, role, u)
  }

  /** The number of stored copies of `u` when the listing shows it, else 0. */
  function ListedCount(users: seq<User>, requester: User, role: Role, u: User): nat {
    if Listed(requester, role, u) then multiset(users)[u] else 0
  }

  /** Users of the requested role, by name: only "student" and "teacher" may
      be asked for. */
  function UsersByRole(users: seq<User>, requester: User, role: string): (r: Response<seq<User>>)
    requires requester.role == Teacher || requester.role == Superadmin
    ensures r == BadRequest <==> role != "student" && role != "teacher"
    ensures r != BadRequest ==> r.Ok?
    ensures r.Ok? ==> var wanted := if role == "student" then Student else Teacher;
      && (forall u :: multiset(r.value)[u] == ListedCount(users, requester, wanted, u))
      && (forall i, j :: 0 <= i < j < |r.value| ==> LexLe(r.value[i].name, r.value[j].name))
  {
    if role != "student" && role != "teacher" then BadRequest
    else
      var wanted := if role == "student" then Student else Teacher;
      NameOrderTotal();
      var listed := SortBy(Filter(users, ListedBy(requester, wanted)), NameOrder);
      SortedPairwise(listed, NameOrder);
      Ok(listed)
  }

  /** The user stored under `id`, unless a teacher asks for a student of
      another department. */
  function UserById(users: seq<User>, requester: User, id: Id): (r: Response<User>)
    requires requester.role == Teacher || requester.role == Superadmin
    ensures r == NotFound <==> forall u :: u in users ==> u.id != id
    ensures r.Ok? || r == NotFound || r == Forbidden
    ensures r.Ok? ==> r.value in users && r.value.id == id
    ensures r == Forbidden ==> requester.role == Teacher
  {
    match LookupUser(users, id)
    case None => NotFound
    case Some(u) =>
      if requester.role == Teacher && u.role == Student && u.department != requester.department then Forbidden
      else Ok(u)
  }

  /** For a stored user, the lookup is forbidden exactly when a teacher asks
      for a student of another department, and yields that user otherwise. */
  lemma UserByIdForbiddenExactly(users: seq<User>, requester: User, j: nat)
    requires requester.role == Teacher || requester.role == Superadmin
    requires DistinctKeys(users, UserKey) && j < |users|
    ensures var forbidden := requester.role == Teacher && users[j].role == Student
                             && users[j].department != requester.department;
      UserById(users, requester, users[j].id) == if forbidden then Forbidden else Ok(users[j])
  {
    FindUnique(users, UserKey, j);
  }

  /** The attributes an update writes. */
  datatype UserEdit = UserEdit(
    name: string,
    email: string,
    role: Role,
    department: Option<string>,
    semester: Option<int>,
    className: Option<string>,
    rollNumber: Option<string>)

  /** A user after an update: the seven edited attributes are replaced, and
      the identity, password and creation time are kept. */
  function Edited(u: User, e: UserEdit): (r: User)
    ensures r.id == u.id && r.password == u.password && r.createdAt == u.createdAt
    ensures && r.name == e.name && r.email == e.email && r.role == e.role
            && r.department == e.department && r.semester == e.semester
            && r.className == e.className && r.rollNumber == e.rollNumber
  {
    u.(name := e.name, email := e.email, role := e.role, department := e.department,
       semester := e.semester, className := e.className, rollNumber := e.rollNumber)
  }

  /** Update a user: not-found and no change when the id is unknown; otherwise
      that user alone is rewritten. */
  method UpdateUser(db: Store, requester: User, id: Id, edit: UserEdit) returns (res: Response<User>)
    requires db.Valid() && requester.role == Superadmin
    modifies db
    ensures db.Valid()
    ensures db.activities == old(db.activities) && db.files == old(db.files) && db.nextId == old(db.nextId)
    ensures match Find(old(db.users), UserKey, id)
      case None => res == NotFound && db.users == old(db.users)
      case Some(i) =>
        var u := Edited(old(db.users)[i], edit);
        res == Ok(u) && db.users == old(db.users)[i := u]
  {
    match Find(db.users, UserKey, id)
    case None =>
      res := NotFound;
    case Some(i) =>
      var u := Edited(db.users[i], edit);
      db.users := db.users[i := u];
      res := Ok(u);
  }

  /** The directory without the user at position `i`. */
  function Without(users: seq<User>, i: nat): (r: seq<User>)
    requires i < |users|
    ensures |r| == |users| - 1
    ensures DistinctKeys(users, UserKey) ==>
      forall u :: u in r <==> u in users && u.id != users[i].id
  {
    var r := users[..i] + users[i + 1..];
    assert forall k :: 0 <= k < |r| ==> r[k] == if k < i then users[k] else users[k + 1];
    assert forall k :: 0 <= k < |users| && k != i ==> users[k] == r[if k < i then k else k - 1];
    r
  }

  /** Delete a user: not-found and no change when the id is unknown; otherwise
      that user alone is removed, and no Activity is touched. */
  method DeleteUser(db: Store, requester: User, id: Id) returns (res: Response<()>)
    requires db.Valid() && requester.role == Superadmin
    modifies db
    ensures db.Valid()
    ensures db.activities == old(db.activities) && db.files == old(db.files) && db.nextId == old(db.nextId)
    ensures match Find(old(db.users), UserKey, id)
      case None => res == NotFound && db.users == old(db.users)
      case Some(i) => res == Ok(()) && db.users == Without(old(db.users), i)
  {
    match Find(db.users, UserKey, id)
    case None =>
      res := NotFound;
    case Some(i) =>
      db.users := Without(db.users, i);
      res := Ok(());
  }
}
