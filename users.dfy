/** The user directory's record. The User schema itself is not part of this
    model; its fields are the ones the controllers read and write. */
module Users {
  import opened Common

  /** The closed set of roles a User can hold. */
  datatype Role = Student | Teacher | Superadmin

  /** A stored User. `className` is the `class` attribute; attributes that a
      record may lack (department, semester, class, rollNumber) are optional. */
  datatype User = User(
    id: Id,
    name: string,
    email: string,
    password: string,
    role: Role,
    department: Option<string>,
    semester: Option<int>,
    className: Option<string>,
    rollNumber: Option<string>,
    createdAt: int)

  function UserKey(u: User): Id { u.id }

  /** The user stored under `id` (User.findById). */
  function LookupUser(users: seq<User>, id: Id): (r: Option<User>)
    ensures r.Some? ==> r.value in users && r.value.id == id
    ensures r.None? <==> forall u :: u in users ==> u.id != id
  {
    match Find(users, UserKey, id)
    case None => None
    case Some(i) => Some(users[i])
  }

  /** Newest record first: the order of `.sort({ createdAt: -1 })`. */
  predicate NewerUser(a: User, b: User) {
    a.createdAt >= b.createdAt
  }

  /** Name order: the order of `.sort({ name: 1 })`. */
  predicate NameOrder(a: User, b: User) {
    LexLe(a.name, b.name)
  }

  /** Any two users compare by name one way or the other, and the comparison
      chains, so a listing sorted by name is sorted pairwise. */
  lemma NameOrderTotal()
    ensures Total(NameOrder)
    ensures Transitive(NameOrder)
  {
    forall a: User, b: User ensures NameOrder(a, b) || NameOrder(b, a) {
      LexLeTotal(a.name, b.name);
    }
    forall a: User, b: User, c: User | NameOrder(a, b) && NameOrder(b, c) ensures NameOrder(a, c) {
      LexLeTransitive(a.name, b.name, c.name);
    }
  }
}
