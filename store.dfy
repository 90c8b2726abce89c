/** The record store shared by the controllers: the User and Activity
    collections in their natural (insertion) order, and the certificate
    files present in the upload directory. */
module Records {
  import opened Common
  import opened Users
  import opened Activities

  class Store {
    var users: seq<User>
    var activities: seq<Activity>
    /** Paths of the certificate files currently on disk. */
    var files: set<string>
    /** The identifier the next created Activity receives. */
    var nextId: Id

    /** Identifiers are unique and every stored Activity meets its schema,
        carries points only when approved, and names its reviewer and review
        time once approved or rejected. Owners are NOT required to
        exist: deleting a User leaves its activities in place. */
    ghost predicate Valid()
      reads this
    {
      && DistinctKeys(users, UserKey)
      && DistinctKeys(activities, ActivityKey)
      && forall i :: 0 <= i < |activities| ==>
           activities[i].id < nextId && Activities.Valid(activities[i]) && NoPointsUnlessApproved(activities[i])
           && ReviewRecorded(activities[i])
    }

    constructor (users: seq<User>, files: set<string>)
      requires DistinctKeys(users, UserKey)
      ensures Valid()
      ensures this.users == users && activities == [] && this.files == files && nextId == 0
    {
      this.users := users;
      activities := [];
      this.files := files;
      nextId := 0;
    }
  }
}
