/** The user document of models/userModel.js and the in-memory store that
    stands in for its collection. */
module UserModel {
  import opened Wrappers
  import opened JsValues

  /** The document id the store assigns on creation. */
  type UserId = nat

  /** One stored user. The fields the request body supplies keep the
      JavaScript value they were given; `password` holds the hash; and
      `registerAt` is the creation time in milliseconds since the epoch. */
  datatype User = User(
    id: UserId,
    name: JsValue,
    email: JsValue,
    password: string,
    address: JsValue,
    latitude: JsValue,
    longitude: JsValue,
    status: string,
    registerAt: int)

  const Active: string := "active"
  const Inactive: string := "inactive"

  /** The schema's `unique` index on email. */
  predicate UniqueEmails(users: seq<User>) {
    forall i, j :: 0 <= i < j < |users| ==> users[i].email != users[j].email
  }

  /** Ids are handed out in creation order: the record at position i has id i. */
  predicate DenseIds(users: seq<User>) {
    forall i :: 0 <= i < |users| ==> users[i].id == i
  }

  predicate WellFormed(users: seq<User>) {
    DenseIds(users) && UniqueEmails(users)
  }

  /** The statuses are the two values the handlers ever write. */
  predicate Enumerated(users: seq<User>) {
    forall i :: 0 <= i < |users| ==> users[i].status == Active || users[i].status == Inactive
  }

  /** `User.findOne({ email })` finds a document. */
  predicate EmailTaken(users: seq<User>, email: JsValue) {
    exists i :: 0 <= i < |users| && users[i].email == email
  }

  /** `User.findById(id)`: the record with that id, if any. */
  function FindById(users: seq<User>, id: UserId): (r: Option<User>)
    ensures r.Some? ==> r.value in users && r.value.id == id
    ensures r.None? ==> forall i :: 0 <= i < |users| ==> users[i].id != id
  {
    if users == [] then None
    else if users[0].id == id then Some(users[0])
    else FindById(users[1..], id)
  }

  /** With ids handed out in creation order, `findById` finds exactly the
      ids below the number of records, and finds the record at that position. */
  lemma FindByIdDense(users: seq<User>, id: UserId)
    requires DenseIds(users)
    ensures FindById(users, id).Some? <==> id < |users|
    ensures id < |users| ==> FindById(users, id) == Some(users[id])
  {
    var r := FindById(users, id);
    if id < |users| {
      assert users[id].id == id;
    }
    if r.Some? {
      var k :| 0 <= k < |users| && users[k] == r.value;
      assert users[k].id == k;
    }
  }

}
