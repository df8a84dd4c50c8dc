/** The registration, status-toggle and distance handlers of
    controllers/userController.js, run against an in-memory user store.
    Password hashing and token signing are oracles passed in as functions;
    the clock is the `now` parameter. */
module UserController {
  import opened Wrappers
  import opened JsValues
  import opened UserModel

  /** What a handler answers: 200 with a message and a payload, or an error
      status with a message. */
  datatype Response<T> = Success(message: string, data: T) | Failure(status: int, message: string)
  {
    function StatusCode(): int {
      if Success? then 200 else status
    }
  }

  // ---------------------------------------------------------------------
  // registerUser
  // ---------------------------------------------------------------------

  /** The fields `registerUser` reads from `req.body`. */
  datatype RegisterBody = RegisterBody(
    name: JsValue,
    email: JsValue,
    password: JsValue,
    address: JsValue,
    latitude: JsValue,
    longitude: JsValue)

  /** The presence test of registerUser: every field is truthy. So an empty
      string, `false`, `null`, a missing key and the number 0 all fail it. */
  predicate AllFieldsPresent(b: RegisterBody) {
    Truthy(b.name) && Truthy(b.email) && Truthy(b.password)
    && Truthy(b.address) && Truthy(b.latitude) && Truthy(b.longitude)
  }

  /** The `data` of a successful registration. It has no password field. */
  datatype PublicUser = PublicUser(
    name: JsValue,
    email: JsValue,
    address: JsValue,
    latitude: JsValue,
    longitude: JsValue,
    status: string,
    registerAt: int,
    token: string)

  function Publish(u: User, token: string): PublicUser {
    PublicUser(u.name, u.email, u.address, u.latitude, u.longitude, u.status, u.registerAt, token)
  }

  /** The answer does not depend on the stored hash: two records that differ
      only in their password publish the same data. */
  lemma PublishIgnoresPassword(u: User, token: string, other: string)
    ensures Publish(u.(password := other), token) == Publish(u, token)
  {
  }

  /** The answer of registerUser and the store it leaves behind. */
  datatype Registration = Registration(response: Response<PublicUser>, users: seq<User>)

  /** registerUser as a function of the store before the call: check the
      fields, reject a used email, hash the password (bcryptjs refuses
      anything but a string, and the handler answers 500), append one record
      with the hash and status "active", and answer with its public fields
      and a token signed over its id. */
  function RegisterSpec(users: seq<User>, body: RegisterBody, hash: string -> string,
                        sign: UserId -> string, now: int): (out: Registration)
    ensures !AllFieldsPresent(body) ==>
      out == Registration(Failure(400, "All fields are required"), users)
    ensures AllFieldsPresent(body) && EmailTaken(users, body.email) ==>
      out == Registration(Failure(400, "Email already used"), users)
    ensures AllFieldsPresent(body) && !EmailTaken(users, body.email) && !body.password.Str? ==>
      out == Registration(Failure(500, "Server error"), users)
    ensures out.response.Success? <==>
      AllFieldsPresent(body) && !EmailTaken(users, body.email) && body.password.Str?
    ensures out.response.Success? ==>
      && |out.users| == |users| + 1
      && out.users[..|users|] == users
      && var u := out.users[|users|];
      && u.id == |users|
      && u.name == body.name && u.email == body.email && u.address == body.address
      && u.latitude == body.latitude && u.longitude == body.longitude
      && u.password == hash(body.password.s)
      && u.status == Active
      && u.registerAt == now
      && out.response.message == "User registered successfully"
      && out.response.data == Publish(u, sign(u.id))
    ensures WellFormed(users) ==> WellFormed(out.users)
    ensures Enumerated(users) ==> Enumerated(out.users)
  {
    if !AllFieldsPresent(body) then
      Registration(Failure(400, "All fields are required"), users)
    else if EmailTaken(users, body.email) then
      Registration(Failure(400, "Email already used"), users)
    else if !body.password.Str? then
      Registration(Failure(500, "Server error"), users)
    else
      var u := User(|users|, body.name, body.email, hash(body.password.s), body.address,
                    body.latitude, body.longitude, Active, now);
      var users' := users + [u];
      assert users'[..|users|] == users;
      Registration(Success("User registered successfully", Publish(u, sign(u.id))), users')
  }

  /** A latitude (or longitude) of 0 is falsy, so a user on the equator or
      the prime meridian cannot register. */
  lemma RegisterRejectsZeroCoordinate(users: seq<User>, body: RegisterBody, hash: string -> string,
                                      sign: UserId -> string, now: int)
    requires body.latitude == Num(0.0) || body.longitude == Num(0.0)
    ensures RegisterSpec(users, body, hash, sign, now)
         == Registration(Failure(400, "All fields are required"), users)
  {
  }

  /** A password sent as a JSON number (or `true`, or an object) passes the
      presence test but not bcryptjs: the answer is 500 and nothing is
      stored. */
  lemma RegisterRejectsNumericPassword(users: seq<User>, body: RegisterBody, hash: string -> string,
                                       sign: UserId -> string, now: int)
    requires Truthy(body.name) && Truthy(body.email) && Truthy(body.address)
    requires Truthy(body.latitude) && Truthy(body.longitude)
    requires !EmailTaken(users, body.email)
    requires body.password.Num? && body.password.x != 0.0
    ensures RegisterSpec(users, body, hash, sign, now)
         == Registration(Failure(500, "Server error"), users)
  {
  }

  /** Registering the same body twice: the second attempt is refused with
      "Email already used", and the store holds one record with that email. */
  lemma RegisterTwiceRejected(users: seq<User>, body: RegisterBody, hash: string -> string,
                              sign: UserId -> string, now: int, later: int)
    requires WellFormed(users)
    requires RegisterSpec(users, body, hash, sign, now).response.Success?
    ensures var first := RegisterSpec(users, body, hash, sign, now);
            RegisterSpec(first.users, body, hash, sign, later)
              == Registration(Failure(400, "Email already used"), first.users)
    ensures var first := RegisterSpec(users, body, hash, sign, now);
            forall i :: 0 <= i < |first.users| && first.users[i].email == body.email ==> i == |users|
  {
  }

  // ---------------------------------------------------------------------
  // toggleStatus
  // ---------------------------------------------------------------------

  /** The `$cond` of toggleStatus: "active" becomes "inactive", and every
      other value, whatever it is, becomes "active". */
  function Flip(status: string): (r: string)
    ensures r == Active || r == Inactive
    ensures r == Inactive <==> status == Active
  {
    if status == Active then Inactive else Active
  }

  /** Flipping twice gives the status back exactly when it was one of the two
      enumerated values; any other status ends up "inactive". */
  lemma FlipTwice(status: string)
    ensures Flip(Flip(status)) == status <==> status == Active || status == Inactive
    ensures status != Active && status != Inactive ==> Flip(Flip(status)) == Inactive
  {
  }

  /** Two records agree on everything but their status. */
  predicate SameExceptStatus(a: User, b: User) {
    a.(status := b.status) == b
  }

  /** `updateMany({}, [{ $set: { status: $cond } }])` as a function of the
      records: every record's status flipped, nothing else. */
  function ToggleAll(users: seq<User>): (r: seq<User>)
    ensures |r| == |users|
    ensures forall i :: 0 <= i < |users| ==>
      SameExceptStatus(r[i], users[i]) && r[i].status == Flip(users[i].status)
  {
    seq(|users|, i requires 0 <= i < |users| => users[i].(status := Flip(users[i].status)))
  }

  /** After one toggle every status is "active" or "inactive", and the store
      keeps its ids and its unique emails. */
  lemma ToggleAllInvariants(users: seq<User>)
    ensures Enumerated(ToggleAll(users))
    ensures WellFormed(users) ==> WellFormed(ToggleAll(users))
  {
  }

  /** Toggling twice restores every record whose status was "active" or
      "inactive"; a record with any other status comes back "inactive". */
  lemma ToggleTwice(users: seq<User>)
    ensures |ToggleAll(ToggleAll(users))| == |users|
    ensures forall i :: 0 <= i < |users| ==>
      var u := ToggleAll(ToggleAll(users))[i];
      SameExceptStatus(u, users[i])
      && (users[i].status == Active || users[i].status == Inactive ==> u == users[i])
      && (users[i].status != Active && users[i].status != Inactive ==> u.status == Inactive)
  {
    var once := ToggleAll(users);
    var twice := ToggleAll(once);
    forall i | 0 <= i < |users|
      ensures SameExceptStatus(twice[i], users[i])
      ensures users[i].status == Active || users[i].status == Inactive ==> twice[i] == users[i]
      ensures users[i].status != Active && users[i].status != Inactive ==> twice[i].status == Inactive
    {
      assert SameExceptStatus(once[i], users[i]);
      assert SameExceptStatus(twice[i], once[i]);
      FlipTwice(users[i].status);
    }
  }

  /** On a store whose statuses are all enumerated, as `UserStore.Valid`
      requires of every store, toggling twice is the identity. */
  lemma ToggleInvolution(users: seq<User>)
    requires Enumerated(users)
    ensures ToggleAll(ToggleAll(users)) == users
  {
    ToggleTwice(users);
    var twice := ToggleAll(ToggleAll(users));
    forall i | 0 <= i < |users| ensures twice[i] == users[i] {
    }
  }

  // ---------------------------------------------------------------------
  // the store
  // ---------------------------------------------------------------------

  /** The users collection. Records are appended by registration and
      rewritten in place by the bulk toggle; nothing deletes them. Every
      status in it is one the handlers write. */
  class UserStore {
    var users: seq<User>

    ghost predicate Valid()
      reads this
    {
      WellFormed(users) && Enumerated(users)
    }

    constructor ()
      ensures Valid() && users == []
    {
      users := [];
    }

    /** registerUser (controllers/userController.js:7-49); of its 500
        answers only the one for a password that is not a string. */
    method Register(body: RegisterBody, hash: string -> string, sign: UserId -> string, now: int)
      returns (r: Response<PublicUser>)
      requires Valid()
      modifies this
      ensures Valid()
      ensures Registration(r, users) == RegisterSpec(old(users), body, hash, sign, now)
    {
      if !AllFieldsPresent(body) {
        return Failure(400, "All fields are required");
      }
      if EmailTaken(users, body.email) {
        return Failure(400, "Email already used");
      }
      if !body.password.Str? {
        return Failure(500, "Server error");
      }
      var hashed := hash(body.password.s);
      var user := User(|users|, body.name, body.email, hashed, body.address,
                       body.latitude, body.longitude, Active, now);
      users := users + [user];
      var token := sign(user.id);
      r := Success("User registered successfully", Publish(user, token));
    }

    /** toggleStatus (controllers/userController.js:52-68, without the 500
        branch): rewrite the status of every record, one record at a time. */
    method ToggleStatus() returns (r: Response<()>)
      requires Valid()
      modifies this
      ensures Valid()
      ensures users == ToggleAll(old(users))
      ensures Enumerated(users)
      ensures ToggleAll(users) == old(users)
      ensures r == Success("All users' status toggled", ())
    {
      ghost var before := users;
      var i := 0;
      while i < |users|
        invariant 0 <= i <= |users| == |before|
        invariant forall k :: 0 <= k < i ==> users[k] == before[k].(status := Flip(before[k].status))
        invariant forall k :: i <= k < |users| ==> users[k] == before[k]
      {
        users := users[i := users[i].(status := Flip(users[i].status))];
        i := i + 1;
      }
      var expected := ToggleAll(before);
      forall k | 0 <= k < |users| ensures users[k] == expected[k] {
        assert SameExceptStatus(expected[k], before[k]);
      }
      ToggleAllInvariants(before);
      ToggleInvolution(before);
      r := Success("All users' status toggled", ());
    }
  }

  // ---------------------------------------------------------------------
  // getDistance
  // ---------------------------------------------------------------------

  /** A query-string parameter as JavaScript sees it: a string, or
      `undefined` when absent. */
  function QueryValue(q: Option<string>): (v: JsValue)
    ensures Truthy(v) <==> q.Some? && q.value != ""
  {
    match q
    case None => Undefined
    case Some(s) => Str(s)
  }

  /** getDistance: both destination parameters must be present and
      non-empty; the origin is the authenticated caller's stored coordinates.
      The haversine utility is an oracle whose result type is left open. */
  function GetDistance<D>(user: User, destLat: Option<string>, destLong: Option<string>,
                          haversine: (JsValue, JsValue, string, string) -> D): (r: Response<D>)
    ensures r.Failure? <==> !Truthy(QueryValue(destLat)) || !Truthy(QueryValue(destLong))
    ensures r.Failure? <==> destLat in {None, Some("")} || destLong in {None, Some("")}
    ensures r.Failure? ==> r == Failure(400, "Destination coordinates required")
    ensures r.Success? ==>
      r.message == "Distance calculated"
      && r.data == haversine(user.latitude, user.longitude, destLat.value, destLong.value)
  {
    if !Truthy(QueryValue(destLat)) || !Truthy(QueryValue(destLong)) then
      Failure(400, "Destination coordinates required")
    else
      Success("Distance calculated", haversine(user.latitude, user.longitude, destLat.value, destLong.value))
  }

}
