/** The service as a whole: routes/userRoutes.js puts the guard in front of
    toggle-status, distance and listing, and the properties here are where
    registration, the guard and the handlers meet. */
module Service {
  import opened Wrappers
  import opened JsValues
  import opened JsStrings
  import opened UserModel
  import opened UserController
  import opened UserListing
  import opened Auth

  /** The token a successful registration returns, sent back as
      "Bearer <token>", lets the request through as the new user, provided
      verification accepts exactly what signing produced and signing never
      produces the empty string. */
  lemma RegisteredTokenAuthenticates(users: seq<User>, body: RegisterBody, hash: string -> string,
                                     sign: UserId -> string, verify: string -> Option<UserId>, now: int)
    requires WellFormed(users)
    requires forall id: UserId :: verify(sign(id)) == Some(id)
    requires forall id: UserId :: sign(id) != ""
    requires RegisterSpec(users, body, hash, sign, now).response.Success?
    ensures var reg := RegisterSpec(users, body, hash, sign, now);
            Decide(Some(BearerPrefix + reg.response.data.token), verify, reg.users)
              == Proceed(reg.users[|users|])
  {
    var reg := RegisterSpec(users, body, hash, sign, now);
    var token := reg.response.data.token;
    assert token == sign(|users|);
    ExtractTokenShape(BearerPrefix + token);
    assert DecodedId(Some(BearerPrefix + token), verify) == Some(|users|);
    FindByIdDense(reg.users, |users|);
  }

  /** `router.METHOD(path, auth, handler)` for a handler whose answer
      depends on the caller: the guard decides first, and the handler runs
      only on `next()`, as the record the guard resolved. */
  function Guarded<T>(header: Option<string>, verify: string -> Option<UserId>, users: seq<User>,
                      handler: User -> Response<T>): Response<T>
  {
    match Decide(header, verify, users)
    case Reject(status, message) => Failure(status, message)
    case Proceed(u) => handler(u)
  }

  /** A guarded endpoint runs its handler exactly for a token that verifies
      to the id of a stored record, and then as that record; every other
      request gets the guard's 401. */
  lemma GuardedOutcome<T>(header: Option<string>, verify: string -> Option<UserId>, users: seq<User>,
                          handler: User -> Response<T>)
    ensures var id := DecodedId(header, verify);
            id.Some? && FindById(users, id.value).Some? ==>
              Guarded(header, verify, users, handler) == handler(FindById(users, id.value).value)
    ensures var id := DecodedId(header, verify);
            id.None? || FindById(users, id.value).None? ==>
              Guarded(header, verify, users, handler)
                == Failure(401, if ExtractToken(header) in {None, Some("")} then "Token missing" else "Invalid token")
    ensures var id := DecodedId(header, verify);
            id.None? || FindById(users, id.value).None? ==>
              Guarded(header, verify, users, handler).StatusCode() == 401
  {
  }

  /** Any guarded endpoint called without an Authorization header answers
      401 "Token missing" and never reaches its handler. */
  lemma NoHeaderNoAccess<T>(verify: string -> Option<UserId>, users: seq<User>, handler: User -> Response<T>)
    ensures Guarded(None, verify, users, handler) == Failure(401, "Token missing")
  {
  }

  /** PATCH /toggle-status: the guard, then toggleStatus. A rejected request
      answers 401 and leaves every record as it was. */
  method ToggleStatusRoute(req: Request, verify: string -> Option<UserId>, store: UserStore)
    returns (r: Response<()>)
    requires store.Valid()
    modifies req, store
    ensures store.Valid()
    ensures r == Guarded(req.authorization, verify, old(store.users),
                         (u: User) => Success("All users' status toggled", ()))
    ensures store.users == if r.Success? then ToggleAll(old(store.users)) else old(store.users)
  {
    var out := Authenticate(req, verify, store.users);
    if out.Reject? {
      return Failure(out.status, out.message);
    }
    r := store.ToggleStatus();
  }

  /** GET /distance: the guard, then getDistance from the coordinates of the
      record the guard put on `req.user`. */
  method DistanceRoute<D>(req: Request, verify: string -> Option<UserId>, store: UserStore,
                          destLat: Option<string>, destLong: Option<string>,
                          haversine: (JsValue, JsValue, string, string) -> D)
    returns (r: Response<D>)
    modifies req
    ensures r == Guarded(req.authorization, verify, store.users,
                         (u: User) => GetDistance(u, destLat, destLong, haversine))
  {
    var out := Authenticate(req, verify, store.users);
    if out.Reject? {
      return Failure(out.status, out.message);
    }
    r := GetDistance(req.user.value, destLat, destLong, haversine);
  }

  /** GET /listing: the guard, then getUserListing over the whole store. */
  method ListingRoute(req: Request, verify: string -> Option<UserId>, store: UserStore,
                      weekParam: Option<string>)
    returns (r: Response<seq<Group>>)
    modifies req
    ensures Decide(req.authorization, verify, store.users).Reject? ==>
      r == Failure(401, Decide(req.authorization, verify, store.users).message)
    ensures Decide(req.authorization, verify, store.users).Proceed? ==>
      && (r.Failure? <==> weekParam in {None, Some("")})
      && (r.Failure? ==> r == Failure(400, "week_number required"))
      && (r.Success? ==> IsGrouping(r.data, store.users, WeekNumbers(weekParam.value)))
  {
    var out := Authenticate(req, verify, store.users);
    if out.Reject? {
      return Failure(out.status, out.message);
    }
    r := GetUserListing(weekParam, store.users);
  }

  lemma WeekNumbersZeroSix()
    ensures WeekNumbers("0,6") == [Int(0), Int(6)]
  {
    assert Decimal(0) == "0" && Decimal(6) == "6";
    assert Decimals([0, 6]) == ["0", "6"];
    assert Join(["0", "6"]) == "0,6";
    WeekNumbersOfDecimals([0, 6]);
  }

  lemma DedupPair(x: string, y: string)
    requires x != y
    ensures Dedup([x, y]) == [x, y]
  {
    assert [x, y][..1] == [x];
    assert [x][..0] == [];
    assert Dedup([x]) == [x];
  }

  lemma KeysZeroSix(g: seq<Group>, users: seq<User>, nums: seq<ParsedInt>)
    requires nums == [Int(0), Int(6)]
    requires IsGrouping(g, users, nums)
    ensures Keys(g) == ["sunday", "saturday"]
  {
    assert DayKey(Int(0)) == "sunday" && DayKey(Int(6)) == "saturday";
    assert KeyList(nums) == ["sunday", "saturday"];
    assert "sunday"[1] != "saturday"[1];
    DedupPair("sunday", "saturday");
  }

  /** The keys for `week_number=0,6` are "sunday" then "saturday". */
  lemma SundaySaturdayKeys(g: seq<Group>, users: seq<User>)
    requires IsGrouping(g, users, WeekNumbers("0,6"))
    ensures Keys(g) == ["sunday", "saturday"]
  {
    WeekNumbersZeroSix();
    KeysZeroSix(g, users, WeekNumbers("0,6"));
  }

  /** Under `week_number=0,6`, no user of a store with unique emails
      registered on a weekday other than Sunday or Saturday appears in any
      list. */
  lemma SundaySaturdayOnly(g: seq<Group>, users: seq<User>, i: nat)
    requires IsGrouping(g, users, WeekNumbers("0,6"))
    requires UniqueEmails(users)
    requires i < |users|
    requires DayOfWeek(users[i].registerAt) != 1 && DayOfWeek(users[i].registerAt) != 7
    ensures forall k :: 0 <= k < |g| ==> UserEntry(users[i]) !in g[k].members
  {
    WeekNumbersZeroSix();
    var nums := WeekNumbers("0,6");
    TargetsShift(nums, DayOfWeek(users[i].registerAt));
    assert !Requested(users[i], nums);
    ListingPlacesUser(g, users, nums, i);
  }

}
