/** The bearer-token guard of middlewares/auth.js. Token verification
    (`jwt.verify` against the shared secret, expiry included) is an oracle
    from a token to the user id it carries; `User.findById` is a lookup in
    the store. */
module Auth {
  import opened Wrappers
  import opened JsStrings
  import opened UserModel

  const BearerPrefix: string := "Bearer "

  /** `req.header('Authorization')?.replace('Bearer ', '')`: `undefined`
      without the header, else the header with its first "Bearer " removed. */
  function ExtractToken(header: Option<string>): (r: Option<string>)
    ensures r.None? <==> header.None?
  {
    match header
    case None => None
    case Some(h) => Some(ReplaceFirst(h, BearerPrefix, ""))
  }

  /** The token that reaches `jwt.verify`: the header with only its first
      occurrence of "Bearer " removed, which is the header itself when it has
      none; after a leading "Bearer " it is the rest of the header. */
  lemma ExtractTokenShape(h: string)
    ensures (forall j :: !OccursAt(h, BearerPrefix, j)) ==> ExtractToken(Some(h)) == Some(h)
    ensures forall i: nat ::
      OccursAt(h, BearerPrefix, i) && (forall j: nat :: j < i ==> !OccursAt(h, BearerPrefix, j)) ==>
      ExtractToken(Some(h)) == Some(h[..i] + h[i + |BearerPrefix|..])
    ensures forall t :: h == BearerPrefix + t ==> ExtractToken(Some(h)) == Some(t)
  {
    forall t | h == BearerPrefix + t ensures ExtractToken(Some(h)) == Some(t) {
      ReplacePrefix(BearerPrefix, t, "");
      assert "" + t == t;
    }
    forall i: nat | OccursAt(h, BearerPrefix, i) && (forall j: nat :: j < i ==> !OccursAt(h, BearerPrefix, j))
      ensures ExtractToken(Some(h)) == Some(h[..i] + h[i + |BearerPrefix|..])
    {
      assert h[..i] + "" == h[..i];
    }
  }

  /** The guard's three outcomes: `next()` with the resolved user, or a 401. */
  datatype AuthOutcome = Proceed(user: User) | Reject(status: int, message: string)

  /** The user id a present, non-empty token verifies to, if any. */
  function DecodedId(header: Option<string>, verify: string -> Option<UserId>): Option<UserId> {
    match ExtractToken(header)
    case None => None
    case Some(t) => if t == "" then None else verify(t)
  }

  /** The decision of auth.js: a missing or empty token is "Token missing";
      a token that fails verification, or whose user id no record has, is
      "Invalid token"; otherwise the request proceeds with that record. */
  function Decide(header: Option<string>, verify: string -> Option<UserId>, users: seq<User>): (r: AuthOutcome)
    ensures r.Reject? ==> r.status == 401
    ensures r.Proceed? <==> DecodedId(header, verify).Some? && FindById(users, DecodedId(header, verify).value).Some?
    ensures r.Proceed? ==> r.user in users && r.user.id == DecodedId(header, verify).value
    ensures r.Reject? ==>
      r.message == (if ExtractToken(header) in {None, Some("")} then "Token missing" else "Invalid token")
  {
    var token := ExtractToken(header);
    if token.None? || token.value == "" then Reject(401, "Token missing")
    else match verify(token.value)
      case None => Reject(401, "Invalid token")
      case Some(id) =>
        match FindById(users, id)
        case None => Reject(401, "Invalid token")
        case Some(u) => Proceed(u)
  }

  /** "Token missing" comes exactly from a missing header, an empty one, or
      one that is exactly "Bearer ". */
  lemma TokenMissingIff(header: Option<string>, verify: string -> Option<UserId>, users: seq<User>)
    ensures Decide(header, verify, users) == Reject(401, "Token missing")
        <==> header in {None, Some(""), Some(BearerPrefix)}
  {
    if header.Some? {
      RemoveFirstEmptyIff(header.value, BearerPrefix);
    }
  }

  /** A token that does not verify and a verified token whose user is gone
      get the same answer, so a caller cannot tell the two apart. */
  lemma ForgedAndMissingUserAlike(header: Option<string>, verify: string -> Option<UserId>, users: seq<User>)
    requires ExtractToken(header).Some? && ExtractToken(header).value != ""
    requires verify(ExtractToken(header).value).None?
          || FindById(users, verify(ExtractToken(header).value).value).None?
    ensures Decide(header, verify, users) == Reject(401, "Invalid token")
  {
  }

  /** The Express request as the guard sees it: the Authorization header and
      the `user` property the guard assigns. */
  class Request {
    const authorization: Option<string>
    var user: Option<User>

    constructor (authorization: Option<string>)
      ensures this.authorization == authorization && user.None?
    {
      this.authorization := authorization;
      user := None;
    }
  }

  /** auth (middlewares/auth.js:4-16). `req.user` is assigned the lookup's
      result before it is tested, so a verified token of a missing user
      leaves `req.user` empty; a missing or unverifiable token leaves it as
      it was. Calling `next()` is the outcome `Proceed`. */
  method Authenticate(req: Request, verify: string -> Option<UserId>, users: seq<User>)
    returns (out: AuthOutcome)
    modifies req
    ensures out == Decide(req.authorization, verify, users)
    ensures out.Proceed? ==> req.user == Some(out.user)
    ensures DecodedId(req.authorization, verify).None? ==> req.user == old(req.user)
    ensures DecodedId(req.authorization, verify).Some? ==>
      req.user == FindById(users, DecodedId(req.authorization, verify).value)
  {
    var token := ExtractToken(req.authorization);
    if token.None? || token.value == "" {
      return Reject(401, "Token missing");
    }
    var decoded := verify(token.value);
    if decoded.None? {
      return Reject(401, "Invalid token");
    }
    req.user := FindById(users, decoded.value);
    if req.user.None? {
      return Reject(401, "Invalid token");
    }
    out := Proceed(req.user.value);
  }

}
