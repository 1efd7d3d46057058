/**
 * The identity half of the backend (api/users.py): registration against a
 * user table, credential checks, the access token's claim set, resolving
 * the current user from a bearer token, and the `/me` profile.
 *
 * The password hash, the token codec and the UUID text form come from
 * libraries outside the model; they are fields of `Config`, a value built
 * once at startup and handed to every operation.
 */
module Identity {
  import opened Common

  /** A row of the user table. `password` holds the hash, never the plain text. */
  datatype User = User(id: Uuid, username: string, name: string, password: string, profileImage: string)

  /** The body of a registration request. */
  datatype Registration = Registration(username: string, password: string, name: string, profileImage: string)

  /** The four fields `/me` reports. */
  datatype Profile = Profile(id: Uuid, username: string, name: string, profileImage: string)

  /** A claim value inside a token payload (the JSON values the claims use). */
  datatype Json = JNull | JBool(b: bool) | JNum(n: int) | JStr(s: string)

  /** A token payload: claim name to claim value. */
  type Claims = map<string, Json>

  /**
   * The opaque collaborators:
   *  - `hash` and `verify`: the salted password hash and its check;
   *  - `encode` and `decode`: signing a claim set into a token, and checking
   *    a token's signature and expiry at time `now` (None when either fails);
   *  - `showId` and `parseId`: a UUID's text form and its parser (None when
   *    the text is not a UUID).
   */
  datatype Config = Config(
    hash: string -> string,
    verify: (string, string) -> bool,
    encode: Claims -> string,
    decode: (string, int) -> Option<Claims>,
    showId: Uuid -> string,
    parseId: string -> Option<Uuid>)

  /** What a credential check yields when the user exists. */
  datatype Credential = Rejected | Accepted(user: User)

  /** Lifetime of a login token: 20 minutes, in seconds. */
  const TokenLifetime: int := 20 * 60

  /** No two rows share a username, and no two rows share an id. */
  ghost predicate UniqueUsers(rows: seq<User>)
  {
    forall i, j :: 0 <= i < j < |rows| ==> rows[i].username != rows[j].username && rows[i].id != rows[j].id
  }

  ghost predicate HasUsername(rows: seq<User>, username: string)
  {
    exists u :: u in rows && u.username == username
  }

  ghost predicate HasId(rows: seq<User>, id: Uuid)
  {
    exists u :: u in rows && u.id == id
  }

  /** `select(User).where(User.username == username).first()`. */
  function FindByUsername(rows: seq<User>, username: string): (r: Option<User>)
    ensures r.None? <==> !HasUsername(rows, username)
    ensures r.Some? ==> r.value in rows && r.value.username == username
  {
    match FirstIndex(rows, (u: User) => u.username == username)
    case None =>
      assert forall u :: u in rows ==> u.username != username by {
        forall u | u in rows ensures u.username != username {
          var k :| 0 <= k < |rows| && rows[k] == u;
        }
      }
      None
    case Some(i) => Some(rows[i])
  }

  /** `select(User).where(User.id == id).first()`. */
  function FindById(rows: seq<User>, id: Uuid): (r: Option<User>)
    ensures r.None? <==> !HasId(rows, id)
    ensures r.Some? ==> r.value in rows && r.value.id == id
  {
    match FirstIndex(rows, (u: User) => u.id == id)
    case None =>
      assert forall u :: u in rows ==> u.id != id by {
        forall u | u in rows ensures u.id != id {
          var k :| 0 <= k < |rows| && rows[k] == u;
        }
      }
      None
    case Some(i) => Some(rows[i])
  }

  /** In a table with unique usernames, the lookup finds the one row that has it. */
  lemma FindByUsernameUnique(rows: seq<User>, u: User)
    requires UniqueUsers(rows) && u in rows
    ensures FindByUsername(rows, u.username) == Some(u)
  {
  }

  /** In a table with unique ids, the lookup finds the one row that has it. */
  lemma FindByIdUnique(rows: seq<User>, u: User)
    requires UniqueUsers(rows) && u in rows
    ensures FindById(rows, u.id) == Some(u)
  {
  }

  // ---------------------------------------------------------------------
  // Registration
  // ---------------------------------------------------------------------

  /** The row `create_user` inserts: the registration with its password hashed. */
  function NewUser(hash: string -> string, reg: Registration, id: Uuid): User
  {
    User(id, reg.username, reg.name, hash(reg.password), reg.profileImage)
  }

  /**
   * What `create_user` does to the user table, as a value: 409 when the
   * username is taken; otherwise one row is appended and its id returned.
   * The id is the fresh UUID the row was created with; should it clash with
   * an existing primary key, the commit fails (a 500) and nothing is stored.
   */
  function Register(hash: string -> string, rows: seq<User>, reg: Registration, id: Uuid): (r: (Result<Uuid>, seq<User>))
    ensures r.0 == Err(Conflict) <==> HasUsername(rows, reg.username)
    ensures r.0.Err? ==> r.1 == rows
    ensures r.0 == Err(Internal) <==> !HasUsername(rows, reg.username) && HasId(rows, id)
    ensures r.0.Ok? <==> !HasUsername(rows, reg.username) && !HasId(rows, id)
    ensures r.0.Ok? ==> r.0.value == id && r.1 == rows + [NewUser(hash, reg, id)]
    ensures UniqueUsers(rows) ==> UniqueUsers(r.1)
  {
    if FindByUsername(rows, reg.username).Some? then (Err(Conflict), rows)
    else if FindById(rows, id).Some? then (Err(Internal), rows)
    else
      var rows' := rows + [NewUser(hash, reg, id)];
      assert UniqueUsers(rows) ==> UniqueUsers(rows') by {
        if UniqueUsers(rows) {
          forall i, j | 0 <= i < j < |rows'|
            ensures rows'[i].username != rows'[j].username && rows'[i].id != rows'[j].id
          {
            if j == |rows| { assert rows'[i] in rows; }
          }
        }
      }
      (Ok(id), rows')
  }

  /** The user table, updated in place by `create_user`. */
  class UserStore {
    var rows: seq<User>

    ghost predicate Valid()
      reads this
    {
      UniqueUsers(rows)
    }

    constructor ()
      ensures Valid() && rows == []
    {
      rows := [];
    }

    /** `POST /register`. */
    method CreateUser(cfg: Config, reg: Registration, id: Uuid) returns (r: Result<Uuid>)
      modifies this
      ensures (r, rows) == Register(cfg.hash, old(rows), reg, id)
      ensures old(Valid()) ==> Valid()
    {
      var user := NewUser(cfg.hash, reg, id);
      var existing := FindByUsername(rows, user.username);
      if existing.Some? {
        return Err(Conflict);
      }
      if FindById(rows, id).Some? {
        return Err(Internal);
      }
      rows := rows + [user];
      r := Ok(id);
    }
  }

  /** After a successful registration, the same username is refused with 409. */
  lemma RegisterTwiceConflicts(hash: string -> string, rows: seq<User>, reg: Registration, reg': Registration, id: Uuid, id': Uuid)
    requires Register(hash, rows, reg, id).0.Ok?
    requires reg'.username == reg.username
    ensures Register(hash, Register(hash, rows, reg, id).1, reg', id').0 == Err(Conflict)
  {
  }

  // ---------------------------------------------------------------------
  // Credentials
  // ---------------------------------------------------------------------

  /**
   * `authenticate_user`: 404 for an unknown username; `False` (Rejected)
   * when the password does not verify against the stored hash; the row
   * itself otherwise.
   */
  function AuthenticateUser(cfg: Config, rows: seq<User>, username: string, password: string): (r: Result<Credential>)
    ensures r == Err(NotFound) <==> !HasUsername(rows, username)
    ensures r.Err? ==> r.status == NotFound
    ensures r == Ok(Rejected) ==> exists u :: u in rows && u.username == username && !cfg.verify(password, u.password)
    ensures r.Ok? && r.value.Accepted? ==>
      r.value.user in rows && r.value.user.username == username && cfg.verify(password, r.value.user.password)
  {
    match FindByUsername(rows, username)
    case None => Err(NotFound)
    case Some(u) => if cfg.verify(password, u.password) then Ok(Accepted(u)) else Ok(Rejected)
  }

  /** With unique usernames the outcome is decided by the one matching row. */
  lemma AuthenticateKnownUser(cfg: Config, rows: seq<User>, u: User, password: string)
    requires UniqueUsers(rows) && u in rows
    ensures AuthenticateUser(cfg, rows, u.username, password)
         == if cfg.verify(password, u.password) then Ok(Accepted(u)) else Ok(Rejected)
  {
  }

  /**
   * Registering and then logging in with the same password is accepted
   * (given that the hash verifies its own output), and with a password
   * that does not verify it is rejected rather than reported missing.
   */
  lemma RegisterThenAuthenticate(cfg: Config, rows: seq<User>, reg: Registration, id: Uuid, password: string)
    requires UniqueUsers(rows)
    requires Register(cfg.hash, rows, reg, id).0.Ok?
    ensures AuthenticateUser(cfg, Register(cfg.hash, rows, reg, id).1, reg.username, password)
         == if cfg.verify(password, cfg.hash(reg.password)) then Ok(Accepted(NewUser(cfg.hash, reg, id))) else Ok(Rejected)
  {
  }

  // ---------------------------------------------------------------------
  // Tokens
  // ---------------------------------------------------------------------

  /**
   * The claim set of an access token (RFC 7519): the subject (section 4.1.2)
   * is the username, `id` is the user id as text, and the expiration time
   * (section 4.1.4) is `now + expiresDelta`, in seconds.
   */
  function AccessClaims(showId: Uuid -> string, username: string, id: Uuid, expiresDelta: int, now: int): (c: Claims)
    ensures c.Keys == {"sub", "id", "exp"}
    ensures c["sub"] == JStr(username) && c["id"] == JStr(showId(id))
    ensures c["exp"] == JNum(now + expiresDelta)
  {
    map["sub" := JStr(username), "id" := JStr(showId(id)), "exp" := JNum(now + expiresDelta)]
  }

  /**
   * `create_access_token`: the signed form of the claim set. A codec that
   * decodes what it signed gives the claims back until `now + expiresDelta`
   * and refuses the token from then on.
   */
  function CreateAccessToken(cfg: Config, username: string, id: Uuid, expiresDelta: int, now: int): (token: string)
    ensures HonestCodec(cfg) ==>
      forall t :: cfg.decode(token, t) == if t < now + expiresDelta
                                          then Some(AccessClaims(cfg.showId, username, id, expiresDelta, now))
                                          else None
  {
    cfg.encode(AccessClaims(cfg.showId, username, id, expiresDelta, now))
  }

  /** `payload.get("id")`: None when the claim is missing or null. */
  function IdClaim(payload: Claims): Option<Json>
  {
    if "id" in payload && payload["id"] != JNull then Some(payload["id"]) else None
  }

  /**
   * `get_current_user`: 401 when the token does not decode (bad signature,
   * expired) or carries no `id` claim; otherwise the id parsed from the
   * claim. A claim that is not UUID text makes the parser raise an error
   * the function does not catch: a 500, not a 401.
   */
  function GetCurrentUser(cfg: Config, token: string, now: int): (r: Result<Uuid>)
    ensures r == Err(Unauthorized) <==>
      || cfg.decode(token, now).None?
      || "id" !in cfg.decode(token, now).value
      || cfg.decode(token, now).value["id"] == JNull
    ensures r.Ok? ==>
      && cfg.decode(token, now).Some?
      && "id" in cfg.decode(token, now).value
      && cfg.decode(token, now).value["id"].JStr?
      && cfg.parseId(cfg.decode(token, now).value["id"].s) == Some(r.value)
    ensures (&& cfg.decode(token, now).Some?
             && "id" in cfg.decode(token, now).value
             && cfg.decode(token, now).value["id"].JStr?
             && cfg.parseId(cfg.decode(token, now).value["id"].s).Some?)
      ==> r == Ok(cfg.parseId(cfg.decode(token, now).value["id"].s).value)
    ensures r.Err? ==> r.status == Unauthorized || r.status == Internal
  {
    match cfg.decode(token, now)
    case None => Err(Unauthorized)
    case Some(payload) =>
      match IdClaim(payload)
      case None => Err(Unauthorized)
      case Some(JStr(s)) =>
        (match cfg.parseId(s)
         case Some(id) => Ok(id)
         case None => Err(Internal))
      case Some(_) => Err(Internal)
  }

  /** A claim set is unexpired at `now` unless its `exp` has been reached (RFC 7519, section 4.1.4). */
  predicate Unexpired(c: Claims, now: int)
  {
    "exp" !in c || (c["exp"].JNum? && now < c["exp"].n)
  }

  /**
   * What the token library is trusted to do: a token it signed decodes to
   * the same claims until they expire, and is refused afterwards.
   */
  ghost predicate HonestCodec(cfg: Config)
  {
    forall c: Claims, now: int :: cfg.decode(cfg.encode(c), now) == if Unexpired(c, now) then Some(c) else None
  }

  /**
   * Issuing a token and resolving it gives back the user id while the token
   * is unexpired, and 401 from its expiry on.
   */
  lemma TokenRoundTrip(cfg: Config, username: string, id: Uuid, expiresDelta: int, issued: int, now: int)
    requires HonestCodec(cfg)
    requires cfg.parseId(cfg.showId(id)) == Some(id)
    ensures GetCurrentUser(cfg, CreateAccessToken(cfg, username, id, expiresDelta, issued), now)
         == if now < issued + expiresDelta then Ok(id) else Err(Unauthorized)
  {
  }

  // ---------------------------------------------------------------------
  // Endpoints
  // ---------------------------------------------------------------------

  /**
   * `POST /login`: the 404 of an unknown username is passed through, a
   * rejected password is a 401, and an accepted one gets a 20-minute token
   * for the submitted username and the row's id.
   */
  function Login(cfg: Config, rows: seq<User>, username: string, password: string, now: int): (r: Result<string>)
    ensures r == Err(NotFound) <==> !HasUsername(rows, username)
    ensures r == Err(Unauthorized) <==> AuthenticateUser(cfg, rows, username, password) == Ok(Rejected)
    ensures r.Ok? <==> (AuthenticateUser(cfg, rows, username, password).Ok?
                        && AuthenticateUser(cfg, rows, username, password).value.Accepted?)
    ensures r.Ok? ==> exists u :: u in rows && u.username == username && cfg.verify(password, u.password)
                                  && r.value == cfg.encode(AccessClaims(cfg.showId, username, u.id, TokenLifetime, now))
  {
    match AuthenticateUser(cfg, rows, username, password)
    case Err(e) => Err(e)
    case Ok(Rejected) => Err(Unauthorized)
    case Ok(Accepted(u)) => Ok(CreateAccessToken(cfg, username, u.id, TokenLifetime, now))
  }

  /**
   * `GET /me`: the errors of `get_current_user` pass through; a resolved id
   * with no row is a 404; otherwise the row's four public fields.
   */
  function GetMe(cfg: Config, rows: seq<User>, token: string, now: int): (r: Result<Profile>)
    ensures GetCurrentUser(cfg, token, now).Err? ==> r == Err(GetCurrentUser(cfg, token, now).status)
    ensures GetCurrentUser(cfg, token, now).Ok? ==>
      (r == Err(NotFound) <==> !HasId(rows, GetCurrentUser(cfg, token, now).value))
    ensures GetCurrentUser(cfg, token, now).Ok? && HasId(rows, GetCurrentUser(cfg, token, now).value) ==> r.Ok?
    ensures r.Ok? ==> exists u :: u in rows && u.id == GetCurrentUser(cfg, token, now).value
                                  && r.value == Profile(u.id, u.username, u.name, u.profileImage)
  {
    match GetCurrentUser(cfg, token, now)
    case Err(e) => Err(e)
    case Ok(id) =>
      match FindById(rows, id)
      case None => Err(NotFound)
      case Some(u) => Ok(Profile(u.id, u.username, u.name, u.profileImage))
  }

  /**
   * Logging in with a password that verifies and presenting the token to
   * `/me` before it expires yields that user's profile; from the expiry on
   * it yields 401.
   */
  lemma LoginThenMe(cfg: Config, rows: seq<User>, u: User, password: string, issued: int, now: int)
    requires UniqueUsers(rows) && u in rows
    requires cfg.verify(password, u.password)
    requires HonestCodec(cfg)
    requires cfg.parseId(cfg.showId(u.id)) == Some(u.id)
    ensures Login(cfg, rows, u.username, password, issued).Ok?
    ensures GetMe(cfg, rows, Login(cfg, rows, u.username, password, issued).value, now)
         == if now < issued + TokenLifetime then Ok(Profile(u.id, u.username, u.name, u.profileImage))
            else Err(Unauthorized)
  {
  }
}
