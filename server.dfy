/** The HTTP handlers of the server, over the in-memory user table. The two
    handlers that change the table, `POST /register` and `PUT /profile`, are
    methods of `UserStore`; the handlers that only read it (`POST /login`,
    `GET /profile`) and `GET /wisdom` are functions of what they read. */
module Server {
  import opened Wrappers
  import opened Crypto
  import opened Bearer
  import opened Users
  import opened WisdomImport

  /** What a handler sends back: plain text (`res.send`, `res.sendStatus`) or
      one of the JSON bodies (`res.json`). */
  datatype Body =
    | Text(text: string)
    | AccessToken(accessToken: string)
    | Profile(username: string, bio: Option<string>)
    | Wisdom(entry: Option<WisdomEntry>)

  datatype Response = Response(status: int, body: Body)

  /** `res.sendStatus(401)` and `res.sendStatus(403)` send the status with its
      standard reason phrase. */
  const Unauthorized: Response := Response(401, Text("Unauthorized"))
  const ForbiddenStatus: Response := Response(403, Text("Forbidden"))
  const UserNotFound: Response := Response(404, Text("User not found"))

  /** The response `authenticateToken` sends when it stops a request. */
  function Reject(a: Access): (r: Response)
    requires !a.Granted?
    ensures r.status == (if a == Unauthenticated then 401 else 403)
  {
    if a == Unauthenticated then Unauthorized else ForbiddenStatus
  }

  /** `POST /login`: 400 for an unknown username; a token with the stored
      username and id when the password matches the stored hash; 401
      otherwise, with no token. */
  function Login(s: Scheme, users: seq<User>, username: string, password: string): (r: Response)
    ensures FindByUsername(users, username).None? <==> r == Response(400, Text("Cannot find user"))
    ensures r.body.AccessToken? <==>
      FindByUsername(users, username).Some? &&
      s.compare(password, users[FindByUsername(users, username).value].password)
    ensures r.body.AccessToken? ==>
      r.status == 200 &&
      r.body.accessToken == s.sign(Claims(username, users[FindByUsername(users, username).value].id))
    ensures FindByUsername(users, username).Some? && !r.body.AccessToken? ==>
      r == Response(401, Text("Invalid credentials"))
  {
    match FindByUsername(users, username)
    case None => Response(400, Text("Cannot find user"))
    case Some(i) =>
      var user := users[i];
      if s.compare(password, user.password) then
        Response(200, AccessToken(s.sign(Claims(user.username, user.id))))
      else
        Response(401, Text("Invalid credentials"))
  }

  /** `GET /profile`: behind `authenticateToken`, the username and bio of the
      record whose id the token names, or 404 when no record has it. */
  function GetProfile(s: Scheme, users: seq<User>, header: Option<string>): (r: Response)
    ensures r.status == 401 <==> Authenticate(s, header) == Unauthenticated
    ensures r.status == 403 <==> Authenticate(s, header) == Forbidden
    ensures r.status == 404 <==>
      Authenticate(s, header).Granted? && FindIndexById(users, Authenticate(s, header).claims.id) == -1
    ensures r.status == 200 ==>
      var k := FindIndexById(users, Authenticate(s, header).claims.id);
      0 <= k && r.body == Profile(users[k].username, users[k].bio)
    ensures !Authenticate(s, header).Granted? ==> r == Reject(Authenticate(s, header))
    ensures r.status in {200, 401, 403, 404}
  {
    match Authenticate(s, header)
    case Granted(claims) =>
      var k := FindIndexById(users, claims.id);
      if k >= 0 then Response(200, Profile(users[k].username, users[k].bio)) else UserNotFound
    case other => Reject(other)
  }

  /** `GET /wisdom`: behind `authenticateToken`, the entry at a position drawn
      uniformly from the stored entries. `draw` stands for
      `Math.floor(Math.random() * wisdoms.length)`, which is 0 for an empty
      list, whose entry 0 is `undefined`. */
  function GetWisdom(s: Scheme, wisdoms: seq<WisdomEntry>, header: Option<string>, draw: nat): (r: Response)
    requires draw < |wisdoms| || draw == 0
    ensures r.status == 200 <==> Authenticate(s, header).Granted?
    ensures !Authenticate(s, header).Granted? ==> r == Reject(Authenticate(s, header))
    ensures r.status == 200 ==> r.body.Wisdom? && (r.body.entry.Some? <==> |wisdoms| > 0)
    ensures r.status == 200 && |wisdoms| > 0 ==> r.body.entry.value in wisdoms
  {
    match Authenticate(s, header)
    case Granted(_) =>
      Response(200, Wisdom(if draw < |wisdoms| then Some(wisdoms[draw]) else None))
    case other => Reject(other)
  }

  /** No stored entry is out of reach of `GET /wisdom`. */
  lemma EveryWisdomReachable(s: Scheme, wisdoms: seq<WisdomEntry>, header: Option<string>, i: nat)
    requires Authenticate(s, header).Granted? && i < |wisdoms|
    ensures exists draw: nat :: draw < |wisdoms| && GetWisdom(s, wisdoms, header, draw) == Response(200, Wisdom(Some(wisdoms[i])))
  {
    assert GetWisdom(s, wisdoms, header, i) == Response(200, Wisdom(Some(wisdoms[i])));
  }

  /** The user table the server persists to `users.json`, with the hashing and
      token scheme the handlers use. */
  class UserStore {
    const scheme: Scheme
    var users: seq<User>

    ghost predicate Valid()
      reads this
    {
      Sound(scheme) && WellFormed(users)
    }

    /** A server that starts with an empty `users.json`. */
    constructor (scheme: Scheme)
      requires Sound(scheme)
      ensures Valid() && this.scheme == scheme && users == []
    {
      this.scheme := scheme;
      users := [];
    }

    /** `POST /register`: a taken username is refused with 400 and nothing is
        written; otherwise one record is appended, with the next id, the hash
        of the password (never the password) and `bio || ''`, and the answer
        is 201. */
    method Register(username: string, password: string, bio: Option<string>) returns (r: Response)
      requires Valid()
      modifies this
      ensures Valid()
      ensures FindByUsername(old(users), username).Some? ==>
        r == Response(400, Text("Username already exists")) && users == old(users)
      ensures FindByUsername(old(users), username).None? ==>
        && r == Response(201, Text("User registered successfully"))
        && users == old(users) + [NewUser(old(users), username, scheme.hash(password), bio)]
        && users[|old(users)|].password != password
    {
      if FindByUsername(users, username).Some? {
        return Response(400, Text("Username already exists"));
      }
      var hashedPassword := scheme.hash(password);
      var newUser := NewUser(users, username, hashedPassword, bio);
      AppendKeepsWellFormed(users, username, hashedPassword, bio);
      users := users + [newUser];
      r := Response(201, Text("User registered successfully"));
    }

    /** `PUT /profile`: behind `authenticateToken`, the bio of the record whose
        id the token names is replaced and nothing else changes; 404 and no
        write when no record has that id. */
    method UpdateProfile(header: Option<string>, bio: Option<string>) returns (r: Response)
      requires Valid()
      modifies this
      ensures Valid()
      ensures match Authenticate(scheme, header)
        case Granted(c) =>
          var k := FindIndexById(old(users), c.id);
          if k == -1 then r == UserNotFound && users == old(users)
          else
            && r == Response(200, Text("Profile updated successfully"))
            && users == old(users)[k := old(users)[k].(bio := bio)]
        case other => r == Reject(other) && users == old(users)
    {
      match Authenticate(scheme, header)
      case Granted(claims) =>
        var userIndex := FindIndexById(users, claims.id);
        if userIndex > -1 {
          SetBioKeepsWellFormed(users, userIndex, bio);
          users := users[userIndex := users[userIndex].(bio := bio)];
          r := Response(200, Text("Profile updated successfully"));
        } else {
          r := UserNotFound;
        }
      case other =>
        r := Reject(other);
    }
  }

  /** Logging in right after registering, with the same password, yields a
      token for the new username and the id registration gave it. */
  lemma LoginAfterRegister(s: Scheme, users: seq<User>, username: string, password: string, bio: Option<string>)
    requires Sound(s) && WellFormed(users)
    requires FindByUsername(users, username).None?
    ensures Login(s, users + [NewUser(users, username, s.hash(password), bio)], username, password)
      == Response(200, AccessToken(s.sign(Claims(username, |users| + 1))))
  {
    var after := users + [NewUser(users, username, s.hash(password), bio)];
    AppendKeepsWellFormed(users, username, s.hash(password), bio);
    FindByUsernameUnique(after, |users|);
  }

  /** Once a username is registered, registering it again is refused: the
      new table finds the name. */
  lemma RegisterTwiceRefused(users: seq<User>, username: string, hashed: string, bio: Option<string>)
    requires FindByUsername(users, username).None?
    ensures FindByUsername(users + [NewUser(users, username, hashed, bio)], username) == Some(|users|)
  {
    var after := users + [NewUser(users, username, hashed, bio)];
    assert after[|users|].username == username;
  }

  /** The token a successful login returns, sent back as `Bearer <token>`,
      opens `GET /profile` on the record of the user who logged in. */
  lemma LoginGrantsProfile(s: Scheme, users: seq<User>, username: string, password: string, token: string)
    requires Sound(s) && WellFormed(users)
    requires Login(s, users, username, password) == Response(200, AccessToken(token))
    ensures FindByUsername(users, username).Some?
    ensures GetProfile(s, users, Some("Bearer " + token))
      == Response(200, Profile(username, users[FindByUsername(users, username).value].bio))
  {
    var i := FindByUsername(users, username).value;
    SignedTokenGranted(s, Claims(username, users[i].id));
    FindIndexByIdExact(users, users[i].id);
  }

  /** Read after write: once `PUT /profile` has stored a bio, `GET /profile`
      with the same header returns it. */
  lemma ProfileAfterUpdate(s: Scheme, users: seq<User>, header: Option<string>, bio: Option<string>)
    requires Authenticate(s, header).Granted?
    requires FindIndexById(users, Authenticate(s, header).claims.id) >= 0
    ensures var k := FindIndexById(users, Authenticate(s, header).claims.id);
      GetProfile(s, users[k := users[k].(bio := bio)], header) == Response(200, Profile(users[k].username, bio))
  {
  }
}
