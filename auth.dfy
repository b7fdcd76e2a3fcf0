/** The auth gate (`authMiddleware`) and the login decision (POST /admin).
    `jwt.verify`, `jwt.sign` and `bcrypt.compare` are passed in as functions about which
    nothing is known beyond what a lemma states in its requires. */
module Auth {
  import opened Common
  import opened UserModel

  const LoginRequired := "YOU HAVE TO LOGIN"
  const VerifyFailed := "An error occured"
  const BadCredentials := "Username - Password DOES NOT MATCH"

  /** The `token` cookie is truthy: present and not the empty string. */
  predicate Present(token: Option<string>)
  {
    token.Some? && token.value != ""
  }

  datatype Decision = Admit(userId: Id) | Deny(message: string)

  /** What the gate decides for a cookie. `verify(t)` is `None` where `jwt.verify` throws
      and `Some(decoded.userId)` where it succeeds. */
  function Gate(token: Option<string>, verify: string -> Option<Id>): (d: Decision)
    ensures d.Admit? <==> Present(token) && verify(token.value).Some?
    ensures d.Admit? ==> Some(d.userId) == verify(token.value)
    ensures !Present(token) ==> d == Deny("YOU HAVE TO LOGIN")
    ensures Present(token) && verify(token.value).None? ==> d == Deny("An error occured")
  {
    if !Present(token) then Deny(LoginRequired)
    else match verify(token.value)
      case None => Deny(VerifyFailed)
      case Some(id) => Admit(id)
  }

  /** An empty cookie is treated exactly like a missing one. */
  lemma EmptyTokenLikeMissing(verify: string -> Option<Id>)
    ensures Gate(Some(""), verify) == Gate(None, verify)
  {
  }

  /** The part of an Express request the gate reads and writes. */
  class Request {
    /** `req.cookies.token` */
    const token: Option<string>
    /** `req.userId` */
    var userId: Option<Id>
    /** The response sent so far, if any. */
    var response: Option<Response>
    /** How many times `next` has been called. */
    var nextCalls: nat

    constructor (token: Option<string>)
      ensures this.token == token
      ensures userId == None && response == None && nextCalls == 0
    {
      this.token := token;
      userId := None;
      response := None;
      nextCalls := 0;
    }

    /** `authMiddleware`: either answers 401 and stops, or sets `req.userId` and calls
        `next` once without answering. */
    method AuthMiddleware(verify: string -> Option<Id>)
      modifies this
      ensures var d := Gate(token, verify);
        if d.Admit? then
          userId == Some(d.userId) && nextCalls == old(nextCalls) + 1 && response == old(response)
        else
          response == Some(Json(401, d.message)) && userId == old(userId) && nextCalls == old(nextCalls)
    {
      if token.None? || token.value == "" {
        response := Some(Json(401, LoginRequired));
        return;
      }
      match verify(token.value) {
        case None =>
          response := Some(Json(401, VerifyFailed));
        case Some(id) =>
          userId := Some(id);
          nextCalls := nextCalls + 1;
      }
    }
  }

  /** POST /admin with `username` and `password`, over the users with ids below `bound`.
      `compare(plain, hash)` stands for `bcrypt.compare` and `sign(id)` for the token
      `jwt.sign({ userId: id }, secret)` returns. */
  function Login(users: map<Id, User>, bound: Id, username: string, password: string,
                 compare: (string, string) -> bool, sign: Id -> string): (r: Response)
    ensures r.Json? ==> r == Json(401, "Username - Password DOES NOT MATCH")
    ensures r.Redirect? ==> exists id | id in users && users[id].username == username ::
      compare(password, users[id].password) && r == Redirect(Dashboard, SetToken(sign(id)))
  {
    match FindUser(users, username, 0, bound)
    case None => Json(401, BadCredentials)
    case Some(id) =>
      if !compare(password, users[id].password) then Json(401, BadCredentials)
      else Redirect(Dashboard, SetToken(sign(id)))
  }

  /** Against a valid store, login succeeds exactly when a user holds the name and the
      password matches that user's hash; an unknown name and a wrong password get the
      same answer. */
  lemma LoginSucceedsIff(users: map<Id, User>, bound: Id, username: string, password: string,
                         compare: (string, string) -> bool, sign: Id -> string)
    requires StoreInvariant(users) && forall id | id in users :: id < bound
    ensures Login(users, bound, username, password, compare, sign).Redirect?
        <==> exists id | id in users :: users[id].username == username && compare(password, users[id].password)
    ensures !UsernameTaken(users, username)
        ==> Login(users, bound, username, password, compare, sign) == Json(401, "Username - Password DOES NOT MATCH")
  {
    var r := Login(users, bound, username, password, compare, sign);
    if id :| id in users && users[id].username == username && compare(password, users[id].password) {
      FindUserExact(users, username, bound);
      assert FindUser(users, username, 0, bound) == Some(id);
    }
    if !UsernameTaken(users, username) {
      FindUserExact(users, username, bound);
    }
  }

  /** A token issued at login passes the gate for the user who logged in, as long as
      `jwt.verify` undoes `jwt.sign` and signed tokens are never empty. */
  lemma LoginTokenPassesGate(users: map<Id, User>, bound: Id, username: string, password: string,
                             compare: (string, string) -> bool, sign: Id -> string,
                             verify: string -> Option<Id>, token: string)
    requires forall id: Id :: sign(id) != "" && verify(sign(id)) == Some(id)
    requires Login(users, bound, username, password, compare, sign) == Redirect(Dashboard, SetToken(token))
    ensures exists id | id in users && users[id].username == username :: Gate(Some(token), verify) == Admit(id)
  {
    var id :| id in users && users[id].username == username
      && compare(password, users[id].password)
      && Login(users, bound, username, password, compare, sign) == Redirect(Dashboard, SetToken(sign(id)));
    assert token == sign(id);
    assert Gate(Some(token), verify) == Admit(id);
  }
}
