/** The `User` model: the schema's validators, the unique index on `username`,
    the invariant they keep over the `users` collection, and `findOne`. */
module UserModel {
  import opened Common

  /** The `minlength` of both declared paths. */
  const MinLength: nat := 9
  /** The `minlength` message; the schema gives the username's message to the password as well. */
  const MinLengthMessage := "Username must be at least 9 characters"
  /** The code MongoDB reports when an insert violates a unique index. */
  const DuplicateKeyCode: int := 11000

  /** A stored user. Only the two paths the schema declares are stored: in its default
      strict mode Mongoose drops the undeclared `email`, `phone` and `address`. */
  datatype User = User(username: string, password: string)

  datatype Path = UsernamePath | PasswordPath

  datatype ValidatorError =
    | Required(path: Path)
    | TooShort(path: Path, message: string)

  /** The first failing validator of one path: `required` (an empty string counts as
      missing), then `minlength`. */
  function PathError(path: Path, value: string): Option<ValidatorError>
  {
    if value == "" then Some(Required(path))
    else if |value| < MinLength then Some(TooShort(path, MinLengthMessage))
    else None
  }

  function PathErrors(path: Path, value: string): seq<ValidatorError>
  {
    match PathError(path, value)
    case None => []
    case Some(e) => [e]
  }

  /** A document that passes validation. */
  predicate Conforms(u: User)
  {
    |u.username| >= MinLength && |u.password| >= MinLength
  }

  /** The errors document validation reports: `required` is subsumed by `minlength`,
      and every length error carries the one (username) message. */
  function SchemaErrors(u: User): (errs: seq<ValidatorError>)
    ensures errs == [] <==> Conforms(u)
    ensures |errs| <= 2
    ensures forall e | e in errs :: e.Required? || e.message == MinLengthMessage
  {
    PathErrors(UsernamePath, u.username) + PathErrors(PasswordPath, u.password)
  }

  /** A password of 1 to 8 characters is refused with the username's message. */
  lemma ShortPasswordGetsUsernameMessage(u: User)
    requires |u.username| >= MinLength && 0 < |u.password| < MinLength
    ensures SchemaErrors(u) == [TooShort(PasswordPath, "Username must be at least 9 characters")]
  {
  }

  predicate UsernameTaken(users: map<Id, User>, name: string)
  {
    exists id | id in users :: users[id].username == name
  }

  predicate UniqueUsernames(users: map<Id, User>)
  {
    forall i, j | i in users && j in users && i != j :: users[i].username != users[j].username
  }

  /** What `required`, `minlength` and `unique` guarantee of every stored user. */
  predicate StoreInvariant(users: map<Id, User>)
  {
    (forall id | id in users :: Conforms(users[id])) && UniqueUsernames(users)
  }

  /** What `User.create` resolves or rejects with. `WriteFailed` is any other rejection of
      the insert (a lost connection, a timeout); it carries no code 11000. */
  datatype CreateOutcome = Inserted | ValidationFailed(errors: seq<ValidatorError>) | DuplicateKey | WriteFailed
  {
    /** The `code` property of the error `create` rejects with: 11000 only from the unique index. */
    function Code(): Option<int>
    {
      if DuplicateKey? then Some(DuplicateKeyCode) else None
    }
  }

  /** `User.create(u)`: document validation runs first, then the insert, which the unique
      index may refuse. `writeFails` says the database refuses the write for a reason of
      its own, which the model leaves to the caller. */
  function Create(users: map<Id, User>, u: User, writeFails: bool): (r: CreateOutcome)
    ensures r == Inserted <==> Conforms(u) && !writeFails && !UsernameTaken(users, u.username)
    ensures r.Code() == Some(DuplicateKeyCode) <==> Conforms(u) && !writeFails && UsernameTaken(users, u.username)
    ensures r.ValidationFailed? <==> !Conforms(u)
    ensures r.ValidationFailed? ==> r.errors == SchemaErrors(u) && r.errors != []
    ensures r == WriteFailed <==> Conforms(u) && writeFails
  {
    var errs := SchemaErrors(u);
    if errs != [] then ValidationFailed(errs)
    else if writeFails then WriteFailed
    else if UsernameTaken(users, u.username) then DuplicateKey
    else Inserted
  }

  /** An accepted insert keeps the store invariant. */
  lemma CreateKeepsInvariant(users: map<Id, User>, id: Id, u: User, writeFails: bool)
    requires StoreInvariant(users) && id !in users
    requires Create(users, u, writeFails) == Inserted
    ensures StoreInvariant(users[id := u])
  {
    var users' := users[id := u];
    forall i, j | i in users' && j in users' && i != j
      ensures users'[i].username != users'[j].username
    {
      if i == id {
        assert users[j].username != u.username;
      } else if j == id {
        assert users[i].username != u.username;
      }
    }
  }

  /** `User.findOne({ username: name })` over the ids in [from, bound): the first
      matching user in natural order. */
  function FindUser(users: map<Id, User>, name: string, from: Id, bound: Id): (r: Option<Id>)
    decreases bound - from
    ensures r.Some? ==> from <= r.value < bound && r.value in users && users[r.value].username == name
    ensures r.Some? ==> forall i | from <= i < r.value && i in users :: users[i].username != name
    ensures r.None? ==> forall i | from <= i < bound && i in users :: users[i].username != name
  {
    if from >= bound then None
    else if from in users && users[from].username == name then Some(from)
    else FindUser(users, name, from + 1, bound)
  }

  /** With unique usernames and every id below `bound`, `findOne` finds exactly the user
      holding the name, and nothing when nobody does. */
  lemma FindUserExact(users: map<Id, User>, name: string, bound: Id)
    requires StoreInvariant(users) && forall id | id in users :: id < bound
    ensures FindUser(users, name, 0, bound).None? <==> !UsernameTaken(users, name)
    ensures forall id | id in users && users[id].username == name :: FindUser(users, name, 0, bound) == Some(id)
  {
  }
}
