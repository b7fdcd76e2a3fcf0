/** POST /register: the handler's six input checks, which run in a fixed order and
    stop at the first failure, and the mapping of `User.create`'s outcome to a status. */
module Registration {
  import opened Common
  import opened UserModel

  /** The handler's own minimum for username and password (the schema asks for 9). */
  const HandlerMinLength: nat := 5
  const PhonePrefix := "+32"

  const UserCreated := "User Created"
  const UsernameInUse := "Username already in use"
  const InternalError := "Internal server error"

  /** The request body of POST /register. */
  datatype Form = Form(
    username: string,
    password: string,
    email: string,
    phone: string,
    address: string,
    confirmPassword: string)

  // ---------------------------------------------------------------------------
  // Character classes and the email pattern
  // ---------------------------------------------------------------------------

  /** `\d`: an ASCII digit. */
  predicate IsDigit(c: char)
  {
    '0' <= c <= '9'
  }

  /** `/\d/.test(s)` */
  predicate HasDigit(s: string)
  {
    exists i | 0 <= i < |s| :: IsDigit(s[i])
  }

  /** `\s`: the characters JavaScript counts as white space or line terminators. */
  predicate IsSpace(c: char)
  {
    c == '\t' || c == '\n' || c == '\U{000B}' || c == '\U{000C}' || c == '\r' || c == ' '
    || c == '\U{00A0}' || c == '\U{1680}' || ('\U{2000}' <= c <= '\U{200A}')
    || c == '\U{2028}' || c == '\U{2029}' || c == '\U{202F}' || c == '\U{205F}'
    || c == '\U{3000}' || c == '\U{FEFF}'
  }

  /** `s[lo..hi]` is made of `\S` characters only. */
  predicate NoSpace(s: string, lo: nat, hi: nat)
    requires lo <= hi <= |s|
  {
    forall k | lo <= k < hi :: !IsSpace(s[k])
  }

  /** The meaning of the unanchored `/\S+@\S+\.\S+/.test(s)`: some stretch `s[lo..hi]`
      without white space reads x@y.z with x, y and z non-empty. */
  ghost predicate EmailShape(s: string)
  {
    exists lo: nat, at: nat, dot: nat, hi: nat
      | lo < at && at + 1 < dot && dot + 1 < hi <= |s|
      :: s[at] == '@' && s[dot] == '.' && NoSpace(s, lo, hi)
  }

  /** The email check as the handler runs it: it is enough to look at the shortest
      stretch, one character either side of the `@` and the `.`. */
  predicate EmailPattern(s: string)
  {
    exists at: nat, dot: nat | 1 <= at && at + 2 <= dot && dot + 2 <= |s|
      :: s[at] == '@' && s[dot] == '.' && NoSpace(s, at - 1, dot + 2)
  }

  /** The shortest-stretch check accepts exactly the strings the regular expression accepts. */
  lemma EmailPatternMeansShape(s: string)
    ensures EmailPattern(s) <==> EmailShape(s)
  {
    if EmailShape(s) {
      var lo: nat, at: nat, dot: nat, hi: nat :|
        lo < at && at + 1 < dot && dot + 1 < hi <= |s|
        && s[at] == '@' && s[dot] == '.' && NoSpace(s, lo, hi);
      assert NoSpace(s, at - 1, dot + 2);
    }
    if EmailPattern(s) {
      var at: nat, dot: nat :| 1 <= at && at + 2 <= dot && dot + 2 <= |s|
        && s[at] == '@' && s[dot] == '.' && NoSpace(s, at - 1, dot + 2);
      var lo: nat, hi: nat := at - 1, dot + 2;
      assert lo < at && at + 1 < dot && dot + 1 < hi <= |s|;
    }
  }

  /** The pattern is unanchored: text around an accepted address does not matter. */
  lemma EmailPatternUnanchored(before: string, s: string, after: string)
    requires EmailPattern(s)
    ensures EmailPattern(before + s + after)
  {
    var t := before + s + after;
    var at: nat, dot: nat :| 1 <= at && at + 2 <= dot && dot + 2 <= |s|
      && s[at] == '@' && s[dot] == '.' && NoSpace(s, at - 1, dot + 2);
    var n := |before|;
    assert t[n + at] == '@' && t[n + dot] == '.';
    forall k | n + at - 1 <= k < n + dot + 2
      ensures !IsSpace(t[k])
    {
      assert t[k] == s[k - n];
    }
    assert NoSpace(t, n + at - 1, n + dot + 2);
  }

  /** An accepted address contains an `@` and, after it, a `.`, and has at least five characters. */
  lemma EmailPatternNeeds(s: string)
    requires EmailPattern(s)
    ensures |s| >= 5
    ensures exists at, dot | 0 <= at < dot < |s| :: s[at] == '@' && s[dot] == '.'
  {
  }

  // ---------------------------------------------------------------------------
  // The six checks
  // ---------------------------------------------------------------------------

  datatype Rule =
    | UsernameLength
    | PasswordLength
    | UsernameDigit
    | EmailFormat
    | PhoneCountry
    | PasswordsMatch

  /** The order in which the handler applies the rules. */
  const RuleOrder: seq<Rule> :=
    [UsernameLength, PasswordLength, UsernameDigit, EmailFormat, PhoneCountry, PasswordsMatch]

  function Rank(r: Rule): (i: nat)
    ensures i < |RuleOrder| && RuleOrder[i] == r
  {
    match r
    case UsernameLength => 0
    case PasswordLength => 1
    case UsernameDigit => 2
    case EmailFormat => 3
    case PhoneCountry => 4
    case PasswordsMatch => 5
  }

  /** The message of the 400 response for a broken rule. */
  function Message(r: Rule): string
  {
    match r
    case UsernameLength => "Username must be at least 5 characters"
    case PasswordLength => "Password must be at least 5 characters"
    case UsernameDigit => "Username cannot contain numbers"
    case EmailFormat => "Invalid email format"
    case PhoneCountry => "Phone number must start with +32"
    case PasswordsMatch => "Password and Confirm Password do not match"
  }

  /** The form breaks rule `r`. */
  predicate Violates(r: Rule, f: Form)
  {
    match r
    case UsernameLength => |f.username| < HandlerMinLength
    case PasswordLength => |f.password| < HandlerMinLength
    case UsernameDigit => HasDigit(f.username)
    case EmailFormat => !EmailPattern(f.email)
    case PhoneCountry => !(PhonePrefix <= f.phone)
    case PasswordsMatch => f.password != f.confirmPassword
  }

  /** The chain of early returns: the first rule, in `RuleOrder`, that the form breaks. */
  function Check(f: Form): (r: Option<Rule>)
    ensures r.Some? ==> Violates(r.value, f)
    ensures r.None? ==> forall rule: Rule :: !Violates(rule, f)
    ensures r.Some? ==> forall i | 0 <= i < Rank(r.value) :: !Violates(RuleOrder[i], f)
  {
    if |f.username| < HandlerMinLength then Some(UsernameLength)
    else if |f.password| < HandlerMinLength then Some(PasswordLength)
    else if HasDigit(f.username) then Some(UsernameDigit)
    else if !EmailPattern(f.email) then Some(EmailFormat)
    else if !(PhonePrefix <= f.phone) then Some(PhoneCountry)
    else if f.password != f.confirmPassword then Some(PasswordsMatch)
    else None
  }

  /** The response of POST /register against the `users` collection, where `hashed` is
      what `bcrypt.hash(password, 10)` returned and `writeFails` says the database
      refuses the insert for a reason other than the unique index. */
  function RegisterResponse(users: map<Id, User>, f: Form, hashed: string, writeFails: bool): (r: Response)
    ensures r.Json?
    ensures r.code == 400 <==> Check(f).Some?
    ensures Check(f).Some? ==> r.message == Message(Check(f).value)
    ensures r.code == 201 <==> Check(f).None? && Conforms(User(f.username, hashed)) && !writeFails
                               && !UsernameTaken(users, f.username)
    ensures r.code == 201 ==> r.message == "User Created"
    ensures r.code == 409 <==> Check(f).None? && Conforms(User(f.username, hashed)) && !writeFails
                               && UsernameTaken(users, f.username)
    ensures r.code == 409 ==> r.message == "Username already in use"
    ensures r.code == 500 <==> Check(f).None? && (!Conforms(User(f.username, hashed)) || writeFails)
    ensures r.code == 500 ==> r.message == "Internal server error"
  {
    match Check(f)
    case Some(rule) => Json(400, Message(rule))
    case None =>
      var created := Create(users, User(f.username, hashed), writeFails);
      if created == Inserted then Json(201, UserCreated)
      else if created.Code() == Some(DuplicateKeyCode) then Json(409, UsernameInUse)
      else Json(500, InternalError)
  }

  /** A username with a digit is always refused with 400, whatever else the form holds. */
  lemma DigitInUsernameRefused(users: map<Id, User>, f: Form, hashed: string, writeFails: bool)
    requires HasDigit(f.username)
    ensures RegisterResponse(users, f, hashed, writeFails).code == 400
  {
  }

  /** A confirmation that differs from the password is always refused with 400. */
  lemma MismatchRefused(users: map<Id, User>, f: Form, hashed: string, writeFails: bool)
    requires f.password != f.confirmPassword
    ensures RegisterResponse(users, f, hashed, writeFails).code == 400
  {
  }

  /** The handler admits usernames of 5 to 8 characters that the schema refuses, and the
      schema's validation error carries no code 11000, so the answer is 500. */
  lemma ShortUsernameAnswers500(users: map<Id, User>, f: Form, hashed: string, writeFails: bool)
    requires Check(f).None? && |f.username| < MinLength
    ensures |f.username| >= HandlerMinLength
    ensures RegisterResponse(users, f, hashed, writeFails) == Json(500, "Internal server error")
  {
  }

  /** A bcrypt hash is 60 characters long, so the password's `minlength` never fails:
      a form that passes the checks with a long enough username gets 201 or 409 unless
      the write itself fails. */
  lemma BcryptHashNeverTooShort(users: map<Id, User>, f: Form, hashed: string, writeFails: bool)
    requires Check(f).None? && |f.username| >= MinLength && |hashed| == 60
    ensures RegisterResponse(users, f, hashed, writeFails).code in {201, 409} <==> !writeFails
  {
  }

  /** Registering a taken username a second time gives 409. */
  lemma SecondRegistrationConflicts(users: map<Id, User>, id: Id, f: Form, hashed: string, writeFails: bool,
                                    g: Form, hashed2: string)
    requires RegisterResponse(users, f, hashed, writeFails).code == 201
    requires g.username == f.username && Check(g).None? && |hashed2| >= MinLength
    ensures RegisterResponse(users[id := User(f.username, hashed)], g, hashed2, false) == Json(409, "Username already in use")
  {
    var users' := users[id := User(f.username, hashed)];
    assert users'[id].username == g.username;
  }
}
