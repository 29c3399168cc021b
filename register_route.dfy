/** POST /api/register: account registration — the checks on the submitted
    fields, then an insert into the user table under a unique email. */
module RegisterRoute {
  import opened Wrappers
  import opened JsValues

  // ---------------------------------------------------------------------
  // The email pattern `^[^\s@]+@[^\s@]+\.[^\s@]+$`

  /** `s[lo..hi]` is a non-empty run of characters that are neither
      whitespace nor `@` (one `[^\s@]+`). */
  predicate Plain(s: string, lo: int, hi: int)
  {
    0 <= lo < hi <= |s| && forall k :: lo <= k < hi ==> !IsJsWhitespace(s[k]) && s[k] != '@'
  }

  /** The pattern matches with its `@` at `i` and its `\.` at `j`. */
  predicate EmailSplit(s: string, i: int, j: int)
  {
    && 0 <= i < j < |s| && s[i] == '@' && s[j] == '.'
    && Plain(s, 0, i) && Plain(s, i + 1, j) && Plain(s, j + 1, |s|)
  }

  predicate MatchesEmailRegex(s: string)
  {
    exists i, j :: 0 <= i < j < |s| && EmailSplit(s, i, j)
  }

  /** A `.` with at least one character on each side. */
  predicate HasInnerDot(t: string)
  {
    exists p :: 0 < p < |t| - 1 && t[p] == '.'
  }

  /** The same shape said in words: no whitespace, exactly one `@`, something
      before it, and after it a `.` with a character on each side. */
  predicate EmailShapeOk(s: string)
  {
    && (forall k :: 0 <= k < |s| ==> !IsJsWhitespace(s[k]))
    && exists i :: 0 < i < |s| && s[i] == '@' && (forall k :: 0 <= k < |s| && k != i ==> s[k] != '@') &&
         HasInnerDot(s[i + 1..])
  }

  lemma RegexGivesShape(s: string, i: int, j: int)
    requires EmailSplit(s, i, j)
    ensures EmailShapeOk(s)
  {
    forall k | 0 <= k < |s| ensures !IsJsWhitespace(s[k]) && (k != i ==> s[k] != '@') {
      if k < i {
        assert Plain(s, 0, i);
      } else if i < k < j {
        assert Plain(s, i + 1, j);
      } else if j < k {
        assert Plain(s, j + 1, |s|);
      }
    }
    var t := s[i + 1..];
    assert t[j - i - 1] == '.';
    assert HasInnerDot(t);
  }

  lemma ShapeGivesRegex(s: string)
    requires EmailShapeOk(s)
    ensures MatchesEmailRegex(s)
  {
    var i :| 0 < i < |s| && s[i] == '@' && (forall k :: 0 <= k < |s| && k != i ==> s[k] != '@') &&
             HasInnerDot(s[i + 1..]);
    var t := s[i + 1..];
    var p :| 0 < p < |t| - 1 && t[p] == '.';
    var j := i + 1 + p;
    assert s[j] == t[p];
    assert EmailSplit(s, i, j);
  }

  /** The pattern accepts exactly the addresses of that shape. */
  lemma EmailRegexIffShape(s: string)
    ensures MatchesEmailRegex(s) <==> EmailShapeOk(s)
  {
    if MatchesEmailRegex(s) {
      var i, j :| EmailSplit(s, i, j);
      RegexGivesShape(s, i, j);
    }
    if EmailShapeOk(s) {
      ShapeGivesRegex(s);
    }
  }

  // ---------------------------------------------------------------------
  // Field checks

  datatype RegisterError =
    | MissingRequiredFields  // 400 "missing required fields"
    | InvalidEmail           // 400 "invalid email"
    | InvalidPassword        // 400 "invalid password"
    | UserAlreadyExist       // 400 "user already exist"

  /** The checks before the insert, in order; `None` when all pass. Lengths
      are counted in characters. */
  function ValidateRegistration(email: Option<string>, password: Option<string>, password2: Option<string>)
    : (r: Option<RegisterError>)
    ensures r == Some(MissingRequiredFields) <==>
      !TruthyText(email) || !TruthyText(password) || !TruthyText(password2)
    ensures r == Some(InvalidEmail) <==>
      TruthyText(email) && TruthyText(password) && TruthyText(password2) && !EmailShapeOk(email.value)
    ensures r == Some(InvalidPassword) <==>
      TruthyText(email) && TruthyText(password) && TruthyText(password2) && EmailShapeOk(email.value) &&
      (|password.value| < 8 || password.value != password2.value)
    ensures r != Some(UserAlreadyExist)
  {
    if !TruthyText(email) || !TruthyText(password) || !TruthyText(password2) then Some(MissingRequiredFields)
    else if !MatchesEmailRegex(email.value) then
      EmailRegexIffShape(email.value);
      Some(InvalidEmail)
    else if |password.value| < 8 || password.value != password2.value then
      EmailRegexIffShape(email.value);
      Some(InvalidPassword)
    else
      EmailRegexIffShape(email.value);
      None
  }

  /** Accepted input: every field present, a well-formed address, and two
      equal passwords of at least eight characters. */
  lemma ValidationAccepts(email: Option<string>, password: Option<string>, password2: Option<string>)
    ensures ValidateRegistration(email, password, password2).None? <==>
      && TruthyText(email) && EmailShapeOk(email.value)
      && TruthyText(password) && |password.value| >= 8 && password2 == password
  {
  }

  // ---------------------------------------------------------------------
  // The user table

  /** A stored account; `passwordHash` is the hash the route computes. */
  datatype User = User(id: int, email: string, passwordHash: string)

  predicate UniqueEmails(users: seq<User>)
  {
    forall i, j :: 0 <= i < j < |users| ==> users[i].email != users[j].email
  }

  predicate WithEmail(users: seq<User>, email: string)
  {
    exists k :: 0 <= k < |users| && users[k].email == email
  }

  /** The whole request against table `users` with next key `nextId`: the
      answer, the new rows, the new next key. `hash` is the bcrypt hash of the
      password, which is not part of this model. */
  function RegisterUser(users: seq<User>, nextId: int,
                        email: Option<string>, password: Option<string>, password2: Option<string>, hash: string)
    : (r: (Result<User, RegisterError>, seq<User>, int))
    ensures r.0.Failure? ==> r.1 == users && r.2 == nextId
    ensures r.0 == Failure(UserAlreadyExist) <==>
      ValidateRegistration(email, password, password2).None? && WithEmail(users, email.value)
    ensures r.0.Failure? && r.0 != Failure(UserAlreadyExist) ==>
      Some(r.0.error) == ValidateRegistration(email, password, password2)
    ensures r.0.Success? ==>
      && ValidateRegistration(email, password, password2).None?
      && r.0.value == User(nextId, email.value, hash)
      && r.1 == users + [r.0.value] && r.2 == nextId + 1
  {
    match ValidateRegistration(email, password, password2)
    case Some(e) => (Failure(e), users, nextId)
    case None =>
      if WithEmail(users, email.value) then (Failure(UserAlreadyExist), users, nextId)
      else
        var u := User(nextId, email.value, hash);
        (Success(u), users + [u], nextId + 1)
  }

  /** Registration keeps emails unique and keys below the next key. */
  lemma RegisterKeepsUnique(users: seq<User>, nextId: int,
                            email: Option<string>, password: Option<string>, password2: Option<string>, hash: string)
    requires UniqueEmails(users) && forall k :: 0 <= k < |users| ==> users[k].id < nextId
    ensures var (_, users', nextId') := RegisterUser(users, nextId, email, password, password2, hash);
      UniqueEmails(users') && forall k :: 0 <= k < |users'| ==> users'[k].id < nextId'
  {
  }

  /** Registering the same address twice: the second request is refused and
      adds nobody. */
  lemma SecondRegistrationRefused(users: seq<User>, nextId: int,
                                  email: Option<string>, password: Option<string>, password2: Option<string>,
                                  hash: string, hash2: string)
    requires RegisterUser(users, nextId, email, password, password2, hash).0.Success?
    ensures var (_, users', nextId') := RegisterUser(users, nextId, email, password, password2, hash);
      RegisterUser(users', nextId', email, password, password2, hash2) == (Failure(UserAlreadyExist), users', nextId')
  {
    var (_, users', _) := RegisterUser(users, nextId, email, password, password2, hash);
    assert users'[|users|].email == email.value;
  }

  /** The user table: its rows and the next key it hands out. */
  class UserTable {
    var users: seq<User>
    var nextUserId: int

    ghost predicate Valid()
      reads this
    {
      UniqueEmails(users) && forall k :: 0 <= k < |users| ==> users[k].id < nextUserId
    }

    constructor ()
      ensures Valid() && users == [] && nextUserId == 1
    {
      users := [];
      nextUserId := 1;
    }

    /** POST /api/register against this table. */
    method Register(email: Option<string>, password: Option<string>, password2: Option<string>, hash: string)
      returns (r: Result<User, RegisterError>)
      requires Valid()
      modifies this
      ensures Valid()
      ensures (r, users, nextUserId) == RegisterUser(old(users), old(nextUserId), email, password, password2, hash)
    {
      var check := ValidateRegistration(email, password, password2);
      if check.Some? {
        return Failure(check.value);
      }
      var i := 0;
      while i < |users|
        invariant 0 <= i <= |users|
        invariant forall k :: 0 <= k < i ==> users[k].email != email.value
      {
        if users[i].email == email.value {
          return Failure(UserAlreadyExist);
        }
        i := i + 1;
      }
      var u := User(nextUserId, email.value, hash);
      users := users + [u];
      nextUserId := nextUserId + 1;
      return Success(u);
    }
  }
}
