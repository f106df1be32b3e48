/**
 * The mock identity store: an in-memory user catalog seeded with five users,
 * with a login that looks users up by email, a signup that validates its
 * input and appends a user, and a session recovery that looks a user up by id.
 * Delays, local storage, JSON parsing and the clock are not part of the model:
 * the stored session marker arrives already parsed and the creation
 * timestamp is a parameter.
 */
module MockData {
  import opened Wrappers
  import opened NumberText

  /** The three roles a user may have: 'admin', 'user' and 'demo'. */
  datatype Role = AdminRole | UserRole | DemoRole

  /** A user record; `avatarUrl` is absent for users created by signup. */
  datatype User = User(
    id: string,
    email: string,
    name: string,
    role: Role,
    createdAt: string,
    avatarUrl: Option<string>)

  /** The errors the store throws, each with the exact message it carries. */
  datatype AuthError = InvalidCredentials | PasswordTooShort | DuplicateEmail | NameTooShort
  {
    function Message(): (text: string)
      ensures InvalidCredentials? ==> text == "Invalid email or password"
      ensures PasswordTooShort? ==> text == "Password must be at least 6 characters"
      ensures DuplicateEmail? ==> text == "User with this email already exists"
      ensures NameTooShort? ==> text == "Name must be at least 2 characters"
    {
      match this
      case InvalidCredentials => "Invalid email or password"
      case PasswordTooShort => "Password must be at least 6 characters"
      case DuplicateEmail => "User with this email already exists"
      case NameTooShort => "Name must be at least 2 characters"
    }
  }

  const MinPasswordLength: nat := 6
  const MinNameLength: nat := 2

  /** `Array.prototype.find`: the first element that `matches` accepts, if any. */
  function Find<T>(s: seq<T>, matches: T -> bool): (r: Option<T>)
    ensures r.None? <==> forall i :: 0 <= i < |s| ==> !matches(s[i])
    ensures r.Some? ==>
      exists i :: 0 <= i < |s| && s[i] == r.value && matches(s[i]) &&
        forall j :: 0 <= j < i ==> !matches(s[j])
  {
    if s == [] then None
    else if matches(s[0]) then Some(s[0])
    else
      var r := Find(s[1..], matches);
      assert r.Some? ==> exists i :: 1 <= i < |s| && s[i] == r.value && matches(s[i]) &&
                                     forall j :: 0 <= j < i ==> !matches(s[j]) by {
        if r.Some? {
          var k :| 0 <= k < |s[1..]| && s[1..][k] == r.value && matches(s[1..][k]) &&
            forall j :: 0 <= j < k ==> !matches(s[1..][j]);
          assert s[k + 1] == r.value;
          forall j | 0 <= j < k + 1 ensures !matches(s[j]) {
            if j > 0 { assert s[j] == s[1..][j - 1]; }
          }
        }
      }
      r
  }

  /** Some catalog entry has this email. */
  ghost predicate HasEmail(users: seq<User>, email: string) {
    exists i :: 0 <= i < |users| && users[i].email == email
  }

  /** No two catalog entries share an email. */
  ghost predicate DistinctEmails(users: seq<User>) {
    forall i, j :: 0 <= i < j < |users| ==> users[i].email != users[j].email
  }

  /** The entry at index `i` has the id `String(i + 1)`. */
  ghost predicate SequentialIds(users: seq<User>) {
    forall i :: 0 <= i < |users| ==> users[i].id == NatToString(i + 1)
  }

  ghost predicate CatalogInvariant(users: seq<User>) {
    DistinctEmails(users) && SequentialIds(users)
  }

  /** The avatar URL of a seed user: a 200-pixel-wide photo on Pexels. */
  function PexelsAvatar(photo: string): string {
    "https://images.pexels.com/photos/" + photo + "/pexels-photo-" + photo + ".jpeg?auto=compress&cs=tinysrgb&w=200"
  }

  /** The five users the catalog starts with. */
  function SeedUsers(): (users: seq<User>)
    ensures |users| == 5
  {
    [ User("1", "admin@testapp.com", "Admin User", AdminRole, "2024-01-15T10:00:00Z",
           Some(PexelsAvatar("1181406"))),
      User("2", "user@testapp.com", "Regular User", UserRole, "2024-02-20T14:30:00Z",
           Some(PexelsAvatar("3184639"))),
      User("3", "demo@testapp.com", "Demo User", DemoRole, "2024-03-10T09:15:00Z",
           Some(PexelsAvatar("3184465"))),
      User("4", "john.doe@techcorp.com", "John Doe", UserRole, "2024-03-15T11:20:00Z",
           Some(PexelsAvatar("3861969"))),
      User("5", "sarah.smith@devstudio.io", "Sarah Smith", UserRole, "2024-03-18T16:45:00Z",
           Some(PexelsAvatar("3184291"))) ]
  }

  /** The seed catalog satisfies the catalog invariant. */
  lemma SeedInvariant()
    ensures CatalogInvariant(SeedUsers())
  {
  }

  /**
   * What a signup on the catalog `users` returns: the checks run in order
   * (duplicate email, password length, name length) and the first that
   * fails decides the error; otherwise the new user that is appended.
   */
  function SignupResult(users: seq<User>, email: string, password: string, name: string, createdAt: string)
    : (r: Result<User, AuthError>)
    ensures r == Err(DuplicateEmail) <==> HasEmail(users, email)
    ensures r == Err(PasswordTooShort) <==> !HasEmail(users, email) && |password| < MinPasswordLength
    ensures r == Err(NameTooShort) <==> !HasEmail(users, email) && |password| >= MinPasswordLength && |name| < MinNameLength
    ensures r.Ok? <==> !HasEmail(users, email) && |password| >= MinPasswordLength && |name| >= MinNameLength
    ensures r.Ok? ==> r.value == User(NatToString(|users| + 1), email, name, UserRole, createdAt, None)
  {
    if Find(users, (u: User) => u.email == email).Some? then Err(DuplicateEmail)
    else if |password| < MinPasswordLength then Err(PasswordTooShort)
    else if name == "" || |name| < MinNameLength then Err(NameTooShort)
    else Ok(User(NatToString(|users| + 1), email, name, UserRole, createdAt, None))
  }

  /** The catalog after a signup: one more entry on success, unchanged on failure. */
  function CatalogAfterSignup(users: seq<User>, r: Result<User, AuthError>): seq<User> {
    if r.Ok? then users + [r.value] else users
  }

  /** A signup keeps emails distinct and ids sequential. */
  lemma SignupPreservesInvariant(users: seq<User>, email: string, password: string, name: string, createdAt: string)
    requires CatalogInvariant(users)
    ensures CatalogInvariant(CatalogAfterSignup(users, SignupResult(users, email, password, name, createdAt)))
  {
  }

  /** What the browser's local storage holds under the session key, after `JSON.parse`. */
  datatype StoredSession =
    | Absent                        // no entry, or an empty one
    | Malformed                     // the text is not JSON, or parses to null, so reading `userId` throws
    | Parsed(userId: Option<string>) // an object; `userId` is absent or not a string when None

  /** The user catalog, updated in place by signup. */
  class MockUserStore {
    var users: seq<User>

    ghost predicate Valid()
      reads this
    {
      CatalogInvariant(users)
    }

    constructor ()
      ensures users == SeedUsers() && Valid()
    {
      users := SeedUsers();
      SeedInvariant();
    }

    /**
     * Logs in by email. There is no credential check: any password of at
     * least six characters is accepted for a known email.
     */
    function Login(email: string, password: string): (r: Result<User, AuthError>)
      reads this
      ensures r == Err(InvalidCredentials) <==> !HasEmail(users, email)
      ensures r == Err(PasswordTooShort) <==> HasEmail(users, email) && |password| < MinPasswordLength
      ensures r.Ok? <==> HasEmail(users, email) && |password| >= MinPasswordLength
      ensures r.Ok? ==>
        exists i :: 0 <= i < |users| && users[i] == r.value && users[i].email == email &&
          forall j :: 0 <= j < i ==> users[j].email != email
    {
      match Find(users, (u: User) => u.email == email)
      case None => Err(InvalidCredentials)
      case Some(user) =>
        if |password| < MinPasswordLength then Err(PasswordTooShort) else Ok(user)
    }

    /**
     * Recovers the logged-in user from the stored session marker. Once the
     * marker has been read, no outcome of parsing it makes the lookup fail.
     */
    function RecoverSession(stored: StoredSession): (r: Option<User>)
      reads this
      ensures !stored.Parsed? || stored.userId.None? ==> r == None
      ensures r.Some? ==> r.value in users && stored == Parsed(Some(r.value.id))
      ensures stored.Parsed? && stored.userId.Some? ==>
        (r.None? <==> forall i :: 0 <= i < |users| ==> users[i].id != stored.userId.value)
    {
      match stored
      case Absent => None
      case Malformed => None
      case Parsed(userId) =>
        match userId
        case None => None
        case Some(id) => Find(users, (u: User) => u.id == id)
    }

    /**
     * Signs up a new user: on success the user is appended to the catalog
     * and returned; on any error the catalog is unchanged.
     */
    method Signup(email: string, password: string, name: string, createdAt: string)
      returns (r: Result<User, AuthError>)
      modifies this
      ensures r == SignupResult(old(users), email, password, name, createdAt)
      ensures users == CatalogAfterSignup(old(users), r)
      ensures old(Valid()) ==> Valid()
      ensures r.Ok? ==> Login(email, password) == Ok(r.value)
    {
      var existing := Find(users, (u: User) => u.email == email);
      if existing.Some? {
        return Err(DuplicateEmail);
      }
      if |password| < MinPasswordLength {
        return Err(PasswordTooShort);
      }
      if name == "" || |name| < MinNameLength {
        return Err(NameTooShort);
      }
      var newUser := User(NatToString(|users| + 1), email, name, UserRole, createdAt, None);
      ghost var before := users;
      if CatalogInvariant(before) {
        SignupPreservesInvariant(before, email, password, name, createdAt);
      }
      users := users + [newUser];
      r := Ok(newUser);
      LoginOfNewestEntry(this, password);
    }
  }

  /** A login with the email of the last entry, when no earlier entry has it, returns that entry. */
  lemma LoginOfNewestEntry(store: MockUserStore, password: string)
    requires |store.users| > 0 && |password| >= MinPasswordLength
    requires !HasEmail(store.users[..|store.users| - 1], store.users[|store.users| - 1].email)
    ensures store.Login(store.users[|store.users| - 1].email, password) == Ok(store.users[|store.users| - 1])
  {
  }

  /** With distinct emails, a login with entry `i`'s email returns entry `i`. */
  lemma LoginReturnsTheEntry(store: MockUserStore, i: nat, password: string)
    requires store.Valid() && i < |store.users| && |password| >= MinPasswordLength
    ensures store.Login(store.users[i].email, password) == Ok(store.users[i])
  {
  }

  /** With sequential ids, a marker holding `String(k)` recovers entry `k - 1`. */
  lemma RecoverSessionById(store: MockUserStore, k: nat)
    requires store.Valid() && 1 <= k <= |store.users|
    ensures store.RecoverSession(Parsed(Some(NatToString(k)))) == Some(store.users[k - 1])
  {
    var r := store.RecoverSession(Parsed(Some(NatToString(k))));
    assert store.users[k - 1].id == NatToString(k);
    var i :| 0 <= i < |store.users| && store.users[i] == r.value;
    NatToStringInjective(i + 1, k);
  }

  /** The seeded admin logs in with any password of six or more characters. */
  lemma SeedAdminLogin(store: MockUserStore, password: string)
    requires store.users == SeedUsers() && |password| >= MinPasswordLength
    ensures store.Login("admin@testapp.com", password) == Ok(SeedUsers()[0])
    ensures SeedUsers()[0].role == AdminRole
  {
  }

  /** A fresh email with a six-character password and a two-character name is accepted. */
  lemma SeedSignupAtBoundaries(createdAt: string)
    ensures SignupResult(SeedUsers(), "new@x.com", "abcdef", "Jo", createdAt)
      == Ok(User("6", "new@x.com", "Jo", UserRole, createdAt, None))
  {
  }
}
