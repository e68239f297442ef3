/** The mock session store of `src/contexts/AuthContext.tsx`: the current
    user, its persisted copy and the in-memory fixture list. */
module Auth {
  import opened Wrappers
  import Text

  /** `UserRole`: 'staff' | 'donor' | null. */
  datatype Role = Staff | Donor | NoRole

  datatype User = User(id: string, email: string, name: string, role: Role)

  /** `user` is the React state, `persisted` the record under the
      'aidconnect-user' storage key, `directory` the module-level `mockUsers`
      array, which `register` extends. */
  datatype Session = Session(user: Option<User>, persisted: Option<User>, directory: seq<User>)

  /** The outcome of `login` / `register`: the new session and the boolean
      the promise resolves to. */
  datatype Attempt = Attempt(session: Session, success: bool)

  /** The two seeded fixture identities. */
  const MockUsers: seq<User> := [
    User("1", "staff@aidconnect.org", "Admin Staff", Staff),
    User("2", "donor@example.com", "John Donor", Donor)
  ]

  /** The in-memory user and the persisted record agree. */
  ghost predicate Synced(s: Session) {
    s.user == s.persisted
  }

  /** The provider's initial state: the stored record if there is one. */
  function Init(stored: Option<User>): (s: Session)
    ensures s.user == stored && Synced(s)
    ensures s.directory == MockUsers
  {
    Session(stored, stored, MockUsers)
  }

  /** `isAuthenticated` is `!!user`. */
  function IsAuthenticated(s: Session): (b: bool)
    ensures b <==> s.user != None
  {
    s.user.Some?
  }

  /** The predicate of `mockUsers.find`. */
  predicate Matches(u: User, email: string, role: Role) {
    u.email == email && u.role == role
  }

  /** `i` is the position `find` stops at: the first match. */
  ghost predicate FirstMatchAt(directory: seq<User>, email: string, role: Role, i: int) {
    && 0 <= i < |directory|
    && Matches(directory[i], email, role)
    && forall j :: 0 <= j < i ==> !Matches(directory[j], email, role)
  }

  /** The index `find` returns its element from, or None when no entry
      matches. */
  function FindIndex(directory: seq<User>, email: string, role: Role): (r: Option<nat>)
    ensures r.Some? ==> FirstMatchAt(directory, email, role, r.value)
    ensures r.None? <==> forall j :: 0 <= j < |directory| ==> !Matches(directory[j], email, role)
  {
    if directory == [] then None
    else if Matches(directory[0], email, role) then Some(0)
    else
      match FindIndex(directory[1..], email, role)
      case None => None
      case Some(i) =>
        assert directory[1..][i] == directory[i + 1];
        Some(i + 1)
  }

  /** The user a non-fixture login fabricates. */
  function FreshUser(email: string, role: Role, now: nat): (u: User)
    ensures u.email == email && u.role == role
    ensures u.id == Text.NatToString(now)
    ensures u.name <= email && '@' !in u.name
    ensures '@' in email ==> |u.name| < |email| && email[|u.name|] == '@'
  {
    User(Text.NatToString(now), email, Text.LocalPart(email), role)
  }

  /** `login(email, password, role)`. `now` stands for `Date.now()`.
      The password is accepted and never looked at. */
  function Login(s: Session, email: string, password: string, role: Role, now: nat): (r: Attempt)
    ensures r.success <==> '@' in email || exists j :: 0 <= j < |s.directory| && Matches(s.directory[j], email, role)
    ensures !r.success ==> r.session == s
    ensures r.success ==> r.session.user.Some? && Synced(r.session)
    ensures r.session.directory == s.directory
    ensures r.success ==> var u := r.session.user.value;
      (exists i :: FirstMatchAt(s.directory, email, role, i) && u == s.directory[i])
      || (u == FreshUser(email, role, now)
          && forall j :: 0 <= j < |s.directory| ==> !Matches(s.directory[j], email, role))
  {
    var found := FindIndex(s.directory, email, role);
    if found.Some? || '@' in email then
      var u := if found.Some? then s.directory[found.value] else FreshUser(email, role, now);
      Attempt(s.(user := Some(u), persisted := Some(u)), true)
    else
      Attempt(s, false)
  }

  /** `logout()`: no user, no persisted record. */
  function Logout(s: Session): (r: Session)
    ensures r.user.None? && r.persisted.None?
    ensures !IsAuthenticated(r) && Synced(r)
    ensures r.directory == s.directory
  {
    s.(user := None, persisted := None)
  }

  /** `register(email, password, name, role)`: always succeeds, signs the
      new user in and appends it to the fixture list. */
  function Register(s: Session, email: string, password: string, name: string, role: Role, now: nat): (r: Attempt)
    ensures r.success
    ensures r.session.user == Some(User(Text.NatToString(now), email, name, role))
    ensures Synced(r.session)
    ensures r.session.directory == s.directory + [r.session.user.value]
  {
    var u := User(Text.NatToString(now), email, name, role);
    Attempt(Session(Some(u), Some(u), s.directory + [u]), true)
  }

  // ---------------------------------------------------------------------------
  // Properties
  // ---------------------------------------------------------------------------

  /** Both seeded fixture emails contain '@', so against the seeded list
      `login` succeeds exactly when the email contains '@'. */
  lemma LoginAgainstFixturesIff(stored: Option<User>, email: string, password: string, role: Role, now: nat)
    ensures Login(Init(stored), email, password, role, now).success <==> '@' in email
  {
  }

  /** The seeded donor fixture signs in verbatim. */
  lemma FixtureDonorLogin(stored: Option<User>, password: string, now: nat)
    ensures var r := Login(Init(stored), "donor@example.com", password, Donor, now);
      r.success && r.session.user == Some(User("2", "donor@example.com", "John Donor", Donor))
  {
  }

  /** A non-fixture success derives the display name from the email: the
      name followed by '@' starts the email. */
  lemma {:induction false} FreshNameIsLocalPart(s: Session, email: string, password: string, role: Role, now: nat)
    requires '@' in email
    requires forall j :: 0 <= j < |s.directory| ==> !Matches(s.directory[j], email, role)
    ensures var r := Login(s, email, password, role, now);
      r.success && r.session.user.value.email == email && r.session.user.value.role == role
      && exists rest :: email == r.session.user.value.name + "@" + rest
  {
    var r := Login(s, email, password, role, now);
    var name := r.session.user.value.name;
    assert r.session.user.value == FreshUser(email, role, now);
    assert email == name + "@" + email[|name| + 1..];
  }

  /** The password never influences `login` or `register`. */
  lemma PasswordIgnored(s: Session, email: string, p1: string, p2: string, name: string, role: Role, now: nat)
    ensures Login(s, email, p1, role, now) == Login(s, email, p2, role, now)
    ensures Register(s, email, p1, name, role, now) == Register(s, email, p2, name, role, now)
  {
  }

  /** Every operation leaves the persisted record equal to the user. */
  lemma OperationsKeepSynced(s: Session, email: string, password: string, name: string, role: Role, now: nat)
    requires Synced(s)
    ensures Synced(Login(s, email, password, role, now).session)
    ensures Synced(Register(s, email, password, name, role, now).session)
    ensures Synced(Logout(s))
  {
  }

  /** After `register`, logging in with the same email and role succeeds and
      yields the first matching entry: an earlier entry if there was one,
      otherwise the registered user. */
  lemma {:induction false} RegisterThenLogin(s: Session, email: string, p1: string, p2: string, name: string, role: Role, t1: nat, t2: nat)
    ensures var s1 := Register(s, email, p1, name, role, t1).session;
      var r := Login(s1, email, p2, role, t2);
      && r.success
      && r.session.user == Some(match FindIndex(s.directory, email, role)
                                case Some(i) => s.directory[i]
                                case None => s1.user.value)
  {
    var s1 := Register(s, email, p1, name, role, t1).session;
    var n := |s.directory|;
    assert Matches(s1.directory[n], email, role);
    match FindIndex(s.directory, email, role)
    case Some(i) =>
      assert FirstMatchAt(s1.directory, email, role, i);
      assert FindIndex(s1.directory, email, role) == Some(i);
    case None =>
      assert FirstMatchAt(s1.directory, email, role, n) by {
        forall j | 0 <= j < n ensures !Matches(s1.directory[j], email, role) {
          assert s1.directory[j] == s.directory[j];
        }
      }
      assert FindIndex(s1.directory, email, role) == Some(n);
  }
}
