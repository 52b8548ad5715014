/** service/AuthenticationService and service/UserService: the login and
    registration rule chains. The static `currentUser` of the service is an
    explicit Session value that each operation takes and returns. BCrypt is
    not part of this model: password checking is the caller-supplied
    predicate `verify(password, hash)` and hashing the caller-supplied
    function `hashPassword`. */
module Authentication {
  import opened Wrappers
  import opened JavaText
  import opened UserModel
  import opened Persistence

  /** The logged-in user, null when nobody is logged in. */
  datatype Session = Session(currentUser: Option<User>)

  const MSG_USERNAME_REQUIRED: string := "Le nom d'utilisateur est requis"
  const MSG_PASSWORD_REQUIRED: string := "Le mot de passe est requis"
  const MSG_BAD_CREDENTIALS: string := "Nom d'utilisateur ou mot de passe incorrect"
  const MSG_DISABLED: string := "Ce compte est désactivé"
  /** PasswordHasher.hashPassword's IllegalArgumentException message. */
  const MSG_EMPTY_PASSWORD: string := "Le mot de passe ne peut pas être vide"

  const STAFF: string := "STAFF"
  const SUPPORTER: string := "SUPPORTER"

  /** Some stored user has this username (UserDAO.findByUsername finds a row). */
  predicate UsernameTaken(s: Store, username: string) {
    exists k :: k in s.users && s.users[k].username == username
  }

  /** Some stored user has this email (UserDAO.findByEmail finds a row). */
  predicate EmailTaken(s: Store, email: string) {
    exists k :: k in s.users && s.users[k].email == email
  }

  /** `found` is what UserDAO.findByUsername(username) may return: a stored
      user with exactly that username, or null when there is none. */
  predicate IsUsernameLookup(s: Store, username: string, found: Option<User>) {
    if found.Some? then
      found.value.id in s.users && s.users[found.value.id] == found.value && found.value.username == username
    else !UsernameTaken(s, username)
  }

  /** The lookup finds a user exactly when the username is taken. */
  lemma UsernameLookupFinds(s: Store, username: string, found: Option<User>)
    requires IsUsernameLookup(s, username, found)
    ensures found.Some? <==> UsernameTaken(s, username)
  {
    if found.Some? {
      assert s.users[found.value.id].username == username;
    }
  }

  /** With unique usernames the lookup has one possible answer. */
  lemma UsernameLookupDetermined(s: Store, username: string, found1: Option<User>, found2: Option<User>)
    requires UsersUnique(s)
    requires IsUsernameLookup(s, username, found1) && IsUsernameLookup(s, username, found2)
    ensures found1 == found2
  {
    UsernameLookupFinds(s, username, found1);
    UsernameLookupFinds(s, username, found2);
    if found1.Some? && found2.Some? {
      assert s.users[found1.value.id].username == s.users[found2.value.id].username;
    }
  }

  /** login(username, password), with `found` the result of
      findByUsername(username) on the untrimmed name. The checks run in
      order: blank username, empty password, unknown user, inactive account,
      wrong password. Only success changes the session. */
  function Login(session: Session, username: Option<string>, password: Option<string>,
                 found: Option<User>, verify: (string, string) -> bool): (r: (Result<User>, Session))
    ensures r.0.Err? ==> r.1 == session
    ensures r.0.Ok? ==> r.1 == Session(Some(r.0.value)) && found == Some(r.0.value)
    ensures username.None? || |Trim(username.value)| == 0 ==> r.0 == Err(MSG_USERNAME_REQUIRED)
    ensures username.Some? && |Trim(username.value)| > 0 ==>
              && (password.None? || |password.value| == 0 ==> r.0 == Err(MSG_PASSWORD_REQUIRED))
              && (password.Some? && |password.value| > 0 ==>
                    && (found.None? ==> r.0 == Err(MSG_BAD_CREDENTIALS))
                    && (found.Some? && !found.value.active ==> r.0 == Err(MSG_DISABLED))
                    && (found.Some? && found.value.active ==>
                          (r.0.Ok? <==> verify(password.value, found.value.passwordHash))))
    ensures r.0.Err? ==> r.0.message in {MSG_USERNAME_REQUIRED, MSG_PASSWORD_REQUIRED, MSG_BAD_CREDENTIALS, MSG_DISABLED}
  {
    if username.None? || |Trim(username.value)| == 0 then (Err(MSG_USERNAME_REQUIRED), session)
    else if password.None? || |password.value| == 0 then (Err(MSG_PASSWORD_REQUIRED), session)
    else if found.None? then (Err(MSG_BAD_CREDENTIALS), session)
    else if !found.value.active then (Err(MSG_DISABLED), session)
    else if !verify(password.value, found.value.passwordHash) then (Err(MSG_BAD_CREDENTIALS), session)
    else (Ok(found.value), Session(Some(found.value)))
  }

  /** An unknown username and a wrong password for an active account give
      the caller the same answer. */
  lemma UnknownUserLooksLikeWrongPassword(session: Session, username: string, password: string,
                                          user: User, verify: (string, string) -> bool)
    requires |Trim(username)| > 0 && |password| > 0
    requires user.active && !verify(password, user.passwordHash)
    ensures Login(session, Some(username), Some(password), None, verify).0
            == Login(session, Some(username), Some(password), Some(user), verify).0
            == Err(MSG_BAD_CREDENTIALS)
  {
  }

  /** An inactive account is refused before its password is looked at: the
      answer is the same whatever the password check would say. */
  lemma InactiveRefusedBeforePassword(session: Session, username: string, password: string,
                                      user: User, verify1: (string, string) -> bool, verify2: (string, string) -> bool)
    requires |Trim(username)| > 0 && |password| > 0 && !user.active
    ensures Login(session, Some(username), Some(password), Some(user), verify1)
            == Login(session, Some(username), Some(password), Some(user), verify2)
            == (Err(MSG_DISABLED), session)
  {
  }

  /** logout: the session is emptied. */
  function Logout(session: Session): (r: Session)
    ensures !IsLoggedIn(r)
  {
    Session(None)
  }

  /** isLoggedIn: the session holds a user, i.e. it is not the empty
      session logout leaves. */
  predicate IsLoggedIn(session: Session)
    ensures IsLoggedIn(session) <==> session != Session(None)
  {
    session.currentUser.Some?
  }

  /** hasRole(roleName): false without a user or without a role. */
  predicate HasRole(session: Session, roleName: string)
    ensures HasRole(session, roleName) ==> IsLoggedIn(session) && session.currentUser.value.role.Some?
  {
    session.currentUser.Some? && session.currentUser.value.role.Some?
    && session.currentUser.value.role.value.name == roleName
  }

  /** isStaff: a staff session is logged in and never a supporter one. */
  predicate IsStaff(session: Session)
    ensures IsStaff(session) ==> IsLoggedIn(session) && !HasRole(session, SUPPORTER)
  {
    assert STAFF[1] != SUPPORTER[1];
    HasRole(session, STAFF)
  }

  /** isSupporter: a supporter session is logged in and never a staff one. */
  predicate IsSupporter(session: Session)
    ensures IsSupporter(session) ==> IsLoggedIn(session) && !HasRole(session, STAFF)
  {
    assert STAFF[1] != SUPPORTER[1];
    HasRole(session, SUPPORTER)
  }

  /** After logout nobody is logged in and no role test succeeds. */
  lemma LogoutClearsRoles(session: Session, roleName: string)
    ensures !IsLoggedIn(Logout(session)) && !HasRole(Logout(session), roleName)
  {
  }

  /** A user holds one role at most, so STAFF and SUPPORTER exclude each other. */
  lemma StaffAndSupporterExclusive(session: Session)
    ensures !(IsStaff(session) && IsSupporter(session))
  {
    assert STAFF[1] != SUPPORTER[1];
  }

  /** A role test needs a logged-in user: one who has a role implies one is logged in. */
  lemma HasRoleImpliesLoggedIn(session: Session, roleName: string)
    requires HasRole(session, roleName)
    ensures IsLoggedIn(session)
  {
  }

  /** After a successful login the role tests read the returned user's role. */
  lemma LoginGrantsOwnRole(session: Session, username: Option<string>, password: Option<string>,
                           found: Option<User>, verify: (string, string) -> bool, roleName: string)
    requires Login(session, username, password, found, verify).0.Ok?
    ensures var r := Login(session, username, password, found, verify);
            && IsLoggedIn(r.1)
            && (HasRole(r.1, roleName) <==> r.0.value.role.Some? && r.0.value.role.value.name == roleName)
            && (IsStaff(r.1) <==> r.0.value.role.Some? && r.0.value.role.value.name == STAFF)
            && (IsSupporter(r.1) <==> r.0.value.role.Some? && r.0.value.role.value.name == SUPPORTER)
  {
  }

  // ---------------------------------------------------------------------
  // UserService.registerUser

  /** registerUser. The checks run in order: username taken, email taken,
      unknown role; each answers false. PasswordHasher.hashPassword then
      throws on an empty password, and the exception leaves registerUser
      with nothing written (Err). `accepted` says whether UserDAO.create's
      insert succeeded. A created user gets the next auto-increment id, is
      active, has the role found by name, and stores the hash of the
      password, never the password itself. */
  function RegisterUser(s: Store, username: string, email: string, password: string,
                        firstName: string, lastName: string, phone: string, roleName: string,
                        hashPassword: string -> string, accepted: bool): (r: (Result<bool>, Store))
    ensures UsernameTaken(s, username) ==> r == (Ok(false), s)
    ensures !UsernameTaken(s, username) && EmailTaken(s, email) ==> r == (Ok(false), s)
    ensures !UsernameTaken(s, username) && !EmailTaken(s, email) && roleName !in s.roles ==> r == (Ok(false), s)
    ensures !UsernameTaken(s, username) && !EmailTaken(s, email) && roleName in s.roles && |password| == 0 ==>
              r == (Err(MSG_EMPTY_PASSWORD), s)
    ensures r.0 != Ok(true) ==> r.1 == s
    ensures r.0 == Ok(true) <==>
              !UsernameTaken(s, username) && !EmailTaken(s, email) && roleName in s.roles && |password| > 0 && accepted
    ensures r.0 == Ok(true) ==>
              && r.1 == s.(users := r.1.users, nextUserId := s.nextUserId + 1)
              && r.1.users.Keys == s.users.Keys + {s.nextUserId}
              && (forall k :: k in s.users && k != s.nextUserId ==> r.1.users[k] == s.users[k])
              && var u := r.1.users[s.nextUserId];
                 && u.id == s.nextUserId && u.username == username && u.email == email
                 && u.passwordHash == hashPassword(password)
                 && u.firstName == firstName && u.lastName == lastName && u.phone == phone
                 && u.role == Some(s.roles[roleName]) && u.active
  {
    if UsernameTaken(s, username) then (Ok(false), s)
    else if EmailTaken(s, email) then (Ok(false), s)
    else if roleName !in s.roles then (Ok(false), s)
    else if |password| == 0 then (Err(MSG_EMPTY_PASSWORD), s)
    else if !accepted then (Ok(false), s)
    else
      var user := User(s.nextUserId, username, email, hashPassword(password), firstName, lastName, phone,
                       Some(s.roles[roleName]), true);
      (Ok(true), s.(users := s.users[s.nextUserId := user], nextUserId := s.nextUserId + 1))
  }

  /** Registration keeps usernames and emails unique and the store well formed. */
  lemma RegisterPreservesWellFormed(s: Store, username: string, email: string, password: string,
                                    firstName: string, lastName: string, phone: string, roleName: string,
                                    hashPassword: string -> string, accepted: bool)
    requires WellFormed(s)
    ensures WellFormed(RegisterUser(s, username, email, password, firstName, lastName, phone, roleName,
                                    hashPassword, accepted).1)
  {
    var r := RegisterUser(s, username, email, password, firstName, lastName, phone, roleName, hashPassword, accepted);
    if r.0 == Ok(true) {
      var s1 := r.1;
      var newId := s.nextUserId;
      assert newId !in s.users;
      forall i, j | i in s1.users && j in s1.users && i != j
        ensures s1.users[i].username != s1.users[j].username && s1.users[i].email != s1.users[j].email
      {
        if i == newId {
          assert s1.users[j] == s.users[j];
          assert !(s.users[j].username == username);
          assert !(s.users[j].email == email);
        } else if j == newId {
          assert s1.users[i] == s.users[i];
          assert !(s.users[i].username == username);
          assert !(s.users[i].email == email);
        }
      }
    }
  }

  /** A registered user can then log in with the same username and the
      password whose hash was stored, provided the check accepts it. */
  lemma RegisteredUserCanLogIn(s: Store, username: string, email: string, password: string,
                               firstName: string, lastName: string, phone: string, roleName: string,
                               hashPassword: string -> string, verify: (string, string) -> bool,
                               session: Session, found: Option<User>)
    requires WellFormed(s)
    requires |Trim(username)| > 0 && |password| > 0
    requires verify(password, hashPassword(password))
    requires RegisterUser(s, username, email, password, firstName, lastName, phone, roleName, hashPassword, true).0 == Ok(true)
    requires IsUsernameLookup(RegisterUser(s, username, email, password, firstName, lastName, phone, roleName,
                                           hashPassword, true).1, username, found)
    ensures Login(session, Some(username), Some(password), found, verify).0.Ok?
  {
    var s1 := RegisterUser(s, username, email, password, firstName, lastName, phone, roleName, hashPassword, true).1;
    RegisterPreservesWellFormed(s, username, email, password, firstName, lastName, phone, roleName, hashPassword, true);
    var created := Some(s1.users[s.nextUserId]);
    assert IsUsernameLookup(s1, username, created);
    UsernameLookupDetermined(s1, username, found, created);
  }
}
