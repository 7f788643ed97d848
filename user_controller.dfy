/** The user handlers (controllers/user.controller.js): sign-up, log-in, read,
    update and delete. */
module UserController {
  import opened Common
  import opened UserModel

  const SIGNUP_MISSING := Reply(400, "Something is missing, fullname, username, email is required")
  const EMAIL_TAKEN := Reply(400, "Email is already taken")
  const USERNAME_TAKEN := Reply(400, "Username is already taken")
  const USER_CREATED := Reply(201, "User created successfully")
  const LOGIN_MISSING := Reply(400, "Something is missing username, password and role are required")
  const BAD_CREDENTIALS := Reply(400, "Invalid email or password")
  const ROLE_MISMATCH := Reply(403, "user is not exist with this role")
  const USER_NOT_FOUND := Reply(404, "User not found")
  const USER_FOUND := Reply(200, "these are the registered users")
  const NO_USERS := Reply(404, "No users found")
  const USERS_LISTED := Reply(200, "List of all registered users")
  const UPDATE_MISSING := Reply(400, "Something is missing, fullname, username, email are required")
  const USER_UPDATED := Reply(200, "User updated successfully")
  const USER_DELETED := Reply(200, "User deleted successfully")

  /** bcrypt as the handlers use it: `hash(password, salt)` and
      `compare(password, hash)`. The salt is a parameter because it is random. */
  datatype Hasher = Hasher(hash: (string, string) -> string, compare: (string, string) -> bool)

  /** What bcrypt guarantees: a password always matches its own hash, and a hash
      is 60 characters long. */
  ghost predicate Sound(h: Hasher)
  {
    forall p, salt :: |h.hash(p, salt)| == 60 && h.compare(p, h.hash(p, salt))
  }

  datatype SignupInput = SignupInput(
    fullname: Option<string>,
    username: Option<string>,
    email: Option<string>,
    password: Option<string>,
    role: Option<string>,
    avatar: Option<string>,
    bio: Option<string>)

  datatype LoginInput = LoginInput(username: Option<string>, password: Option<string>, role: Option<string>)

  datatype UpdateInput = UpdateInput(
    fullname: Option<string>,
    username: Option<string>,
    email: Option<string>,
    password: Option<string>,
    avatar: Option<string>,
    bio: Option<string>)

  /** The claims the log-in token is signed over. */
  datatype TokenPayload = TokenPayload(id: UserId, role: string)

  datatype LoginResult = LoggedIn(token: TokenPayload, user: User, reply: Reply) | Refused(reply: Reply)

  // ---------------------------------------------------------------------------
  // Lookups.

  /** `User.findOne({ _id })`: the position of the user with that id, if any. */
  function FindById(us: seq<User>, id: UserId): (r: Option<nat>)
    ensures r.None? <==> !IdTaken(us, id)
    ensures r.Some? ==> r.value < |us| && us[r.value].id == id
  {
    FirstIndex(us, (u: User) => u.id == id)
  }

  /** `User.findOne({ username })`: the position of the first user with that name, if any. */
  function FindByUsername(us: seq<User>, username: string): (r: Option<nat>)
    ensures r.None? <==> !UsernameTaken(us, username)
    ensures r.Some? ==> r.value < |us| && us[r.value].username == username
  {
    FirstIndex(us, (u: User) => u.username == username)
  }

  /** In a collection with unique ids, the user found by id is the one with that id. */
  lemma FindByIdUnique(us: seq<User>, i: nat)
    requires UsersOk(us) && i < |us|
    ensures FindById(us, us[i].id) == Some(i)
  {
  }

  /** In a collection with unique usernames, the user found by name is the one with that name. */
  lemma FindByUsernameUnique(us: seq<User>, i: nat)
    requires UsersOk(us) && i < |us|
    ensures FindByUsername(us, us[i].username) == Some(i)
  {
  }

  // ---------------------------------------------------------------------------
  // login

  /** login (controllers/user.controller.js:56-100). The presence check covers
      username and password only; a missing role reaches the role comparison and
      is refused there. */
  function Login(us: seq<User>, input: LoginInput, h: Hasher): (r: LoginResult)
    ensures r == Refused(LOGIN_MISSING) <==> !Truthy(input.username) || !Truthy(input.password)
    ensures (Truthy(input.username) && Truthy(input.password) && !UsernameTaken(us, input.username.value))
              ==> r == Refused(BAD_CREDENTIALS)
    ensures r.LoggedIn? ==>
              && r.user in us && r.user.username == input.username.value
              && h.compare(input.password.value, r.user.password)
              && input.role == Some(r.user.role)
              && r.token == TokenPayload(r.user.id, r.user.role)
              && r.reply == Reply(200, "Welcome back, " + r.user.fullname + "!")
    ensures r.Refused? ==> r.reply in {LOGIN_MISSING, BAD_CREDENTIALS, ROLE_MISMATCH}
    ensures Truthy(input.username) && Truthy(input.password) ==>
              var found := FindByUsername(us, input.username.value);
              found.Some? && !h.compare(input.password.value, us[found.value].password)
              ==> r == Refused(BAD_CREDENTIALS)
    ensures r == Refused(ROLE_MISMATCH) <==>
              && Truthy(input.username) && Truthy(input.password)
              && var found := FindByUsername(us, input.username.value);
                 && found.Some? && h.compare(input.password.value, us[found.value].password)
                 && input.role != Some(us[found.value].role)
  {
    if !Truthy(input.username) || !Truthy(input.password) then Refused(LOGIN_MISSING)
    else
      match FindByUsername(us, input.username.value)
      case None => Refused(BAD_CREDENTIALS)
      case Some(i) =>
        var user := us[i];
        if !h.compare(input.password.value, user.password) then Refused(BAD_CREDENTIALS)
        else if input.role != Some(user.role) then Refused(ROLE_MISMATCH)
        else LoggedIn(TokenPayload(user.id, user.role), user, Reply(200, "Welcome back, " + user.fullname + "!"))
  }

  /** With a sound hasher, a stored user who gives their username, a password
      whose hash is stored and their role is logged in as themselves. */
  lemma LoginSucceeds(us: seq<User>, i: nat, password: string, salt: string, h: Hasher)
    requires UsersOk(us) && Sound(h) && i < |us|
    requires password != "" && us[i].password == h.hash(password, salt)
    ensures Login(us, LoginInput(Some(us[i].username), Some(password), Some(us[i].role)), h)
            == LoggedIn(TokenPayload(us[i].id, us[i].role), us[i],
                        Reply(200, "Welcome back, " + us[i].fullname + "!"))
  {
    FindByUsernameUnique(us, i);
    assert h.compare(password, h.hash(password, salt));
  }

  /** An unknown username and a known username with a wrong password get the
      same reply, so the reply does not tell which usernames exist. */
  lemma LoginHidesUnknownUsernames(us: seq<User>, known: LoginInput, unknown: LoginInput, h: Hasher)
    requires Truthy(known.username) && Truthy(known.password)
    requires Truthy(unknown.username) && Truthy(unknown.password)
    requires !UsernameTaken(us, unknown.username.value)
    requires forall i :: 0 <= i < |us| && us[i].username == known.username.value ==>
               !h.compare(known.password.value, us[i].password)
    ensures Login(us, known, h) == Login(us, unknown, h) == Refused(BAD_CREDENTIALS)
  {
  }

  /** A stored user who gives correct credentials but no role passes the
      presence check and is refused by the role comparison, with 403. */
  lemma LoginNeedsRole(us: seq<User>, i: nat, password: string, salt: string, h: Hasher)
    requires UsersOk(us) && Sound(h) && i < |us|
    requires password != "" && us[i].password == h.hash(password, salt)
    ensures Login(us, LoginInput(Some(us[i].username), Some(password), None), h) == Refused(ROLE_MISMATCH)
  {
    FindByUsernameUnique(us, i);
    assert h.compare(password, h.hash(password, salt));
  }

  // ---------------------------------------------------------------------------
  // getUser and getAllUsers

  /** getUser (controllers/user.controller.js:118-135): the user with that id, or 404. */
  function GetUser(us: seq<User>, id: UserId): (r: (Reply, Option<User>))
    ensures r.1.Some? <==> IdTaken(us, id)
    ensures r.1.Some? ==> r.0 == USER_FOUND && r.1.value in us && r.1.value.id == id
    ensures r.1.None? ==> r.0 == USER_NOT_FOUND
  {
    match FindById(us, id)
    case None => (USER_NOT_FOUND, None)
    case Some(i) => (USER_FOUND, Some(us[i]))
  }

  /** getAllUsers (controllers/user.controller.js:138-157): every user in store
      order, or 404 when there are none. */
  function GetAllUsers(us: seq<User>): (r: (Reply, seq<User>))
    ensures r.0 == NO_USERS <==> us == []
    ensures r.0 == USERS_LISTED <==> us != []
    ensures multiset(r.1) == multiset(us)
  {
    if |us| == 0 then (NO_USERS, []) else (USERS_LISTED, us)
  }

  // ---------------------------------------------------------------------------
  // signup

  /** The presence check of signup: full name, username, email and password. */
  predicate SignupComplete(input: SignupInput)
  {
    Truthy(input.fullname) && Truthy(input.username) && Truthy(input.email) && Truthy(input.password)
  }

  /** The document signup builds: the password replaced by its hash and the role
      left to the schema default when the request has none. */
  function NewUser(input: SignupInput, h: Hasher, salt: string, id: UserId): (u: User)
    requires SignupComplete(input)
    ensures u.id == id && u.password == h.hash(input.password.value, salt)
    ensures u.role == if input.role.Some? then input.role.value else ROLE_USER
    ensures u.fullname == input.fullname.value && u.username == input.username.value
    ensures u.email == input.email.value && u.avatar == input.avatar && u.bio == input.bio
  {
    User(id, input.fullname.value, input.username.value, input.email.value,
         h.hash(input.password.value, salt),
         if input.role.Some? then input.role.value else ROLE_USER,
         input.avatar, input.bio)
  }

  /** With a sound hasher the stored hash always meets the password length rule,
      so a complete signup fails validation exactly when the username length, the
      email pattern, the role or the bio length is wrong. */
  lemma NewUserValid(input: SignupInput, h: Hasher, salt: string, id: UserId)
    requires SignupComplete(input) && Sound(h)
    ensures ValidUser(NewUser(input, h, salt, id)) <==>
              && USERNAME_MIN_LENGTH <= JsLength(input.username.value) <= USERNAME_MAX_LENGTH
              && IsEmail(input.email.value)
              && (input.role.None? || input.role.value == ROLE_USER || input.role.value == ROLE_ADMIN)
              && (input.bio.None? || JsLength(input.bio.value) <= BIO_MAX_LENGTH)
  {
    assert |h.hash(input.password.value, salt)| == 60;
  }

  /** Adding a valid user with a new id, username and email keeps the invariant. */
  lemma AppendKeepsInvariant(us: seq<User>, u: User)
    requires UsersOk(us) && ValidUser(u)
    requires !IdTaken(us, u.id) && !UsernameTaken(us, u.username) && !EmailTaken(us, u.email)
    ensures UsersOk(us + [u])
  {
    var r := us + [u];
    forall i, j | 0 <= i < j < |r|
      ensures r[i].id != r[j].id && r[i].username != r[j].username && r[i].email != r[j].email
    {
      assert r[i] == us[i];
      if j < |us| {
        assert r[j] == us[j];
      }
    }
    forall i | 0 <= i < |r| ensures ValidUser(r[i]) {
      if i < |us| {
        assert r[i] == us[i];
      }
    }
  }

  /** A user who has signed up can log in with the password they signed up
      with, under the role they were given. */
  lemma SignedUpUserLogsIn(us: seq<User>, input: SignupInput, h: Hasher, salt: string, id: UserId)
    requires SignupComplete(input) && Sound(h)
    requires UsersOk(us + [NewUser(input, h, salt, id)])
    ensures var u := NewUser(input, h, salt, id);
            Login(us + [u], LoginInput(input.username, input.password, Some(u.role)), h)
            == LoggedIn(TokenPayload(id, u.role), u, Reply(200, "Welcome back, " + u.fullname + "!"))
  {
    var u := NewUser(input, h, salt, id);
    assert (us + [u])[|us|] == u;
    LoginSucceeds(us + [u], |us|, input.password.value, salt, h);
  }

  // ---------------------------------------------------------------------------
  // updateUser

  /** The presence check of updateUser. `&&` binds tighter than `||`, so it asks
      for a full name, a username, and an email or a password. */
  predicate UpdateComplete(input: UpdateInput)
  {
    Truthy(input.fullname) && Truthy(input.username) && (Truthy(input.email) || Truthy(input.password))
  }

  /** The edits updateUser makes to the loaded user (controllers/user.controller.js:176-186). */
  function Edited(u: User, input: UpdateInput, h: Hasher, salt: string): User
  {
    u.(password := if Truthy(input.password) then h.hash(input.password.value, salt) else u.password,
       fullname := Or(input.fullname, u.fullname),
       username := Or(input.username, u.username),
       email := Or(input.email, u.email),
       avatar := if Truthy(input.fullname) then OptionalOr(input.avatar, u.avatar) else u.avatar,
       bio := OptionalOr(input.bio, u.bio))
  }

  /** What an update that passed the presence check does to a user: the id and
      the role never change; the full name and username become the ones sent; the
      email, password, avatar and bio change only when a non-empty one is sent, and
      a new password is stored hashed. In particular a request with a password but
      no email passes the check and keeps the old email. */
  lemma EditedFields(u: User, input: UpdateInput, h: Hasher, salt: string)
    requires UpdateComplete(input)
    ensures var r := Edited(u, input, h, salt);
      && r.id == u.id && r.role == u.role
      && r.fullname == input.fullname.value && r.username == input.username.value
      && r.email == (if Truthy(input.email) then input.email.value else u.email)
      && r.password == (if Truthy(input.password) then h.hash(input.password.value, salt) else u.password)
      && r.avatar == (if Truthy(input.avatar) then input.avatar else u.avatar)
      && r.bio == (if Truthy(input.bio) then input.bio else u.bio)
  {
  }

  /** The username and email of u appear at no position of us other than skip:
      what the unique indexes demand when u is written at skip. */
  predicate FreeFor(us: seq<User>, skip: nat, u: User)
  {
    forall j :: 0 <= j < |us| && j != skip ==> us[j].username != u.username && us[j].email != u.email
  }

  /** Replacing a user by a valid one with the same id and names free for it keeps the invariant. */
  lemma ReplaceKeepsInvariant(us: seq<User>, i: nat, u: User)
    requires UsersOk(us) && i < |us| && ValidUser(u) && u.id == us[i].id && FreeFor(us, i, u)
    ensures UsersOk(us[i := u])
  {
    var r := us[i := u];
    forall a, b | 0 <= a < b < |r|
      ensures r[a].id != r[b].id && r[a].username != r[b].username && r[a].email != r[b].email
    {
      if a == i {
        assert us[b].id != us[i].id;
      } else if b == i {
        assert us[a].id != us[i].id;
      }
    }
  }

  /** After an update that sets a new password, the user logs in with it. */
  lemma UpdatedPasswordLogsIn(us: seq<User>, i: nat, input: UpdateInput, h: Hasher, salt: string)
    requires UsersOk(us) && Sound(h) && i < |us| && UpdateComplete(input) && Truthy(input.password)
    requires ValidUser(Edited(us[i], input, h, salt)) && FreeFor(us, i, Edited(us[i], input, h, salt))
    ensures var u := Edited(us[i], input, h, salt);
            Login(us[i := u], LoginInput(input.username, input.password, Some(u.role)), h).LoggedIn?
  {
    var u := Edited(us[i], input, h, salt);
    ReplaceKeepsInvariant(us, i, u);
    LoginSucceeds(us[i := u], i, input.password.value, salt, h);
  }

  // ---------------------------------------------------------------------------
  // deleteUser

  /** Removing a user keeps the invariant. */
  lemma RemoveKeepsInvariant(us: seq<User>, i: nat)
    requires UsersOk(us) && i < |us|
    ensures UsersOk(us[..i] + us[i + 1..])
  {
    var r := us[..i] + us[i + 1..];
    forall a | 0 <= a < |r| ensures r[a] == us[if a < i then a else a + 1] {
    }
  }

  /** After a user is removed, looking up their id finds nothing. */
  lemma RemovedUserGone(us: seq<User>, i: nat)
    requires UsersOk(us) && i < |us|
    ensures GetUser(us[..i] + us[i + 1..], us[i].id) == (USER_NOT_FOUND, None)
  {
    var r := us[..i] + us[i + 1..];
    forall a | 0 <= a < |r| ensures r[a].id != us[i].id {
      if a < i {
        assert r[a] == us[a];
      } else {
        assert r[a] == us[a + 1];
      }
    }
  }

  // ---------------------------------------------------------------------------
  // The users collection.

  /** The users collection, in the order the database holds them. */
  class UserCollection {
    var users: seq<User>

    ghost predicate Valid()
      reads this
    {
      UsersOk(users)
    }

    constructor ()
      ensures Valid() && users == []
    {
      users := [];
    }

    /** `newUser.save()`: the validators and the unique indexes on username and
        email run, then the user is added to the collection. */
    method Insert(u: User) returns (saved: bool)
      modifies this
      ensures saved == (ValidUser(u) && !UsernameTaken(old(users), u.username) && !EmailTaken(old(users), u.email))
      ensures users == if saved then old(users) + [u] else old(users)
    {
      saved := ValidUser(u) && !UsernameTaken(users, u.username) && !EmailTaken(users, u.email);
      if saved {
        users := users + [u];
      }
    }

    /** `user.save()` on a loaded user at position i: the validators and the unique
        indexes run, then the stored user is replaced. */
    method Replace(i: nat, u: User) returns (saved: bool)
      requires i < |users|
      modifies this
      ensures saved == (ValidUser(u) && FreeFor(old(users), i, u))
      ensures users == if saved then old(users)[i := u] else old(users)
    {
      saved := ValidUser(u) && FreeFor(users, i, u);
      if saved {
        users := users[i := u];
      }
    }

    /** signup (controllers/user.controller.js:7-53). The email is looked up before
        the username; `id` is the id the database assigns and `salt` the random salt. */
    method Signup(input: SignupInput, h: Hasher, salt: string, id: UserId) returns (reply: Reply)
      requires Valid() && !IdTaken(users, id)
      modifies this
      ensures Valid()
      ensures !SignupComplete(input) ==> reply == SIGNUP_MISSING && users == old(users)
      ensures (SignupComplete(input) && EmailTaken(old(users), input.email.value))
                ==> reply == EMAIL_TAKEN && users == old(users)
      ensures (SignupComplete(input) && !EmailTaken(old(users), input.email.value)
                && UsernameTaken(old(users), input.username.value))
                ==> reply == USERNAME_TAKEN && users == old(users)
      ensures SignupComplete(input) && !EmailTaken(old(users), input.email.value)
                && !UsernameTaken(old(users), input.username.value) ==>
                var u := NewUser(input, h, salt, id);
                if ValidUser(u) then reply == USER_CREATED && users == old(users) + [u]
                else reply == SERVER_ERROR && users == old(users)
    {
      if !SignupComplete(input) {
        return SIGNUP_MISSING;
      }
      if EmailTaken(users, input.email.value) {
        return EMAIL_TAKEN;
      }
      if UsernameTaken(users, input.username.value) {
        return USERNAME_TAKEN;
      }
      var u := NewUser(input, h, salt, id);
      if ValidUser(u) {
        AppendKeepsInvariant(users, u);
      }
      var saved := Insert(u);
      reply := if saved then USER_CREATED else SERVER_ERROR;
    }

    /** updateUser (controllers/user.controller.js:161-199). The presence check
        runs before the lookup, so an incomplete request for a missing user gets
        400, not 404. The fields are edited one by one on the loaded user. */
    method UpdateUser(id: UserId, input: UpdateInput, h: Hasher, salt: string) returns (reply: Reply)
      requires Valid()
      modifies this
      ensures Valid()
      ensures !UpdateComplete(input) ==> reply == UPDATE_MISSING && users == old(users)
      ensures UpdateComplete(input) && !IdTaken(old(users), id) ==> reply == USER_NOT_FOUND && users == old(users)
      ensures UpdateComplete(input) && IdTaken(old(users), id) ==>
                var i := FindById(old(users), id).value;
                var u := Edited(old(users)[i], input, h, salt);
                if ValidUser(u) && FreeFor(old(users), i, u) then reply == USER_UPDATED && users == old(users)[i := u]
                else reply == SERVER_ERROR && users == old(users)
    {
      if !UpdateComplete(input) {
        return UPDATE_MISSING;
      }
      var found := FindById(users, id);
      if found.None? {
        return USER_NOT_FOUND;
      }
      var i := found.value;
      var user := users[i];
      if Truthy(input.password) {
        user := user.(password := h.hash(input.password.value, salt));
      }
      if Truthy(input.fullname) {
        user := user.(fullname := Or(input.fullname, user.fullname));
      }
      if Truthy(input.username) {
        user := user.(username := Or(input.username, user.username));
      }
      if Truthy(input.email) {
        user := user.(email := Or(input.email, user.email));
      }
      if Truthy(input.fullname) {
        user := user.(avatar := OptionalOr(input.avatar, user.avatar));
      }
      if Truthy(input.bio) {
        user := user.(bio := OptionalOr(input.bio, user.bio));
      }
      assert user == Edited(users[i], input, h, salt);
      if ValidUser(user) && FreeFor(users, i, user) {
        ReplaceKeepsInvariant(users, i, user);
      }
      var saved := Replace(i, user);
      reply := if saved then USER_UPDATED else SERVER_ERROR;
    }

    /** deleteUser (controllers/user.controller.js:202-217). */
    method DeleteUser(id: UserId) returns (reply: Reply)
      requires Valid()
      modifies this
      ensures Valid()
      ensures !IdTaken(old(users), id) ==> reply == USER_NOT_FOUND && users == old(users)
      ensures IdTaken(old(users), id) ==>
                var i := FindById(old(users), id).value;
                reply == USER_DELETED && users == old(users)[..i] + old(users)[i + 1..]
    {
      var found := FindById(users, id);
      if found.None? {
        return USER_NOT_FOUND;
      }
      var i := found.value;
      RemoveKeepsInvariant(users, i);
      users := users[..i] + users[i + 1..];
      reply := USER_DELETED;
    }
  }
}
